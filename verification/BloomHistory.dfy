/**
  What the runs of a Bloom index store, lose and find. Every completed insert adds exactly its
  tuple, nothing but a vacuum removes one, a scan finds each matching row that was inserted before
  it began and not deleted meanwhile, and whatever it finds was in the index and matched.
 */
module BloomHistory {
  import opened Common
  import opened BloomSignature
  import opened BloomPages
  import opened BloomProtocol

  // ---------------------------------------------------------------------------
  // Contents of changed page lists.

  lemma {:induction false} ContentsUpdateAt(pages: seq<Page>, b: nat, p: Page, t: Tuple)
    requires b < |pages|
    ensures Contents(pages[b := p])[t] + multiset(Items(pages[b]))[t]
         == Contents(pages)[t] + multiset(Items(p))[t]
  {
    hide Items;
    var n := |pages| - 1;
    var pages' := pages[b := p];
    if b < n {
      assert pages'[..n] == pages[..n][b := p];
      ContentsUpdateAt(pages[..n], b, p, t);
    } else {
      assert pages'[..n] == pages[..n];
    }
  }

  lemma ContentsUpdate(pages: seq<Page>, b: nat, p: Page)
    requires b < |pages|
    ensures Contents(pages[b := p]) + multiset(Items(pages[b])) == Contents(pages) + multiset(Items(p))
  {
    hide Items;
    forall t: Tuple
      ensures Contents(pages[b := p])[t] + multiset(Items(pages[b]))[t]
           == Contents(pages)[t] + multiset(Items(p))[t]
    {
      ContentsUpdateAt(pages, b, p, t);
    }
  }

  lemma ContentsExtend(pages: seq<Page>, p: Page)
    ensures Contents(pages + [p]) == Contents(pages) + multiset(Items(p))
  {
    assert (pages + [p])[..|pages|] == pages;
  }

  lemma {:induction false} InContents(pages: seq<Page>, t: Tuple)
    ensures t in Contents(pages) <==> exists b :: 0 <= b < |pages| && t in Items(pages[b])
  {
    hide Items;
    if pages != [] {
      var n := |pages| - 1;
      InContents(pages[..n], t);
      if t in Contents(pages[..n]) {
        var b :| 0 <= b < n && t in Items(pages[..n][b]);
        assert t in Items(pages[b]);
      } else if b :| 0 <= b < |pages| && t in Items(pages[b]) {
        assert b < n ==> pages[..n][b] == pages[b];
      }
    }
  }

  lemma AddContents(pages: seq<Page>, b: nat, p: Page, t: Tuple)
    requires b < |pages| && Items(p) == Items(pages[b]) + [t]
    ensures Contents(pages[b := p]) == Contents(pages) + multiset{t}
  {
    ContentsUpdate(pages, b, p);
    var c, c', was := Contents(pages), Contents(pages[b := p]), multiset(Items(pages[b]));
    assert multiset(Items(p)) == was + multiset{t};
    assert c' + was == (c + multiset{t}) + was;
    MultisetCancel(c', c + multiset{t}, was);
  }

  lemma MultisetCancel(a: multiset<Tuple>, b: multiset<Tuple>, x: multiset<Tuple>)
    requires a + x == b + x
    ensures a == b
  {
    forall t: Tuple
      ensures a[t] == b[t]
    {
      assert (a + x)[t] == (b + x)[t];
    }
  }

  lemma VacuumContents(words: nat, pages: seq<Page>, b: nat, dead: set<nat>)
    requires PagesOk(words, pages) && 1 <= b < |pages|
    ensures var pages' := pages[b := VacuumPage(pages[b], dead)];
            Contents(pages') + Victims(Items(pages[b]), dead) == Contents(pages)
  {
    var p := VacuumPage(pages[b], dead);
    VacuumPageItems(words, pages[b], dead);
    ContentsUpdate(pages, b, p);
    var c, c', gone := Contents(pages), Contents(pages[b := p]), Victims(Items(pages[b]), dead);
    var kept := multiset(Items(p));
    assert (c' + gone) + kept == c + kept;
    MultisetCancel(c' + gone, c, kept);
  }

  // ---------------------------------------------------------------------------
  // What a step stores and erases.

  /** The insert that the step completes: its backend was inserting, and is gone without having
      left. */
  predicate Completes(s: State, a: Action)
    requires Enabled(s, a)
  {
    && !a.ExtendOnly? && !a.Leave? && a.pid in s.procs && Inserting(s.procs[a.pid])
    && a.pid !in Apply(s, a).procs
  }

  function StoredBy(s: State, a: Action): multiset<Tuple>
    requires Enabled(s, a)
  {
    if Completes(s, a) then multiset{s.procs[a.pid].t} else multiset{}
  }

  function ErasedBy(s: State, a: Action): multiset<Tuple>
    requires Enabled(s, a)
  {
    if a.VacuumBlock? then Victims(Items(s.pages[s.procs[a.pid].blkno]), s.procs[a.pid].dead) else multiset{}
  }

  /** The block that an insert tries, takes or adds. */
  function Target(s: State, a: Action): nat
    requires Enabled(s, a) && (a.TryFirst? || a.TryQueued?)
  {
    if a.TryFirst? then s.procs[a.pid].blkno else s.meta.notFull[s.procs[a.pid].n]
  }

  lemma TryStep(s: State, a: Action)
    requires Enabled(s, a) && (a.TryFirst? || a.TryQueued?)
    ensures var r := TryAdd(s.words, s.pages[Target(s, a)], s.procs[a.pid].t);
            && Completes(s, a) == r.Some?
            && Apply(s, a).pages == if r.Some? then s.pages[Target(s, a) := r.value] else s.pages
  {
    hide TryAdd;
  }

  /** Trying a page stores the tuple or changes nothing. */
  lemma TryConserves(s: State, a: Action)
    requires Enabled(s, a) && (a.TryFirst? || a.TryQueued?)
    ensures Contents(Apply(s, a).pages) == Contents(s.pages) + StoredBy(s, a)
  {
    TryStep(s, a);
    var t, b := s.procs[a.pid].t, Target(s, a);
    var r := TryAdd(s.words, s.pages[b], t);
    hide Apply, Completes, Target;
    if r.Some? {
      AddContents(s.pages, b, r.value, t);
    }
  }

  lemma GrowStep(s: State, a: Action)
    requires Enabled(s, a) && (a.TakeFree? || a.Extend?)
    ensures Completes(s, a)
    ensures var p := Data(false, [s.procs[a.pid].t]);
            Apply(s, a).pages == if a.TakeFree? then s.pages[a.blkno := p] else s.pages + [p]
  {
  }

  /** So do the page that was free and the one that is added. */
  lemma GrowConserves(s: State, a: Action)
    requires Enabled(s, a) && (a.TakeFree? || a.Extend?)
    ensures Contents(Apply(s, a).pages) == Contents(s.pages) + StoredBy(s, a)
  {
    GrowStep(s, a);
    var t := s.procs[a.pid].t;
    if a.TakeFree? {
      AddContents(s.pages, a.blkno, Data(false, [t]), t);
    } else {
      ContentsExtend(s.pages, Data(false, [t]));
    }
    hide Apply, Completes;
  }

  lemma VacuumConserves(s: State, pid: nat)
    requires Inv(s) && Enabled(s, VacuumBlock(pid))
    ensures Contents(Apply(s, VacuumBlock(pid)).pages) + ErasedBy(s, VacuumBlock(pid)) == Contents(s.pages)
  {
    hide VacuumPage, NotFull;
    assert ProcOk(s.pages, s.meta, s.procs[pid]);
    VacuumContents(s.words, s.pages, s.procs[pid].blkno, s.procs[pid].dead);
  }

  /** All other steps leave the pages alone, and complete nothing. */
  lemma QuietStep(s: State, a: Action)
    requires Enabled(s, a) && !a.TryFirst? && !a.TryQueued? && !a.TakeFree? && !a.Extend?
    ensures !Completes(s, a)
    ensures !a.VacuumBlock? ==> Apply(s, a).pages == if a.ExtendOnly? then s.pages + [New] else s.pages
  {
  }

  /** A step that completes an insert adds exactly its tuple, a vacuum step removes the tuples it
      names from its page, and no other step changes the contents. */
  lemma StepConserves(s: State, a: Action)
    requires Inv(s) && Enabled(s, a)
    ensures Contents(Apply(s, a).pages) + ErasedBy(s, a) == Contents(s.pages) + StoredBy(s, a)
  {
    hide Inv, Enabled, Apply, Completes;
    match a
    case TryFirst(_) => TryConserves(s, a);
    case TryQueued(_) => TryConserves(s, a);
    case TakeFree(_, _) => GrowConserves(s, a);
    case Extend(_) => GrowConserves(s, a);
    case ExtendOnly =>
      ContentsExtend(s.pages, New);
      QuietStep(s, a);
    case VacuumBlock(pid) =>
      VacuumConserves(s, pid);
      QuietStep(s, a);
    case _ => QuietStep(s, a);
  }

  // ---------------------------------------------------------------------------
  // What a run stores and erases, read off its actions.

  function Erased(s: State, acts: seq<Action>): multiset<Tuple>
    requires CanRun(s, acts)
    decreases |acts|
  {
    if acts == [] then multiset{} else ErasedBy(s, acts[0]) + Erased(Apply(s, acts[0]), acts[1..])
  }

  function BegunBy(a: Action): multiset<Tuple> {
    if a.BeginInsert? then multiset{a.t} else multiset{}
  }

  /** The tuples of all inserts begun. */
  function Begun(acts: seq<Action>): multiset<Tuple> {
    if acts == [] then multiset{} else BegunBy(acts[0]) + Begun(acts[1..])
  }

  function AbandonedBy(s: State, a: Action): multiset<Tuple> {
    if a.Leave? && a.pid in s.procs && Inserting(s.procs[a.pid]) then multiset{s.procs[a.pid].t} else multiset{}
  }

  /** The tuples of the inserts that a backend gave up. */
  function Abandoned(s: State, acts: seq<Action>): multiset<Tuple>
    requires CanRun(s, acts)
    decreases |acts|
  {
    if acts == [] then multiset{} else AbandonedBy(s, acts[0]) + Abandoned(Apply(s, acts[0]), acts[1..])
  }

  function CarriedBy(procs: map<nat, Proc>, pid: nat): multiset<Tuple> {
    if pid in procs && Inserting(procs[pid]) then multiset{procs[pid].t} else multiset{}
  }

  /** The tuples that the inserts under way carry, of backends below n. */
  function Carried(procs: map<nat, Proc>, n: nat): multiset<Tuple> {
    if n == 0 then multiset{} else Carried(procs, n - 1) + CarriedBy(procs, n - 1)
  }

  lemma {:induction false} CarriedSame(procs: map<nat, Proc>, procs': map<nat, Proc>, n: nat)
    requires forall pid: nat :: pid < n ==> CarriedBy(procs, pid) == CarriedBy(procs', pid)
    ensures Carried(procs, n) == Carried(procs', n)
  {
    hide CarriedBy;
    if n > 0 {
      CarriedSame(procs, procs', n - 1);
    }
  }

  lemma {:induction false} CarriedUpdate(procs: map<nat, Proc>, procs': map<nat, Proc>, pid: nat, n: nat)
    requires pid < n && forall q: nat :: q < n && q != pid ==> CarriedBy(procs, q) == CarriedBy(procs', q)
    ensures Carried(procs', n) + CarriedBy(procs, pid) == Carried(procs, n) + CarriedBy(procs', pid)
  {
    hide CarriedBy;
    if pid == n - 1 {
      CarriedSame(procs, procs', n - 1);
    } else {
      CarriedUpdate(procs, procs', pid, n - 1);
      AddBoth(Carried(procs', n - 1), CarriedBy(procs, pid), Carried(procs, n - 1), CarriedBy(procs', pid),
              CarriedBy(procs, n - 1));
    }
  }

  lemma AddBoth(a: multiset<Tuple>, x: multiset<Tuple>, b: multiset<Tuple>, y: multiset<Tuple>, k: multiset<Tuple>)
    requires a + x == b + y
    ensures (a + k) + x == (b + k) + y
  {
    forall t: Tuple
      ensures ((a + k) + x)[t] == ((b + k) + y)[t]
    {
      assert (a + x)[t] == (b + y)[t];
    }
  }

  lemma Exchange(c: multiset<Tuple>, c': multiset<Tuple>, own: multiset<Tuple>, own': multiset<Tuple>,
                 gone: multiset<Tuple>, begun: multiset<Tuple>)
    requires c' + own == c + own' && gone + own' == begun + own
    ensures gone + c' == begun + c
  {
    forall t: Tuple
      ensures (gone + c')[t] == (begun + c)[t]
    {
      assert (c' + own)[t] == (c + own')[t] && (gone + own')[t] == (begun + own)[t];
    }
  }

  predicate Below(a: Action, n: nat) {
    a.ExtendOnly? || a.pid < n
  }

  /** An insert begins by carrying its tuple, keeps that one, and ends by storing or abandoning
      it. */
  lemma StepCarries(s: State, a: Action, n: nat)
    requires Enabled(s, a) && Below(a, n)
    ensures StoredBy(s, a) + AbandonedBy(s, a) + Carried(Apply(s, a).procs, n) == BegunBy(a) + Carried(s.procs, n)
  {
    hide Carried;
    var procs, procs' := s.procs, Apply(s, a).procs;
    if a.ExtendOnly? {
      CarriedSame(procs, procs', n);
    } else {
      OthersCarry(s, a);
      CarriedUpdate(procs, procs', a.pid, n);
      OwnCarries(s, a);
      Exchange(Carried(procs, n), Carried(procs', n), CarriedBy(procs, a.pid), CarriedBy(procs', a.pid),
               StoredBy(s, a) + AbandonedBy(s, a), BegunBy(a));
    }
  }

  lemma OthersCarry(s: State, a: Action)
    requires Enabled(s, a) && !a.ExtendOnly?
    ensures forall q: nat :: q != a.pid ==> CarriedBy(s.procs, q) == CarriedBy(Apply(s, a).procs, q)
  {
  }

  /** What becomes of the tuple that a backend carries. */
  lemma OwnProc(s: State, a: Action)
    requires Enabled(s, a) && !a.ExtendOnly?
    ensures var procs, procs', pid := s.procs, Apply(s, a).procs, a.pid;
            if a.BeginInsert? then pid !in procs && pid in procs' && Inserting(procs'[pid]) && procs'[pid].t == a.t
            else if pid in procs && Inserting(procs[pid]) then
              pid in procs' ==> !a.Leave? && Inserting(procs'[pid]) && procs'[pid].t == procs[pid].t
            else pid in procs' ==> !Inserting(procs'[pid])
  {
  }

  lemma OwnCarries(s: State, a: Action)
    requires Enabled(s, a) && !a.ExtendOnly?
    ensures StoredBy(s, a) + AbandonedBy(s, a) + CarriedBy(Apply(s, a).procs, a.pid) ==
            BegunBy(a) + CarriedBy(s.procs, a.pid)
  {
    OwnProc(s, a);
    if a.Leave? {
      LeaveGone(s, a);
    }
    hide Enabled, Apply;
  }

  lemma LeaveGone(s: State, a: Action)
    requires Enabled(s, a) && a.Leave?
    ensures a.pid !in Apply(s, a).procs
  {
  }

  /** Conservation over every run: what is in the file, was erased, was given up or is still on its
      way is what was there at first or was begun. */
  lemma {:induction false} RunConserves(s: State, acts: seq<Action>, n: nat)
    requires Inv(s) && CanRun(s, acts) && forall a :: a in acts ==> Below(a, n)
    ensures var e := Exec(s, acts);
            Contents(e.pages) + Erased(s, acts) + Abandoned(s, acts) + Carried(e.procs, n) ==
            Contents(s.pages) + Begun(acts) + Carried(s.procs, n)
    decreases |acts|
  {
    hide Inv, Enabled, Apply, ErasedBy, StoredBy, AbandonedBy, BegunBy, Below;
    if acts != [] {
      var a, rest := acts[0], acts[1..];
      var s' := Apply(s, a);
      StepKeepsInv(s, a);
      StepConserves(s, a);
      assert Below(a, n);
      StepCarries(s, a, n);
      RunConserves(s', rest, n);
      var e := Exec(s', rest);
      Balance(Contents(s.pages), Contents(s'.pages), Contents(e.pages),
              Carried(s.procs, n), Carried(s'.procs, n), Carried(e.procs, n),
              ErasedBy(s, a), Erased(s', rest), AbandonedBy(s, a), Abandoned(s', rest),
              BegunBy(a), Begun(rest), StoredBy(s, a));
    }
  }

  lemma Balance(c: multiset<Tuple>, c': multiset<Tuple>, c'': multiset<Tuple>,
                k: multiset<Tuple>, k': multiset<Tuple>, k'': multiset<Tuple>,
                e: multiset<Tuple>, e': multiset<Tuple>, l: multiset<Tuple>, l': multiset<Tuple>,
                b: multiset<Tuple>, b': multiset<Tuple>, stored: multiset<Tuple>)
    requires c' + e == c + stored && stored + l + k' == b + k
    requires c'' + e' + l' + k'' == c' + b' + k'
    ensures c'' + (e + e') + (l + l') + k'' == c + (b + b') + k
  {
    forall t: Tuple
      ensures (c'' + (e + e') + (l + l') + k'')[t] == (c + (b + b') + k)[t]
    {
      assert (c' + e)[t] == (c + stored)[t] && (stored + l + k')[t] == (b + k)[t];
      assert (c'' + e' + l' + k'')[t] == (c' + b' + k')[t];
    }
  }

  /** When no insert was given up or is under way, the file holds what it held at first and the
      tuple of every insert begun, less what was erased. */
  lemma InsertsAreStored(s: State, acts: seq<Action>, n: nat)
    requires Inv(s) && s.procs == map[] && CanRun(s, acts) && forall a :: a in acts ==> Below(a, n)
    requires (forall a :: a in acts ==> !a.Leave?)
    requires forall pid :: pid in Exec(s, acts).procs ==> !Inserting(Exec(s, acts).procs[pid])
    ensures Contents(Exec(s, acts).pages) + Erased(s, acts) == Contents(s.pages) + Begun(acts)
  {
    hide Inv, Inserting, Below;
    var e := Exec(s, acts);
    RunConserves(s, acts, n);
    NoneCarried(s.procs, n);
    NoneCarried(e.procs, n);
    NoneAbandoned(s, acts);
    DropNothing(Contents(e.pages) + Erased(s, acts), Contents(s.pages) + Begun(acts),
                Abandoned(s, acts), Carried(e.procs, n), Carried(s.procs, n));
  }

  lemma DropNothing(x: multiset<Tuple>, y: multiset<Tuple>,
                    a: multiset<Tuple>, b: multiset<Tuple>, c: multiset<Tuple>)
    requires x + a + b == y + c && a == b == c == multiset{}
    ensures x == y
  {
    forall t: Tuple
      ensures x[t] == y[t]
    {
      assert (x + a + b)[t] == (y + c)[t];
    }
  }

  lemma {:induction false} NoneCarried(procs: map<nat, Proc>, n: nat)
    requires forall pid :: pid in procs ==> !Inserting(procs[pid])
    ensures Carried(procs, n) == multiset{}
  {
    if n > 0 {
      NoneCarried(procs, n - 1);
    }
  }

  lemma {:induction false} NoneAbandoned(s: State, acts: seq<Action>)
    requires CanRun(s, acts) && forall a :: a in acts ==> !a.Leave?
    ensures Abandoned(s, acts) == multiset{}
    decreases |acts|
  {
    if acts != [] {
      hide Apply;
      NoneAbandoned(Apply(s, acts[0]), acts[1..]);
    }
  }

  // ---------------------------------------------------------------------------
  // One tuple over a run.

  /** The step deletes this tuple from a page. */
  predicate Deletes(s: State, a: Action, t: Tuple)
    requires Enabled(s, a)
  {
    a.VacuumBlock? && t in Removed(s.pages[s.procs[a.pid].blkno], s.procs[a.pid].dead)
  }

  /** The tuple is not deleted during the run. */
  predicate Undeleted(s: State, acts: seq<Action>, t: Tuple)
    requires CanRun(s, acts)
    decreases |acts|
  {
    acts == [] || (!Deletes(s, acts[0], t) && Undeleted(Apply(s, acts[0]), acts[1..], t))
  }

  predicate Present(s: State, t: Tuple) {
    t in Contents(s.pages)
  }

  lemma StepKeepsPresent(s: State, a: Action, t: Tuple)
    requires Inv(s) && Enabled(s, a) && Present(s, t) && !Deletes(s, a, t)
    ensures Present(Apply(s, a), t)
  {
    StepConserves(s, a);
    if a.VacuumBlock? {
      VictimsAre(Items(s.pages[s.procs[a.pid].blkno]), s.procs[a.pid].dead, t);
    }
    hide Inv, Enabled, Apply;
    assert t in Contents(Apply(s, a).pages) + ErasedBy(s, a);
  }

  lemma {:induction false} RunKeepsPresent(s: State, acts: seq<Action>, t: Tuple)
    requires Inv(s) && CanRun(s, acts) && Present(s, t) && Undeleted(s, acts, t)
    ensures Present(Exec(s, acts), t)
    decreases |acts|
  {
    hide Inv, Enabled, Apply, Present, Deletes;
    if acts != [] {
      StepKeepsInv(s, acts[0]);
      StepKeepsPresent(s, acts[0], t);
      RunKeepsPresent(Apply(s, acts[0]), acts[1..], t);
    }
  }

  predicate Carries(s: State, pid: nat, t: Tuple) {
    pid in s.procs && Inserting(s.procs[pid]) && s.procs[pid].t == t
  }

  /** A backend that carries a tuple still does, or has stored it. */
  lemma StepStores(s: State, a: Action, pid: nat, t: Tuple)
    requires Inv(s) && Enabled(s, a) && Carries(s, pid, t) && a != Leave(pid)
    ensures Carries(Apply(s, a), pid, t) || Present(Apply(s, a), t)
  {
    if a.ExtendOnly? || a.pid != pid {
      OthersStay(s, a, pid);
    } else {
      OwnProc(s, a);
      StepConserves(s, a);
      assert a.VacuumBlock? ==> false;
      hide Inv, Enabled, Apply;
      assert Completes(s, a) ==> t in Contents(s.pages) + StoredBy(s, a);
    }
  }

  lemma OthersStay(s: State, a: Action, pid: nat)
    requires Enabled(s, a) && (a.ExtendOnly? || a.pid != pid)
    ensures pid in Apply(s, a).procs <==> pid in s.procs
    ensures pid in s.procs ==> Apply(s, a).procs[pid] == s.procs[pid]
  {
  }

  lemma {:induction false} RunStores(s: State, acts: seq<Action>, pid: nat, t: Tuple)
    requires Inv(s) && CanRun(s, acts) && Leave(pid) !in acts && Undeleted(s, acts, t)
    requires Carries(s, pid, t) || Present(s, t)
    ensures Carries(Exec(s, acts), pid, t) || Present(Exec(s, acts), t)
    decreases |acts|
  {
    hide Inv, Enabled, Apply, Present, Deletes, Carries;
    if acts != [] {
      var s' := Apply(s, acts[0]);
      StepKeepsInv(s, acts[0]);
      if Present(s, t) {
        StepKeepsPresent(s, acts[0], t);
      } else {
        StepStores(s, acts[0], pid, t);
      }
      RunStores(s', acts[1..], pid, t);
    }
  }

  /** An insert that is over, whatever went on beside it, has put its tuple into the index. */
  lemma CompletedInsertIsPresent(s: State, pid: nat, t: Tuple, acts: seq<Action>)
    requires Inv(s) && Enabled(s, BeginInsert(pid, t)) && CanRun(Apply(s, BeginInsert(pid, t)), acts)
    requires Leave(pid) !in acts && Undeleted(Apply(s, BeginInsert(pid, t)), acts, t)
    requires pid !in Exec(Apply(s, BeginInsert(pid, t)), acts).procs
    ensures Present(Exec(Apply(s, BeginInsert(pid, t)), acts), t)
  {
    var s' := Apply(s, BeginInsert(pid, t));
    StepKeepsInv(s, BeginInsert(pid, t));
    assert Carries(s', pid, t);
    hide Inv, Enabled, Apply, Present;
    RunStores(s', acts, pid, t);
  }

  /** A backend that inserts, and whose way to the metapage is free, can finish by itself, and its
      tuple is then in the index. */
  lemma {:induction false} InsertCanFinish(s: State, pid: nat) returns (acts: seq<Action>)
    requires Inv(s) && pid in s.procs && Inserting(s.procs[pid]) && (s.lock.None? || s.lock == Some(pid))
    ensures CanRun(s, acts) && pid !in Exec(s, acts).procs && Present(Exec(s, acts), s.procs[pid].t)
    ensures forall a :: a in acts ==> !a.ExtendOnly? && !a.Leave? && !a.VacuumBlock? && a.pid == pid
    decreases if s.procs[pid].InsertStart? then 3 else if s.procs[pid].InsertTry? then 2
              else if s.procs[pid].InsertWait? then 1 else 0,
              if s.procs[pid].InsertQueue? then s.meta.nEnd - s.procs[pid].n else 0
  {
    var p := s.procs[pid];
    assert ProcOk(s.pages, s.meta, p);
    var a := match p
      case InsertStart(_) => ReadMeta(pid)
      case InsertTry(_, _) => TryFirst(pid)
      case InsertWait(_, _) => LockMeta(pid)
      case InsertQueue(_, n) => if n < s.meta.nEnd then TryQueued(pid) else Extend(pid);
    var s' := Apply(s, a);
    StepKeepsInv(s, a);
    StepStores(s, a, pid, p.t);
    acts := [];
    if pid in s'.procs {
      OwnProc(s, a);
      acts := InsertCanFinish(s', pid);
    }
    hide Present;
    acts := [a] + acts;
  }

  // ---------------------------------------------------------------------------
  // What a scan finds.

  /** The tuple is on a page the scan has yet to read. */
  predicate Ahead(pages: seq<Page>, t: Tuple, from: nat, to: nat) {
    exists b :: from <= b < to && b < |pages| && t in Items(pages[b])
  }

  predicate Scans(s: State, pid: nat, sign: Signature) {
    pid in s.procs && s.procs[pid].Scanning? && s.procs[pid].sign == sign
  }

  /** The scan has found the tuple, or will come to its page. */
  predicate Accounts(s: State, pid: nat, sign: Signature, t: Tuple) {
    && Scans(s, pid, sign)
    && (t.tid in s.procs[pid].found || Ahead(s.pages, t, s.procs[pid].blkno, s.procs[pid].npages))
  }

  /** No page loses the tuple. */
  predicate Stays(pages: seq<Page>, pages': seq<Page>, t: Tuple) {
    |pages| <= |pages'| && forall b :: 0 <= b < |pages| && t in Items(pages[b]) ==> t in Items(pages'[b])
  }

  lemma StepKeepsPages(s: State, a: Action, t: Tuple)
    requires Inv(s) && Enabled(s, a) && !Deletes(s, a, t)
    ensures Stays(s.pages, Apply(s, a).pages, t)
  {
    hide NotFull, Completes;
    match a
    case TryFirst(_) => TryStep(s, a);
    case TryQueued(_) => TryStep(s, a);
    case TakeFree(_, _) => GrowStep(s, a);
    case Extend(_) => GrowStep(s, a);
    case VacuumBlock(pid) =>
      assert ProcOk(s.pages, s.meta, s.procs[pid]);
      VacuumPageItems(s.words, s.pages[s.procs[pid].blkno], s.procs[pid].dead);
      SurvivorsAre(Items(s.pages[s.procs[pid].blkno]), s.procs[pid].dead, t);
    case _ => QuietStep(s, a);
  }

  lemma AheadStays(pages: seq<Page>, pages': seq<Page>, t: Tuple, from: nat, to: nat)
    requires Stays(pages, pages', t) && Ahead(pages, t, from, to)
    ensures Ahead(pages', t, from, to)
  {
    var b :| from <= b < to && b < |pages| && t in Items(pages[b]);
    assert t in Items(pages'[b]);
  }

  /** The scan's own step: what it passes it has found, if it matches, and it finds nothing else. */
  lemma ScanStep(s: State, pid: nat, sign: Signature)
    requires Enabled(s, ScanBlock(pid)) && Scans(s, pid, sign)
    ensures var s', p := Apply(s, ScanBlock(pid)), s.procs[pid];
            && Scans(s', pid, sign) && s'.pages == s.pages
            && s'.procs[pid].blkno == p.blkno + 1 && s'.procs[pid].npages == p.npages
            && p.found <= s'.procs[pid].found
            && (forall t :: t in Items(s.pages[p.blkno]) && Subsumes(t.sign, sign) ==> t.tid in s'.procs[pid].found)
            && (forall tid :: tid in s'.procs[pid].found && tid !in p.found ==>
                  exists t :: t in Items(s.pages[p.blkno]) && Subsumes(t.sign, sign) && t.tid == tid)
  {
    hide Subsumes;
  }

  /** Any other step leaves the scan where it is. */
  lemma ScanWaits(s: State, a: Action, pid: nat, sign: Signature)
    requires Enabled(s, a) && Scans(s, pid, sign) && a != Leave(pid) && a != ScanBlock(pid)
    ensures pid in Apply(s, a).procs && Apply(s, a).procs[pid] == s.procs[pid]
  {
    if a.ExtendOnly? || a.pid != pid {
      OthersStay(s, a, pid);
    }
  }

  lemma StepAccounts(s: State, a: Action, pid: nat, sign: Signature, t: Tuple)
    requires Inv(s) && Enabled(s, a) && Accounts(s, pid, sign, t) && Subsumes(t.sign, sign)
    requires a != Leave(pid) && !Deletes(s, a, t)
    ensures Accounts(Apply(s, a), pid, sign, t)
  {
    hide Inv, Enabled, Apply, Stays, Subsumes, Ahead;
    var s', p := Apply(s, a), s.procs[pid];
    StepKeepsPages(s, a, t);
    if Ahead(s.pages, t, p.blkno, p.npages) {
      AheadStays(s.pages, s'.pages, t, p.blkno, p.npages);
    }
    if a == ScanBlock(pid) {
      ScanStep(s, pid, sign);
      AheadNext(s.pages, t, p.blkno, p.npages);
    } else {
      ScanWaits(s, a, pid, sign);
    }
  }

  lemma AheadNext(pages: seq<Page>, t: Tuple, from: nat, to: nat)
    ensures Ahead(pages, t, from, to) && !Ahead(pages, t, from + 1, to) ==> from < |pages| && t in Items(pages[from])
  {
  }

  lemma {:induction false} RunAccounts(s: State, acts: seq<Action>, pid: nat, sign: Signature, t: Tuple)
    requires Inv(s) && CanRun(s, acts) && Accounts(s, pid, sign, t) && Subsumes(t.sign, sign)
    requires Leave(pid) !in acts && Undeleted(s, acts, t)
    ensures Inv(Exec(s, acts)) && Accounts(Exec(s, acts), pid, sign, t)
    decreases |acts|
  {
    hide Inv, Enabled, Apply, Accounts, Subsumes, Deletes;
    if acts != [] {
      StepKeepsInv(s, acts[0]);
      StepAccounts(s, acts[0], pid, sign, t);
      RunAccounts(Apply(s, acts[0]), acts[1..], pid, sign, t);
    }
  }

  /** A scan that begins will come to every tuple of the index. */
  lemma BeginAccounts(s: State, pid: nat, sign: Signature, t: Tuple)
    requires Inv(s) && Enabled(s, BeginScan(pid, sign)) && Present(s, t)
    ensures Accounts(Apply(s, BeginScan(pid, sign)), pid, sign, t)
  {
    hide Subsumes;
    InContents(s.pages, t);
    var b :| 0 <= b < |s.pages| && t in Items(s.pages[b]);
    assert b != 0;
  }

  /** The scan has read all its pages. */
  predicate Finished(s: State, pid: nat) {
    pid in s.procs && s.procs[pid].Scanning? && s.procs[pid].blkno == s.procs[pid].npages
  }

  /** No tuple is missed: what is in the index when a scan begins, passes its test and is not
      deleted meanwhile has been found when it ends. */
  lemma ScanFindsPresent(s: State, pid: nat, sign: Signature, during: seq<Action>, t: Tuple)
    requires Inv(s) && Enabled(s, BeginScan(pid, sign)) && Present(s, t) && Subsumes(t.sign, sign)
    requires CanRun(Apply(s, BeginScan(pid, sign)), during) && Leave(pid) !in during
    requires Undeleted(Apply(s, BeginScan(pid, sign)), during, t)
    ensures var e := Exec(Apply(s, BeginScan(pid, sign)), during);
            Scans(e, pid, sign) && (Finished(e, pid) ==> t.tid in e.procs[pid].found)
  {
    hide Inv, Enabled, Apply, Subsumes, Present;
    StepKeepsInv(s, BeginScan(pid, sign));
    BeginAccounts(s, pid, sign, t);
    RunAccounts(Apply(s, BeginScan(pid, sign)), during, pid, sign, t);
  }

  /** No false negatives over whole runs. A backend inserts a row while others insert, vacuum and
      scan; later a scan runs, again among others. If the insert was completed before the scan
      began, the row matches the keys and is not deleted, the finished scan has found it. */
  lemma ScanFindsEveryRow(s0: State, inserter: nat, inserting: seq<Action>, between: seq<Action>,
                          scanner: nat, during: seq<Action>,
                          st: BloomState, keys: seq<Key>, tid: nat, row: Row)
    requires ValidState(st) && |row| == st.nColumns && KeysOk(st, keys) && RowMatches(st, row, keys)
    requires var t, scan := Tuple(tid, RowSign(st, row)), BeginScan(scanner, ScanSign(st, keys));
             && Inv(s0) && Enabled(s0, BeginInsert(inserter, t))
             && var s1 := Apply(s0, BeginInsert(inserter, t));
             && CanRun(s1, inserting) && Leave(inserter) !in inserting && Undeleted(s1, inserting, t)
             && var s2 := Exec(s1, inserting);
             && inserter !in s2.procs && CanRun(s2, between) && Undeleted(s2, between, t)
             && var s3 := Exec(s2, between);
             && Enabled(s3, scan) && CanRun(Apply(s3, scan), during)
             && Leave(scanner) !in during && Undeleted(Apply(s3, scan), during, t)
    ensures var t, scan := Tuple(tid, RowSign(st, row)), BeginScan(scanner, ScanSign(st, keys));
            var s3 := Exec(Exec(Apply(s0, BeginInsert(inserter, t)), inserting), between);
            var e := Exec(Apply(s3, scan), during);
            Scans(e, scanner, ScanSign(st, keys)) && (Finished(e, scanner) ==> tid in e.procs[scanner].found)
  {
    hide Inv, Enabled, Apply, Present, Scans, Finished, RowMatches, RowSign, ScanSign, Subsumes;
    var t, sign := Tuple(tid, RowSign(st, row)), ScanSign(st, keys);
    var s1 := Apply(s0, BeginInsert(inserter, t));
    StepKeepsInv(s0, BeginInsert(inserter, t));
    RunKeepsInv(s1, inserting);
    var s2 := Exec(s1, inserting);
    CompletedInsertIsPresent(s0, inserter, t, inserting);
    RunKeepsPresent(s2, between, t);
    RunKeepsInv(s2, between);
    MatchingRowPasses(st, row, keys);
    ScanFindsPresent(Exec(s2, between), scanner, sign, during, t);
  }

  /** Whatever a scan has found since some point was in the index at a later moment, under a
      signature that passes the scan's test. */
  lemma {:induction false} FoundWasThere(s: State, acts: seq<Action>, pid: nat, sign: Signature, tid: nat)
    returns (k: nat, t: Tuple)
    requires CanRun(s, acts) && Scans(s, pid, sign) && Leave(pid) !in acts
    requires Scans(Exec(s, acts), pid, sign)
    requires tid !in s.procs[pid].found && tid in Exec(s, acts).procs[pid].found
    ensures k <= |acts| && CanRun(s, acts[..k])
    ensures t.tid == tid && Subsumes(t.sign, sign) && Present(Exec(s, acts[..k]), t)
    decreases |acts|
  {
    hide Enabled, Apply, Subsumes;
    var a, rest := acts[0], acts[1..];
    var s' := Apply(s, a);
    if a == ScanBlock(pid) {
      ScanStep(s, pid, sign);
    } else {
      ScanWaits(s, a, pid, sign);
    }
    if tid in s'.procs[pid].found {
      ScanOnPage(s, pid);
      t :| t in Items(s.pages[s.procs[pid].blkno]) && Subsumes(t.sign, sign) && t.tid == tid;
      k := 0;
      assert acts[..0] == [];
      InContents(s.pages, t);
    } else {
      k, t := FoundWasThere(s', rest, pid, sign, tid);
      assert acts[..k + 1] == [a] + rest[..k] && acts[..k + 1][1..] == rest[..k];
      k := k + 1;
    }
  }

  lemma ScanOnPage(s: State, pid: nat)
    requires Enabled(s, ScanBlock(pid))
    ensures s.procs[pid].blkno < |s.pages|
  {
  }

  /** No tuple is made up: each TID that a scan has found is that of a tuple which passes its test
      and was in the index at some moment since the scan began. */
  lemma ScanFindsOnlyMatches(s: State, pid: nat, sign: Signature, during: seq<Action>, tid: nat)
    returns (k: nat, t: Tuple)
    requires Enabled(s, BeginScan(pid, sign)) && CanRun(Apply(s, BeginScan(pid, sign)), during)
    requires var e := Exec(Apply(s, BeginScan(pid, sign)), during);
             Leave(pid) !in during && Scans(e, pid, sign) && tid in e.procs[pid].found
    ensures k <= |during| && CanRun(Apply(s, BeginScan(pid, sign)), during[..k])
    ensures t.tid == tid && Subsumes(t.sign, sign)
    ensures Present(Exec(Apply(s, BeginScan(pid, sign)), during[..k]), t)
  {
    hide Subsumes;
    k, t := FoundWasThere(Apply(s, BeginScan(pid, sign)), during, pid, sign, tid);
  }
}
