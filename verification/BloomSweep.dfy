/**
  Bulk deletion misses no tuple it is asked to delete, although inserts, other vacuums and scans
  interleave with its page-by-page pass and pages are recycled and added meanwhile.
 */
module BloomSweep {
  import opened BloomSignature
  import opened BloomPages
  import opened BloomProtocol
  import opened BloomHistory

  predicate NoneDead(p: Page, dead: set<nat>) {
    forall t :: t in Items(p) ==> t.tid !in dead
  }

  /** Behind a vacuum's cursor, and beyond the pages it will visit, no named tuple is left. */
  predicate Swept(pages: seq<Page>, p: Proc) {
    p.Vacuuming? ==>
      forall b :: 0 <= b < |pages| && (b < p.blkno || b >= p.npages) ==> NoneDead(pages[b], p.dead)
  }

  /** No running insert carries a TID that a running vacuum deletes. */
  predicate Apart(p: Proc, q: Proc) {
    p.Vacuuming? && Inserting(q) ==> q.t.tid !in p.dead
  }

  predicate SweepInv(s: State) {
    && (forall pid :: pid in s.procs ==> Swept(s.pages, s.procs[pid]))
    && (forall pid, qid :: pid in s.procs && qid in s.procs ==> Apart(s.procs[pid], s.procs[qid]))
  }

  /** What the table access method guarantees: a TID being deleted is not inserted meanwhile. */
  predicate Polite(s: State, a: Action) {
    match a
    case BeginInsert(_, t) => forall pid :: pid in s.procs ==> Apart(s.procs[pid], InsertStart(t))
    case BeginVacuum(_, dead) =>
      forall pid :: pid in s.procs ==> Apart(Vacuuming(dead, 1, |s.pages|, []), s.procs[pid])
    case _ => true
  }

  /** Pages changed at most by one tuple carried by a running insert. */
  predicate AddsOnly(pages: seq<Page>, pages': seq<Page>, t: Tuple) {
    && |pages| <= |pages'|
    && forall b, u :: 0 <= b < |pages'| && u in Items(pages'[b]) ==>
         u == t || (b < |pages| && u in Items(pages[b]))
  }

  lemma AddsKeepsSwept(pages: seq<Page>, pages': seq<Page>, t: Tuple, p: Proc)
    requires AddsOnly(pages, pages', t) && Swept(pages, p) && (p.Vacuuming? ==> t.tid !in p.dead)
    ensures Swept(pages', p)
  {
    if p.Vacuuming? {
      forall b | 0 <= b < |pages'| && (b < p.blkno || b >= p.npages)
        ensures NoneDead(pages'[b], p.dead)
      {
        if b < |pages| { assert NoneDead(pages[b], p.dead); }
      }
    }
  }

  lemma VacuumKeepsSwept(words: nat, pages: seq<Page>, b: nat, dead: set<nat>, p: Proc)
    requires PagesOk(words, pages) && b < |pages| && Swept(pages, p)
    ensures Swept(pages[b := VacuumPage(pages[b], dead)], p)
    ensures NoneDead(VacuumPage(pages[b], dead), dead)
  {
    VacuumPageItems(words, pages[b], dead);
    SurvivorsSplit(Items(pages[b]), dead);
    var pages' := pages[b := VacuumPage(pages[b], dead)];
    if p.Vacuuming? {
      forall c | 0 <= c < |pages'| && (c < p.blkno || c >= p.npages)
        ensures NoneDead(pages'[c], p.dead)
      {
        assert NoneDead(pages[c], p.dead);
      }
    }
  }

  /** A completed insert keeps every vacuum's sweep. */
  lemma InsertKeepsSweep(s: State, s': State, pid: nat)
    requires SweepInv(s) && pid in s.procs && Inserting(s.procs[pid])
    requires s'.procs == s.procs - {pid} && AddsOnly(s.pages, s'.pages, s.procs[pid].t)
    ensures SweepInv(s')
  {
    hide Apart, Swept, AddsOnly;
    forall q | q in s'.procs
      ensures Swept(s'.pages, s'.procs[q])
    {
      assert Apart(s.procs[q], s.procs[pid]) && Swept(s.pages, s.procs[q]);
      ApartTid(s.procs[q], s.procs[pid]);
      AddsKeepsSwept(s.pages, s'.pages, s.procs[pid].t, s.procs[q]);
    }
  }

  lemma ApartTid(p: Proc, q: Proc)
    requires Apart(p, q) && Inserting(q)
    ensures p.Vacuuming? ==> q.t.tid !in p.dead
  {
  }

  /** A step that only moves one backend on, carrying the same tuple if any. */
  lemma MoveKeepsSweep(s: State, s': State, pid: nat, p: Proc)
    requires SweepInv(s) && s'.procs == s.procs[pid := p] && s'.pages == s.pages
    requires Swept(s.pages, p)
    requires forall q :: q in s.procs && q != pid ==> Apart(p, s.procs[q]) && Apart(s.procs[q], p)
    ensures SweepInv(s')
  {
    hide Swept;
  }

  lemma AddOneAddsOnly(pages: seq<Page>, b: nat, p: Page, t: Tuple)
    requires b < |pages| && Items(p) == Items(pages[b]) + [t]
    ensures AddsOnly(pages, pages[b := p], t)
  {
  }

  /** The steps of an insert. */
  lemma InsertStepKeepsSweep(s: State, a: Action)
    requires Inv(s) && SweepInv(s) && Enabled(s, a)
    requires a.ReadMeta? || a.TryFirst? || a.LockMeta? || a.TryQueued? || a.TakeFree? || a.Extend?
    ensures SweepInv(Apply(s, a))
  {
    var s', pid := Apply(s, a), a.pid;
    var p := s.procs[pid];
    if pid in s'.procs {
      assert s'.procs == s.procs[pid := s'.procs[pid]];
      assert forall q :: q in s.procs ==> Apart(s.procs[q], p);
      MoveKeepsSweep(s, s', pid, s'.procs[pid]);
    } else {
      match a {
        case TryFirst(_) =>
          AddOneAddsOnly(s.pages, p.blkno, TryAdd(s.words, s.pages[p.blkno], p.t).value, p.t);
        case TryQueued(_) =>
          var b := s.meta.notFull[p.n];
          AddOneAddsOnly(s.pages, b, TryAdd(s.words, s.pages[b], p.t).value, p.t);
        case TakeFree(_, b) =>
          EmptyPageTakes(s.words, s.pages[b], p.t);
          AddOneAddsOnly(s.pages, b, Data(false, [p.t]), p.t);
        case Extend(_) =>
          assert AddsOnly(s.pages, s.pages + [Data(false, [p.t])], p.t);
      }
      InsertKeepsSweep(s, s', pid);
    }
  }

  lemma VacuumBlockSwept(s: State, pid: nat, q: nat)
    requires Inv(s) && SweepInv(s) && Enabled(s, VacuumBlock(pid)) && q in s.procs
    ensures q in Apply(s, VacuumBlock(pid)).procs
    ensures Swept(Apply(s, VacuumBlock(pid)).pages, Apply(s, VacuumBlock(pid)).procs[q])
  {
    var v := s.procs[pid];
    VacuumKeepsSwept(s.words, s.pages, v.blkno, v.dead, s.procs[q]);
  }

  lemma VacuumBlockKeepsSweep(s: State, pid: nat)
    requires Inv(s) && SweepInv(s) && Enabled(s, VacuumBlock(pid))
    ensures SweepInv(Apply(s, VacuumBlock(pid)))
  {
    hide Inv, Swept;
    var s' := Apply(s, VacuumBlock(pid));
    forall q | q in s'.procs
      ensures Swept(s'.pages, s'.procs[q])
    {
      VacuumBlockSwept(s, pid, q);
    }
    forall q, r | q in s'.procs && r in s'.procs
      ensures Apart(s'.procs[q], s'.procs[r])
    {
      assert Apart(s.procs[q], s.procs[r]);
    }
  }

  /** A backend that leaves, or more empty pages, change nothing of this. */
  lemma LeaveKeepsSweep(s: State, s': State, pid: nat)
    requires SweepInv(s) && s'.pages == s.pages && s'.procs == s.procs - {pid}
    ensures SweepInv(s')
  {
    hide Swept, Apart;
  }

  lemma ExtendKeepsSweep(s: State, s': State)
    requires SweepInv(s) && s'.pages == s.pages + [New] && s'.procs == s.procs
    ensures SweepInv(s')
  {
    hide Apart;
    forall q | q in s.procs
      ensures Swept(s'.pages, s.procs[q])
    {
      assert Swept(s.pages, s.procs[q]);
    }
  }

  /** The metapage holds no tuples, so a vacuum that has not begun has passed none. */
  lemma BeginSwept(s: State, p: Proc)
    requires Inv(s) && p.Vacuuming? && p.blkno == 1 && p.npages == |s.pages|
    ensures Swept(s.pages, p)
  {
  }

  lemma StepKeepsSweep(s: State, a: Action)
    requires Inv(s) && SweepInv(s) && Enabled(s, a) && Polite(s, a)
    ensures SweepInv(Apply(s, a))
  {
    hide Inv, SweepInv;
    var s' := Apply(s, a);
    match a
    case BeginInsert(pid, t) => MoveKeepsSweep(s, s', pid, InsertStart(t));
    case ExtendOnly => ExtendKeepsSweep(s, s');
    case BeginVacuum(pid, dead) =>
      BeginSwept(s, s'.procs[pid]);
      MoveKeepsSweep(s, s', pid, s'.procs[pid]);
    case VacuumBlock(pid) => VacuumBlockKeepsSweep(s, pid);
    case PublishQueue(pid) => LeaveKeepsSweep(s, s', pid);
    case BeginScan(pid, sign) => MoveKeepsSweep(s, s', pid, s'.procs[pid]);
    case ScanBlock(pid) => MoveKeepsSweep(s, s', pid, s'.procs[pid]);
    case Leave(pid) => LeaveKeepsSweep(s, s', pid);
    case _ => InsertStepKeepsSweep(s, a);
  }

  predicate PoliteRun(s: State, acts: seq<Action>)
    requires CanRun(s, acts)
    decreases |acts|
  {
    acts == [] || (Polite(s, acts[0]) && PoliteRun(Apply(s, acts[0]), acts[1..]))
  }

  lemma {:induction false} RunKeepsSweep(s: State, acts: seq<Action>)
    requires Inv(s) && SweepInv(s) && CanRun(s, acts) && PoliteRun(s, acts)
    ensures Inv(Exec(s, acts)) && SweepInv(Exec(s, acts))
    decreases |acts|
  {
    hide Inv, SweepInv, Apply, Enabled, Polite;
    if acts != [] {
      StepKeepsInv(s, acts[0]);
      StepKeepsSweep(s, acts[0]);
      RunKeepsSweep(Apply(s, acts[0]), acts[1..]);
    }
  }

  predicate Deleting(s: State, pid: nat, dead: set<nat>) {
    pid in s.procs && s.procs[pid].Vacuuming? && s.procs[pid].dead == dead
  }

  /** A vacuum keeps to its task until it publishes its queue or leaves. */
  lemma StepKeepsDeleting(s: State, a: Action, pid: nat, dead: set<nat>)
    requires Enabled(s, a) && Deleting(s, pid, dead) && a != Leave(pid) && a != PublishQueue(pid)
    ensures Deleting(Apply(s, a), pid, dead)
  {
    if a.ExtendOnly? || a.pid != pid {
      OthersStay(s, a, pid);
    }
  }

  lemma {:induction false} RunKeepsDeleting(s: State, acts: seq<Action>, pid: nat, dead: set<nat>)
    requires CanRun(s, acts) && Deleting(s, pid, dead) && Leave(pid) !in acts && PublishQueue(pid) !in acts
    ensures Deleting(Exec(s, acts), pid, dead)
    decreases |acts|
  {
    hide Enabled, Apply, Deleting;
    if acts != [] {
      StepKeepsDeleting(s, acts[0], pid, dead);
      RunKeepsDeleting(Apply(s, acts[0]), acts[1..], pid, dead);
    }
  }

  /** A vacuum misses nothing: when one that was told to delete some TIDs is about to publish its
      queue, however other backends ran before and meanwhile, no page of the index holds a tuple
      with one of them. So the table may reuse those TIDs. */
  lemma VacuumMissesNothing(s0: State, before: seq<Action>, pid: nat, dead: set<nat>, acts: seq<Action>, t: Tuple)
    requires Initial(s0) && CanRun(s0, before) && PoliteRun(s0, before)
    requires var s1, vacuum := Exec(s0, before), BeginVacuum(pid, dead);
             && Enabled(s1, vacuum) && Polite(s1, vacuum)
             && CanRun(Apply(s1, vacuum), acts) && PoliteRun(Apply(s1, vacuum), acts)
             && Leave(pid) !in acts && PublishQueue(pid) !in acts
             && Enabled(Exec(Apply(s1, vacuum), acts), PublishQueue(pid))
             && Present(Exec(Apply(s1, vacuum), acts), t)
    ensures t.tid !in dead
  {
    var s1, vacuum := Exec(s0, before), BeginVacuum(pid, dead);
    RunKeepsSweep(s0, before);
    StepKeepsInv(s1, vacuum);
    StepKeepsSweep(s1, vacuum);
    RunKeepsSweep(Apply(s1, vacuum), acts);
    RunKeepsDeleting(Apply(s1, vacuum), acts, pid, dead);
    PassedAll(Exec(Apply(s1, vacuum), acts), pid, t);
  }

  lemma PassedAll(s: State, pid: nat, t: Tuple)
    requires Inv(s) && SweepInv(s) && Enabled(s, PublishQueue(pid)) && Present(s, t)
    ensures t.tid !in s.procs[pid].dead
  {
    InContents(s.pages, t);
    var b :| 0 <= b < |s.pages| && t in Items(s.pages[b]);
    var p := s.procs[pid];
    assert Swept(s.pages, p) && ProcOk(s.pages, s.meta, p);
    assert NoneDead(s.pages[b], p.dead);
  }
}
