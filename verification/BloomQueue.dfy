/**
  What the queue on the metapage of a Bloom index is good for: an insert finds the page that last
  took a tuple at its head, the file grows only when all queued pages were seen full, and a vacuum
  queues exactly the pages it saw with room.
 */
module BloomQueue {
  import opened Common
  import opened BloomPages
  import opened BloomProtocol
  import opened BloomHistory

  // ---------------------------------------------------------------------------
  // One step.

  /** The step completes an insert that has the metapage locked. */
  predicate CompletesLocked(s: State, a: Action)
    requires Enabled(s, a)
  {
    Completes(s, a) && s.procs[a.pid].InsertQueue?
  }

  /** Such an insert releases the lock and leaves the page that took its tuple at the head of the
      queue; all other pages are as they were. */
  lemma HeadTookTuple(s: State, a: Action)
    requires Inv(s) && Enabled(s, a) && CompletesLocked(s, a)
    ensures var s' := Apply(s, a);
            && s'.lock.None? && s'.meta.nStart < s'.meta.nEnd <= |s'.meta.notFull|
            && var b := s'.meta.notFull[s'.meta.nStart];
            && b < |s'.pages| && s.procs[a.pid].t in Items(s'.pages[b])
            && forall c :: 0 <= c < |s.pages| && c != b ==> s'.pages[c] == s.pages[c]
  {
    var t := s.procs[a.pid].t;
    assert ProcOk(s.pages, s.meta, s.procs[a.pid]);
    if a.TryQueued? {
      TryStep(s, a);
      var b := s.meta.notFull[s.procs[a.pid].n];
      var r := TryAdd(s.words, s.pages[b], t);
      assert Items(r.value)[|Items(s.pages[b])|] == t;
    } else {
      assert Items(Data(false, [t])) == [t];
      GrowStep(s, a);
    }
  }

  /** Nothing but such an insert and the end of a vacuum changes the queue. */
  lemma QueueKept(s: State, a: Action)
    requires Enabled(s, a) && !CompletesLocked(s, a) && !a.PublishQueue?
    ensures Apply(s, a).meta == s.meta
  {
    hide TryAdd, VacuumPage, NotFull;
  }

  // ---------------------------------------------------------------------------
  // When the file grows.

  /** The pages without room for one more tuple. */
  function FullBlocks(s: State): set<nat> {
    set b | 0 <= b < |s.pages| && |Items(s.pages[b])| >= Capacity(s.words)
  }

  /** The pages that were full at some moment of a run. */
  function SeenFull(s: State, acts: seq<Action>): set<nat>
    requires CanRun(s, acts)
    decreases |acts|
  {
    FullBlocks(s) + if acts == [] then {} else SeenFull(Apply(s, acts[0]), acts[1..])
  }

  /** The pages that an insert will not try again are among those seen full. */
  predicate TriedOnlyFull(s: State, pid: nat, seen: set<nat>) {
    pid in s.procs ==>
      match s.procs[pid]
      case InsertWait(_, tried) => tried.Some? ==> tried.value in seen
      case InsertQueue(_, n) =>
        n <= |s.meta.notFull| && forall i :: s.meta.nStart <= i < n ==> s.meta.notFull[i] in seen
      case _ => true
  }

  /** Of the steps of other backends none changes where this one is, nor the queue while this one
      has it locked. */
  lemma OthersStep(s: State, a: Action, pid: nat)
    requires Inv(s) && Enabled(s, a) && (a.ExtendOnly? || a.pid != pid)
    ensures var s' := Apply(s, a);
            && (pid in s'.procs <==> pid in s.procs)
            && (pid in s.procs ==> s'.procs[pid] == s.procs[pid])
            && (pid in s.procs && s.procs[pid].InsertQueue? ==> s'.meta == s.meta)
  {
    hide TryAdd, VacuumPage, NotFull, PagesOk, MetaOk, ProcOk;
    if pid in s.procs && s.procs[pid].InsertQueue? {
      assert s.lock == Some(pid);
      assert !CompletesLocked(s, a) && !a.PublishQueue?;
      QueueKept(s, a);
    }
  }

  lemma OwnStep(s: State, a: Action, seen: set<nat>)
    requires Inv(s) && Enabled(s, a) && !a.ExtendOnly? && TriedOnlyFull(s, a.pid, seen)
    ensures TriedOnlyFull(Apply(s, a), a.pid, seen + FullBlocks(s))
  {
    hide VacuumPage, NotFull, PagesOk;
    match a
    case TryFirst(pid) => TryStep(s, a);
    case TryQueued(pid) => TryStep(s, a);
    case _ =>
  }

  lemma StepTriesOnlyFull(s: State, a: Action, pid: nat, seen: set<nat>)
    requires Inv(s) && Enabled(s, a) && TriedOnlyFull(s, pid, seen)
    ensures TriedOnlyFull(Apply(s, a), pid, seen + FullBlocks(s))
  {
    hide Inv, Enabled, Apply;
    if a.ExtendOnly? || a.pid != pid {
      OthersStep(s, a, pid);
    } else {
      OwnStep(s, a, seen);
    }
  }

  lemma {:induction false} RunTriesOnlyFull(s: State, acts: seq<Action>, pid: nat, seen: set<nat>)
    requires Inv(s) && CanRun(s, acts) && TriedOnlyFull(s, pid, seen)
    ensures TriedOnlyFull(Exec(s, acts), pid, seen + SeenFull(s, acts))
    decreases |acts|
  {
    hide Inv, Apply, Enabled, TriedOnlyFull, FullBlocks;
    if acts == [] {
      TriedMore(s, pid, seen, seen + SeenFull(s, acts));
    } else {
      var s', rest := Apply(s, acts[0]), acts[1..];
      StepTriesOnlyFull(s, acts[0], pid, seen);
      StepKeepsInv(s, acts[0]);
      RunTriesOnlyFull(s', rest, pid, seen + FullBlocks(s));
      assert seen + FullBlocks(s) + SeenFull(s', rest) == seen + SeenFull(s, acts);
    }
  }

  lemma TriedMore(s: State, pid: nat, seen: set<nat>, more: set<nat>)
    requires TriedOnlyFull(s, pid, seen) && seen <= more
    ensures TriedOnlyFull(s, pid, more)
  {
  }

  /** An insert takes a free page or extends the file only if each page in the queue was full at some
      moment since the insert began. */
  lemma FileGrowsOnlyPastFull(s: State, acts: seq<Action>, pid: nat, a: Action)
    requires Inv(s) && CanRun(s, acts) && pid in s.procs && s.procs[pid].InsertStart?
    requires (a.TakeFree? || a.Extend?) && a.pid == pid && Enabled(Exec(s, acts), a)
    ensures var m := Exec(s, acts).meta;
            m.nEnd <= |m.notFull| && forall i :: m.nStart <= i < m.nEnd ==> m.notFull[i] in SeenFull(s, acts)
  {
    RunTriesOnlyFull(s, acts, pid, {});
    RunKeepsInv(s, acts);
    assert {} + SeenFull(s, acts) == SeenFull(s, acts);
  }

  // ---------------------------------------------------------------------------
  // What a vacuum queues.

  /** The block that a step of a vacuum passes and the page it leaves there. */
  function PassedBy(s: State, a: Action, pid: nat): seq<(nat, Page)>
    requires Enabled(s, a)
  {
    if a == VacuumBlock(pid) && s.procs[pid].blkno < |Apply(s, a).pages|
    then [(s.procs[pid].blkno, Apply(s, a).pages[s.procs[pid].blkno])] else []
  }

  /** Those of a run, in order. */
  function Passed(s: State, acts: seq<Action>, pid: nat): seq<(nat, Page)>
    requires CanRun(s, acts)
    decreases |acts|
  {
    if acts == [] then [] else PassedBy(s, acts[0], pid) + Passed(Apply(s, acts[0]), acts[1..], pid)
  }

  /** The blocks of the pages that have tuples and room for one more. */
  function WithRoom(words: nat, passed: seq<(nat, Page)>): seq<nat> {
    if passed == [] then []
    else
      (if 0 < |Items(passed[0].1)| < Capacity(words) then [passed[0].0] else []) + WithRoom(words, passed[1..])
  }

  lemma {:induction false} WithRoomConcat(words: nat, a: seq<(nat, Page)>, b: seq<(nat, Page)>)
    ensures WithRoom(words, a + b) == WithRoom(words, a) + WithRoom(words, b)
  {
    if a == [] {
      assert a + b == b;
    } else {
      assert (a + b)[1..] == a[1..] + b;
      WithRoomConcat(words, a[1..], b);
    }
  }

  /** The first of a list, as many as fit on the metapage. */
  function Fitting(bs: seq<nat>): seq<nat> {
    if |bs| <= META_BLOCKS then bs else bs[..META_BLOCKS]
  }

  lemma FittingTwice(bs: seq<nat>, more: seq<nat>)
    ensures Fitting(Fitting(bs) + more) == Fitting(bs + more)
  {
    if |bs| > META_BLOCKS {
      assert (Fitting(bs) + more)[..META_BLOCKS] == bs[..META_BLOCKS] == (bs + more)[..META_BLOCKS];
    }
  }

  lemma FittingConcat(words: nat, q: seq<nat>, a: seq<(nat, Page)>, b: seq<(nat, Page)>)
    ensures Fitting(Fitting(q + WithRoom(words, a)) + WithRoom(words, b)) == Fitting(q + WithRoom(words, a + b))
  {
    hide Fitting;
    WithRoomConcat(words, a, b);
    var bs, more := q + WithRoom(words, a), WithRoom(words, b);
    FittingTwice(bs, more);
    assert bs + more == q + WithRoom(words, a + b);
  }

  /** Consecutive blocks from a given one. */
  predicate Consecutive(passed: seq<(nat, Page)>, from: nat) {
    forall i :: 0 <= i < |passed| ==> passed[i].0 == from + i
  }

  /** The vacuum of a backend goes on: no step ends or gives it up. */
  predicate GoesOn(acts: seq<Action>, pid: nat) {
    forall i :: 0 <= i < |acts| ==> acts[i] != Leave(pid) && acts[i] != PublishQueue(pid)
  }

  /** From s to s' a vacuum passed the given pages: it went on by as many blocks, and queued those with
      room. */
  ghost predicate Swept(s: State, s': State, pid: nat, passed: seq<(nat, Page)>) {
    && s'.words == s.words && pid in s.procs && pid in s'.procs
    && s.procs[pid].Vacuuming? && s'.procs[pid].Vacuuming? && s'.procs[pid].npages == s.procs[pid].npages
    && s'.procs[pid].blkno == s.procs[pid].blkno + |passed| && Consecutive(passed, s.procs[pid].blkno)
    && s'.procs[pid].notFull == Fitting(s.procs[pid].notFull + WithRoom(s.words, passed))
  }

  lemma SweptOn(s: State, s': State, s'': State, pid: nat, a: seq<(nat, Page)>, b: seq<(nat, Page)>)
    requires Swept(s, s', pid, a) && Swept(s', s'', pid, b)
    ensures Swept(s, s'', pid, a + b)
  {
    hide Fitting;
    FittingConcat(s.words, s.procs[pid].notFull, a, b);
  }

  lemma VacuumStep(s: State, a: Action, pid: nat)
    requires Inv(s) && Enabled(s, a) && pid in s.procs && s.procs[pid].Vacuuming?
    requires a != Leave(pid) && a != PublishQueue(pid)
    ensures Swept(s, Apply(s, a), pid, PassedBy(s, a, pid))
  {
    var s' := Apply(s, a);
    var p := s.procs[pid];
    assert ProcOk(s.pages, s.meta, p);
    if a == VacuumBlock(pid) {
      VacuumPageMeaning(s.words, s.pages[p.blkno], p.dead);
      var q := (p.blkno, s'.pages[p.blkno]);
      assert PassedBy(s, a, pid) == [q];
      assert WithRoom(s.words, [q][1..]) == [];
    } else {
      OthersStep(s, a, pid);
      QueueFits(s, pid);
      assert PassedBy(s, a, pid) == [];
    }
  }

  lemma {:induction false} RunQueues(s: State, acts: seq<Action>, pid: nat)
    requires Inv(s) && CanRun(s, acts) && pid in s.procs && s.procs[pid].Vacuuming? && GoesOn(acts, pid)
    ensures Swept(s, Exec(s, acts), pid, Passed(s, acts, pid))
    decreases |acts|
  {
    hide Inv, Apply, Enabled, Fitting, PassedBy;
    if acts == [] {
      QueueFits(s, pid);
    } else {
      var a, rest := acts[0], acts[1..];
      var s' := Apply(s, a);
      VacuumStep(s, a, pid);
      StepKeepsInv(s, a);
      RunQueues(s', rest, pid);
      hide Swept;
      SweptOn(s, s', Exec(s', rest), pid, PassedBy(s, a, pid), Passed(s', rest, pid));
    }
  }

  lemma QueueFits(s: State, pid: nat)
    requires Inv(s) && pid in s.procs && s.procs[pid].Vacuuming?
    ensures var q := s.procs[pid].notFull; q == Fitting(q + WithRoom(s.words, []))
  {
    assert ProcOk(s.pages, s.meta, s.procs[pid]);
    var q := s.procs[pid].notFull;
    assert q + WithRoom(s.words, []) == q;
  }

  /** A vacuum passes every block that the file had when it began but the metapage, and publishes
      exactly the pages that it left with tuples and room for one more, in the order of the file, as
      many as fit. */
  lemma VacuumPublishes(s: State, acts: seq<Action>, pid: nat, dead: set<nat>)
    requires Inv(s) && Enabled(s, BeginVacuum(pid, dead)) && CanRun(Apply(s, BeginVacuum(pid, dead)), acts)
    requires GoesOn(acts, pid) && Enabled(Exec(Apply(s, BeginVacuum(pid, dead)), acts), PublishQueue(pid))
    ensures var s1 := Apply(s, BeginVacuum(pid, dead));
            var m := Apply(Exec(s1, acts), PublishQueue(pid)).meta;
            && |Passed(s1, acts, pid)| == |s.pages| - 1 && Consecutive(Passed(s1, acts, pid), 1)
            && m.nStart == 0 && m.nEnd <= |m.notFull|
            && m.notFull[..m.nEnd] == Fitting(WithRoom(s.words, Passed(s1, acts, pid)))
  {
    var s1 := Apply(s, BeginVacuum(pid, dead));
    StepKeepsInv(s, BeginVacuum(pid, dead));
    RunKeepsInv(s1, acts);
    RunQueues(s1, acts, pid);
    var q := WithRoom(s.words, Passed(s1, acts, pid));
    assert [] + q == q;
    assert ProcOk(Exec(s1, acts).pages, Exec(s1, acts).meta, Exec(s1, acts).procs[pid]);
    hide Inv;
  }
}
