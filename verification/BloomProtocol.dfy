/**
  A Bloom index under concurrent use. Every step below is one lock section of blinsert,
  blbulkdelete or blgetbitmap; sections of different backends interleave in any order, and a
  backend may fail between two of its sections.
 */
module BloomProtocol {
  import opened Common
  import opened BloomSignature
  import opened BloomPages

  /** The queue of pages that may have room, at positions nStart .. nEnd - 1. */
  datatype Meta = Meta(nStart: nat, nEnd: nat, notFull: seq<nat>)

  /** Where a backend is between two lock sections. */
  datatype Proc =
    | InsertStart(t: Tuple)
    | InsertTry(t: Tuple, blkno: nat)
    | InsertWait(t: Tuple, tried: Option<nat>)
    | InsertQueue(t: Tuple, n: nat)
    | Vacuuming(dead: set<nat>, blkno: nat, npages: nat, notFull: seq<nat>)
    | Scanning(sign: Signature, blkno: nat, npages: nat, found: set<nat>)

  predicate Inserting(p: Proc) {
    p.InsertStart? || p.InsertTry? || p.InsertWait? || p.InsertQueue?
  }

  /** Block 0 is the metapage, so pages[0] holds no tuples. lock is the backend holding the
      metapage exclusively. */
  datatype State = State(
    words: nat,
    pages: seq<Page>,
    meta: Meta,
    lock: Option<nat>,
    procs: map<nat, Proc>)

  datatype Action =
    | BeginInsert(pid: nat, t: Tuple)
    | ReadMeta(pid: nat)
    | TryFirst(pid: nat)
    | LockMeta(pid: nat)
    | TryQueued(pid: nat)
    | TakeFree(pid: nat, blkno: nat)
    | Extend(pid: nat)
    | ExtendOnly
    | BeginVacuum(pid: nat, dead: set<nat>)
    | VacuumBlock(pid: nat)
    | PublishQueue(pid: nat)
    | BeginScan(pid: nat, sign: Signature)
    | ScanBlock(pid: nat)
    | Leave(pid: nat)

  function Contents(pages: seq<Page>): multiset<Tuple> {
    if pages == [] then multiset{}
    else Contents(pages[..|pages| - 1]) + multiset(Items(pages[|pages| - 1]))
  }

  /** The tuples on a page that a deletion removes. */
  function Removed(p: Page, dead: set<nat>): set<Tuple> {
    set t | t in Items(p) && t.tid in dead
  }

  /** The matching tuples of a page, as blgetbitmap adds them to the bitmap. */
  function Hits(p: Page, sign: Signature): set<nat> {
    set t | t in Items(p) && Subsumes(t.sign, sign) :: t.tid
  }

  predicate Enabled(s: State, a: Action) {
    match a
    case BeginInsert(pid, t) => pid !in s.procs
    case ReadMeta(pid) => pid in s.procs && s.procs[pid].InsertStart? && s.lock.None?
    case TryFirst(pid) => pid in s.procs && s.procs[pid].InsertTry? && s.procs[pid].blkno < |s.pages|
    case LockMeta(pid) => pid in s.procs && s.procs[pid].InsertWait? && s.lock.None?
    case TryQueued(pid) =>
      && pid in s.procs && s.procs[pid].InsertQueue?
      && s.procs[pid].n < s.meta.nEnd && s.procs[pid].n < |s.meta.notFull|
      && s.meta.notFull[s.procs[pid].n] < |s.pages|
    case TakeFree(pid, blkno) =>
      && pid in s.procs && s.procs[pid].InsertQueue? && s.procs[pid].n >= s.meta.nEnd
      && 1 <= blkno < |s.pages| && Reusable(s.pages[blkno])
      && |s.meta.notFull| > 0
    case Extend(pid) =>
      && pid in s.procs && s.procs[pid].InsertQueue? && s.procs[pid].n >= s.meta.nEnd
      && |s.meta.notFull| > 0
    case ExtendOnly => true
    case BeginVacuum(pid, dead) => pid !in s.procs
    case VacuumBlock(pid) =>
      && pid in s.procs && s.procs[pid].Vacuuming?
      && s.procs[pid].blkno < s.procs[pid].npages && s.procs[pid].blkno < |s.pages|
    case PublishQueue(pid) =>
      && pid in s.procs && s.procs[pid].Vacuuming? && s.procs[pid].blkno >= s.procs[pid].npages
      && s.lock.None? && |s.procs[pid].notFull| <= |s.meta.notFull|
    case BeginScan(pid, sign) => pid !in s.procs
    case ScanBlock(pid) =>
      && pid in s.procs && s.procs[pid].Scanning?
      && s.procs[pid].blkno < s.procs[pid].npages && s.procs[pid].blkno < |s.pages|
    case Leave(pid) => pid in s.procs
  }

  /** An insert that put its tuple on page blkno is over. */
  function Inserted(s: State, pid: nat, blkno: nat, p: Page): State
    requires blkno < |s.pages|
  {
    s.(pages := s.pages[blkno := p], procs := s.procs - {pid})
  }

  function Apply(s: State, a: Action): State
    requires Enabled(s, a)
  {
    match a
    case BeginInsert(pid, t) => s.(procs := s.procs[pid := InsertStart(t)])
    case ReadMeta(pid) =>
      var t := s.procs[pid].t;
      if s.meta.nEnd > s.meta.nStart && s.meta.nStart < |s.meta.notFull| then
        s.(procs := s.procs[pid := InsertTry(t, s.meta.notFull[s.meta.nStart])])
      else s.(procs := s.procs[pid := InsertWait(t, None)])
    case TryFirst(pid) =>
      var p := s.procs[pid];
      var r := TryAdd(s.words, s.pages[p.blkno], p.t);
      if r.Some? then Inserted(s, pid, p.blkno, r.value)
      else s.(procs := s.procs[pid := InsertWait(p.t, Some(p.blkno))])
    case LockMeta(pid) =>
      var p, n := s.procs[pid], s.meta.nStart;
      var skip := n < s.meta.nEnd && n < |s.meta.notFull| && p.tried == Some(s.meta.notFull[n]);
      s.(lock := Some(pid), procs := s.procs[pid := InsertQueue(p.t, if skip then n + 1 else n)])
    case TryQueued(pid) =>
      var p := s.procs[pid];
      var blkno := s.meta.notFull[p.n];
      var r := TryAdd(s.words, s.pages[blkno], p.t);
      if r.Some? then
        Inserted(s, pid, blkno, r.value).(meta := s.meta.(nStart := p.n), lock := None)
      else s.(procs := s.procs[pid := InsertQueue(p.t, p.n + 1)])
    case TakeFree(pid, blkno) =>
      var t := s.procs[pid].t;
      Inserted(s, pid, blkno, Data(false, [t])).(meta := FreshQueue(s.meta, blkno), lock := None)
    case Extend(pid) =>
      var t := s.procs[pid].t;
      s.(pages := s.pages + [Data(false, [t])], procs := s.procs - {pid},
         meta := FreshQueue(s.meta, |s.pages|), lock := None)
    case ExtendOnly => s.(pages := s.pages + [New])
    case BeginVacuum(pid, dead) => s.(procs := s.procs[pid := Vacuuming(dead, 1, |s.pages|, [])])
    case VacuumBlock(pid) =>
      var p := s.procs[pid];
      var page := s.pages[p.blkno];
      var queued := NotFull(s.words, page, p.dead) && |p.notFull| < META_BLOCKS;
      var p' := p.(blkno := p.blkno + 1, notFull := if queued then p.notFull + [p.blkno] else p.notFull);
      s.(pages := s.pages[p.blkno := VacuumPage(page, p.dead)], procs := s.procs[pid := p'])
    case PublishQueue(pid) =>
      var q := s.procs[pid].notFull;
      s.(meta := Meta(0, |q|, q + s.meta.notFull[|q|..]), procs := s.procs - {pid})
    case BeginScan(pid, sign) =>
      s.(procs := s.procs[pid := Scanning(sign, 1, |s.pages|, {})])
    case ScanBlock(pid) =>
      var p := s.procs[pid];
      s.(procs := s.procs[pid := p.(blkno := p.blkno + 1, found := p.found + Hits(s.pages[p.blkno], p.sign))])
    case Leave(pid) =>
      s.(procs := s.procs - {pid}, lock := if s.lock == Some(pid) then None else s.lock)
  }

  /** The queue after allocating a page: just that page. */
  function FreshQueue(m: Meta, blkno: nat): Meta
    requires |m.notFull| > 0
  {
    Meta(0, 1, m.notFull[0 := blkno])
  }

  // ---------------------------------------------------------------------------
  // The invariant.

  predicate MetaOk(pages: seq<Page>, m: Meta) {
    && |m.notFull| == META_BLOCKS
    && m.nStart <= m.nEnd <= META_BLOCKS
    && forall i :: m.nStart <= i < m.nEnd ==> 1 <= m.notFull[i] < |pages|
  }

  predicate PagesOk(words: nat, pages: seq<Page>) {
    && |pages| >= 1 && pages[0].New?
    && forall b :: 0 <= b < |pages| ==> ValidPage(words, pages[b])
  }

  predicate ProcOk(pages: seq<Page>, m: Meta, p: Proc) {
    match p
    case InsertStart(_) => true
    case InsertTry(_, blkno) => 1 <= blkno < |pages|
    case InsertWait(_, _) => true
    case InsertQueue(_, n) => m.nStart <= n <= m.nEnd
    case Vacuuming(_, blkno, npages, q) =>
      && 1 <= blkno <= npages <= |pages| && |q| <= META_BLOCKS
      && forall i :: 0 <= i < |q| ==> 1 <= q[i] < blkno
    case Scanning(_, blkno, npages, _) => 1 <= blkno <= npages <= |pages|
  }

  /** The metapage is locked exactly while some backend walks the queue. */
  predicate LockOk(s: State) {
    && (forall pid :: pid in s.procs && s.procs[pid].InsertQueue? ==> s.lock == Some(pid))
    && (s.lock.Some? ==> s.lock.value in s.procs && s.procs[s.lock.value].InsertQueue?)
  }

  predicate Inv(s: State) {
    && s.words <= 256
    && PagesOk(s.words, s.pages)
    && MetaOk(s.pages, s.meta)
    && LockOk(s)
    && (forall pid :: pid in s.procs ==> ProcOk(s.pages, s.meta, s.procs[pid]))
  }

  // ---------------------------------------------------------------------------
  // Every step keeps the invariant.

  /** A completed insert, whatever page took the tuple: no block is gone, and every other backend
      is where it was. */
  lemma InsertKeepsInv(s: State, s': State, pid: nat)
    requires Inv(s) && pid in s.procs
    requires s'.words == s.words && PagesOk(s.words, s'.pages) && |s.pages| <= |s'.pages|
    requires s'.procs == s.procs - {pid} && MetaOk(s'.pages, s'.meta)
    requires if s.lock == Some(pid) then s'.lock.None? else s'.meta == s.meta && s'.lock == s.lock
    ensures Inv(s')
  {
    forall q | q in s'.procs
      ensures ProcOk(s'.pages, s'.meta, s'.procs[q])
      ensures s'.procs[q].InsertQueue? ==> s'.lock == Some(q)
    {
      assert q in s.procs && s.procs[q].InsertQueue? ==> s.lock == Some(q);
      assert ProcOk(s.pages, s.meta, s.procs[q]);
    }
  }

  lemma UpdateKeepsPages(words: nat, pages: seq<Page>, b: nat, p: Page)
    requires PagesOk(words, pages) && 1 <= b < |pages| && ValidPage(words, p)
    ensures PagesOk(words, pages[b := p])
  {
  }

  lemma ExtendKeepsPages(words: nat, pages: seq<Page>, p: Page)
    requires PagesOk(words, pages) && ValidPage(words, p)
    ensures PagesOk(words, pages + [p])
  {
  }

  /** A step that only moves one backend on. */
  lemma MoveKeepsInv(s: State, s': State, pid: nat, p: Proc, lock: Option<nat>)
    requires Inv(s) && s' == s.(procs := s.procs[pid := p], lock := lock)
    requires ProcOk(s.pages, s.meta, p)
    requires lock == s.lock || (s.lock.None? && lock == Some(pid))
    requires p.InsertQueue? <==> lock == Some(pid)
    ensures Inv(s')
  {
    hide ProcOk, PagesOk, MetaOk;
  }

  lemma LeaveKeepsInv(s: State, pid: nat)
    requires Inv(s) && pid in s.procs
    ensures Inv(Apply(s, Leave(pid)))
  {
  }

  lemma ReadMetaKeepsInv(s: State, pid: nat)
    requires Inv(s) && Enabled(s, ReadMeta(pid))
    ensures Inv(Apply(s, ReadMeta(pid)))
  {
    var s' := Apply(s, ReadMeta(pid));
    MoveKeepsInv(s, s', pid, s'.procs[pid], s.lock);
  }

  lemma TryFirstKeepsInv(s: State, pid: nat)
    requires Inv(s) && Enabled(s, TryFirst(pid))
    ensures Inv(Apply(s, TryFirst(pid)))
  {
    var s', p := Apply(s, TryFirst(pid)), s.procs[pid];
    var r := TryAdd(s.words, s.pages[p.blkno], p.t);
    assert ProcOk(s.pages, s.meta, p);
    if r.Some? {
      UpdateKeepsPages(s.words, s.pages, p.blkno, r.value);
      InsertKeepsInv(s, s', pid);
    } else {
      MoveKeepsInv(s, s', pid, s'.procs[pid], s.lock);
    }
  }

  lemma LockMetaKeepsInv(s: State, pid: nat)
    requires Inv(s) && Enabled(s, LockMeta(pid))
    ensures Inv(Apply(s, LockMeta(pid)))
  {
    var s' := Apply(s, LockMeta(pid));
    MoveKeepsInv(s, s', pid, s'.procs[pid], Some(pid));
  }

  lemma TryQueuedKeepsInv(s: State, pid: nat)
    requires Inv(s) && Enabled(s, TryQueued(pid))
    ensures Inv(Apply(s, TryQueued(pid)))
  {
    var s', p := Apply(s, TryQueued(pid)), s.procs[pid];
    var blkno := s.meta.notFull[p.n];
    var r := TryAdd(s.words, s.pages[blkno], p.t);
    assert ProcOk(s.pages, s.meta, p) && s.lock == Some(pid);
    if r.Some? {
      UpdateKeepsPages(s.words, s.pages, blkno, r.value);
      InsertKeepsInv(s, s', pid);
    } else {
      MoveKeepsInv(s, s', pid, s'.procs[pid], s.lock);
    }
  }

  /** Recycling: the page taken from the free space map holds no tuple, so nothing is lost when
      it is initialised again. */
  lemma TakeFreeKeepsInv(s: State, pid: nat, blkno: nat)
    requires Inv(s) && Enabled(s, TakeFree(pid, blkno))
    ensures Inv(Apply(s, TakeFree(pid, blkno)))
  {
    var s', t := Apply(s, TakeFree(pid, blkno)), s.procs[pid].t;
    assert s.lock == Some(pid);
    EmptyPageTakes(s.words, s.pages[blkno], t);
    UpdateKeepsPages(s.words, s.pages, blkno, Data(false, [t]));
    InsertKeepsInv(s, s', pid);
  }

  lemma ExtendKeepsInv(s: State, pid: nat)
    requires Inv(s) && Enabled(s, Extend(pid))
    ensures Inv(Apply(s, Extend(pid)))
  {
    hide PagesOk, ProcOk, Capacity;
    var s', t := Apply(s, Extend(pid)), s.procs[pid].t;
    assert s.lock == Some(pid);
    EmptyPageTakes(s.words, New, t);
    ExtendKeepsPages(s.words, s.pages, Data(false, [t]));
    InsertKeepsInv(s, s', pid);
  }

  lemma ExtendOnlyKeepsInv(s: State)
    requires Inv(s)
    ensures Inv(Apply(s, ExtendOnly))
  {
    var s' := Apply(s, ExtendOnly);
    ExtendKeepsPages(s.words, s.pages, New);
    forall q | q in s'.procs
      ensures ProcOk(s'.pages, s'.meta, s'.procs[q])
    {
      assert ProcOk(s.pages, s.meta, s.procs[q]);
    }
  }

  lemma ScanBlockKeepsInv(s: State, pid: nat)
    requires Inv(s) && Enabled(s, ScanBlock(pid))
    ensures Inv(Apply(s, ScanBlock(pid)))
  {
    var s' := Apply(s, ScanBlock(pid));
    assert ProcOk(s.pages, s.meta, s.procs[pid]);
    MoveKeepsInv(s, s', pid, s'.procs[pid], s.lock);
  }

  lemma VacuumKeepsPages(words: nat, pages: seq<Page>, b: nat, dead: set<nat>)
    requires PagesOk(words, pages) && 1 <= b < |pages|
    ensures PagesOk(words, pages[b := VacuumPage(pages[b], dead)])
  {
    VacuumPageItems(words, pages[b], dead);
  }

  lemma VacuumBlockKeepsInv(s: State, pid: nat)
    requires Inv(s) && Enabled(s, VacuumBlock(pid))
    ensures Inv(Apply(s, VacuumBlock(pid)))
  {
    hide PagesOk, VacuumPage, NotFull;
    var s', p := Apply(s, VacuumBlock(pid)), s.procs[pid];
    assert ProcOk(s.pages, s.meta, p);
    VacuumKeepsPages(s.words, s.pages, p.blkno, p.dead);
    forall q | q in s'.procs
      ensures ProcOk(s'.pages, s'.meta, s'.procs[q])
    {
      assert ProcOk(s.pages, s.meta, s.procs[q]);
    }
  }

  lemma PublishQueueKeepsInv(s: State, pid: nat)
    requires Inv(s) && Enabled(s, PublishQueue(pid))
    ensures Inv(Apply(s, PublishQueue(pid)))
  {
    var s', p := Apply(s, PublishQueue(pid)), s.procs[pid];
    assert ProcOk(s.pages, s.meta, p);
    forall q | q in s'.procs
      ensures ProcOk(s'.pages, s'.meta, s'.procs[q])
    {
      assert ProcOk(s.pages, s.meta, s.procs[q]);
    }
  }

  lemma StepKeepsInv(s: State, a: Action)
    requires Inv(s) && Enabled(s, a)
    ensures Inv(Apply(s, a))
  {
    match a
    case BeginInsert(pid, t) => MoveKeepsInv(s, Apply(s, a), pid, InsertStart(t), s.lock);
    case ReadMeta(pid) => ReadMetaKeepsInv(s, pid);
    case TryFirst(pid) => TryFirstKeepsInv(s, pid);
    case LockMeta(pid) => LockMetaKeepsInv(s, pid);
    case TryQueued(pid) => TryQueuedKeepsInv(s, pid);
    case TakeFree(pid, blkno) => TakeFreeKeepsInv(s, pid, blkno);
    case Extend(pid) => ExtendKeepsInv(s, pid);
    case ExtendOnly => ExtendOnlyKeepsInv(s);
    case BeginVacuum(pid, dead) =>
      MoveKeepsInv(s, Apply(s, a), pid, Vacuuming(dead, 1, |s.pages|, []), s.lock);
    case VacuumBlock(pid) => VacuumBlockKeepsInv(s, pid);
    case PublishQueue(pid) => PublishQueueKeepsInv(s, pid);
    case BeginScan(pid, sign) => MoveKeepsInv(s, Apply(s, a), pid, Scanning(sign, 1, |s.pages|, {}), s.lock);
    case ScanBlock(pid) => ScanBlockKeepsInv(s, pid);
    case Leave(pid) => LeaveKeepsInv(s, pid);
  }

  /** The guards of the model hold nobody up: a backend whose next section needs no lock held by
      another always has an enabled step, so no interleaving is excluded by them. */
  lemma NobodyIsStuck(s: State, pid: nat) returns (a: Action)
    requires Inv(s) && pid in s.procs
    requires s.lock.None? || s.procs[pid].InsertTry? || s.procs[pid].InsertQueue?
    requires s.procs[pid].Scanning? ==> s.procs[pid].blkno < s.procs[pid].npages
    ensures Enabled(s, a) && !a.Leave? && !a.ExtendOnly? && a.pid == pid
  {
    var p := s.procs[pid];
    assert ProcOk(s.pages, s.meta, p);
    match p
    case InsertStart(_) => a := ReadMeta(pid);
    case InsertTry(_, _) => a := TryFirst(pid);
    case InsertWait(_, _) => a := LockMeta(pid);
    case InsertQueue(_, n) => a := if n < s.meta.nEnd then TryQueued(pid) else Extend(pid);
    case Vacuuming(_, blkno, npages, _) => a := if blkno < npages then VacuumBlock(pid) else PublishQueue(pid);
    case Scanning(_, _, _, _) => a := ScanBlock(pid);
  }

  // ---------------------------------------------------------------------------
  // Whole runs.

  predicate CanRun(s: State, acts: seq<Action>)
    decreases |acts|
  {
    acts == [] || (Enabled(s, acts[0]) && CanRun(Apply(s, acts[0]), acts[1..]))
  }

  function Exec(s: State, acts: seq<Action>): State
    requires CanRun(s, acts)
    decreases |acts|
  {
    if acts == [] then s else Exec(Apply(s, acts[0]), acts[1..])
  }

  /** A just built index: no backend is active and the queue is empty. */
  predicate Initial(s: State) {
    && s.words <= 256 && PagesOk(s.words, s.pages)
    && s.meta.nStart == s.meta.nEnd == 0 && |s.meta.notFull| == META_BLOCKS
    && s.lock.None? && s.procs == map[]
  }

  /** Every reachable state satisfies the invariant: the queue stays within its array and names
      data pages only, deleted pages are empty, and no page overflows. */
  lemma {:induction false} RunKeepsInv(s: State, acts: seq<Action>)
    requires Inv(s) && CanRun(s, acts)
    ensures Inv(Exec(s, acts))
    decreases |acts|
  {
    if acts != [] {
      StepKeepsInv(s, acts[0]);
      RunKeepsInv(Apply(s, acts[0]), acts[1..]);
    }
  }
}
