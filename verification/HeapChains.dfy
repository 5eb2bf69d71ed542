/**
  Line pointers and update chains of one heap page, as verify_heapam checks them. What check_tuple
  finds out about a tuple's inserting transaction is part of the tuple here.
 */
module HeapChains {
  import opened Common
  import opened HeapXid

  /** status is the commit status of xmin where check_tuple determines one; stillInProgress is the
      answer of the later recheck. updateXid is zero when the tuple was not updated. */
  datatype Tuple = Tuple(
    ctidBlock: nat,
    ctidOffset: nat,
    xmin: nat,
    updateXid: nat,
    heapOnly: bool,
    hotUpdated: bool,
    status: Option<Status>,
    stillInProgress: bool)

  datatype LinePointer = Unused | Dead | Redirect(to: nat) | Normal(start: nat, len: nat, tuple: Tuple)

  /** items[off - 1] is the line pointer at offset off. */
  datatype Page = Page(block: nat, items: seq<LinePointer>)

  /** off is the line pointer being visited. */
  datatype Report =
    | RedirectPrecedesMinimum(off: nat)
    | RedirectExceedsMaximum(off: nat)
    | RedirectToUnused(off: nat)
    | RedirectToDead(off: nat)
    | RedirectToRedirect(off: nat)
    | Misaligned(off: nat)
    | TooShort(off: nat)
    | BeyondPage(off: nat)
    | RedirectToNonHeapOnly(off: nat, next: nat)
    | AlsoPointsThere(off: nat, next: nat, other: nat)
    | HeapOnlyFromNonHot(off: nat, next: nat)
    | NonHeapOnlyFromHot(off: nat, next: nat)
    | CommittedFromInProgress(off: nat, next: nat)
    | InProgressFromAborted(off: nat, next: nat)
    | CommittedFromAborted(off: nat, next: nat)
    | HeapOnlyRoot(off: nat)

  const INVALID: nat := 0
  const BLCKSZ: nat := 8192
  const MIN_TUPLE: nat := 24

  predicate OnPage(p: Page, off: nat) {
    1 <= off <= |p.items|
  }

  function Item(p: Page, off: nat): LinePointer
    requires OnPage(p, off)
  {
    p.items[off - 1]
  }

  // ---------------------------------------------------------------------------
  // Valid line pointers, successors and edges.

  /** A tuple whose header can be examined. */
  predicate Examinable(p: Page, off: nat) {
    && OnPage(p, off) && Item(p, off).Normal?
    && Item(p, off).start % 8 == 0 && MIN_TUPLE <= Item(p, off).len && Item(p, off).start + Item(p, off).len <= BLCKSZ
  }

  /** A redirect to a normal line pointer. */
  predicate GoodRedirect(p: Page, off: nat) {
    OnPage(p, off) && Item(p, off).Redirect? && OnPage(p, Item(p, off).to) && Item(p, Item(p, off).to).Normal?
  }

  predicate LpValid(p: Page, off: nat) {
    Examinable(p, off) || GoodRedirect(p, off)
  }

  function Successor(p: Page, off: nat): nat {
    if GoodRedirect(p, off) then Item(p, off).to
    else if Examinable(p, off) then
      var t := Item(p, off).tuple;
      if t.ctidBlock == p.block && t.ctidOffset != off && OnPage(p, t.ctidOffset) then t.ctidOffset else INVALID
    else INVALID
  }

  /** One step of an update chain: a redirect, or an update whose xmax is the next xmin. */
  predicate Edge(p: Page, off: nat, next: nat) {
    && next != INVALID && Successor(p, off) == next && LpValid(p, next)
    && (GoodRedirect(p, off) || (Examinable(p, next) && Updated(Item(p, off).tuple, Item(p, next).tuple)))
  }

  predicate Updated(curr: Tuple, next: Tuple) {
    curr.updateXid != 0 && curr.updateXid == next.xmin
  }

  /** The first line pointer below k that has an edge to next. */
  function First(p: Page, next: nat, k: nat): nat {
    if k == 0 then INVALID
    else if First(p, next, k - 1) != INVALID then First(p, next, k - 1)
    else if Edge(p, k - 1, next) then k - 1
    else INVALID
  }

  function StatusAt(p: Page, off: nat): Option<Status> {
    if Examinable(p, off) then Item(p, off).tuple.status else None
  }

  // ---------------------------------------------------------------------------
  // What each report means.

  /** The reports about single line pointers; the first fault found is reported. */
  predicate PointerFault(p: Page, r: Report) {
    OnPage(p, r.off) &&
    var item := Item(p, r.off);
    match r
    case RedirectPrecedesMinimum(_) => item.Redirect? && item.to < 1
    case RedirectExceedsMaximum(_) => item.Redirect? && item.to > |p.items|
    case RedirectToUnused(_) => item.Redirect? && OnPage(p, item.to) && Item(p, item.to).Unused?
    case RedirectToDead(_) => item.Redirect? && OnPage(p, item.to) && Item(p, item.to).Dead?
    case RedirectToRedirect(_) => item.Redirect? && OnPage(p, item.to) && Item(p, item.to).Redirect?
    case Misaligned(_) => item.Normal? && item.start % 8 != 0
    case TooShort(_) => item.Normal? && item.start % 8 == 0 && item.len < MIN_TUPLE
    case BeyondPage(_) => item.Normal? && item.start % 8 == 0 && MIN_TUPLE <= item.len && item.start + item.len > BLCKSZ
    case _ => false
  }

  /** A first edge between two tuples: the only kind whose two tuples are compared. */
  predicate TupleEdge(p: Page, off: nat, next: nat) {
    Edge(p, off, next) && Examinable(p, off) && Examinable(p, next) && First(p, next, off) == INVALID
  }

  predicate ChainFault(p: Page, r: Report) {
    match r
    case RedirectToNonHeapOnly(a, b) =>
      GoodRedirect(p, a) && Edge(p, a, b) && Examinable(p, b) && !Item(p, b).tuple.heapOnly
    case AlsoPointsThere(a, b, other) =>
      Edge(p, a, b) && other == First(p, b, a) && other != INVALID
    case HeapOnlyFromNonHot(a, b) =>
      TupleEdge(p, a, b) && !Item(p, a).tuple.hotUpdated && Item(p, b).tuple.heapOnly
    case NonHeapOnlyFromHot(a, b) =>
      TupleEdge(p, a, b) && Item(p, a).tuple.hotUpdated && !Item(p, b).tuple.heapOnly
    case CommittedFromInProgress(a, b) =>
      TupleEdge(p, a, b) && StatusAt(p, a) == Some(InProgress) && StatusAt(p, b) == Some(Committed) &&
      Item(p, a).tuple.stillInProgress
    case InProgressFromAborted(a, b) =>
      TupleEdge(p, a, b) && StatusAt(p, a) == Some(Aborted) && StatusAt(p, b) == Some(InProgress)
    case CommittedFromAborted(a, b) =>
      TupleEdge(p, a, b) && StatusAt(p, a) == Some(Aborted) && StatusAt(p, b) == Some(Committed)
    case _ => false
  }

  predicate RootFault(p: Page, r: Report) {
    && r.HeapOnlyRoot?
    && (StatusAt(p, r.off) == Some(Committed) || StatusAt(p, r.off) == Some(InProgress))
    && First(p, r.off, |p.items| + 1) == INVALID
    && Item(p, r.off).tuple.heapOnly
  }

  // ---------------------------------------------------------------------------
  // The loops.

  /** The body of the first loop. */
  method CheckLinePointer(p: Page, off: nat) returns (valid: bool, next: nat, rs: seq<Report>)
    requires OnPage(p, off)
    ensures valid == LpValid(p, off) && next == Successor(p, off)
    ensures forall r :: r in rs <==> PointerFault(p, r) && r.off == off
  {
    valid, next, rs := false, INVALID, [];
    var item := Item(p, off);
    if item.Unused? || item.Dead? {
      return;
    }
    if item.Redirect? {
      if item.to < 1 {
        rs := [RedirectPrecedesMinimum(off)];
        return;
      }
      if item.to > |p.items| {
        rs := [RedirectExceedsMaximum(off)];
        return;
      }
      var target := Item(p, item.to);
      if target.Unused? {
        rs := [RedirectToUnused(off)];
        return;
      } else if target.Dead? {
        rs := [RedirectToDead(off)];
        return;
      } else if target.Redirect? {
        rs := [RedirectToRedirect(off)];
        return;
      }
      return true, item.to, [];
    }
    if item.start % 8 != 0 {
      rs := [Misaligned(off)];
      return;
    }
    if item.len < MIN_TUPLE {
      rs := [TooShort(off)];
      return;
    }
    if item.start + item.len > BLCKSZ {
      rs := [BeyondPage(off)];
      return;
    }
    valid := true;
    if item.tuple.ctidBlock == p.block && item.tuple.ctidOffset != off &&
       item.tuple.ctidOffset >= 1 && item.tuple.ctidOffset <= |p.items| {
      next := item.tuple.ctidOffset;
    }
  }

  /** The arrays hold what the first loop records. */
  ghost predicate Recorded(p: Page, successor: array<nat>, lpValid: array<bool>)
    reads successor, lpValid
  {
    && successor.Length == lpValid.Length == |p.items| + 1
    && forall k: nat :: OnPage(p, k) ==> successor[k] == Successor(p, k) && lpValid[k] == LpValid(p, k)
  }

  method CheckLinePointers(p: Page) returns (successor: array<nat>, lpValid: array<bool>, rs: seq<Report>)
    ensures fresh(successor) && fresh(lpValid) && Recorded(p, successor, lpValid)
    ensures forall r :: r in rs <==> PointerFault(p, r)
  {
    hide PointerFault, LpValid, Successor;
    var n := |p.items|;
    successor := new nat[n + 1](_ => INVALID);
    lpValid := new bool[n + 1](_ => false);
    rs := [];
    var off := 1;
    while off <= n
      invariant 1 <= off <= n + 1
      invariant forall k: nat :: 1 <= k < off ==> successor[k] == Successor(p, k) && lpValid[k] == LpValid(p, k)
      invariant forall r :: r in rs <==> PointerFault(p, r) && 1 <= r.off < off
    {
      var valid, next, more := CheckLinePointer(p, off);
      successor[off], lpValid[off] := next, valid;
      rs := rs + more;
      off := off + 1;
    }
    forall r: Report
      ensures PointerFault(p, r) ==> OnPage(p, r.off)
    {
      FaultOnPage(p, r);
    }
  }

  lemma FaultOnPage(p: Page, r: Report)
    ensures PointerFault(p, r) ==> OnPage(p, r.off)
  {
  }

  /** predecessor holds the first edge into each line pointer from those visited so far. */
  ghost predicate Inverse(p: Page, predecessor: array<nat>, k: nat)
    reads predecessor
  {
    && predecessor.Length == |p.items| + 1
    && forall b: nat :: OnPage(p, b) ==> predecessor[b] == First(p, b, k)
  }

  lemma EdgeOnPage(p: Page, a: nat, b: nat)
    requires Edge(p, a, b)
    ensures OnPage(p, a) && OnPage(p, b)
  {
  }

  /** The part of the second loop's body that compares the two tuples of an edge. */
  method CompareTuples(p: Page, a: nat, b: nat) returns (rs: seq<Report>)
    requires TupleEdge(p, a, b)
    ensures forall r :: r in rs <==> ChainFault(p, r) && r.off == a
  {
    hide First;
    rs := [];
    var curr, next := Item(p, a).tuple, Item(p, b).tuple;
    if !curr.hotUpdated && next.heapOnly {
      rs := rs + [HeapOnlyFromNonHot(a, b)];
    }
    if curr.hotUpdated && !next.heapOnly {
      rs := rs + [NonHeapOnlyFromHot(a, b)];
    }
    if curr.status == Some(InProgress) && next.status == Some(Committed) && curr.stillInProgress {
      rs := rs + [CommittedFromInProgress(a, b)];
    }
    if curr.status == Some(Aborted) && next.status.Some? {
      if next.status.value == InProgress {
        rs := rs + [InProgressFromAborted(a, b)];
      } else if next.status.value == Committed {
        rs := rs + [CommittedFromAborted(a, b)];
      }
    }
  }

  /** The body of the second loop. */
  method CheckSuccessor(p: Page, a: nat, successor: array<nat>, lpValid: array<bool>, predecessor: array<nat>)
    returns (rs: seq<Report>)
    requires OnPage(p, a) && Recorded(p, successor, lpValid) && Inverse(p, predecessor, a) && predecessor != successor
    modifies predecessor
    ensures Inverse(p, predecessor, a + 1)
    ensures forall r :: r in rs <==> ChainFault(p, r) && r.off == a
  {
    var b := successor[a];
    rs := [];
    if b == INVALID || !lpValid[b] {
      return;
    }
    var curr, next := Item(p, a), Item(p, b);
    if curr.Redirect? {
      if !next.tuple.heapOnly {
        rs := rs + [RedirectToNonHeapOnly(a, b)];
      }
      if predecessor[b] != INVALID {
        rs := rs + [AlsoPointsThere(a, b, predecessor[b])];
        return;
      }
      predecessor[b] := a;
      return;
    }
    if next.Redirect? || curr.tuple.updateXid == 0 || curr.tuple.updateXid != next.tuple.xmin {
      return;
    }
    if predecessor[b] != INVALID {
      rs := rs + [AlsoPointsThere(a, b, predecessor[b])];
      return;
    }
    predecessor[b] := a;
    rs := CompareTuples(p, a, b);
  }

  method CheckChains(p: Page, successor: array<nat>, lpValid: array<bool>) returns (predecessor: array<nat>,
                     rs: seq<Report>)
    requires Recorded(p, successor, lpValid)
    ensures fresh(predecessor) && Inverse(p, predecessor, |p.items| + 1)
    ensures forall r :: r in rs <==> ChainFault(p, r)
  {
    hide ChainFault, Edge;
    predecessor := new nat[|p.items| + 1](_ => INVALID);
    rs := [];
    assert Inverse(p, predecessor, 1) by { NoneBefore(p); }
    var off := 1;
    while off <= |p.items|
      invariant 1 <= off <= |p.items| + 1
      invariant fresh(predecessor) && Inverse(p, predecessor, off) && Recorded(p, successor, lpValid)
      invariant forall r :: r in rs <==> ChainFault(p, r) && 1 <= r.off < off
    {
      var more := CheckSuccessor(p, off, successor, lpValid, predecessor);
      rs := rs + more;
      off := off + 1;
    }
    forall r: Report
      ensures ChainFault(p, r) ==> OnPage(p, r.off)
    {
      ChainFaultOnPage(p, r);
    }
  }

  lemma NoneBefore(p: Page)
    ensures forall b: nat :: First(p, b, 1) == INVALID
  {
  }

  lemma ChainFaultOnPage(p: Page, r: Report)
    ensures ChainFault(p, r) ==> OnPage(p, r.off)
  {
  }

  /** The third loop. */
  method CheckRoots(p: Page, predecessor: array<nat>) returns (rs: seq<Report>)
    requires Inverse(p, predecessor, |p.items| + 1)
    ensures forall r :: r in rs <==> RootFault(p, r)
  {
    hide First, Examinable;
    rs := [];
    var off := 1;
    while off <= |p.items|
      invariant 1 <= off <= |p.items| + 1
      invariant forall r :: r in rs <==> RootFault(p, r) && 1 <= r.off < off
    {
      var status := StatusAt(p, off);
      if (status == Some(Committed) || status == Some(InProgress)) && predecessor[off] == INVALID {
        StatusNormal(p, off);
        if Item(p, off).tuple.heapOnly {
          rs := rs + [HeapOnlyRoot(off)];
        }
      }
      off := off + 1;
    }
    forall r: Report
      ensures RootFault(p, r) ==> OnPage(p, r.off)
    {
      StatusNormal(p, r.off);
    }
  }

  lemma StatusNormal(p: Page, off: nat)
    ensures StatusAt(p, off).Some? ==> OnPage(p, off) && Item(p, off).Normal?
  {
  }

  predicate Fault(p: Page, r: Report) {
    PointerFault(p, r) || ChainFault(p, r) || RootFault(p, r)
  }

  /** The reports are exactly the faults, and the predecessors the first edges. */
  ghost predicate Checked(p: Page, rs: seq<Report>, predecessors: seq<nat>) {
    && (forall r :: r in rs <==> Fault(p, r))
    && |predecessors| == |p.items| + 1
    && forall b: nat :: OnPage(p, b) ==> predecessors[b] == First(p, b, |p.items| + 1)
  }

  /** One page. */
  method CheckPage(p: Page) returns (rs: seq<Report>, predecessors: seq<nat>)
    ensures Checked(p, rs, predecessors)
  {
    hide PointerFault, ChainFault, RootFault;
    var successor, lpValid, first := CheckLinePointers(p);
    var predecessor, second := CheckChains(p, successor, lpValid);
    var third := CheckRoots(p, predecessor);
    return first + second + third, predecessor[..];
  }
}
