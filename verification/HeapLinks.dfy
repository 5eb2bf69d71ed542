/**
  What the checks of a heap page report, told from its line pointers and tuples alone.
 */
module HeapLinks {
  import opened Common
  import opened HeapXid
  import opened HeapChains
  import opened HeapHot

  /** An aligned tuple with room for a header that lies within the page. */
  predicate TupleAt(p: Page, off: nat) {
    1 <= off <= |p.items| &&
    match p.items[off - 1]
    case Normal(start, len, _) => start % 8 == 0 && len >= 24 && start + len <= 8192
    case _ => false
  }

  function TupleOf(p: Page, off: nat): Tuple
    requires TupleAt(p, off)
  {
    p.items[off - 1].tuple
  }

  /** A redirect to a tuple. */
  predicate Redirects(p: Page, a: nat, b: nat) {
    1 <= a <= |p.items| && p.items[a - 1] == Redirect(b) && TupleAt(p, b)
  }

  /** A tuple was updated into another on the same page: its ctid names that one, and the updating
      transaction is the one that inserted it. */
  predicate Updates(p: Page, a: nat, b: nat) {
    && TupleAt(p, a) && TupleAt(p, b) && a != b
    && TupleOf(p, a).ctidBlock == p.block && TupleOf(p, a).ctidOffset == b
    && TupleOf(p, a).updateXid != 0 && TupleOf(p, a).updateXid == TupleOf(p, b).xmin
  }

  predicate Leads(p: Page, a: nat, b: nat) {
    Redirects(p, a, b) || Updates(p, a, b)
  }

  predicate NoneLeads(p: Page, b: nat) {
    forall a :: 1 <= a <= |p.items| ==> !Leads(p, a, b)
  }

  lemma EdgeIffLeads(p: Page, a: nat, b: nat)
    ensures Edge(p, a, b) <==> Leads(p, a, b)
  {
  }

  /** First finds the least line pointer that leads there. */
  lemma FirstLeads(p: Page, b: nat, k: nat)
    ensures var f := First(p, b, k);
            && (f != 0 ==> f < k && Leads(p, f, b))
            && (forall a: nat :: a < k && Leads(p, a, b) ==> f != 0 && f <= a)
  {
    hide Edge, Leads;
    FirstIsLeast(p, b, k);
    forall a: nat
      ensures Edge(p, a, b) <==> Leads(p, a, b)
    {
      EdgeIffLeads(p, a, b);
    }
  }

  // ---------------------------------------------------------------------------
  // Predecessors.

  /** Of several line pointers that lead to one place, redirects or updates, all but the first are
      reported, with the first. */
  lemma SecondIsReported(p: Page, rs: seq<Report>, predecessors: seq<nat>, a: nat, a': nat, b: nat)
    requires Checked(p, rs, predecessors) && Leads(p, a, b) && Leads(p, a', b) && a < a'
    requires forall c: nat :: c < a ==> !Leads(p, c, b)
    ensures AlsoPointsThere(a', b, a) in rs
  {
    hide Edge, Leads;
    EdgeIffLeads(p, a', b);
    FirstLeads(p, b, a');
    assert Fault(p, AlsoPointsThere(a', b, a));
  }

  /** The first one becomes the predecessor, and its target is not taken for a root. */
  lemma FirstIsRecorded(p: Page, rs: seq<Report>, predecessors: seq<nat>, a: nat, b: nat)
    requires Checked(p, rs, predecessors) && Leads(p, a, b)
    requires forall c: nat :: c < a ==> !Leads(p, c, b)
    ensures b < |predecessors| && predecessors[b] == a && HeapOnlyRoot(b) !in rs
    ensures forall other :: AlsoPointsThere(a, b, other) !in rs
  {
    LeadsOnPage(p, a, b);
    hide Edge, Leads;
    FirstLeads(p, b, |p.items| + 1);
    FirstLeads(p, b, a);
    assert !Fault(p, HeapOnlyRoot(b));
    assert forall other :: !Fault(p, AlsoPointsThere(a, b, other));
  }

  lemma LeadsOnPage(p: Page, a: nat, b: nat)
    requires Leads(p, a, b)
    ensures 1 <= a <= |p.items| && 1 <= b <= |p.items|
  {
  }

  /** A line pointer to which nothing leads has no predecessor, and is reported exactly when it is
      a heap-only tuple whose inserter committed or is in progress. */
  lemma RootIsReported(p: Page, rs: seq<Report>, predecessors: seq<nat>, b: nat)
    requires Checked(p, rs, predecessors) && 1 <= b <= |p.items| && NoneLeads(p, b)
    ensures predecessors[b] == 0
    ensures HeapOnlyRoot(b) in rs <==>
            && TupleAt(p, b) && TupleOf(p, b).heapOnly
            && (TupleOf(p, b).status == Some(Committed) || TupleOf(p, b).status == Some(InProgress))
  {
    hide Edge, Leads;
    FirstLeads(p, b, |p.items| + 1);
    assert HeapOnlyRoot(b) in rs <==> Fault(p, HeapOnlyRoot(b));
  }

  // ---------------------------------------------------------------------------
  // The two ends of a link.

  /** A redirect has to lead to a heap-only tuple. */
  lemma RedirectTarget(p: Page, rs: seq<Report>, predecessors: seq<nat>, a: nat, b: nat)
    requires Checked(p, rs, predecessors) && Redirects(p, a, b)
    ensures RedirectToNonHeapOnly(a, b) in rs <==> !TupleOf(p, b).heapOnly
  {
    EdgeIffLeads(p, a, b);
    assert RedirectToNonHeapOnly(a, b) in rs <==> Fault(p, RedirectToNonHeapOnly(a, b));
  }

  /** The first update that leads to a tuple is HOT exactly when the tuple is heap-only, and the
      tuple must not outlive its predecessor: otherwise there is a report, and only then. */
  lemma UpdateEnds(p: Page, rs: seq<Report>, predecessors: seq<nat>, a: nat, b: nat)
    requires Checked(p, rs, predecessors) && Updates(p, a, b)
    requires forall c: nat :: c < a ==> !Leads(p, c, b)
    ensures var x, y := TupleOf(p, a), TupleOf(p, b);
            && (HeapOnlyFromNonHot(a, b) in rs <==> !x.hotUpdated && y.heapOnly)
            && (NonHeapOnlyFromHot(a, b) in rs <==> x.hotUpdated && !y.heapOnly)
            && (CommittedFromInProgress(a, b) in rs <==>
                  x.status == Some(InProgress) && y.status == Some(Committed) && x.stillInProgress)
            && (InProgressFromAborted(a, b) in rs <==> x.status == Some(Aborted) && y.status == Some(InProgress))
            && (CommittedFromAborted(a, b) in rs <==> x.status == Some(Aborted) && y.status == Some(Committed))
  {
    UpdateEdge(p, a, b);
    FirstLeads(p, b, a);
    hide Edge, Leads;
    assert HeapOnlyFromNonHot(a, b) in rs <==> Fault(p, HeapOnlyFromNonHot(a, b));
    assert NonHeapOnlyFromHot(a, b) in rs <==> Fault(p, NonHeapOnlyFromHot(a, b));
    assert CommittedFromInProgress(a, b) in rs <==> Fault(p, CommittedFromInProgress(a, b));
    assert InProgressFromAborted(a, b) in rs <==> Fault(p, InProgressFromAborted(a, b));
    assert CommittedFromAborted(a, b) in rs <==> Fault(p, CommittedFromAborted(a, b));
  }

  lemma UpdateEdge(p: Page, a: nat, b: nat)
    requires Updates(p, a, b)
    ensures Edge(p, a, b) && Examinable(p, a) && Examinable(p, b)
  {
  }

  predicate FirstLeader(p: Page, a: nat, b: nat) {
    forall c: nat :: c < a ==> !Leads(p, c, b)
  }

  /** The reports about links name links. Two tuples are compared only where an update is the first
      to lead to its target. */
  lemma OnlyLinksReported(p: Page, rs: seq<Report>, predecessors: seq<nat>, r: Report)
    requires Checked(p, rs, predecessors) && r in rs
    ensures match r
            case AlsoPointsThere(a, b, other) => Leads(p, a, b) && Leads(p, other, b) && other < a
            case RedirectToNonHeapOnly(a, b) => Redirects(p, a, b)
            case HeapOnlyFromNonHot(a, b) => Updates(p, a, b) && FirstLeader(p, a, b)
            case NonHeapOnlyFromHot(a, b) => Updates(p, a, b) && FirstLeader(p, a, b)
            case CommittedFromInProgress(a, b) => Updates(p, a, b) && FirstLeader(p, a, b)
            case InProgressFromAborted(a, b) => Updates(p, a, b) && FirstLeader(p, a, b)
            case CommittedFromAborted(a, b) => Updates(p, a, b) && FirstLeader(p, a, b)
            case HeapOnlyRoot(b) => TupleAt(p, b) && NoneLeads(p, b)
            case _ => true
  {
    assert Fault(p, r);
    match r
    case AlsoPointsThere(a, b, _) => LinkOf(p, a, b);
    case RedirectToNonHeapOnly(a, b) => LinkOf(p, a, b);
    case HeapOnlyFromNonHot(a, b) => LinkOf(p, a, b);
    case NonHeapOnlyFromHot(a, b) => LinkOf(p, a, b);
    case CommittedFromInProgress(a, b) => LinkOf(p, a, b);
    case InProgressFromAborted(a, b) => LinkOf(p, a, b);
    case CommittedFromAborted(a, b) => LinkOf(p, a, b);
    case HeapOnlyRoot(b) => FirstLeads(p, b, |p.items| + 1);
    case _ =>
  }

  lemma LinkOf(p: Page, a: nat, b: nat)
    ensures Edge(p, a, b) <==> Leads(p, a, b)
    ensures Edge(p, a, b) && Examinable(p, a) ==> Updates(p, a, b)
    ensures Edge(p, a, b) && GoodRedirect(p, a) && Examinable(p, b) ==> Redirects(p, a, b)
    ensures First(p, b, a) == INVALID ==> FirstLeader(p, a, b)
    ensures First(p, b, a) != INVALID ==> First(p, b, a) < a && Leads(p, First(p, b, a), b)
  {
    EdgeIffLeads(p, a, b);
    FirstLeads(p, b, a);
  }

  /** A page without reports: no two line pointers lead to one place, redirects lead to heap-only
      tuples, updates are HOT exactly when they make one, nothing survives an aborted predecessor,
      and every live heap-only tuple has a predecessor. */
  lemma CleanPage(p: Page, predecessors: seq<nat>, a: nat, b: nat)
    requires Checked(p, [], predecessors)
    ensures Leads(p, a, b) ==> predecessors[b] == a
    ensures Redirects(p, a, b) ==> TupleOf(p, b).heapOnly
    ensures Updates(p, a, b) ==> TupleOf(p, a).hotUpdated == TupleOf(p, b).heapOnly
    ensures Updates(p, a, b) && TupleOf(p, a).status == Some(Aborted) ==>
              TupleOf(p, b).status != Some(Committed) && TupleOf(p, b).status != Some(InProgress)
    ensures TupleAt(p, b) && TupleOf(p, b).heapOnly && TupleOf(p, b).status == Some(Committed) ==> !NoneLeads(p, b)
  {
    if Leads(p, a, b) {
      LeadsOnPage(p, a, b);
      FirstLeads(p, b, |p.items| + 1);
      var f := First(p, b, |p.items| + 1);
      FirstLeads(p, b, f);
      if f < a {
        SecondIsReported(p, [], predecessors, f, a, b);
      }
      if Redirects(p, a, b) {
        RedirectTarget(p, [], predecessors, a, b);
      } else {
        UpdateEnds(p, [], predecessors, a, b);
      }
    }
    if TupleAt(p, b) && NoneLeads(p, b) {
      RootIsReported(p, [], predecessors, b);
    }
  }

  // ---------------------------------------------------------------------------
  // Single line pointers.

  lemma BadRedirectReported(p: Page, off: nat)
    requires 1 <= off <= |p.items| && p.items[off - 1].Redirect?
    ensures var to := p.items[off - 1].to;
            (exists r :: PointerFault(p, r) && r.off == off) <==> !(1 <= to <= |p.items| && p.items[to - 1].Normal?)
  {
    var to := p.items[off - 1].to;
    if to < 1 {
      assert PointerFault(p, RedirectPrecedesMinimum(off));
    } else if to > |p.items| {
      assert PointerFault(p, RedirectExceedsMaximum(off));
    } else {
      assert p.items[to - 1].Unused? ==> PointerFault(p, RedirectToUnused(off));
      assert p.items[to - 1].Dead? ==> PointerFault(p, RedirectToDead(off));
      assert p.items[to - 1].Redirect? ==> PointerFault(p, RedirectToRedirect(off));
    }
  }

  lemma BadTupleReported(p: Page, off: nat)
    requires 1 <= off <= |p.items| && p.items[off - 1].Normal?
    ensures (exists r :: PointerFault(p, r) && r.off == off) <==> !TupleAt(p, off)
  {
    var item := p.items[off - 1];
    assert item.start % 8 != 0 ==> PointerFault(p, Misaligned(off));
    assert item.start % 8 == 0 && item.len < 24 ==> PointerFault(p, TooShort(off));
    assert item.start % 8 == 0 && item.len >= 24 && item.start + item.len > 8192 ==> PointerFault(p, BeyondPage(off));
  }

  /** A line pointer that is in use is a tuple or a redirect to a line pointer with storage, or it
      draws exactly one report of its own. */
  lemma BadPointerReported(p: Page, off: nat)
    requires 1 <= off <= |p.items| && (p.items[off - 1].Redirect? || p.items[off - 1].Normal?)
    ensures (exists r :: PointerFault(p, r) && r.off == off) <==>
            match p.items[off - 1]
            case Redirect(to) => !(1 <= to <= |p.items| && p.items[to - 1].Normal?)
            case _ => !TupleAt(p, off)
    ensures forall r, r' :: PointerFault(p, r) && PointerFault(p, r') && r.off == r'.off == off ==> r == r'
  {
    if p.items[off - 1].Redirect? {
      BadRedirectReported(p, off);
    } else {
      BadTupleReported(p, off);
    }
  }

  // An ordinary pruned page: a redirect to the only tuple left of a HOT chain.

  const KEPT := Tuple(7, 2, 10, 0, true, false, Some(Committed), false)
  const PRUNED := Page(7, [Redirect(2), Normal(8000, 40, KEPT)])

  lemma PrunedLinks(a: nat, b: nat)
    ensures Leads(PRUNED, a, b) <==> a == 1 && b == 2
  {
  }

  lemma PrunedFaultless(r: Report)
    ensures !Fault(PRUNED, r)
  {
    hide Edge;
    forall a: nat, b: nat
      ensures Edge(PRUNED, a, b) <==> a == 1 && b == 2
    {
      EdgeIffLeads(PRUNED, a, b);
      PrunedLinks(a, b);
    }
    FirstIsLeast(PRUNED, 2, 3);
    if r.AlsoPointsThere? {
      FirstIsLeast(PRUNED, r.next, r.off);
    }
    assert !Examinable(PRUNED, 1);
  }

  lemma EmptyIffNone(rs: seq<Report>)
    ensures rs == [] <==> forall r :: r !in rs
  {
    assert rs != [] ==> rs[0] in rs;
  }

  /** It draws no report, and the redirect is the tuple's predecessor. */
  lemma PrunedPageIsClean(rs: seq<Report>, predecessors: seq<nat>)
    requires Checked(PRUNED, rs, predecessors)
    ensures rs == [] && predecessors[1] == 0 && predecessors[2] == 1
  {
    hide Fault, Leads;
    forall r
      ensures !Fault(PRUNED, r)
    {
      PrunedFaultless(r);
    }
    EmptyIffNone(rs);
    forall a: nat, b: nat
      ensures Leads(PRUNED, a, b) <==> a == 1 && b == 2
    {
      PrunedLinks(a, b);
    }
    FirstIsRecorded(PRUNED, rs, predecessors, 1, 2);
    RootIsReported(PRUNED, rs, predecessors, 1);
  }
}
