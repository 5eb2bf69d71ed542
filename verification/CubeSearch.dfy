/**
  Searching a GiST of boxes: the test on a page's key never hides a matching box of the subtree,
  except for the contained-by operator with a query of higher dimension.
 */
module CubeSearch {
  import opened Cube
  import opened GistTree

  const OVERLAP := 3
  const SAME := 6
  const CONTAINS := 7
  const CONTAINED_BY := 8
  const OLD_CONTAINS := 13
  const OLD_CONTAINED_BY := 14

  predicate IsContainedBy(strategy: int) {
    strategy == CONTAINED_BY || strategy == OLD_CONTAINED_BY
  }

  /** g_cube_leaf_consistent; boxes compare as equal exactly when they are the same. */
  ghost predicate LeafConsistent(x: Box, query: Box, strategy: int) {
    if strategy == OVERLAP then Overlap(x, query)
    else if strategy == SAME then Same(x, query)
    else if strategy == CONTAINS || strategy == OLD_CONTAINS then Contains(x, query)
    else if IsContainedBy(strategy) then Contains(query, x)
    else false
  }

  ghost predicate InternalConsistent(key: Box, query: Box, strategy: int) {
    if strategy == OVERLAP then Overlap(key, query)
    else if strategy == SAME || strategy == CONTAINS || strategy == OLD_CONTAINS then Contains(key, query)
    else if IsContainedBy(strategy) then Overlap(key, query)
    else false
  }

  // ---------------------------------------------------------------------------
  // What the operators say.

  /** A point, with a coordinate in every dimension, lies in a box; missing coordinates are zero. */
  ghost predicate Inside(p: nat -> real, b: Box) {
    forall i: nat :: Lo(b, i) <= p(i) <= Hi(b, i)
  }

  /** Overlapping means sharing a point. */
  lemma OverlapIffCommonPoint(a: Box, b: Box)
    ensures Overlap(a, b) <==> SharePoint(a, b)
  {
    if Overlap(a, b) {
      var p := (i: nat) => Max(Lo(a, i), Lo(b, i));
      forall i: nat
        ensures Lo(a, i) <= p(i) <= Hi(a, i) && Lo(b, i) <= p(i) <= Hi(b, i)
      {
        assert Meet(a, b, i);
      }
      assert Inside(p, a) && Inside(p, b);
    }
    if p: nat -> real :| Inside(p, a) && Inside(p, b) {
      forall i: nat
        ensures Meet(a, b, i)
      {
        assert Lo(a, i) <= p(i) <= Hi(a, i) && Lo(b, i) <= p(i) <= Hi(b, i);
      }
    }
  }

  /** The point lies in the box as far as the first dim dimensions go. */
  ghost predicate InsideUpTo(p: nat -> real, b: Box, dim: nat) {
    forall i: nat :: i < dim ==> Lo(b, i) <= p(i) <= Hi(b, i)
  }

  /** Every point of inner lies in outer in the dimensions that inner has. */
  ghost predicate Holds(outer: Box, inner: Box) {
    forall p: nat -> real :: Inside(p, inner) ==> InsideUpTo(p, outer, inner.dim)
  }

  ghost predicate SharePoint(a: Box, b: Box) {
    exists p: nat -> real :: Inside(p, a) && Inside(p, b)
  }

  ghost predicate SamePoints(a: Box, b: Box) {
    a.dim == b.dim && forall p: nat -> real :: Inside(p, a) <==> Inside(p, b)
  }

  /** What the SQL operator of each strategy says about a stored box: the boxes share a point, have
      the same points in the same space, or the points of one lie in the other. */
  ghost predicate Matches(x: Box, query: Box, strategy: int) {
    || (strategy == OVERLAP && SharePoint(x, query))
    || (strategy == SAME && SamePoints(x, query))
    || ((strategy == CONTAINS || strategy == OLD_CONTAINS) && Holds(x, query))
    || (IsContainedBy(strategy) && Holds(query, x))
  }

  /** The corner of a box, and the same with one coordinate at the other end. */
  lemma CornersInside(b: Box, k: nat) returns (low: nat -> real, high: nat -> real)
    ensures Inside(low, b) && Inside(high, b)
    ensures low(k) == Lo(b, k) && high(k) == Hi(b, k)
  {
    low := (i: nat) => Lo(b, i);
    high := (i: nat) => Hi(b, i);
  }

  lemma ContainsIffHolds(a: Box, b: Box)
    ensures Contains(a, b) <==> Holds(a, b)
  {
    if Contains(a, b) {
      forall p: nat -> real | Inside(p, b)
        ensures InsideUpTo(p, a, b.dim)
      {
        assert forall i: nat :: i < b.dim ==> Lo(b, i) <= p(i) <= Hi(b, i);
      }
    }
    if Holds(a, b) {
      forall i: nat | i < b.dim
        ensures Lo(a, i) <= Lo(b, i) && Hi(b, i) <= Hi(a, i)
      {
        var low, high := CornersInside(b, i);
        assert InsideUpTo(low, a, b.dim) && InsideUpTo(high, a, b.dim);
      }
      assert forall i: nat :: a.dim <= i < b.dim ==> Lo(b, i) == 0.0 == Hi(b, i);
    }
  }

  lemma SameIffSamePoints(a: Box, b: Box)
    ensures Same(a, b) <==> SamePoints(a, b)
  {
    if Same(a, b) {
      assert forall i: nat :: Lo(a, i) == Lo(b, i) && Hi(a, i) == Hi(b, i);
    }
    if SamePoints(a, b) {
      forall i: nat | i < a.dim
        ensures Lo(a, i) == Lo(b, i) && Hi(a, i) == Hi(b, i)
      {
        var low, high := CornersInside(a, i);
        var low', high' := CornersInside(b, i);
        assert Inside(low, b) && Inside(high, b) && Inside(low', a) && Inside(high', a);
      }
    }
  }

  /** The test on leaf entries is the operator, for every strategy number. */
  lemma LeafConsistentExact(x: Box, query: Box, strategy: int)
    ensures LeafConsistent(x, query, strategy) <==> Matches(x, query, strategy)
  {
    hide Overlap, Same, Contains, Holds, SamePoints;
    OverlapIffCommonPoint(x, query);
    SameIffSamePoints(x, query);
    ContainsIffHolds(x, query);
    ContainsIffHolds(query, x);
  }

  /** The test on page keys: the key shares a point with the query, or holds it. */
  lemma InternalConsistentExact(key: Box, query: Box, strategy: int)
    ensures InternalConsistent(key, query, strategy) <==>
              || ((strategy == OVERLAP || IsContainedBy(strategy)) && SharePoint(key, query))
              || (strategy in {SAME, CONTAINS, OLD_CONTAINS} && Holds(key, query))
  {
    hide Overlap, Contains, Holds;
    OverlapIffCommonPoint(key, query);
    ContainsIffHolds(key, query);
  }

  // ---------------------------------------------------------------------------
  // One key and one box below it.

  lemma OverlapReached(key: Box, x: Box, query: Box)
    requires Bounds(key, x) && Overlap(x, query)
    ensures Overlap(key, query)
  {
    forall i: nat
      ensures Meet(key, query, i)
    {
      assert Meet(x, query, i);
      assert Lo(key, i) <= Lo(x, i) && Hi(x, i) <= Hi(key, i);
    }
  }

  lemma ContainsReached(key: Box, x: Box, query: Box)
    requires Bounds(key, x) && Contains(x, query)
    ensures Contains(key, query)
  {
    assert forall i: nat :: Lo(key, i) <= Lo(x, i) && Hi(x, i) <= Hi(key, i);
  }

  lemma SameContains(x: Box, query: Box)
    requires Same(x, query)
    ensures Contains(x, query)
  {
  }

  /** Beyond these dimensions the query's intervals all hold zero. */
  ghost predicate ZeroBeyond(query: Box, dim: nat) {
    forall i: nat :: dim <= i ==> Lo(query, i) <= 0.0 <= Hi(query, i)
  }

  /** A key above a contained box passes the test exactly when it meets the query in every
      dimension that the query has and the box lacks. */
  lemma ContainedByReachedIff(key: Box, x: Box, query: Box)
    requires Bounds(key, x) && Contains(query, x)
    ensures Overlap(key, query) <==> forall i: nat :: x.dim <= i < query.dim ==> Meet(key, query, i)
  {
    if forall i: nat :: x.dim <= i < query.dim ==> Meet(key, query, i) {
      forall i: nat
        ensures Meet(key, query, i)
      {
        assert Lo(key, i) <= Lo(x, i) && Hi(x, i) <= Hi(key, i);
      }
    }
  }

  /** Every key above a contained box passes exactly when the query holds zero in those
      dimensions; in particular when it has no more dimensions than the box. */
  lemma ContainedBySafeIff(x: Box, query: Box)
    requires Contains(query, x)
    ensures (forall key: Box :: Bounds(key, x) ==> Overlap(key, query)) <==> ZeroBeyond(query, x.dim)
    ensures query.dim <= x.dim ==> ZeroBeyond(query, x.dim)
  {
    if ZeroBeyond(query, x.dim) {
      forall key: Box | Bounds(key, x)
        ensures Overlap(key, query)
      {
        ContainedByReachedIff(key, x, query);
        assert forall i: nat :: x.dim <= i ==> Lo(key, i) <= Lo(x, i) && Hi(x, i) <= Hi(key, i);
      }
    } else {
      var i: nat :| x.dim <= i && !(Lo(query, i) <= 0.0 <= Hi(query, i));
      assert Bounds(x, x) && !Meet(x, query, i);
    }
  }

  /** The one-dimensional box 1 is contained in the query (0,5),(2,6), yet its page is skipped. */
  lemma ContainedByLosesBox()
    ensures var x: Box := NDBox(1, true, [1.0]);
            var query: Box := NDBox(2, false, [0.0, 5.0, 2.0, 6.0]);
            && LeafConsistent(x, query, CONTAINED_BY)
            && !InternalConsistent(x, query, CONTAINED_BY)
  {
    var x: Box := NDBox(1, true, [1.0]);
    var query: Box := NDBox(2, false, [0.0, 5.0, 2.0, 6.0]);
    assert Lo(x, 0) == Hi(x, 0) == 1.0 && Lo(query, 0) == 0.0 && Hi(query, 0) == 2.0;
    assert !Meet(x, query, 1);
  }

  /** What the search needs to know about a box: no key above it may be skipped. */
  ghost predicate Reachable(x: Box, query: Box, strategy: int) {
    IsContainedBy(strategy) && Contains(query, x) ==> ZeroBeyond(query, x.dim)
  }

  lemma ConsistentReached(key: Box, x: Box, query: Box, strategy: int)
    requires Bounds(key, x) && LeafConsistent(x, query, strategy) && Reachable(x, query, strategy)
    ensures InternalConsistent(key, query, strategy)
  {
    hide Bounds, Overlap, Contains, Same, ZeroBeyond;
    if strategy == OVERLAP {
      OverlapReached(key, x, query);
    } else if IsContainedBy(strategy) {
      ContainedBySafeIff(x, query);
    } else {
      if strategy == SAME {
        SameContains(x, query);
      }
      ContainsReached(key, x, query);
    }
  }

  // ---------------------------------------------------------------------------
  // Whole trees.

  type CubeEntry = Entry<Box, Box>

  function KeyOf(e: CubeEntry): Box {
    match e
    case Leaf(b, _) => b
    case Node(k, _) => k
  }

  /** Every page key bounds the keys on the page, as union and picksplit make it. */
  ghost predicate Built(e: CubeEntry) {
    e.Node? ==> forall c :: c in e.children ==> Bounds(e.key, KeyOf(c)) && Built(c)
  }

  /** The tests of the descent for a query and a strategy number. */
  ghost function PageTest(query: Box, strategy: int): Box -> bool {
    (key: Box) => InternalConsistent(key, query, strategy)
  }

  ghost function LeafTest(query: Box, strategy: int): Box -> bool {
    (x: Box) => LeafConsistent(x, query, strategy)
  }

  ghost function Wanted(query: Box, strategy: int): Box -> bool {
    (x: Box) => Matches(x, query, strategy)
  }

  lemma LeafTestExact(query: Box, strategy: int)
    ensures SameTest(LeafTest(query, strategy), Wanted(query, strategy))
  {
    hide LeafConsistent, Matches;
    forall x: Box
      ensures LeafTest(query, strategy)(x) <==> Wanted(query, strategy)(x)
    {
      LeafConsistentExact(x, query, strategy);
    }
  }

  /** A page's key bounds every box below it. */
  lemma {:induction false} KeyBoundsLeaf(e: CubeEntry, l: (Box, nat))
    requires Built(e) && l in Leaves(e)
    ensures Bounds(KeyOf(e), l.0)
    decreases e
  {
    hide Bounds;
    match e {
      case Leaf(b, _) =>
        BoundsSelf(b);
      case Node(key, children) =>
        var i := LeafOfChild(children, l);
        assert children[i] in children;
        KeyBoundsLeaf(children[i], l);
        BoundsTrans(key, KeyOf(children[i]), l.0);
    }
  }

  ghost predicate AllReachable(ls: seq<(Box, nat)>, query: Box, strategy: int) {
    forall l :: l in ls ==> Reachable(l.0, query, strategy)
  }

  lemma {:induction false} BuiltHidesNothing(e: CubeEntry, query: Box, strategy: int)
    requires Built(e) && AllReachable(Leaves(e), query, strategy)
    ensures HidesNothing(e, PageTest(query, strategy), Wanted(query, strategy))
    decreases e
  {
    hide LeafConsistent, InternalConsistent, Reachable, Bounds, Matches;
    if e.Node? {
      forall l | l in Leaves(e) && Matches(l.0, query, strategy)
        ensures InternalConsistent(e.key, query, strategy)
      {
        LeafConsistentExact(l.0, query, strategy);
        KeyBoundsLeaf(e, l);
        ConsistentReached(e.key, l.0, query, strategy);
      }
      forall c | c in e.children
        ensures HidesNothing(c, PageTest(query, strategy), Wanted(query, strategy))
      {
        LeavesInclude(e.children, c);
        BuiltHidesNothing(c, query, strategy);
      }
    }
  }

  /** Descending by the key test returns exactly the matching boxes, in order. */
  lemma SearchExact(e: CubeEntry, query: Box, strategy: int)
    requires Built(e) && AllReachable(Leaves(e), query, strategy)
    ensures Search(e, PageTest(query, strategy), LeafTest(query, strategy)) ==
            Filter(Leaves(e), Wanted(query, strategy))
  {
    hide PageTest, LeafTest, Wanted, Built, AllReachable;
    LeafTestExact(query, strategy);
    BuiltHidesNothing(e, query, strategy);
    SearchExactIff(e, PageTest(query, strategy), LeafTest(query, strategy), Wanted(query, strategy));
  }

  /** For every operator but contained-by the search is exact on every tree. */
  lemma SearchExactUnlessContainedBy(e: CubeEntry, query: Box, strategy: int)
    requires Built(e) && !IsContainedBy(strategy)
    ensures Search(e, PageTest(query, strategy), LeafTest(query, strategy)) ==
            Filter(Leaves(e), Wanted(query, strategy))
  {
    SearchExact(e, query, strategy);
  }
}
