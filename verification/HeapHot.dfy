/**
  What a page without reports looks like: update chains never meet.
 */
module HeapHot {
  import opened Common
  import opened HeapChains
  import opened HeapXid

  ghost predicate Injective(p: Page) {
    forall a: nat, a': nat, b: nat :: Edge(p, a, b) && Edge(p, a', b) ==> a == a'
  }

  /** First finds the least source of an edge below a bound, if there is one. */
  lemma {:induction false} FirstIsLeast(p: Page, b: nat, k: nat)
    ensures var f := First(p, b, k);
            && (f != INVALID ==> f < k && Edge(p, f, b))
            && (forall a: nat :: a < k && Edge(p, a, b) ==> f != INVALID && f <= a)
  {
    hide Edge;
    if k > 0 {
      FirstIsLeast(p, b, k - 1);
      assert !Edge(p, 0, b) by { NoEdgeFromZero(p, b); }
    }
  }

  lemma NoEdgeFromZero(p: Page, b: nat)
    ensures !Edge(p, 0, b)
  {
  }

  /** The checker says that two pointers lead to one place exactly when two pointers do. */
  lemma ClashIffNotInjective(p: Page)
    ensures (exists a: nat, b: nat, other: nat :: Fault(p, AlsoPointsThere(a, b, other))) <==> !Injective(p)
  {
    if a: nat, b: nat, other: nat :| Fault(p, AlsoPointsThere(a, b, other)) {
      FirstIsLeast(p, b, a);
      assert Edge(p, a, b) && Edge(p, other, b) && other < a;
    }
    if !Injective(p) {
      var a: nat, a': nat, b: nat :| Edge(p, a, b) && Edge(p, a', b) && a != a';
      var later := if a < a' then a' else a;
      FirstIsLeast(p, b, later);
      assert Fault(p, AlsoPointsThere(later, b, First(p, b, later)));
    }
  }

  /** Without that report the predecessors are the inverse of the edges. */
  lemma PredecessorIsInverse(p: Page, a: nat, b: nat)
    requires Injective(p)
    ensures a != INVALID && First(p, b, |p.items| + 1) == a <==> Edge(p, a, b)
  {
    hide Edge;
    FirstIsLeast(p, b, |p.items| + 1);
    if Edge(p, a, b) {
      EdgeOnPage(p, a, b);
    }
  }

  // ---------------------------------------------------------------------------
  // Chains.

  predicate Linked(p: Page, cs: seq<nat>, i: nat)
    requires 1 <= i < |cs|
  {
    Edge(p, cs[i - 1], cs[i])
  }

  ghost predicate Chain(p: Page, cs: seq<nat>) {
    cs != [] && forall i :: 1 <= i < |cs| ==> Linked(p, cs, i)
  }

  /** Nothing leads to it. */
  ghost predicate IsRoot(p: Page, off: nat) {
    forall a: nat :: !Edge(p, a, off)
  }

  /** Chains from roots that share a line pointer share everything before it. */
  lemma {:induction false} ChainsNeverMeet(p: Page, cs: seq<nat>, ds: seq<nat>, i: nat, j: nat)
    requires Injective(p) && Chain(p, cs) && Chain(p, ds) && IsRoot(p, cs[0]) && IsRoot(p, ds[0])
    requires i < |cs| && j < |ds| && cs[i] == ds[j]
    ensures i == j && cs[..i + 1] == ds[..j + 1]
  {
    hide Edge;
    if i > 0 {
      assert Linked(p, cs, i);
    }
    if j > 0 {
      assert Linked(p, ds, j);
    }
    if i > 0 && j > 0 {
      ChainsNeverMeet(p, cs, ds, i - 1, j - 1);
      assert cs[..i + 1] == cs[..i] + [cs[i]] && ds[..j + 1] == ds[..j] + [ds[j]];
    }
  }

  /** Edges lead to one place. */
  lemma EdgeFunctional(p: Page, a: nat, b: nat, b': nat)
    requires Edge(p, a, b) && Edge(p, a, b')
    ensures b == b'
  {
  }

  ghost predicate FromRoot(p: Page, cs: seq<nat>, off: nat) {
    Chain(p, cs) && IsRoot(p, cs[0]) && cs[|cs| - 1] == off
  }

  ghost predicate Cycle(p: Page, cs: seq<nat>, off: nat) {
    Chain(p, cs) && |cs| >= 2 && cs[0] == off == cs[|cs| - 1]
  }

  lemma Prepend(p: Page, a: nat, cs: seq<nat>)
    requires Chain(p, cs) && Edge(p, a, cs[0])
    ensures Chain(p, [a] + cs)
  {
    hide Edge;
    var all := [a] + cs;
    forall i | 1 <= i < |all|
      ensures Linked(p, all, i)
    {
      assert i >= 2 ==> Linked(p, cs, i - 1);
    }
  }

  lemma ChainOnPage(p: Page, cs: seq<nat>)
    requires Chain(p, cs) && OnPage(p, cs[|cs| - 1])
    ensures forall i :: 0 <= i < |cs| ==> OnPage(p, cs[i])
  {
    hide Edge;
    forall i | 0 <= i < |cs|
      ensures OnPage(p, cs[i])
    {
      if i + 1 < |cs| {
        assert Linked(p, cs, i + 1);
        EdgeOnPage(p, cs[i], cs[i + 1]);
      }
    }
  }

  ghost function UpTo(n: nat): (s: set<nat>)
    ensures |s| == n && forall k: nat :: k in s <==> 1 <= k <= n
  {
    if n == 0 then {} else UpTo(n - 1) + {n}
  }

  /** Following predecessors from the head of a chain ends at a root or comes back round. */
  lemma {:induction false} WalkBack(p: Page, cs: seq<nat>) returns (ds: seq<nat>)
    requires Chain(p, cs) && Distinct(cs) && OnPage(p, cs[|cs| - 1])
    ensures FromRoot(p, ds, cs[|cs| - 1]) || Cycle(p, ds, cs[|cs| - 1])
    decreases |p.items| - |cs|
  {
    hide Edge;
    var last := cs[|cs| - 1];
    if IsRoot(p, cs[0]) {
      return cs;
    }
    var a: nat :| Edge(p, a, cs[0]);
    Prepend(p, a, cs);
    var all := [a] + cs;
    if a == last {
      return all;
    }
    ChainOnPage(p, cs);
    EdgeOnPage(p, a, cs[0]);
    if i :| 0 <= i < |cs| && cs[i] == a {
      assert Linked(p, cs, i + 1);
      EdgeFunctional(p, a, cs[0], cs[i + 1]);
      assert false;
    }
    assert Distinct(all);
    DistinctBounded(all, UpTo(|p.items|));
    ds := WalkBack(p, all);
  }

  /** Every line pointer is on a chain from a root or on a cycle. */
  lemma RootOrCycle(p: Page, off: nat)
    requires OnPage(p, off)
    ensures exists cs :: FromRoot(p, cs, off) || Cycle(p, cs, off)
  {
    assert Chain(p, [off]);
    var cs := WalkBack(p, [off]);
  }

  /** The step back from a line pointer on a cycle stays on it. */
  lemma CycleStepsBack(p: Page, a: nat, off: nat, ds: seq<nat>) returns (es: seq<nat>)
    requires Injective(p) && Edge(p, a, off) && Cycle(p, ds, off)
    ensures Cycle(p, es, a)
  {
    hide Edge;
    var m := |ds| - 1;
    assert Linked(p, ds, m);
    var front := ds[..m];
    forall i | 1 <= i < m
      ensures Linked(p, front, i)
    {
      assert Linked(p, ds, i);
    }
    Prepend(p, a, front);
    es := [a] + front;
  }

  lemma {:induction false} NotBoth(p: Page, cs: seq<nat>, ds: seq<nat>, off: nat)
    requires Injective(p) && FromRoot(p, cs, off) && Cycle(p, ds, off)
    ensures false
  {
    hide Edge;
    assert Linked(p, ds, |ds| - 1);
    var n := |cs| - 1;
    if n > 0 {
      assert Linked(p, cs, n);
      var es := CycleStepsBack(p, cs[n - 1], off, ds);
      var front := cs[..n];
      forall i | 1 <= i < n
        ensures Linked(p, front, i)
      {
        assert Linked(p, cs, i);
      }
      NotBoth(p, front, es, cs[n - 1]);
    }
  }

  /** Without clashing pointers a line pointer is on a chain from a root exactly when it is on no
      cycle. */
  lemma RootXorCycle(p: Page, off: nat)
    requires Injective(p) && OnPage(p, off)
    ensures (exists cs :: FromRoot(p, cs, off)) <==> !exists ds :: Cycle(p, ds, off)
  {
    hide Edge, Injective;
    RootOrCycle(p, off);
    if exists cs, ds :: FromRoot(p, cs, off) && Cycle(p, ds, off) {
      var cs, ds :| FromRoot(p, cs, off) && Cycle(p, ds, off);
      NotBoth(p, cs, ds, off);
    }
  }

  // Two committed heap-only tuples, each the update of the other.

  const THIS := Tuple(7, 2, 10, 11, true, true, Some(Committed), false)
  const THAT := Tuple(7, 1, 11, 10, true, true, Some(Committed), false)
  const LOOP := Page(7, [Normal(8000, 40, THIS), Normal(8048, 40, THAT)])

  lemma LoopEdges(a: nat, b: nat)
    ensures Edge(LOOP, a, b) <==> (a == 1 && b == 2) || (a == 2 && b == 1)
  {
    assert Examinable(LOOP, 1) && Examinable(LOOP, 2);
    assert !GoodRedirect(LOOP, 1) && !GoodRedirect(LOOP, 2);
  }

  /** Such a page draws no report, although neither tuple is on a chain from a root. */
  lemma CycleUnreported(r: Report)
    ensures !Fault(LOOP, r)
    ensures Cycle(LOOP, [1, 2, 1], 1) && !exists cs :: FromRoot(LOOP, cs, 1)
  {
    hide Edge, Injective;
    forall a: nat, b: nat
      ensures Edge(LOOP, a, b) <==> (a == 1 && b == 2) || (a == 2 && b == 1)
    {
      LoopEdges(a, b);
    }
    assert Linked(LOOP, [1, 2, 1], 1) && Linked(LOOP, [1, 2, 1], 2);
    assert Cycle(LOOP, [1, 2, 1], 1);
    assert Injective(LOOP) by { LoopInjective(); }
    RootXorCycle(LOOP, 1);
    LoopFaultless(r);
  }

  lemma LoopInjective()
    ensures Injective(LOOP)
  {
    hide Edge;
    forall a: nat, a': nat, b: nat | Edge(LOOP, a, b) && Edge(LOOP, a', b)
      ensures a == a'
    {
      LoopEdges(a, b);
      LoopEdges(a', b);
    }
  }

  lemma LoopFaultless(r: Report)
    ensures !Fault(LOOP, r)
  {
    hide Edge;
    forall a: nat, b: nat
      ensures Edge(LOOP, a, b) <==> (a == 1 && b == 2) || (a == 2 && b == 1)
    {
      LoopEdges(a, b);
    }
    FirstIsLeast(LOOP, 1, 3);
    FirstIsLeast(LOOP, 2, 3);
    if r.AlsoPointsThere? {
      FirstIsLeast(LOOP, r.next, r.off);
    }
  }

  /** On a page without reports every live heap-only tuple has exactly one predecessor. */
  lemma HeapOnlyHasPredecessor(p: Page, off: nat)
    requires forall r :: !Fault(p, r)
    requires StatusAt(p, off) == Some(Committed) || StatusAt(p, off) == Some(InProgress)
    requires OnPage(p, off) && Item(p, off).Normal? && Item(p, off).tuple.heapOnly
    ensures Injective(p) && exists a: nat :: Edge(p, a, off) && forall a': nat :: Edge(p, a', off) ==> a' == a
  {
    ClashIffNotInjective(p);
    FirstIsLeast(p, off, |p.items| + 1);
    var a := First(p, off, |p.items| + 1);
    assert a != INVALID by { assert !Fault(p, HeapOnlyRoot(off)); }
    assert Edge(p, a, off);
  }
}
