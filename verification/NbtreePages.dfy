/**
  B-Tree pages as the verifier of amcheck sees them: an arbitrary, possibly corrupt, graph of
  pages. Keys are positions in the total order that index tuples have under heap key space rules.
 */
module NbtreePages {
  import opened Common

  /** An index tuple; downlink is the child block of a pivot tuple. */
  datatype Item = Item(key: int, downlink: nat)

  /** items are the tuples at offsets 1, 2, ...; the first is the high key unless the page is
      rightmost. topParent is the link kept in the high key of a half-dead leaf. */
  datatype Page = Page(
    prev: nat,
    next: nat,
    level: nat,
    isLeaf: bool,
    isRoot: bool,
    halfDead: bool,
    deleted: bool,
    hasFullXid: bool,
    incompleteSplit: bool,
    topParent: nat,
    items: seq<Item>)

  type Graph = map<nat, Page>

  const P_NONE: nat := 0
  const P_HIKEY: nat := 1

  predicate Rightmost(p: Page) {
    p.next == P_NONE
  }

  predicate Ignorable(p: Page) {
    p.halfDead || p.deleted
  }

  /** P_FIRSTDATAKEY. */
  function FirstData(p: Page): nat {
    if Rightmost(p) then 1 else 2
  }

  function MaxOff(p: Page): nat {
    |p.items|
  }

  function ItemAt(p: Page, off: nat): Item
    requires 1 <= off <= MaxOff(p)
  {
    p.items[off - 1]
  }

  function KeyAt(p: Page, off: nat): int
    requires 1 <= off <= MaxOff(p)
  {
    ItemAt(p, off).key
  }

  /** offset_is_negative_infinity. */
  predicate NegInf(p: Page, off: nat) {
    !p.isLeaf && off == FirstData(p)
  }

  /** The sanity checks of palloc_btree_page. */
  predicate Sane(p: Page) {
    && (!p.deleted || p.hasFullXid ==> (p.isLeaf <==> p.level == 0))
    && (!p.isLeaf && !p.deleted ==> MaxOff(p) >= FirstData(p))
    && (p.isLeaf && !p.deleted && !Rightmost(p) ==> MaxOff(p) >= P_HIKEY)
    && (!p.isLeaf ==> !p.halfDead)
    && (p.hasFullXid ==> p.deleted)
    && !(p.deleted && p.halfDead)
  }

  /** Whether palloc_btree_page returns the page rather than raising an error. */
  predicate Readable(g: Graph, b: nat) {
    b != P_NONE && b in g && Sane(g[b])
  }

  predicate NoIgnorable(g: Graph) {
    forall b :: b in g ==> !Ignorable(g[b])
  }

  /** The first item bt_right_page_check_scankey would return from this page. */
  function FirstReal(p: Page): Option<int> {
    if p.isLeaf && MaxOff(p) >= FirstData(p) then Some(KeyAt(p, FirstData(p)))
    else if !p.isLeaf && MaxOff(p) >= FirstData(p) + 1 then Some(KeyAt(p, FirstData(p) + 1))
    else None
  }

  // ---------------------------------------------------------------------------
  // Walking left over half-dead pages.

  datatype Verdict = Error | Answer(yes: bool)

  /** A chain of left links from start over half-dead pages, each linked back to where the walk
      came from, that avoids start and ends at the left edge. */
  predicate LeftChain(g: Graph, start: nat, chain: seq<nat>) {
    && LeftSteps(g, start, chain)
    && g[chain[|chain| - 1]].prev == P_NONE
  }

  /** One step of the walk: to is a half-dead page that links back to from. */
  predicate LeftStep(g: Graph, start: nat, from: nat, to: nat) {
    && from in g && to == g[from].prev
    && Readable(g, to) && g[to].halfDead && to != start && g[to].next == from
  }

  predicate LeftSteps(g: Graph, start: nat, chain: seq<nat>) {
    && chain != [] && chain[0] == start && start in g
    && (forall i :: 1 <= i < |chain| ==> LeftStep(g, start, chain[i - 1], chain[i]))
    && chain[|chain| - 1] in g
  }

  ghost predicate ReachesLeftEdge(g: Graph, start: nat) {
    exists chain :: LeftChain(g, start, chain)
  }

  /** The right links lead back the way the walk came, so it cannot meet itself. */
  lemma {:induction false} LeftStepsApart(g: Graph, start: nat, chain: seq<nat>, i: nat, j: nat)
    requires LeftSteps(g, start, chain) && i < j < |chain|
    ensures chain[i] != chain[j]
  {
    assert LeftStep(g, start, chain[j - 1], chain[j]);
    if i > 0 && chain[i] == chain[j] {
      assert LeftStep(g, start, chain[i - 1], chain[i]);
      LeftStepsApart(g, start, chain, i - 1, j - 1);
    }
  }

  /** Left links leave no choice: a walk and a full chain agree as far as the walk goes. */
  lemma {:induction false} LeftStepsAgree(g: Graph, start: nat, a: seq<nat>, b: seq<nat>, i: nat)
    requires LeftSteps(g, start, a) && LeftChain(g, start, b) && i < |a|
    ensures i < |b| && a[i] == b[i]
  {
    if i > 0 {
      LeftStepsAgree(g, start, a, b, i - 1);
      assert LeftStep(g, start, a[i - 1], a[i]);
      if i < |b| {
        assert LeftStep(g, start, b[i - 1], b[i]);
      }
    }
  }

  /** A chain that has not reached the left edge takes another step. */
  lemma ChainContinues(g: Graph, start: nat, chain: seq<nat>, n: nat)
    requires LeftChain(g, start, chain) && n < |chain| && chain[n] in g && g[chain[n]].prev != P_NONE
    ensures LeftStep(g, start, chain[n], g[chain[n]].prev)
  {
    assert n + 1 < |chain|;
    assert LeftStep(g, start, chain[n + 1 - 1], chain[n + 1]);
  }

  lemma NoChainBeyond(g: Graph, start: nat, walk: seq<nat>)
    requires LeftSteps(g, start, walk)
    requires var from := walk[|walk| - 1];
             g[from].prev != P_NONE && !LeftStep(g, start, from, g[from].prev)
    ensures !ReachesLeftEdge(g, start)
  {
    forall chain
      ensures !LeftChain(g, start, chain)
    {
      if LeftChain(g, start, chain) {
        LeftStepsAgree(g, start, walk, chain, |walk| - 1);
        ChainContinues(g, start, chain, |walk| - 1);
      }
    }
  }

  lemma VisitedFacts(g: Graph, start: nat, walk: seq<nat>)
    requires LeftSteps(g, start, walk)
    ensures Distinct(walk) && |walk| <= |g|
  {
    forall i, j | 0 <= i < j < |walk|
      ensures walk[i] != walk[j]
    {
      LeftStepsApart(g, start, walk, i, j);
    }
    forall x | x in walk
      ensures x in g.Keys
    {
      var i :| 0 <= i < |walk| && walk[i] == x;
      assert i > 0 ==> LeftStep(g, start, walk[i - 1], walk[i]);
    }
    DistinctBounded(walk, g.Keys);
  }

  /** bt_leftmost_ignoring_half_dead, on any graph, cyclic or not: it terminates, visits no block
      twice, and answers yes exactly when such a chain to the left edge exists. */
  method LeftmostIgnoringHalfDead(g: Graph, start: nat) returns (r: Verdict, ghost visited: seq<nat>)
    requires start in g
    ensures r.Error? ==> !ReachesLeftEdge(g, start)
    ensures r.Answer? ==> (r.yes <==> ReachesLeftEdge(g, start))
    ensures Distinct(visited) && |visited| <= |g|
    ensures r == Answer(true) ==> LeftChain(g, start, visited)
  {
    var reached, reachedFrom := g[start].prev, start;
    var allHalfDead := true;
    visited := [start];
    VisitedFacts(g, start, visited);
    while reached != P_NONE && allHalfDead
      invariant LeftSteps(g, start, visited) && |visited| <= |g|
      invariant reachedFrom == visited[|visited| - 1] && reached == g[reachedFrom].prev
      invariant !allHalfDead ==> reached != P_NONE && !LeftStep(g, start, reachedFrom, reached)
      decreases |g| - |visited|, allHalfDead
    {
      if !Readable(g, reached) {
        NoChainBeyond(g, start, visited);
        VisitedFacts(g, start, visited);
        r := Error;
        return;
      }
      var page := g[reached];
      allHalfDead := page.halfDead && reached != start && reached != reachedFrom && page.next == reachedFrom;
      NotToSelf(g, start, visited);
      if allHalfDead {
        visited := visited + [reached];
        VisitedFacts(g, start, visited);
        reachedFrom := reached;
        reached := page.prev;
      }
    }
    VisitedFacts(g, start, visited);
    if allHalfDead {
      assert LeftChain(g, start, visited);
    } else {
      NoChainBeyond(g, start, visited);
    }
    r := Answer(allHalfDead);
  }

  /** A step never stays where it is, so that test of the source is implied by the others. */
  lemma NotToSelf(g: Graph, start: nat, walk: seq<nat>)
    requires LeftSteps(g, start, walk)
    ensures var from := walk[|walk| - 1];
            LeftStep(g, start, from, g[from].prev) ==> g[from].prev != from
  {
    var n := |walk| - 1;
    var from := walk[n];
    if LeftStep(g, start, from, g[from].prev) && g[from].prev == from {
      var walk' := walk + [from];
      assert forall i :: 1 <= i < |walk'| ==> LeftStep(g, start, walk'[i - 1], walk'[i]) by {
        forall i | 1 <= i < |walk'|
          ensures LeftStep(g, start, walk'[i - 1], walk'[i])
        {
          assert i < |walk| ==> LeftStep(g, start, walk[i - 1], walk[i]);
        }
      }
      LeftStepsApart(g, start, walk', n, n + 1);
      assert false;
    }
  }

  // ---------------------------------------------------------------------------
  // The left edge of a level without half-dead pages.

  lemma FirstStepIgnorable(g: Graph, start: nat, chain: seq<nat>)
    requires LeftChain(g, start, chain) && |chain| > 1
    ensures chain[1] in g && Ignorable(g[chain[1]])
  {
    assert LeftStep(g, start, chain[0], chain[1]);
  }

  lemma LeftEdgeWithoutHalfDead(g: Graph, start: nat)
    requires start in g
    ensures g[start].prev == P_NONE ==> ReachesLeftEdge(g, start)
    ensures NoIgnorable(g) && ReachesLeftEdge(g, start) ==> g[start].prev == P_NONE
  {
    if g[start].prev == P_NONE {
      assert LeftChain(g, start, [start]);
    } else if NoIgnorable(g) && ReachesLeftEdge(g, start) {
      var chain :| LeftChain(g, start, chain);
      if |chain| > 1 {
        FirstStepIgnorable(g, start, chain);
      }
      assert false;
    }
  }

  /** The callers' use of bt_leftmost_ignoring_half_dead: anything but yes is corruption. */
  method IsLeftmost(g: Graph, start: nat) returns (yes: bool)
    requires start in g
    ensures yes <==> ReachesLeftEdge(g, start)
    ensures NoIgnorable(g) ==> (yes <==> g[start].prev == P_NONE)
  {
    var r, _ := LeftmostIgnoringHalfDead(g, start);
    LeftEdgeWithoutHalfDead(g, start);
    yes := r == Answer(true);
  }
}
