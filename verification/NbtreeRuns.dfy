/**
  Runs of blocks that follow each other by right links. Right links leave no choice, so a run that
  stops at a block it has not passed before cannot repeat itself.
 */
module NbtreeRuns {
  import opened Common
  import opened NbtreePages

  predicate RightLink(g: Graph, bs: seq<nat>, i: nat)
    requires 1 <= i < |bs|
  {
    bs[i - 1] in g && g[bs[i - 1]].next == bs[i]
  }

  predicate Linked(g: Graph, bs: seq<nat>) {
    forall i :: 1 <= i < |bs| ==> RightLink(g, bs, i)
  }

  lemma LinkedSnoc(g: Graph, bs: seq<nat>, b: nat)
    requires Linked(g, bs)
    ensures Linked(g, bs + [b]) <==> bs == [] || (bs[|bs| - 1] in g && g[bs[|bs| - 1]].next == b)
  {
    var all, n := bs + [b], |bs|;
    assert forall i :: 1 <= i < n ==> RightLink(g, all, i) == RightLink(g, bs, i);
    if n > 0 {
      assert RightLink(g, all, n) <==> bs[n - 1] in g && g[bs[n - 1]].next == b;
    }
  }

  lemma {:induction false} RunAgrees(g: Graph, a: seq<nat>, b: seq<nat>, i: nat)
    requires Linked(g, a) && Linked(g, b) && i < |a| && i < |b| && a[0] == b[0]
    ensures a[i] == b[i]
  {
    if i > 0 {
      RunAgrees(g, a, b, i - 1);
      assert RightLink(g, a, i) && RightLink(g, b, i);
    }
  }

  /** A walk that has not met the last block of a run is still on the run. */
  lemma StillOn(g: Graph, passed: seq<nat>, next: nat, run: seq<nat>)
    requires Linked(g, passed + [next]) && Linked(g, run) && run != [] && (passed + [next])[0] == run[0]
    requires forall i :: 0 <= i < |passed| ==> passed[i] != run[|run| - 1]
    ensures |passed| < |run| && run[|passed|] == next && passed == run[..|passed|]
  {
    var all := passed + [next];
    if |run| <= |passed| {
      RunAgrees(g, all, run, |run| - 1);
    }
    forall i | 0 <= i < |passed|
      ensures passed[i] == run[i]
    {
      RunAgrees(g, all, run, i);
      assert all[i] == passed[i];
    }
    RunAgrees(g, all, run, |passed|);
  }

  lemma {:induction false} RunApart(g: Graph, run: seq<nat>, i: nat, j: nat)
    requires Linked(g, run) && i < j < |run|
    requires forall k :: 0 <= k < |run| - 1 ==> run[k] != run[|run| - 1]
    ensures run[i] != run[j]
    decreases |run| - j
  {
    if j < |run| - 1 {
      RunApart(g, run, i + 1, j + 1);
      assert RightLink(g, run, i + 1) && RightLink(g, run, j + 1);
    }
  }

  /** A run that stops at a block it has not passed before has no block twice. */
  lemma RunDistinct(g: Graph, run: seq<nat>)
    requires Linked(g, run) && forall k :: 0 <= k < |run| - 1 ==> run[k] != run[|run| - 1]
    ensures Distinct(run) && |run| <= |g| + 1
  {
    forall i, j | 0 <= i < j < |run|
      ensures run[i] != run[j]
    {
      RunApart(g, run, i, j);
    }
    if run != [] {
      var front := run[..|run| - 1];
      forall x | x in front
        ensures x in g.Keys
      {
        var i :| 0 <= i < |front| && front[i] == x;
        assert RightLink(g, run, i + 1);
      }
      DistinctBounded(front, g.Keys);
    }
  }

  predicate LeftLink(g: Graph, bs: seq<nat>, i: nat)
    requires 1 <= i < |bs|
  {
    bs[i] in g && g[bs[i]].prev == bs[i - 1]
  }

  /** Left links agree with right links. */
  predicate Mutual(g: Graph, bs: seq<nat>) {
    forall i :: 1 <= i < |bs| ==> LeftLink(g, bs, i)
  }

  /** Blocks from a left edge. */
  predicate FromLeftEdge(g: Graph, bs: seq<nat>) {
    && (forall i :: 0 <= i < |bs| ==> bs[i] in g && bs[i] != P_NONE)
    && (bs != [] ==> g[bs[0]].prev == P_NONE)
  }

  /** Mutual links from a left edge cannot close a cycle. */
  lemma {:induction false} MutualApart(g: Graph, bs: seq<nat>, i: nat, j: nat)
    requires FromLeftEdge(g, bs) && Mutual(g, bs) && i < j < |bs|
    ensures bs[i] != bs[j]
  {
    assert LeftLink(g, bs, j) && bs[j - 1] != P_NONE;
    if i > 0 && bs[i] == bs[j] {
      assert LeftLink(g, bs, i);
      MutualApart(g, bs, i - 1, j - 1);
    }
  }

  lemma MutualDistinct(g: Graph, bs: seq<nat>)
    requires FromLeftEdge(g, bs) && Mutual(g, bs)
    ensures Distinct(bs) && |bs| <= |g|
  {
    forall i, j | 0 <= i < j < |bs|
      ensures bs[i] != bs[j]
    {
      MutualApart(g, bs, i, j);
    }
    DistinctBounded(bs, g.Keys);
  }
}
