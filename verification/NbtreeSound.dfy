/**
  What the verifier accepts against what is sound. Accepted and sound agree on leaf levels. On an
  internal level an accepted child chain is the downlinks interleaved with pages that have an
  excuse for lacking one; it is sound exactly when no such page is left and no first downlink is
  missing.
 */
module NbtreeSound {
  import opened Common
  import opened NbtreePages
  import opened NbtreeRuns
  import opened NbtreeAccept
  import opened NbtreeLevels

  // ---------------------------------------------------------------------------
  // The level itself.

  /** No page of a walk is half-dead. Internal pages never are. */
  predicate NoHalfDead(g: Graph, walk: seq<nat>) {
    forall i :: 0 <= i < |walk| && walk[i] in g ==> !g[walk[i]].halfDead
  }

  lemma VisitFacts(g: Graph, level: nat, leftmost: nat, isTrueRoot: bool, walk: seq<nat>, i: nat)
    requires AcceptableWalk(g, level, leftmost, isTrueRoot, walk) && NoHalfDead(g, walk) && i < |walk|
    ensures Readable(g, walk[i]) && !g[walk[i]].deleted && g[walk[i]].prev != walk[i]
    ensures g[walk[i]].level == level && PageOk(g, g[walk[i]])
    ensures i > 0 ==> LeftLink(g, walk, i)
    ensures i == 0 ==> ReachesLeftEdge(g, walk[i]) && (isTrueRoot ==> g[walk[i]].isRoot)
    ensures level > 0 ==>
              !g[walk[i]].isLeaf && PageFits(g, g[walk[i]], LowKey(g, BlockBefore(walk, i)), LastDownlink(g, walk, i))
  {
    hide PageOk, PageFits;
    assert VisitedAt(g, level, isTrueRoot, walk, i);
    if i > 0 {
      assert VisitedAt(g, level, isTrueRoot, walk, i - 1);
    }
  }

  /** An accepted level without half-dead pages is a doubly linked row of pages in order. */
  lemma WalkIsAcross(g: Graph, level: nat, leftmost: nat, isTrueRoot: bool, walk: seq<nat>)
    requires AcceptableWalk(g, level, leftmost, isTrueRoot, walk) && NoHalfDead(g, walk)
    ensures Across(g, walk) && Mutual(g, walk) && LevelOk(g, level, walk) && walk[0] == leftmost
    ensures isTrueRoot ==> g[leftmost].isRoot
  {
    hide PageOk, PageFits, ReachesLeftEdge;
    forall i | 0 <= i < |walk|
      ensures Readable(g, walk[i]) && g[walk[i]].level == level && PageOk(g, g[walk[i]]) && g[walk[i]].prev != walk[i]
      ensures i > 0 ==> LeftLink(g, walk, i)
      ensures i == 0 ==> ReachesLeftEdge(g, walk[i]) && (isTrueRoot ==> g[walk[i]].isRoot)
    {
      VisitFacts(g, level, leftmost, isTrueRoot, walk, i);
    }
  }

  /** Without half-dead pages anywhere the row is a chain from the left edge. */
  lemma WalkIsComplete(g: Graph, level: nat, leftmost: nat, isTrueRoot: bool, walk: seq<nat>)
    requires AcceptableWalk(g, level, leftmost, isTrueRoot, walk) && NoIgnorable(g)
    ensures Complete(g, walk) && Mutual(g, walk) && LevelOk(g, level, walk) && walk[0] == leftmost
    ensures isTrueRoot ==> g[leftmost].isRoot
  {
    hide AcceptableWalk, Across, LevelOk;
    WalkIsAcross(g, level, leftmost, isTrueRoot, walk);
    AcrossIsComplete(g, walk);
  }

  /** All pages of the walk are live internal pages. */
  predicate InternalPages(g: Graph, walk: seq<nat>) {
    forall i :: 0 <= i < |walk| ==> Readable(g, walk[i]) && !g[walk[i]].isLeaf && !g[walk[i]].deleted
  }

  lemma WalkIsInternal(g: Graph, level: nat, leftmost: nat, isTrueRoot: bool, walk: seq<nat>)
    requires AcceptableWalk(g, level, leftmost, isTrueRoot, walk) && NoHalfDead(g, walk) && level > 0
    ensures walk != [] && InternalPages(g, walk)
  {
    hide PageOk, PageFits;
    forall i | 0 <= i < |walk|
      ensures Readable(g, walk[i]) && !g[walk[i]].isLeaf && !g[walk[i]].deleted
    {
      VisitFacts(g, level, leftmost, isTrueRoot, walk, i);
    }
  }

  function LastBlock(bs: seq<nat>): nat {
    if bs == [] then P_NONE else bs[|bs| - 1]
  }

  /** The downlink remembered before a page is the last of the downlinks before it. */
  lemma {:induction false} LastRemembered(g: Graph, walk: seq<nat>, i: nat)
    requires InternalPages(g, walk) && i <= |walk|
    ensures LastDownlink(g, walk, i) == LastBlock(AllDownlinks(g, walk[..i]))
    ensures i > 0 ==> AllDownlinks(g, walk[..i]) != []
  {
    if i > 0 {
      LastRemembered(g, walk, i - 1);
      assert Readable(g, walk[i - 1]);
      AllDownlinksSnoc(g, walk, i - 1);
    }
  }

  lemma LastMatched(g: Graph, walk: seq<nat>, i: nat, off: nat)
    requires InternalPages(g, walk) && i < |walk| && FirstData(g[walk[i]]) <= off <= MaxOff(g[walk[i]]) + 1
    ensures DownlinkBefore(g[walk[i]], off, LastDownlink(g, walk, i)) == LastBlock(DownlinksTo(g, walk, i, off))
    ensures DownlinksTo(g, walk, i, off) == [] <==> i == 0 && off == FirstData(g[walk[i]])
  {
    LastRemembered(g, walk, i);
    if off > FirstData(g[walk[i]]) {
      DownlinksToNext(g, walk, i, off - 1);
    }
  }

  // ---------------------------------------------------------------------------
  // Sound levels are accepted.

  /** The high keys that the check compares are those of the definition. */
  lemma ClosesIffChildCloses(g: Graph, t: Page, off: nat, low: Option<int>)
    requires FirstData(t) <= off <= MaxOff(t) && ItemAt(t, off).downlink in g
    ensures ChildCloses(g, t, off) ==> Closes(t, off + 1, low, g[ItemAt(t, off).downlink])
    ensures Closes(t, off + 1, low, g[ItemAt(t, off).downlink]) && !g[ItemAt(t, off).downlink].incompleteSplit ==>
              ChildCloses(g, t, off)
  {
  }

  /** A child that continues the chain is reached at once. */
  lemma DirectlyReached(g: Graph, t: Page, off: nat, low: Option<int>, ds: seq<nat>)
    requires FirstData(t) <= off <= MaxOff(t) && ChildOk(g, t, off) && Chain(g, ds + [ItemAt(t, off).downlink])
    ensures Reaches(g, t, off, low, FromOf(g, LastBlock(ds)), SplitOf(g, LastBlock(ds)))
  {
    var d, all, n := ItemAt(t, off).downlink, ds + [ItemAt(t, off).downlink], |ds|;
    ClosesIffChildCloses(g, t, off, low);
    assert Readable(g, all[n]) && g[all[n]].prev != all[n];
    if n > 0 {
      assert RightLink(g, all, n) && Readable(g, all[n - 1]);
    } else {
      LeftEdgeWithoutHalfDead(g, d);
    }
    assert Crossed(g, t, off, low, FromOf(g, LastBlock(ds)), SplitOf(g, LastBlock(ds)), [d]);
  }

  lemma EndReached(g: Graph, t: Page, low: Option<int>, ds: seq<nat>)
    requires Complete(g, ds)
    ensures Reaches(g, t, 0, low, FromOf(g, LastBlock(ds)), SplitOf(g, LastBlock(ds)))
  {
    assert Readable(g, ds[|ds| - 1]);
    assert Crossed(g, t, 0, low, FromOf(g, LastBlock(ds)), SplitOf(g, LastBlock(ds)), [P_NONE]);
  }

  lemma GoodItemFits(g: Graph, level: nat, leftmost: nat, isTrueRoot: bool, walk: seq<nat>, i: nat, off: nat)
    requires GoodLevel(g, level, leftmost, isTrueRoot, walk) && level > 0 && InternalPages(g, walk) && i < |walk|
    requires NoIgnorable(g) && FirstData(g[walk[i]]) <= off <= MaxOff(g[walk[i]])
    ensures ItemFits(g, g[walk[i]], off, LowKey(g, BlockBefore(walk, i)),
                     DownlinkBefore(g[walk[i]], off, LastDownlink(g, walk, i)))
  {
    hide PageOk, Reaches, ChildOk, DownlinksTo, Chain;
    var t := g[walk[i]];
    LastMatched(g, walk, i, off);
    DownlinksToPrefix(g, walk, i, off + 1);
    DownlinksToNext(g, walk, i, off);
    ChainPrefix(g, AllDownlinks(g, walk), DownlinksTo(g, walk, i, off + 1));
    assert ChildrenOk(g, t) && ChildOk(g, t, off);
    DirectlyReached(g, t, off, LowKey(g, BlockBefore(walk, i)), DownlinksTo(g, walk, i, off));
    GoodChildFits(g, t, off);
  }

  /** Behind the last item of the rightmost page, the downlink seen last is the level's last. */
  lemma LastOfAll(g: Graph, walk: seq<nat>, i: nat)
    requires InternalPages(g, walk) && Row(g, walk) && i < |walk| && Rightmost(g[walk[i]])
    ensures i == |walk| - 1 && AllDownlinks(g, walk) != []
    ensures DownlinkBefore(g[walk[i]], MaxOff(g[walk[i]]) + 1, LastDownlink(g, walk, i))
            == LastBlock(AllDownlinks(g, walk))
  {
    if i + 1 < |walk| {
      NotRightmost(g, walk, i);
    }
    assert Readable(g, walk[i]);
    hide Row, LastDownlink, DownlinksTo, InternalPages, Readable, DownlinkBefore;
    LastMatched(g, walk, i, MaxOff(g[walk[i]]) + 1);
    WholeLevel(g, walk);
  }

  /** On the last page of a level the chain of its children ends. */
  lemma GoodPageEnds(g: Graph, walk: seq<nat>, i: nat, low: Option<int>)
    requires Complete(g, walk) && Complete(g, AllDownlinks(g, walk)) && InternalPages(g, walk) && i < |walk|
    requires Rightmost(g[walk[i]])
    ensures var l := DownlinkBefore(g[walk[i]], MaxOff(g[walk[i]]) + 1, LastDownlink(g, walk, i));
            Reaches(g, g[walk[i]], 0, low, FromOf(g, l), SplitOf(g, l))
  {
    var t := g[walk[i]];
    hide Reaches, Row, LastDownlink, DownlinkBefore, InternalPages;
    LastOfAll(g, walk, i);
    EndReached(g, t, low, AllDownlinks(g, walk));
  }

  lemma GoodLevelParts(g: Graph, level: nat, leftmost: nat, isTrueRoot: bool, walk: seq<nat>)
    requires GoodLevel(g, level, leftmost, isTrueRoot, walk) && level > 0
    ensures Complete(g, walk) && Complete(g, AllDownlinks(g, walk))
  {
  }

  lemma GoodPageFits(g: Graph, level: nat, leftmost: nat, isTrueRoot: bool, walk: seq<nat>, i: nat)
    requires GoodLevel(g, level, leftmost, isTrueRoot, walk) && level > 0 && InternalPages(g, walk) && i < |walk|
    requires NoIgnorable(g)
    ensures PageFits(g, g[walk[i]], LowKey(g, BlockBefore(walk, i)), LastDownlink(g, walk, i))
  {
    hide GoodLevel, Complete, Reaches, ItemFits, LowKey;
    var t, low, last := g[walk[i]], LowKey(g, BlockBefore(walk, i)), LastDownlink(g, walk, i);
    forall k: nat | FirstData(t) <= k <= MaxOff(t)
      ensures ItemFits(g, t, k, low, DownlinkBefore(t, k, last))
    {
      GoodItemFits(g, level, leftmost, isTrueRoot, walk, i, k);
    }
    GoodLevelParts(g, level, leftmost, isTrueRoot, walk);
    if Rightmost(t) {
      GoodPageEnds(g, walk, i, low);
    }
  }

  lemma GoodChildFits(g: Graph, t: Page, off: nat)
    requires 1 <= off <= MaxOff(t) && ChildOk(g, t, off) && NoIgnorable(g)
    ensures !NegInf(t, off) ==> ChildFits(g, t, off)
  {
  }

  lemma NotRightmost(g: Graph, walk: seq<nat>, i: nat)
    requires Row(g, walk) && i + 1 < |walk|
    ensures walk[i] in g && !Rightmost(g[walk[i]])
  {
    assert RightLink(g, walk, i + 1) && Readable(g, walk[i + 1]);
  }

  /** Without half-dead pages every sound level is accepted. */
  lemma GoodIsAcceptable(g: Graph, level: nat, leftmost: nat, isTrueRoot: bool, walk: seq<nat>)
    requires GoodLevel(g, level, leftmost, isTrueRoot, walk) && NoIgnorable(g)
    ensures AcceptableWalk(g, level, leftmost, isTrueRoot, walk)
  {
    hide PageOk, PageFits, ChildrenOk, AllDownlinks;
    forall i | 0 <= i < |walk|
      ensures VisitedAt(g, level, isTrueRoot, walk, i)
    {
      assert Readable(g, walk[i]) && (i > 0 ==> LeftLink(g, walk, i) && Readable(g, walk[i - 1]));
      LastLiveIsBefore(g, walk, i);
      if i == 0 {
        LeftEdgeWithoutHalfDead(g, walk[0]);
      }
      if level > 0 {
        assert InternalPages(g, walk) by { GoodIsInternal(g, level, leftmost, isTrueRoot, walk); }
        GoodPageFits(g, level, leftmost, isTrueRoot, walk, i);
      }
    }
  }

  lemma GoodIsInternal(g: Graph, level: nat, leftmost: nat, isTrueRoot: bool, walk: seq<nat>)
    requires GoodLevel(g, level, leftmost, isTrueRoot, walk) && NoIgnorable(g) && level > 0
    ensures InternalPages(g, walk)
  {
  }

  lemma LastLiveIsBefore(g: Graph, walk: seq<nat>, i: nat)
    requires i <= |walk| && forall k :: 0 <= k < |walk| ==> Readable(g, walk[k]) && !Ignorable(g[walk[k]])
    ensures LastLive(g, walk, i) == BlockBefore(walk, i)
  {
  }

  /** On a leaf level without half-dead pages accepted and sound are the same. */
  lemma LeafLevelExact(g: Graph, leftmost: nat, isTrueRoot: bool, walk: seq<nat>)
    requires NoIgnorable(g)
    ensures AcceptableWalk(g, 0, leftmost, isTrueRoot, walk) <==> GoodLevel(g, 0, leftmost, isTrueRoot, walk)
  {
    hide PageOk, AcceptableWalk;
    if AcceptableWalk(g, 0, leftmost, isTrueRoot, walk) {
      WalkIsComplete(g, 0, leftmost, isTrueRoot, walk);
    }
    if GoodLevel(g, 0, leftmost, isTrueRoot, walk) {
      GoodIsAcceptable(g, 0, leftmost, isTrueRoot, walk);
    }
  }

  // ---------------------------------------------------------------------------
  // The child chain of an accepted level.

  /** No page of the level lacks its first downlink. The other downlinks are read, so they are
      never missing. */
  predicate NoneMissing(g: Graph, walk: seq<nat>) {
    forall i :: 0 <= i < |walk| ==> walk[i] in g && Down(g[walk[i]]) != P_NONE
  }

  /** A page that may be there without a downlink. */
  predicate Spare(g: Graph, before: nat, b: nat) {
    before in g && b in g && (g[b].halfDead || g[b].deleted || MayLackDownlink(g, b, g[before].incompleteSplit))
  }

  /** The page is one level down, as far as a deleted one has a level, and its high key is the key
      behind the m-th downlink, unless the page is rightmost or split half way. */
  predicate ClosedAt(g: Graph, level: nat, seps: seq<Option<int>>, m: nat, b: nat) {
    b in g && (g[b].level + 1 == level || (g[b].deleted && !g[b].hasFullXid)) && m < |seps| &&
    (g[b].incompleteSplit || g[b].next == 0 || (g[b].items != [] && seps[m] == Some(g[b].items[0].key)))
  }

  /** kids is ds with spare pages in between, each of them closed by the key behind the last downlink
      up to it. */
  ghost predicate Woven(g: Graph, level: nat, seps: seq<Option<int>>, kids: seq<nat>, ds: seq<nat>)
    decreases |kids|
  {
    if kids == [] || ds == [] then kids == [] && ds == []
    else
      var n, m := |kids| - 1, |ds| - 1;
      && ClosedAt(g, level, seps, m, kids[n])
      && (|| (kids[n] == ds[m] && Woven(g, level, seps, kids[..n], ds[..m]))
          || (n > 0 && Spare(g, kids[n - 1], kids[n]) && Woven(g, level, seps, kids[..n], ds)))
  }

  lemma WovenLink(g: Graph, level: nat, seps: seq<Option<int>>, kids: seq<nat>, ds: seq<nat>, d: nat)
    requires Woven(g, level, seps, kids, ds) && ClosedAt(g, level, seps, |ds|, d)
    ensures Woven(g, level, seps, kids + [d], ds + [d])
  {
    hide Spare, ClosedAt;
    assert (kids + [d])[..|kids|] == kids && (ds + [d])[..|ds|] == ds;
  }

  lemma WovenSpare(g: Graph, level: nat, seps: seq<Option<int>>, kids: seq<nat>, ds: seq<nat>, b: nat)
    requires Woven(g, level, seps, kids, ds) && kids != [] && Spare(g, kids[|kids| - 1], b)
    requires ds != [] && ClosedAt(g, level, seps, |ds| - 1, b)
    ensures Woven(g, level, seps, kids + [b], ds)
  {
    hide Spare, ClosedAt;
    assert (kids + [b])[..|kids|] == kids;
  }

  /** The pivot that a page is compared with is the key behind a downlink. */
  predicate PivotIs(g: Graph, walk: seq<nat>, i: nat, pivot: nat, seps: seq<Option<int>>, m: nat) {
    i < |walk| && walk[i] in g && m < |seps| &&
    Boundary(g[walk[i]], pivot, LowKey(g, BlockBefore(walk, i))) == seps[m]
  }

  lemma ClosedByPivot(g: Graph, level: nat, walk: seq<nat>, i: nat, pivot: nat, seps: seq<Option<int>>, m: nat, b: nat)
    requires PivotIs(g, walk, i, pivot, seps, m) && b in g
    requires OnLevelBelow(g, g[walk[i]], b) && g[walk[i]].level == level
    requires Closes(g[walk[i]], pivot, LowKey(g, BlockBefore(walk, i)), g[b])
    ensures ClosedAt(g, level, seps, m, b)
  {
  }

  /** Before a data offset it is the key behind the last downlink, and after it the key behind its
      own; the negative infinity item of a page stands for the high key of the page before. */
  lemma PivotsAreSeps(g: Graph, walk: seq<nat>, i: nat, off: nat)
    requires InternalPages(g, walk) && i < |walk| && FirstData(g[walk[i]]) <= off <= MaxOff(g[walk[i]])
    ensures var n, seps := |DownlinksTo(g, walk, i, off)|, AllSeps(g, walk);
            PivotIs(g, walk, i, off + 1, seps, n) && (n > 0 ==> PivotIs(g, walk, i, off, seps, n - 1))
  {
    hide DownlinksTo, SepsTo, AllSeps;
    var t := g[walk[i]];
    assert Readable(g, walk[i]) && (i > 0 ==> Readable(g, walk[i - 1]));
    SepsToPrefix(g, walk, i, off);
    SepsToPrefix(g, walk, i, off + 1);
    DownlinksToNext(g, walk, i, off);
    LastSep(g, walk, i, off + 1);
    LastMatched(g, walk, i, off);
    if i > 0 || off > FirstData(t) {
      LastSep(g, walk, i, off);
    }
  }

  /** Behind the last downlink of a level there is no key. */
  lemma NoKeyAtEnd(g: Graph, walk: seq<nat>)
    requires InternalPages(g, walk) && walk != [] && Rightmost(g[walk[|walk| - 1]])
    ensures var n, seps := |AllDownlinks(g, walk)|, AllSeps(g, walk);
            n > 0 && PivotIs(g, walk, |walk| - 1, 0, seps, n - 1)
  {
    assert Readable(g, walk[|walk| - 1]);
    LastOfSeps(g, walk);
  }

  /** The first blocks of a way weave on. */
  lemma {:induction false} WeavePath(g: Graph, level: nat, walk: seq<nat>, i: nat, off: nat, kids: seq<nat>,
                                     ds: seq<nat>, seps: seq<Option<int>>, path: seq<nat>, n: nat)
    requires InternalPages(g, walk) && i < |walk| && off <= MaxOff(g[walk[i]]) && g[walk[i]].level == level
    requires kids != [] && ds != [] && Row(g, kids) && Woven(g, level, seps, kids, ds)
    requires PivotIs(g, walk, i, off, seps, |ds| - 1)
    requires Crossed(g, g[walk[i]], off, LowKey(g, BlockBefore(walk, i)), Some(g[kids[|kids| - 1]].next),
                     g[kids[|kids| - 1]].incompleteSplit, path)
    requires n < |path|
    ensures Row(g, kids + path[..n]) && Woven(g, level, seps, kids + path[..n], ds)
  {
    hide Woven, MayLackDownlink, ClosedAt, PivotIs;
    if n == 0 {
      assert kids + path[..0] == kids;
    } else {
      WeavePath(g, level, walk, i, off, kids, ds, seps, path, n - 1);
      var t, low, split := g[walk[i]], LowKey(g, BlockBefore(walk, i)), g[kids[|kids| - 1]].incompleteSplit;
      var so, b := kids + path[..n - 1], path[n - 1];
      assert so + [b] == kids + path[..n];
      assert CrossedAt(g, t, off, low, split, path, n - 1);
      var before := so[|so| - 1];
      assert before == if n == 1 then kids[|kids| - 1] else path[n - 2];
      assert n > 1 ==> RightLink(g, path, n - 1);
      assert Readable(g, kids[|kids| - 1]);
      ClosedByPivot(g, level, walk, i, off, seps, |ds| - 1, b);
      RowSnoc(g, so, b);
      WovenSpare(g, level, seps, so, ds, b);
    }
  }

  lemma FirstCrossed(g: Graph, t: Page, off: nat, low: Option<int>, from: Option<nat>, split: bool, path: seq<nat>)
    requires off <= MaxOff(t) && Crossed(g, t, off, low, from, split, path) && |path| > 1
    ensures path[0] != DownlinkAt(t, off)
  {
    assert CrossedAt(g, t, off, low, split, path, 0);
  }

  /** One more downlink, with what is crossed on the way to it. */
  lemma WeaveItem(g: Graph, level: nat, walk: seq<nat>, i: nat, off: nat, kids: seq<nat>, ds: seq<nat>,
                  seps: seq<Option<int>>)
    returns (more: seq<nat>)
    requires InternalPages(g, walk) && i < |walk| && 1 <= off <= MaxOff(g[walk[i]]) && g[walk[i]].level == level
    requires Row(g, kids) && Woven(g, level, seps, kids, ds)
    requires LastBlock(kids) == LastBlock(ds) && (kids == [] <==> ds == [])
    requires PivotIs(g, walk, i, off + 1, seps, |ds|) && (ds != [] ==> PivotIs(g, walk, i, off, seps, |ds| - 1))
    requires Reaches(g, g[walk[i]], off, LowKey(g, BlockBefore(walk, i)), FromOf(g, LastBlock(ds)),
                     SplitOf(g, LastBlock(ds)))
    requires ItemAt(g[walk[i]], off).downlink != P_NONE
    ensures Row(g, more) && Woven(g, level, seps, more, ds + [ItemAt(g[walk[i]], off).downlink])
    ensures more != [] && LastBlock(more) == ItemAt(g[walk[i]], off).downlink
    ensures kids == [] ==> ReachesLeftEdge(g, more[0])
    ensures more[0] == (if kids == [] then ItemAt(g[walk[i]], off).downlink else kids[0])
  {
    hide Woven, PivotIs, ClosedAt, ReachesLeftEdge;
    var t, low, d := g[walk[i]], LowKey(g, BlockBefore(walk, i)), ItemAt(g[walk[i]], off).downlink;
    var from, split := FromOf(g, LastBlock(ds)), SplitOf(g, LastBlock(ds));
    var path :| Crossed(g, t, off, low, from, split, path);
    var n := |path| - 1;
    ClosedByPivot(g, level, walk, i, off + 1, seps, |ds|, d);
    if kids == [] {
      if n > 0 {
        FirstCrossed(g, t, off, low, from, split, path);
        assert false;
      }
      RowSnoc(g, kids, d);
      WovenLink(g, level, seps, kids, ds, d);
      more := kids + [d];
    } else {
      assert Readable(g, kids[|kids| - 1]);
      WeavePath(g, level, walk, i, off, kids, ds, seps, path, n);
      var so := kids + path[..n];
      assert n > 0 ==> RightLink(g, path, n);
      RowSnoc(g, so, d);
      WovenLink(g, level, seps, so, ds, d);
      more := so + [d];
    }
  }

  /** What is left of the child level after the last downlink. */
  lemma WeaveEnd(g: Graph, level: nat, walk: seq<nat>, kids: seq<nat>, ds: seq<nat>, seps: seq<Option<int>>)
    returns (more: seq<nat>)
    requires InternalPages(g, walk) && walk != [] && kids != [] && Row(g, kids)
    requires g[walk[|walk| - 1]].level == level
    requires ds != [] && Woven(g, level, seps, kids, ds) && PivotIs(g, walk, |walk| - 1, 0, seps, |ds| - 1)
    requires var i, last := |walk| - 1, kids[|kids| - 1];
             Reaches(g, g[walk[i]], 0, LowKey(g, BlockBefore(walk, i)), FromOf(g, last), SplitOf(g, last))
    ensures Row(g, more) && Woven(g, level, seps, more, ds) && more != [] && more[0] == kids[0]
    ensures Rightmost(g[more[|more| - 1]])
  {
    hide Woven, PivotIs;
    var i := |walk| - 1;
    assert Readable(g, kids[|kids| - 1]);
    var from, split := Some(g[kids[|kids| - 1]].next), g[kids[|kids| - 1]].incompleteSplit;
    var path :| Crossed(g, g[walk[i]], 0, LowKey(g, BlockBefore(walk, i)), from, split, path);
    var n := |path| - 1;
    WeavePath(g, level, walk, i, 0, kids, ds, seps, path, n);
    more := kids + path[..n];
    assert n > 0 ==> RightLink(g, path, n);
    assert Readable(g, more[|more| - 1]);
  }

  /** The state of the weaving: the downlinks before an offset and the children up to them. */
  ghost predicate WovenTo(g: Graph, level: nat, walk: seq<nat>, kids: seq<nat>, ds: seq<nat>) {
    && Row(g, kids) && Woven(g, level, AllSeps(g, walk), kids, ds)
    && LastBlock(kids) == LastBlock(ds) && (kids == [] <==> ds == [])
    && (kids != [] ==> kids[0] == ds[0] && ReachesLeftEdge(g, kids[0]))
  }

  /** No downlink of an accepted page is missing unless the first is. */
  lemma DownlinkPresent(g: Graph, t: Page, low: Option<int>, last: nat, off: nat)
    requires PageFits(g, t, low, last) && Sane(t) && !t.deleted && !t.isLeaf && Down(t) != P_NONE
    requires FirstData(t) <= off <= MaxOff(t)
    ensures ItemFits(g, t, off, low, DownlinkBefore(t, off, last)) && ItemAt(t, off).downlink != P_NONE
  {
    hide Reaches;
  }

  /** One offset further. */
  lemma WeaveNext(g: Graph, level: nat, leftmost: nat, isTrueRoot: bool, walk: seq<nat>, i: nat, off: nat,
                  before: seq<nat>)
    returns (kids: seq<nat>)
    requires AcceptableWalk(g, level, leftmost, isTrueRoot, walk) && level > 0 && NoneMissing(g, walk)
    requires NoHalfDead(g, walk)
    requires InternalPages(g, walk) && i < |walk| && FirstData(g[walk[i]]) <= off <= MaxOff(g[walk[i]])
    requires WovenTo(g, level, walk, before, DownlinksTo(g, walk, i, off))
    ensures WovenTo(g, level, walk, kids, DownlinksTo(g, walk, i, off + 1))
  {
    hide Woven, PageOk, PageFits, Reaches, AcceptableWalk, Row, DownlinksTo, PivotIs, ReachesLeftEdge;
    var t, ds := g[walk[i]], DownlinksTo(g, walk, i, off);
    VisitFacts(g, level, leftmost, isTrueRoot, walk, i);
    DownlinkPresent(g, t, LowKey(g, BlockBefore(walk, i)), LastDownlink(g, walk, i), off);
    LastMatched(g, walk, i, off);
    DownlinksToNext(g, walk, i, off);
    PivotsAreSeps(g, walk, i, off);
    kids := WeaveItem(g, level, walk, i, off, before, ds, AllSeps(g, walk));
  }

  /** The children of the first pages and of one page up to an offset. */
  lemma {:induction false} WeaveTo(g: Graph, level: nat, leftmost: nat, isTrueRoot: bool, walk: seq<nat>, i: nat,
                                   off: nat)
    returns (kids: seq<nat>)
    requires AcceptableWalk(g, level, leftmost, isTrueRoot, walk) && level > 0 && NoneMissing(g, walk)
    requires NoHalfDead(g, walk)
    requires InternalPages(g, walk) && i < |walk| && FirstData(g[walk[i]]) <= off <= MaxOff(g[walk[i]]) + 1
    ensures WovenTo(g, level, walk, kids, DownlinksTo(g, walk, i, off))
    decreases i, off
  {
    hide WovenTo, AcceptableWalk, DownlinksTo;
    DownlinksToFirst(g, walk, i);
    if off > FirstData(g[walk[i]]) {
      var before := WeaveTo(g, level, leftmost, isTrueRoot, walk, i, off - 1);
      kids := WeaveNext(g, level, leftmost, isTrueRoot, walk, i, off - 1, before);
    } else if i > 0 {
      assert Readable(g, walk[i - 1]);
      kids := WeaveTo(g, level, leftmost, isTrueRoot, walk, i - 1, MaxOff(g[walk[i - 1]]) + 1);
    } else {
      kids := [];
      NothingWoven(g, level, walk);
    }
  }

  lemma NothingWoven(g: Graph, level: nat, walk: seq<nat>)
    ensures WovenTo(g, level, walk, [], [])
  {
  }

  /** The call that ends a level starts from its last downlink. */
  lemma LevelEnds(g: Graph, level: nat, leftmost: nat, isTrueRoot: bool, walk: seq<nat>)
    requires AcceptableWalk(g, level, leftmost, isTrueRoot, walk) && NoHalfDead(g, walk) && level > 0
    requires walk != [] && InternalPages(g, walk)
    ensures var i, ds := |walk| - 1, AllDownlinks(g, walk);
            && DownlinksTo(g, walk, i, MaxOff(g[walk[i]]) + 1) == ds != []
            && Reaches(g, g[walk[i]], 0, LowKey(g, BlockBefore(walk, i)), FromOf(g, LastBlock(ds)),
                       SplitOf(g, LastBlock(ds)))
  {
    hide PageOk, Reaches, ItemFits;
    var i := |walk| - 1;
    VisitFacts(g, level, leftmost, isTrueRoot, walk, i);
    var rightmost := Rightmost(g[walk[i]]);
    hide AcceptableWalk;
    LastMatched(g, walk, i, MaxOff(g[walk[i]]) + 1);
    AllDownlinksSnoc(g, walk, i);
    assert walk[..i + 1] == walk;
  }

  /** The children behind the last downlink. */
  lemma WeaveRest(g: Graph, level: nat, walk: seq<nat>, some: seq<nat>) returns (kids: seq<nat>)
    requires InternalPages(g, walk) && walk != [] && AllDownlinks(g, walk) != []
    requires Rightmost(g[walk[|walk| - 1]]) && g[walk[|walk| - 1]].level == level
    requires WovenTo(g, level, walk, some, AllDownlinks(g, walk))
    requires var i, last := |walk| - 1, LastBlock(AllDownlinks(g, walk));
             Reaches(g, g[walk[i]], 0, LowKey(g, BlockBefore(walk, i)), FromOf(g, last), SplitOf(g, last))
    ensures var ds := AllDownlinks(g, walk);
            Across(g, kids) && Woven(g, level, AllSeps(g, walk), kids, ds) && kids[0] == ds[0]
  {
    var ds, seps := AllDownlinks(g, walk), AllSeps(g, walk);
    assert some[|some| - 1] == ds[|ds| - 1];
    hide Woven, Reaches, PivotIs, Row, InternalPages, FromOf, SplitOf, LowKey, ReachesLeftEdge;
    NoKeyAtEnd(g, walk);
    kids := WeaveEnd(g, level, walk, some, ds, seps);
  }

  /** Below an accepted internal level whose first downlinks are all there lies one row across the
      whole child level: its downlinks in order, and between them only pages that are half-dead or
      deleted or have an excuse for lacking a downlink. The high key of each, unless it is rightmost
      or split half way itself, is the key behind the last downlink up to it. */
  lemma ChildChainWoven(g: Graph, level: nat, leftmost: nat, isTrueRoot: bool, walk: seq<nat>) returns (kids: seq<nat>)
    requires AcceptableWalk(g, level, leftmost, isTrueRoot, walk) && level > 0
    requires NoHalfDead(g, walk) && NoneMissing(g, walk)
    ensures var ds := AllDownlinks(g, walk);
            Across(g, kids) && Woven(g, level, AllSeps(g, walk), kids, ds) && ds != [] && kids[0] == ds[0]
  {
    WalkIsInternal(g, level, leftmost, isTrueRoot, walk);
    WalkIsAcross(g, level, leftmost, isTrueRoot, walk);
    var i := |walk| - 1;
    var end := MaxOff(g[walk[i]]) + 1;
    hide AcceptableWalk, Woven, Reaches, NoneMissing, DownlinksTo, WovenTo, PageOk;
    var some := WeaveTo(g, level, leftmost, isTrueRoot, walk, i, end);
    LevelEnds(g, level, leftmost, isTrueRoot, walk);
    kids := WeaveRest(g, level, walk, some);
  }

  // ---------------------------------------------------------------------------
  // When an accepted internal level is sound.

  /** A child with a downlink, or a spare one. */
  ghost predicate LinkedOrSpare(g: Graph, kids: seq<nat>, ds: seq<nat>, k: nat)
    requires k < |kids|
  {
    kids[k] in ds || (k > 0 && Spare(g, kids[k - 1], kids[k]))
  }

  lemma {:induction false} WovenFacts(g: Graph, level: nat, seps: seq<Option<int>>, kids: seq<nat>, ds: seq<nat>)
    requires Woven(g, level, seps, kids, ds)
    ensures |ds| <= |kids| && (|ds| == |kids| ==> ds == kids)
    ensures forall k :: 0 <= k < |kids| ==> LinkedOrSpare(g, kids, ds, k)
  {
    hide Spare, ClosedAt;
    if kids != [] {
      var n, m := |kids| - 1, |ds| - 1;
      var front := kids[..n];
      var link := ds != [] && kids[n] == ds[m] && Woven(g, level, seps, front, ds[..m]);
      var some := if link then ds[..m] else ds;
      WovenFacts(g, level, seps, front, some);
      assert kids == front + [kids[n]] && (link ==> ds == some + [ds[m]]);
      forall k | 0 <= k < |kids|
        ensures LinkedOrSpare(g, kids, ds, k)
      {
        assert k < n ==> LinkedOrSpare(g, front, some, k);
      }
    }
  }

  lemma SpareIsRoot(g: Graph, before: nat, b: nat)
    requires Spare(g, before, b) && NoIgnorable(g) && NoIncompleteSplit(g)
    ensures b in g && g[b].isRoot
  {
    LackExcuses(g, b, g[before].incompleteSplit);
  }

  /** Every page of the child chain that carries a root flag has a downlink. */
  ghost predicate RootsLinked(g: Graph, ds: seq<nat>) {
    forall bs :: Chain(g, bs) && bs != [] && ds != [] && bs[0] == ds[0] ==> RootsIn(g, bs, ds)
  }

  predicate RootsIn(g: Graph, bs: seq<nat>, ds: seq<nat>) {
    forall k :: 0 <= k < |bs| && bs[k] in g && g[bs[k]].isRoot ==> bs[k] in ds
  }

  ghost function ToSet(bs: seq<nat>): (s: set<nat>)
    ensures |s| <= |bs| && forall b :: b in bs ==> b in s
  {
    if bs == [] then {} else ToSet(bs[1..]) + {bs[0]}
  }

  lemma NoSpareLeft(g: Graph, level: nat, seps: seq<Option<int>>, kids: seq<nat>, ds: seq<nat>)
    requires Complete(g, kids) && Woven(g, level, seps, kids, ds) && ds != [] && kids[0] == ds[0]
    requires NoIgnorable(g) && NoIncompleteSplit(g) && RootsLinked(g, ds)
    ensures kids == ds
  {
    hide Spare, Woven, Row, NoIgnorable, NoIncompleteSplit;
    WovenFacts(g, level, seps, kids, ds);
    RowDistinct(g, kids);
    assert RootsIn(g, kids, ds);
    forall b | b in kids
      ensures b in ToSet(ds)
    {
      var k :| 0 <= k < |kids| && kids[k] == b;
      assert LinkedOrSpare(g, kids, ds, k);
      if b !in ds {
        SpareIsRoot(g, kids[k - 1], b);
      }
    }
    DistinctBounded(kids, ToSet(ds));
  }

  lemma AcceptedChildOk(g: Graph, t: Page, off: nat, low: Option<int>, last: nat)
    requires FirstData(t) <= off <= MaxOff(t) && ItemFits(g, t, off, low, last)
    requires NoIgnorable(g) && NoIncompleteSplit(g)
    requires ItemAt(t, off).downlink != P_NONE
    ensures ChildOk(g, t, off)
  {
    var d := ItemAt(t, off).downlink;
    var path :| Crossed(g, t, off, low, FromOf(g, last), SplitOf(g, last), path);
    assert Landed(g, t, off, low, FromOf(g, last));
    ClosesIffChildCloses(g, t, off, low);
  }

  /** Without half-dead pages and incomplete splits, an accepted internal level is sound exactly
      when no page lacks its first downlink and every child that carries a root flag has one. */
  lemma GoodIffLinked(g: Graph, level: nat, leftmost: nat, isTrueRoot: bool, walk: seq<nat>)
    requires AcceptableWalk(g, level, leftmost, isTrueRoot, walk) && level > 0
    requires NoIgnorable(g) && NoIncompleteSplit(g)
    ensures GoodLevel(g, level, leftmost, isTrueRoot, walk) <==>
            NoneMissing(g, walk) && RootsLinked(g, AllDownlinks(g, walk))
  {
    hide Woven, AcceptableWalk, PageOk, ChildOk, Across;
    WalkIsComplete(g, level, leftmost, isTrueRoot, walk);
    WalkIsInternal(g, level, leftmost, isTrueRoot, walk);
    var ds := AllDownlinks(g, walk);
    if NoneMissing(g, walk) && RootsLinked(g, ds) {
      var kids := ChildChainWoven(g, level, leftmost, isTrueRoot, walk);
      AcrossIsComplete(g, kids);
      NoSpareLeft(g, level, AllSeps(g, walk), kids, ds);
      forall i | 0 <= i < |walk|
        ensures walk[i] in g && ChildrenOk(g, g[walk[i]])
      {
        AcceptedChildrenOk(g, level, leftmost, isTrueRoot, walk, i);
      }
      assert GoodLevel(g, level, leftmost, isTrueRoot, walk);
    }
    if GoodLevel(g, level, leftmost, isTrueRoot, walk) {
      GoodIsLinked(g, level, leftmost, isTrueRoot, walk);
    }
  }

  lemma AcceptedChildrenOk(g: Graph, level: nat, leftmost: nat, isTrueRoot: bool, walk: seq<nat>, i: nat)
    requires AcceptableWalk(g, level, leftmost, isTrueRoot, walk) && level > 0 && i < |walk|
    requires NoIgnorable(g) && NoIncompleteSplit(g) && NoneMissing(g, walk)
    ensures walk[i] in g && ChildrenOk(g, g[walk[i]])
  {
    hide AcceptableWalk, PageOk, ChildOk, ItemFits;
    VisitFacts(g, level, leftmost, isTrueRoot, walk, i);
    var t, low, last := g[walk[i]], LowKey(g, BlockBefore(walk, i)), LastDownlink(g, walk, i);
    forall k: nat | FirstData(t) <= k <= MaxOff(t)
      ensures ChildOk(g, t, k)
    {
      DownlinkPresent(g, t, low, last, k);
      AcceptedChildOk(g, t, k, low, DownlinkBefore(t, k, last));
    }
  }

  lemma GoodIsLinked(g: Graph, level: nat, leftmost: nat, isTrueRoot: bool, walk: seq<nat>)
    requires GoodLevel(g, level, leftmost, isTrueRoot, walk) && level > 0 && InternalPages(g, walk)
    ensures NoneMissing(g, walk) && RootsLinked(g, AllDownlinks(g, walk))
  {
    hide PageOk;
    var ds := AllDownlinks(g, walk);
    forall i | 0 <= i < |walk|
      ensures walk[i] in g && Down(g[walk[i]]) != P_NONE
    {
      var t := g[walk[i]];
      assert Readable(g, walk[i]) && ChildrenOk(g, t) && ChildOk(g, t, FirstData(t));
    }
    forall bs | Chain(g, bs) && bs != [] && bs[0] == ds[0]
      ensures RootsIn(g, bs, ds)
    {
      ChainWithin(g, bs, ds);
    }
  }
}
