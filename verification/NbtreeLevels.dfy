/**
  What it means for a level of a B-Tree, and for the level below it, to be sound.
 */
module NbtreeLevels {
  import opened Common
  import opened NbtreePages
  import opened NbtreeRuns
  import opened NbtreeAccept

  /** The key that closes the key space of the child at this offset: the next key of the page,
      or its high key. */
  predicate HasSeparator(p: Page, off: nat) {
    1 <= off <= MaxOff(p) && (off < MaxOff(p) || !Rightmost(p))
  }

  function Separator(p: Page, off: nat): int
    requires HasSeparator(p, off)
  {
    if off < MaxOff(p) then KeyAt(p, off + 1) else KeyAt(p, P_HIKEY)
  }

  /** The child's high key, if it has one, is the parent's next key. */
  predicate ChildCloses(g: Graph, p: Page, off: nat)
    requires 1 <= off <= MaxOff(p) && ItemAt(p, off).downlink in g
  {
    var c := g[ItemAt(p, off).downlink];
    !Rightmost(c) ==> MaxOff(c) >= P_HIKEY && HasSeparator(p, off) && KeyAt(c, P_HIKEY) == Separator(p, off)
  }

  /** The child is one level down, closes where the parent says and lies above its downlink. */
  ghost predicate ChildOk(g: Graph, p: Page, off: nat)
    requires 1 <= off <= MaxOff(p)
  {
    var c := ItemAt(p, off).downlink;
    && Readable(g, c) && g[c].level + 1 == p.level
    && ChildCloses(g, p, off)
    && (!NegInf(p, off) ==> ChildAbove(g, p, off))
  }

  ghost predicate ChildrenOk(g: Graph, t: Page) {
    forall k: nat :: FirstData(t) <= k <= MaxOff(t) ==> ChildOk(g, t, k)
  }

  /** The downlinks of a page's data items, in order. */
  function Downlinks(p: Page, upto: nat): seq<nat>
    requires upto <= MaxOff(p) + 1
  {
    if upto <= FirstData(p) then [] else Downlinks(p, upto - 1) + [ItemAt(p, upto - 1).downlink]
  }

  /** The downlinks of the pages of a walk, left to right. */
  ghost function AllDownlinks(g: Graph, walk: seq<nat>): seq<nat> {
    if walk == [] then []
    else
      var b := walk[|walk| - 1];
      AllDownlinks(g, walk[..|walk| - 1]) + (if b in g then Downlinks(g[b], MaxOff(g[b]) + 1) else [])
  }

  /** The key behind a downlink on its level, if there is one. */
  function KeyBehind(p: Page, off: nat): Option<int> {
    if HasSeparator(p, off) then Some(Separator(p, off)) else None
  }

  /** The keys behind the downlinks of a page, in order. */
  function Seps(p: Page, upto: nat): (r: seq<Option<int>>)
    requires upto <= MaxOff(p) + 1
    ensures |r| == |Downlinks(p, upto)|
  {
    if upto <= FirstData(p) then [] else Seps(p, upto - 1) + [KeyBehind(p, upto - 1)]
  }

  ghost function AllSeps(g: Graph, walk: seq<nat>): (r: seq<Option<int>>)
    ensures |r| == |AllDownlinks(g, walk)|
  {
    if walk == [] then []
    else
      var b := walk[|walk| - 1];
      AllSeps(g, walk[..|walk| - 1]) + (if b in g then Seps(g[b], MaxOff(g[b]) + 1) else [])
  }

  // ---------------------------------------------------------------------------
  // Right-link chains.

  /** Blocks that follow each other by right links. */
  predicate Row(g: Graph, bs: seq<nat>) {
    (forall i :: 0 <= i < |bs| ==> Readable(g, bs[i]) && g[bs[i]].prev != bs[i]) && Linked(g, bs)
  }

  /** A row from a left edge. */
  predicate Chain(g: Graph, bs: seq<nat>) {
    Row(g, bs) && (bs != [] ==> g[bs[0]].prev == P_NONE)
  }

  /** A row to the right edge. Only half-dead pages are left of its first page. */
  ghost predicate Across(g: Graph, bs: seq<nat>) {
    bs != [] && Row(g, bs) && Rightmost(g[bs[|bs| - 1]]) && ReachesLeftEdge(g, bs[0])
  }

  /** A whole level: a chain that ends at the right edge. */
  predicate Complete(g: Graph, bs: seq<nat>) {
    bs != [] && Chain(g, bs) && Rightmost(g[bs[|bs| - 1]])
  }

  lemma RowSnoc(g: Graph, bs: seq<nat>, c: nat)
    requires Row(g, bs)
    ensures Row(g, bs + [c]) <==> Readable(g, c) && g[c].prev != c && (bs != [] ==> g[bs[|bs| - 1]].next == c)
  {
    var all, n := bs + [c], |bs|;
    LinkedSnoc(g, bs, c);
    assert forall i :: 0 <= i < n ==> all[i] == bs[i];
    if Row(g, all) {
      assert Readable(g, all[n]);
    }
  }

  lemma ChainPrefix(g: Graph, bs: seq<nat>, front: seq<nat>)
    requires Chain(g, bs) && front <= bs
    ensures Chain(g, front)
  {
    assert forall i :: 1 <= i < |front| ==> RightLink(g, bs, i) == RightLink(g, front, i);
  }

  /** Without half-dead pages it is a chain. */
  lemma AcrossIsComplete(g: Graph, bs: seq<nat>)
    requires NoIgnorable(g)
    ensures Across(g, bs) <==> Complete(g, bs)
  {
    if bs != [] && Row(g, bs) {
      assert Readable(g, bs[0]);
      LeftEdgeWithoutHalfDead(g, bs[0]);
    }
  }

  /** Only the last page of a row across a level is rightmost, so it has no page twice. */
  lemma RowDistinct(g: Graph, bs: seq<nat>)
    requires bs != [] && Row(g, bs) && Rightmost(g[bs[|bs| - 1]])
    ensures Distinct(bs)
  {
    forall k | 0 <= k < |bs| - 1
      ensures bs[k] != bs[|bs| - 1]
    {
      assert RightLink(g, bs, k + 1) && Readable(g, bs[k + 1]);
    }
    RunDistinct(g, bs);
  }

  /** A chain is the beginning of the chain across the level from the same block. */
  lemma ChainWithin(g: Graph, bs: seq<nat>, all: seq<nat>)
    requires Chain(g, bs) && bs != [] && Complete(g, all) && bs[0] == all[0]
    ensures bs <= all
  {
    var n := |bs| - 1;
    forall i | 0 <= i < n
      ensures bs[i] != all[|all| - 1]
    {
      assert RightLink(g, bs, i + 1) && Readable(g, bs[i + 1]);
    }
    assert bs[..n] + [bs[n]] == bs;
    StillOn(g, bs[..n], bs[n], all);
    assert all[..n + 1] == all[..n] + [all[n]];
  }

  /** A level is walked in one way only. */
  lemma OneWalk(g: Graph, a: seq<nat>, b: seq<nat>)
    requires Complete(g, a) && Complete(g, b) && a[0] == b[0]
    ensures a == b
  {
    ChainWithin(g, a, b);
    ChainWithin(g, b, a);
  }

  // ---------------------------------------------------------------------------
  // Whole levels.

  ghost predicate LevelOk(g: Graph, level: nat, walk: seq<nat>) {
    forall i :: 0 <= i < |walk| ==> walk[i] in g && g[walk[i]].level == level && PageOk(g, g[walk[i]])
  }

  ghost predicate LevelChildrenOk(g: Graph, walk: seq<nat>) {
    forall i :: 0 <= i < |walk| ==> walk[i] in g && ChildrenOk(g, g[walk[i]])
  }

  /** A sound level: its pages, from the given leftmost one, form a doubly linked chain across the
      whole level, each in order; on an internal level the downlinks, read left to right, are a
      right-link chain across the whole level below, and each child fits its place. */
  ghost predicate GoodLevel(g: Graph, level: nat, leftmost: nat, isTrueRoot: bool, walk: seq<nat>) {
    && Complete(g, walk) && Mutual(g, walk) && walk[0] == leftmost
    && LevelOk(g, level, walk)
    && (isTrueRoot ==> g[leftmost].isRoot)
    && (level > 0 ==> Complete(g, AllDownlinks(g, walk)) && LevelChildrenOk(g, walk))
  }

  lemma AllDownlinksSnoc(g: Graph, walk: seq<nat>, n: nat)
    requires n < |walk| && walk[n] in g
    ensures AllDownlinks(g, walk[..n + 1]) == AllDownlinks(g, walk[..n]) + Downlinks(g[walk[n]], MaxOff(g[walk[n]]) + 1)
  {
    assert walk[..n + 1][..n] == walk[..n];
  }

  lemma {:induction false} AllDownlinksPrefix(g: Graph, walk: seq<nat>, n: nat)
    requires n <= |walk|
    ensures AllDownlinks(g, walk[..n]) <= AllDownlinks(g, walk)
    decreases |walk| - n
  {
    if n < |walk| {
      assert walk[..n + 1][..n] == walk[..n];
      AllDownlinksPrefix(g, walk, n + 1);
    } else {
      assert walk[..n] == walk;
    }
  }

  lemma {:induction false} DownlinksPrefix(p: Page, upto: nat)
    requires upto <= MaxOff(p) + 1
    ensures Downlinks(p, upto) <= Downlinks(p, MaxOff(p) + 1)
    decreases MaxOff(p) + 1 - upto
  {
    if upto <= MaxOff(p) {
      DownlinksPrefix(p, upto + 1);
    }
  }

  lemma {:induction false} FirstDownlink(p: Page, upto: nat)
    requires FirstData(p) < upto <= MaxOff(p) + 1
    ensures Downlinks(p, upto) != [] && Downlinks(p, upto)[0] == ItemAt(p, FirstData(p)).downlink
  {
    if upto > FirstData(p) + 1 {
      FirstDownlink(p, upto - 1);
    }
  }

  /** The downlinks of a level up to an offset of one of its pages. */
  ghost function DownlinksTo(g: Graph, walk: seq<nat>, i: nat, off: nat): seq<nat>
    requires i < |walk| && walk[i] in g && off <= MaxOff(g[walk[i]]) + 1
  {
    AllDownlinks(g, walk[..i]) + Downlinks(g[walk[i]], off)
  }

  lemma DownlinksToPrefix(g: Graph, walk: seq<nat>, i: nat, off: nat)
    requires i < |walk| && walk[i] in g && off <= MaxOff(g[walk[i]]) + 1
    ensures DownlinksTo(g, walk, i, off) <= AllDownlinks(g, walk)
  {
    var p := g[walk[i]];
    DownlinksPrefix(p, off);
    AllDownlinksSnoc(g, walk, i);
    AllDownlinksPrefix(g, walk, i + 1);
    var a, b, c := DownlinksTo(g, walk, i, off), AllDownlinks(g, walk[..i + 1]), AllDownlinks(g, walk);
    assert a <= b <= c;
  }

  lemma DownlinksToNext(g: Graph, walk: seq<nat>, i: nat, off: nat)
    requires i < |walk| && walk[i] in g && FirstData(g[walk[i]]) <= off <= MaxOff(g[walk[i]])
    ensures DownlinksTo(g, walk, i, off + 1) == DownlinksTo(g, walk, i, off) + [ItemAt(g[walk[i]], off).downlink]
  {
  }

  lemma DownlinksToFirst(g: Graph, walk: seq<nat>, i: nat)
    requires i < |walk| && walk[i] in g && FirstData(g[walk[i]]) <= MaxOff(g[walk[i]]) + 1
    ensures i == 0 ==> DownlinksTo(g, walk, i, FirstData(g[walk[i]])) == []
    ensures i > 0 && walk[i - 1] in g ==>
              DownlinksTo(g, walk, i, FirstData(g[walk[i]])) == DownlinksTo(g, walk, i - 1, MaxOff(g[walk[i - 1]]) + 1)
  {
    if i > 0 && walk[i - 1] in g {
      AllDownlinksSnoc(g, walk, i - 1);
    }
  }

  // ---------------------------------------------------------------------------
  // The keys behind the downlinks of a level.

  ghost function SepsTo(g: Graph, walk: seq<nat>, i: nat, off: nat): (r: seq<Option<int>>)
    requires i < |walk| && walk[i] in g && off <= MaxOff(g[walk[i]]) + 1
    ensures |r| == |DownlinksTo(g, walk, i, off)|
  {
    AllSeps(g, walk[..i]) + Seps(g[walk[i]], off)
  }

  lemma {:induction false} AllSepsPrefix(g: Graph, walk: seq<nat>, n: nat)
    requires n <= |walk|
    ensures AllSeps(g, walk[..n]) <= AllSeps(g, walk)
    decreases |walk| - n
  {
    if n < |walk| {
      assert walk[..n + 1][..n] == walk[..n];
      AllSepsPrefix(g, walk, n + 1);
    } else {
      assert walk[..n] == walk;
    }
  }

  lemma {:induction false} SepsPrefix(p: Page, upto: nat)
    requires upto <= MaxOff(p) + 1
    ensures Seps(p, upto) <= Seps(p, MaxOff(p) + 1)
    decreases MaxOff(p) + 1 - upto
  {
    if upto <= MaxOff(p) {
      SepsPrefix(p, upto + 1);
    }
  }

  lemma SepsToPrefix(g: Graph, walk: seq<nat>, i: nat, off: nat)
    requires i < |walk| && walk[i] in g && off <= MaxOff(g[walk[i]]) + 1
    ensures SepsTo(g, walk, i, off) <= AllSeps(g, walk)
  {
    var p := g[walk[i]];
    SepsPrefix(p, off);
    assert walk[..i + 1][..i] == walk[..i];
    AllSepsPrefix(g, walk, i + 1);
    var a, b, c := SepsTo(g, walk, i, off), AllSeps(g, walk[..i + 1]), AllSeps(g, walk);
    assert a <= b <= c;
  }

  /** The last key behind the downlinks before an offset. */
  lemma LastSep(g: Graph, walk: seq<nat>, i: nat, off: nat)
    requires i < |walk| && walk[i] in g && FirstData(g[walk[i]]) <= off <= MaxOff(g[walk[i]]) + 1
    requires i > 0 ==> walk[i - 1] in g && FirstData(g[walk[i - 1]]) <= MaxOff(g[walk[i - 1]])
    requires i > 0 || off > FirstData(g[walk[i]])
    ensures var r := SepsTo(g, walk, i, off);
            r != [] && r[|r| - 1] == if off > FirstData(g[walk[i]]) then KeyBehind(g[walk[i]], off - 1)
                                     else KeyBehind(g[walk[i - 1]], MaxOff(g[walk[i - 1]]))
  {
    if off == FirstData(g[walk[i]]) {
      assert walk[..i][..i - 1] == walk[..i - 1];
    }
  }

  /** Up to the end of the last page they are those of the whole level. */
  lemma WholeLevel(g: Graph, walk: seq<nat>)
    requires walk != [] && walk[|walk| - 1] in g
    ensures var i := |walk| - 1; DownlinksTo(g, walk, i, MaxOff(g[walk[i]]) + 1) == AllDownlinks(g, walk)
  {
  }

  lemma LastOfSeps(g: Graph, walk: seq<nat>)
    requires walk != [] && walk[|walk| - 1] in g
    requires var p := g[walk[|walk| - 1]]; FirstData(p) <= MaxOff(p)
    ensures var p, r := g[walk[|walk| - 1]], AllSeps(g, walk);
            r != [] && r[|r| - 1] == KeyBehind(p, MaxOff(p))
  {
    var p := g[walk[|walk| - 1]];
    var r := Seps(p, MaxOff(p) + 1);
    assert r[|r| - 1] == KeyBehind(p, MaxOff(p));
  }
}
