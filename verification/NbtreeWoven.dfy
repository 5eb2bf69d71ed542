/**
  Exactly which internal levels are accepted, on any graph: those over one row of children that is
  the downlinks with pages in between that need none, every page closed by the key behind the last
  downlink up to it.
 */
module NbtreeWoven {
  import opened Common
  import opened NbtreePages
  import opened NbtreeRuns
  import opened NbtreeAccept
  import opened NbtreeLevels
  import opened NbtreeSound
  import opened NbtreeMeaning

  /** A row across the whole child level of a walk. */
  ghost predicate ChildRow(g: Graph, level: nat, walk: seq<nat>, kids: seq<nat>) {
    Across(g, kids) && Woven(g, level, AllSeps(g, walk), kids, AllDownlinks(g, walk))
  }

  /** The child of a downlink is not deleted and has only items above its key. */
  predicate ChildKeysAbove(g: Graph, item: Item) {
    item.downlink in g && !g[item.downlink].deleted &&
    var c := g[item.downlink];
    forall k :: FirstKeyed(c) <= k < |c.items| ==> item.key < c.items[k].key
  }

  predicate ChildrenAbove(g: Graph, walk: seq<nat>) {
    forall i, n :: 0 <= i < |walk| && walk[i] in g && FirstKeyed(g[walk[i]]) <= n < |g[walk[i]].items| ==>
      ChildKeysAbove(g, g[walk[i]].items[n])
  }

  /** A page of a level is not deleted, and in order within itself and with the next. */
  predicate OrderedAt(g: Graph, level: nat, walk: seq<nat>, i: nat)
    requires i < |walk|
  {
    && walk[i] in g && !g[walk[i]].deleted && g[walk[i]].level == level && ItemsOrdered(g[walk[i]])
    && (i + 1 < |walk| ==> walk[i + 1] in g && EndsBelow(g[walk[i]], g[walk[i + 1]]))
  }

  predicate PagesOrdered(g: Graph, level: nat, walk: seq<nat>) {
    forall i :: 0 <= i < |walk| ==> OrderedAt(g, level, walk, i)
  }

  lemma ChildAboveIff(g: Graph, t: Page, off: nat)
    requires 1 <= off <= MaxOff(t) && Readable(g, ItemAt(t, off).downlink)
    ensures ChildFits(g, t, off) <==> ChildKeysAbove(g, ItemAt(t, off))
  {
    var it := ItemAt(t, off);
    var c := g[it.downlink];
    if ChildKeysAbove(g, it) {
      forall o: nat | Real(c, o)
        ensures it.key < KeyAt(c, o)
      {
        assert FirstKeyed(c) <= o - 1;
      }
    }
    if ChildAbove(g, t, off) {
      forall k | FirstKeyed(c) <= k < |c.items|
        ensures it.key < c.items[k].key
      {
        assert Real(c, k + 1);
      }
    }
  }

  lemma PageOkNext(g: Graph, level: nat, walk: seq<nat>, i: nat)
    requires Across(g, walk) && NoHalfDead(g, walk) && i < |walk|
    requires i + 1 < |walk| && walk[i + 1] in g ==> !g[walk[i + 1]].deleted
    ensures walk[i] in g
    ensures OrderedAt(g, level, walk, i) <==>
            !g[walk[i]].deleted && g[walk[i]].level == level && PageOk(g, g[walk[i]])
  {
    NextInRow(g, walk, i);
    hide PageOk, ItemsOrdered, EndsBelow, BelowRightAt, Across;
    var p := g[walk[i]];
    PageOkIff(g, p);
    if i + 1 < |walk| {
      NextInRow(g, walk, i + 1);
      var run := [walk[i + 1]];
      assert RightRun(g, p, run);
      EndsBelowIff(g, p, run);
    } else {
      RightmostBelow(g, p);
    }
  }

  predicate NoneDeleted(g: Graph, walk: seq<nat>) {
    forall i :: 0 <= i < |walk| && walk[i] in g ==> !g[walk[i]].deleted
  }

  lemma LevelOkIff(g: Graph, level: nat, walk: seq<nat>)
    requires Across(g, walk) && NoHalfDead(g, walk)
    ensures NoneDeleted(g, walk) && LevelOk(g, level, walk) <==> PagesOrdered(g, level, walk)
  {
    hide PageOk, OrderedAt, Across, NoHalfDead;
    if PagesOrdered(g, level, walk) {
      forall i | 0 <= i < |walk|
        ensures walk[i] in g && !g[walk[i]].deleted
      {
        NotDeleted(g, level, walk, i);
      }
    }
    if NoneDeleted(g, walk) {
      forall i | 0 <= i < |walk|
        ensures walk[i] in g
        ensures OrderedAt(g, level, walk, i) <==> g[walk[i]].level == level && PageOk(g, g[walk[i]])
      {
        PageOkNext(g, level, walk, i);
      }
    }
  }

  lemma NotDeleted(g: Graph, level: nat, walk: seq<nat>, i: nat)
    requires i < |walk| && OrderedAt(g, level, walk, i)
    ensures walk[i] in g && !g[walk[i]].deleted
  {
  }

  // ---------------------------------------------------------------------------
  // Where the downlinks are in the chain.

  /** Position k of n is at or behind the m-th downlink and before the next. */
  predicate Behind(pos: seq<nat>, m: nat, k: nat, n: nat) {
    m < |pos| && pos[m] <= k < if m + 1 < |pos| then pos[m + 1] else n
  }

  ghost predicate Placed(g: Graph, level: nat, seps: seq<Option<int>>, kids: seq<nat>, ds: seq<nat>, pos: seq<nat>) {
    && |pos| == |ds|
    && (forall m :: 0 <= m < |pos| ==> pos[m] < |kids| && kids[pos[m]] == ds[m])
    && (forall m, l :: 0 <= m < l < |pos| ==> pos[m] < pos[l])
    && (pos != [] ==> pos[0] == 0)
    && (forall m: nat, k: nat :: Behind(pos, m, k, |kids|) ==> PlacedAt(g, level, seps, kids, pos, m, k))
  }

  predicate PlacedAt(g: Graph, level: nat, seps: seq<Option<int>>, kids: seq<nat>, pos: seq<nat>, m: nat, k: nat)
    requires m < |pos|
  {
    k < |kids| && ClosedAt(g, level, seps, m, kids[k]) && (k != pos[m] ==> k > 0 && Spare(g, kids[k - 1], kids[k]))
  }

  lemma {:induction false} Positions(g: Graph, level: nat, seps: seq<Option<int>>, kids: seq<nat>, ds: seq<nat>)
    returns (pos: seq<nat>)
    requires Woven(g, level, seps, kids, ds)
    ensures Placed(g, level, seps, kids, ds, pos)
  {
    hide ClosedAt, Spare;
    if kids == [] {
      pos := [];
    } else {
      var n, last := |kids| - 1, |ds| - 1;
      var front := kids[..n];
      if kids[n] == ds[last] && Woven(g, level, seps, front, ds[..last]) {
        var before := Positions(g, level, seps, front, ds[..last]);
        pos := before + [n];
        forall m: nat, k: nat | Behind(pos, m, k, |kids|)
          ensures PlacedAt(g, level, seps, kids, pos, m, k)
        {
          if k < n {
            assert Behind(before, m, k, n);
            assert PlacedAt(g, level, seps, front, before, m, k);
          }
        }
      } else {
        pos := Positions(g, level, seps, front, ds);
        forall m: nat, k: nat | Behind(pos, m, k, |kids|)
          ensures PlacedAt(g, level, seps, kids, pos, m, k)
        {
          if k < n {
            assert Behind(pos, m, k, n);
            assert PlacedAt(g, level, seps, front, pos, m, k);
          }
        }
      }
    }
  }

  /** What is closed by a key is closed by the pivot that has it. */
  lemma PivotCloses(g: Graph, level: nat, walk: seq<nat>, i: nat, pivot: nat, seps: seq<Option<int>>, m: nat, b: nat)
    requires PivotIs(g, walk, i, pivot, seps, m) && ClosedAt(g, level, seps, m, b) && g[walk[i]].level == level
    ensures Closes(g[walk[i]], pivot, LowKey(g, BlockBefore(walk, i)), g[b])
    ensures Readable(g, b) && g[b].prev != b ==> OnLevelBelow(g, g[walk[i]], b)
  {
  }

  /** A page that needs no downlink may be crossed. */
  lemma SpareCrossed(g: Graph, level: nat, walk: seq<nat>, i: nat, off: nat, seps: seq<Option<int>>, m: nat,
                     kids: seq<nat>, pos: seq<nat>, k: nat, split: bool)
    requires InternalPages(g, walk) && i < |walk| && off <= MaxOff(g[walk[i]]) && g[walk[i]].level == level
    requires PivotIs(g, walk, i, off, seps, m) && Row(g, kids)
    requires m < |pos| && PlacedAt(g, level, seps, kids, pos, m, k) && k != pos[m]
    requires split == g[kids[k - 1]].incompleteSplit
    ensures Passable(g, g[walk[i]], off, LowKey(g, BlockBefore(walk, i)), kids[k], split)
  {
    assert Readable(g, kids[k]) && g[kids[k]].prev != kids[k];
    PivotCloses(g, level, walk, i, off, seps, m, kids[k]);
  }

  lemma SubRow(g: Graph, kids: seq<nat>, from: nat, to: nat)
    requires Row(g, kids) && from <= to <= |kids|
    ensures Linked(g, kids[from..to])
  {
    var part := kids[from..to];
    forall k | 1 <= k < |part|
      ensures RightLink(g, part, k)
    {
      assert RightLink(g, kids, from + k);
    }
  }

  lemma NextInRow(g: Graph, kids: seq<nat>, k: nat)
    requires Across(g, kids) && k < |kids|
    ensures Readable(g, kids[k]) && g[kids[k]].prev != kids[k]
    ensures g[kids[k]].next == if k + 1 < |kids| then kids[k + 1] else P_NONE
  {
    assert k + 1 < |kids| ==> RightLink(g, kids, k + 1);
  }

  /** The k-th block behind the m-th downlink is crossed on every way that follows the chain there. */
  lemma BlockCrossed(g: Graph, level: nat, walk: seq<nat>, i: nat, off: nat, kids: seq<nat>, ds: seq<nat>,
                     seps: seq<Option<int>>, pos: seq<nat>, m: nat, path: seq<nat>, k: nat)
    requires InternalPages(g, walk) && i < |walk| && off <= MaxOff(g[walk[i]]) && g[walk[i]].level == level
    requires Across(g, kids) && Placed(g, level, seps, kids, ds, pos) && m < |ds|
    requires PivotIs(g, walk, i, off, seps, m) && k < |path| && Behind(pos, m, pos[m] + 1 + k, |kids|)
    requires path[k] == kids[pos[m] + 1 + k] != DownlinkAt(g[walk[i]], off)
    requires k > 0 ==> path[k - 1] == kids[pos[m] + k]
    ensures CrossedAt(g, g[walk[i]], off, LowKey(g, BlockBefore(walk, i)), SplitOf(g, ds[m]), path, k)
  {
    hide PivotIs, Passable, Behind;
    NextInRow(g, kids, pos[m] + k);
    assert PlacedAt(g, level, seps, kids, pos, m, pos[m] + 1 + k);
    SpareCrossed(g, level, walk, i, off, seps, m, kids, pos, pos[m] + 1 + k,
                 SplitBefore(g, SplitOf(g, ds[m]), path, k));
  }

  lemma WayFound(g: Graph, t: Page, off: nat, low: Option<int>, from: Option<nat>, split: bool, path: seq<nat>)
    requires off <= MaxOff(t) && Crossed(g, t, off, low, from, split, path)
    ensures Reaches(g, t, off, low, from, split)
  {
  }

  lemma DownlinkLanded(g: Graph, level: nat, walk: seq<nat>, i: nat, off: nat, kids: seq<nat>, ds: seq<nat>,
                       seps: seq<Option<int>>, pos: seq<nat>, m: nat)
    requires InternalPages(g, walk) && i < |walk| && 1 <= off <= MaxOff(g[walk[i]]) && g[walk[i]].level == level
    requires Across(g, kids) && Placed(g, level, seps, kids, ds, pos) && 0 < m < |ds|
    requires ItemAt(g[walk[i]], off).downlink == ds[m] && PivotIs(g, walk, i, off + 1, seps, m)
    ensures Landed(g, g[walk[i]], off, LowKey(g, BlockBefore(walk, i)), FromOf(g, ds[m - 1]))
  {
    hide PivotIs, Closes;
    NextInRow(g, kids, pos[m - 1]);
    NextInRow(g, kids, pos[m]);
    assert Behind(pos, m, pos[m], |kids|);
    assert PlacedAt(g, level, seps, kids, pos, m, pos[m]);
    PivotCloses(g, level, walk, i, off + 1, seps, m, ds[m]);
  }

  /** The blocks between two downlinks are the way from one to the other. */
  lemma WayCrossed(g: Graph, level: nat, walk: seq<nat>, i: nat, off: nat, kids: seq<nat>, ds: seq<nat>,
                   seps: seq<Option<int>>, pos: seq<nat>, m: nat)
    requires InternalPages(g, walk) && i < |walk| && 1 <= off <= MaxOff(g[walk[i]]) && g[walk[i]].level == level
    requires Across(g, kids) && Placed(g, level, seps, kids, ds, pos) && 0 < m < |ds|
    requires ItemAt(g[walk[i]], off).downlink == ds[m]
    requires PivotIs(g, walk, i, off + 1, seps, m) && PivotIs(g, walk, i, off, seps, m - 1)
    ensures Reaches(g, g[walk[i]], off, LowKey(g, BlockBefore(walk, i)), FromOf(g, ds[m - 1]), SplitOf(g, ds[m - 1]))
  {
    var t, low := g[walk[i]], LowKey(g, BlockBefore(walk, i));
    var p, q := pos[m - 1], pos[m];
    var path, split := kids[p + 1..q + 1], SplitOf(g, ds[m - 1]);
    NextInRow(g, kids, p);
    SubRow(g, kids, p + 1, q + 1);
    RowDistinct(g, kids);
    DownlinkLanded(g, level, walk, i, off, kids, ds, seps, pos, m);
    hide PivotIs, Landed, CrossedAt, Linked, Across, Readable, Placed, InternalPages, Reaches;
    forall k | 0 <= k < |path| - 1
      ensures CrossedAt(g, t, off, low, split, path, k)
    {
      BlockCrossed(g, level, walk, i, off, kids, ds, seps, pos, m - 1, path, k);
    }
    WayFound(g, t, off, low, FromOf(g, ds[m - 1]), split, path);
  }

  /** The first downlink is reached at once, at the left edge. */
  lemma FirstReached(g: Graph, level: nat, walk: seq<nat>, i: nat, off: nat, kids: seq<nat>, ds: seq<nat>,
                     seps: seq<Option<int>>, pos: seq<nat>)
    requires InternalPages(g, walk) && i < |walk| && 1 <= off <= MaxOff(g[walk[i]]) && g[walk[i]].level == level
    requires Across(g, kids) && Placed(g, level, seps, kids, ds, pos) && ds != []
    requires ItemAt(g[walk[i]], off).downlink == ds[0] && PivotIs(g, walk, i, off + 1, seps, 0)
    ensures Reaches(g, g[walk[i]], off, LowKey(g, BlockBefore(walk, i)), FromOf(g, P_NONE), SplitOf(g, P_NONE))
  {
    var t, low, d := g[walk[i]], LowKey(g, BlockBefore(walk, i)), ds[0];
    NextInRow(g, kids, 0);
    assert Behind(pos, 0, 0, |kids|);
    assert PlacedAt(g, level, seps, kids, pos, 0, 0);
    PivotCloses(g, level, walk, i, off + 1, seps, 0, d);
    assert Crossed(g, t, off, low, None, false, [d]);
  }

  /** What is behind the last downlink leads to the end of the child level. */
  lemma EndCrossed(g: Graph, level: nat, walk: seq<nat>, i: nat, kids: seq<nat>, ds: seq<nat>,
                   seps: seq<Option<int>>, pos: seq<nat>)
    requires InternalPages(g, walk) && i < |walk| && g[walk[i]].level == level
    requires Across(g, kids) && Placed(g, level, seps, kids, ds, pos) && ds != []
    requires PivotIs(g, walk, i, 0, seps, |ds| - 1)
    ensures var last := ds[|ds| - 1];
            Reaches(g, g[walk[i]], 0, LowKey(g, BlockBefore(walk, i)), FromOf(g, last), SplitOf(g, last))
  {
    var t, low := g[walk[i]], LowKey(g, BlockBefore(walk, i));
    var m := |ds| - 1;
    var p, split := pos[m], SplitOf(g, ds[m]);
    var rest := kids[p + 1..];
    var path := rest + [P_NONE];
    NextInRow(g, kids, p);
    forall k | 1 <= k < |path|
      ensures RightLink(g, path, k)
    {
      NextInRow(g, kids, p + k);
    }
    hide PivotIs, CrossedAt, RightLink, Placed, InternalPages, Across, Reaches;
    forall k | 0 <= k < |rest|
      ensures CrossedAt(g, t, 0, low, split, path, k)
    {
      NextInRow(g, kids, p + 1 + k);
      BlockCrossed(g, level, walk, i, 0, kids, ds, seps, pos, m, path, k);
    }
    WayFound(g, t, 0, low, FromOf(g, ds[m]), split, path);
  }

  /** The downlinks of every page are reached from the ones before them. */
  lemma WovenItemReached(g: Graph, level: nat, walk: seq<nat>, i: nat, off: nat, kids: seq<nat>)
    requires InternalPages(g, walk) && i < |walk| && g[walk[i]].level == level && ChildRow(g, level, walk, kids)
    requires FirstData(g[walk[i]]) <= off <= MaxOff(g[walk[i]])
    ensures var last := DownlinkBefore(g[walk[i]], off, LastDownlink(g, walk, i));
            Reaches(g, g[walk[i]], off, LowKey(g, BlockBefore(walk, i)), FromOf(g, last), SplitOf(g, last))
  {
    hide Woven, Across, Placed, PivotIs, Reaches, DownlinksTo, LowKey;
    var seps, ds := AllSeps(g, walk), AllDownlinks(g, walk);
    var some, more := DownlinksTo(g, walk, i, off), DownlinksTo(g, walk, i, off + 1);
    var m := |some|;
    var pos := Positions(g, level, seps, kids, ds);
    PivotsAreSeps(g, walk, i, off);
    LastMatched(g, walk, i, off);
    DownlinksToNext(g, walk, i, off);
    DownlinksToPrefix(g, walk, i, off + 1);
    assert ds[m] == more[m] && (m > 0 ==> ds[m - 1] == more[m - 1] == some[m - 1]);
    if m == 0 {
      FirstReached(g, level, walk, i, off, kids, ds, seps, pos);
    } else {
      WayCrossed(g, level, walk, i, off, kids, ds, seps, pos, m);
    }
  }

  lemma WovenEndReached(g: Graph, level: nat, walk: seq<nat>, i: nat, kids: seq<nat>)
    requires InternalPages(g, walk) && i < |walk| && g[walk[i]].level == level && ChildRow(g, level, walk, kids)
    requires Across(g, walk) && Rightmost(g[walk[i]])
    ensures var last := DownlinkBefore(g[walk[i]], MaxOff(g[walk[i]]) + 1, LastDownlink(g, walk, i));
            Reaches(g, g[walk[i]], 0, LowKey(g, BlockBefore(walk, i)), FromOf(g, last), SplitOf(g, last))
  {
    LastOfAll(g, walk, i);
    hide Woven, Across, Placed, PivotIs, Reaches, LowKey, InternalPages, LastDownlink, DownlinkBefore;
    var seps, ds := AllSeps(g, walk), AllDownlinks(g, walk);
    var pos := Positions(g, level, seps, kids, ds);
    NoKeyAtEnd(g, walk);
    EndCrossed(g, level, walk, i, kids, ds, seps, pos);
  }

  lemma WovenPageFits(g: Graph, level: nat, walk: seq<nat>, i: nat, kids: seq<nat>)
    requires InternalPages(g, walk) && i < |walk| && g[walk[i]].level == level && ChildRow(g, level, walk, kids)
    requires Across(g, walk) && ChildrenAbove(g, walk)
    ensures PageFits(g, g[walk[i]], LowKey(g, BlockBefore(walk, i)), LastDownlink(g, walk, i))
  {
    hide Woven, Across, Reaches, LowKey, ChildFits, ChildKeysAbove;
    var t, low, last := g[walk[i]], LowKey(g, BlockBefore(walk, i)), LastDownlink(g, walk, i);
    forall k: nat | FirstData(t) <= k <= MaxOff(t)
      ensures ItemFits(g, t, k, low, DownlinkBefore(t, k, last))
    {
      WovenItemReached(g, level, walk, i, k, kids);
      WovenChild(g, level, walk, i, k, kids);
      ChildAboveIff(g, t, k);
      assert k > FirstData(t) ==> ChildKeysAbove(g, t.items[k - 1]);
    }
    if Rightmost(t) {
      WovenEndReached(g, level, walk, i, kids);
    }
  }

  lemma WovenChild(g: Graph, level: nat, walk: seq<nat>, i: nat, off: nat, kids: seq<nat>)
    requires InternalPages(g, walk) && i < |walk| && ChildRow(g, level, walk, kids)
    requires FirstData(g[walk[i]]) <= off <= MaxOff(g[walk[i]])
    ensures Readable(g, ItemAt(g[walk[i]], off).downlink)
  {
    hide Woven, DownlinksTo;
    var seps, ds := AllSeps(g, walk), AllDownlinks(g, walk);
    var some, more := DownlinksTo(g, walk, i, off), DownlinksTo(g, walk, i, off + 1);
    DownlinksToNext(g, walk, i, off);
    DownlinksToPrefix(g, walk, i, off + 1);
    var pos := Positions(g, level, seps, kids, ds);
    assert kids[pos[|some|]] == ds[|some|] == more[|some|];
    NextInRow(g, kids, pos[|some|]);
  }

  /** An internal level from its leftmost page: a doubly linked row across the level of pages in
      order, every child of a downlink with a key above that key, over a row across the level below
      that is the downlinks with spare pages in between, each closed by the right key. */
  ghost predicate InternalLevel(g: Graph, level: nat, leftmost: nat, isTrueRoot: bool, walk: seq<nat>) {
    && Across(g, walk) && Mutual(g, walk) && PagesOrdered(g, level, walk)
    && walk[0] == leftmost && (isTrueRoot ==> g[leftmost].isRoot)
    && ChildrenAbove(g, walk)
    && exists kids :: ChildRow(g, level, walk, kids)
  }

  /** On any graph: an internal level whose first downlinks are all there is accepted exactly when it
      is such a level. */
  lemma InternalLevelMeaning(g: Graph, level: nat, leftmost: nat, isTrueRoot: bool, walk: seq<nat>)
    requires level > 0 && NoHalfDead(g, walk) && NoneMissing(g, walk)
    ensures AcceptableWalk(g, level, leftmost, isTrueRoot, walk) <==>
            InternalLevel(g, level, leftmost, isTrueRoot, walk)
  {
    hide AcceptableWalk, NoHalfDead, NoneMissing, Across, Mutual, PagesOrdered, ChildrenAbove, ChildRow;
    if AcceptableWalk(g, level, leftmost, isTrueRoot, walk) {
      AcceptedIsWoven(g, level, leftmost, isTrueRoot, walk);
    }
    if InternalLevel(g, level, leftmost, isTrueRoot, walk) {
      var kids :| ChildRow(g, level, walk, kids);
      WovenIsAccepted(g, level, leftmost, isTrueRoot, walk, kids);
    }
  }

  lemma ItemFitsChild(g: Graph, t: Page, low: Option<int>, last: nat, off: nat)
    requires PageFits(g, t, low, last) && FirstData(t) < off <= MaxOff(t)
    ensures ChildFits(g, t, off)
  {
    hide Reaches;
    assert ItemFits(g, t, off, low, DownlinkBefore(t, off, last));
  }

  lemma AcceptedChildrenAbove(g: Graph, level: nat, leftmost: nat, isTrueRoot: bool, walk: seq<nat>)
    requires AcceptableWalk(g, level, leftmost, isTrueRoot, walk) && NoHalfDead(g, walk) && level > 0
    ensures ChildrenAbove(g, walk)
  {
    hide AcceptableWalk, PageOk, ChildAbove, ChildKeysAbove, PageFits;
    WalkIsInternal(g, level, leftmost, isTrueRoot, walk);
    forall i, n | 0 <= i < |walk| && walk[i] in g && FirstKeyed(g[walk[i]]) <= n < |g[walk[i]].items|
      ensures ChildKeysAbove(g, g[walk[i]].items[n])
    {
      assert Readable(g, walk[i]);
      VisitFacts(g, level, leftmost, isTrueRoot, walk, i);
      ItemFitsChild(g, g[walk[i]], LowKey(g, BlockBefore(walk, i)), LastDownlink(g, walk, i), n + 1);
      ChildAboveIff(g, g[walk[i]], n + 1);
    }
  }

  lemma AcceptedIsWoven(g: Graph, level: nat, leftmost: nat, isTrueRoot: bool, walk: seq<nat>)
    requires AcceptableWalk(g, level, leftmost, isTrueRoot, walk)
    requires level > 0 && NoHalfDead(g, walk) && NoneMissing(g, walk)
    ensures InternalLevel(g, level, leftmost, isTrueRoot, walk)
  {
    hide AcceptableWalk, Woven, PageOk, NoHalfDead, NoneMissing, ChildrenAbove, PagesOrdered, Across;
    WalkIsAcross(g, level, leftmost, isTrueRoot, walk);
    WalkIsInternal(g, level, leftmost, isTrueRoot, walk);
    LevelOkIff(g, level, walk);
    var kids := ChildChainWoven(g, level, leftmost, isTrueRoot, walk);
    assert ChildRow(g, level, walk, kids);
    AcceptedChildrenAbove(g, level, leftmost, isTrueRoot, walk);
  }

  lemma OrderedIsInternal(g: Graph, level: nat, walk: seq<nat>)
    requires level > 0 && Across(g, walk) && PagesOrdered(g, level, walk)
    ensures InternalPages(g, walk)
  {
    hide ItemsOrdered, EndsBelow;
    forall i | 0 <= i < |walk|
      ensures Readable(g, walk[i]) && !g[walk[i]].isLeaf && !g[walk[i]].deleted
    {
      assert OrderedAt(g, level, walk, i);
    }
  }

  lemma WovenIsAccepted(g: Graph, level: nat, leftmost: nat, isTrueRoot: bool, walk: seq<nat>, kids: seq<nat>)
    requires level > 0 && NoHalfDead(g, walk)
    requires Across(g, walk) && Mutual(g, walk) && PagesOrdered(g, level, walk) && walk[0] == leftmost
    requires (isTrueRoot ==> g[leftmost].isRoot) && ChildrenAbove(g, walk) && ChildRow(g, level, walk, kids)
    ensures AcceptableWalk(g, level, leftmost, isTrueRoot, walk)
  {
    LevelOkIff(g, level, walk);
    OrderedIsInternal(g, level, walk);
    hide PageOk, PageFits, ChildrenAbove, ChildRow, PagesOrdered, ReachesLeftEdge;
    forall i | 0 <= i < |walk|
      ensures VisitedAt(g, level, isTrueRoot, walk, i)
    {
      assert Readable(g, walk[i]) && (i > 0 ==> LeftLink(g, walk, i) && Readable(g, walk[i - 1]));
      LastLiveIsBefore(g, walk, i);
      WovenPageFits(g, level, walk, i, kids);
    }
  }
}
