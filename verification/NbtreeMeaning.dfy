/**
  What the verifier accepts, told from the fields of the pages: whole leaf levels with half-dead
  pages among them, and pages that may lack a downlink.
 */
module NbtreeMeaning {
  import opened Common
  import opened NbtreePages
  import opened NbtreeRuns
  import opened NbtreeAccept
  import opened NbtreeOrder

  // ---------------------------------------------------------------------------
  // Leaf levels.

  /** A page of a leaf level at its place: linked to the right and, if it is live, to the left; a
      half-dead page is not the last, and no page is deleted or its own neighbour. */
  predicate LeafPlace(g: Graph, walk: seq<nat>, i: nat)
    requires i < |walk|
  {
    Readable(g, walk[i]) &&
    var b, p := walk[i], g[walk[i]];
    && !p.deleted && p.prev != b && (i > 0 ==> b != walk[i - 1])
    && p.next == (if i + 1 < |walk| then walk[i + 1] else 0)
    && if p.halfDead then i + 1 < |walk| else p.level == 0 && (i > 0 ==> p.prev == walk[i - 1])
  }

  /** Where the data items of a page begin: behind the high key, if there is one. */
  function FirstItem(p: Page): nat {
    if p.next == 0 then 0 else 1
  }

  /** The first data item of an internal page has no key. */
  function FirstKeyed(p: Page): nat {
    if p.isLeaf then FirstItem(p) else FirstItem(p) + 1
  }

  /** The keys increase up to the high key, which only those of a leaf may equal. */
  predicate ItemsOrdered(p: Page) {
    && (forall k :: FirstKeyed(p) < k < |p.items| ==> KeyBefore(p, k) < p.items[k].key)
    && (p.next != 0 ==> forall k :: FirstKeyed(p) <= k < |p.items| ==>
          if p.isLeaf then p.items[k].key <= p.items[0].key else p.items[k].key < p.items[0].key)
  }

  function KeyBefore(p: Page, k: nat): int
    requires 0 < k < |p.items|
  {
    p.items[k - 1].key
  }

  /** Two live pages with only half-dead pages between them. */
  predicate NextLive(g: Graph, walk: seq<nat>, i: nat, j: nat) {
    && i < j < |walk| && walk[i] in g && walk[j] in g && !g[walk[i]].halfDead && !g[walk[j]].halfDead
    && forall k :: i < k < j ==> walk[k] in g && g[walk[k]].halfDead
  }

  predicate EndsBelow(p: Page, q: Page) {
    |p.items| > FirstKeyed(p) && |q.items| > FirstKeyed(q) ==>
      p.items[|p.items| - 1].key < q.items[FirstKeyed(q)].key
  }

  predicate FirstLive(g: Graph, walk: seq<nat>, i: nat) {
    && i < |walk| && walk[i] in g && !g[walk[i]].halfDead
    && forall k :: 0 <= k < i ==> walk[k] in g && g[walk[k]].halfDead
  }

  /** A leaf level from its leftmost page: each page is at its place, the live ones are in order,
      each within itself and with the next, and the first live one is at the left edge but for
      half-dead pages. */
  ghost predicate LeafLevel(g: Graph, leftmost: nat, isTrueRoot: bool, walk: seq<nat>) {
    && walk != [] && walk[0] == leftmost
    && (forall i :: 0 <= i < |walk| ==> LeafPlace(g, walk, i))
    && (forall i :: 0 <= i < |walk| && walk[i] in g && !g[walk[i]].halfDead ==> ItemsOrdered(g[walk[i]]))
    && (forall i: nat, j: nat :: NextLive(g, walk, i, j) ==> EndsBelow(g[walk[i]], g[walk[j]]))
    && (forall i: nat :: FirstLive(g, walk, i) ==>
          ReachesLeftEdge(g, walk[i]) && (isTrueRoot ==> g[walk[i]].isRoot))
  }

  /** No live page came before exactly at the first live one. */
  lemma {:induction false} NoneLiveBefore(g: Graph, walk: seq<nat>, i: nat)
    requires i <= |walk| && forall k :: 0 <= k < |walk| ==> Readable(g, walk[k]) && !g[walk[k]].deleted
    ensures LastLive(g, walk, i) == P_NONE <==> forall k :: 0 <= k < i ==> walk[k] in g && g[walk[k]].halfDead
  {
    if i > 0 {
      NoneLiveBefore(g, walk, i - 1);
      assert Readable(g, walk[i - 1]);
    }
  }

  /** There is a next live page, since the last one is. */
  lemma {:induction false} FindNextLive(g: Graph, walk: seq<nat>, i: nat, from: nat) returns (j: nat)
    requires i < from <= |walk| - 1 && walk[i] in g && !g[walk[i]].halfDead
    requires (forall k :: i < k < |walk| ==> walk[k] in g) && !g[walk[|walk| - 1]].halfDead
    requires forall k :: i < k < from ==> g[walk[k]].halfDead
    ensures NextLive(g, walk, i, j)
    decreases |walk| - from
  {
    if g[walk[from]].halfDead {
      j := FindNextLive(g, walk, i, from + 1);
    } else {
      j := from;
    }
  }

  /** The last item is below the next one to the right. */
  ghost predicate BelowRightAt(g: Graph, p: Page) {
    |p.items| > FirstKeyed(p) ==> BelowRight(g, p, p.items[|p.items| - 1].key)
  }

  lemma OkIsOrdered(g: Graph, p: Page)
    requires PageOk(g, p)
    ensures ItemsOrdered(p) && BelowRightAt(g, p)
  {
    hide BelowRight;
    forall k | FirstKeyed(p) <= k < |p.items|
      ensures k > FirstKeyed(p) ==> KeyBefore(p, k) < p.items[k].key
      ensures p.next != 0 ==> if p.isLeaf then p.items[k].key <= p.items[0].key else p.items[k].key < p.items[0].key
    {
      assert Real(p, k + 1) && ItemOk(g, p, k + 1);
      assert k > FirstKeyed(p) ==> Real(p, k) && ItemOk(g, p, k);
    }
    assert |p.items| > FirstKeyed(p) ==> Real(p, |p.items|) && ItemOk(g, p, |p.items|);
  }

  lemma OrderedIsOk(g: Graph, p: Page)
    requires ItemsOrdered(p) && BelowRightAt(g, p)
    ensures PageOk(g, p)
  {
    hide BelowRight;
    forall off: nat | Real(p, off)
      ensures ItemOk(g, p, off)
    {
      assert FirstKeyed(p) <= off - 1;
      assert off < |p.items| ==> KeyBefore(p, off) < p.items[off].key;
    }
  }

  lemma PageOkIff(g: Graph, p: Page)
    ensures PageOk(g, p) <==> ItemsOrdered(p) && BelowRightAt(g, p)
  {
    hide PageOk, ItemsOrdered, BelowRightAt;
    if PageOk(g, p) {
      OkIsOrdered(g, p);
    }
    if ItemsOrdered(p) && BelowRightAt(g, p) {
      OrderedIsOk(g, p);
    }
  }

  lemma EndsBelowIff(g: Graph, p: Page, run: seq<nat>)
    requires RightRun(g, p, run) && !Rightmost(p)
    ensures BelowRightAt(g, p) <==> EndsBelow(p, g[run[|run| - 1]])
  {
    hide BelowRight;
    if |p.items| > FirstKeyed(p) {
      BelowRightIff(g, p, p.items[|p.items| - 1].key, run);
    }
  }

  lemma AllLaid(g: Graph, walk: seq<nat>)
    requires Laid(g, walk)
    ensures forall k :: 0 <= k < |walk| ==> walk[k] in g
    ensures walk != [] ==> !g[walk[|walk| - 1]].halfDead
  {
    forall k | 0 <= k < |walk|
      ensures walk[k] in g && (k == |walk| - 1 ==> !g[walk[k]].halfDead)
    {
      LaidFacts(g, walk, k);
    }
  }

  /** A live leaf passes the check of its items exactly when they are ordered, and end below the next
      live page's. */
  lemma LivePageOk(g: Graph, walk: seq<nat>, i: nat)
    requires Laid(g, walk) && i < |walk| && walk[i] in g && !g[walk[i]].halfDead
    requires forall k :: 0 <= k < |walk| && walk[k] in g && !g[walk[k]].halfDead ==> g[walk[k]].isLeaf
    ensures PageOk(g, g[walk[i]]) <==>
            && ItemsOrdered(g[walk[i]])
            && forall j: nat :: NextLive(g, walk, i, j) ==> EndsBelow(g[walk[i]], g[walk[j]])
  {
    hide BelowRightAt, Laid, EndsBelow, ItemsOrdered, PageOk;
    var p := g[walk[i]];
    LaidFacts(g, walk, i);
    AllLaid(g, walk);
    forall j: nat | NextLive(g, walk, i, j)
      ensures BelowRightAt(g, p) <==> EndsBelow(p, g[walk[j]])
    {
      RunToNextLive(g, walk, i, j);
      LaidFacts(g, walk, i + 1);
      var run := walk[i + 1..j + 1];
      assert run[|run| - 1] == walk[j];
      EndsBelowIff(g, p, run);
    }
    PageOkIff(g, p);
    if i + 1 < |walk| {
      var j := FindNextLive(g, walk, i, i + 1);
    } else {
      RightmostBelow(g, p);
    }
  }

  lemma RightmostBelow(g: Graph, p: Page)
    requires Rightmost(p)
    ensures BelowRightAt(g, p)
  {
  }

  lemma PlacesAreLaid(g: Graph, walk: seq<nat>)
    requires forall i :: 0 <= i < |walk| ==> LeafPlace(g, walk, i)
    ensures Laid(g, walk)
    ensures forall k :: 0 <= k < |walk| && walk[k] in g && !g[walk[k]].halfDead ==> g[walk[k]].isLeaf
  {
    forall i | 0 <= i < |walk|
      ensures LaidAt(g, walk, i) && (!g[walk[i]].halfDead ==> g[walk[i]].isLeaf)
    {
      assert LeafPlace(g, walk, i);
      assert i + 1 < |walk| ==> LeafPlace(g, walk, i + 1);
    }
  }

  /** One page of an accepted level is at its place. */
  lemma AcceptedPlace(g: Graph, leftmost: nat, isTrueRoot: bool, walk: seq<nat>, i: nat)
    requires AcceptableWalk(g, 0, leftmost, isTrueRoot, walk) && i < |walk|
    ensures LeafPlace(g, walk, i)
  {
    hide PageOk, PageFits;
    LeafPageFacts(g, leftmost, isTrueRoot, walk, i);
    assert VisitedAt(g, 0, isTrueRoot, walk, i);
    assert i > 0 ==> VisitedAt(g, 0, isTrueRoot, walk, i - 1);
  }

  lemma LevelPageOk(g: Graph, leftmost: nat, isTrueRoot: bool, walk: seq<nat>, i: nat)
    requires LeafLevel(g, leftmost, isTrueRoot, walk) && i < |walk| && walk[i] in g && !g[walk[i]].halfDead
    ensures PageOk(g, g[walk[i]])
    ensures LastLive(g, walk, i) == P_NONE ==> ReachesLeftEdge(g, walk[i]) && (isTrueRoot ==> g[walk[i]].isRoot)
  {
    hide PageOk, ItemsOrdered, EndsBelow, LeafPlace, Laid, ReachesLeftEdge;
    PlacesAreLaid(g, walk);
    LivePageOk(g, walk, i);
    forall k | 0 <= k < |walk|
      ensures Readable(g, walk[k]) && !g[walk[k]].deleted
    {
      LaidFacts(g, walk, k);
    }
    NoneLiveBefore(g, walk, i);
    assert LastLive(g, walk, i) == P_NONE ==> FirstLive(g, walk, i);
  }

  lemma PlaceAt(g: Graph, leftmost: nat, isTrueRoot: bool, walk: seq<nat>, i: nat)
    requires LeafLevel(g, leftmost, isTrueRoot, walk) && i < |walk|
    ensures LeafPlace(g, walk, i)
  {
    hide LeafPlace, ItemsOrdered, EndsBelow;
  }

  /** A page at its place passes its visit. */
  lemma PlaceVisited(g: Graph, leftmost: nat, isTrueRoot: bool, walk: seq<nat>, i: nat)
    requires LeafLevel(g, leftmost, isTrueRoot, walk) && i < |walk|
    ensures VisitedAt(g, 0, isTrueRoot, walk, i)
  {
    hide PageFits, PageOk, LeafLevel;
    PlaceAt(g, leftmost, isTrueRoot, walk, i);
    if i + 1 < |walk| {
      PlaceAt(g, leftmost, isTrueRoot, walk, i + 1);
    }
    if !g[walk[i]].halfDead {
      LevelPageOk(g, leftmost, isTrueRoot, walk, i);
    }
  }

  /** On any graph: a leaf level is accepted exactly when its pages are at their places and in
      order. */
  lemma LeafLevelMeaning(g: Graph, leftmost: nat, isTrueRoot: bool, walk: seq<nat>)
    ensures AcceptableWalk(g, 0, leftmost, isTrueRoot, walk) <==> LeafLevel(g, leftmost, isTrueRoot, walk)
  {
    hide PageOk, PageFits, ItemsOrdered, EndsBelow, LeafPlace;
    if LeafLevel(g, leftmost, isTrueRoot, walk) {
      forall i | 0 <= i < |walk|
        ensures VisitedAt(g, 0, isTrueRoot, walk, i)
      {
        PlaceVisited(g, leftmost, isTrueRoot, walk, i);
      }
      PlacesAreLaid(g, walk);
      LaidIsLinked(g, walk);
    }
    if AcceptableWalk(g, 0, leftmost, isTrueRoot, walk) {
      AcceptedIsLevel(g, leftmost, isTrueRoot, walk);
    }
  }

  lemma LaidIsLinked(g: Graph, walk: seq<nat>)
    requires Laid(g, walk) && walk != []
    ensures Linked(g, walk) && walk[|walk| - 1] in g && Rightmost(g[walk[|walk| - 1]])
  {
    LaidFacts(g, walk, |walk| - 1);
    forall i | 1 <= i < |walk|
      ensures RightLink(g, walk, i)
    {
      LaidFacts(g, walk, i - 1);
    }
  }

  lemma AcceptedIsLevel(g: Graph, leftmost: nat, isTrueRoot: bool, walk: seq<nat>)
    requires AcceptableWalk(g, 0, leftmost, isTrueRoot, walk)
    ensures LeafLevel(g, leftmost, isTrueRoot, walk)
  {
    hide PageOk, PageFits, ItemsOrdered, EndsBelow, LeafPlace, AcceptableWalk;
    forall i | 0 <= i < |walk|
      ensures LeafPlace(g, walk, i) && walk[i] in g
    {
      AcceptedPlace(g, leftmost, isTrueRoot, walk, i);
      LeafPageFacts(g, leftmost, isTrueRoot, walk, i);
    }
    PlacesAreLaid(g, walk);
    forall i | 0 <= i < |walk| && !g[walk[i]].halfDead
      ensures ItemsOrdered(g[walk[i]])
      ensures forall j: nat :: NextLive(g, walk, i, j) ==> EndsBelow(g[walk[i]], g[walk[j]])
    {
      LeafPageFacts(g, leftmost, isTrueRoot, walk, i);
      LivePageOk(g, walk, i);
    }
    forall i: nat | FirstLive(g, walk, i)
      ensures ReachesLeftEdge(g, walk[i]) && (isTrueRoot ==> g[walk[i]].isRoot)
    {
      FirstIsLeftmost(g, leftmost, isTrueRoot, walk, i);
    }
    WalkStarts(g, leftmost, isTrueRoot, walk);
  }

  lemma WalkStarts(g: Graph, leftmost: nat, isTrueRoot: bool, walk: seq<nat>)
    requires AcceptableWalk(g, 0, leftmost, isTrueRoot, walk)
    ensures walk != [] && walk[0] == leftmost
  {
  }

  lemma FirstIsLeftmost(g: Graph, leftmost: nat, isTrueRoot: bool, walk: seq<nat>, i: nat)
    requires AcceptableWalk(g, 0, leftmost, isTrueRoot, walk) && FirstLive(g, walk, i)
    ensures ReachesLeftEdge(g, walk[i]) && (isTrueRoot ==> g[walk[i]].isRoot)
  {
    hide PageOk, PageFits;
    forall k | 0 <= k < |walk|
      ensures Readable(g, walk[k]) && !g[walk[k]].deleted
    {
      LeafPageFacts(g, leftmost, isTrueRoot, walk, k);
    }
    NoneLiveBefore(g, walk, i);
    assert VisitedAt(g, 0, isTrueRoot, walk, i);
  }

  // ---------------------------------------------------------------------------
  // Pages without downlink.

  /** First downlinks lead from a page, one level down at a time, to a half-dead leaf that is not
      rightmost and names top as the top of the subtree being deleted. */
  ghost predicate DeletionPath(g: Graph, top: nat, level: nat, path: seq<nat>) {
    && path != [] && (forall i :: 0 <= i < |path| ==> Readable(g, path[i]))
    && (forall i :: 0 <= i < |path| - 1 ==> InnerStep(g, level, path, i))
    && var leaf := g[path[|path| - 1]];
    leaf.isLeaf && leaf.halfDead && !leaf.deleted && leaf.next != 0 && leaf.topParent == top
  }

  predicate InnerStep(g: Graph, level: nat, path: seq<nat>, i: nat)
    requires i + 1 < |path|
  {
    path[i] in g &&
    var p := g[path[i]];
    && !p.isLeaf && p.level + 1 + i == level
    && |p.items| > FirstItem(p) && p.items[FirstItem(p)].downlink == path[i + 1]
  }

  lemma {:induction false} LeadsToDeletionIff(g: Graph, top: nat, child: nat, level: nat)
    ensures LeadsToDeletion(g, top, child, level) <==>
            exists path :: DeletionPath(g, top, level, path) && path[0] == child
    decreases level
  {
    if LeadsToDeletion(g, top, child, level) {
      var c := g[child];
      if c.isLeaf {
        assert DeletionPath(g, top, level, [child]);
      } else {
        var next := ItemAt(c, FirstData(c)).downlink;
        LeadsToDeletionIff(g, top, next, c.level);
        var rest :| DeletionPath(g, top, c.level, rest) && rest[0] == next;
        LongerPath(g, top, level, child, rest);
      }
    }
    if path :| DeletionPath(g, top, level, path) && path[0] == child {
      assert Readable(g, path[0]);
      if |path| > 1 {
        assert InnerStep(g, level, path, 0);
        ShorterPath(g, top, level, path);
        LeadsToDeletionIff(g, top, path[1], g[child].level);
      }
    }
  }

  lemma LongerPath(g: Graph, top: nat, level: nat, child: nat, rest: seq<nat>)
    requires Readable(g, child) && !g[child].isLeaf && g[child].level + 1 == level
    requires DeletionPath(g, top, g[child].level, rest)
    requires |g[child].items| > FirstItem(g[child]) && g[child].items[FirstItem(g[child])].downlink == rest[0]
    ensures DeletionPath(g, top, level, [child] + rest)
  {
    var path := [child] + rest;
    forall i | 0 <= i < |path| - 1
      ensures InnerStep(g, level, path, i)
    {
      assert i > 0 ==> InnerStep(g, g[child].level, rest, i - 1);
    }
  }

  lemma ShorterPath(g: Graph, top: nat, level: nat, path: seq<nat>)
    requires DeletionPath(g, top, level, path) && |path| > 1 && path[0] in g && g[path[0]].level + 1 == level
    ensures DeletionPath(g, top, g[path[0]].level, path[1..])
  {
    var rest := path[1..];
    forall i | 0 <= i < |rest| - 1
      ensures InnerStep(g, g[path[0]].level, rest, i)
    {
      assert InnerStep(g, level, path, i + 1);
    }
  }

  /** A page may lack a downlink exactly when it carries a root flag, its left sibling is split half
      way, or the subtree that it heads is being deleted. */
  lemma LackMeaning(g: Graph, b: nat, split: bool)
    requires b in g
    ensures MayLackDownlink(g, b, split) <==>
              || g[b].isRoot || split
              || (!g[b].isLeaf && |g[b].items| > FirstItem(g[b]) &&
                  exists path :: DeletionPath(g, b, g[b].level, path) &&
                                 path[0] == g[b].items[FirstItem(g[b])].downlink)
  {
    hide DeletionPath;
    var p := g[b];
    if |p.items| > FirstItem(p) {
      LeadsToDeletionIff(g, b, p.items[FirstItem(p)].downlink, p.level);
    }
  }
}
