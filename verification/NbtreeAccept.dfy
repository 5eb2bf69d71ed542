/**
  What each check of the read-only B-Tree verifier accepts, on any graph of pages: half-dead and
  deleted pages, incomplete splits, root flags and cycles included.
 */
module NbtreeAccept {
  import opened Common
  import opened NbtreePages
  import opened NbtreeRuns

  // ---------------------------------------------------------------------------
  // One page against its own level.

  /** Real data items: not the high key and not negative infinity. */
  predicate Real(p: Page, off: nat) {
    FirstData(p) <= off <= MaxOff(p) && !NegInf(p, off)
  }

  /** A sibling that is passed over in search of the next item. */
  predicate PassedOver(p: Page) {
    Ignorable(p) && !Rightmost(p)
  }

  /** The siblings read to the right of p: pages passed over, then one that is not. */
  predicate RightRun(g: Graph, p: Page, run: seq<nat>) {
    && run != [] && run[0] == p.next && Linked(g, run)
    && (forall i :: 0 <= i < |run| ==> Readable(g, run[i]))
    && (forall i :: 0 <= i < |run| - 1 ==> PassedOver(g[run[i]]))
    && !PassedOver(g[run[|run| - 1]])
  }

  /** The first item of the last sibling read. */
  function RightKey(g: Graph, run: seq<nat>): Option<int> {
    if run != [] && run[|run| - 1] in g then FirstReal(g[run[|run| - 1]]) else None
  }

  /** The key is below the next item to the right, if there is one. */
  ghost predicate BelowRight(g: Graph, p: Page, key: int) {
    || Rightmost(p)
    || exists run :: RightRun(g, p, run) && (RightKey(g, run).Some? ==> key < RightKey(g, run).value)
  }

  /** The high key bounds the item, the next item is above it, and the last item is below the next
      one to the right. */
  ghost predicate ItemOk(g: Graph, p: Page, off: nat)
    requires Real(p, off)
  {
    && (!Rightmost(p) ==> if p.isLeaf then KeyAt(p, off) <= KeyAt(p, P_HIKEY) else KeyAt(p, off) < KeyAt(p, P_HIKEY))
    && (off < MaxOff(p) ==> KeyAt(p, off) < KeyAt(p, off + 1))
    && (off == MaxOff(p) ==> BelowRight(g, p, KeyAt(p, off)))
  }

  ghost predicate PageOk(g: Graph, p: Page) {
    forall off: nat :: Real(p, off) ==> ItemOk(g, p, off)
  }

  // ---------------------------------------------------------------------------
  // A page against the level below.

  /** Descending by first downlinks from child ends at a half-dead leaf that names top. */
  predicate LeadsToDeletion(g: Graph, top: nat, child: nat, level: nat)
    decreases level
  {
    Readable(g, child) &&
    var c := g[child];
    if c.isLeaf then !c.deleted && c.halfDead && !Rightmost(c) && c.topParent == top
    else
      && c.level + 1 == level && FirstData(c) <= MaxOff(c)
      && LeadsToDeletion(g, top, ItemAt(c, FirstData(c)).downlink, c.level)
  }

  /** What excuses a page without downlink: a root flag, an incomplete split of its left sibling,
      or an interrupted deletion of the subtree it heads. */
  predicate MayLackDownlink(g: Graph, b: nat, split: bool) {
    b in g &&
    var p := g[b];
    || p.isRoot || split
    || (!p.isLeaf && FirstData(p) <= MaxOff(p) &&
        LeadsToDeletion(g, b, ItemAt(p, FirstData(p)).downlink, p.level))
  }

  /** The key of the parent level at a pivot offset: past the last item it is the page's high key,
      at the negative infinity item the high key of the page before. */
  function Boundary(t: Page, pivot: nat, low: Option<int>): Option<int> {
    if NegInf(t, pivot) then low
    else if pivot > MaxOff(t) then if Rightmost(t) || MaxOff(t) == 0 then None else Some(KeyAt(t, P_HIKEY))
    else if pivot == 0 then None
    else Some(KeyAt(t, pivot))
  }

  /** The page's high key, if it is compared at all, is the key at the pivot. */
  predicate Closes(t: Page, pivot: nat, low: Option<int>, page: Page) {
    !page.incompleteSplit && !Rightmost(page) ==>
      MaxOff(page) >= P_HIKEY && Boundary(t, pivot, low) == Some(KeyAt(page, P_HIKEY))
  }

  predicate OnLevelBelow(g: Graph, t: Page, b: nat) {
    && Readable(g, b) && g[b].prev != b
    && (!g[b].deleted || g[b].hasFullXid ==> g[b].level + 1 == t.level)
  }

  /** The downlink at an offset; offset 0 stands for the end of the level. */
  function DownlinkAt(t: Page, off: nat): nat
    requires off <= MaxOff(t)
  {
    if off == 0 then P_NONE else ItemAt(t, off).downlink
  }

  /** A block without downlink that is crossed on the way to the downlink at an offset: it needs
      none, and its high key fits. */
  predicate Passable(g: Graph, t: Page, off: nat, low: Option<int>, b: nat, split: bool)
    requires off <= MaxOff(t)
  {
    OnLevelBelow(g, t, b) && (Ignorable(g[b]) || MayLackDownlink(g, b, split)) && Closes(t, off, low, g[b])
  }

  /** The i-th block on the way may be crossed. split says that the block before the first is split
      half way. */
  predicate CrossedAt(g: Graph, t: Page, off: nat, low: Option<int>, split: bool, path: seq<nat>, i: nat)
    requires off <= MaxOff(t) && i < |path|
  {
    path[i] != DownlinkAt(t, off) && Passable(g, t, off, low, path[i], SplitBefore(g, split, path, i))
  }

  predicate SplitBefore(g: Graph, split: bool, path: seq<nat>, i: nat)
    requires i < |path|
  {
    if i == 0 then split else path[i - 1] in g && g[path[i - 1]].incompleteSplit
  }

  /** The block that the downlink names. The first of a level is at the left edge. */
  ghost predicate Landed(g: Graph, t: Page, off: nat, low: Option<int>, from: Option<nat>)
    requires off <= MaxOff(t)
  {
    var d := DownlinkAt(t, off);
    d == P_NONE ||
    (OnLevelBelow(g, t, d) && (from.None? ==> ReachesLeftEdge(g, d)) && Closes(t, off + 1, low, g[d]))
  }

  /** The way from the right link remembered in from to the downlink at an offset. */
  ghost predicate Crossed(g: Graph, t: Page, off: nat, low: Option<int>, from: Option<nat>, split: bool, path: seq<nat>)
    requires off <= MaxOff(t)
  {
    var d := DownlinkAt(t, off);
    && path != [] && path[|path| - 1] == d && path[0] == (if from.None? then d else from.value)
    && Linked(g, path)
    && (forall i :: 0 <= i < |path| - 1 ==> CrossedAt(g, t, off, low, split, path, i))
    && Landed(g, t, off, low, from)
  }

  ghost predicate Reaches(g: Graph, t: Page, off: nat, low: Option<int>, from: Option<nat>, split: bool)
    requires off <= MaxOff(t)
  {
    exists path :: Crossed(g, t, off, low, from, split, path)
  }

  /** What is remembered of the last downlink matched; none was if that is P_NONE. */
  function FromOf(g: Graph, last: nat): Option<nat> {
    if last != P_NONE && last in g then Some(g[last].next) else None
  }

  predicate SplitOf(g: Graph, last: nat) {
    last != P_NONE && last in g && g[last].incompleteSplit
  }

  /** The child's real items are above the downlink's key. */
  ghost predicate ChildAbove(g: Graph, t: Page, off: nat)
    requires 1 <= off <= MaxOff(t)
  {
    var c := ItemAt(t, off).downlink;
    c in g && forall o: nat :: Real(g[c], o) ==> KeyAt(t, off) < KeyAt(g[c], o)
  }

  ghost predicate ChildFits(g: Graph, t: Page, off: nat)
    requires 1 <= off <= MaxOff(t)
  {
    var c := ItemAt(t, off).downlink;
    Readable(g, c) && !g[c].deleted && ChildAbove(g, t, off)
  }

  /** The downlink at a data offset, where last is the one before it. */
  ghost predicate ItemFits(g: Graph, t: Page, off: nat, low: Option<int>, last: nat)
    requires 1 <= off <= MaxOff(t)
  {
    && Reaches(g, t, off, low, FromOf(g, last), SplitOf(g, last))
    && (!NegInf(t, off) ==> ChildFits(g, t, off))
  }

  /** The downlink matched before the one at an offset, where last is the one before the page. */
  function DownlinkBefore(t: Page, off: nat, last: nat): nat
    requires off <= MaxOff(t) + 1
  {
    if off <= FirstData(t) then last else ItemAt(t, off - 1).downlink
  }

  /** Everything that is checked about one offset. */
  ghost predicate OffsetOk(g: Graph, t: Page, off: nat, low: Option<int>, last: nat)
    requires FirstData(t) <= off <= MaxOff(t)
  {
    (Real(t, off) ==> ItemOk(g, t, off)) && (!t.isLeaf ==> ItemFits(g, t, off, low, last))
  }

  /** All downlinks of an internal page; the rightmost page also ends the level below. */
  ghost predicate PageFits(g: Graph, t: Page, low: Option<int>, last: nat) {
    && (forall k: nat :: FirstData(t) <= k <= MaxOff(t) ==> ItemFits(g, t, k, low, DownlinkBefore(t, k, last)))
    && (Rightmost(t) ==>
          var l := DownlinkBefore(t, MaxOff(t) + 1, last);
          Reaches(g, t, 0, low, FromOf(g, l), SplitOf(g, l)))
  }

  // ---------------------------------------------------------------------------
  // A whole level.

  /** The last page before position i of a walk that is not half-dead, or P_NONE. */
  function LastLive(g: Graph, walk: seq<nat>, i: nat): nat
    requires i <= |walk|
  {
    if i == 0 then P_NONE
    else if walk[i - 1] in g && !Ignorable(g[walk[i - 1]]) then walk[i - 1]
    else LastLive(g, walk, i - 1)
  }

  /** The downlink remembered after a visit. */
  function LastOf(g: Graph, b: nat, last: nat): nat {
    if b !in g || Ignorable(g[b]) || g[b].isLeaf || MaxOff(g[b]) < 1 then last
    else ItemAt(g[b], MaxOff(g[b])).downlink
  }

  /** The downlink remembered before position i. */
  function LastDownlink(g: Graph, walk: seq<nat>, i: nat): nat
    requires i <= |walk|
  {
    if i == 0 then P_NONE else LastOf(g, walk[i - 1], LastDownlink(g, walk, i - 1))
  }

  function BlockBefore(walk: seq<nat>, i: nat): nat
    requires i <= |walk|
  {
    if i == 0 then P_NONE else walk[i - 1]
  }

  function HighKey(p: Page): Option<int> {
    if Rightmost(p) || MaxOff(p) < P_HIKEY then None else Some(KeyAt(p, P_HIKEY))
  }

  function LowKey(g: Graph, b: nat): Option<int> {
    if b != P_NONE && b in g then HighKey(g[b]) else None
  }

  /** One visit: left is the block before, first says that no live page came before, last is the
      last downlink matched. */
  ghost predicate Visited(g: Graph, b: nat, left: nat, level: nat, first: bool, isTrueRoot: bool, last: nat) {
    && Readable(g, b) && b != left && b != g[b].prev
    && if Ignorable(g[b]) then !g[b].deleted && !Rightmost(g[b])
       else
         && (first ==> ReachesLeftEdge(g, b) && (isTrueRoot ==> g[b].isRoot))
         && (left != P_NONE ==> g[b].prev == left)
         && g[b].level == level && PageOk(g, g[b])
         && (!g[b].isLeaf ==> PageFits(g, g[b], LowKey(g, left), last))
  }

  ghost predicate VisitedAt(g: Graph, level: nat, isTrueRoot: bool, walk: seq<nat>, i: nat)
    requires i < |walk|
  {
    Visited(g, walk[i], BlockBefore(walk, i), level, LastLive(g, walk, i) == P_NONE, isTrueRoot,
            LastDownlink(g, walk, i))
  }

  /** A level that the verifier accepts, walked from leftmost to the right edge. */
  ghost predicate AcceptableWalk(g: Graph, level: nat, leftmost: nat, isTrueRoot: bool, walk: seq<nat>) {
    && walk != [] && walk[0] == leftmost && Linked(g, walk)
    && (forall i :: 0 <= i < |walk| ==> VisitedAt(g, level, isTrueRoot, walk, i))
    && walk[|walk| - 1] in g && Rightmost(g[walk[|walk| - 1]])
  }

  ghost predicate Acceptable(g: Graph, level: nat, leftmost: nat, isTrueRoot: bool) {
    exists walk :: AcceptableWalk(g, level, leftmost, isTrueRoot, walk)
  }

  /** What the first live page hands down: its first child, or P_NONE from a leaf. */
  function Down(p: Page): nat {
    if p.isLeaf || MaxOff(p) < FirstData(p) then P_NONE else ItemAt(p, FirstData(p)).downlink
  }

  function NextDown(g: Graph, walk: seq<nat>): Option<nat> {
    if walk == [] then None
    else
      var front, b := walk[..|walk| - 1], walk[|walk| - 1];
      if NextDown(g, front).Some? then NextDown(g, front)
      else if b in g && !Ignorable(g[b]) then Some(Down(g[b]))
      else None
  }

  /** Where the verifier cannot be led round in circles: no half-dead or deleted pages and, below
      an internal level, no incomplete splits and no root flags. */
  predicate Straight(g: Graph, level: nat) {
    && NoIgnorable(g)
    && (level > 0 ==> NoIncompleteSplit(g) && forall b :: b in g && g[b].level + 1 == level ==> !g[b].isRoot)
  }

  predicate NoIncompleteSplit(g: Graph) {
    forall b :: b in g ==> !g[b].incompleteSplit
  }

  /** A page passes exactly when each of its offsets does, and the end of the level. */
  lemma OffsetsOk(g: Graph, t: Page, low: Option<int>, last: nat)
    requires Sane(t) && !t.deleted
    ensures PageOk(g, t) && (!t.isLeaf ==> PageFits(g, t, low, last)) <==>
            && (forall k: nat :: FirstData(t) <= k <= MaxOff(t) ==> OffsetOk(g, t, k, low, DownlinkBefore(t, k, last)))
            && (!t.isLeaf && Rightmost(t) ==>
                  var l := DownlinkBefore(t, MaxOff(t) + 1, last);
                  Reaches(g, t, 0, low, FromOf(g, l), SplitOf(g, l)))
  {
    hide ItemOk, ItemFits, Reaches;
    if forall k: nat :: FirstData(t) <= k <= MaxOff(t) ==> OffsetOk(g, t, k, low, DownlinkBefore(t, k, last)) {
      forall off: nat | Real(t, off)
        ensures ItemOk(g, t, off)
      {
        assert OffsetOk(g, t, off, low, DownlinkBefore(t, off, last));
      }
      forall k: nat | FirstData(t) <= k <= MaxOff(t) && !t.isLeaf
        ensures ItemFits(g, t, k, low, DownlinkBefore(t, k, last))
      {
        assert OffsetOk(g, t, k, low, DownlinkBefore(t, k, last));
      }
    }
  }

  lemma StraightState(g: Graph, t: Page, last: nat)
    requires Sane(t) && !t.deleted
    ensures Straight(g, t.level) ==> NoIgnorable(g) && (!t.isLeaf ==> t.level > 0 && !SplitOf(g, last))
  {
  }

  // ---------------------------------------------------------------------------
  // Runs of reads are unique.

  lemma RightRunUnique(g: Graph, p: Page, a: seq<nat>, b: seq<nat>)
    requires RightRun(g, p, a) && RightRun(g, p, b)
    ensures a == b
  {
    StillOn(g, a[..|a| - 1], a[|a| - 1], b) by {
      assert a[..|a| - 1] + [a[|a| - 1]] == a;
    }
    StillOn(g, b[..|b| - 1], b[|b| - 1], a) by {
      assert b[..|b| - 1] + [b[|b| - 1]] == b;
    }
  }

  lemma BelowRightIff(g: Graph, p: Page, key: int, run: seq<nat>)
    ensures RightRun(g, p, run) && !Rightmost(p) ==>
              (BelowRight(g, p, key) <==> (RightKey(g, run).Some? ==> key < RightKey(g, run).value))
  {
    hide RightRun;
    if RightRun(g, p, run) && !Rightmost(p) && BelowRight(g, p, key) {
      var r :| RightRun(g, p, r) && (RightKey(g, r).Some? ==> key < RightKey(g, r).value);
      RightRunUnique(g, p, run, r);
    }
  }

  /** Without half-dead pages no subtree is being deleted. */
  lemma {:induction false} NoDeletion(g: Graph, top: nat, child: nat, level: nat)
    requires NoIgnorable(g)
    ensures !LeadsToDeletion(g, top, child, level)
    decreases level
  {
    if Readable(g, child) && !g[child].isLeaf && g[child].level + 1 == level &&
       FirstData(g[child]) <= MaxOff(g[child]) {
      NoDeletion(g, top, ItemAt(g[child], FirstData(g[child])).downlink, g[child].level);
    }
  }

  lemma LackExcuses(g: Graph, b: nat, split: bool)
    requires NoIgnorable(g) && b in g
    ensures MayLackDownlink(g, b, split) <==> g[b].isRoot || split
  {
    var p := g[b];
    if !p.isLeaf && FirstData(p) <= MaxOff(p) {
      NoDeletion(g, b, ItemAt(p, FirstData(p)).downlink, p.level);
    }
  }

  /** Where nothing leads in circles every child needs a downlink. */
  lemma StraightStops(g: Graph, t: Page, off: nat, low: Option<int>, b: nat)
    requires off <= MaxOff(t)
    ensures t.level > 0 && Straight(g, t.level) ==> !Passable(g, t, off, low, b, false)
  {
    if Straight(g, t.level) && b in g {
      LackExcuses(g, b, false);
    }
  }

  /** Pages passed over so far, and the one to be read next. */
  predicate PassedSoFar(g: Graph, p: Page, passed: seq<nat>, next: nat) {
    && Linked(g, passed + [next]) && (passed + [next])[0] == p.next
    && forall i :: 0 <= i < |passed| ==> Readable(g, passed[i]) && PassedOver(g[passed[i]])
  }

  lemma PassedAgrees(g: Graph, p: Page, passed: seq<nat>, next: nat, run: seq<nat>)
    requires PassedSoFar(g, p, passed, next) && RightRun(g, p, run)
    ensures |passed| < |run| <= |g| + 1 && run[|passed|] == next
  {
    StillOn(g, passed, next, run);
    RunDistinct(g, run);
  }

  /** Blocks crossed so far, and the one to be read next. */
  predicate CrossedSoFar(g: Graph, t: Page, off: nat, low: Option<int>, from: Option<nat>, split: bool,
                         passed: seq<nat>, next: nat)
    requires off <= MaxOff(t)
  {
    && Linked(g, passed + [next]) && (passed + [next])[0] == (if from.None? then DownlinkAt(t, off) else from.value)
    && forall i :: 0 <= i < |passed| ==> CrossedAt(g, t, off, low, split, passed, i)
  }

  lemma CrossedStep(g: Graph, t: Page, off: nat, low: Option<int>, from: Option<nat>, split: bool,
                    passed: seq<nat>, next: nat)
    requires off <= MaxOff(t) && CrossedSoFar(g, t, off, low, from, split, passed, next)
    requires CrossedAt(g, t, off, low, split, passed + [next], |passed|)
    ensures CrossedSoFar(g, t, off, low, from, split, passed + [next], g[next].next)
  {
    var all := passed + [next];
    LinkedSnoc(g, all, g[next].next);
    forall i | 0 <= i < |all|
      ensures CrossedAt(g, t, off, low, split, all, i)
    {
      if i < |passed| {
        assert CrossedAt(g, t, off, low, split, passed, i);
        assert all[i] == passed[i] && (i > 0 ==> all[i - 1] == passed[i - 1]);
      }
    }
  }

  /** A way that exists is the one being followed. */
  lemma CrossedAgrees(g: Graph, t: Page, off: nat, low: Option<int>, from: Option<nat>, split: bool,
                      passed: seq<nat>, next: nat, path: seq<nat>)
    requires off <= MaxOff(t) && CrossedSoFar(g, t, off, low, from, split, passed, next)
    requires Crossed(g, t, off, low, from, split, path)
    ensures |passed| < |path| <= |g| + 1 && path[|passed|] == next && passed == path[..|passed|]
    ensures passed != [] ==> next != passed[0]
    ensures next != DownlinkAt(t, off) ==> CrossedAt(g, t, off, low, split, passed + [next], |passed|)
  {
    var d := DownlinkAt(t, off);
    forall i | 0 <= i < |passed|
      ensures passed[i] != d
    {
      assert CrossedAt(g, t, off, low, split, passed, i);
    }
    StillOn(g, passed, next, path);
    forall k | 0 <= k < |path| - 1
      ensures path[k] != path[|path| - 1]
    {
      assert CrossedAt(g, t, off, low, split, path, k);
    }
    RunDistinct(g, path);
    if next != d {
      var n := |passed|;
      assert CrossedAt(g, t, off, low, split, path, n);
      var all := passed + [next];
      assert all[n] == path[n] && (n > 0 ==> all[n - 1] == path[n - 1]);
    }
  }

  /** What the next block must be if there is a way at all. */
  lemma CrossedExpects(g: Graph, t: Page, off: nat, low: Option<int>, from: Option<nat>, split: bool,
                       passed: seq<nat>, next: nat)
    requires off <= MaxOff(t) && CrossedSoFar(g, t, off, low, from, split, passed, next)
    requires Reaches(g, t, off, low, from, split)
    ensures |passed| <= |g| && (passed != [] ==> next != passed[0]) && Landed(g, t, off, low, from)
    ensures next != DownlinkAt(t, off) ==>
              next != P_NONE && Passable(g, t, off, low, next, SplitBefore(g, split, passed + [next], |passed|))
  {
    var path :| Crossed(g, t, off, low, from, split, path);
    CrossedAgrees(g, t, off, low, from, split, passed, next, path);
  }

  lemma CrossedEnds(g: Graph, t: Page, off: nat, low: Option<int>, from: Option<nat>, split: bool, passed: seq<nat>)
    requires off <= MaxOff(t) && CrossedSoFar(g, t, off, low, from, split, passed, DownlinkAt(t, off))
    requires Landed(g, t, off, low, from)
    ensures Reaches(g, t, off, low, from, split)
  {
    var d := DownlinkAt(t, off);
    var path := passed + [d];
    forall i | 0 <= i < |path| - 1
      ensures CrossedAt(g, t, off, low, split, path, i)
    {
      assert CrossedAt(g, t, off, low, split, passed, i);
      assert path[i] == passed[i] && (i > 0 ==> path[i - 1] == passed[i - 1]);
    }
    assert Crossed(g, t, off, low, from, split, path);
  }

  // ---------------------------------------------------------------------------
  // Walking over a level.

  lemma {:induction false} LastPrefix(g: Graph, walk: seq<nat>, more: seq<nat>, i: nat)
    requires i <= |walk| && walk <= more
    ensures LastLive(g, more, i) == LastLive(g, walk, i) && LastDownlink(g, more, i) == LastDownlink(g, walk, i)
  {
    if i > 0 {
      LastPrefix(g, walk, more, i - 1);
    }
  }

  lemma VisitedPrefix(g: Graph, level: nat, isTrueRoot: bool, walk: seq<nat>, more: seq<nat>, i: nat)
    requires i < |walk| && walk <= more
    ensures VisitedAt(g, level, isTrueRoot, walk, i) <==> VisitedAt(g, level, isTrueRoot, more, i)
  {
    hide Visited;
    LastPrefix(g, walk, more, i);
  }

  /** The pages visited so far, and the next one. */
  ghost predicate WalkSoFar(g: Graph, level: nat, leftmost: nat, isTrueRoot: bool, walk: seq<nat>, current: nat) {
    && Linked(g, walk + [current]) && (walk + [current])[0] == leftmost
    && forall i :: 0 <= i < |walk| ==> VisitedAt(g, level, isTrueRoot, walk, i)
  }

  lemma WalkStep(g: Graph, level: nat, leftmost: nat, isTrueRoot: bool, walk: seq<nat>, current: nat)
    requires WalkSoFar(g, level, leftmost, isTrueRoot, walk, current) && current in g
    requires Visited(g, current, BlockBefore(walk, |walk|), level, LastLive(g, walk, |walk|) == P_NONE, isTrueRoot,
                     LastDownlink(g, walk, |walk|))
    ensures WalkSoFar(g, level, leftmost, isTrueRoot, walk + [current], g[current].next)
    ensures LastDownlink(g, walk + [current], |walk| + 1) == LastOf(g, current, LastDownlink(g, walk, |walk|))
  {
    hide Visited;
    var all, n := walk + [current], |walk|;
    LinkedSnoc(g, all, g[current].next);
    LastPrefix(g, walk, all, n);
    forall i | 0 <= i < |all|
      ensures VisitedAt(g, level, isTrueRoot, all, i)
    {
      if i < n {
        VisitedPrefix(g, level, isTrueRoot, walk, all, i);
      }
    }
  }

  lemma WalkEnds(g: Graph, level: nat, leftmost: nat, isTrueRoot: bool, walk: seq<nat>)
    requires WalkSoFar(g, level, leftmost, isTrueRoot, walk, P_NONE) && walk != [] && walk[|walk| - 1] in g
    requires Rightmost(g[walk[|walk| - 1]])
    ensures AcceptableWalk(g, level, leftmost, isTrueRoot, walk)
  {
    hide VisitedAt;
    assert forall i :: 1 <= i < |walk| ==> RightLink(g, walk + [P_NONE], i) == RightLink(g, walk, i);
  }

  /** The visited pages are readable, and only the last can be rightmost. */
  lemma WalkReads(g: Graph, level: nat, leftmost: nat, isTrueRoot: bool, walk: seq<nat>, current: nat, i: nat)
    requires WalkSoFar(g, level, leftmost, isTrueRoot, walk, current) && current != P_NONE && i < |walk|
    ensures Readable(g, walk[i]) && !Rightmost(g[walk[i]])
  {
    hide PageOk, PageFits;
    assert VisitedAt(g, level, isTrueRoot, walk, i);
    assert RightLink(g, walk + [current], i + 1);
    if i + 1 < |walk| {
      assert VisitedAt(g, level, isTrueRoot, walk, i + 1);
    }
  }

  /** If the level is acceptable, so is the next page, and it is not too far away. */
  lemma WalkExpects(g: Graph, level: nat, leftmost: nat, isTrueRoot: bool, walk: seq<nat>, current: nat)
    requires WalkSoFar(g, level, leftmost, isTrueRoot, walk, current) && current != P_NONE
    requires Acceptable(g, level, leftmost, isTrueRoot)
    ensures |walk| <= |g|
    ensures Visited(g, current, BlockBefore(walk, |walk|), level, LastLive(g, walk, |walk|) == P_NONE, isTrueRoot,
                    LastDownlink(g, walk, |walk|))
  {
    hide Visited;
    var good :| AcceptableWalk(g, level, leftmost, isTrueRoot, good);
    forall i | 0 <= i < |walk|
      ensures walk[i] != good[|good| - 1]
    {
      WalkReads(g, level, leftmost, isTrueRoot, walk, current, i);
    }
    StillOn(g, walk, current, good);
    AcceptableDistinct(g, level, leftmost, isTrueRoot, good);
    var n := |walk|;
    assert VisitedAt(g, level, isTrueRoot, good, n);
    LastPrefix(g, walk, good, n);
  }

  lemma AcceptableDistinct(g: Graph, level: nat, leftmost: nat, isTrueRoot: bool, walk: seq<nat>)
    requires AcceptableWalk(g, level, leftmost, isTrueRoot, walk)
    ensures Distinct(walk) && |walk| <= |g| + 1
  {
    hide PageOk, PageFits;
    forall k | 0 <= k < |walk| - 1
      ensures walk[k] != walk[|walk| - 1]
    {
      assert RightLink(g, walk, k + 1) && VisitedAt(g, level, isTrueRoot, walk, k + 1);
    }
    RunDistinct(g, walk);
  }

  /** Without half-dead pages the walk cannot meet itself. */
  lemma StraightWalk(g: Graph, level: nat, leftmost: nat, isTrueRoot: bool, walk: seq<nat>, current: nat)
    requires WalkSoFar(g, level, leftmost, isTrueRoot, walk, current) && NoIgnorable(g)
    ensures Mutual(g, walk) && FromLeftEdge(g, walk) && |walk| <= |g|
  {
    hide PageOk, PageFits;
    forall i | 0 <= i < |walk|
      ensures walk[i] in g && walk[i] != P_NONE && (i > 0 ==> LeftLink(g, walk, i))
      ensures i == 0 ==> g[walk[i]].prev == P_NONE
    {
      assert VisitedAt(g, level, isTrueRoot, walk, i);
      if i > 0 {
        assert VisitedAt(g, level, isTrueRoot, walk, i - 1);
      } else {
        LeftEdgeWithoutHalfDead(g, walk[0]);
      }
    }
    MutualDistinct(g, walk);
  }

  /** A first child has been handed down exactly when a live page was visited; a leaf level hands
      down none. */
  lemma {:induction false} NextDownFacts(g: Graph, level: nat, isTrueRoot: bool, walk: seq<nat>)
    requires forall i :: 0 <= i < |walk| ==> VisitedAt(g, level, isTrueRoot, walk, i)
    ensures NextDown(g, walk).None? <==> LastLive(g, walk, |walk|) == P_NONE
    ensures level == 0 ==> NextDown(g, walk).None? || NextDown(g, walk) == Some(P_NONE)
  {
    hide PageOk, PageFits;
    if walk != [] {
      var n := |walk| - 1;
      var front := walk[..n];
      forall i | 0 <= i < n
        ensures VisitedAt(g, level, isTrueRoot, front, i)
      {
        VisitedPrefix(g, level, isTrueRoot, front, walk, i);
      }
      NextDownFacts(g, level, isTrueRoot, front);
      LastPrefix(g, front, walk, n);
      assert VisitedAt(g, level, isTrueRoot, walk, n);
    }
  }

  lemma NextDownSnoc(g: Graph, walk: seq<nat>, b: nat)
    requires b in g
    ensures NextDown(g, walk + [b]) ==
            if NextDown(g, walk).None? && !Ignorable(g[b]) then Some(Down(g[b])) else NextDown(g, walk)
  {
    assert (walk + [b])[..|walk|] == walk;
  }

  /** What a page that passed its visit leaves behind. */
  lemma LeavesBehind(g: Graph, b: nat)
    requires Readable(g, b) && !g[b].deleted
    ensures var p := g[b];
            && (!p.isLeaf ==> FirstData(p) <= MaxOff(p)) && (!Rightmost(p) ==> P_HIKEY <= MaxOff(p))
            && Down(p) == (if p.isLeaf then P_NONE else ItemAt(p, FirstData(p)).downlink)
            && LowKey(g, b) == (if Rightmost(p) then None else Some(KeyAt(p, P_HIKEY)))
  {
  }

  lemma WalkBegins(g: Graph, level: nat, leftmost: nat, isTrueRoot: bool)
    ensures WalkSoFar(g, level, leftmost, isTrueRoot, [], leftmost)
  {
  }

  lemma VisitReads(g: Graph, b: nat, left: nat, level: nat, first: bool, isTrueRoot: bool, last: nat)
    requires Visited(g, b, left, level, first, isTrueRoot, last)
    ensures b in g && Readable(g, b) && !g[b].deleted
  {
  }

  lemma NothingBehind(g: Graph)
    ensures FromOf(g, P_NONE) == None && !SplitOf(g, P_NONE) && LowKey(g, P_NONE) == None
  {
  }

  lemma WalkHandsDown(g: Graph, level: nat, leftmost: nat, isTrueRoot: bool, walk: seq<nat>, current: nat)
    requires WalkSoFar(g, level, leftmost, isTrueRoot, walk, current)
    ensures NextDown(g, walk).None? <==> LastLive(g, walk, |walk|) == P_NONE
    ensures level == 0 ==> NextDown(g, walk).None? || NextDown(g, walk) == Some(P_NONE)
  {
    NextDownFacts(g, level, isTrueRoot, walk);
  }

  lemma AcceptableExists(g: Graph, level: nat, leftmost: nat, isTrueRoot: bool, walk: seq<nat>)
    requires AcceptableWalk(g, level, leftmost, isTrueRoot, walk)
    ensures Acceptable(g, level, leftmost, isTrueRoot)
  {
  }

  lemma StraightBound(g: Graph, level: nat, leftmost: nat, isTrueRoot: bool, walk: seq<nat>, current: nat)
    requires WalkSoFar(g, level, leftmost, isTrueRoot, walk, current)
    ensures Straight(g, level) ==> |walk| <= |g|
  {
    if Straight(g, level) {
      StraightWalk(g, level, leftmost, isTrueRoot, walk, current);
    }
  }
}
