/**
  What an accepted level means globally: when its leaf items are one strictly increasing sequence,
  on any graph of pages, and parent downlinks that are exactly the pages of the level below, each
  within its key range.
 */
module NbtreeOrder {
  import opened Common
  import opened NbtreePages
  import opened NbtreeRuns
  import opened NbtreeAccept
  import opened NbtreeLevels
  import opened NbtreeSound

  /** The keys of a page's data items below an offset. */
  function KeysUpTo(p: Page, upto: nat): seq<int>
    requires upto <= MaxOff(p) + 1
  {
    if upto <= FirstData(p) then [] else KeysUpTo(p, upto - 1) + [KeyAt(p, upto - 1)]
  }

  /** The keys of a page; a half-dead page has none. */
  function PageKeys(p: Page): seq<int> {
    if p.halfDead then [] else KeysUpTo(p, MaxOff(p) + 1)
  }

  /** All keys of a level, page after page. */
  ghost function LevelKeys(g: Graph, walk: seq<nat>): seq<int> {
    if walk == [] then []
    else
      var b := walk[|walk| - 1];
      LevelKeys(g, walk[..|walk| - 1]) + (if b in g then PageKeys(g[b]) else [])
  }

  predicate StrictlyIncreasing(ks: seq<int>) {
    forall i, j :: 0 <= i < j < |ks| ==> ks[i] < ks[j]
  }

  lemma IncreasingSnoc(ks: seq<int>, k: int)
    requires StrictlyIncreasing(ks) && (ks != [] ==> ks[|ks| - 1] < k)
    ensures StrictlyIncreasing(ks + [k])
  {
  }

  /** A live page with items. */
  predicate HasItems(p: Page) {
    !p.halfDead && FirstData(p) <= MaxOff(p)
  }

  function FirstKey(p: Page): int
    requires HasItems(p)
  {
    KeyAt(p, FirstData(p))
  }

  function LastKey(p: Page): int
    requires HasItems(p)
  {
    KeyAt(p, MaxOff(p))
  }

  /** Two live pages with items and none with items in between. */
  predicate Neighbours(g: Graph, walk: seq<nat>, i: nat, j: nat) {
    && i < j < |walk| && walk[i] in g && walk[j] in g && HasItems(g[walk[i]]) && HasItems(g[walk[j]])
    && forall k :: i < k < j ==> walk[k] in g && !HasItems(g[walk[k]])
  }

  /** Some page between the two is live. */
  predicate LiveBetween(g: Graph, walk: seq<nat>, i: nat, j: nat) {
    exists k :: i < k < j && k < |walk| && walk[k] in g && !g[walk[k]].halfDead
  }

  predicate InOrder(g: Graph, walk: seq<nat>, i: nat, j: nat) {
    Neighbours(g, walk, i, j) ==> LastKey(g[walk[i]]) < FirstKey(g[walk[j]])
  }

  /** Appending the items of a leaf page in order keeps the whole sequence increasing. */
  lemma {:induction false} AppendPage(g: Graph, p: Page, before: seq<int>, upto: nat)
    requires p.isLeaf && PageOk(g, p) && FirstData(p) < upto <= MaxOff(p) + 1
    requires StrictlyIncreasing(before) && (before != [] ==> before[|before| - 1] < KeyAt(p, FirstData(p)))
    ensures StrictlyIncreasing(before + KeysUpTo(p, upto))
    ensures KeysUpTo(p, upto) != [] && KeysUpTo(p, upto)[|KeysUpTo(p, upto)| - 1] == KeyAt(p, upto - 1)
  {
    var all, k := KeysUpTo(p, upto - 1), KeyAt(p, upto - 1);
    assert before + KeysUpTo(p, upto) == (before + all) + [k];
    if upto - 1 > FirstData(p) {
      AppendPage(g, p, before, upto - 1);
      assert Real(p, upto - 2) && ItemOk(g, p, upto - 2);
    }
    IncreasingSnoc(before + all, k);
  }

  lemma {:induction false} PageEnds(p: Page, upto: nat)
    requires FirstData(p) < upto <= MaxOff(p) + 1
    ensures var ks := KeysUpTo(p, upto);
            ks != [] && ks[0] == KeyAt(p, FirstData(p)) && ks[|ks| - 1] == KeyAt(p, upto - 1)
  {
    if upto - 1 > FirstData(p) {
      PageEnds(p, upto - 1);
    }
  }

  /** The keys of the first n pages. */
  ghost function KeysOf(g: Graph, walk: seq<nat>, n: nat): seq<int>
    requires n <= |walk|
  {
    LevelKeys(g, walk[..n])
  }

  lemma KeysStep(g: Graph, walk: seq<nat>, n: nat)
    requires n < |walk| && walk[n] in g
    ensures KeysOf(g, walk, n + 1) == KeysOf(g, walk, n) + PageKeys(g[walk[n]])
    ensures !HasItems(g[walk[n]]) ==> KeysOf(g, walk, n + 1) == KeysOf(g, walk, n)
  {
    assert walk[..n + 1][..n] == walk[..n];
  }

  lemma KeysEnds(g: Graph, walk: seq<nat>)
    ensures KeysOf(g, walk, 0) == [] && KeysOf(g, walk, |walk|) == LevelKeys(g, walk)
  {
    assert walk[..|walk|] == walk;
  }

  lemma {:induction false} KeysPrefix(g: Graph, walk: seq<nat>, m: nat, n: nat)
    requires m <= n <= |walk| && forall i :: 0 <= i < |walk| ==> walk[i] in g
    ensures KeysOf(g, walk, m) <= KeysOf(g, walk, n)
    decreases n - m
  {
    hide KeysOf, PageKeys;
    if m < n {
      KeysPrefix(g, walk, m, n - 1);
      KeysStep(g, walk, n - 1);
    }
  }

  lemma LeafPageFacts(g: Graph, leftmost: nat, isTrueRoot: bool, walk: seq<nat>, i: nat)
    requires AcceptableWalk(g, 0, leftmost, isTrueRoot, walk) && i < |walk|
    ensures Readable(g, walk[i]) && !g[walk[i]].deleted && (g[walk[i]].halfDead ==> !Rightmost(g[walk[i]]))
    ensures !g[walk[i]].halfDead ==> g[walk[i]].isLeaf && PageOk(g, g[walk[i]])
    ensures i + 1 < |walk| ==> g[walk[i]].next == walk[i + 1] != P_NONE
    ensures i + 1 == |walk| ==> g[walk[i]].next == P_NONE
  {
    hide PageOk, PageFits;
    assert VisitedAt(g, 0, isTrueRoot, walk, i);
    assert i + 1 < |walk| ==> RightLink(g, walk, i + 1) && VisitedAt(g, 0, isTrueRoot, walk, i + 1);
  }

  /** The pages of the walk can be read, are linked to the right, and none of them is deleted or
      half-dead at the right edge. */
  predicate Laid(g: Graph, walk: seq<nat>) {
    forall i :: 0 <= i < |walk| ==> LaidAt(g, walk, i)
  }

  predicate LaidAt(g: Graph, walk: seq<nat>, i: nat)
    requires i < |walk|
  {
    && Readable(g, walk[i]) && !g[walk[i]].deleted
    && g[walk[i]].next == (if i + 1 < |walk| then walk[i + 1] else P_NONE)
    && (g[walk[i]].halfDead ==> !Rightmost(g[walk[i]]))
  }

  lemma AcceptedIsLaid(g: Graph, leftmost: nat, isTrueRoot: bool, walk: seq<nat>)
    requires AcceptableWalk(g, 0, leftmost, isTrueRoot, walk)
    ensures Laid(g, walk)
  {
    forall i | 0 <= i < |walk|
      ensures LaidAt(g, walk, i)
    {
      LeafPageFacts(g, leftmost, isTrueRoot, walk, i);
    }
  }

  /** What lies behind a page up to the next live one is what the search for its right neighbour
      reads. */
  lemma RunToNextLive(g: Graph, walk: seq<nat>, i: nat, j: nat)
    requires Laid(g, walk) && i < j < |walk| && walk[i] in g && walk[j] in g && !g[walk[j]].halfDead
    requires forall k :: i < k < j ==> walk[k] in g && g[walk[k]].halfDead
    ensures RightRun(g, g[walk[i]], walk[i + 1..j + 1])
  {
    hide LaidAt, Readable;
    var run := walk[i + 1..j + 1];
    forall k | 0 <= k < |run|
      ensures Readable(g, run[k]) && run[k] == walk[i + 1 + k] && (k < |run| - 1 ==> PassedOver(g[run[k]]))
      ensures k > 0 ==> RightLink(g, run, k)
    {
      LaidFacts(g, walk, i + 1 + k);
      LaidFacts(g, walk, i + k);
    }
    LaidFacts(g, walk, i);
    LaidFacts(g, walk, j);
    assert run[|run| - 1] == walk[j];
  }

  lemma LaidFacts(g: Graph, walk: seq<nat>, i: nat)
    requires Laid(g, walk) && i < |walk|
    ensures Readable(g, walk[i]) && walk[i] in g && !g[walk[i]].deleted
    ensures g[walk[i]].halfDead ==> !Rightmost(g[walk[i]])
    ensures g[walk[i]].next == if i + 1 < |walk| then walk[i + 1] else P_NONE
  {
    assert LaidAt(g, walk, i);
  }

  /** On any graph: the check itself settles two live leaf pages that have only half-dead pages
      between them. */
  lemma StepsOverHalfDead(g: Graph, leftmost: nat, isTrueRoot: bool, walk: seq<nat>, i: nat, j: nat)
    requires AcceptableWalk(g, 0, leftmost, isTrueRoot, walk) && i < j < |walk| && walk[i] in g && walk[j] in g
    requires !g[walk[i]].halfDead && !g[walk[j]].halfDead
    requires forall k :: i < k < j ==> walk[k] in g && g[walk[k]].halfDead
    requires |g[walk[i]].items| > if g[walk[i]].next == 0 then 0 else 1
    requires |g[walk[j]].items| > if g[walk[j]].next == 0 then 0 else 1
    ensures var p, q := g[walk[i]], g[walk[j]];
            p.items[|p.items| - 1].key < q.items[if q.next == 0 then 0 else 1].key
  {
    var p := g[walk[i]];
    LeafPageFacts(g, leftmost, isTrueRoot, walk, i);
    LeafPageFacts(g, leftmost, isTrueRoot, walk, j);
    AcceptedIsLaid(g, leftmost, isTrueRoot, walk);
    RunToNextLive(g, walk, i, j);
    assert Real(p, MaxOff(p)) && ItemOk(g, p, MaxOff(p));
    BelowRightIff(g, p, LastKey(p), walk[i + 1..j + 1]);
  }

  lemma SettledInOrder(g: Graph, leftmost: nat, isTrueRoot: bool, walk: seq<nat>, i: nat, j: nat)
    requires AcceptableWalk(g, 0, leftmost, isTrueRoot, walk) && Neighbours(g, walk, i, j)
    requires !LiveBetween(g, walk, i, j)
    ensures InOrder(g, walk, i, j)
  {
    hide AcceptableWalk;
    StepsOverHalfDead(g, leftmost, isTrueRoot, walk, i, j);
  }

  /** The position of the last page with items among the first n, or n if there is none. */
  function LastFull(g: Graph, walk: seq<nat>, n: nat): (m: nat)
    requires n <= |walk| && forall i :: 0 <= i < |walk| ==> walk[i] in g
    ensures m <= n && (m < n ==> HasItems(g[walk[m]]) && forall k :: m < k < n ==> !HasItems(g[walk[k]]))
    ensures m == n ==> forall k :: 0 <= k < n ==> !HasItems(g[walk[k]])
  {
    if n == 0 then 0
    else if HasItems(g[walk[n - 1]]) then n - 1
    else if LastFull(g, walk, n - 1) == n - 1 then n else LastFull(g, walk, n - 1)
  }

  /** One more page with items. */
  lemma FullPageFollows(g: Graph, leftmost: nat, isTrueRoot: bool, walk: seq<nat>, n: nat, ks: seq<int>)
    requires AcceptableWalk(g, 0, leftmost, isTrueRoot, walk) && n < |walk|
    requires forall i :: 0 <= i < |walk| ==> walk[i] in g
    requires forall i: nat, j: nat :: LiveBetween(g, walk, i, j) ==> InOrder(g, walk, i, j)
    requires HasItems(g[walk[n]]) && StrictlyIncreasing(ks) && (ks == [] <==> LastFull(g, walk, n) == n)
    requires ks != [] ==> ks[|ks| - 1] == LastKey(g[walk[LastFull(g, walk, n)]])
    ensures StrictlyIncreasing(ks + PageKeys(g[walk[n]])) && PageKeys(g[walk[n]]) != []
    ensures (ks + PageKeys(g[walk[n]]))[|ks + PageKeys(g[walk[n]])| - 1] == LastKey(g[walk[n]])
  {
    hide AcceptableWalk, PageOk, StrictlyIncreasing, LiveBetween;
    LeafPageFacts(g, leftmost, isTrueRoot, walk, n);
    var m, p := LastFull(g, walk, n), g[walk[n]];
    if m < n {
      assert Neighbours(g, walk, m, n);
      if !LiveBetween(g, walk, m, n) {
        SettledInOrder(g, leftmost, isTrueRoot, walk, m, n);
      }
      assert InOrder(g, walk, m, n);
    }
    AppendPage(g, p, ks, MaxOff(p) + 1);
  }

  lemma {:induction false} PrefixIncreasing(g: Graph, leftmost: nat, isTrueRoot: bool, walk: seq<nat>, n: nat)
    requires AcceptableWalk(g, 0, leftmost, isTrueRoot, walk) && n <= |walk|
    requires forall i :: 0 <= i < |walk| ==> walk[i] in g
    requires forall i: nat, j: nat :: LiveBetween(g, walk, i, j) ==> InOrder(g, walk, i, j)
    ensures var ks, m := KeysOf(g, walk, n), LastFull(g, walk, n);
            && StrictlyIncreasing(ks) && (ks == [] <==> m == n)
            && (m < n ==> ks[|ks| - 1] == LastKey(g[walk[m]]))
  {
    hide AcceptableWalk, StrictlyIncreasing, InOrder, KeysOf, PageKeys, LiveBetween;
    if n == 0 {
      EmptyIncreasing();
      KeysEnds(g, walk);
    } else {
      PrefixIncreasing(g, leftmost, isTrueRoot, walk, n - 1);
      KeysStep(g, walk, n - 1);
      if HasItems(g[walk[n - 1]]) {
        FullPageFollows(g, leftmost, isTrueRoot, walk, n - 1, KeysOf(g, walk, n - 1));
      }
    }
  }

  lemma EmptyIncreasing()
    ensures StrictlyIncreasing([])
  {
  }

  /** In an increasing level the last key of a page is below the first of any later one. */
  lemma IncreasingInOrder(g: Graph, walk: seq<nat>, i: nat, j: nat)
    requires (forall k :: 0 <= k < |walk| ==> walk[k] in g) && StrictlyIncreasing(LevelKeys(g, walk))
    ensures InOrder(g, walk, i, j)
  {
    hide KeysOf, Neighbours;
    if Neighbours(g, walk, i, j) {
      NeighboursHaveItems(g, walk, i, j);
      var p, q := g[walk[i]], g[walk[j]];
      PageEnds(p, MaxOff(p) + 1);
      PageEnds(q, MaxOff(q) + 1);
      var a, b, c, all := KeysOf(g, walk, i + 1), KeysOf(g, walk, j), KeysOf(g, walk, j + 1), LevelKeys(g, walk);
      KeysStep(g, walk, i);
      KeysStep(g, walk, j);
      KeysPrefix(g, walk, i + 1, j);
      KeysPrefix(g, walk, j + 1, |walk|);
      KeysEnds(g, walk);
      assert all[|a| - 1] == c[|a| - 1] == b[|a| - 1] == a[|a| - 1] == LastKey(p);
      assert all[|b|] == c[|b|] == FirstKey(q);
    }
  }

  lemma NeighboursHaveItems(g: Graph, walk: seq<nat>, i: nat, j: nat)
    requires Neighbours(g, walk, i, j)
    ensures i < j < |walk| && walk[i] in g && walk[j] in g && HasItems(g[walk[i]]) && HasItems(g[walk[j]])
  {
  }

  /** On any graph: an accepted leaf level is one strictly increasing sequence exactly when live pages
      with items that have only pages without items, and a live one among them, between them are in
      order. */
  lemma LeafLevelIncreasingIff(g: Graph, leftmost: nat, isTrueRoot: bool, walk: seq<nat>)
    requires AcceptableWalk(g, 0, leftmost, isTrueRoot, walk)
    ensures StrictlyIncreasing(LevelKeys(g, walk)) <==>
            forall i: nat, j: nat :: LiveBetween(g, walk, i, j) ==> InOrder(g, walk, i, j)
  {
    hide AcceptableWalk, InOrder, StrictlyIncreasing, PageOk, LiveBetween;
    forall i | 0 <= i < |walk|
      ensures walk[i] in g
    {
      LeafPageFacts(g, leftmost, isTrueRoot, walk, i);
    }
    KeysEnds(g, walk);
    if forall i: nat, j: nat :: LiveBetween(g, walk, i, j) ==> InOrder(g, walk, i, j) {
      PrefixIncreasing(g, leftmost, isTrueRoot, walk, |walk|);
    }
    if StrictlyIncreasing(LevelKeys(g, walk)) {
      forall i: nat, j: nat | LiveBetween(g, walk, i, j)
        ensures InOrder(g, walk, i, j)
      {
        IncreasingInOrder(g, walk, i, j);
      }
    }
  }

  const FIRST := Page(0, 2, 0, true, false, false, false, false, false, 0, [Item(9, 0), Item(7, 0)])
  const EMPTY := Page(1, 3, 0, true, false, false, false, false, false, 0, [Item(9, 0)])
  const LAST := Page(2, 0, 0, true, false, false, false, false, false, 0, [Item(5, 0)])
  const SWAPPED: Graph := map[1 := FIRST, 2 := EMPTY, 3 := LAST]

  lemma SwappedPagesOk()
    ensures PageOk(SWAPPED, FIRST) && PageOk(SWAPPED, EMPTY) && PageOk(SWAPPED, LAST)
  {
    hide BelowRight;
    assert SWAPPED[2] == EMPTY;
    assert RightRun(SWAPPED, FIRST, [2]) by { assert Readable(SWAPPED, [2][0]); }
    BelowRightIff(SWAPPED, FIRST, 7, [2]);
    assert BelowRight(SWAPPED, LAST, 5) by { LastBelowRight(); }
    assert forall off: nat :: Real(FIRST, off) ==> off == 2;
    assert forall off: nat :: !Real(EMPTY, off);
    assert forall off: nat :: Real(LAST, off) ==> off == 1;
  }

  lemma LastBelowRight()
    ensures BelowRight(SWAPPED, LAST, 5)
  {
  }

  lemma SwappedKeys()
    ensures LevelKeys(SWAPPED, [1, 2, 3]) == [7, 5]
  {
    assert KeysUpTo(FIRST, 2) == [] && KeysUpTo(FIRST, 3) == [7] && KeysUpTo(EMPTY, 2) == [];
    assert KeysUpTo(LAST, 1) == [] && KeysUpTo(LAST, 2) == [5];
    assert [1, 2, 3][..2] == [1, 2] && [1, 2][..1] == [1] && [1][..0] == [];
    assert LevelKeys(SWAPPED, []) == [] && LevelKeys(SWAPPED, [1]) == [7];
    assert LevelKeys(SWAPPED, [1, 2]) == [7] + [];
  }

  /** An empty page between two others hides that they are swapped. */
  lemma EmptyPageHidesDisorder()
    ensures AcceptableWalk(SWAPPED, 0, 1, false, [1, 2, 3]) && NoIgnorable(SWAPPED)
    ensures !StrictlyIncreasing(LevelKeys(SWAPPED, [1, 2, 3]))
  {
    hide PageOk;
    SwappedPagesOk();
    SwappedKeys();
    var g, walk := SWAPPED, [1, 2, 3];
    assert g[1] == FIRST && g[2] == EMPTY && g[3] == LAST;
    assert RightLink(g, walk, 1) && RightLink(g, walk, 2) && LeftLink(g, walk, 1) && LeftLink(g, walk, 2);
    assert LevelOk(g, 0, walk);
    LeafLevelExact(g, 1, false, walk);
    assert [7, 5][0] > [7, 5][1];
  }

  // ---------------------------------------------------------------------------

  /** The downlinks of an accepted level, read left to right, are exactly the pages that the walk
      over the level below visits. */
  lemma DownlinksAreTheChildLevel(g: Graph, level: nat, leftmost: nat, isTrueRoot: bool, walk: seq<nat>,
                                  below: seq<nat>)
    requires level > 0 && GoodLevel(g, level, leftmost, isTrueRoot, walk)
    requires GoodLevel(g, level - 1, AllDownlinks(g, walk)[0], false, below)
    ensures AllDownlinks(g, walk) == below
  {
    hide LevelOk, LevelChildrenOk;
    OneWalk(g, AllDownlinks(g, walk), below);
  }

  /** Each item of each child lies above its downlink's key and at most at the next separator,
      below it when the child is internal itself. */
  lemma ChildItemsWithinSeparators(g: Graph, level: nat, leftmost: nat, isTrueRoot: bool, walk: seq<nat>,
                                   i: nat, off: nat, o: nat)
    requires level > 0 && GoodLevel(g, level, leftmost, isTrueRoot, walk) && NoIgnorable(g) && i < |walk|
    requires FirstData(g[walk[i]]) <= off <= MaxOff(g[walk[i]])
    requires var c := ItemAt(g[walk[i]], off).downlink; c in g && PageOk(g, g[c]) && Real(g[c], o)
    ensures var t := g[walk[i]];
            var c := g[ItemAt(t, off).downlink];
            && (!NegInf(t, off) ==> KeyAt(t, off) < KeyAt(c, o))
            && (!Rightmost(c) ==> HasSeparator(t, off) && KeyAt(c, o) <= Separator(t, off))
            && (!Rightmost(c) && level > 1 ==> KeyAt(c, o) < Separator(t, off))
  {
    var t := g[walk[i]];
    assert ChildrenOk(g, t) && ChildOk(g, t, off);
    var c := g[ItemAt(t, off).downlink];
    assert ItemOk(g, c, o);
  }
}
