/**
  The whole B-Tree: what the verifier accepts from the root down, and when that is a sound tree,
  one whose every level is sound and whose downlinks are the pages of the next level.
 */
module NbtreeTree {
  import opened Common
  import opened NbtreePages
  import opened NbtreeRuns
  import opened NbtreeAccept
  import opened NbtreeLevels
  import opened NbtreeSound
  import opened NbtreeOrder
  import opened NbtreeCheck

  // ---------------------------------------------------------------------------
  // What is accepted.

  /** The leftmost page of the level after n walks. */
  ghost function LeftmostAt(g: Graph, root: nat, walks: seq<seq<nat>>, n: nat): nat
    requires n <= |walks|
  {
    if n == 0 then root
    else
      var d := NextDown(g, walks[n - 1]);
      if d.Some? then d.value else P_NONE
  }

  ghost predicate AcceptableAt(g: Graph, root: nat, rootLevel: nat, walks: seq<seq<nat>>, i: nat)
    requires i < |walks| && i <= rootLevel
  {
    AcceptableWalk(g, rootLevel - i, LeftmostAt(g, root, walks, i), i == 0, walks[i])
  }

  /** Acceptable levels from the root down, one for each walk. */
  ghost predicate AcceptableDown(g: Graph, root: nat, rootLevel: nat, walks: seq<seq<nat>>) {
    |walks| <= rootLevel + 1 && forall i :: 0 <= i < |walks| ==> AcceptableAt(g, root, rootLevel, walks, i)
  }

  /** They end where nothing is handed down. */
  ghost predicate AcceptableTree(g: Graph, root: nat, rootLevel: nat, walks: seq<seq<nat>>) {
    AcceptableDown(g, root, rootLevel, walks) && LeftmostAt(g, root, walks, |walks|) == P_NONE
  }

  ghost predicate IsAcceptableTree(g: Graph, root: nat, rootLevel: nat) {
    exists walks :: AcceptableTree(g, root, rootLevel, walks)
  }

  ghost predicate StraightTree(g: Graph, rootLevel: nat) {
    forall level: nat :: level <= rootLevel ==> Straight(g, level)
  }

  /** An accepted level reads its leftmost page, and hands something down. */
  lemma AcceptableHandsDown(g: Graph, level: nat, leftmost: nat, isTrueRoot: bool, walk: seq<nat>)
    requires AcceptableWalk(g, level, leftmost, isTrueRoot, walk)
    ensures leftmost != P_NONE && NextDown(g, walk).Some? && (level == 0 ==> NextDown(g, walk) == Some(P_NONE))
  {
    hide PageOk, PageFits;
    NextDownFacts(g, level, isTrueRoot, walk);
    assert VisitedAt(g, level, isTrueRoot, walk, 0) && VisitedAt(g, level, isTrueRoot, walk, |walk| - 1);
  }

  /** Right links leave no choice, half-dead pages or not. */
  lemma AcceptableUnique(g: Graph, level: nat, leftmost: nat, isTrueRoot: bool, a: seq<nat>, b: seq<nat>)
    requires AcceptableWalk(g, level, leftmost, isTrueRoot, a) && AcceptableWalk(g, level, leftmost, isTrueRoot, b)
    ensures a == b
  {
    AcceptableWithin(g, level, leftmost, isTrueRoot, a, b);
    AcceptableWithin(g, level, leftmost, isTrueRoot, b, a);
  }

  lemma AcceptableWithin(g: Graph, level: nat, leftmost: nat, isTrueRoot: bool, a: seq<nat>, b: seq<nat>)
    requires AcceptableWalk(g, level, leftmost, isTrueRoot, a) && AcceptableWalk(g, level, leftmost, isTrueRoot, b)
    ensures a <= b
  {
    hide PageOk, PageFits;
    var n := |a| - 1;
    forall i | 0 <= i < n
      ensures a[i] != b[|b| - 1]
    {
      assert RightLink(g, a, i + 1) && VisitedAt(g, level, isTrueRoot, a, i + 1);
    }
    assert a[..n] + [a[n]] == a;
    StillOn(g, a[..n], a[n], b);
    assert b[..n + 1] == b[..n] + [b[n]];
  }

  lemma AcceptableSnoc(g: Graph, root: nat, rootLevel: nat, walks: seq<seq<nat>>, walk: seq<nat>)
    requires AcceptableDown(g, root, rootLevel, walks) && |walks| <= rootLevel
    requires AcceptableWalk(g, rootLevel - |walks|, LeftmostAt(g, root, walks, |walks|), walks == [], walk)
    ensures AcceptableDown(g, root, rootLevel, walks + [walk])
    ensures NextDown(g, walk).Some? && LeftmostAt(g, root, walks + [walk], |walks| + 1) == NextDown(g, walk).value
  {
    hide AcceptableWalk;
    var all, n := walks + [walk], |walks|;
    AcceptableHandsDown(g, rootLevel - n, LeftmostAt(g, root, walks, n), walks == [], walk);
    forall i | 0 <= i < |all|
      ensures AcceptableAt(g, root, rootLevel, all, i)
    {
      assert i > 0 ==> all[i - 1] == walks[i - 1];
      if i < n {
        assert AcceptableAt(g, root, rootLevel, walks, i);
      }
    }
  }

  lemma {:induction false} DownAgrees(g: Graph, root: nat, rootLevel: nat, a: seq<seq<nat>>, b: seq<seq<nat>>, n: nat)
    requires AcceptableDown(g, root, rootLevel, a) && AcceptableDown(g, root, rootLevel, b) && n <= |a| && n <= |b|
    ensures a[..n] == b[..n]
  {
    hide AcceptableWalk;
    if n > 0 {
      DownAgrees(g, root, rootLevel, a, b, n - 1);
      assert n > 1 ==> a[n - 2] == a[..n - 1][n - 2] == b[..n - 1][n - 2] == b[n - 2];
      assert AcceptableAt(g, root, rootLevel, a, n - 1) && AcceptableAt(g, root, rootLevel, b, n - 1);
      AcceptableUnique(g, rootLevel - (n - 1), LeftmostAt(g, root, a, n - 1), n == 1, a[n - 1], b[n - 1]);
      assert a[..n] == a[..n - 1] + [a[n - 1]] && b[..n] == b[..n - 1] + [b[n - 1]];
    }
  }

  /** In an acceptable tree the level to be checked next is acceptable. */
  lemma ExpectLevel(g: Graph, root: nat, rootLevel: nat, walks: seq<seq<nat>>)
    requires AcceptableDown(g, root, rootLevel, walks) && LeftmostAt(g, root, walks, |walks|) != P_NONE
    requires IsAcceptableTree(g, root, rootLevel)
    ensures |walks| <= rootLevel
    ensures Acceptable(g, rootLevel - |walks|, LeftmostAt(g, root, walks, |walks|), walks == [])
  {
    hide AcceptableWalk;
    var good :| AcceptableTree(g, root, rootLevel, good);
    var n := |walks|;
    if |good| <= n {
      DownAgrees(g, root, rootLevel, walks, good, |good|);
      assert |good| > 0 ==> walks[|good| - 1] == walks[..|good|][|good| - 1] == good[|good| - 1];
      StopsThere(g, root, rootLevel, walks, |good|);
    } else {
      DownAgrees(g, root, rootLevel, walks, good, n);
      assert n > 0 ==> walks[n - 1] == walks[..n][n - 1] == good[..n][n - 1] == good[n - 1];
      assert AcceptableAt(g, root, rootLevel, good, n);
    }
  }

  /** Levels go on only where something was handed down. */
  lemma StopsThere(g: Graph, root: nat, rootLevel: nat, walks: seq<seq<nat>>, n: nat)
    requires AcceptableDown(g, root, rootLevel, walks) && n <= |walks| && LeftmostAt(g, root, walks, n) == P_NONE
    ensures n == |walks|
  {
    hide AcceptableWalk;
    if n < |walks| {
      assert AcceptableAt(g, root, rootLevel, walks, n);
      AcceptableHandsDown(g, rootLevel - n, LeftmostAt(g, root, walks, n), n == 0, walks[n]);
      assert false;
    }
  }

  /** So the walks of an acceptable tree are determined. */
  lemma TreeUnique(g: Graph, root: nat, rootLevel: nat, a: seq<seq<nat>>, b: seq<seq<nat>>)
    requires AcceptableTree(g, root, rootLevel, a) && AcceptableTree(g, root, rootLevel, b)
    ensures a == b
  {
    hide AcceptableAt;
    var n := if |a| <= |b| then |a| else |b|;
    DownAgrees(g, root, rootLevel, a, b, n);
    assert n > 0 ==> a[n - 1] == a[..n][n - 1] == b[..n][n - 1] == b[n - 1];
    StopsThere(g, root, rootLevel, a, n);
    StopsThere(g, root, rootLevel, b, n);
  }

  /** The loop of bt_check_every_level, from the root that the metapage names. It accepts exactly
      the acceptable trees. */
  method CheckEveryLevel(c: Checker, root: nat, rootLevel: nat, patience: nat)
    returns (o: Outcome, ghost walks: seq<seq<nat>>)
    modifies c
    ensures o.Accepted? ==> AcceptableTree(c.g, root, rootLevel, walks)
    ensures patience > |c.g| ==> (o.Accepted? <==> IsAcceptableTree(c.g, root, rootLevel))
    ensures patience > |c.g| && StraightTree(c.g, rootLevel) ==> !o.Interrupted?
  {
    hide AcceptableWalk, Acceptable, AcceptableDown, Straight, LeftmostAt;
    var level: int, leftmost, isTrueRoot := rootLevel, root, true;
    walks := [];
    NothingDown(c.g, root, rootLevel);
    while leftmost != P_NONE
      invariant AcceptableDown(c.g, root, rootLevel, walks) && leftmost == LeftmostAt(c.g, root, walks, |walks|)
      invariant isTrueRoot <==> walks == []
      invariant leftmost != P_NONE ==> 0 <= level == rootLevel - |walks|
      decreases leftmost != P_NONE, level
    {
      if IsAcceptableTree(c.g, root, rootLevel) {
        ExpectLevel(c.g, root, rootLevel, walks);
      }
      var next; ghost var walk;
      o, next, walk := c.CheckLevel(level, leftmost, isTrueRoot, patience);
      if o != Accepted {
        return;
      }
      AcceptableSnoc(c.g, root, rootLevel, walks, walk);
      if next.None? {
        return Corrupt, walks;
      }
      walks := walks + [walk];
      leftmost, isTrueRoot := next.value, false;
      level := level - 1;
    }
    o := Accepted;
  }

  lemma NothingDown(g: Graph, root: nat, rootLevel: nat)
    ensures AcceptableDown(g, root, rootLevel, []) && LeftmostAt(g, root, [], 0) == root
  {
  }

  // ---------------------------------------------------------------------------
  // Sound trees.

  /** The i-th walk covers a sound level, and it is what the walk above it links down to. */
  ghost predicate SoundAt(g: Graph, rootLevel: nat, walks: seq<seq<nat>>, i: nat)
    requires i < |walks| && i <= rootLevel
  {
    && walks[i] != [] && GoodLevel(g, rootLevel - i, walks[i][0], i == 0, walks[i])
    && (i > 0 ==> walks[i] == AllDownlinks(g, walks[i - 1]))
  }

  /** One walk for every level from the root to the leaves. */
  ghost predicate SoundTree(g: Graph, root: nat, rootLevel: nat, walks: seq<seq<nat>>) {
    && |walks| == rootLevel + 1 && walks[0] != [] && walks[0][0] == root
    && forall i :: 0 <= i < |walks| ==> SoundAt(g, rootLevel, walks, i)
  }

  /** The walk and the chain below it hide nothing: no page lacks its first downlink, and no page
      below has escaped the search for a missing downlink by its root flag. */
  ghost predicate NothingHidden(g: Graph, walk: seq<nat>) {
    NoneMissing(g, walk) && RootsLinked(g, AllDownlinks(g, walk))
  }

  /** What is handed down is the first live page's first downlink. */
  lemma {:induction false} FirstDown(g: Graph, walk: seq<nat>)
    requires walk != [] && walk[0] in g && !Ignorable(g[walk[0]])
    ensures NextDown(g, walk) == Some(Down(g[walk[0]]))
  {
    if |walk| == 1 {
      assert walk[..0] == [];
    } else {
      FirstDown(g, walk[..|walk| - 1]);
    }
  }

  /** So it is the first downlink of the level. */
  lemma FirstOfLevel(g: Graph, walk: seq<nat>)
    requires walk != [] && walk[0] in g && !Ignorable(g[walk[0]]) && Down(g[walk[0]]) != P_NONE
    ensures AllDownlinks(g, walk) != [] && NextDown(g, walk) == Some(AllDownlinks(g, walk)[0])
    ensures AllDownlinks(g, walk)[0] != P_NONE
  {
    var p := g[walk[0]];
    FirstDown(g, walk);
    FirstDownlink(p, FirstData(p) + 1);
    DownlinksToPrefix(g, walk, 0, FirstData(p) + 1);
    var some, all := DownlinksTo(g, walk, 0, FirstData(p) + 1), AllDownlinks(g, walk);
    assert walk[..0] == [] && some[0] == all[0];
  }

  /** Nothing hidden makes an acceptable level sound, with something below an internal one. */
  lemma LevelSound(g: Graph, root: nat, rootLevel: nat, walks: seq<seq<nat>>, i: nat)
    requires AcceptableDown(g, root, rootLevel, walks) && i < |walks| && NoIgnorable(g) && NoIncompleteSplit(g)
    requires i < rootLevel ==> NothingHidden(g, walks[i])
    ensures walks[i] != [] && LeftmostAt(g, root, walks, i) == walks[i][0]
    ensures GoodLevel(g, rootLevel - i, walks[i][0], i == 0, walks[i])
    ensures i < rootLevel ==> AllDownlinks(g, walks[i]) != [] &&
                              LeftmostAt(g, root, walks, i + 1) == AllDownlinks(g, walks[i])[0] != P_NONE
  {
    hide PageOk, PageFits, GoodLevel;
    assert AcceptableAt(g, root, rootLevel, walks, i);
    var level, leftmost, walk := rootLevel - i, LeftmostAt(g, root, walks, i), walks[i];
    assert VisitedAt(g, level, i == 0, walk, 0);
    if level == 0 {
      LeafLevelExact(g, leftmost, i == 0, walk);
    } else {
      hide AcceptableWalk;
      GoodIffLinked(g, level, leftmost, i == 0, walk);
      GoodIsInternal(g, level, leftmost, i == 0, walk);
      FirstOfLevel(g, walk);
    }
  }

  lemma SoundAtAcceptable(g: Graph, root: nat, rootLevel: nat, walks: seq<seq<nat>>, i: nat)
    requires SoundTree(g, root, rootLevel, walks) && NoIgnorable(g) && i <= rootLevel
    ensures AcceptableAt(g, root, rootLevel, walks, i) && LeftmostAt(g, root, walks, i) != P_NONE
    ensures i == rootLevel ==> NextDown(g, walks[i]) == Some(P_NONE)
  {
    hide GoodLevel, AcceptableWalk, NothingHidden;
    assert SoundAt(g, rootLevel, walks, i);
    var level, walk := rootLevel - i, walks[i];
    GoodIsAcceptable(g, level, walk[0], i == 0, walk);
    AcceptableHandsDown(g, level, walk[0], i == 0, walk);
    if i > 0 {
      assert SoundAt(g, rootLevel, walks, i - 1);
      SoundHandsDown(g, level + 1, i == 1, walks[i - 1]);
    }
  }

  lemma SoundIsAcceptable(g: Graph, root: nat, rootLevel: nat, walks: seq<seq<nat>>)
    requires SoundTree(g, root, rootLevel, walks) && NoIgnorable(g)
    ensures root != P_NONE && AcceptableTree(g, root, rootLevel, walks)
  {
    hide SoundAt, AcceptableAt;
    forall i | 0 <= i < |walks|
      ensures AcceptableAt(g, root, rootLevel, walks, i)
    {
      SoundAtAcceptable(g, root, rootLevel, walks, i);
    }
    SoundAtAcceptable(g, root, rootLevel, walks, 0);
    SoundAtAcceptable(g, root, rootLevel, walks, rootLevel);
  }

  lemma SoundHandsDown(g: Graph, level: nat, isTrueRoot: bool, walk: seq<nat>)
    requires walk != [] && GoodLevel(g, level, walk[0], isTrueRoot, walk) && level > 0 && NoIgnorable(g)
    ensures NothingHidden(g, walk)
    ensures AllDownlinks(g, walk) != [] && NextDown(g, walk) == Some(AllDownlinks(g, walk)[0])
  {
    hide GoodLevel, PageOk;
    GoodIsInternal(g, level, walk[0], isTrueRoot, walk);
    GoodIsLinked(g, level, walk[0], isTrueRoot, walk);
    assert Readable(g, walk[0]);
    FirstOfLevel(g, walk);
  }

  /** With no half-dead or deleted page and no incomplete split, the levels of an accepted tree are
      all sound, down to the leaves and each the downlinks of the one above, exactly when no level
      hides anything from the check. */
  lemma TreeSoundIff(g: Graph, root: nat, rootLevel: nat, walks: seq<seq<nat>>)
    requires AcceptableTree(g, root, rootLevel, walks) && root != P_NONE
    requires NoIgnorable(g) && NoIncompleteSplit(g)
    ensures SoundTree(g, root, rootLevel, walks) <==>
            forall i :: 0 <= i < |walks| && i < rootLevel ==> NothingHidden(g, walks[i])
  {
    hide GoodLevel, NothingHidden, AcceptableAt, NoIgnorable, NoIncompleteSplit;
    if SoundTree(g, root, rootLevel, walks) {
      forall i | 0 <= i < |walks| && i < rootLevel
        ensures NothingHidden(g, walks[i])
      {
        assert SoundAt(g, rootLevel, walks, i);
        SoundHandsDown(g, rootLevel - i, i == 0, walks[i]);
      }
    }
    if forall i :: 0 <= i < |walks| && i < rootLevel ==> NothingHidden(g, walks[i]) {
      NothingHiddenIsSound(g, root, rootLevel, walks);
    }
  }

  lemma NothingHiddenIsSound(g: Graph, root: nat, rootLevel: nat, walks: seq<seq<nat>>)
    requires AcceptableTree(g, root, rootLevel, walks) && root != P_NONE
    requires NoIgnorable(g) && NoIncompleteSplit(g)
    requires forall i :: 0 <= i < |walks| && i < rootLevel ==> NothingHidden(g, walks[i])
    ensures SoundTree(g, root, rootLevel, walks)
  {
    hide GoodLevel, NothingHidden, AcceptableAt, NoIgnorable, NoIncompleteSplit, LeftmostAt;
    NothingDown(g, root, rootLevel);
    LeftmostFirst(g, root, walks);
    LevelSound(g, root, rootLevel, walks, |walks| - 1);
    forall i | 0 <= i < |walks|
      ensures SoundAt(g, rootLevel, walks, i)
    {
      LevelSound(g, root, rootLevel, walks, i);
      if i > 0 {
        LevelSound(g, root, rootLevel, walks, i - 1);
        DownlinksAreTheChildLevel(g, rootLevel - i + 1, walks[i - 1][0], i == 1, walks[i - 1], walks[i]);
      }
    }
    LevelSound(g, root, rootLevel, walks, 0);
  }

  lemma LeftmostFirst(g: Graph, root: nat, walks: seq<seq<nat>>)
    ensures LeftmostAt(g, root, walks, 0) == root
  {
  }

  /** On any graph: the leaf items of an accepted tree that has leaves are one strictly increasing
      sequence exactly when live leaves with items that have only leaves without items, and a live
      one among them, between them are in order. */
  lemma AcceptedTreeIsSorted(g: Graph, root: nat, rootLevel: nat, walks: seq<seq<nat>>)
    requires AcceptableTree(g, root, rootLevel, walks) && |walks| == rootLevel + 1
    ensures var leaves := walks[rootLevel];
            StrictlyIncreasing(LevelKeys(g, leaves)) <==>
            forall i: nat, j: nat :: LiveBetween(g, leaves, i, j) ==> InOrder(g, leaves, i, j)
  {
    hide AcceptableWalk, InOrder, StrictlyIncreasing, LiveBetween;
    assert AcceptableAt(g, root, rootLevel, walks, rootLevel);
    LeafLevelIncreasingIff(g, LeftmostAt(g, root, walks, rootLevel), rootLevel == 0, walks[rootLevel]);
  }

  /** So are those of a sound tree, read through the downlinks from the root. */
  lemma SoundTreeIsSorted(g: Graph, root: nat, rootLevel: nat, walks: seq<seq<nat>>)
    requires SoundTree(g, root, rootLevel, walks) && NoIgnorable(g)
    ensures var leaves := walks[rootLevel];
            StrictlyIncreasing(LevelKeys(g, leaves)) <==>
            forall i: nat, j: nat :: LiveBetween(g, leaves, i, j) ==> InOrder(g, leaves, i, j)
    ensures rootLevel > 0 ==> walks[rootLevel] == AllDownlinks(g, walks[rootLevel - 1])
  {
    hide GoodLevel, InOrder, StrictlyIncreasing, NoIgnorable, LiveBetween;
    assert SoundAt(g, rootLevel, walks, rootLevel);
    SoundIsAcceptable(g, root, rootLevel, walks);
    AcceptedTreeIsSorted(g, root, rootLevel, walks);
  }
}
