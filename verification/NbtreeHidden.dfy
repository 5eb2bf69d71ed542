/**
  Two accepted trees that are not sound, one for each way in which a level can hide something:
  a first downlink that is missing, and a root flag below the root.
 */
module NbtreeHidden {
  import opened Common
  import opened NbtreePages
  import opened NbtreeRuns
  import opened NbtreeAccept
  import opened NbtreeLevels
  import opened NbtreeSound
  import opened NbtreeTree

  // ---------------------------------------------------------------------------
  // A root without children.

  const STUMP_ROOT := Page(0, 0, 1, false, true, false, false, false, false, 0, [Item(0, P_NONE)])
  const STUMP: Graph := map[1 := STUMP_ROOT]

  lemma StumpFits()
    ensures PageOk(STUMP, STUMP_ROOT) && PageFits(STUMP, STUMP_ROOT, None, P_NONE)
  {
    var g, t := STUMP, STUMP_ROOT;
    assert Crossed(g, t, 1, None, None, false, [P_NONE]);
    assert Crossed(g, t, 0, None, None, false, [P_NONE]);
    assert Reaches(g, t, 1, None, None, false) && Reaches(g, t, 0, None, None, false);
    assert FromOf(g, P_NONE) == None && !SplitOf(g, P_NONE);
  }

  lemma StumpWalk()
    ensures AcceptableWalk(STUMP, 1, 1, true, [1]) && NextDown(STUMP, [1]) == Some(P_NONE)
  {
    hide PageOk, PageFits;
    StumpFits();
    assert STUMP[1] == STUMP_ROOT;
    LeftEdgeWithoutHalfDead(STUMP, 1);
    assert VisitedAt(STUMP, 1, true, [1], 0);
    FirstDown(STUMP, [1]);
  }

  /** A tree of one internal page is accepted, although it has no leaves. */
  lemma MissingDownlinkHidesLeaves()
    ensures AcceptableTree(STUMP, 1, 1, [[1]]) && NoIgnorable(STUMP) && NoIncompleteSplit(STUMP)
    ensures forall walks :: !SoundTree(STUMP, 1, 1, walks)
  {
    hide AcceptableWalk, GoodLevel;
    StumpWalk();
    var walks := [[1]];
    assert AcceptableAt(STUMP, 1, 1, walks, 0);
    forall other
      ensures !SoundTree(STUMP, 1, 1, other)
    {
      if SoundTree(STUMP, 1, 1, other) {
        SoundIsAcceptable(STUMP, 1, 1, other);
        TreeUnique(STUMP, 1, 1, other, walks);
      }
    }
  }

  // ---------------------------------------------------------------------------
  // A leaf without downlink that carries a root flag.

  const TOP := Page(0, 0, 1, false, true, false, false, false, false, 0, [Item(0, 2), Item(5, 4)])
  const LEFT := Page(0, 3, 0, true, false, false, false, false, false, 0, [Item(5, 0), Item(1, 0)])
  const FLAGGED := Page(2, 4, 0, true, true, false, false, false, false, 0, [Item(5, 0), Item(3, 0)])
  const RIGHT := Page(3, 0, 0, true, false, false, false, false, false, 0, [Item(6, 0)])
  const FORGED: Graph := map[1 := TOP, 2 := LEFT, 3 := FLAGGED, 4 := RIGHT]

  lemma ForgedPages()
    ensures FORGED[1] == TOP && FORGED[2] == LEFT && FORGED[3] == FLAGGED && FORGED[4] == RIGHT
    ensures NoIgnorable(FORGED) && NoIncompleteSplit(FORGED)
    ensures Readable(FORGED, 1) && Readable(FORGED, 2) && Readable(FORGED, 3) && Readable(FORGED, 4)
  {
  }

  lemma ForgedLeavesOk()
    ensures PageOk(FORGED, LEFT) && PageOk(FORGED, FLAGGED) && PageOk(FORGED, RIGHT)
  {
    hide BelowRight, Readable;
    ForgedPages();
    assert RightRun(FORGED, LEFT, [3]);
    assert RightRun(FORGED, FLAGGED, [4]);
    BelowRightIff(FORGED, LEFT, 1, [3]);
    BelowRightIff(FORGED, FLAGGED, 3, [4]);
    assert BelowRight(FORGED, RIGHT, 6) by { RightBelowRight(); }
    assert forall off: nat :: Real(LEFT, off) ==> off == 2;
    assert forall off: nat :: Real(FLAGGED, off) ==> off == 2;
    assert forall off: nat :: Real(RIGHT, off) ==> off == 1;
  }

  lemma RightBelowRight()
    ensures BelowRight(FORGED, RIGHT, 6)
  {
  }

  lemma ForgedTopOk()
    ensures PageOk(FORGED, TOP)
  {
    assert forall off: nat :: Real(TOP, off) ==> off == 2;
  }

  /** The way from the first downlink to the second crosses the flagged leaf. */
  lemma ForgedCrossed()
    ensures Reaches(FORGED, TOP, 1, None, None, false)
    ensures Reaches(FORGED, TOP, 2, None, Some(3), false)
    ensures Reaches(FORGED, TOP, 0, None, Some(P_NONE), false)
  {
    hide Readable;
    ForgedPages();
    var g, t := FORGED, TOP;
    LeftEdgeWithoutHalfDead(g, 2);
    assert Crossed(g, t, 1, None, None, false, [2]);
    assert CrossedAt(g, t, 2, None, false, [3, 4], 0);
    assert RightLink(g, [3, 4], 1);
    assert Crossed(g, t, 2, None, Some(3), false, [3, 4]);
    assert Crossed(g, t, 0, None, Some(P_NONE), false, [P_NONE]);
  }

  lemma ForgedTopFits()
    ensures PageFits(FORGED, TOP, None, P_NONE)
  {
    hide Reaches, Readable;
    ForgedPages();
    ForgedCrossed();
    var g, t := FORGED, TOP;
    assert FromOf(g, 2) == Some(3) && FromOf(g, 4) == Some(P_NONE) && FromOf(g, P_NONE) == None;
    assert !SplitOf(g, 2) && !SplitOf(g, 4) && !SplitOf(g, P_NONE);
    assert forall off: nat :: Real(RIGHT, off) ==> off == 1;
    assert ChildFits(g, t, 2);
  }

  lemma ForgedWalks()
    ensures AcceptableWalk(FORGED, 1, 1, true, [1]) && NextDown(FORGED, [1]) == Some(2)
    ensures AcceptableWalk(FORGED, 0, 2, false, [2, 3, 4]) && NextDown(FORGED, [2, 3, 4]) == Some(P_NONE)
  {
    hide PageOk, PageFits, Readable;
    ForgedPages();
    ForgedTopOk();
    ForgedTopFits();
    var g, leaves := FORGED, [2, 3, 4];
    LeftEdgeWithoutHalfDead(g, 1);
    assert VisitedAt(g, 1, true, [1], 0);
    ForgedLeavesOk();
    assert RightLink(g, leaves, 1) && RightLink(g, leaves, 2) && LeftLink(g, leaves, 1) && LeftLink(g, leaves, 2);
    assert GoodLevel(g, 0, 2, false, leaves);
    LeafLevelExact(g, 2, false, leaves);
    FirstDown(g, [1]);
    FirstDown(g, leaves);
  }

  /** A leaf with a root flag is reached by no downlink, and the tree is accepted. */
  lemma RootFlagHidesLeaf()
    ensures AcceptableTree(FORGED, 1, 1, [[1], [2, 3, 4]]) && NoIgnorable(FORGED) && NoIncompleteSplit(FORGED)
    ensures AllDownlinks(FORGED, [1]) == [2, 4]
    ensures forall walks :: !SoundTree(FORGED, 1, 1, walks)
  {
    hide AcceptableWalk, GoodLevel;
    ForgedPages();
    ForgedWalks();
    var walks := [[1], [2, 3, 4]];
    assert AcceptableAt(FORGED, 1, 1, walks, 0) && AcceptableAt(FORGED, 1, 1, walks, 1);
    ForgedDownlinks();
    assert !SoundAt(FORGED, 1, walks, 1);
    forall other
      ensures !SoundTree(FORGED, 1, 1, other)
    {
      if SoundTree(FORGED, 1, 1, other) {
        SoundIsAcceptable(FORGED, 1, 1, other);
        TreeUnique(FORGED, 1, 1, other, walks);
      }
    }
  }

  lemma ForgedDownlinks()
    ensures AllDownlinks(FORGED, [1]) == [2, 4]
  {
    assert Downlinks(TOP, 1) == [] && Downlinks(TOP, 2) == [2] && Downlinks(TOP, 3) == [2, 4];
    assert [1][..0] == [] && AllDownlinks(FORGED, []) == [];
  }
}
