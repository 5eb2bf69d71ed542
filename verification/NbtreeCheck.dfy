/**
  The read-only verifier of amcheck for one level of a B-Tree: the walk over the level, the
  checks of each target page, and the lockstep walk over the children. The page graph is
  arbitrary. patience is how many pages a loop reads before the user interrupts it.
 */
module NbtreeCheck {
  import opened Common
  import opened NbtreePages
  import opened NbtreeRuns
  import opened NbtreeAccept

  datatype Outcome = Accepted | Corrupt | Interrupted

  class Checker {
    const g: Graph
    var prevRightLink: Option<nat>
    var prevIncompleteSplit: bool
    var lowKey: Option<int>

    constructor (g: Graph)
      ensures this.g == g
    {
      this.g := g;
      prevRightLink, prevIncompleteSplit, lowKey := None, false, None;
    }

    /** The state is that after matching this downlink. */
    ghost predicate At(last: nat)
      reads this
    {
      prevRightLink == FromOf(g, last) && prevIncompleteSplit == SplitOf(g, last)
    }

    /** bt_right_page_check_scankey. */
    method RightPageScankey(p: Page, patience: nat) returns (o: Outcome, key: Option<int>, ghost run: seq<nat>)
      ensures o.Accepted? && Rightmost(p) ==> key.None?
      ensures o.Accepted? && !Rightmost(p) ==> RightRun(g, p, run) && key == RightKey(g, run)
      ensures patience > |g| ==> (o.Accepted? <==> Rightmost(p) || exists r :: RightRun(g, p, r))
      ensures patience > 0 && NoIgnorable(g) ==> !o.Interrupted?
    {
      run := [];
      if Rightmost(p) { return Accepted, None, []; }
      var targetNext := p.next;
      for steps := 0 to patience
        invariant |run| == steps && PassedSoFar(g, p, run, targetNext)
        invariant NoIgnorable(g) ==> steps == 0
      {
        if r: seq<nat> :| RightRun(g, p, r) {
          PassedAgrees(g, p, run, targetNext, r);
        }
        if !Readable(g, targetNext) { return Corrupt, None, []; }
        var right := g[targetNext];
        if !Ignorable(right) || Rightmost(right) {
          return Accepted, FirstReal(right), run + [targetNext];
        }
        run := run + [targetNext];
        targetNext := right.next;
        LinkedSnoc(g, run, targetNext);
      }
      if r: seq<nat> :| RightRun(g, p, r) {
        PassedAgrees(g, p, run, targetNext, r);
      }
      return Interrupted, None, [];
    }

    /** bt_downlink_missing_check. */
    method DownlinkMissingCheck(rightsplit: bool, blkno: nat) returns (o: Outcome)
      requires Readable(g, blkno) && !Ignorable(g[blkno])
      ensures !o.Interrupted? && (o.Accepted? <==> MayLackDownlink(g, blkno, rightsplit))
    {
      var page := g[blkno];
      if page.isRoot || rightsplit { return Accepted; }
      if page.isLeaf { return Corrupt; }
      var level := page.level;
      var childBlk := ItemAt(page, FirstData(page)).downlink;
      while true
        invariant MayLackDownlink(g, blkno, rightsplit) <==> LeadsToDeletion(g, blkno, childBlk, level)
        decreases level
      {
        if !Readable(g, childBlk) { return Corrupt; }
        var child := g[childBlk];
        if child.isLeaf { break; }
        if child.level + 1 != level || MaxOff(child) < FirstData(child) { return Corrupt; }
        level := child.level;
        childBlk := ItemAt(child, FirstData(child)).downlink;
      }
      var leaf := g[childBlk];
      if leaf.deleted { return Corrupt; }
      if leaf.halfDead && !Rightmost(leaf) && leaf.topParent == blkno { return Accepted; }
      return Corrupt;
    }

    /** The comparison of a child's high key inside bt_child_highkey_check. */
    method HighKeyMatches(t: Page, off: nat, found: bool, page: Page) returns (same: bool)
      requires MaxOff(page) >= P_HIKEY
      ensures same <==> Boundary(t, if found then off + 1 else off, lowKey) == Some(KeyAt(page, P_HIKEY))
    {
      var pivot := if found then off + 1 else off;
      if NegInf(t, pivot) {
        return lowKey == Some(KeyAt(page, P_HIKEY));
      }
      if pivot > MaxOff(t) {
        if Rightmost(t) { return false; }
        pivot := P_HIKEY;
      }
      if pivot == 0 || pivot > MaxOff(t) { return false; }
      return KeyAt(page, P_HIKEY) == KeyAt(t, pivot);
    }

    /** The tests of bt_child_highkey_check on one block. split says that the block before it is
        split half way, first that no downlink of the level was matched before. */
    method CrossBlock(t: Page, off: nat, blkno: nat, split: bool, first: bool) returns (o: Outcome)
      requires off <= MaxOff(t) && blkno != P_NONE
      ensures !o.Interrupted? && (o.Accepted? ==> blkno in g)
      ensures o.Accepted? && blkno == DownlinkAt(t, off) ==>
                OnLevelBelow(g, t, blkno) && Closes(t, off + 1, lowKey, g[blkno])
      ensures o.Accepted? && blkno != DownlinkAt(t, off) ==> Passable(g, t, off, lowKey, blkno, split)
      ensures o.Accepted? && first ==> ReachesLeftEdge(g, blkno)
      ensures blkno == DownlinkAt(t, off) && OnLevelBelow(g, t, blkno) && Closes(t, off + 1, lowKey, g[blkno]) ==>
                (first ==> ReachesLeftEdge(g, blkno)) ==> o.Accepted?
      ensures blkno != DownlinkAt(t, off) && !first && Passable(g, t, off, lowKey, blkno, split) ==> o.Accepted?
    {
      var downlink := DownlinkAt(t, off);
      if !Readable(g, blkno) { return Corrupt; }
      var page := g[blkno];
      if first {
        var leftmost := IsLeftmost(g, blkno);
        if !leftmost { return Corrupt; }
      }
      if (!page.deleted || page.hasFullXid) && page.level + 1 != t.level { return Corrupt; }
      if blkno == page.prev { return Corrupt; }
      if blkno != downlink && !Ignorable(page) {
        var missing := DownlinkMissingCheck(split, blkno);
        if missing != Accepted { return missing; }
      }
      if !page.incompleteSplit && !Rightmost(page) {
        if MaxOff(page) < P_HIKEY { return Corrupt; }
        var same := HighKeyMatches(t, off, blkno == downlink, page);
        if !same { return Corrupt; }
      }
      return Accepted;
    }

    /** bt_child_highkey_check for the downlink at the given offset, or with offset 0 for the call
        that ends a level. */
    method ChildHighkeyCheck(t: Page, off: nat, patience: nat) returns (o: Outcome)
      requires off <= MaxOff(t)
      modifies this`prevRightLink, this`prevIncompleteSplit
      ensures o.Accepted? ==>
                && Reaches(g, t, off, lowKey, old(prevRightLink), old(prevIncompleteSplit))
                && At(DownlinkAt(t, off))
      ensures patience > |g| && Reaches(g, t, off, lowKey, old(prevRightLink), old(prevIncompleteSplit)) ==> o.Accepted?
      ensures patience > 0 && t.level > 0 && Straight(g, t.level) && !old(prevIncompleteSplit) ==> !o.Interrupted?
    {
      hide Passable, OnLevelBelow, Closes, ReachesLeftEdge, Reaches, Straight;
      var downlink := DownlinkAt(t, off);
      var blkno: nat := if prevRightLink.None? then downlink else prevRightLink.value;
      var rightsplit := prevRightLink.Some? && prevIncompleteSplit;
      ghost var passed: seq<nat> := [];
      ghost var from, split := prevRightLink, prevIncompleteSplit;
      ghost var reaches := Reaches(g, t, off, lowKey, from, split);
      for steps := 0 to patience
        invariant prevRightLink == from && prevIncompleteSplit == split && |passed| == steps
        invariant CrossedSoFar(g, t, off, lowKey, from, split, passed, blkno)
        invariant from.Some? ==> rightsplit == SplitBefore(g, split, passed + [blkno], steps)
        invariant from.None? ==> steps == 0
        invariant steps > 0 ==> from == Some(passed[0])
        invariant t.level > 0 && Straight(g, t.level) && !split ==> steps == 0
      {
        if reaches {
          CrossedExpects(g, t, off, lowKey, from, split, passed, blkno);
        }
        if blkno == P_NONE && downlink == P_NONE {
          CrossedEnds(g, t, off, lowKey, from, split, passed);
          prevRightLink, prevIncompleteSplit := None, false;
          return Accepted;
        }
        if blkno == P_NONE { return Corrupt; }
        if steps > 0 && prevRightLink == Some(blkno) { return Corrupt; }
        o := CrossBlock(t, off, blkno, rightsplit, steps == 0 && prevRightLink.None?);
        if o != Accepted { return; }
        var page := g[blkno];
        rightsplit := page.incompleteSplit;
        if blkno == downlink {
          CrossedEnds(g, t, off, lowKey, from, split, passed);
          prevRightLink, prevIncompleteSplit := Some(page.next), rightsplit;
          return Accepted;
        }
        StraightStops(g, t, off, lowKey, blkno);
        CrossedStep(g, t, off, lowKey, from, split, passed, blkno);
        passed := passed + [blkno];
        blkno := page.next;
      }
      if reaches {
        CrossedExpects(g, t, off, lowKey, from, split, passed, blkno);
      }
      return Interrupted;
    }

    /** bt_child_check: the downlink's key is below every real item of the child. */
    method ChildCheck(t: Page, off: nat, patience: nat) returns (o: Outcome)
      requires 1 <= off <= MaxOff(t)
      modifies this`prevRightLink, this`prevIncompleteSplit
      ensures o.Accepted? ==>
                && Reaches(g, t, off, lowKey, old(prevRightLink), old(prevIncompleteSplit)) && ChildFits(g, t, off)
                && At(ItemAt(t, off).downlink)
      ensures patience > |g| && Reaches(g, t, off, lowKey, old(prevRightLink), old(prevIncompleteSplit)) ==>
                ChildFits(g, t, off) ==> o.Accepted?
      ensures patience > 0 && t.level > 0 && Straight(g, t.level) && !old(prevIncompleteSplit) ==> !o.Interrupted?
    {
      hide Reaches, Straight;
      var childBlock := ItemAt(t, off).downlink;
      if !Readable(g, childBlock) { return Corrupt; }
      var child := g[childBlock];
      o := ChildHighkeyCheck(t, off, patience);
      if o != Accepted { return; }
      if child.deleted { return Corrupt; }
      var offset: nat := FirstData(child);
      while offset <= MaxOff(child)
        invariant FirstData(child) <= offset
        invariant forall k: nat :: Real(child, k) && k < offset ==> KeyAt(t, off) < KeyAt(child, k)
      {
        if !NegInf(child, offset) && !(KeyAt(t, off) < KeyAt(child, offset)) {
          assert Real(child, offset);
          return Corrupt;
        }
        offset := offset + 1;
      }
    }

    /** The checks of bt_target_page_check on one real item against its own level. */
    method ItemCheck(t: Page, off: nat, patience: nat) returns (o: Outcome)
      requires Sane(t) && !t.deleted && Real(t, off)
      ensures o.Accepted? ==> ItemOk(g, t, off)
      ensures patience > |g| && ItemOk(g, t, off) ==> o.Accepted?
      ensures patience > 0 && NoIgnorable(g) ==> !o.Interrupted?
    {
      if !Rightmost(t) {
        var bounded := if t.isLeaf then KeyAt(t, off) <= KeyAt(t, P_HIKEY) else KeyAt(t, off) < KeyAt(t, P_HIKEY);
        if !bounded { return Corrupt; }
      }
      if off + 1 <= MaxOff(t) {
        if !(KeyAt(t, off) < KeyAt(t, off + 1)) { return Corrupt; }
      } else {
        hide RightRun;
        var rightKey; ghost var run;
        o, rightKey, run := RightPageScankey(t, patience);
        BelowRightIff(g, t, KeyAt(t, off), run);
        if o != Accepted { return; }
        if rightKey.Some? && !(rightKey.value > KeyAt(t, off)) { return Corrupt; }
      }
      return Accepted;
    }

    /** The loop body of bt_target_page_check for one offset. last is the downlink matched before. */
    method OffsetCheck(t: Page, off: nat, patience: nat, ghost last: nat) returns (o: Outcome)
      requires Sane(t) && !t.deleted && FirstData(t) <= off <= MaxOff(t) && (!t.isLeaf ==> At(last))
      modifies this`prevRightLink, this`prevIncompleteSplit
      ensures o.Accepted? ==> OffsetOk(g, t, off, lowKey, last)
      ensures patience > |g| && OffsetOk(g, t, off, lowKey, last) ==> o.Accepted?
      ensures t.isLeaf ==> prevRightLink == old(prevRightLink) && prevIncompleteSplit == old(prevIncompleteSplit)
      ensures o.Accepted? && !t.isLeaf ==> At(ItemAt(t, off).downlink)
      ensures patience > 0 && Straight(g, t.level) ==> !o.Interrupted?
    {
      hide ItemOk, Reaches, ChildFits;
      StraightState(g, t, last);
      if NegInf(t, off) {
        o := ChildHighkeyCheck(t, off, patience);
      } else {
        o := ItemCheck(t, off, patience);
        if o == Accepted && !t.isLeaf {
          o := ChildCheck(t, off, patience);
        }
      }
    }

    /** bt_target_page_check. */
    method TargetPageCheck(t: Page, patience: nat, ghost last: nat) returns (o: Outcome)
      requires Sane(t) && !t.deleted && (!t.isLeaf ==> At(last))
      modifies this`prevRightLink, this`prevIncompleteSplit
      ensures o.Accepted? ==> PageOk(g, t) && (!t.isLeaf ==> PageFits(g, t, lowKey, last))
      ensures patience > |g| && PageOk(g, t) && (!t.isLeaf ==> PageFits(g, t, lowKey, last)) ==> o.Accepted?
      ensures t.isLeaf ==> prevRightLink == old(prevRightLink) && prevIncompleteSplit == old(prevIncompleteSplit)
      ensures o.Accepted? && !t.isLeaf && !Rightmost(t) ==> At(DownlinkBefore(t, MaxOff(t) + 1, last))
      ensures patience > 0 && Straight(g, t.level) ==> !o.Interrupted?
    {
      hide OffsetOk, Reaches, Straight;
      OffsetsOk(g, t, lowKey, last);
      o := Accepted;
      var off: nat := FirstData(t);
      while off <= MaxOff(t)
        invariant o == Accepted
        invariant FirstData(t) <= off && (off <= MaxOff(t) + 1 || off == FirstData(t))
        invariant forall k: nat :: FirstData(t) <= k < off ==> OffsetOk(g, t, k, lowKey, DownlinkBefore(t, k, last))
        invariant t.isLeaf ==> prevRightLink == old(prevRightLink) && prevIncompleteSplit == old(prevIncompleteSplit)
        invariant !t.isLeaf && off <= MaxOff(t) + 1 ==> At(DownlinkBefore(t, off, last))
      {
        o := OffsetCheck(t, off, patience, DownlinkBefore(t, off, last));
        if o != Accepted { return; }
        off := off + 1;
      }
      if !t.isLeaf && Rightmost(t) {
        ghost var l := DownlinkBefore(t, MaxOff(t) + 1, last);
        StraightState(g, t, l);
        o := ChildHighkeyCheck(t, 0, patience);
      }
    }

    /** One iteration of the walk in bt_check_level_from_leftmost, on the page at current. first
        says that no live page of the level was checked yet. */
    method VisitPage(current: nat, leftCurrent: nat, level: nat, first: bool, isTrueRoot: bool,
                     patience: nat, ghost last: nat) returns (o: Outcome)
      requires lowKey == LowKey(g, leftCurrent) && At(last)
      modifies this`prevRightLink, this`prevIncompleteSplit
      ensures o.Accepted? ==> Visited(g, current, leftCurrent, level, first, isTrueRoot, last)
      ensures patience > |g| && Visited(g, current, leftCurrent, level, first, isTrueRoot, last) ==> o.Accepted?
      ensures o.Accepted? && !Rightmost(g[current]) ==> At(LastOf(g, current, last))
      ensures patience > 0 && Straight(g, level) ==> !o.Interrupted?
    {
      hide PageOk, PageFits, Straight;
      if !Readable(g, current) { return Corrupt; }
      var page := g[current];
      if Ignorable(page) {
        if page.deleted || Rightmost(page) { return Corrupt; }
      } else {
        if first {
          var leftmost := IsLeftmost(g, current);
          if !leftmost { return Corrupt; }
          if isTrueRoot && !page.isRoot { return Corrupt; }
        }
        if page.prev != leftCurrent && leftCurrent != P_NONE { return Corrupt; }
        if level != page.level { return Corrupt; }
        o := TargetPageCheck(page, patience, last);
        if o != Accepted { return; }
      }
      if current == leftCurrent || current == page.prev { return Corrupt; }
      return Accepted;
    }

    /** bt_check_level_from_leftmost. What it hands down is the first child of the first live page,
        or P_NONE on the leaf level. */
    method CheckLevel(level: nat, leftmost: nat, isTrueRoot: bool, patience: nat)
      returns (o: Outcome, nextDown: Option<nat>, ghost walk: seq<nat>)
      requires leftmost != P_NONE
      modifies this
      ensures o.Accepted? ==> AcceptableWalk(g, level, leftmost, isTrueRoot, walk) && nextDown == NextDown(g, walk)
      ensures o.Accepted? && level == 0 ==> nextDown.None? || nextDown == Some(P_NONE)
      ensures patience > |g| ==> (o.Accepted? <==> Acceptable(g, level, leftmost, isTrueRoot))
      ensures patience > |g| && Straight(g, level) ==> !o.Interrupted?
    {
      hide AcceptableWalk, Acceptable, Visited, WalkSoFar, Down, Straight, LowKey, LastOf, Readable, FromOf, SplitOf;
      prevRightLink, prevIncompleteSplit, lowKey := None, false, None;
      nextDown, walk := None, [];
      var leftCurrent, current: nat := P_NONE, leftmost;
      ghost var good := Acceptable(g, level, leftmost, isTrueRoot);
      WalkBegins(g, level, leftmost, isTrueRoot);
      assert At(P_NONE) && lowKey == LowKey(g, P_NONE) by { NothingBehind(g); }
      for steps := 0 to patience
        invariant |walk| == steps && current != P_NONE
        invariant WalkSoFar(g, level, leftmost, isTrueRoot, walk, current)
        invariant leftCurrent == BlockBefore(walk, |walk|) && lowKey == LowKey(g, leftCurrent)
        invariant At(LastDownlink(g, walk, |walk|)) && nextDown == NextDown(g, walk)
        invariant nextDown.None? <==> LastLive(g, walk, |walk|) == P_NONE
      {
        if good { WalkExpects(g, level, leftmost, isTrueRoot, walk, current); }
        ghost var last := LastDownlink(g, walk, |walk|);
        o := VisitPage(current, leftCurrent, level, nextDown.None?, isTrueRoot, patience, last);
        if o != Accepted { return; }
        VisitReads(g, current, leftCurrent, level, nextDown.None?, isTrueRoot, last);
        var page := g[current];
        LeavesBehind(g, current);
        if !Ignorable(page) && nextDown.None? {
          nextDown := Some(if page.isLeaf then P_NONE else ItemAt(page, FirstData(page)).downlink);
        }
        WalkStep(g, level, leftmost, isTrueRoot, walk, current);
        NextDownSnoc(g, walk, current);
        walk := walk + [current];
        leftCurrent, current := current, page.next;
        lowKey := if Rightmost(page) then None else Some(KeyAt(page, P_HIKEY));
        WalkHandsDown(g, level, leftmost, isTrueRoot, walk, current);
        if current == P_NONE {
          WalkEnds(g, level, leftmost, isTrueRoot, walk);
          AcceptableExists(g, level, leftmost, isTrueRoot, walk);
          return;
        }
      }
      if good { WalkExpects(g, level, leftmost, isTrueRoot, walk, current); }
      StraightBound(g, level, leftmost, isTrueRoot, walk, current);
      o := Interrupted;
    }
  }
}
