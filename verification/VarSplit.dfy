/**
  gbt_var_picksplit: splitting a page of bytea entries. Both halves are cut at one shared
  length, the larger of the two common prefixes. For exact leaf entries that is harmless; for
  entries that were themselves cut it can lose rows, and the exact condition is given.
 */
module VarSplit {
  import opened Common
  import opened ByteOrder
  import opened VarKeys
  import opened VarSearch
  import opened GistTree
  import opened Sorting
  import opened HalfSplit

  /** gbt_vsrt_cmp: by lower bound, then by upper bound. */
  function VsrtCmp(a: Range, b: Range): int {
    var res := Cmp(a.lower, b.lower);
    if res == 0 then Cmp(a.upper, b.upper) else res
  }

  function VsrtLeq(a: Srt<Range>, b: Srt<Range>): bool {
    VsrtCmp(a.t, b.t) <= 0
  }

  lemma VsrtPreorder()
    ensures TotalPreorder(VsrtLeq)
  {
    forall a: Srt<Range>, b: Srt<Range>
      ensures VsrtLeq(a, b) || VsrtLeq(b, a)
    {
      CmpSign(a.t.lower, b.t.lower);
      CmpSign(a.t.upper, b.t.upper);
    }
    forall a: Srt<Range>, b: Srt<Range>, c: Srt<Range> | VsrtLeq(a, b) && VsrtLeq(b, c)
      ensures VsrtLeq(a, c)
    {
      VsrtTrans(a.t, b.t, c.t);
    }
  }

  lemma VsrtTrans(a: Range, b: Range, c: Range)
    requires VsrtCmp(a, b) <= 0 && VsrtCmp(b, c) <= 0
    ensures VsrtCmp(a, c) <= 0
  {
    CmpSign(a.lower, b.lower);
    CmpSign(b.lower, c.lower);
    CmpSign(a.lower, c.lower);
    LeTrans(a.lower, b.lower, c.lower);
    if Cmp(a.lower, c.lower) == 0 {
      LeAntisymmetric(a.lower, b.lower);
      LeTrans(a.upper, b.upper, c.upper);
    }
  }

  lemma LeAntisymmetric(a: Bytes, b: Bytes)
    requires Le(a, b) && Le(b, a)
    ensures a == b
  {
    CmpSign(a, b);
  }

  /** Some order that qsort_arg may leave: the same entries, ordered by gbt_vsrt_cmp. */
  method SortEntries(arr: seq<Srt<Range>>) returns (sorted: seq<Srt<Range>>)
    ensures multiset(sorted) == multiset(arr) && SortedBy(sorted, VsrtLeq)
  {
    sorted := Sort(arr, VsrtLeq);
    SortPermutes(arr, VsrtLeq);
    VsrtPreorder();
    SortSorts(arr, VsrtLeq);
  }

  /** The loop that deals the sorted entries to the two sides and unites their keys. */
  method DealHalves(arr: seq<Srt<Range>>, half: nat)
    returns (left: seq<nat>, right: seq<nat>, ldatum: Range, rdatum: Range)
    requires 0 < half < |arr|
    ensures left == Offsets(arr[..half]) && right == Offsets(arr[half..])
    ensures ldatum == Hull(SortKeys(arr[..half])) && rdatum == Hull(SortKeys(arr[half..]))
  {
    hide Hull, BinUnion;
    left, right := [], [];
    ldatum, rdatum := arr[0].t, arr[half].t;
    for i := 0 to |arr|
      invariant i <= half ==> left == Offsets(arr[0..i]) && right == []
      invariant 0 < i <= half ==> ldatum == Hull(SortKeys(arr[0..i]))
      invariant half < i ==> left == Offsets(arr[0..half]) && right == Offsets(arr[half..i])
      invariant half < i ==> ldatum == Hull(SortKeys(arr[0..half])) && rdatum == Hull(SortKeys(arr[half..i]))
    {
      if i + 1 <= half {
        DealOne(arr, 0, i);
        if i == 0 {
          ldatum := arr[i].t;
          assert SortKeys(arr[0..1]) == [ldatum];
          HullOne(ldatum);
        } else {
          HullSnoc(SortKeys(arr[0..i]), arr[i].t);
          ldatum := BinUnion(ldatum, arr[i].t);
        }
        left := left + [arr[i].i];
      } else {
        DealOne(arr, half, i);
        if i == half {
          rdatum := arr[i].t;
          assert SortKeys(arr[half..half + 1]) == [rdatum];
          HullOne(rdatum);
        } else {
          HullSnoc(SortKeys(arr[half..i]), arr[i].t);
          rdatum := BinUnion(rdatum, arr[i].t);
        }
        right := right + [arr[i].i];
      }
    }
    assert arr[0..half] == arr[..half] && arr[half..|arr|] == arr[half..];
  }

  /** A split of the entries at offsets 1 .. n - 1: half of them go left, none of which sorts after
      one that goes right, and both sides are cut behind the longer common prefix. */
  ghost predicate IsSplit(vector: seq<Range>, left: seq<nat>, right: seq<nat>, ldatum: Range, rdatum: Range) {
    && Partition(|vector|, left, right) && |left| == (|vector| - 1) / 2
    && (forall j :: 0 <= j < |left| ==> left[j] < |vector|)
    && (forall j :: 0 <= j < |right| ==> right[j] < |vector|)
    && (forall a, b :: 0 <= a < |left| && 0 <= b < |right| ==> VsrtCmp(vector[left[a]], vector[right[b]]) <= 0)
    && var cut := Max(CpLen(Hull(ItemsAt(vector, left))), CpLen(Hull(ItemsAt(vector, right))));
    && ldatum == CutHull(ItemsAt(vector, left), cut)
    && rdatum == CutHull(ItemsAt(vector, right), cut)
  }

  /** gbt_var_picksplit. With a single entry the left half would be empty and the source would
      read a null key. */
  method PickSplit(vector: seq<Range>)
    returns (left: seq<nat>, right: seq<nat>, ldatum: Range, rdatum: Range)
    requires |vector| >= 3
    ensures IsSplit(vector, left, right, ldatum, rdatum)
  {
    var arr := SortEntries(Arr(vector));
    var half := (|vector| - 1) / 2;
    DealtKeys(vector, arr, VsrtLeq, half);
    left, right, ldatum, rdatum := DealHalves(arr, half);
    var ll := NodeCpLen(ldatum);
    var lr := NodeCpLen(rdatum);
    ll := Max(ll, lr) + 1;
    ldatum := Truncate(ldatum, ll);
    rdatum := Truncate(rdatum, ll);
  }

  // ---------------------------------------------------------------------------
  // What the split keys are good for.

  /** No entry on the left has the larger lower bound, and among equal lower bounds none has the
      larger upper bound. */
  lemma SplitOrder(vector: seq<Range>, left: seq<nat>, right: seq<nat>, ldatum: Range, rdatum: Range, a: nat, b: nat)
    requires IsSplit(vector, left, right, ldatum, rdatum) && a < |left| && b < |right|
    ensures var x, y := vector[left[a]], vector[right[b]];
            Lt(x.lower, y.lower) || (x.lower == y.lower && Le(x.upper, y.upper))
  {
    hide Hull, CpLen, Partition;
    var x, y := vector[left[a]], vector[right[b]];
    assert VsrtCmp(x, y) <= 0;
    CmpSign(x.lower, y.lower);
  }

  /** Both keys of a split are page keys for their sides, so every value covered by an entry is
      covered by its side's key, exact or not: the parent's union can rely on it. */
  lemma SplitKeysArePageKeys(ks: seq<Range>, cut: nat, i: nat, v: Bytes)
    requires i < |ks| && (forall k :: k in ks ==> Ordered(k)) && Covers(ks[i], v)
    requires CpLen(Hull(ks)) <= cut
    ensures PageKey(CutHull(ks, cut), ks, cut) && Ordered(CutHull(ks, cut))
    ensures Covers(CutHull(ks, cut), v)
  {
    PageKeyOrdered(CutHull(ks, cut), ks, cut);
    CutHullCovers(ks, cut, i, v);
  }

  /** Splitting a leaf page keeps the tree built: no leaf entry is lost under either new key. */
  lemma LeafSplitBuilt(es: seq<VarEntry>, cut: nat, query: Bytes, strategy: int)
    requires es != [] && (forall e :: e in es ==> e.Leaf?) && CpLen(Hull(Keys(es))) <= cut
    ensures var node := Node(CutKey(CutHull(Keys(es), cut), cut), es);
            && Built(node)
            && Search(node, PageTest(query, strategy), LeafTest(query, strategy)) ==
               Filter(LeavesOf(es), Wanted(query, strategy))
  {
    var node := Node(CutKey(CutHull(Keys(es), cut), cut), es);
    GrownIsBuilt(node);
    SearchExact(node, query, strategy);
  }

  // A split of an internal page that loses a row. Of its four entries the first two go left: the
  // page of [1,3,0] and [1,9,9,9], keyed [1,3,0]..[1,9,9], and the page of [1,9,9,5].

  const A: Bytes := [1, 3, 0]
  const B: Bytes := [1, 9, 9, 9]
  const C: Bytes := [1, 9, 9, 5]
  const LOW: Range := Range(A, [1, 9, 9])
  const HIGH: Range := Range(C, C)
  const FAR: Range := Range([2, 2, 2, 2, 2, 2], [2, 2, 2, 2, 2, 2])
  const VECTOR: seq<Range> := [FAR, LOW, HIGH, FAR, FAR]
  const LOW_PAGE: VarEntry := Node(CutKey(LOW, 1), [Leaf(A, 1), Leaf(B, 2)])
  const HIGH_PAGE: VarEntry := Node(CutKey(HIGH, 4), [Leaf(C, 3)])
  const SPLIT_PAGE: VarEntry := Node(CutKey(Range(A, C), 6), [LOW_PAGE, HIGH_PAGE])

  lemma SplitPageChildrenGrown()
    ensures Grown(LOW_PAGE) && Grown(HIGH_PAGE)
  {
    CommonLenUnique(A, B, 1);
    CommonLenUnique(C, C, 4);
    assert Keys(LOW_PAGE.children) == [Range(A, A), Range(B, B)];
    assert Keys(HIGH_PAGE.children) == [HIGH];
    assert [Range(A, A), Range(B, B)][..1] == [Range(A, A)];
    assert Hull([Range(A, A), Range(B, B)]) == Range(A, B);
    assert B[..3] == [1, 9, 9];
  }

  /** The far entries sort after the two others. */
  lemma FarSortsLast()
    ensures VsrtCmp(FAR, LOW) > 0 && VsrtCmp(FAR, HIGH) > 0
  {
    CommonLenUnique(FAR.lower, A, 0);
    CommonLenUnique(FAR.lower, C, 0);
  }

  /** Of four offsets those not in the left pair are on the right. */
  lemma OthersGoRight(left: seq<nat>, right: seq<nat>, o: nat)
    requires Partition(5, left, right) && |left| == 2
    ensures 1 <= left[0] <= 4 && 1 <= left[1] <= 4 && left[0] != left[1]
    ensures 1 <= o <= 4 && o != left[0] && o != left[1] ==> o in right
    ensures o in right ==> 1 <= o <= 4 && o != left[0] && o != left[1]
    ensures |right| == 2
  {
    var os := left + right;
    assert os[0] == left[0] && os[1] == left[1] && left[0] in os && left[1] in os;
    assert o in right ==> o in os;
    assert 1 in os && 2 in os && 3 in os && 4 in os;
    DistinctBounded(os, {1, 2, 3, 4});
    var rest: set<nat> := {1, 2, 3, 4} - {left[0], left[1]};
    forall o | o in rest
      ensures o in right
    {
      assert o in os;
    }
    SetBounded(rest, right);
  }

  lemma {:induction false} SetBounded(s: set<nat>, xs: seq<nat>)
    requires forall x :: x in s ==> x in xs
    ensures |s| <= |xs|
  {
    if xs != [] {
      SetBounded(s - {xs[0]}, xs[1..]);
    }
  }

  /** The near entries go left. */
  lemma NearGoLeft(left: seq<nat>, right: seq<nat>)
    requires Partition(5, left, right) && |left| == 2
    requires forall a, b :: a in left && b in right ==> !(a >= 3 && b <= 2)
    ensures (left == [1, 2] || left == [2, 1]) && |right| == 2
    ensures forall b :: b in right ==> 3 <= b <= 4
  {
    OthersGoRight(left, right, 1);
    OthersGoRight(left, right, 2);
    forall b | b in right
      ensures 1 <= b <= 4 && b != left[0] && b != left[1]
    {
      OthersGoRight(left, right, b);
    }
    assert left[0] in left && left[1] in left;
  }

  lemma HullTwo(a: Range, b: Range)
    ensures Hull([a, b]) == BinUnion(a, b)
  {
    hide BinUnion;
    assert [a, b][..1] == [a];
  }

  lemma NearHull()
    ensures Hull([LOW, HIGH]) == Hull([HIGH, LOW]) == Range(A, C) && CpLen(Range(A, C)) == 1
  {
    hide Hull;
    HullTwo(LOW, HIGH);
    HullTwo(HIGH, LOW);
    CommonLenUnique(A, C, 1);
    CommonLenUnique(C, A, 1);
    CommonLenUnique([1, 9, 9], C, 3);
    CommonLenUnique(C, [1, 9, 9], 3);
  }

  lemma FarHull()
    ensures CpLen(Hull([FAR, FAR])) == 6
  {
    hide Hull;
    HullTwo(FAR, FAR);
    CommonLenUnique(FAR.lower, FAR.upper, 6);
  }

  /** No far entry goes left of a near one, so the sides are settled up to their order. */
  lemma SidesSettled(left: seq<nat>, right: seq<nat>, ldatum: Range, rdatum: Range)
    requires IsSplit(VECTOR, left, right, ldatum, rdatum)
    ensures ItemsAt(VECTOR, left) == [LOW, HIGH] || ItemsAt(VECTOR, left) == [HIGH, LOW]
    ensures ItemsAt(VECTOR, right) == [FAR, FAR]
  {
    hide Hull, CpLen, VsrtCmp, Partition;
    FarSortsLast();
    forall a, b | a in left && b in right
      ensures !(a >= 3 && b <= 2)
    {
      var i :| 0 <= i < |left| && left[i] == a;
      var j :| 0 <= j < |right| && right[j] == b;
      OthersGoRight(left, right, b);
      assert VsrtCmp(VECTOR[left[i]], VECTOR[right[j]]) <= 0;
    }
    NearGoLeft(left, right);
    assert right[0] in right && right[1] in right;
  }

  /** Whatever split gbt_var_picksplit returns for the four entries, the left side is the split
      page: the six common bytes of the far entries set the cut of both sides. */
  lemma SplitPageKey(left: seq<nat>, right: seq<nat>, ldatum: Range, rdatum: Range)
    requires IsSplit(VECTOR, left, right, ldatum, rdatum)
    ensures ItemsAt(VECTOR, left) == [LOW, HIGH] || ItemsAt(VECTOR, left) == [HIGH, LOW]
    ensures Keys(SPLIT_PAGE.children) == [LOW, HIGH] && ldatum == SPLIT_PAGE.key.range
  {
    hide Hull, CpLen, VsrtCmp, Partition;
    SidesSettled(left, right, ldatum, rdatum);
    NearHull();
    FarHull();
  }

  /** The stored value [1,9,9,9] is not found by the search for it. */
  lemma InternalSplitLosesRow()
    ensures Search(SPLIT_PAGE, PageTest(B, EQUAL), LeafTest(B, EQUAL)) == []
    ensures (B, 2) in Leaves(SPLIT_PAGE) && Matches(B, B, EQUAL)
  {
    CommonLenUnique(B, C, 3);
    var rest := LOW_PAGE.children[1..];
    assert SPLIT_PAGE.children[1..] == [HIGH_PAGE] && rest == [Leaf(B, 2)];
    assert LeavesOf(rest) == [(B, 2)];
    assert Leaves(LOW_PAGE) == Leaves(LOW_PAGE.children[0]) + LeavesOf(rest);
    assert Leaves(SPLIT_PAGE) == Leaves(LOW_PAGE) + LeavesOf([HIGH_PAGE]);
  }
}
