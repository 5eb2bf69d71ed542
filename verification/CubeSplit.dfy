/**
  Guttman's quadratic split of a page of boxes (g_cube_picksplit).
 */
module CubeSplit {
  import opened Common
  import opened Cube

  // ---------------------------------------------------------------------------
  // Sizes and seeds.

  ghost function Side(b: Box, i: nat): real {
    Hi(b, i) - Lo(b, i)
  }

  ghost function Product(b: Box, n: nat): real {
    if n == 0 then 1.0 else Times(Product(b, n - 1), Side(b, n - 1))
  }

  ghost function Times(x: real, y: real): real {
    x * y
  }

  ghost function Size(b: Box): real {
    if b.dim == 0 then 0.0 else Product(b, b.dim)
  }

  lemma {:induction false} PointProduct(b: Box, n: nat)
    requires b.isPoint && 0 < n <= b.dim
    ensures Product(b, n) == 0.0
  {
    if n > 1 {
      PointProduct(b, n - 1);
    }
  }

  lemma {:induction false} SameProduct(a: Box, b: Box, n: nat)
    requires Same(a, b) && n <= a.dim
    ensures Product(a, n) == Product(b, n)
  {
    hide Times;
    if n > 0 {
      SameProduct(a, b, n - 1);
      assert Side(a, n - 1) == Side(b, n - 1);
    }
  }

  lemma SameSize(a: Box, b: Box)
    requires Same(a, b)
    ensures Size(a) == Size(b)
  {
    SameProduct(a, b, a.dim);
  }

  method RtCubeSize(a: Box) returns (size: real)
    ensures size == Size(a)
  {
    if a.isPoint || a.dim == 0 {
      if a.dim > 0 {
        PointProduct(a, a.dim);
      }
      return 0.0;
    }
    size := 1.0;
    var i := 0;
    while i < a.dim
      invariant i <= a.dim && size == Product(a, i)
    {
      assert Abs(UR(a, i) - LL(a, i)) == Hi(a, i) - Lo(a, i);
      size := size * Abs(UR(a, i) - LL(a, i));
      i := i + 1;
    }
  }

  ghost function Waste(a: Box, b: Box): real {
    Size(Union(a, b)) - Size(Inter(a, b))
  }

  /** The extent of what is around both boxes, over the first n dimensions. */
  ghost function ExtentAround(a: Box, b: Box, n: nat): real {
    if n == 0 then 1.0
    else Times(ExtentAround(a, b, n - 1), Max(Hi(a, n - 1), Hi(b, n - 1)) - Min(Lo(a, n - 1), Lo(b, n - 1)))
  }

  /** The extent of what is in both; where the intervals do not meet, the gap takes its place. */
  ghost function ExtentInBoth(a: Box, b: Box, n: nat): real {
    if n == 0 then 1.0
    else Times(ExtentInBoth(a, b, n - 1), Abs(Min(Hi(a, n - 1), Hi(b, n - 1)) - Max(Lo(a, n - 1), Lo(b, n - 1))))
  }

  lemma SidesAround(a: Box, b: Box, i: nat)
    requires i < MaxDim(a, b)
    ensures Side(Union(a, b), i) == Max(Hi(a, i), Hi(b, i)) - Min(Lo(a, i), Lo(b, i))
    ensures Side(Inter(a, b), i) == Abs(Min(Hi(a, i), Hi(b, i)) - Max(Lo(a, i), Lo(b, i)))
  {
    hide Union, Inter;
    assert LL(Inter(a, b), i) == Max(Lo(a, i), Lo(b, i)) && UR(Inter(a, b), i) == Min(Hi(a, i), Hi(b, i));
  }

  lemma {:induction false} ProductsAreExtents(a: Box, b: Box, n: nat)
    requires n <= MaxDim(a, b)
    ensures Product(Union(a, b), n) == ExtentAround(a, b, n) && Product(Inter(a, b), n) == ExtentInBoth(a, b, n)
  {
    hide Times, Side, Union, Inter, Max, Min, Lo, Hi, Abs;
    if n > 0 {
      SidesAround(a, b, n - 1);
      ProductsAreExtents(a, b, n - 1);
    }
  }

  /** What a pair of seeds is judged by, from the bounds of both. */
  lemma WasteMeaning(a: Box, b: Box)
    ensures var n := MaxDim(a, b);
            Waste(a, b) == if n == 0 then 0.0 else ExtentAround(a, b, n) - ExtentInBoth(a, b, n)
  {
    hide Union, Inter;
    ProductsAreExtents(a, b, MaxDim(a, b));
  }

  method PairWaste(a: Box, b: Box) returns (w: real)
    ensures w == Waste(a, b)
  {
    hide Same, Union, Inter, Size;
    var u := UnionV0(a, b, false);
    var sizeUnion := RtCubeSize(u);
    SameSize(u, Union(a, b));
    var d := CubeInter(a, b);
    var sizeInter := RtCubeSize(d);
    SameSize(d, Inter(a, b));
    w := sizeUnion - sizeInter;
  }

  /** Two different entries; no pair among all entries but the last wastes more. */
  ghost predicate Seeds(es: seq<Box>, s1: nat, s2: nat) {
    && 1 <= s1 < s2 < |es|
    && forall i, j :: 1 <= i < j <= |es| - 2 ==> Waste(es[i], es[j]) <= Waste(es[s1], es[s2])
  }

  /** Pairs (i, j) visited before (p, q). */
  predicate Before(i: nat, j: nat, p: nat, q: nat) {
    i < p || (i == p && j < q)
  }

  method PickSeeds(es: seq<Box>) returns (s1: nat, s2: nat)
    requires |es| >= 3
    ensures Seeds(es, s1, s2)
  {
    hide Waste;
    var maxoff := |es| - 2;
    var firsttime, waste := true, 0.0;
    s1, s2 := 1, 2;
    var i := 1;
    while i < maxoff
      invariant 1 <= i <= maxoff
      invariant firsttime ==> i == 1
      invariant 1 <= s1 < s2 < |es|
      invariant !firsttime ==> waste == Waste(es[s1], es[s2])
      invariant forall k, l :: 1 <= k < i && k < l <= maxoff ==> Waste(es[k], es[l]) <= waste
    {
      var j := i + 1;
      while j <= maxoff
        invariant i < j <= maxoff + 1
        invariant firsttime ==> i == 1 && j == 2
        invariant 1 <= s1 < s2 < |es|
        invariant !firsttime ==> waste == Waste(es[s1], es[s2])
        invariant forall k, l :: 1 <= k < l <= maxoff && Before(k, l, i, j) ==> Waste(es[k], es[l]) <= waste
      {
        var sizeWaste := PairWaste(es[i], es[j]);
        if sizeWaste > waste || firsttime {
          waste, s1, s2, firsttime := sizeWaste, i, j, false;
        }
        j := j + 1;
      }
      i := i + 1;
    }
  }

  // ---------------------------------------------------------------------------
  // Dealing the entries.

  datatype Sides = Sides(left: seq<nat>, right: seq<nat>)

  predicate InRange(es: seq<Box>, list: seq<nat>) {
    forall k :: 0 <= k < |list| ==> list[k] < |es|
  }

  /** The bounding box of a side: its seed, then its other members in order. */
  ghost function Hull(es: seq<Box>, seed: nat, list: seq<nat>): Box
    requires seed < |es| && InRange(es, list)
  {
    if list == [] then es[seed]
    else
      var front, j := list[..|list| - 1], list[|list| - 1];
      if j == seed then Hull(es, seed, front) else Union(Hull(es, seed, front), es[j])
  }

  ghost function Growth(key: Box, x: Box): real {
    Size(Union(key, x)) - Size(key)
  }

  predicate Increasing(list: seq<nat>) {
    forall i, j :: 0 <= i < j < |list| ==> list[i] < list[j]
  }

  /** The offsets 1 .. n - 1, each on exactly one side, both sides in order. */
  ghost predicate Dealt(sides: Sides, n: nat) {
    && Increasing(sides.left) && Increasing(sides.right)
    && (forall j: nat :: j in sides.left || j in sides.right <==> 1 <= j < n)
    && (forall j: nat :: !(j in sides.left && j in sides.right))
  }

  lemma DealtSnoc(s: Sides, i: nat)
    requires i >= 1 && Dealt(s, i)
    ensures Dealt(Sides(s.left + [i], s.right), i + 1) && Dealt(Sides(s.left, s.right + [i]), i + 1)
  {
    assert forall k :: 0 <= k < |s.left| ==> s.left[k] in s.left;
    assert forall k :: 0 <= k < |s.right| ==> s.right[k] in s.right;
  }

  /** Each seed to its side, every other entry to the side that grows less, ties to the right. */
  ghost predicate GoesLeft(es: seq<Box>, s1: nat, s2: nat, s: Sides, i: nat)
    requires s1 < |es| && s2 < |es| && i < |es| && InRange(es, s.left) && InRange(es, s.right)
  {
    i == s1 || (i != s2 && Growth(Hull(es, s1, s.left), es[i]) < Growth(Hull(es, s2, s.right), es[i]))
  }

  ghost function Deal(es: seq<Box>, s1: nat, s2: nat, n: nat): (sides: Sides)
    requires 1 <= s1 < s2 < |es| && 1 <= n <= |es|
    ensures InRange(es, sides.left) && InRange(es, sides.right)
  {
    hide GoesLeft;
    if n == 1 then Sides([], [])
    else
      var s := Deal(es, s1, s2, n - 1);
      if GoesLeft(es, s1, s2, s, n - 1) then Sides(s.left + [n - 1], s.right) else Sides(s.left, s.right + [n - 1])
  }

  lemma SeedsGo(es: seq<Box>, s1: nat, s2: nat, s: Sides)
    requires s1 < s2 < |es| && InRange(es, s.left) && InRange(es, s.right)
    ensures GoesLeft(es, s1, s2, s, s1) && !GoesLeft(es, s1, s2, s, s2)
  {
  }

  /** The deal puts every offset on one side, each seed on its own. */
  lemma {:induction false} DealIsDealt(es: seq<Box>, s1: nat, s2: nat, n: nat)
    requires 1 <= s1 < s2 < |es| && 1 <= n <= |es|
    ensures Dealt(Deal(es, s1, s2, n), n)
    ensures (s1 < n ==> s1 in Deal(es, s1, s2, n).left) && (s2 < n ==> s2 in Deal(es, s1, s2, n).right)
  {
    hide GoesLeft, Dealt, InRange;
    if n > 1 {
      DealIsDealt(es, s1, s2, n - 1);
      var s := Deal(es, s1, s2, n - 1);
      DealtSnoc(s, n - 1);
      SeedsGo(es, s1, s2, s);
    } else {
      assert Dealt(Sides([], []), 1) by { NothingDealt(); }
    }
  }

  lemma NothingDealt()
    ensures Dealt(Sides([], []), 1)
  {
  }

  /** The members of a list below n. */
  function Below(list: seq<nat>, n: nat): (r: seq<nat>)
    ensures forall j :: j in r <==> j in list && j < n
  {
    if list == [] then []
    else
      var front, j := list[..|list| - 1], list[|list| - 1];
      if j < n then Below(front, n) + [j] else Below(front, n)
  }

  lemma {:induction false} BelowAll(list: seq<nat>, n: nat)
    requires forall k :: 0 <= k < |list| ==> list[k] < n
    ensures Below(list, n) == list
  {
    if list != [] {
      var front, last := list[..|list| - 1], list[|list| - 1];
      assert list == front + [last];
      BelowAll(front, n);
    }
  }

  lemma BelowSnoc(list: seq<nat>, j: nat, n: nat)
    ensures Below(list + [j], n) == if j < n then Below(list, n) + [j] else Below(list, n)
  {
    assert (list + [j])[..|list|] == list;
  }

  lemma DealtBelow(es: seq<Box>, s1: nat, s2: nat, n: nat)
    requires 1 <= s1 < s2 < |es| && 1 <= n <= |es|
    ensures var s := Deal(es, s1, s2, n); Below(s.left, n) == s.left && Below(s.right, n) == s.right
  {
    hide GoesLeft, InRange, Dealt;
    DealIsDealt(es, s1, s2, n);
    var s := Deal(es, s1, s2, n);
    DealtRange(s, n);
    BelowAll(s.left, n);
    BelowAll(s.right, n);
  }

  lemma DealtRange(s: Sides, n: nat)
    requires Dealt(s, n)
    ensures (forall k :: 0 <= k < |s.left| ==> s.left[k] < n) && (forall k :: 0 <= k < |s.right| ==> s.right[k] < n)
  {
    assert forall k :: 0 <= k < |s.left| ==> s.left[k] in s.left;
    assert forall k :: 0 <= k < |s.right| ==> s.right[k] in s.right;
  }

  /** One more entry is no concern of the ones before it. */
  lemma DealtNext(es: seq<Box>, s1: nat, s2: nat, i: nat, n: nat)
    requires 1 <= s1 < s2 < |es| && 1 <= i < n <= |es|
    ensures var s, s' := Deal(es, s1, s2, n - 1), Deal(es, s1, s2, n);
            Below(s'.left, i) == Below(s.left, i) && Below(s'.right, i) == Below(s.right, i)
  {
    hide GoesLeft, InRange;
    var s := Deal(es, s1, s2, n - 1);
    BelowSnoc(s.left, n - 1, i);
    BelowSnoc(s.right, n - 1, i);
  }

  /** What was dealt before an entry can be read off the finished sides. */
  lemma {:induction false} DealtBefore(es: seq<Box>, s1: nat, s2: nat, i: nat, n: nat)
    requires 1 <= s1 < s2 < |es| && 1 <= i <= n <= |es|
    ensures Below(Deal(es, s1, s2, n).left, i) == Deal(es, s1, s2, i).left
    ensures Below(Deal(es, s1, s2, n).right, i) == Deal(es, s1, s2, i).right
  {
    hide GoesLeft, InRange;
    if i == n {
      DealtBelow(es, s1, s2, n);
    } else {
      DealtBefore(es, s1, s2, i, n - 1);
      DealtNext(es, s1, s2, i, n);
    }
  }

  ghost predicate BoundsAll(key: Box, es: seq<Box>, list: seq<nat>)
    requires InRange(es, list)
  {
    forall k :: 0 <= k < |list| ==> Bounds(key, es[list[k]])
  }

  /** key bounds the seed and every member of the list, and is the least box that does. */
  ghost predicate Covers(es: seq<Box>, seed: nat, list: seq<nat>, key: Box)
    requires seed < |es| && InRange(es, list)
  {
    && Bounds(key, es[seed])
    && BoundsAll(key, es, list)
    && (forall other: Box :: Bounds(other, es[seed]) && BoundsAll(other, es, list) ==> Bounds(other, key))
  }

  lemma {:induction false} HullCovers(es: seq<Box>, seed: nat, list: seq<nat>)
    requires seed < |es| && InRange(es, list)
    ensures Covers(es, seed, list, Hull(es, seed, list))
  {
    hide Bounds, Union;
    if list == [] {
      BoundsSelf(es[seed]);
    } else {
      var front, j := list[..|list| - 1], list[|list| - 1];
      assert list == front + [j];
      var key, hull := Hull(es, seed, front), Hull(es, seed, list);
      HullCovers(es, seed, front);
      assert Bounds(hull, key) by { BoundsSelf(key); UnionLeast(key, es[j], key); }
      assert Bounds(hull, es[j]) by { UnionLeast(key, es[j], key); }
      BoundsTrans(hull, key, es[seed]);
      forall k | 0 <= k < |list|
        ensures Bounds(hull, es[list[k]])
      {
        if k < |front| {
          assert list[k] == front[k];
          BoundsTrans(hull, key, es[front[k]]);
        }
      }
      forall other: Box | Bounds(other, es[seed]) && BoundsAll(other, es, list)
        ensures Bounds(other, hull)
      {
        assert list[|front|] == j;
        assert forall k :: 0 <= k < |front| ==> front[k] == list[k];
        UnionLeast(key, es[j], other);
      }
    }
  }

  lemma SameCovers(es: seq<Box>, seed: nat, list: seq<nat>, key: Box, like: Box)
    requires seed < |es| && InRange(es, list)
    requires Covers(es, seed, list, like) && Same(key, like)
    ensures Covers(es, seed, list, key)
  {
    hide Bounds, Same;
    SameBounds(key, like, es[seed]);
    forall k | 0 <= k < |list|
      ensures Bounds(key, es[list[k]])
    {
      SameBounds(key, like, es[list[k]]);
    }
    forall other: Box | Bounds(other, es[seed]) && BoundsAll(other, es, list)
      ensures Bounds(other, key)
    {
      SameBounds(key, like, other);
    }
  }

  lemma SameUnion(a: Box, like: Box, x: Box)
    requires Same(a, like)
    ensures Same(Union(a, x), Union(like, x))
  {
    assert forall i: nat :: Lo(a, i) == Lo(like, i) && Hi(a, i) == Hi(like, i);
  }

  lemma SameTrans(a: Box, b: Box, c: Box)
    requires Same(a, b) && Same(b, c)
    ensures Same(a, c)
  {
  }

  /** A trial insertion: the enlarged box and its size. */
  method Enlarge(key: Box, x: Box, ghost hull: Box) returns (u: Box, size: real)
    requires Same(key, hull)
    ensures Same(u, Union(hull, x)) && size == Size(Union(hull, x))
  {
    hide Same, Union, Size;
    u := UnionV0(key, x, false);
    size := RtCubeSize(u);
    SameUnion(key, hull, x);
    SameTrans(u, Union(key, x), Union(hull, x));
    SameSize(u, Union(hull, x));
  }

  /** What the split returns: both lists with their sentinels inside the n allocated slots, a
      partition of the offsets dealt from the most wasteful pair, and for each side the least box
      that bounds it. */
  ghost predicate GoodSplit(es: seq<Box>, l: seq<nat>, nleft: nat, r: seq<nat>, nright: nat, ldatum: Box, rdatum: Box) {
    && |l| == |r| == |es|
    && 0 < nleft < |l| && 0 < nright < |r| && l[nleft] == 1 == r[nright]
    && Dealt(Sides(l[..nleft], r[..nright]), |es|)
    && GoodSides(es, l[..nleft], r[..nright], ldatum, rdatum)
  }

  ghost predicate GoodSides(es: seq<Box>, left: seq<nat>, right: seq<nat>, ldatum: Box, rdatum: Box) {
    exists s1: nat, s2: nat :: SidesFrom(es, s1, s2, left, right, ldatum, rdatum)
  }

  ghost predicate SidesFrom(es: seq<Box>, s1: nat, s2: nat, left: seq<nat>, right: seq<nat>, ldatum: Box, rdatum: Box) {
    && Seeds(es, s1, s2) && s1 in left && s2 in right
    && InRange(es, left) && InRange(es, right)
    && Sides(left, right) == Deal(es, s1, s2, |es|)
    && Covers(es, s1, left, ldatum) && Covers(es, s2, right, rdatum)
  }

  /** *left++ = i */
  method Append(a: array<nat>, n: nat, i: nat)
    requires n < a.Length
    modifies a
    ensures a[..n + 1] == old(a[..n]) + [i]
  {
    a[n] := i;
  }

  /** The running box and size of a side are those of its members. */
  ghost predicate SideOk(es: seq<Box>, seed: nat, list: seq<nat>, datum: Box, size: real) {
    && seed < |es| && InRange(es, list)
    && Same(datum, Hull(es, seed, list)) && size == Size(Hull(es, seed, list))
  }

  lemma SideStart(es: seq<Box>, seed: nat)
    requires seed < |es|
    ensures SideOk(es, seed, [], es[seed], Size(es[seed]))
  {
  }

  /** Where entry i goes, and the boxes and sizes of the sides with it. */
  method Place(es: seq<Box>, s1: nat, s2: nat, i: nat, ghost sides: Sides, l: Box, sizeL: real, r: Box, sizeR: real)
    returns (goesLeft: bool, l': Box, sizeL': real, r': Box, sizeR': real)
    requires s1 < s2 < |es| && i < |es|
    requires SideOk(es, s1, sides.left, l, sizeL) && SideOk(es, s2, sides.right, r, sizeR)
    ensures goesLeft == GoesLeft(es, s1, s2, sides, i)
    ensures SideOk(es, s1, if goesLeft then sides.left + [i] else sides.left, l', sizeL')
    ensures SideOk(es, s2, if goesLeft then sides.right else sides.right + [i], r', sizeR')
  {
    hide Same, Size, Union, InRange;
    l', sizeL', r', sizeR' := l, sizeL, r, sizeR;
    HullStep(es, s1, sides.left, i);
    HullStep(es, s2, sides.right, i);
    if i == s1 {
      goesLeft := true;
    } else if i == s2 {
      goesLeft := false;
    } else {
      var unionL, sizeAlpha := Enlarge(l, es[i], Hull(es, s1, sides.left));
      var unionR, sizeBeta := Enlarge(r, es[i], Hull(es, s2, sides.right));
      goesLeft := sizeAlpha - sizeL < sizeBeta - sizeR;
      if goesLeft {
        l', sizeL' := unionL, sizeAlpha;
      } else {
        r', sizeR' := unionR, sizeBeta;
      }
    }
  }

  method PickSplit(es: seq<Box>)
    returns (left: array<nat>, nleft: nat, right: array<nat>, nright: nat, ldatum: Box, rdatum: Box)
    requires |es| >= 3
    ensures GoodSplit(es, left[..], nleft, right[..], nright, ldatum, rdatum)
  {
    hide SideOk, GoesLeft, Size, Seeds, GoodSides, Dealt, InRange;
    var s1, s2 := PickSeeds(es);
    SeedRange(es, s1, s2);
    left := new nat[|es|](_ => 0);
    right := new nat[|es|](_ => 0);
    nleft, nright := 0, 0;
    ldatum := UnionV0(es[s1], es[s1], true);
    var sizeL := RtCubeSize(ldatum);
    rdatum := UnionV0(es[s2], es[s2], true);
    var sizeR := RtCubeSize(rdatum);
    SideStart(es, s1);
    SideStart(es, s2);
    ghost var sides := Sides([], []);
    var i := 1;
    while i < |es|
      invariant 1 <= i <= |es| && nleft + nright == i - 1
      invariant left.Length == right.Length == |es| && left != right && fresh(left) && fresh(right)
      invariant sides == Deal(es, s1, s2, i)
      invariant left[..nleft] == sides.left && right[..nright] == sides.right
      invariant SideOk(es, s1, sides.left, ldatum, sizeL) && SideOk(es, s2, sides.right, rdatum, sizeR)
    {
      var goesLeft;
      goesLeft, ldatum, sizeL, rdatum, sizeR := Place(es, s1, s2, i, sides, ldatum, sizeL, rdatum, sizeR);
      if goesLeft {
        Append(left, nleft, i);
        nleft := nleft + 1;
        sides := Sides(sides.left + [i], sides.right);
      } else {
        Append(right, nright, i);
        nright := nright + 1;
        sides := Sides(sides.left, sides.right + [i]);
      }
      i := i + 1;
    }
    FinishSplit(es, s1, s2, sides, ldatum, sizeL, rdatum, sizeR);
    Append(left, nleft, 1);
    Append(right, nright, 1);
    SentinelFits(left[..], nleft, sides.left);
    SentinelFits(right[..], nright, sides.right);
  }

  lemma SentinelFits(a: seq<nat>, n: nat, list: seq<nat>)
    requires n < |a| && a[..n + 1] == list + [1] && |list| == n
    ensures a[n] == 1 && a[..n] == list
  {
    assert a[..n + 1][n] == 1;
    assert a[..n] == a[..n + 1][..n];
  }

  lemma SeedRange(es: seq<Box>, s1: nat, s2: nat)
    requires Seeds(es, s1, s2)
    ensures 1 <= s1 < s2 < |es|
  {
  }

  lemma HullStep(es: seq<Box>, seed: nat, list: seq<nat>, j: nat)
    requires seed < |es| && j < |es| && InRange(es, list)
    ensures InRange(es, list + [j])
    ensures Hull(es, seed, list + [j]) == if j == seed then Hull(es, seed, list) else Union(Hull(es, seed, list), es[j])
  {
    assert (list + [j])[..|list|] == list;
  }

  lemma FinishSplit(es: seq<Box>, s1: nat, s2: nat, sides: Sides, ldatum: Box, sizeL: real, rdatum: Box, sizeR: real)
    requires |es| >= 3 && Seeds(es, s1, s2) && sides == Deal(es, s1, s2, |es|)
    requires SideOk(es, s1, sides.left, ldatum, sizeL) && SideOk(es, s2, sides.right, rdatum, sizeR)
    ensures Dealt(sides, |es|) && GoodSides(es, sides.left, sides.right, ldatum, rdatum)
    ensures sides.left != [] && sides.right != []
  {
    hide Same, Covers, Dealt;
    DealIsDealt(es, s1, s2, |es|);
    HullCovers(es, s1, sides.left);
    HullCovers(es, s2, sides.right);
    SameCovers(es, s1, sides.left, ldatum, Hull(es, s1, sides.left));
    SameCovers(es, s2, sides.right, rdatum, Hull(es, s2, sides.right));
    assert SidesFrom(es, s1, s2, sides.left, sides.right, ldatum, rdatum);
  }

  lemma {:induction false} DealtWhere(es: seq<Box>, s1: nat, s2: nat, i: nat, n: nat)
    requires 1 <= s1 < s2 < |es| && 1 <= i < n <= |es|
    ensures i in Deal(es, s1, s2, n).left <==> GoesLeft(es, s1, s2, Deal(es, s1, s2, i), i)
  {
    hide GoesLeft, InRange;
    DealIsDealt(es, s1, s2, n - 1);
    if i < n - 1 {
      DealtWhere(es, s1, s2, i, n - 1);
    }
  }

  lemma LeastIsHull(es: seq<Box>, seed: nat, list: seq<nat>, key: Box)
    requires seed < |es| && InRange(es, list) && Covers(es, seed, list, key)
    ensures Same(key, Hull(es, seed, list))
  {
    HullCovers(es, seed, list);
    var hull := Hull(es, seed, list);
    assert Bounds(key, hull) && Bounds(hull, key);
    assert forall i: nat :: Lo(key, i) <= Lo(hull, i) && Lo(hull, i) <= Lo(key, i);
    assert forall i: nat :: Hi(key, i) <= Hi(hull, i) && Hi(hull, i) <= Hi(key, i);
  }

  /** Told from the finished sides: any entry but the seeds went left exactly when the least box
      around the left entries before it grew less in size by it than that around the right ones. */
  lemma PlacedByGrowth(es: seq<Box>, s1: nat, s2: nat, left: seq<nat>, right: seq<nat>, ldatum: Box, rdatum: Box,
                       i: nat, l: Box, r: Box)
    requires SidesFrom(es, s1, s2, left, right, ldatum, rdatum) && 1 <= i < |es| && i != s1 && i != s2
    requires InRange(es, Below(left, i)) && Covers(es, s1, Below(left, i), l)
    requires InRange(es, Below(right, i)) && Covers(es, s2, Below(right, i), r)
    ensures i in left <==> Size(Union(l, es[i])) - Size(l) < Size(Union(r, es[i])) - Size(r)
  {
    hide Covers, Same, Union, Size;
    SeedRange(es, s1, s2);
    DealtBefore(es, s1, s2, i, |es|);
    DealtWhere(es, s1, s2, i, |es|);
    var s := Deal(es, s1, s2, i);
    var hl, hr := Hull(es, s1, s.left), Hull(es, s2, s.right);
    LeastIsHull(es, s1, s.left, l);
    LeastIsHull(es, s2, s.right, r);
    SameSize(l, hl);
    SameSize(r, hr);
    SameUnion(l, hl, es[i]);
    SameUnion(r, hr, es[i]);
    SameSize(Union(l, es[i]), Union(hl, es[i]));
    SameSize(Union(r, es[i]), Union(hr, es[i]));
  }
}
