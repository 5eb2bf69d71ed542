/**
  N-dimensional boxes of mixed dimension (contrib/cube). Coordinates are real numbers. A box is
  read as if it had zero in every dimension it lacks.
 */
module Cube {
  import opened Common

  /** x holds the lower left coordinates, then the upper right ones unless the point flag is set. */
  datatype NDBox = NDBox(dim: nat, isPoint: bool, x: seq<real>)

  type Box = b: NDBox | |b.x| == (if b.isPoint then b.dim else 2 * b.dim) witness NDBox(0, true, [])

  function Min(a: real, b: real): real {
    if a < b then a else b
  }

  function Max(a: real, b: real): real {
    if a > b then a else b
  }

  function LL(b: Box, i: nat): real
    requires i < b.dim
  {
    b.x[i]
  }

  function UR(b: Box, i: nat): real
    requires i < b.dim
  {
    if b.isPoint then b.x[i] else b.x[i + b.dim]
  }

  /** The interval of a box in a dimension; the corners may be stored in either order. */
  function Lo(b: Box, i: nat): real {
    if i < b.dim then Min(LL(b, i), UR(b, i)) else 0.0
  }

  function Hi(b: Box, i: nat): real {
    if i < b.dim then Max(LL(b, i), UR(b, i)) else 0.0
  }

  function MaxDim(a: Box, b: Box): nat {
    if a.dim < b.dim then b.dim else a.dim
  }

  function MinDim(a: Box, b: Box): nat {
    if a.dim < b.dim then a.dim else b.dim
  }

  /** The same box, however its corners are stored. */
  ghost predicate Same(a: Box, b: Box) {
    a.dim == b.dim && forall i: nat :: i < a.dim ==> Lo(a, i) == Lo(b, i) && Hi(a, i) == Hi(b, i)
  }

  // ---------------------------------------------------------------------------
  // Union and intersection.

  ghost function Union(a: Box, b: Box): (r: Box)
    ensures r.dim == MaxDim(a, b)
    ensures forall i: nat :: Lo(r, i) == Min(Lo(a, i), Lo(b, i)) && Hi(r, i) == Max(Hi(a, i), Hi(b, i))
  {
    var d := MaxDim(a, b);
    NDBox(d, false,
          seq(d, (i: nat) => Min(Lo(a, i), Lo(b, i))) + seq(d, (i: nat) => Max(Hi(a, i), Hi(b, i))))
  }

  /** Corners that cross where the boxes do not meet, as the source leaves them. */
  ghost function Inter(a: Box, b: Box): (r: Box)
    ensures r.dim == MaxDim(a, b) && !r.isPoint
    ensures forall i: nat :: i < r.dim ==>
              LL(r, i) == Max(Lo(a, i), Lo(b, i)) && UR(r, i) == Min(Hi(a, i), Hi(b, i))
  {
    var d := MaxDim(a, b);
    NDBox(d, false,
          seq(d, (i: nat) => Max(Lo(a, i), Lo(b, i))) + seq(d, (i: nat) => Min(Hi(a, i), Hi(b, i))))
  }

  /** Drops the upper right corner when it equals the lower left one. */
  method SetPointBit(dim: nat, x: seq<real>) returns (r: Box)
    requires |x| == 2 * dim
    ensures r.dim == dim
    ensures forall i: nat :: i < dim ==> LL(r, i) == x[i]
    ensures forall i: nat :: i < dim ==> UR(r, i) == x[i + dim]
    ensures r.isPoint <==> forall i: nat :: i < dim ==> LL(r, i) == UR(r, i)
  {
    var i := 0;
    while i < dim
      invariant i <= dim
      invariant forall k: nat :: k < i ==> x[k] == x[k + dim]
    {
      if x[i] != x[i + dim] {
        r := NDBox(dim, false, x);
        assert LL(r, i) != UR(r, i);
        return;
      }
      i := i + 1;
    }
    r := NDBox(dim, true, x[..dim]);
  }

  lemma Commute(a: real, b: real)
    ensures Min(a, b) == Min(b, a) && Max(a, b) == Max(b, a)
  {
  }

  /** The loops of cube_union_v0, once the larger dimension comes first. */
  method UnionOrdered(large: Box, small: Box) returns (r: Box)
    requires small.dim <= large.dim
    ensures r.dim == large.dim
    ensures forall i: nat :: i < r.dim ==> LL(r, i) == Min(Lo(large, i), Lo(small, i))
    ensures forall i: nat :: i < r.dim ==> UR(r, i) == Max(Hi(large, i), Hi(small, i))
  {
    hide Min, Max, LL, UR;
    var dim := large.dim;
    var x := new real[2 * dim](_ => 0.0);
    var i := 0;
    while i < small.dim
      invariant i <= small.dim
      invariant forall k: nat :: k < i ==> x[k] == Min(Lo(large, k), Lo(small, k))
      invariant forall k: nat :: dim <= k < dim + i ==> x[k] == Max(Hi(large, k - dim), Hi(small, k - dim))
    {
      x[i] := Min(Min(LL(large, i), UR(large, i)), Min(LL(small, i), UR(small, i)));
      x[i + dim] := Max(Max(LL(large, i), UR(large, i)), Max(LL(small, i), UR(small, i)));
      i := i + 1;
    }
    while i < dim
      invariant small.dim <= i <= dim
      invariant forall k: nat :: k < i ==> x[k] == Min(Lo(large, k), Lo(small, k))
      invariant forall k: nat :: dim <= k < dim + i ==> x[k] == Max(Hi(large, k - dim), Hi(small, k - dim))
    {
      x[i] := Min(0.0, Min(LL(large, i), UR(large, i)));
      x[i + dim] := Max(0.0, Max(LL(large, i), UR(large, i)));
      Commute(0.0, Lo(large, i));
      Commute(0.0, Hi(large, i));
      i := i + 1;
    }
    r := SetPointBit(dim, x[..]);
  }

  /** aliased says that the two arguments are one object. */
  method UnionV0(a: Box, b: Box, aliased: bool) returns (r: Box)
    requires aliased ==> a == b
    ensures aliased ==> r == a
    ensures Same(r, Union(a, b))
  {
    if aliased {
      return a;
    }
    if a.dim < b.dim {
      r := UnionOrdered(b, a);
    } else {
      r := UnionOrdered(a, b);
    }
  }

  /** The loops of cube_inter, once the larger dimension comes first. */
  method InterOrdered(large: Box, small: Box) returns (r: Box)
    requires small.dim <= large.dim
    ensures r.dim == large.dim
    ensures forall i: nat :: i < r.dim ==> LL(r, i) == Max(Lo(large, i), Lo(small, i))
    ensures forall i: nat :: i < r.dim ==> UR(r, i) == Min(Hi(large, i), Hi(small, i))
  {
    hide Min, Max, LL, UR;
    var dim := large.dim;
    var x := new real[2 * dim](_ => 0.0);
    var i := 0;
    while i < small.dim
      invariant i <= small.dim
      invariant forall k: nat :: k < i ==> x[k] == Max(Lo(large, k), Lo(small, k))
      invariant forall k: nat :: dim <= k < dim + i ==> x[k] == Min(Hi(large, k - dim), Hi(small, k - dim))
    {
      x[i] := Max(Min(LL(large, i), UR(large, i)), Min(LL(small, i), UR(small, i)));
      x[i + dim] := Min(Max(LL(large, i), UR(large, i)), Max(LL(small, i), UR(small, i)));
      i := i + 1;
    }
    while i < dim
      invariant small.dim <= i <= dim
      invariant forall k: nat :: k < i ==> x[k] == Max(Lo(large, k), Lo(small, k))
      invariant forall k: nat :: dim <= k < dim + i ==> x[k] == Min(Hi(large, k - dim), Hi(small, k - dim))
    {
      x[i] := Max(0.0, Min(LL(large, i), UR(large, i)));
      x[i + dim] := Min(0.0, Max(LL(large, i), UR(large, i)));
      Commute(0.0, Lo(large, i));
      Commute(0.0, Hi(large, i));
      i := i + 1;
    }
    r := SetPointBit(dim, x[..]);
  }

  method CubeInter(a: Box, b: Box) returns (r: Box)
    ensures Same(r, Inter(a, b))
  {
    if a.dim < b.dim {
      r := InterOrdered(b, a);
    } else {
      r := InterOrdered(a, b);
    }
  }

  // ---------------------------------------------------------------------------
  // Containment and overlap.

  /** Excess dimensions of a do not matter, those of b must be zero. */
  ghost predicate Contains(a: Box, b: Box) {
    && (forall i: nat :: a.dim <= i < b.dim ==> Lo(b, i) == 0.0 == Hi(b, i))
    && (forall i: nat :: i < MinDim(a, b) ==> Lo(a, i) <= Lo(b, i) && Hi(b, i) <= Hi(a, i))
  }

  /** The intervals of two boxes meet in a dimension. */
  predicate Meet(a: Box, b: Box, i: nat) {
    Lo(a, i) <= Hi(b, i) && Lo(b, i) <= Hi(a, i)
  }

  ghost predicate Overlap(a: Box, b: Box) {
    forall i: nat :: Meet(a, b, i)
  }

  method ContainsV0(a: Box, b: Box) returns (res: bool)
    ensures res <==> Contains(a, b)
  {
    if a.dim < b.dim {
      var i := a.dim;
      while i < b.dim
        invariant a.dim <= i <= b.dim
        invariant forall k: nat :: a.dim <= k < i ==> Lo(b, k) == 0.0 == Hi(b, k)
      {
        if LL(b, i) != 0.0 || UR(b, i) != 0.0 {
          assert Lo(b, i) != 0.0 || Hi(b, i) != 0.0;
          return false;
        }
        i := i + 1;
      }
    }
    var i := 0;
    while i < MinDim(a, b)
      invariant i <= MinDim(a, b)
      invariant forall k: nat :: k < i ==> Lo(a, k) <= Lo(b, k) && Hi(b, k) <= Hi(a, k)
    {
      if Min(LL(a, i), UR(a, i)) > Min(LL(b, i), UR(b, i)) {
        assert Lo(a, i) > Lo(b, i);
        return false;
      }
      if Max(LL(a, i), UR(a, i)) < Max(LL(b, i), UR(b, i)) {
        assert Hi(a, i) < Hi(b, i);
        return false;
      }
      i := i + 1;
    }
    return true;
  }

  method OverlapV0(a0: Box, b0: Box) returns (res: bool)
    ensures res <==> Overlap(a0, b0)
  {
    var a, b := a0, b0;
    if a.dim < b.dim {
      a, b := b0, a0;
    }
    var i := 0;
    while i < b.dim
      invariant i <= b.dim
      invariant forall k: nat :: k < i ==> Meet(a0, b0, k)
    {
      if Min(LL(a, i), UR(a, i)) > Max(LL(b, i), UR(b, i)) || Max(LL(a, i), UR(a, i)) < Min(LL(b, i), UR(b, i)) {
        assert !Meet(a0, b0, i);
        return false;
      }
      assert Meet(a0, b0, i);
      i := i + 1;
    }
    while i < a.dim
      invariant b.dim <= i <= a.dim
      invariant forall k: nat :: k < i ==> Meet(a0, b0, k)
    {
      if Min(LL(a, i), UR(a, i)) > 0.0 || Max(LL(a, i), UR(a, i)) < 0.0 {
        assert !Meet(a0, b0, i);
        return false;
      }
      assert Meet(a0, b0, i);
      i := i + 1;
    }
    return true;
  }

  /** Containment is transitive exactly where the outer box holds zero in the dimensions that the
      middle one lacks. */
  lemma ContainsTransIff(a: Box, b: Box, c: Box)
    requires Contains(a, b) && Contains(b, c)
    ensures Contains(a, c) <==> forall i: nat :: b.dim <= i < MinDim(a, c) ==> Lo(a, i) <= 0.0 <= Hi(a, i)
  {
    assert forall i: nat :: b.dim <= i < c.dim ==> Lo(c, i) == 0.0 == Hi(c, i);
    assert forall i: nat :: i < MinDim(b, c) ==> Lo(b, i) <= Lo(c, i) <= Hi(c, i) <= Hi(b, i);
    assert forall i: nat :: i < MinDim(a, b) ==> Lo(a, i) <= Lo(b, i) && Hi(b, i) <= Hi(a, i);
  }

  /** (0,5),(2,6) contains the point 1, which contains the point (1,0), which lies outside. */
  lemma ContainsNotTransitive()
    ensures var a: Box := NDBox(2, false, [0.0, 5.0, 2.0, 6.0]);
            var b: Box := NDBox(1, true, [1.0]);
            var c: Box := NDBox(2, true, [1.0, 0.0]);
            Contains(a, b) && Contains(b, c) && !Contains(a, c)
  {
    var a: Box := NDBox(2, false, [0.0, 5.0, 2.0, 6.0]);
    var b: Box := NDBox(1, true, [1.0]);
    var c: Box := NDBox(2, true, [1.0, 0.0]);
    assert Lo(a, 0) == 0.0 && Hi(a, 0) == 2.0 && Lo(a, 1) == 5.0 && Hi(a, 1) == 6.0;
    assert Lo(b, 0) == Hi(b, 0) == 1.0 == Lo(c, 0) == Hi(c, 0) && Lo(c, 1) == Hi(c, 1) == 0.0;
  }

  // ---------------------------------------------------------------------------
  // The bounding relation that keys have to the boxes below them.

  /** key has every dimension of x and its interval holds x's in each of them. */
  ghost predicate Bounds(key: Box, x: Box) {
    key.dim >= x.dim && forall i: nat :: Lo(key, i) <= Lo(x, i) && Hi(x, i) <= Hi(key, i)
  }

  lemma BoundsSelf(b: Box)
    ensures Bounds(b, b)
  {
  }

  lemma BoundsTrans(a: Box, b: Box, c: Box)
    requires Bounds(a, b) && Bounds(b, c)
    ensures Bounds(a, c)
  {
    forall i: nat
      ensures Lo(a, i) <= Lo(c, i) && Hi(c, i) <= Hi(a, i)
    {
      assert Lo(a, i) <= Lo(b, i) && Hi(b, i) <= Hi(a, i);
      assert Lo(b, i) <= Lo(c, i) && Hi(c, i) <= Hi(b, i);
    }
  }

  lemma SameBounds(key: Box, like: Box, x: Box)
    requires Same(key, like)
    ensures Bounds(key, x) <==> Bounds(like, x)
    ensures Bounds(x, key) <==> Bounds(x, like)
  {
    assert forall i: nat :: Lo(key, i) == Lo(like, i) && Hi(key, i) == Hi(like, i);
  }

  /** The union is the least box that bounds both. */
  lemma UnionLeast(a: Box, b: Box, bound: Box)
    ensures Bounds(Union(a, b), a) && Bounds(Union(a, b), b)
    ensures Bounds(bound, Union(a, b)) <==> Bounds(bound, a) && Bounds(bound, b)
  {
    var u := Union(a, b);
    if Bounds(bound, u) {
      assert forall i: nat :: Lo(bound, i) <= Lo(u, i) && Hi(u, i) <= Hi(bound, i);
      assert forall i: nat :: Lo(bound, i) <= Lo(a, i) && Hi(a, i) <= Hi(bound, i);
      assert forall i: nat :: Lo(bound, i) <= Lo(b, i) && Hi(b, i) <= Hi(bound, i);
    }
  }

  /** A box bounds a whole list, and every box that does so bounds it. */
  ghost predicate LeastBound(key: Box, boxes: seq<Box>) {
    && (forall i :: 0 <= i < |boxes| ==> Bounds(key, boxes[i]))
    && (forall other: Box :: (forall i :: 0 <= i < |boxes| ==> Bounds(other, boxes[i])) ==> Bounds(other, key))
  }

  /** The union of a page; a single entry yields no key, as in the source. aliased says that the
      page is one object listed twice. */
  method UnionMany(entries: seq<Box>, aliased: bool) returns (out: Option<Box>)
    requires entries != []
    requires aliased ==> |entries| == 2 && entries[0] == entries[1]
    ensures out.None? <==> |entries| == 1
    ensures out.Some? ==> LeastBound(out.value, entries)
  {
    out := None;
    var tmp := entries[0];
    var i := 1;
    assert LeastBound(tmp, entries[..1]) by { OneLeast(tmp); assert entries[..1] == [tmp]; }
    while i < |entries|
      invariant 1 <= i <= |entries|
      invariant out == if i == 1 then None else Some(tmp)
      invariant i == 1 ==> tmp == entries[0]
      invariant LeastBound(tmp, entries[..i])
    {
      var next := UnionV0(tmp, entries[i], aliased);
      LeastSnoc(tmp, entries[..i], entries[i], next);
      assert entries[..i + 1] == entries[..i] + [entries[i]];
      out := Some(next);
      tmp := next;
      i := i + 1;
    }
    assert entries[..i] == entries;
  }

  lemma OneLeast(x: Box)
    ensures LeastBound(x, [x])
  {
    forall other: Box | forall i :: 0 <= i < |[x]| ==> Bounds(other, [x][i])
      ensures Bounds(other, x)
    {
      assert Bounds(other, [x][0]);
    }
  }

  lemma LeastSnoc(key: Box, boxes: seq<Box>, x: Box, next: Box)
    requires LeastBound(key, boxes) && Same(next, Union(key, x))
    ensures LeastBound(next, boxes + [x])
  {
    hide Bounds, Same, Union;
    var all := boxes + [x];
    UnionLeast(key, x, key);
    SameBounds(next, Union(key, x), x);
    forall i | 0 <= i < |all|
      ensures Bounds(next, all[i])
    {
      if i < |boxes| {
        assert all[i] == boxes[i];
        BoundsTrans(Union(key, x), key, boxes[i]);
        SameBounds(next, Union(key, x), boxes[i]);
      }
    }
    forall other: Box | forall i :: 0 <= i < |all| ==> Bounds(other, all[i])
      ensures Bounds(other, next)
    {
      assert forall i :: 0 <= i < |boxes| ==> boxes[i] == all[i];
      assert all[|boxes|] == x;
      UnionLeast(key, x, other);
      SameBounds(next, Union(key, x), other);
    }
  }
}
