/**
  Distances between boxes and nearest-neighbour search: the distances are those between the
  nearest points of the boxes, and the distance of a key never exceeds that of a box below it.
  The Euclidean distance is taken before the square root.
 */
module CubeDistance {
  import opened Common
  import opened Cube
  import opened CubeSearch
  import opened GistTree

  datatype Metric = Taxicab | Euclid | Chebyshev

  function Square(r: real): real {
    r * r
  }

  /** The loops' way of adding one more dimension. */
  function Step(m: Metric, acc: real, d: real): real {
    match m
    case Taxicab => acc + d
    case Euclid => acc + Square(d)
    case Chebyshev => if d > acc then d else acc
  }

  ghost function Accumulate(m: Metric, f: nat -> real, n: nat): real {
    if n == 0 then 0.0 else Step(m, Accumulate(m, f, n - 1), f(n - 1))
  }

  function Distance1D(a1: real, a2: real, b1: real, b2: real): real {
    if a1 <= b1 && a2 <= b1 && a1 <= b2 && a2 <= b2 then Min(b1, b2) - Max(a1, a2)
    else if a1 > b1 && a2 > b1 && a1 > b2 && a2 > b2 then Min(a1, a2) - Max(b1, b2)
    else 0.0
  }

  /** The gap between the intervals of two boxes in a dimension. */
  ghost function Gap(a: Box, b: Box, i: nat): real {
    Max(0.0, Max(Lo(a, i) - Hi(b, i), Lo(b, i) - Hi(a, i)))
  }

  ghost function Gaps(a: Box, b: Box): nat -> real {
    (i: nat) => Gap(a, b, i)
  }

  ghost function Distance(m: Metric, a: Box, b: Box): real {
    Accumulate(m, Gaps(a, b), MaxDim(a, b))
  }

  // ---------------------------------------------------------------------------
  // The loops.

  lemma Distance1DIsGap(a: Box, b: Box, i: nat)
    requires i < a.dim
    ensures i < b.dim ==> Distance1D(LL(a, i), UR(a, i), LL(b, i), UR(b, i)) == Gap(a, b, i)
    ensures i >= b.dim ==> Distance1D(LL(a, i), UR(a, i), 0.0, 0.0) == Gap(a, b, i)
  {
  }

  lemma GapSymmetric(a: Box, b: Box, i: nat)
    ensures Gap(a, b, i) == Gap(b, a, i) >= 0.0
  {
  }

  lemma {:induction false} AccumulateAgree(m: Metric, f: nat -> real, g: nat -> real, n: nat)
    requires forall i: nat :: i < n ==> f(i) == g(i)
    ensures Accumulate(m, f, n) == Accumulate(m, g, n)
  {
    if n > 0 {
      AccumulateAgree(m, f, g, n - 1);
    }
  }

  lemma DistanceSymmetric(m: Metric, a: Box, b: Box)
    ensures Distance(m, a, b) == Distance(m, b, a)
  {
    forall i: nat
      ensures Gaps(a, b)(i) == Gaps(b, a)(i)
    {
      GapSymmetric(a, b, i);
    }
    AccumulateAgree(m, Gaps(a, b), Gaps(b, a), MaxDim(a, b));
  }

  /** One more round of either loop. */
  lemma Advance(m: Metric, a: Box, b: Box, i: nat, acc: real, d: real)
    requires i < a.dim && acc == Accumulate(m, Gaps(a, b), i)
    requires d == if i < b.dim then Distance1D(LL(a, i), UR(a, i), LL(b, i), UR(b, i))
                  else Distance1D(LL(a, i), UR(a, i), 0.0, 0.0)
    ensures Step(m, acc, d) == Accumulate(m, Gaps(a, b), i + 1) && d >= 0.0
  {
    hide Distance1D, Gap;
    Distance1DIsGap(a, b, i);
    GapSymmetric(a, b, i);
    assert Gaps(a, b)(i) == d;
  }

  method DistanceTaxicab(a0: Box, b0: Box) returns (distance: real)
    ensures distance == Distance(Taxicab, a0, b0)
  {
    hide Distance1D, Gap, Gaps, LL, UR;
    DistanceSymmetric(Taxicab, a0, b0);
    var a, b := a0, b0;
    if a.dim < b.dim {
      a, b := b0, a0;
    }
    distance := 0.0;
    var i := 0;
    while i < b.dim
      invariant i <= b.dim && distance == Accumulate(Taxicab, Gaps(a, b), i)
    {
      var d := Distance1D(LL(a, i), UR(a, i), LL(b, i), UR(b, i));
      Advance(Taxicab, a, b, i, distance, d);
      distance := distance + Abs(d);
      i := i + 1;
    }
    while i < a.dim
      invariant b.dim <= i <= a.dim && distance == Accumulate(Taxicab, Gaps(a, b), i)
    {
      var d := Distance1D(LL(a, i), UR(a, i), 0.0, 0.0);
      Advance(Taxicab, a, b, i, distance, d);
      distance := distance + Abs(d);
      i := i + 1;
    }
  }

  method DistanceEuclidSquared(a0: Box, b0: Box) returns (distance: real)
    ensures distance == Distance(Euclid, a0, b0)
  {
    hide Distance1D, Square, Gap, Gaps, LL, UR;
    DistanceSymmetric(Euclid, a0, b0);
    var a, b := a0, b0;
    if a.dim < b.dim {
      a, b := b0, a0;
    }
    distance := 0.0;
    var i := 0;
    while i < b.dim
      invariant i <= b.dim && distance == Accumulate(Euclid, Gaps(a, b), i)
    {
      var d := Distance1D(LL(a, i), UR(a, i), LL(b, i), UR(b, i));
      Advance(Euclid, a, b, i, distance, d);
      distance := distance + Square(d);
      i := i + 1;
    }
    while i < a.dim
      invariant b.dim <= i <= a.dim && distance == Accumulate(Euclid, Gaps(a, b), i)
    {
      var d := Distance1D(LL(a, i), UR(a, i), 0.0, 0.0);
      Advance(Euclid, a, b, i, distance, d);
      distance := distance + Square(d);
      i := i + 1;
    }
  }

  method DistanceChebyshev(a0: Box, b0: Box) returns (distance: real)
    ensures distance == Distance(Chebyshev, a0, b0)
  {
    hide Distance1D, Gap, Gaps, LL, UR;
    DistanceSymmetric(Chebyshev, a0, b0);
    var a, b := a0, b0;
    if a.dim < b.dim {
      a, b := b0, a0;
    }
    distance := 0.0;
    var i := 0;
    while i < b.dim
      invariant i <= b.dim && distance == Accumulate(Chebyshev, Gaps(a, b), i)
    {
      var d := Distance1D(LL(a, i), UR(a, i), LL(b, i), UR(b, i));
      Advance(Chebyshev, a, b, i, distance, d);
      if Abs(d) > distance {
        distance := Abs(d);
      }
      i := i + 1;
    }
    while i < a.dim
      invariant b.dim <= i <= a.dim && distance == Accumulate(Chebyshev, Gaps(a, b), i)
    {
      var d := Distance1D(LL(a, i), UR(a, i), 0.0, 0.0);
      Advance(Chebyshev, a, b, i, distance, d);
      if Abs(d) > distance {
        distance := Abs(d);
      }
      i := i + 1;
    }
  }

  // ---------------------------------------------------------------------------
  // What the distances mean.

  lemma SquareMonotone(d: real, e: real)
    requires 0.0 <= d <= e
    ensures 0.0 == Square(0.0) <= Square(d) <= Square(e)
  {
    assert e * e - d * d == (e - d) * (e + d);
  }

  lemma {:induction false} AccumulateMonotone(m: Metric, f: nat -> real, g: nat -> real, n: nat)
    requires forall i: nat :: i < n ==> 0.0 <= f(i) <= g(i)
    ensures Accumulate(m, f, n) <= Accumulate(m, g, n)
  {
    hide Square;
    if n > 0 {
      AccumulateMonotone(m, f, g, n - 1);
      if m.Euclid? {
        SquareMonotone(f(n - 1), g(n - 1));
      }
    }
  }

  /** Dimensions that neither box has add nothing. */
  lemma {:induction false} Padding(m: Metric, a: Box, b: Box, n: nat)
    requires n >= MaxDim(a, b)
    ensures Accumulate(m, Gaps(a, b), n) == Distance(m, a, b)
  {
    if n > MaxDim(a, b) {
      Padding(m, a, b, n - 1);
      assert Gaps(a, b)(n - 1) == 0.0;
      NonNegative(m, Gaps(a, b), n - 1);
    }
  }

  lemma {:induction false} NonNegative(m: Metric, f: nat -> real, n: nat)
    requires forall i: nat :: i < n ==> 0.0 <= f(i)
    ensures 0.0 <= Accumulate(m, f, n)
  {
    if n > 0 {
      NonNegative(m, f, n - 1);
      if m.Euclid? {
        SquareMonotone(0.0, f(n - 1));
      }
    }
  }

  ghost function PointDistance(m: Metric, p: nat -> real, q: nat -> real, n: nat): real {
    Accumulate(m, (i: nat) => Abs(p(i) - q(i)), n)
  }

  /** No two points of the boxes are nearer. */
  lemma DistanceIsLowerBound(m: Metric, a: Box, b: Box, p: nat -> real, q: nat -> real)
    requires Inside(p, a) && Inside(q, b)
    ensures Distance(m, a, b) <= PointDistance(m, p, q, MaxDim(a, b))
  {
    var g := (i: nat) => Abs(p(i) - q(i));
    forall i: nat
      ensures 0.0 <= Gaps(a, b)(i) <= g(i)
    {
      assert Lo(a, i) <= p(i) <= Hi(a, i) && Lo(b, i) <= q(i) <= Hi(b, i);
    }
    AccumulateMonotone(m, Gaps(a, b), g, MaxDim(a, b));
  }

  /** The coordinate of a box that is nearest to another box. */
  ghost function Nearest(a: Box, b: Box, i: nat): real {
    if Hi(a, i) < Lo(b, i) then Hi(a, i)
    else if Hi(b, i) < Lo(a, i) then Lo(a, i)
    else Max(Lo(a, i), Lo(b, i))
  }

  /** Some two points of the boxes are that near. */
  lemma DistanceIsAttained(m: Metric, a: Box, b: Box)
    ensures exists p: nat -> real, q: nat -> real ::
              Inside(p, a) && Inside(q, b) && PointDistance(m, p, q, MaxDim(a, b)) == Distance(m, a, b)
  {
    var p := (i: nat) => Nearest(a, b, i);
    var q := (i: nat) => Nearest(b, a, i);
    var n := MaxDim(a, b);
    assert Inside(p, a) && Inside(q, b);
    AccumulateAgree(m, Gaps(a, b), (i: nat) => Abs(p(i) - q(i)), n);
    assert PointDistance(m, p, q, n) == Distance(m, a, b);
  }

  /** A key is at most as far from the query as any box it bounds. */
  lemma KeyDistanceBelow(m: Metric, key: Box, x: Box, query: Box)
    requires Bounds(key, x)
    ensures Distance(m, key, query) <= Distance(m, x, query)
  {
    var n := MaxDim(key, query);
    forall i: nat
      ensures 0.0 <= Gaps(key, query)(i) <= Gaps(x, query)(i)
    {
      assert Lo(key, i) <= Lo(x, i) && Hi(x, i) <= Hi(key, i);
    }
    AccumulateMonotone(m, Gaps(key, query), Gaps(x, query), n);
    Padding(m, x, query, n);
  }

  /** So no subtree holds a box nearer than its own key. */
  lemma NeverSkipsNearer(m: Metric, e: CubeEntry, l: (Box, nat), query: Box)
    requires Built(e) && l in Leaves(e)
    ensures Distance(m, KeyOf(e), query) <= Distance(m, l.0, query)
  {
    KeyBoundsLeaf(e, l);
    KeyDistanceBelow(m, KeyOf(e), l.0, query);
  }

  // ---------------------------------------------------------------------------
  // Ordering by a coordinate.

  /** The operator ~>; zero is not a coordinate. */
  function CoordLlur(cube: Box, coord: int): Option<real> {
    if coord == 0 then None
    else
      var c := if coord < 0 then -coord else coord;
      var index, upper := (c - 1) / 2, (c - 1) % 2 == 1;
      var v :=
        if c > 2 * cube.dim then 0.0
        else if cube.isPoint then cube.x[index]
        else if upper then Max(cube.x[index], cube.x[index + cube.dim])
        else Min(cube.x[index], cube.x[index + cube.dim]);
      Some(if coord < 0 then -v else v)
  }

  /** The strategy CubeKNNDistanceCoord of g_cube_distance. */
  function CoordDistance(cube: Box, coord: int, isLeaf: bool): Option<real> {
    if coord == 0 then None
    else
      var inverse := coord < 0;
      var c := if inverse then -coord else coord;
      var index, upper := (c - 1) / 2, (c - 1) % 2 == 1;
      var v :=
        if c > 2 * cube.dim then 0.0
        else if cube.isPoint then cube.x[index]
        else if if isLeaf then upper else inverse then Max(cube.x[index], cube.x[index + cube.dim])
        else Min(cube.x[index], cube.x[index + cube.dim]);
      Some(if inverse then -v else v)
  }

  /** Odd coordinates are lower bounds, even ones upper bounds, of any box; negative ones their
      negations. */
  lemma CoordMeaning(b: Box, n: nat)
    requires n >= 1
    ensures CoordLlur(b, 2 * n - 1) == Some(Lo(b, n - 1)) && CoordLlur(b, 2 * n) == Some(Hi(b, n - 1))
    ensures CoordLlur(b, -(2 * n - 1)) == Some(-Lo(b, n - 1)) && CoordLlur(b, -2 * n) == Some(-Hi(b, n - 1))
  {
  }

  /** On a leaf the index orders by the operator's own value, and a key's value is at most that
      of every box it bounds. */
  lemma CoordDistanceBelow(key: Box, x: Box, coord: int)
    requires Bounds(key, x)
    ensures CoordDistance(x, coord, true) == CoordLlur(x, coord)
    ensures CoordDistance(key, coord, false).None? <==> coord == 0
    ensures coord != 0 ==> CoordDistance(key, coord, false).value <= CoordLlur(x, coord).value
  {
    if coord != 0 {
      var c := if coord < 0 then -coord else coord;
      var i := (c - 1) / 2;
      assert Lo(key, i) <= Lo(x, i) && Hi(x, i) <= Hi(key, i);
    }
  }

  lemma NeverSkipsLower(e: CubeEntry, l: (Box, nat), coord: int)
    requires Built(e) && l in Leaves(e) && coord != 0
    ensures CoordLlur(l.0, coord).Some? && CoordDistance(KeyOf(e), coord, e.Leaf?).Some?
    ensures CoordDistance(KeyOf(e), coord, e.Leaf?).value <= CoordLlur(l.0, coord).value
  {
    KeyBoundsLeaf(e, l);
    CoordDistanceBelow(KeyOf(e), l.0, coord);
  }
}
