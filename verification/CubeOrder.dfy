/**
  The comparison of boxes (cube_cmp_v0): a lexicographic order of the lower and upper corners that
  is total among boxes of one dimension and not transitive across dimensions.
 */
module CubeOrder {
  import opened Cube

  /** The lower, or the upper, corner of a box from one dimension to another. */
  ghost function Run(b: Box, from: nat, to: nat, upper: bool): (s: seq<real>)
    requires from <= to
    ensures |s| == to - from
    ensures forall k: nat :: k < |s| ==> s[k] == if upper then Hi(b, from + k) else Lo(b, from + k)
  {
    seq(to - from, (k: nat) => if upper then Hi(b, from + k) else Lo(b, from + k))
  }

  ghost function Lex(s: seq<real>, t: seq<real>): int
    requires |s| == |t|
  {
    if s == [] then 0
    else if s[0] > t[0] then 1
    else if s[0] < t[0] then -1
    else Lex(s[1..], t[1..])
  }

  /** The corners in the order in which two boxes with these dimensions are compared: first the
      common dimensions, then the others. */
  ghost function View(b: Box, common: nat, all: nat): (s: seq<real>)
    requires common <= all
    ensures |s| == 2 * all
  {
    Run(b, 0, common, false) + Run(b, 0, common, true) + Run(b, common, all, false) + Run(b, common, all, true)
  }

  ghost function Cmp(a: Box, b: Box): int {
    var c := Lex(View(a, MinDim(a, b), MaxDim(a, b)), View(b, MinDim(a, b), MaxDim(a, b)));
    if c != 0 then c else if a.dim > b.dim then 1 else if a.dim < b.dim then -1 else 0
  }

  lemma {:induction false} LexAt(s: seq<real>, t: seq<real>, k: nat)
    requires |s| == |t| && k < |s| && s[k] != t[k] && forall j :: 0 <= j < k ==> s[j] == t[j]
    ensures Lex(s, t) == if s[k] > t[k] then 1 else -1
  {
    if k > 0 {
      LexAt(s[1..], t[1..], k - 1);
    }
  }

  lemma {:induction false} LexZero(s: seq<real>, t: seq<real>)
    requires |s| == |t|
    ensures Lex(s, t) == 0 <==> s == t
  {
    if s != [] {
      LexZero(s[1..], t[1..]);
      assert s == [s[0]] + s[1..] && t == [t[0]] + t[1..];
    }
  }

  lemma {:induction false} LexConcat(s: seq<real>, s': seq<real>, t: seq<real>, t': seq<real>)
    requires |s| == |t| && |s'| == |t'|
    ensures Lex(s + s', t + t') == if Lex(s, t) != 0 then Lex(s, t) else Lex(s', t')
  {
    if s == [] {
      assert s + s' == s' && t + t' == t';
    } else {
      assert (s + s')[1..] == s[1..] + s' && (t + t')[1..] == t[1..] + t';
      LexConcat(s[1..], s', t[1..], t');
    }
  }

  /** One of the loops: the corners of two boxes, the missing dimensions read as zero. */
  method CompareRun(a: Box, b: Box, from: nat, to: nat, upper: bool) returns (c: int)
    requires from <= to
    ensures c == Lex(Run(a, from, to, upper), Run(b, from, to, upper))
  {
    ghost var s, t := Run(a, from, to, upper), Run(b, from, to, upper);
    var i := from;
    while i < to
      invariant from <= i <= to
      invariant forall k :: 0 <= k < i - from ==> s[k] == t[k]
    {
      var x := if upper then Hi(a, i) else Lo(a, i);
      var y := if upper then Hi(b, i) else Lo(b, i);
      assert s[i - from] == x && t[i - from] == y;
      if x > y {
        LexAt(s, t, i - from);
        return 1;
      }
      if x < y {
        LexAt(s, t, i - from);
        return -1;
      }
      i := i + 1;
    }
    assert s == t;
    LexZero(s, t);
    return 0;
  }

  method CmpV0(a: Box, b: Box) returns (c: int)
    ensures c == Cmp(a, b)
  {
    var dim, all := MinDim(a, b), MaxDim(a, b);
    ViewLex(a, b, dim, all);
    c := CompareRun(a, b, 0, dim, false);
    if c != 0 {
      return;
    }
    c := CompareRun(a, b, 0, dim, true);
    if c != 0 {
      return;
    }
    if a.dim != b.dim {
      c := CompareRun(a, b, dim, all, false);
      if c != 0 {
        return;
      }
      c := CompareRun(a, b, dim, all, true);
      if c != 0 {
        return;
      }
      return if a.dim > b.dim then 1 else -1;
    }
    LexZero(Run(a, dim, all, false), Run(b, dim, all, false));
    LexZero(Run(a, dim, all, true), Run(b, dim, all, true));
    return 0;
  }

  ghost function Either(first: int, second: int): int {
    if first != 0 then first else second
  }

  lemma ViewLex(a: Box, b: Box, common: nat, all: nat)
    requires common <= all
    ensures Lex(View(a, common, all), View(b, common, all)) ==
              Either(Lex(Run(a, 0, common, false), Run(b, 0, common, false)),
              Either(Lex(Run(a, 0, common, true), Run(b, 0, common, true)),
              Either(Lex(Run(a, common, all, false), Run(b, common, all, false)),
                     Lex(Run(a, common, all, true), Run(b, common, all, true)))))
  {
    var a1, a2 := Run(a, 0, common, false), Run(a, 0, common, true);
    var a3, a4 := Run(a, common, all, false), Run(a, common, all, true);
    var b1, b2 := Run(b, 0, common, false), Run(b, 0, common, true);
    var b3, b4 := Run(b, common, all, false), Run(b, common, all, true);
    LexConcat(a1, a2, b1, b2);
    LexConcat(a1 + a2, a3, b1 + b2, b3);
    LexConcat(a1 + a2 + a3, a4, b1 + b2 + b3, b4);
  }

  // ---------------------------------------------------------------------------

  lemma {:induction false} LexSwap(s: seq<real>, t: seq<real>)
    requires |s| == |t|
    ensures Lex(s, t) == -Lex(t, s)
  {
    if s != [] {
      LexSwap(s[1..], t[1..]);
    }
  }

  lemma {:induction false} LexTrans(s: seq<real>, t: seq<real>, u: seq<real>)
    requires |s| == |t| == |u| && Lex(s, t) <= 0 && Lex(t, u) <= 0
    ensures Lex(s, u) <= 0
  {
    if s != [] && s[0] == t[0] == u[0] {
      LexTrans(s[1..], t[1..], u[1..]);
    }
  }

  ghost function Corners(b: Box, n: nat): (s: seq<real>)
    ensures |s| == 2 * n
  {
    Run(b, 0, n, false) + Run(b, 0, n, true)
  }

  lemma ViewIsCorners(b: Box, m: nat, n: nat)
    requires m == 0 || m == n
    ensures m <= n && View(b, m, n) == Corners(b, n)
  {
    hide Run;
    var lows, highs := Run(b, 0, n, false), Run(b, 0, n, true);
    if m == 0 {
      assert Run(b, 0, 0, false) == [] && Run(b, 0, 0, true) == [];
    } else {
      assert Run(b, n, n, false) == [] && Run(b, n, n, true) == [];
    }
  }

  lemma SameIffCorners(a: Box, b: Box)
    requires a.dim == b.dim
    ensures Same(a, b) <==> Corners(a, a.dim) == Corners(b, b.dim)
  {
    hide Run, Lo, Hi;
    var n := a.dim;
    var s, t := Corners(a, n), Corners(b, n);
    assert forall i: nat :: i < n ==> s[i] == Lo(a, i) && t[i] == Lo(b, i);
    forall i: nat | i < n
      ensures s[n + i] == Hi(a, i) && t[n + i] == Hi(b, i)
    {
      assert s[n + i] == Run(a, 0, n, true)[i] && t[n + i] == Run(b, 0, n, true)[i];
    }
    if Same(a, b) {
      assert Run(a, 0, n, false) == Run(b, 0, n, false);
      assert Run(a, 0, n, true) == Run(b, 0, n, true);
    }
  }

  /** Equality is that of boxes, and swapping the arguments negates the result. */
  lemma CmpZeroIffSame(a: Box, b: Box)
    ensures Cmp(a, b) == 0 <==> Same(a, b)
    ensures Cmp(a, b) == -Cmp(b, a)
  {
    hide View, Same;
    var m, n := MinDim(a, b), MaxDim(a, b);
    LexSwap(View(a, m, n), View(b, m, n));
    LexZero(View(a, m, n), View(b, m, n));
    if a.dim == b.dim {
      ViewIsCorners(a, m, n);
      ViewIsCorners(b, m, n);
      SameIffCorners(a, b);
    } else {
      SameDim(a, b);
    }
  }

  lemma SameDim(a: Box, b: Box)
    ensures Same(a, b) ==> a.dim == b.dim
  {
  }

  /** With at most one positive dimension around, the comparison is a lexicographic one on corners
      of a fixed length. */
  lemma CmpAsCorners(a: Box, b: Box, e: nat)
    requires a.dim in {0, e} && b.dim in {0, e}
    ensures Cmp(a, b) == Either(Lex(Corners(a, e), Corners(b, e)),
                                if a.dim > b.dim then 1 else if a.dim < b.dim then -1 else 0)
  {
    hide View;
    var m, n := MinDim(a, b), MaxDim(a, b);
    ViewIsCorners(a, m, n);
    ViewIsCorners(b, m, n);
    if n != e {
      assert a.dim == b.dim == 0;
      assert Run(a, 0, e, false) == Run(b, 0, e, false);
      assert Run(a, 0, e, true) == Run(b, 0, e, true);
      LexZero(Corners(a, e), Corners(b, e));
      LexZero(View(a, m, n), View(b, m, n));
    }
  }

  lemma CmpTransitive(a: Box, b: Box, c: Box, e: nat)
    requires a.dim in {0, e} && b.dim in {0, e} && c.dim in {0, e} && Cmp(a, b) <= 0 && Cmp(b, c) <= 0
    ensures Cmp(a, c) <= 0
  {
    hide Cmp, Corners;
    CmpAsCorners(a, b, e);
    CmpAsCorners(b, c, e);
    CmpAsCorners(a, c, e);
    var s, t, u := Corners(a, e), Corners(b, e), Corners(c, e);
    LexTrans(s, t, u);
    if Lex(s, u) == 0 {
      LexZero(s, u);
      LexSwap(t, u);
    }
  }

  /** A box whose corners are zero except in two dimensions. */
  ghost function Spiked(dim: nat, hi: real, at: nat, spikeLo: real, spikeHi: real): (b: Box)
    requires 0.0 <= hi && spikeLo <= spikeHi && at != 0
    ensures b.dim == dim
    ensures forall i: nat :: i < dim ==> Lo(b, i) == if i == at then spikeLo else 0.0
    ensures forall i: nat :: i < dim ==> Hi(b, i) == if i == at then spikeHi else if i == 0 then hi else 0.0
  {
    NDBox(dim, false, seq(dim, i => if i == at then spikeLo else 0.0) +
                      seq(dim, i => if i == at then spikeHi else if i == 0 then hi else 0.0))
  }

  lemma RunLess(a: Box, b: Box, from: nat, to: nat, upper: bool, k: nat)
    requires from <= k < to
    requires forall i: nat :: from <= i < k ==> if upper then Hi(a, i) == Hi(b, i) else Lo(a, i) == Lo(b, i)
    requires if upper then Hi(a, k) < Hi(b, k) else Lo(a, k) < Lo(b, k)
    ensures Lex(Run(a, from, to, upper), Run(b, from, to, upper)) == -1
  {
    LexAt(Run(a, from, to, upper), Run(b, from, to, upper), k - from);
  }

  lemma RunEqual(a: Box, b: Box, from: nat, to: nat, upper: bool)
    requires from <= to
    requires forall i: nat :: from <= i < to ==> if upper then Hi(a, i) == Hi(b, i) else Lo(a, i) == Lo(b, i)
    ensures Lex(Run(a, from, to, upper), Run(b, from, to, upper)) == 0
  {
    assert Run(a, from, to, upper) == Run(b, from, to, upper);
    LexZero(Run(a, from, to, upper), Run(b, from, to, upper));
  }

  ghost predicate LowsAgree(a: Box, b: Box, from: nat, to: nat) {
    forall i: nat :: from <= i < to ==> Lo(a, i) == Lo(b, i)
  }

  ghost predicate HighsAgree(a: Box, b: Box, from: nat, to: nat) {
    forall i: nat :: from <= i < to ==> Hi(a, i) == Hi(b, i)
  }

  /** The first difference decides, among the lower bounds of the common dimensions, then their upper
      bounds, then the lower and the upper bounds of the others, where the box of fewer dimensions
      has zeros; at last the dimensions do. */
  lemma CmpMeaning(a: Box, b: Box, k: nat)
    ensures var m, n := MinDim(a, b), MaxDim(a, b);
            var common := LowsAgree(a, b, 0, m) && HighsAgree(a, b, 0, m);
            && (k < m && LowsAgree(a, b, 0, k) && Lo(a, k) < Lo(b, k) ==> Cmp(a, b) == -1)
            && (k < m && LowsAgree(a, b, 0, m) && HighsAgree(a, b, 0, k) && Hi(a, k) < Hi(b, k) ==> Cmp(a, b) == -1)
            && (m <= k < n && common && LowsAgree(a, b, m, k) && Lo(a, k) < Lo(b, k) ==> Cmp(a, b) == -1)
            && (m <= k < n && common && LowsAgree(a, b, m, n) && HighsAgree(a, b, m, k) && Hi(a, k) < Hi(b, k) ==>
                  Cmp(a, b) == -1)
            && (common && LowsAgree(a, b, m, n) && HighsAgree(a, b, m, n) && a.dim < b.dim ==> Cmp(a, b) == -1)
  {
    hide View, Lo, Hi;
    var m, n := MinDim(a, b), MaxDim(a, b);
    ViewLex(a, b, m, n);
    if LowsAgree(a, b, 0, m) {
      RunEqual(a, b, 0, m, false);
    }
    if HighsAgree(a, b, 0, m) {
      RunEqual(a, b, 0, m, true);
    }
    if LowsAgree(a, b, m, n) {
      RunEqual(a, b, m, n, false);
    }
    if HighsAgree(a, b, m, n) {
      RunEqual(a, b, m, n, true);
    }
    if k < m && LowsAgree(a, b, 0, k) && Lo(a, k) < Lo(b, k) {
      RunLess(a, b, 0, m, false, k);
    }
    if k < m && HighsAgree(a, b, 0, k) && Hi(a, k) < Hi(b, k) {
      RunLess(a, b, 0, m, true, k);
    }
    if m <= k < n && LowsAgree(a, b, m, k) && Lo(a, k) < Lo(b, k) {
      RunLess(a, b, m, n, false, k);
    }
    if m <= k < n && HighsAgree(a, b, m, k) && Hi(a, k) < Hi(b, k) {
      RunLess(a, b, m, n, true, k);
    }
  }

  lemma CycleFirst(d: nat, e: nat)
    requires 0 < d < e
    ensures Cmp(Spiked(d, 1.0, d, 0.0, 0.0), Spiked(e, 5.0, d, -1.0, 0.0)) < 0
  {
    var a, b := Spiked(d, 1.0, d, 0.0, 0.0), Spiked(e, 5.0, d, -1.0, 0.0);
    ViewLex(a, b, d, e);
    RunEqual(a, b, 0, d, false);
    RunLess(a, b, 0, d, true, 0);
  }

  lemma CycleSecond(d: nat, e: nat)
    requires 0 < d < e
    ensures Cmp(Spiked(e, 5.0, d, -1.0, 0.0), Spiked(e, 0.5, d, 1.0, 1.0)) < 0
  {
    var b, c := Spiked(e, 5.0, d, -1.0, 0.0), Spiked(e, 0.5, d, 1.0, 1.0);
    ViewLex(b, c, e, e);
    RunLess(b, c, 0, e, false, d);
  }

  lemma CycleThird(d: nat, e: nat)
    requires 0 < d < e
    ensures Cmp(Spiked(e, 0.5, d, 1.0, 1.0), Spiked(d, 1.0, d, 0.0, 0.0)) < 0
  {
    var c, a := Spiked(e, 0.5, d, 1.0, 1.0), Spiked(d, 1.0, d, 0.0, 0.0);
    ViewLex(c, a, d, e);
    RunEqual(c, a, 0, d, false);
    RunLess(c, a, 0, d, true, 0);
  }

  /** Any two different positive dimensions admit three boxes that go round in a circle. */
  lemma CmpCycle(d: nat, e: nat)
    requires 0 < d < e
    ensures exists a: Box, b: Box, c: Box ::
              a.dim == d && b.dim == c.dim == e && Cmp(a, b) < 0 && Cmp(b, c) < 0 && Cmp(c, a) < 0
  {
    hide Cmp;
    CycleFirst(d, e);
    CycleSecond(d, e);
    CycleThird(d, e);
  }

  ghost predicate TransitiveOn(d: nat, e: nat) {
    forall a: Box, b: Box, c: Box ::
      a.dim in {d, e} && b.dim in {d, e} && c.dim in {d, e} && Cmp(a, b) <= 0 && Cmp(b, c) <= 0 ==> Cmp(a, c) <= 0
  }

  /** The comparison orders the boxes of two dimensions exactly when these do not differ or one of
      them is zero. */
  lemma TransitiveIff(d: nat, e: nat)
    ensures TransitiveOn(d, e) <==> d == e || d == 0 || e == 0
  {
    hide Cmp;
    if d == e || d == 0 || e == 0 {
      var n := if d == 0 then e else d;
      forall a: Box, b: Box, c: Box
        | a.dim in {d, e} && b.dim in {d, e} && c.dim in {d, e} && Cmp(a, b) <= 0 && Cmp(b, c) <= 0
        ensures Cmp(a, c) <= 0
      {
        CmpTransitive(a, b, c, n);
      }
    } else {
      var low, high := if d < e then d else e, if d < e then e else d;
      CmpCycle(low, high);
      var a: Box, b: Box, c: Box :|
        a.dim == low && b.dim == c.dim == high && Cmp(a, b) < 0 && Cmp(b, c) < 0 && Cmp(c, a) < 0;
      CmpZeroIffSame(c, a);
      assert Cmp(a, b) <= 0 && Cmp(b, c) <= 0 && Cmp(a, c) > 0;
    }
  }
}
