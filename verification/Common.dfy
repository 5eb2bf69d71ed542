/**
  Small notions that several modules share.
 */
module Common {
  datatype Option<+T> = None | Some(value: T)

  type uint32 = x: int | 0 <= x < 0x1_0000_0000

  function Abs(r: real): real {
    if r < 0.0 then -r else r
  }

  predicate Distinct<T(==)>(xs: seq<T>) {
    forall i, j :: 0 <= i < j < |xs| ==> xs[i] != xs[j]
  }

  /** A list without repetition is no longer than a set that holds its elements. */
  lemma {:induction false} DistinctBounded<T>(xs: seq<T>, s: set<T>)
    requires Distinct(xs) && forall x :: x in xs ==> x in s
    ensures |xs| <= |s|
  {
    if xs != [] {
      var front, last := xs[..|xs| - 1], xs[|xs| - 1];
      DistinctBounded(front, s - {last});
    }
  }
}
