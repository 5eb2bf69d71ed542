/**
  The byte-string order of the bytea type: memcmp over the shorter length, then the
  lengths. Everything about truncated keys rests on the few facts proved here about
  that order and common prefixes.
 */
module ByteOrder {

  type Byte = b: nat | b < 256
  type Bytes = seq<Byte>

  function Min(a: int, b: int): int {
    if a <= b then a else b
  }

  function Max(a: int, b: int): int {
    if a <= b then b else a
  }

  /** Length of the longest common prefix. */
  function CommonLen(a: Bytes, b: Bytes): (k: nat)
    ensures k <= |a| && k <= |b|
    ensures forall i :: 0 <= i < k ==> a[i] == b[i]
    ensures k < |a| && k < |b| ==> a[k] != b[k]
  {
    if a == [] || b == [] || a[0] != b[0] then 0
    else
      var k := CommonLen(a[1..], b[1..]);
      assert forall i :: 0 < i < k + 1 ==> a[i] == a[1..][i - 1] && b[i] == b[1..][i - 1];
      k + 1
  }

  /** byteacmp: the first differing byte decides, then the length. */
  function Cmp(a: Bytes, b: Bytes): int {
    var k := CommonLen(a, b);
    if k < |a| && k < |b| then (if a[k] < b[k] then -1 else 1)
    else if |a| == |b| then 0
    else if |a| < |b| then -1
    else 1
  }

  predicate Le(a: Bytes, b: Bytes) {
    Cmp(a, b) <= 0
  }

  predicate Lt(a: Bytes, b: Bytes) {
    Cmp(a, b) < 0
  }

  /** The first n bytes, or all of them when there are fewer. */
  function Take(a: Bytes, n: nat): (t: Bytes)
    ensures t <= a && |t| == Min(|a|, n)
  {
    if |a| <= n then a else a[..n]
  }

  /** Two strings that agree below k and differ, or end, at k have common length k. */
  lemma CommonLenUnique(a: Bytes, b: Bytes, k: nat)
    requires k <= |a| && k <= |b|
    requires forall i :: 0 <= i < k ==> a[i] == b[i]
    requires k < |a| && k < |b| ==> a[k] != b[k]
    ensures CommonLen(a, b) == k
  {
  }

  lemma CmpSign(a: Bytes, b: Bytes)
    ensures Cmp(a, b) == -Cmp(b, a)
    ensures Cmp(a, b) == 0 <==> a == b
  {
    CommonLenUnique(b, a, CommonLen(a, b));
  }

  /** a is below b: it is a proper prefix, or has the smaller byte where they first differ. */
  predicate BelowAt(a: Bytes, b: Bytes, k: nat) {
    && k <= |a| && k < |b| && a[..k] == b[..k]
    && (k < |a| ==> a[k] < b[k])
  }

  lemma LtIff(a: Bytes, b: Bytes)
    ensures Lt(a, b) <==> exists k: nat :: BelowAt(a, b, k)
    ensures Le(a, b) <==> a == b || Lt(a, b)
  {
    var k := CommonLen(a, b);
    assert a[..k] == b[..k];
    CmpSign(a, b);
    if Lt(a, b) {
      assert BelowAt(a, b, k);
    }
    if k': nat :| BelowAt(a, b, k') {
      assert forall i :: 0 <= i < k' ==> a[i] == a[..k'][i] == b[..k'][i] == b[i];
      CommonLenUnique(a, b, k');
    }
  }

  lemma LeRefl(a: Bytes)
    ensures Le(a, a)
  {
  }

  /** First position at which a <= b <= c lets a and c differ, and in which direction. */
  function DecidingPosition(a: Bytes, b: Bytes, c: Bytes): (k: nat)
    requires Le(a, b) && Le(b, c)
    ensures k <= |a| && k <= |c|
    ensures forall i :: 0 <= i < k ==> a[i] == c[i]
    ensures k < |a| && k < |c| ==> a[k] < c[k]
    ensures k == |a| || k < |c|
  {
    Min(CommonLen(a, b), CommonLen(b, c))
  }

  lemma LeTrans(a: Bytes, b: Bytes, c: Bytes)
    requires Le(a, b) && Le(b, c)
    ensures Le(a, c)
  {
    CommonLenUnique(a, c, DecidingPosition(a, b, c));
  }

  lemma PrefixLe(a: Bytes, b: Bytes)
    requires a <= b
    ensures Le(a, b) && CommonLen(a, b) == |a|
  {
    CommonLenUnique(a, b, |a|);
  }

  /** Cutting both sides at the same length keeps the order. */
  lemma TakeMonotone(a: Bytes, b: Bytes, n: nat)
    requires Le(a, b)
    ensures Le(Take(a, n), Take(b, n))
  {
    CommonLenUnique(Take(a, n), Take(b, n), Min(CommonLen(a, b), n));
  }

  /** A string between two others shares every byte those two share. */
  lemma BetweenSharesPrefix(lo: Bytes, x: Bytes, hi: Bytes)
    requires Le(lo, x) && Le(x, hi)
    ensures CommonLen(lo, hi) <= CommonLen(lo, x)
    ensures CommonLen(lo, hi) <= |x|
    ensures forall i :: 0 <= i < CommonLen(lo, hi) ==> x[i] == lo[i] == hi[i]
  {
    var c, k := CommonLen(lo, hi), CommonLen(lo, x);
    if k < c {
      CommonLenUnique(x, hi, k);
      assert false;
    }
  }
}
