/**
  How a bytea index key is stored: a length word around one value for a leaf entry, around two
  values for an internal entry, the second one aligned to four bytes. Nothing else marks an
  entry as a leaf, so reading a key back depends on the lengths alone.
 */
module VarLayout {
  import opened ByteOrder
  import opened VarKeys

  const VARHDRSZ: nat := 4
  const MAX_SIZE: nat := 0x4000_0000

  function IntAlign(n: nat): (m: nat)
    ensures n <= m < n + 4 && m % 4 == 0
  {
    (n + 3) / 4 * 4
  }

  /** The four-byte length word of an uncompressed varlena of n bytes, least byte first. */
  function Header(n: nat): (h: Bytes)
    requires n < MAX_SIZE
    ensures |h| == VARHDRSZ
  {
    [4 * n % 256, 4 * n / 0x100 % 256, 4 * n / 0x1_0000 % 256, 4 * n / 0x100_0000 % 256]
  }

  /** VARSIZE of the varlena at the given position. */
  function VarSize(s: Bytes, at: nat): nat
    requires at + VARHDRSZ <= |s|
  {
    var b0: int, b1: int, b2: int, b3: int := s[at], s[at + 1], s[at + 2], s[at + 3];
    (b0 + 0x100 * b1 + 0x1_0000 * b2 + 0x100_0000 * b3) / 4
  }

  function Varlena(d: Bytes): Bytes
    requires |d| + VARHDRSZ < MAX_SIZE
  {
    Header(|d| + VARHDRSZ) + d
  }

  function Zeros(n: nat): (z: Bytes)
    ensures |z| == n
  {
    seq(n, _ => 0)
  }

  /** gbt_var_key_from_datum. */
  function KeyFromDatum(d: Bytes): Bytes
    requires |d| + 2 * VARHDRSZ < MAX_SIZE
  {
    Header(|d| + 2 * VARHDRSZ) + Varlena(d)
  }

  predicate Fits(r: Range) {
    IntAlign(|r.lower| + VARHDRSZ) + |r.upper| + 2 * VARHDRSZ < MAX_SIZE
  }

  /** gbt_var_key_copy. */
  function KeyCopy(r: Range): Bytes
    requires Fits(r)
  {
    var lowersize := |r.lower| + VARHDRSZ;
    Header(IntAlign(lowersize) + |r.upper| + 2 * VARHDRSZ)
    + Varlena(r.lower) + Zeros(IntAlign(lowersize) - lowersize) + Varlena(r.upper)
  }

  /** What gbt_var_key_readable reports: the bounds, and whether both pointers are the same. */
  datatype Readable = Readable(range: Range, isLeaf: bool) | Malformed

  predicate HasVarlena(s: Bytes, at: nat) {
    at + VARHDRSZ <= |s| && VARHDRSZ <= VarSize(s, at) && at + VarSize(s, at) <= |s|
  }

  /** gbt_var_key_readable. The source trusts its input; bytes that are not a key are reported
      as malformed here. */
  function KeyReadable(s: Bytes): Readable {
    if !HasVarlena(s, 0) || !HasVarlena(s, VARHDRSZ) then Malformed
    else
      var lowersize := VarSize(s, VARHDRSZ);
      var lower := s[2 * VARHDRSZ..VARHDRSZ + lowersize];
      if VarSize(s, 0) > VARHDRSZ + lowersize then
        var at := VARHDRSZ + IntAlign(lowersize);
        if !HasVarlena(s, at) then Malformed
        else Readable(Range(lower, s[at + VARHDRSZ..at + VarSize(s, at)]), false)
      else Readable(Range(lower, lower), true)
  }

  lemma HeaderRoundTrip(n: nat, pre: Bytes, post: Bytes)
    requires n < MAX_SIZE
    ensures VarSize(pre + Header(n) + post, |pre|) == n
  {
    var m := 4 * n;
    var s, h, a := pre + Header(n) + post, Header(n), |pre|;
    assert s[a] == h[0] && s[a + 1] == h[1] && s[a + 2] == h[2] && s[a + 3] == h[3];
    assert m == m % 256 + 0x100 * (m / 0x100);
    assert m / 0x100 == m / 0x100 % 256 + 0x100 * (m / 0x1_0000);
    assert m / 0x1_0000 == m / 0x1_0000 % 256 + 0x100 * (m / 0x100_0000);
    assert m / 0x100_0000 % 256 == m / 0x100_0000;
  }

  lemma LeafRoundTrip(d: Bytes)
    requires |d| + 2 * VARHDRSZ < MAX_SIZE
    ensures KeyReadable(KeyFromDatum(d)) == Readable(Range(d, d), true)
  {
    var s, outer := KeyFromDatum(d), Header(|d| + 2 * VARHDRSZ);
    HeaderRoundTrip(|d| + 2 * VARHDRSZ, [], Varlena(d));
    HeaderRoundTrip(|d| + VARHDRSZ, outer, d);
    assert [] + outer + Varlena(d) == s;
    assert outer + Header(|d| + VARHDRSZ) + d == s;
    assert s[2 * VARHDRSZ..2 * VARHDRSZ + |d|] == d;
  }

  /** The three length words of an internal key, each read at its own place. */
  lemma NodeSizes(r: Range)
    requires Fits(r)
    ensures var s, ls := KeyCopy(r), |r.lower| + VARHDRSZ;
            && |s| == IntAlign(ls) + |r.upper| + 2 * VARHDRSZ
            && VarSize(s, 0) == |s|
            && VarSize(s, VARHDRSZ) == ls
            && VarSize(s, VARHDRSZ + IntAlign(ls)) == |r.upper| + VARHDRSZ
  {
    hide VarSize, Header, IntAlign, Zeros;
    var s, ls := KeyCopy(r), |r.lower| + VARHDRSZ;
    var total := IntAlign(ls) + |r.upper| + 2 * VARHDRSZ;
    var pad, upper := Zeros(IntAlign(ls) - ls), Varlena(r.upper);
    var before := Header(total) + Varlena(r.lower) + pad;
    HeaderRoundTrip(total, [], Varlena(r.lower) + pad + upper);
    assert [] + Header(total) + (Varlena(r.lower) + pad + upper) == s;
    HeaderRoundTrip(ls, Header(total), r.lower + pad + upper);
    assert Header(total) + Header(ls) + (r.lower + pad + upper) == s;
    HeaderRoundTrip(|r.upper| + VARHDRSZ, before, r.upper);
    assert before + Header(|r.upper| + VARHDRSZ) + r.upper == s;
  }

  /** An internal key reads back as itself, even when its two bounds are equal or empty: it is
      never taken for a leaf. */
  lemma NodeRoundTrip(r: Range)
    requires Fits(r)
    ensures KeyReadable(KeyCopy(r)) == Readable(r, false)
  {
    hide VarSize, Header, IntAlign, Zeros;
    NodeSizes(r);
    var s, ls := KeyCopy(r), |r.lower| + VARHDRSZ;
    assert s[2 * VARHDRSZ..2 * VARHDRSZ + |r.lower|] == r.lower;
    assert s[|s| - |r.upper|..] == r.upper;
  }
}
