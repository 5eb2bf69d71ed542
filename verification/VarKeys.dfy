/**
  The bytea operator class of btree_gist. An index entry carries a range [lower, upper];
  ranges of internal entries are cut to the common prefix plus a few bytes, and the
  consistent test repairs the loss with a prefix match.
 */
module VarKeys {
  import opened ByteOrder

  datatype Range = Range(lower: Bytes, upper: Bytes)

  predicate Ordered(k: Range) {
    Le(k.lower, k.upper)
  }

  function CpLen(k: Range): nat {
    CommonLen(k.lower, k.upper)
  }

  /** gbt_var_node_cp_len for a single-byte type. */
  method NodeCpLen(k: Range) returns (i: nat)
    ensures i == CpLen(k)
  {
    i := 0;
    var ml := Min(|k.lower|, |k.upper|);
    if ml == 0 { return; }
    while i < ml
      invariant 0 <= i <= ml
      invariant forall j :: 0 <= j < i ==> k.lower[j] == k.upper[j]
    {
      if k.lower[i] != k.upper[i] { break; }
      i := i + 1;
    }
    CommonLenUnique(k.lower, k.upper, i);
  }

  /** gbt_bytea_pf_match. */
  predicate PrefixMatch(pf: Bytes, query: Bytes) {
    |pf| <= |query| && query[..|pf|] == pf
  }

  /** gbt_var_node_pf_match with trnc true. */
  predicate NodePrefixMatch(k: Range, query: Bytes) {
    PrefixMatch(k.lower, query) || PrefixMatch(k.upper, query)
  }

  /** gbt_var_node_truncate: each bound keeps at most cpf + 1 bytes. */
  function Truncate(k: Range, cpf: nat): Range {
    Range(Take(k.lower, cpf + 1), Take(k.upper, cpf + 1))
  }

  /** gbt_var_bin_union on an existing key. */
  function BinUnion(u: Range, e: Range): Range {
    Range(if Cmp(u.lower, e.lower) > 0 then e.lower else u.lower,
          if Cmp(u.upper, e.upper) < 0 then e.upper else u.upper)
  }

  /** The untruncated union of a non-empty list of keys. */
  function Hull(ks: seq<Range>): Range
    requires |ks| > 0
  {
    if |ks| == 1 then ks[0] else BinUnion(Hull(ks[..|ks| - 1]), ks[|ks| - 1])
  }

  lemma HullOne(k: Range)
    ensures Hull([k]) == k
  {
  }

  lemma HullSnoc(ks: seq<Range>, k: Range)
    requires |ks| > 0
    ensures Hull(ks + [k]) == BinUnion(Hull(ks), k)
  {
    assert (ks + [k])[..|ks|] == ks;
  }

  /** The key of a page whose entries have the given keys, cut after cut + 2 bytes. */
  function CutHull(ks: seq<Range>, cut: nat): Range
    requires |ks| > 0
  {
    Truncate(Hull(ks), cut + 1)
  }

  function Union(ks: seq<Range>): Range
    requires |ks| > 0
  {
    CutHull(ks, CpLen(Hull(ks)))
  }

  /** gbt_var_union. */
  method VarUnion(entries: seq<Range>) returns (out: Range)
    requires |entries| > 0
    ensures out == Union(entries)
  {
    out := entries[0];
    assert entries[..1] == [entries[0]];
    for i := 1 to |entries|
      invariant out == Hull(entries[..i])
    {
      assert entries[..i + 1][..i] == entries[..i];
      out := BinUnion(out, entries[i]);
    }
    assert entries[..|entries|] == entries;
    var plen := NodeCpLen(out);
    out := Truncate(out, plen + 1);
  }

  // ---------------------------------------------------------------------------
  // What a key promises about the values below it.

  /** What every key keeps about every value v stored below it: v is not below lower, and v
      does not exceed upper within the common prefix plus two bytes. */
  predicate Covers(k: Range, v: Bytes) {
    Le(k.lower, v) && Le(Take(v, CpLen(k) + 2), Take(k.upper, CpLen(k) + 2))
  }

  /** The hull bounds each key on both ends, and one of the keys reaches each end. */
  lemma BinUnionBounds(u: Range, e: Range)
    ensures var r := BinUnion(u, e);
            && Le(r.lower, u.lower) && Le(r.lower, e.lower)
            && Le(u.upper, r.upper) && Le(e.upper, r.upper)
  {
    CmpSign(u.lower, e.lower);
    CmpSign(u.upper, e.upper);
    CmpSign(u.lower, u.lower);
    CmpSign(u.upper, u.upper);
    CmpSign(e.lower, e.lower);
    CmpSign(e.upper, e.upper);
  }

  /** Each end of the hull belongs to one of the keys. */
  lemma {:induction false} HullReached(ks: seq<Range>) returns (i: nat, j: nat)
    requires |ks| > 0
    ensures i < |ks| && j < |ks| && Hull(ks).lower == ks[i].lower && Hull(ks).upper == ks[j].upper
  {
    var n := |ks| - 1;
    if n == 0 {
      return 0, 0;
    }
    i, j := HullReached(ks[..n]);
    i := if Cmp(Hull(ks[..n]).lower, ks[n].lower) > 0 then n else i;
    j := if Cmp(Hull(ks[..n]).upper, ks[n].upper) < 0 then n else j;
  }

  /** The hull bounds every key at both ends. */
  lemma {:induction false} HullBounds(ks: seq<Range>, i: nat)
    requires i < |ks|
    ensures Le(Hull(ks).lower, ks[i].lower) && Le(ks[i].upper, Hull(ks).upper)
  {
    hide Cmp, BinUnion;
    var n := |ks| - 1;
    if n > 0 {
      var h := Hull(ks[..n]);
      BinUnionBounds(h, ks[n]);
      if i < n {
        HullBounds(ks[..n], i);
        LeTrans(Hull(ks).lower, h.lower, ks[i].lower);
        LeTrans(ks[i].upper, h.upper, Hull(ks).upper);
      }
    } else {
      BinUnionBounds(ks[0], ks[0]);
      LeRefl(ks[0].lower);
      LeRefl(ks[0].upper);
    }
  }

  lemma CutKeepsCpLen(h: Range, cut: nat)
    requires CpLen(h) <= cut
    ensures CpLen(Truncate(h, cut + 1)) == CpLen(h)
  {
    var t := Truncate(h, cut + 1);
    CommonLenUnique(t.lower, t.upper, CpLen(h));
  }

  /** An exact leaf key covers its own value and no other. */
  lemma LeafCovers(w: Bytes, v: Bytes)
    ensures Covers(Range(w, w), v) <==> v == w
  {
    CmpSign(w, w);
    CmpSign(w, v);
    PrefixLe(w, w);
    var t := Take(v, |w| + 2);
    if Covers(Range(w, w), v) {
      PrefixLe(t, v);
      var c := CommonLen(w, v);
      if v != w {
        CommonLenUnique(t, w, c);
      }
    }
  }

  lemma TakeTake(a: Bytes, m: nat, n: nat)
    requires n <= m
    ensures Take(Take(a, m), n) == Take(a, n)
  {
  }

  /** A wider range shares no longer a prefix. */
  lemma HullCpLen(h: Range, k: Range)
    requires Ordered(k) && Le(h.lower, k.lower) && Le(k.upper, h.upper)
    ensures CpLen(h) <= CpLen(k)
  {
    LeTrans(k.lower, k.upper, h.upper);
    LeTrans(h.lower, k.lower, k.upper);
    BetweenSharesPrefix(h.lower, k.lower, h.upper);
    BetweenSharesPrefix(h.lower, k.upper, h.upper);
  }

  /** Below the cut, a value covered by a narrower key stays under the wider key's upper end. */
  lemma WiderUpper(h: Range, k: Range, v: Bytes, c: nat)
    requires c <= CpLen(k) && Le(k.upper, h.upper) && Covers(k, v)
    ensures Le(Take(v, c + 2), Take(h.upper, c + 2))
  {
    hide Cmp, CommonLen, Take;
    var d := CpLen(k);
    TakeMonotone(Take(v, d + 2), Take(k.upper, d + 2), c + 2);
    TakeTake(v, d + 2, c + 2);
    TakeTake(k.upper, d + 2, c + 2);
    TakeMonotone(k.upper, h.upper, c + 2);
    LeTrans(Take(v, c + 2), Take(k.upper, c + 2), Take(h.upper, c + 2));
  }

  lemma WiderLower(h: Range, k: Range, v: Bytes, n: nat)
    requires Le(h.lower, k.lower) && Covers(k, v)
    ensures Le(Take(h.lower, n), v)
  {
    PrefixLe(Take(h.lower, n), h.lower);
    LeTrans(Take(h.lower, n), h.lower, k.lower);
    LeTrans(Take(h.lower, n), k.lower, v);
  }

  /** The union step, for any cut at or beyond the common prefix: coverage is kept. */
  lemma CutHullCovers(ks: seq<Range>, cut: nat, i: nat, v: Bytes)
    requires i < |ks| && Ordered(ks[i]) && Covers(ks[i], v)
    requires CpLen(Hull(ks)) <= cut
    ensures Covers(CutHull(ks, cut), v)
  {
    hide Cmp, CommonLen, Take, Hull;
    var h := Hull(ks);
    HullBounds(ks, i);
    CutKeepsCpLen(h, cut);
    HullCpLen(h, ks[i]);
    WiderLower(h, ks[i], v, cut + 2);
    WiderUpper(h, ks[i], v, CpLen(h));
    TakeTake(h.upper, cut + 2, CpLen(h) + 2);
  }

  /** The union of a page is its least lower and its greatest upper bound, each cut two bytes behind
      the prefix that they share. */
  lemma UnionMeaning(ks: seq<Range>) returns (i: nat, j: nat)
    requires |ks| > 0
    ensures i < |ks| && j < |ks|
    ensures forall k :: 0 <= k < |ks| ==> Le(ks[i].lower, ks[k].lower) && Le(ks[k].upper, ks[j].upper)
    ensures var c := CommonLen(ks[i].lower, ks[j].upper);
            Union(ks) == Range(Take(ks[i].lower, c + 2), Take(ks[j].upper, c + 2))
  {
    hide Cmp, Hull;
    i, j := HullReached(ks);
    forall k | 0 <= k < |ks|
      ensures Le(ks[i].lower, ks[k].lower) && Le(ks[k].upper, ks[j].upper)
    {
      HullBounds(ks, k);
    }
  }
}
