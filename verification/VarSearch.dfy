/**
  Searching a GiST tree of bytea keys: descending by the consistent test returns exactly
  the leaf entries a plain filter returns, although every internal key is truncated.
 */
module VarSearch {
  import opened ByteOrder
  import opened VarKeys
  import opened GistTree

  const LESS := 1
  const LESS_EQUAL := 2
  const EQUAL := 3
  const GREATER_EQUAL := 4
  const GREATER := 5
  const NOT_EQUAL := 6

  /** gbt_var_consistent. */
  predicate Consistent(k: Range, query: Bytes, strategy: int, isLeaf: bool) {
    if strategy == LESS_EQUAL then
      if isLeaf then Cmp(query, k.lower) >= 0
      else Cmp(query, k.lower) >= 0 || NodePrefixMatch(k, query)
    else if strategy == LESS then
      if isLeaf then Cmp(query, k.lower) > 0
      else Cmp(query, k.lower) >= 0 || NodePrefixMatch(k, query)
    else if strategy == EQUAL then
      if isLeaf then query == k.lower
      else (Cmp(k.lower, query) <= 0 && Cmp(query, k.upper) <= 0) || NodePrefixMatch(k, query)
    else if strategy == GREATER then
      if isLeaf then Cmp(query, k.upper) < 0
      else Cmp(query, k.upper) <= 0 || NodePrefixMatch(k, query)
    else if strategy == GREATER_EQUAL then
      if isLeaf then Cmp(query, k.upper) <= 0
      else Cmp(query, k.upper) <= 0 || NodePrefixMatch(k, query)
    else if strategy == NOT_EQUAL then !(query == k.lower && query == k.upper)
    else false
  }

  /** What the SQL operator of each strategy says about a stored value. */
  predicate Matches(v: Bytes, query: Bytes, strategy: int) {
    || (strategy == LESS && Lt(v, query))
    || (strategy == LESS_EQUAL && Le(v, query))
    || (strategy == EQUAL && v == query)
    || (strategy == GREATER_EQUAL && Le(query, v))
    || (strategy == GREATER && Lt(query, v))
    || (strategy == NOT_EQUAL && v != query)
  }

  lemma LeafConsistentExact(v: Bytes, query: Bytes, strategy: int)
    ensures Consistent(Range(v, v), query, strategy, true) <==> Matches(v, query, strategy)
  {
    CmpSign(v, query);
  }

  // ---------------------------------------------------------------------------
  // One key: when does no query lose a covered value?

  /** The key answers for v whatever the query: v is at most upper, or it extends one of the
      two bounds. */
  predicate Reaches(k: Range, v: Bytes) {
    Le(v, k.upper) || k.upper <= v || k.lower <= v
  }

  ghost predicate Complete(k: Range, v: Bytes) {
    forall q: Bytes, s: int :: Matches(v, q, s) ==> Consistent(k, q, s, false)
  }

  /** A string squeezed between p and an extension of p extends p. */
  lemma Squeezed(p: Bytes, q: Bytes, v: Bytes)
    requires p <= v && Le(p, q) && Le(q, v)
    ensures p <= q
  {
    PrefixLe(p, v);
    BetweenSharesPrefix(p, q, v);
  }

  /** A query below a reached value, but above upper, extends one of the bounds. */
  lemma ReachedFromAbove(k: Range, v: Bytes, q: Bytes)
    requires Ordered(k) && Reaches(k, v) && Le(q, v)
    ensures Le(q, k.upper) || NodePrefixMatch(k, q)
  {
    if !Le(q, k.upper) {
      CmpSign(q, k.upper);
      if Le(v, k.upper) {
        LeTrans(q, v, k.upper);
      } else if k.upper <= v {
        Squeezed(k.upper, q, v);
      } else {
        LeTrans(k.lower, k.upper, q);
        Squeezed(k.lower, q, v);
      }
    }
  }

  lemma ReachesComplete(k: Range, v: Bytes, q: Bytes, s: int)
    requires Ordered(k) && Covers(k, v) && Reaches(k, v) && Matches(v, q, s)
    ensures Consistent(k, q, s, false)
  {
    hide NodePrefixMatch, Reaches;
    CmpSign(q, v);
    CmpSign(q, k.lower);
    if s == LESS || s == LESS_EQUAL {
      LeTrans(k.lower, v, q);
    } else if s == NOT_EQUAL {
      if k.lower == k.upper == q {
        LeafCovers(q, v);
      }
    } else {
      ReachedFromAbove(k, v, q);
    }
  }

  /** No query loses v if and only if the key reaches v. */
  lemma CompleteIffReaches(k: Range, v: Bytes)
    requires Ordered(k) && Covers(k, v)
    ensures Complete(k, v) <==> Reaches(k, v)
  {
    if Reaches(k, v) {
      forall q: Bytes, s: int | Matches(v, q, s)
        ensures Consistent(k, q, s, false)
      {
        ReachesComplete(k, v, q, s);
      }
    }
    if Complete(k, v) {
      assert Matches(v, v, EQUAL);
      assert Consistent(k, v, EQUAL, false);
    }
  }

  // ---------------------------------------------------------------------------
  // The key of a page: exactly which entries can be lost under it.

  /** The part of an entry's upper bound that its values are known to respect. */
  function Kept(k: Range): Bytes {
    Take(k.upper, CpLen(k) + 2)
  }

  /** An entry whose upper bound was cut shorter than the page key's, so that a value running
      past the cut can sort above the page key without extending it. */
  predicate Risky(k: Range, key: Range) {
    && |Kept(k)| == CpLen(k) + 2
    && Kept(k) < key.upper
    && (exists j :: |Kept(k)| <= j < |key.upper| && key.upper[j] != 255)
    && !(key.lower <= key.upper)
  }

  /** A page key: the hull of its entries' keys, cut at or beyond its own common prefix. */
  predicate PageKey(key: Range, ks: seq<Range>, cut: nat) {
    && |ks| > 0
    && (forall k :: k in ks ==> Ordered(k))
    && CpLen(Hull(ks)) <= cut
    && key == CutHull(ks, cut)
  }

  lemma PageKeyOrdered(key: Range, ks: seq<Range>, cut: nat)
    requires PageKey(key, ks, cut)
    ensures Ordered(key) && CpLen(key) == CpLen(Hull(ks))
  {
    var h := Hull(ks);
    HullBounds(ks, 0);
    assert ks[0] in ks;
    LeTrans(h.lower, ks[0].lower, ks[0].upper);
    LeTrans(h.lower, ks[0].upper, h.upper);
    TakeMonotone(h.lower, h.upper, cut + 2);
    CutKeepsCpLen(h, cut);
  }

  /** A value at most the untruncated upper end is reached. */
  lemma BelowHullReached(upper: Bytes, cut: nat, v: Bytes)
    requires Le(v, upper)
    ensures Le(v, Take(upper, cut)) || Take(upper, cut) <= v
  {
    var w := Take(upper, cut);
    CmpSign(v, w);
    if !Le(v, w) {
      Squeezed(w, v, upper);
    }
  }

  /** A covered value either respects the entry's upper bound or runs past its cut. */
  lemma CoveredCases(k: Range, v: Bytes)
    requires Covers(k, v)
    ensures Le(v, k.upper) || (|Kept(k)| == CpLen(k) + 2 && Kept(k) <= v)
  {
    var n := CpLen(k) + 2;
    var v', t := Take(v, n), Kept(k);
    if |v| <= n {
      PrefixLe(t, k.upper);
      LeTrans(v, t, k.upper);
    } else if v' != t {
      CmpSign(v', t);
      CommonLenUnique(v, k.upper, CommonLen(v', t));
    }
  }

  /** A value that runs past the cut of an entry which is not risky is reached. */
  lemma PastCutReached(k: Range, key: Range, upper: Bytes, v: Bytes)
    requires Le(k.upper, upper) && key.upper <= upper && !Risky(k, key)
    requires |Kept(k)| == CpLen(k) + 2 && Kept(k) <= v
    requires CpLen(key) <= CpLen(k)
    ensures Reaches(key, v)
  {
    var t, w := Kept(k), key.upper;
    var p := CommonLen(t, w);
    if p == |w| || (p == |t| && key.lower <= w) {
    } else if p == |t| {
      var m := CommonLen(v, w);
    } else {
      assert CommonLen(k.upper, upper) == p by { CommonLenUnique(k.upper, upper, p); }
      CommonLenUnique(v, w, p);
    }
  }

  lemma SafeEntryReached(key: Range, ks: seq<Range>, cut: nat, i: nat, v: Bytes)
    requires PageKey(key, ks, cut) && i < |ks| && Covers(ks[i], v) && !Risky(ks[i], key)
    ensures Reaches(key, v)
  {
    var h, k := Hull(ks), ks[i];
    HullBounds(ks, i);
    HullCpLen(h, k);
    PageKeyOrdered(key, ks, cut);
    CoveredCases(k, v);
    if Le(v, k.upper) {
      LeTrans(v, k.upper, h.upper);
      BelowHullReached(h.upper, cut + 2, v);
    } else {
      PastCutReached(k, key, h.upper, v);
    }
  }

  /** A string extending an entry's full cut is covered by the entry. */
  lemma PastCutCovered(k: Range, v: Bytes)
    requires Ordered(k) && |Kept(k)| == CpLen(k) + 2 && Kept(k) <= v
    ensures Covers(k, v)
  {
    CommonLenUnique(k.lower, v, CpLen(k));
    assert Take(v, CpLen(k) + 2) == Kept(k);
    LeRefl(Kept(k));
  }

  /** Raising a byte of the upper bound, past the common prefix, leaves the key's reach. */
  lemma RaisedNotReached(key: Range, j: nat)
    requires Ordered(key) && !(key.lower <= key.upper)
    requires CpLen(key) < j < |key.upper| && key.upper[j] != 255
    ensures !Reaches(key, key.upper[..j] + [255])
  {
    var v, c := key.upper[..j] + [255], CpLen(key);
    CommonLenUnique(v, key.upper, j);
    assert v[c] == key.upper[c];
  }

  /** A risky entry may hold a value that the page key does not reach. */
  lemma RiskyEntryLoses(k: Range, key: Range) returns (v: Bytes)
    requires Ordered(k) && Ordered(key) && CpLen(key) <= CpLen(k) && Risky(k, key)
    ensures Covers(k, v) && !Reaches(key, v)
  {
    hide Covers, Reaches;
    var j :| |Kept(k)| <= j < |key.upper| && key.upper[j] != 255;
    v := key.upper[..j] + [255];
    PastCutCovered(k, v);
    RaisedNotReached(key, j);
  }

  /** Exact condition: no query on any covered value is lost under a page key if and only if
      none of the entries is risky. */
  lemma PageCompleteIffNoneRisky(key: Range, ks: seq<Range>, cut: nat)
    requires PageKey(key, ks, cut)
    ensures (forall k, v :: k in ks && Covers(k, v) ==> Complete(key, v)) <==>
            (forall k :: k in ks ==> !Risky(k, key))
  {
    PageKeyOrdered(key, ks, cut);
    if forall k :: k in ks ==> !Risky(k, key) {
      forall k, v | k in ks && Covers(k, v)
        ensures Complete(key, v)
      {
        var i :| 0 <= i < |ks| && ks[i] == k;
        SafeEntryReached(key, ks, cut, i, v);
        CutHullCovers(ks, cut, i, v);
        CompleteIffReaches(key, v);
      }
    } else {
      var k :| k in ks && Risky(k, key);
      var i :| 0 <= i < |ks| && ks[i] == k;
      HullBounds(ks, i);
      HullCpLen(Hull(ks), k);
      var v := RiskyEntryLoses(k, key);
      CutHullCovers(ks, cut, i, v);
      CompleteIffReaches(key, v);
    }
  }

  /** gbt_var_union cuts at its own common prefix, so it never makes an entry risky. */
  lemma UnionNeverRisky(ks: seq<Range>, i: nat)
    requires i < |ks| && forall k :: k in ks ==> Ordered(k)
    ensures PageKey(Union(ks), ks, CpLen(Hull(ks)))
    ensures !Risky(ks[i], Union(ks))
  {
    HullBounds(ks, i);
    HullCpLen(Hull(ks), ks[i]);
  }

  /** An exact leaf key is never risky, whatever the page key. */
  lemma LeafNeverRisky(w: Bytes, key: Range)
    ensures !Risky(Range(w, w), key)
  {
    PrefixLe(w, w);
  }

  // ---------------------------------------------------------------------------
  // The whole tree.

  /** A page key and where it was truncated. */
  datatype CutKey = CutKey(range: Range, cut: nat)

  type VarEntry = Entry<CutKey, Bytes>

  function KeyOf(e: VarEntry): Range {
    match e
    case Leaf(v, _) => Range(v, v)
    case Node(k, _) => k.range
  }

  function Keys(es: seq<VarEntry>): (ks: seq<Range>)
    ensures |ks| == |es| && forall i :: 0 <= i < |es| ==> ks[i] == KeyOf(es[i])
  {
    seq(|es|, i requires 0 <= i < |es| => KeyOf(es[i]))
  }

  /** The tests of the descent, and the operator, for a query and a strategy number. */
  function PageTest(query: Bytes, strategy: int): CutKey -> bool {
    (k: CutKey) => Consistent(k.range, query, strategy, false)
  }

  function LeafTest(query: Bytes, strategy: int): Bytes -> bool {
    (v: Bytes) => Consistent(Range(v, v), query, strategy, true)
  }

  function Wanted(query: Bytes, strategy: int): Bytes -> bool {
    (v: Bytes) => Matches(v, query, strategy)
  }

  /** Every page key is the hull of the page's keys, cut at or beyond the common prefix, and
      makes no entry of the page risky. */
  predicate Built(e: VarEntry) {
    e.Node? ==>
      && PageKey(e.key.range, Keys(e.children), e.key.cut)
      && (forall c :: c in e.children ==> Built(c) && !Risky(KeyOf(c), e.key.range))
  }

  /** Every page key is gbt_var_union of the keys on the page; the keys of leaf pages may be cut
      further out, as gbt_var_picksplit does. */
  predicate Grown(e: VarEntry) {
    e.Node? ==>
      && |e.children| > 0
      && var ks := Keys(e.children);
      && e.key.range == CutHull(ks, e.key.cut) && CpLen(Hull(ks)) <= e.key.cut
      && (e.key.cut == CpLen(Hull(ks)) || forall c :: c in e.children ==> c.Leaf?)
      && (forall c :: c in e.children ==> Grown(c))
  }

  /** Every key of a built tree covers, and reaches, every value stored below it. */
  lemma {:induction false} BuiltKeyCovers(e: VarEntry, l: (Bytes, nat))
    requires Built(e) && l in Leaves(e)
    ensures Ordered(KeyOf(e)) && Covers(KeyOf(e), l.0)
    ensures e.Node? ==> Reaches(e.key.range, l.0)
    decreases e
  {
    match e
    case Leaf(v, _) =>
      CmpSign(v, v);
      LeafCovers(v, v);
    case Node(CutKey(key, cut), children) =>
      var i := LeafOfChild(children, l);
      assert children[i] in children;
      BuiltKeyCovers(children[i], l);
      PageKeyOrdered(key, Keys(children), cut);
      CutHullCovers(Keys(children), cut, i, l.0);
      SafeEntryReached(key, Keys(children), cut, i, l.0);
  }

  /** No page of a built tree hides a matching value. */
  lemma {:induction false} BuiltHidesNothing(e: VarEntry, query: Bytes, strategy: int)
    requires Built(e)
    ensures HidesNothing(e, PageTest(query, strategy), Wanted(query, strategy))
    decreases e
  {
    hide Consistent, Matches;
    if e.Node? {
      forall l | l in Leaves(e) && Matches(l.0, query, strategy)
        ensures Consistent(e.key.range, query, strategy, false)
      {
        BuiltKeyCovers(e, l);
        ReachesComplete(e.key.range, l.0, query, strategy);
      }
      forall c | c in e.children
        ensures HidesNothing(c, PageTest(query, strategy), Wanted(query, strategy))
      {
        BuiltHidesNothing(c, query, strategy);
      }
    }
  }

  lemma LeafTestExact(query: Bytes, strategy: int)
    ensures SameTest(LeafTest(query, strategy), Wanted(query, strategy))
  {
    forall v
      ensures LeafTest(query, strategy)(v) <==> Wanted(query, strategy)(v)
    {
      LeafConsistentExact(v, query, strategy);
    }
  }

  /** Main theorem: on a built tree the lossy index returns exactly what a filter over all
      leaf entries returns, in order, for every query and every strategy number. */
  lemma SearchExact(e: VarEntry, query: Bytes, strategy: int)
    requires Built(e)
    ensures Search(e, PageTest(query, strategy), LeafTest(query, strategy)) ==
            Filter(Leaves(e), Wanted(query, strategy))
  {
    LeafTestExact(query, strategy);
    BuiltHidesNothing(e, query, strategy);
    SearchExactIff(e, PageTest(query, strategy), LeafTest(query, strategy), Wanted(query, strategy));
  }

  lemma {:induction false} GrownIsBuilt(e: VarEntry)
    requires Grown(e)
    ensures Built(e) && Ordered(KeyOf(e))
    decreases e
  {
    match e
    case Leaf(v, _) =>
      CmpSign(v, v);
    case Node(CutKey(key, cut), children) =>
      var ks := Keys(children);
      forall i | 0 <= i < |children|
        ensures Built(children[i]) && Ordered(ks[i])
      {
        GrownIsBuilt(children[i]);
      }
      forall i | 0 <= i < |children|
        ensures !Risky(ks[i], key)
      {
        if children[i].Leaf? {
          LeafNeverRisky(children[i].value, key);
        } else {
          UnionNeverRisky(ks, i);
        }
      }
      PageKeyOrdered(key, ks, cut);
  }

  /** Trees whose upper page keys are all gbt_var_union and whose leaf pages carry any cut of their
      hull, whatever their depth, lose nothing. */
  lemma GrownTreeSearchExact(e: VarEntry, query: Bytes, strategy: int)
    requires Grown(e)
    ensures Search(e, PageTest(query, strategy), LeafTest(query, strategy)) ==
            Filter(Leaves(e), Wanted(query, strategy))
  {
    GrownIsBuilt(e);
    SearchExact(e, query, strategy);
  }
}
