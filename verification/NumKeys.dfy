/**
  The fixed-size operator classes of btree_gist: untruncated ranges over a totally ordered
  type. Coordinates are reals here; every type served by the code is ordered like one.
 */
module NumKeys {
  import opened Common
  import opened Sorting
  import opened HalfSplit
  import opened GistTree

  datatype NumKey = NumKey(lower: real, upper: real)

  const LESS := 1
  const LESS_EQUAL := 2
  const EQUAL := 3
  const GREATER_EQUAL := 4
  const GREATER := 5
  const NOT_EQUAL := 6

  /** gbt_num_bin_union on an existing key. */
  function BinUnion(u: NumKey, e: NumKey): NumKey {
    NumKey(if u.lower > e.lower then e.lower else u.lower,
           if u.upper < e.upper then e.upper else u.upper)
  }

  predicate Within(k: NumKey, inner: NumKey) {
    k.lower <= inner.lower && inner.upper <= k.upper
  }

  /** The least range around all keys: it contains each, and each end belongs to one of them. */
  ghost predicate IsHull(h: NumKey, ks: seq<NumKey>) {
    && (forall k :: k in ks ==> Within(h, k))
    && (exists k :: k in ks && k.lower == h.lower)
    && (exists k :: k in ks && k.upper == h.upper)
  }

  lemma HullUnique(h: NumKey, h': NumKey, ks: seq<NumKey>)
    requires IsHull(h, ks) && IsHull(h', ks)
    ensures h == h'
  {
    var a :| a in ks && a.lower == h.lower;
    var b :| b in ks && b.upper == h.upper;
    var a' :| a' in ks && a'.lower == h'.lower;
    var b' :| b' in ks && b'.upper == h'.upper;
    assert Within(h, a') && Within(h, b') && Within(h', a) && Within(h', b);
  }

  lemma HullSnoc(h: NumKey, ks: seq<NumKey>, k: NumKey)
    requires IsHull(h, ks)
    ensures IsHull(BinUnion(h, k), ks + [k])
  {
    var r, all := BinUnion(h, k), ks + [k];
    var a :| a in ks && a.lower == h.lower;
    var b :| b in ks && b.upper == h.upper;
    assert a in all && b in all && k in all;
    assert exists x :: x in all && x.lower == r.lower by {
      if h.lower > k.lower { assert k.lower == r.lower; } else { assert a.lower == r.lower; }
    }
    assert exists x :: x in all && x.upper == r.upper by {
      if h.upper < k.upper { assert k.upper == r.upper; } else { assert b.upper == r.upper; }
    }
    forall x | x in all
      ensures Within(r, x)
    {
      if x in ks { assert Within(h, x); }
    }
  }

  lemma HullOne(k: NumKey)
    ensures IsHull(k, [k])
  {
    assert k in [k];
  }

  /** gbt_num_union. */
  method NumUnion(entries: seq<NumKey>) returns (out: NumKey)
    requires |entries| > 0
    ensures IsHull(out, entries)
  {
    out := entries[0];
    HullOne(out);
    assert entries[..1] == [out];
    for i := 1 to |entries|
      invariant IsHull(out, entries[..i])
    {
      HullSnoc(out, entries[..i], entries[i]);
      assert entries[..i + 1] == entries[..i] + [entries[i]];
      out := BinUnion(out, entries[i]);
    }
    assert entries[..|entries|] == entries;
  }

  /** gbt_num_consistent. */
  predicate Consistent(k: NumKey, query: real, strategy: int, isLeaf: bool) {
    if strategy == LESS_EQUAL then query >= k.lower
    else if strategy == LESS then (if isLeaf then query > k.lower else query >= k.lower)
    else if strategy == EQUAL then
      (if isLeaf then query == k.lower else k.lower <= query && query <= k.upper)
    else if strategy == GREATER then (if isLeaf then query < k.upper else query <= k.upper)
    else if strategy == GREATER_EQUAL then query <= k.upper
    else if strategy == NOT_EQUAL then !(query == k.lower && query == k.upper)
    else false
  }

  predicate Matches(v: real, query: real, strategy: int) {
    || (strategy == LESS && v < query)
    || (strategy == LESS_EQUAL && v <= query)
    || (strategy == EQUAL && v == query)
    || (strategy == GREATER_EQUAL && v >= query)
    || (strategy == GREATER && v > query)
    || (strategy == NOT_EQUAL && v != query)
  }

  /** On a page key the test passes exactly when some value of its range matches, or a strict
      operator's query is the end of the range. */
  lemma KeyTestMeaning(k: NumKey, query: real, strategy: int)
    requires k.lower <= k.upper
    ensures Consistent(k, query, strategy, false) <==>
              || (exists v :: k.lower <= v <= k.upper && Matches(v, query, strategy))
              || (strategy == LESS && query == k.lower) || (strategy == GREATER && query == k.upper)
  {
    if Consistent(k, query, strategy, false) {
      var v := if strategy == LESS || strategy == LESS_EQUAL then k.lower
               else if strategy == EQUAL then query
               else if strategy == NOT_EQUAL && query == k.upper then k.lower
               else k.upper;
      assert k.lower <= v <= k.upper;
      assert Matches(v, query, strategy) || (strategy == LESS && query == k.lower) ||
             (strategy == GREATER && query == k.upper);
    }
  }

  /** gbt_num_distance, for a type whose f_dist is the absolute difference. */
  function Distance(k: NumKey, query: real): real {
    if query <= k.lower then Abs(query - k.lower)
    else if query >= k.upper then Abs(query - k.upper)
    else 0.0
  }

  // ---------------------------------------------------------------------------

  type NumEntry = Entry<NumKey, real>

  function KeyOf(e: NumEntry): NumKey {
    match e
    case Leaf(v, _) => NumKey(v, v)
    case Node(k, _) => k
  }

  function Keys(es: seq<NumEntry>): (ks: seq<NumKey>)
    ensures |ks| == |es| && forall i :: 0 <= i < |es| ==> ks[i] == KeyOf(es[i])
  {
    seq(|es|, i requires 0 <= i < |es| => KeyOf(es[i]))
  }

  /** Every page key is the hull of the keys on the page; union and picksplit both make one. */
  ghost predicate Built(e: NumEntry) {
    e.Node? ==> IsHull(e.key, Keys(e.children)) && forall c :: c in e.children ==> Built(c)
  }

  /** The tests of the descent, and the operator, for a query and a strategy number. */
  function PageTest(query: real, strategy: int): NumKey -> bool {
    (k: NumKey) => Consistent(k, query, strategy, false)
  }

  function LeafTest(query: real, strategy: int): real -> bool {
    (v: real) => Consistent(NumKey(v, v), query, strategy, true)
  }

  function Wanted(query: real, strategy: int): real -> bool {
    (v: real) => Matches(v, query, strategy)
  }

  lemma {:induction false} BuiltKeyBounds(e: NumEntry, l: (real, nat))
    requires Built(e) && l in Leaves(e)
    ensures KeyOf(e).lower <= l.0 <= KeyOf(e).upper
    decreases e
  {
    if e.Node? {
      var i := LeafOfChild(e.children, l);
      BuiltKeyBounds(e.children[i], l);
      assert Keys(e.children)[i] in Keys(e.children);
    }
  }

  lemma {:induction false} BuiltHidesNothing(e: NumEntry, query: real, strategy: int)
    requires Built(e)
    ensures HidesNothing(e, PageTest(query, strategy), Wanted(query, strategy))
    decreases e
  {
    if e.Node? {
      forall l | l in Leaves(e) && Matches(l.0, query, strategy)
        ensures Consistent(e.key, query, strategy, false)
      {
        BuiltKeyBounds(e, l);
      }
      forall c | c in e.children
        ensures HidesNothing(c, PageTest(query, strategy), Wanted(query, strategy))
      {
        BuiltHidesNothing(c, query, strategy);
      }
    }
  }

  /** Searching a tree of any depth returns exactly what a filter over its leaves returns. */
  lemma SearchExact(e: NumEntry, query: real, strategy: int)
    requires Built(e)
    ensures Search(e, PageTest(query, strategy), LeafTest(query, strategy)) ==
            Filter(Leaves(e), Wanted(query, strategy))
  {
    BuiltHidesNothing(e, query, strategy);
    SearchExactIff(e, PageTest(query, strategy), LeafTest(query, strategy), Wanted(query, strategy));
  }

  /** The distance to a page key never exceeds the distance to a value below it, and is exact at
      a leaf: visiting pages by distance never skips a nearer value. */
  lemma DistanceLowerBound(e: NumEntry, l: (real, nat), query: real)
    requires Built(e) && l in Leaves(e)
    ensures 0.0 <= Distance(KeyOf(e), query) <= Distance(NumKey(l.0, l.0), query) == Abs(query - l.0)
  {
    BuiltKeyBounds(e, l);
  }

  // ---------------------------------------------------------------------------

  /** The key comparison of the fixed-size types: by lower bound, then by upper bound. */
  predicate NumLeq(a: NumKey, b: NumKey) {
    a.lower < b.lower || (a.lower == b.lower && a.upper <= b.upper)
  }

  function SrtLeq(a: Srt<NumKey>, b: Srt<NumKey>): bool {
    NumLeq(a.t, b.t)
  }

  /** gbt_num_picksplit over the entries at offsets 1 .. n - 1: half of them go left, none of which
      sorts after one that goes right, and each side gets the hull of its keys. */
  method PickSplit(vector: seq<NumKey>)
    returns (left: seq<nat>, right: seq<nat>, ldatum: NumKey, rdatum: NumKey)
    requires |vector| >= 3
    ensures Partition(|vector|, left, right) && |left| == (|vector| - 1) / 2
    ensures forall j :: 0 <= j < |left| ==> left[j] < |vector|
    ensures forall j :: 0 <= j < |right| ==> right[j] < |vector|
    ensures IsHull(ldatum, ItemsAt(vector, left)) && IsHull(rdatum, ItemsAt(vector, right))
    ensures forall a, b :: 0 <= a < |left| && 0 <= b < |right| ==>
              var x, y := vector[left[a]], vector[right[b]];
              x.lower < y.lower || (x.lower == y.lower && x.upper <= y.upper)
  {
    hide IsHull;
    var arr := Sort(Arr(vector), SrtLeq);
    SortPermutes(Arr(vector), SrtLeq);
    SortSorts(Arr(vector), SrtLeq);
    var half := (|vector| - 1) / 2;
    DealtKeys(vector, arr, SrtLeq, half);
    left, right, ldatum, rdatum := DealHalves(arr, half);
  }

  /** A page that a split makes of built entries is built, so it is searched exactly. */
  lemma SplitPageBuilt(es: seq<NumEntry>, offs: seq<nat>, datum: NumKey)
    requires (forall e :: e in es ==> Built(e)) && forall j :: 0 <= j < |offs| ==> offs[j] < |es|
    requires IsHull(datum, ItemsAt(Keys(es), offs))
    ensures Built(Node(datum, ItemsAt(es, offs)))
  {
    assert Keys(ItemsAt(es, offs)) == ItemsAt(Keys(es), offs);
  }

  /** A key that gbt_num_bin_union is building: none yet, or the hull of what it has seen. */
  ghost predicate HullSoFar(u: Option<NumKey>, ks: seq<NumKey>) {
    if u.None? then ks == [] else IsHull(u.value, ks)
  }

  /** gbt_num_bin_union, which starts with a copy of its first key. */
  function UnionInto(u: Option<NumKey>, e: NumKey): Option<NumKey> {
    if u.None? then Some(e) else Some(BinUnion(u.value, e))
  }

  lemma UnionIntoHull(u: Option<NumKey>, ks: seq<NumKey>, e: NumKey)
    requires HullSoFar(u, ks)
    ensures HullSoFar(UnionInto(u, e), ks + [e])
  {
    if u.None? {
      HullOne(e);
    } else {
      HullSnoc(u.value, ks, e);
    }
  }

  method DealHalves(arr: seq<Srt<NumKey>>, half: nat)
    returns (left: seq<nat>, right: seq<nat>, ldatum: NumKey, rdatum: NumKey)
    requires 0 < half < |arr|
    ensures left == Offsets(arr[..half]) && right == Offsets(arr[half..])
    ensures IsHull(ldatum, SortKeys(arr[..half])) && IsHull(rdatum, SortKeys(arr[half..]))
  {
    hide IsHull, BinUnion;
    var l, r: Option<NumKey> := None, None;
    left, right := [], [];
    for i := 0 to |arr|
      invariant i <= half ==> left == Offsets(arr[0..i]) && right == []
      invariant i <= half ==> HullSoFar(l, SortKeys(arr[0..i])) && r == None
      invariant half < i ==> left == Offsets(arr[0..half]) && right == Offsets(arr[half..i])
      invariant half < i ==> HullSoFar(l, SortKeys(arr[0..half])) && HullSoFar(r, SortKeys(arr[half..i]))
    {
      if i + 1 <= half {
        DealOne(arr, 0, i);
        UnionIntoHull(l, SortKeys(arr[0..i]), arr[i].t);
        l := UnionInto(l, arr[i].t);
        left := left + [arr[i].i];
      } else {
        DealOne(arr, half, i);
        assert i == half ==> SortKeys(arr[half..i]) == [];
        UnionIntoHull(r, SortKeys(arr[half..i]), arr[i].t);
        r := UnionInto(r, arr[i].t);
        right := right + [arr[i].i];
      }
    }
    assert arr[0..half] == arr[..half] && arr[half..|arr|] == arr[half..];
    ldatum, rdatum := l.value, r.value;
  }
}
