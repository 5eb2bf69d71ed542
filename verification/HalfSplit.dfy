/**
  The split shared by the two btree_gist picksplit functions: sort the entries and give the
  first half of the offsets to the left page, the rest to the right page.
 */
module HalfSplit {
  import opened Common
  import opened Sorting

  /** An entry being sorted: its offset and its key. */
  datatype Srt<K> = Srt(i: nat, t: K)

  /** The entries at offsets 1 .. n - 1 of an entry vector; offset 0 is not used. */
  function Arr<K>(vector: seq<K>): (a: seq<Srt<K>>)
    requires |vector| > 0
    ensures |a| == |vector| - 1
    ensures forall j :: 0 <= j < |a| ==> a[j] == Srt(j + 1, vector[j + 1])
  {
    seq(|vector| - 1, j requires 0 <= j < |vector| - 1 => Srt(j + 1, vector[j + 1]))
  }

  function Offsets<K>(a: seq<Srt<K>>): (os: seq<nat>)
    ensures |os| == |a| && forall j :: 0 <= j < |a| ==> os[j] == a[j].i
  {
    seq(|a|, j requires 0 <= j < |a| => a[j].i)
  }

  function SortKeys<K>(a: seq<Srt<K>>): (ks: seq<K>)
    ensures |ks| == |a| && forall j :: 0 <= j < |a| ==> ks[j] == a[j].t
  {
    seq(|a|, j requires 0 <= j < |a| => a[j].t)
  }

  lemma DealOne<K>(a: seq<Srt<K>>, lo: nat, i: nat)
    requires lo <= i < |a|
    ensures Offsets(a[lo..i + 1]) == Offsets(a[lo..i]) + [a[i].i]
    ensures SortKeys(a[lo..i + 1]) == SortKeys(a[lo..i]) + [a[i].t]
  {
  }

  /** Two non-empty disjoint parts that together hold each offset 1 .. n - 1 exactly once. */
  ghost predicate Partition(n: nat, left: seq<nat>, right: seq<nat>) {
    && left != [] && right != []
    && Distinct(left + right)
    && (forall o: nat :: o in left + right <==> 1 <= o < n)
  }

  lemma RepeatCounts<T>(xs: seq<T>, i: nat, j: nat)
    requires i < j < |xs| && xs[i] == xs[j]
    ensures multiset(xs)[xs[i]] >= 2
  {
    assert xs == xs[..j] + xs[j..];
    assert xs[i] in xs[..j] && xs[j] in xs[j..];
  }

  lemma {:induction false} DistinctCounts<T>(xs: seq<T>, x: T)
    requires Distinct(xs)
    ensures multiset(xs)[x] <= 1
  {
    if xs != [] {
      var front, last := xs[..|xs| - 1], xs[|xs| - 1];
      assert xs == front + [last];
      DistinctCounts(front, x);
      assert last !in front;
    }
  }

  /** Whatever order the sort produced, cutting it in two partitions the offsets, and every
      entry keeps its own key. */
  lemma HalvesPartition<K>(vector: seq<K>, sorted: seq<Srt<K>>, half: nat)
    requires |vector| > 0 && multiset(sorted) == multiset(Arr(vector))
    requires 0 < half < |vector| - 1
    ensures |sorted| == |vector| - 1
    ensures Partition(|vector|, Offsets(sorted[..half]), Offsets(sorted[half..]))
    ensures forall s :: s in sorted ==> 1 <= s.i < |vector| && s.t == vector[s.i]
  {
    var a := Arr(vector);
    assert |sorted| == |multiset(sorted)| == |a|;
    forall s | s in sorted
      ensures 1 <= s.i < |vector| && s.t == vector[s.i]
    {
      assert s in multiset(a);
    }
    var os := Offsets(sorted[..half]) + Offsets(sorted[half..]);
    assert forall j :: 0 <= j < |sorted| ==> os[j] == sorted[j].i;
    forall i, j | 0 <= i < j < |sorted|
      ensures os[i] != os[j]
    {
      if os[i] == os[j] {
        assert sorted[i] in sorted && sorted[j] in sorted;
        RepeatCounts(sorted, i, j);
        DistinctCounts(a, sorted[i]);
      }
    }
    forall o: nat
      ensures o in os <==> 1 <= o < |vector|
    {
      if 1 <= o < |vector| {
        assert a[o - 1] in multiset(sorted);
        var j :| 0 <= j < |sorted| && sorted[j] == a[o - 1];
        assert os[j] == o;
      }
    }
  }

  /** The elements at the given offsets. */
  function ItemsAt<T>(vector: seq<T>, offs: seq<nat>): (xs: seq<T>)
    requires forall j :: 0 <= j < |offs| ==> offs[j] < |vector|
    ensures |xs| == |offs| && forall j :: 0 <= j < |offs| ==> xs[j] == vector[offs[j]]
  {
    seq(|offs|, j requires 0 <= j < |offs| => vector[offs[j]])
  }

  /** The halves of a sorted page: which keys they hold, and none on the left is above one on the
      right. */
  lemma DealtKeys<K>(vector: seq<K>, arr: seq<Srt<K>>, leq: (Srt<K>, Srt<K>) -> bool, half: nat)
    requires |vector| > 0 && multiset(arr) == multiset(Arr(vector)) && SortedBy(arr, leq)
    requires 0 < half < |vector| - 1
    ensures |arr| == |vector| - 1
    ensures var left, right := Offsets(arr[..half]), Offsets(arr[half..]);
            && Partition(|vector|, left, right)
            && (forall j :: 0 <= j < |left| ==> left[j] < |vector|)
            && (forall j :: 0 <= j < |right| ==> right[j] < |vector|)
            && SortKeys(arr[..half]) == ItemsAt(vector, left)
            && SortKeys(arr[half..]) == ItemsAt(vector, right)
            && forall a, b :: 0 <= a < |left| && 0 <= b < |right| ==>
                 leq(Srt(left[a], vector[left[a]]), Srt(right[b], vector[right[b]]))
  {
    HalvesPartition(vector, arr, half);
    assert forall j :: 0 <= j < |arr| ==> arr[j] in arr;
    forall a, b | 0 <= a < half <= b < |arr|
      ensures leq(Srt(arr[a].i, vector[arr[a].i]), Srt(arr[b].i, vector[arr[b].i]))
    {
      assert leq(arr[a], arr[b]);
    }
  }
}
