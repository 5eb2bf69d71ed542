/**
  Searching a GiST: pages whose key fails the operator class's test are skipped with everything
  below them. The search is exact precisely when no skipped page has a matching row below it.
 */
module GistTree {

  /** An index entry: a leaf entry with its row, or a downlink with the key of its page. */
  datatype Entry<K, V> = Leaf(value: V, tid: nat) | Node(key: K, children: seq<Entry<K, V>>)

  /** The leaf entries below an entry, left to right. */
  function Leaves<K, V>(e: Entry<K, V>): seq<(V, nat)>
    decreases e, 0
  {
    match e
    case Leaf(v, tid) => [(v, tid)]
    case Node(_, children) => LeavesOf(children)
  }

  function LeavesOf<K, V>(es: seq<Entry<K, V>>): seq<(V, nat)>
    decreases es, 1
  {
    if es == [] then [] else Leaves(es[0]) + LeavesOf(es[1..])
  }

  /** What a scan of all rows returns. */
  function Filter<V>(ls: seq<(V, nat)>, wanted: V -> bool): seq<(V, nat)> {
    if ls == [] then [] else (if wanted(ls[0].0) then [ls[0]] else []) + Filter(ls[1..], wanted)
  }

  /** What the descent returns. */
  function Search<K, V>(e: Entry<K, V>, pageTest: K -> bool, leafTest: V -> bool): seq<(V, nat)>
    decreases e, 0
  {
    match e
    case Leaf(v, tid) => if leafTest(v) then [(v, tid)] else []
    case Node(key, children) => if pageTest(key) then SearchOf(children, pageTest, leafTest) else []
  }

  function SearchOf<K, V>(es: seq<Entry<K, V>>, pageTest: K -> bool, leafTest: V -> bool): seq<(V, nat)>
    decreases es, 1
  {
    if es == [] then [] else Search(es[0], pageTest, leafTest) + SearchOf(es[1..], pageTest, leafTest)
  }

  /** No row below the entry is wanted. */
  ghost predicate NoneWanted<K, V>(e: Entry<K, V>, wanted: V -> bool) {
    forall l :: l in Leaves(e) ==> !wanted(l.0)
  }

  /** No page at or below the entry fails the test although a row below it is wanted. */
  ghost predicate HidesNothing<K, V>(e: Entry<K, V>, pageTest: K -> bool, wanted: V -> bool) {
    e.Node? ==>
      && (pageTest(e.key) || NoneWanted(e, wanted))
      && forall c :: c in e.children ==> HidesNothing(c, pageTest, wanted)
  }

  lemma {:induction false} FilterConcat<V>(a: seq<(V, nat)>, b: seq<(V, nat)>, wanted: V -> bool)
    ensures Filter(a + b, wanted) == Filter(a, wanted) + Filter(b, wanted)
  {
    if a == [] {
      assert a + b == b;
    } else {
      var x := if wanted(a[0].0) then [a[0]] else [];
      var fa, fb := Filter(a[1..], wanted), Filter(b, wanted);
      calc {
        Filter(a + b, wanted);
        { assert (a + b)[0] == a[0] && (a + b)[1..] == a[1..] + b; }
        x + Filter(a[1..] + b, wanted);
        { FilterConcat(a[1..], b, wanted); }
        x + (fa + fb);
        (x + fa) + fb;
      }
    }
  }

  lemma {:induction false} FilterEmptyIff<V>(ls: seq<(V, nat)>, wanted: V -> bool)
    ensures Filter(ls, wanted) == [] <==> forall l :: l in ls ==> !wanted(l.0)
  {
    if ls != [] {
      FilterEmptyIff(ls[1..], wanted);
      assert forall l :: l in ls <==> l == ls[0] || l in ls[1..];
    }
  }

  lemma {:induction false} LeavesInclude<K, V>(es: seq<Entry<K, V>>, c: Entry<K, V>)
    requires c in es
    ensures forall l :: l in Leaves(c) ==> l in LeavesOf(es)
  {
    if c != es[0] {
      LeavesInclude(es[1..], c);
    }
  }

  /** Each row below a page is below one of its entries. */
  lemma {:induction false} LeafOfChild<K, V>(es: seq<Entry<K, V>>, l: (V, nat)) returns (i: nat)
    requires l in LeavesOf(es)
    ensures i < |es| && l in Leaves(es[i])
  {
    if l in Leaves(es[0]) {
      i := 0;
    } else {
      i := LeafOfChild(es[1..], l);
      i := i + 1;
    }
  }

  lemma {:induction false} NoneWantedHidesNothing<K, V>(e: Entry<K, V>, pageTest: K -> bool, wanted: V -> bool)
    requires NoneWanted(e, wanted)
    ensures HidesNothing(e, pageTest, wanted)
    decreases e
  {
    if e.Node? {
      forall c | c in e.children
        ensures HidesNothing(c, pageTest, wanted)
      {
        LeavesInclude(e.children, c);
        NoneWantedHidesNothing(c, pageTest, wanted);
      }
    }
  }

  /** The test on leaf entries is the operator itself. */
  ghost predicate SameTest<V(!new)>(leafTest: V -> bool, wanted: V -> bool) {
    forall v :: leafTest(v) <==> wanted(v)
  }

  /** The descent returns the wanted rows in order, and misses some unless nothing is hidden. */
  lemma {:induction false} SearchCount<K, V(!new)>(e: Entry<K, V>, pageTest: K -> bool, leafTest: V -> bool,
                                                   wanted: V -> bool)
    requires SameTest(leafTest, wanted)
    ensures var found, all := Search(e, pageTest, leafTest), Filter(Leaves(e), wanted);
            && |found| <= |all| && (HidesNothing(e, pageTest, wanted) ==> found == all)
            && (|found| == |all| ==> HidesNothing(e, pageTest, wanted))
    decreases e, 0
  {
    match e
    case Leaf(v, tid) =>
      assert [(v, tid)][1..] == [];
    case Node(key, children) =>
      SearchOfCount(children, pageTest, leafTest, wanted);
      FilterEmptyIff(Leaves(e), wanted);
      if NoneWanted(e, wanted) {
        NoneWantedHidesNothing(e, pageTest, wanted);
      }
  }

  lemma {:induction false} SearchOfCount<K, V(!new)>(es: seq<Entry<K, V>>, pageTest: K -> bool, leafTest: V -> bool,
                                                     wanted: V -> bool)
    requires SameTest(leafTest, wanted)
    ensures var found, all := SearchOf(es, pageTest, leafTest), Filter(LeavesOf(es), wanted);
            && |found| <= |all| && ((forall c :: c in es ==> HidesNothing(c, pageTest, wanted)) ==> found == all)
            && (|found| == |all| ==> forall c :: c in es ==> HidesNothing(c, pageTest, wanted))
    decreases es, 1
  {
    if es != [] {
      SearchCount(es[0], pageTest, leafTest, wanted);
      SearchOfCount(es[1..], pageTest, leafTest, wanted);
      FilterConcat(Leaves(es[0]), LeavesOf(es[1..]), wanted);
    }
  }

  /** The descent returns exactly the wanted rows, in order, if and only if no page that fails the
      test has a wanted row below it. */
  lemma SearchExactIff<K, V(!new)>(e: Entry<K, V>, pageTest: K -> bool, leafTest: V -> bool, wanted: V -> bool)
    requires SameTest(leafTest, wanted)
    ensures Search(e, pageTest, leafTest) == Filter(Leaves(e), wanted) <==> HidesNothing(e, pageTest, wanted)
  {
    SearchCount(e, pageTest, leafTest, wanted);
  }
}
