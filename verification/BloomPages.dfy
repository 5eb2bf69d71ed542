/**
  Pages of a Bloom index and the operations that change one page while its lock is held.
 */
module BloomPages {
  import opened Common
  import opened BloomSignature

  /** BLCKSZ less the page header and the special space. */
  const PAGE_SPACE: nat := 8192 - 24 - 8

  /** BloomMetaBlockN: how many block numbers fill the rest of the metapage. */
  const META_BLOCKS: nat := (8192 - 24 - 8 - 144) / 4

  datatype Tuple = Tuple(tid: nat, sign: Signature)

  /** A page is new until it is initialised; a deleted page may be recycled. */
  datatype Page = New | Data(deleted: bool, items: seq<Tuple>)

  function TupleSize(words: nat): nat {
    6 + 2 * words
  }

  /** BloomPageGetFreeSpace on a page with count tuples. */
  function FreeSpace(words: nat, count: nat): int {
    PAGE_SPACE - count * TupleSize(words)
  }

  /** How many tuples fit on a page. */
  function Capacity(words: nat): nat {
    Quotient(PAGE_SPACE, TupleSize(words))
  }

  function Quotient(a: nat, d: nat): nat
    requires d > 0
  {
    a / d
  }

  /** The free-space test of BloomPageAddItem admits exactly the page's capacity. */
  lemma CapacityExact(words: nat, count: nat)
    ensures FreeSpace(words, count) >= TupleSize(words) <==> count < Capacity(words)
  {
    var size := TupleSize(words);
    assert FreeSpace(words, count) >= size <==> (count + 1) * size <= PAGE_SPACE;
    DivisionBound(PAGE_SPACE, size, count + 1);
  }

  lemma {:induction false} MulMonotone(i: nat, j: nat, d: nat)
    requires i <= j
    ensures i * d <= j * d
  {
    if i < j {
      MulMonotone(i, j - 1, d);
      assert j * d == (j - 1) * d + d;
    }
  }

  lemma DivisionBound(a: nat, d: nat, k: nat)
    requires d > 0
    ensures k * d <= a <==> k <= Quotient(a, d)
  {
    var q, r := a / d, a % d;
    var below, at := q * d, k * d;
    assert a == below + r;
    if k <= q {
      MulMonotone(k, q, d);
    } else {
      MulMonotone(q + 1, k, d);
      assert (q + 1) * d == below + d;
    }
  }

  predicate Reusable(p: Page) {
    p.New? || p.deleted
  }

  /** The tuples a scan sees on a page. */
  function Items(p: Page): seq<Tuple> {
    if Reusable(p) then [] else p.items
  }

  predicate ValidPage(words: nat, p: Page) {
    p.Data? ==> (p.deleted ==> p.items == []) && |p.items| <= Capacity(words)
  }

  /** Reinitialise a reusable page and add the tuple if it fits, as blinsert does; None leaves
      the page as it was, since the page image is then discarded. */
  function TryAdd(words: nat, p: Page, t: Tuple): (r: Option<Page>)
    ensures r.Some? <==> |Items(p)| < Capacity(words)
    ensures r.Some? ==> Items(r.value) == Items(p) + [t]
    ensures r.Some? ==> ValidPage(words, r.value)
  {
    CapacityExact(words, |Items(p)|);
    if FreeSpace(words, |Items(p)|) < TupleSize(words) then None
    else Some(Data(false, Items(p) + [t]))
  }

  /** A page with no tuples always takes one: the elog(ERROR) after a fresh page is dead code. */
  lemma EmptyPageTakes(words: nat, p: Page, t: Tuple)
    requires words <= 256 && Items(p) == []
    ensures TryAdd(words, p, t) == Some(Data(false, [t]))
  {
    assert Items(p) + [t] == [t];
  }

  /** The tuples the callback does not name, in their old order. */
  function Survivors(items: seq<Tuple>, dead: set<nat>): (k: seq<Tuple>)
    ensures |k| <= |items|
  {
    if items == [] then []
    else
      var front, last := items[..|items| - 1], items[|items| - 1];
      Survivors(front, dead) + (if last.tid in dead then [] else [last])
  }

  /** The tuples the callback names. */
  function Victims(items: seq<Tuple>, dead: set<nat>): multiset<Tuple> {
    if items == [] then multiset{}
    else
      var front, last := items[..|items| - 1], items[|items| - 1];
      Victims(front, dead) + (if last.tid in dead then multiset{last} else multiset{})
  }

  /** blbulkdelete on one page: reusable pages are skipped, a page that lost nothing is left
      alone, and a page that lost everything becomes deleted. */
  function VacuumPage(p: Page, dead: set<nat>): (r: Page)
  {
    if Reusable(p) then p
    else
      var kept := Survivors(p.items, dead);
      if |kept| == |p.items| then p else Data(kept == [], kept)
  }

  /** Whether blbulkdelete queues the page as not full. */
  predicate NotFull(words: nat, p: Page, dead: set<nat>) {
    && !Reusable(p)
    && |Survivors(p.items, dead)| != 0
    && FreeSpace(words, |Survivors(p.items, dead)|) >= TupleSize(words)
  }

  /** A vacuumed page holds its survivors, is deleted exactly when it lost its last tuple, and is
      queued exactly when it then has tuples and room for one more. */
  lemma VacuumPageMeaning(words: nat, p: Page, dead: set<nat>)
    ensures var r := VacuumPage(p, dead);
            if p.New? || p.deleted then r == p
            else r.Data? && r.items == Survivors(p.items, dead) && (r.deleted <==> r.items == [] && p.items != [])
    ensures NotFull(words, p, dead) <==> 0 < |Items(VacuumPage(p, dead))| < Capacity(words)
  {
    if p.Data? {
      CapacityExact(words, |Survivors(p.items, dead)|);
      if |Survivors(p.items, dead)| == |p.items| {
        NothingLost(p.items, dead);
      }
    }
  }

  lemma {:induction false} NothingLost(items: seq<Tuple>, dead: set<nat>)
    requires |Survivors(items, dead)| == |items|
    ensures Survivors(items, dead) == items
  {
    if items != [] {
      NothingLost(items[..|items| - 1], dead);
    }
  }

  lemma {:induction false} SurvivorsAre(items: seq<Tuple>, dead: set<nat>, t: Tuple)
    ensures t in Survivors(items, dead) <==> t in items && t.tid !in dead
  {
    if items != [] {
      var front, last := items[..|items| - 1], items[|items| - 1];
      SurvivorsAre(front, dead, t);
      assert items == front + [last];
    }
  }

  lemma {:induction false} VictimsAre(items: seq<Tuple>, dead: set<nat>, t: Tuple)
    ensures t in Victims(items, dead) <==> t in items && t.tid in dead
  {
    if items != [] {
      var front, last := items[..|items| - 1], items[|items| - 1];
      VictimsAre(front, dead, t);
      assert items == front + [last];
    }
  }

  lemma {:induction false} AllSurvive(items: seq<Tuple>, dead: set<nat>)
    requires |Survivors(items, dead)| == |items|
    ensures Survivors(items, dead) == items && Victims(items, dead) == multiset{}
  {
    if items != [] {
      var front, last := items[..|items| - 1], items[|items| - 1];
      assert items == front + [last];
      AllSurvive(front, dead);
    }
  }

  lemma {:induction false} SurvivorsAndVictims(items: seq<Tuple>, dead: set<nat>)
    ensures multiset(items) == multiset(Survivors(items, dead)) + Victims(items, dead)
  {
    if items != [] {
      var front, last := items[..|items| - 1], items[|items| - 1];
      assert items == front + [last];
      SurvivorsAndVictims(front, dead);
    }
  }

  /** Deletion splits the tuples: what is kept plus what is named is what was there; what is
      kept is not named, what is removed is, and an untouched page named nothing. */
  lemma SurvivorsSplit(items: seq<Tuple>, dead: set<nat>)
    ensures multiset(items) == multiset(Survivors(items, dead)) + Victims(items, dead)
    ensures forall t :: t in Survivors(items, dead) <==> t in items && t.tid !in dead
    ensures forall t :: t in Victims(items, dead) <==> t in items && t.tid in dead
    ensures |Survivors(items, dead)| == |items| ==> Survivors(items, dead) == items
    ensures |Survivors(items, dead)| == |items| ==> Victims(items, dead) == multiset{}
  {
    SurvivorsAndVictims(items, dead);
    forall t
      ensures t in Survivors(items, dead) <==> t in items && t.tid !in dead
      ensures t in Victims(items, dead) <==> t in items && t.tid in dead
    {
      SurvivorsAre(items, dead, t);
      VictimsAre(items, dead, t);
    }
    if |Survivors(items, dead)| == |items| {
      AllSurvive(items, dead);
    }
  }

  lemma VacuumPageItems(words: nat, p: Page, dead: set<nat>)
    requires ValidPage(words, p)
    ensures ValidPage(words, VacuumPage(p, dead))
    ensures Items(VacuumPage(p, dead)) == Survivors(Items(p), dead)
    ensures multiset(Items(p)) == multiset(Items(VacuumPage(p, dead))) + Victims(Items(p), dead)
  {
    hide Capacity;
    SurvivorsSplit(Items(p), dead);
  }

  /** The two-pointer compaction of blbulkdelete, in place: survivors move down over the
      deleted tuples and the first maxoff slots hold exactly them, in order. */
  method Compact(items: array<Tuple>, count: nat, dead: set<nat>) returns (maxoff: nat)
    requires count <= items.Length
    modifies items
    ensures maxoff == |Survivors(old(items[..count]), dead)|
    ensures maxoff <= items.Length && items[..maxoff] == Survivors(old(items[..count]), dead)
    ensures forall j :: count <= j < items.Length ==> items[j] == old(items[j])
  {
    maxoff := count;
    ghost var was := items[..count];
    var itup, itupPtr := 0, 0;
    assert was[..0] == [];
    while itup < count
      invariant itupPtr <= itup <= count
      invariant maxoff == count - (itup - itupPtr)
      invariant items[..itupPtr] == Survivors(was[..itup], dead)
      invariant forall j :: itup <= j < count ==> items[j] == was[j]
      invariant forall j :: count <= j < items.Length ==> items[j] == old(items[j])
    {
      assert was[..itup + 1][..itup] == was[..itup];
      if items[itup].tid in dead {
        maxoff := maxoff - 1;
      } else {
        if itupPtr != itup {
          items[itupPtr] := items[itup];
        }
        itupPtr := itupPtr + 1;
      }
      itup := itup + 1;
    }
    assert was[..count] == was;
  }
}
