/**
  The Bloom access method as one backend runs it: build, insert, bulk deletion, cleanup and scan
  over a file of pages and a metapage updated in place.
 */
module BloomIndex {
  import opened Common
  import opened BloomSignature
  import opened BloomPages
  import opened BloomProtocol

  /** All tuples in file order. */
  function Flatten(pages: seq<Page>): seq<Tuple> {
    if pages == [] then [] else Flatten(pages[..|pages| - 1]) + Items(pages[|pages| - 1])
  }

  lemma {:induction false} FlattenContents(pages: seq<Page>)
    ensures multiset(Flatten(pages)) == Contents(pages)
  {
    if pages != [] {
      FlattenContents(pages[..|pages| - 1]);
    }
  }

  lemma FlattenExtend(pages: seq<Page>, p: Page)
    ensures Flatten(pages + [p]) == Flatten(pages) + Items(p)
  {
    assert (pages + [p])[..|pages|] == pages;
  }

  /** Every page after bulk deletion. */
  function Vacuumed(pages: seq<Page>, dead: set<nat>): (r: seq<Page>)
    ensures |r| == |pages| && forall b :: 0 <= b < |pages| ==> r[b] == VacuumPage(pages[b], dead)
  {
    seq(|pages|, b requires 0 <= b < |pages| => VacuumPage(pages[b], dead))
  }

  /** The blocks below n that bulk deletion finds not full, in order, as many as fit. */
  function NotFullBlocks(words: nat, pages: seq<Page>, dead: set<nat>, n: nat): (q: seq<nat>)
    requires n <= |pages|
    ensures |q| <= META_BLOCKS
    ensures forall i :: 0 <= i < |q| ==> q[i] < n && NotFull(words, pages[q[i]], dead)
  {
    if n == 0 then []
    else
      var q := NotFullBlocks(words, pages, dead, n - 1);
      if NotFull(words, pages[n - 1], dead) && |q| < META_BLOCKS then q + [n - 1] else q
  }

  /** The scan's answer in file order. */
  function MatchingTids(items: seq<Tuple>, sign: Signature): seq<nat> {
    if items == [] then []
    else
      var front, last := items[..|items| - 1], items[|items| - 1];
      MatchingTids(front, sign) + (if Subsumes(last.sign, sign) then [last.tid] else [])
  }

  lemma {:induction false} MatchingTidsConcat(a: seq<Tuple>, b: seq<Tuple>, sign: Signature)
    ensures MatchingTids(a + b, sign) == MatchingTids(a, sign) + MatchingTids(b, sign)
  {
    hide Subsumes;
    if b == [] {
      assert a + b == a;
    } else {
      var n := |b| - 1;
      assert (a + b)[..|a + b| - 1] == a + b[..n];
      MatchingTidsConcat(a, b[..n], sign);
    }
  }

  /** The scan reports a TID exactly when some tuple with that TID passes the test. */
  lemma {:induction false} MatchingTidsExact(items: seq<Tuple>, sign: Signature, tid: nat)
    ensures tid in MatchingTids(items, sign) <==>
            exists t :: t in items && t.tid == tid && Subsumes(t.sign, sign)
  {
    hide Subsumes;
    if items != [] {
      var front, last := items[..|items| - 1], items[|items| - 1];
      assert items == front + [last];
      MatchingTidsExact(front, sign, tid);
    }
  }

  /** The queued pages up to a position cannot take the tuple. */
  ghost predicate NoRoom(words: nat, pages: seq<Page>, m: Meta, upto: nat, t: Tuple) {
    forall i :: m.nStart <= i < upto && i < |m.notFull| && m.notFull[i] < |pages| ==>
      TryAdd(words, pages[m.notFull[i]], t).None?
  }

  /** The tuple goes to the first queued page with room, where the queue now starts. */
  ghost predicate TookQueued(words: nat, pages: seq<Page>, m: Meta, m': Meta, t: Tuple, at: nat) {
    && m.nStart <= m'.nStart < m'.nEnd && m' == m.(nStart := m'.nStart)
    && m'.nStart < |m.notFull| && m.notFull[m'.nStart] == at
    && NoRoom(words, pages, m, m'.nStart, t)
  }

  /** A recycled or new page takes the tuple and is the whole queue. */
  ghost predicate TookNew(pages: seq<Page>, m': Meta, at: nat) {
    && m'.nStart == 0 && m'.nEnd == 1 && |m'.notFull| > 0 && m'.notFull[0] == at
    && (at == |pages| || (at < |pages| && Reusable(pages[at])))
  }

  /** One page, possibly a new last one, has gained one tuple. */
  ghost predicate Gained(pages: seq<Page>, pages': seq<Page>, t: Tuple, at: nat) {
    && at < |pages'| && |pages| <= |pages'| <= |pages| + 1
    && Items(pages'[at]) == (if at < |pages| then Items(pages[at]) else []) + [t]
    && (forall b :: 0 <= b < |pages| && b != at ==> pages'[b] == pages[b])
    && (|pages'| > |pages| ==> at == |pages|)
  }

  class Index {
    const words: nat
    var pages: seq<Page>
    var nStart: nat
    var nEnd: nat
    const notFull: array<nat>

    ghost function Queue(): Meta
      reads this, notFull
    {
      Meta(nStart, nEnd, notFull[..])
    }

    ghost predicate Valid()
      reads this, notFull
    {
      1 <= words <= 256 && PagesOk(words, pages) && MetaOk(pages, Queue())
    }

    /** BloomInitMetapage. */
    constructor (words: nat)
      requires 1 <= words <= 256
      ensures Valid() && fresh(notFull) && this.words == words
      ensures pages == [New] && nStart == nEnd == 0
    {
      this.words := words;
      this.pages := [New];
      this.nStart, this.nEnd := 0, 0;
      this.notFull := new nat[META_BLOCKS](_ => 0);
    }

    /** flushCachedPage: the cached page becomes the last of the file. */
    method FlushCachedPage(cached: Page)
      requires Valid() && ValidPage(words, cached)
      modifies this`pages
      ensures Valid() && pages == old(pages) + [cached]
      ensures Flatten(pages) == old(Flatten(pages)) + Items(cached)
    {
      FlattenExtend(pages, cached);
      pages := pages + [cached];
    }

    /** bloomBuildCallback: the tuple joins the cached page, which is flushed first if full. */
    method BuildCallback(cached: Page, t: Tuple) returns (next: Page)
      requires Valid() && ValidPage(words, cached) && cached.Data? && !cached.deleted
      requires AllFull(words, pages)
      modifies this`pages
      ensures Valid() && ValidPage(words, next) && next.Data? && !next.deleted && next.items != []
      ensures Flatten(pages) + next.items == old(Flatten(pages)) + cached.items + [t]
      ensures AllFull(words, pages)
    {
      hide Capacity, FreeSpace;
      var r := TryAdd(words, cached, t);
      if r.Some? {
        next := r.value;
      } else {
        CapacityExact(words, |cached.items|);
        NonEmptyWhenFull(words, cached, t);
        FlushCachedPage(cached);
        EmptyPageTakes(words, Data(false, []), t);
        next := Data(false, [t]);
      }
    }

    /** blbuild: the file holds the tuples in order, and every page but the last is full. */
    method Build(tuples: seq<Tuple>) returns (indtuples: nat)
      requires Valid() && pages == [New]
      modifies this`pages
      ensures Valid() && indtuples == |tuples|
      ensures Flatten(pages) == tuples
      ensures tuples == [] ==> pages == [New]
      ensures tuples != [] ==> Items(pages[|pages| - 1]) != [] && AllFull(words, pages[..|pages| - 1])
    {
      indtuples := 0;
      var cached := Data(false, []);
      FlattenNew();
      for i := 0 to |tuples|
        invariant indtuples == i
        invariant Valid() && ValidPage(words, cached) && cached.Data? && !cached.deleted
        invariant Flatten(pages) + cached.items == tuples[..i]
        invariant if i == 0 then pages == [New] && cached.items == [] else cached.items != []
        invariant AllFull(words, pages)
      {
        assert tuples[..i + 1] == tuples[..i] + [tuples[i]];
        cached := BuildCallback(cached, tuples[i]);
        indtuples := indtuples + 1;
      }
      assert tuples[..|tuples|] == tuples;
      if |cached.items| > 0 {
        ghost var full := pages;
        FlushCachedPage(cached);
        assert pages[..|full|] == full;
      }
    }

    /** BloomNewBuffer: candidates is what the free space map hands out, in order; each is used
        only if its page may be recycled, and the file is extended when none is. */
    method NewBuffer(candidates: seq<nat>) returns (blkno: nat)
      requires Valid() && forall i :: 0 <= i < |candidates| ==> 1 <= candidates[i] < |pages|
      modifies this`pages
      ensures Valid() && 1 <= blkno < |pages| && Reusable(pages[blkno])
      ensures pages == old(pages) || (pages == old(pages) + [New] && blkno == |old(pages)|)
    {
      for i := 0 to |candidates|
        invariant pages == old(pages)
      {
        blkno := candidates[i];
        if Reusable(pages[blkno]) { return; }
      }
      blkno := |pages|;
      pages := pages + [New];
    }

    /** The part of blinsert that tries the queued pages: the first one, then the rest. */
    method InsertQueued(t: Tuple) returns (done: bool, ghost at: nat)
      requires Valid()
      modifies this`pages, this`nStart
      ensures Valid()
      ensures done ==>
                && 1 <= at && Gained(old(pages), pages, t, at)
                && TookQueued(words, old(pages), old(Queue()), Queue(), t, at)
      ensures !done ==> pages == old(pages) && nStart == old(nStart) && NoRoom(words, old(pages), old(Queue()), nEnd, t)
    {
      var blkno := 0;
      at := 0;
      if nEnd > nStart {
        blkno := notFull[nStart];
        var r := TryAdd(words, pages[blkno], t);
        if r.Some? {
          pages := pages[blkno := r.value];
          return true, blkno;
        }
      }
      var n := nStart;
      if n < nEnd && blkno == notFull[n] {
        n := n + 1;
      }
      while n < nEnd
        invariant nStart <= n <= nEnd && Valid() && pages == old(pages) && nStart == old(nStart)
        invariant NoRoom(words, pages, Queue(), n, t)
      {
        blkno := notFull[n];
        var r := TryAdd(words, pages[blkno], t);
        if r.Some? {
          nStart := n;
          pages := pages[blkno := r.value];
          return true, blkno;
        }
        n := n + 1;
      }
      return false, 0;
    }

    /** The part of blinsert that falls back to a recycled or new page. */
    method InsertNew(t: Tuple, candidates: seq<nat>) returns (ghost at: nat)
      requires Valid() && forall i :: 0 <= i < |candidates| ==> 1 <= candidates[i] < |pages|
      modifies this, notFull
      ensures Valid() && 1 <= at && Gained(old(pages), pages, t, at) && TookNew(old(pages), Queue(), at)
    {
      var blkno := NewBuffer(candidates);
      EmptyPageTakes(words, pages[blkno], t);
      pages := pages[blkno := Data(false, [t])];
      nStart, nEnd := 0, 1;
      notFull[0] := blkno;
      return blkno;
    }

    /** blinsert with no other backend in between: exactly one page gains exactly one tuple. It is
        the first queued page with room, or else a recycled or new page, which becomes the whole
        queue. */
    method Insert(t: Tuple, candidates: seq<nat>) returns (ghost at: nat)
      requires Valid() && forall i :: 0 <= i < |candidates| ==> 1 <= candidates[i] < |pages|
      modifies this, notFull
      ensures Valid() && 1 <= at && Gained(old(pages), pages, t, at)
      ensures TookQueued(words, old(pages), old(Queue()), Queue(), t, at)
           || (NoRoom(words, old(pages), old(Queue()), old(nEnd), t) && TookNew(old(pages), Queue(), at))
    {
      hide Gained, TookQueued, TookNew, NoRoom;
      var done;
      done, at := InsertQueued(t);
      if !done {
        at := InsertNew(t, candidates);
      }
    }

    /** The lock section of blbulkdelete on one page: the tuples are compacted in a copy of the
        page, which replaces the page only if something was deleted. */
    method BulkDeletePage(blkno: nat, dead: set<nat>) returns (removed: nat, notFullNow: bool)
      requires blkno < |pages|
      modifies this`pages
      ensures pages == old(pages)[blkno := VacuumPage(old(pages)[blkno], dead)]
      ensures removed == |Items(old(pages)[blkno])| - |Survivors(Items(old(pages)[blkno]), dead)|
      ensures notFullNow <==> NotFull(words, old(pages)[blkno], dead)
    {
      removed, notFullNow := 0, false;
      if !Reusable(pages[blkno]) {
        var items := pages[blkno].items;
        var image := new Tuple[|items|](i requires 0 <= i < |items| => items[i]);
        assert image[..image.Length] == items;
        var maxoff := Compact(image, image.Length, dead);
        SurvivorsSplit(items, dead);
        removed := image.Length - maxoff;
        notFullNow := maxoff != 0 && FreeSpace(words, maxoff) >= TupleSize(words);
        if maxoff != image.Length {
          pages := pages[blkno := Data(maxoff == 0, image[..maxoff])];
        }
      }
    }

    /** The page loop of blbulkdelete. */
    method BulkDeletePages(dead: set<nat>) returns (tuplesRemoved: nat, queue: seq<nat>)
      requires PagesOk(words, pages)
      modifies this`pages
      ensures pages == Vacuumed(old(pages), dead)
      ensures queue == NotFullBlocks(words, old(pages), dead, |pages|)
      ensures tuplesRemoved == RemovedCount(old(pages), dead, |pages|)
    {
      hide NotFull, VacuumPage, ValidPage, Items;
      tuplesRemoved, queue := 0, [];
      ghost var was := pages;
      NewIsKept(words, pages[0], dead);
      for blkno := 1 to |pages|
        invariant |pages| == |was|
        invariant forall b :: 0 <= b < blkno ==> pages[b] == VacuumPage(was[b], dead)
        invariant forall b :: blkno <= b < |was| ==> pages[b] == was[b]
        invariant queue == NotFullBlocks(words, was, dead, blkno)
        invariant tuplesRemoved == RemovedCount(was, dead, blkno)
      {
        var removed, notFullNow := BulkDeletePage(blkno, dead);
        tuplesRemoved := tuplesRemoved + removed;
        if notFullNow && |queue| < META_BLOCKS {
          queue := queue + [blkno];
        }
      }
      assert pages == Vacuumed(was, dead);
    }

    /** blbulkdelete with no other backend in between: what is left is what the callback does not
        name, in file order; the queue lists the pages with room. */
    method BulkDelete(dead: set<nat>) returns (tuplesRemoved: nat)
      requires Valid()
      modifies this, notFull
      ensures Valid()
      ensures pages == Vacuumed(old(pages), dead)
      ensures nStart == 0 && notFull[..nEnd] == NotFullBlocks(words, old(pages), dead, |pages|)
      ensures Flatten(pages) == Survivors(Flatten(old(pages)), dead)
      ensures tuplesRemoved == |Flatten(old(pages))| - |Flatten(pages)|
    {
      hide NotFull, VacuumPage, ValidPage, Items;
      ghost var was := pages;
      var queue;
      tuplesRemoved, queue := BulkDeletePages(dead);
      VacuumedOk(words, was, dead);
      VacuumedFlatten(words, was, dead);
      RemovedCountTotal(was, dead, |was|);
      assert was[..|was|] == was;
      QueueFromOne(words, was, dead, |was|);
      PublishQueue(queue);
    }

    /** The metapage update that ends bulk deletion. */
    method PublishQueue(queue: seq<nat>)
      requires 1 <= words <= 256 && PagesOk(words, pages) && notFull.Length == META_BLOCKS
      requires |queue| <= META_BLOCKS && forall i :: 0 <= i < |queue| ==> 1 <= queue[i] < |pages|
      modifies this`nStart, this`nEnd, notFull
      ensures Valid() && nStart == 0 && nEnd == |queue| && notFull[..nEnd] == queue
    {
      forall i | 0 <= i < |queue| {
        notFull[i] := queue[i];
      }
      nStart, nEnd := 0, |queue|;
    }

    /** blvacuumcleanup: the pages handed to the free space map and the tuple count. */
    method Cleanup() returns (freed: seq<nat>, numIndexTuples: nat)
      requires Valid()
      ensures numIndexTuples == |Flatten(pages)|
      ensures forall b :: b in freed <==> 1 <= b < |pages| && Reusable(pages[b])
    {
      freed, numIndexTuples := [], 0;
      assert Flatten(pages[..1]) == [] by { assert pages[..1][..0] == []; }
      for blkno := 1 to |pages|
        invariant numIndexTuples == |Flatten(pages[..blkno])|
        invariant forall b :: b in freed <==> 1 <= b < blkno && Reusable(pages[b])
      {
        assert pages[..blkno + 1][..blkno] == pages[..blkno];
        if Reusable(pages[blkno]) {
          freed := freed + [blkno];
        } else {
          numIndexTuples := numIndexTuples + |pages[blkno].items|;
        }
      }
      assert pages[..|pages|] == pages;
    }

    /** blgetbitmap once the scan signature is known. */
    method GetBitmap(sign: Signature) returns (tids: seq<nat>, ntids: nat)
      requires Valid() && |sign| == words
      requires forall b, t :: 0 <= b < |pages| && t in Items(pages[b]) ==> |t.sign| == words
      ensures tids == MatchingTids(Flatten(pages), sign) && ntids == |tids|
    {
      tids, ntids := [], 0;
      FlattenNew();
      assert pages[..1] == [New];
      for blkno := 1 to |pages|
        invariant tids == MatchingTids(Flatten(pages[..blkno]), sign) && ntids == |tids|
      {
        assert pages[..blkno + 1] == pages[..blkno] + [pages[blkno]];
        FlattenExtend(pages[..blkno], pages[blkno]);
        MatchingTidsConcat(Flatten(pages[..blkno]), Items(pages[blkno]), sign);
        if !Reusable(pages[blkno]) {
          var hits := ScanPage(pages[blkno].items, sign);
          tids, ntids := tids + hits, ntids + |hits|;
        }
      }
      assert pages[..|pages|] == pages;
    }
  }

  /** The tuple loop of blgetbitmap on one page. */
  method ScanPage(items: seq<Tuple>, sign: Signature) returns (tids: seq<nat>)
    requires forall t :: t in items ==> |t.sign| == |sign|
    ensures tids == MatchingTids(items, sign)
  {
    tids := [];
    for offset := 0 to |items|
      invariant tids == MatchingTids(items[..offset], sign)
    {
      assert items[..offset + 1][..offset] == items[..offset];
      assert items[offset] in items;
      var res := SignatureTest(items[offset].sign, sign);
      if res {
        tids := tids + [items[offset].tid];
      }
    }
    assert items[..|items|] == items;
  }

  /** Every data page is in use and full. */
  predicate AllFull(words: nat, pages: seq<Page>) {
    forall b :: 1 <= b < |pages| ==> !Reusable(pages[b]) && |Items(pages[b])| == Capacity(words)
  }

  lemma FlattenNew()
    ensures Flatten([New]) == []
  {
    assert [New][..0] == [];
  }

  lemma NewIsKept(words: nat, p: Page, dead: set<nat>)
    requires p.New?
    ensures VacuumPage(p, dead) == p && !NotFull(words, p, dead) && Items(p) == []
  {
  }

  /** How many tuples of the first n pages the callback names. */
  function RemovedCount(pages: seq<Page>, dead: set<nat>, n: nat): nat
    requires n <= |pages|
  {
    if n == 0 then 0
    else RemovedCount(pages, dead, n - 1) + |Items(pages[n - 1])| - |Survivors(Items(pages[n - 1]), dead)|
  }

  lemma {:induction false} RemovedCountTotal(pages: seq<Page>, dead: set<nat>, n: nat)
    requires n <= |pages|
    ensures RemovedCount(pages, dead, n) == |Flatten(pages[..n])| - |Survivors(Flatten(pages[..n]), dead)|
  {
    hide Items;
    if n > 0 {
      RemovedCountTotal(pages, dead, n - 1);
      assert pages[..n] == pages[..n - 1] + [pages[n - 1]];
      FlattenExtend(pages[..n - 1], pages[n - 1]);
      SurvivorsConcat(Flatten(pages[..n - 1]), Items(pages[n - 1]), dead);
    }
  }

  /** The metapage is never queued. */
  lemma {:induction false} QueueFromOne(words: nat, pages: seq<Page>, dead: set<nat>, n: nat)
    requires |pages| >= 1 && pages[0].New? && n <= |pages|
    ensures forall i :: 0 <= i < |NotFullBlocks(words, pages, dead, n)| ==>
              1 <= NotFullBlocks(words, pages, dead, n)[i]
  {
    if n > 0 {
      QueueFromOne(words, pages, dead, n - 1);
      NewIsKept(words, pages[0], dead);
    }
  }

  /** A page that refuses a tuple is not empty. */
  lemma NonEmptyWhenFull(words: nat, p: Page, t: Tuple)
    requires words <= 256 && TryAdd(words, p, t).None?
    ensures Items(p) != []
  {
  }

  lemma {:induction false} SurvivorsConcat(a: seq<Tuple>, b: seq<Tuple>, dead: set<nat>)
    ensures Survivors(a + b, dead) == Survivors(a, dead) + Survivors(b, dead)
  {
    if b == [] {
      assert a + b == a;
    } else {
      var n := |b| - 1;
      assert (a + b)[..|a + b| - 1] == a + b[..n];
      SurvivorsConcat(a, b[..n], dead);
    }
  }

  /** Deleting page by page keeps the survivors of the whole file, in file order. */
  lemma {:induction false} VacuumedFlatten(words: nat, pages: seq<Page>, dead: set<nat>)
    requires forall b :: 0 <= b < |pages| ==> ValidPage(words, pages[b])
    ensures Flatten(Vacuumed(pages, dead)) == Survivors(Flatten(pages), dead)
  {
    hide Items, VacuumPage, ValidPage;
    if pages != [] {
      var n := |pages| - 1;
      var front, last := pages[..n], pages[n];
      VacuumedFlatten(words, front, dead);
      assert Vacuumed(pages, dead)[..n] == Vacuumed(front, dead);
      SurvivorsConcat(Flatten(front), Items(last), dead);
      VacuumPageItems(words, last, dead);
    }
  }

  lemma VacuumedOk(words: nat, pages: seq<Page>, dead: set<nat>)
    requires PagesOk(words, pages)
    ensures PagesOk(words, Vacuumed(pages, dead))
  {
    forall b | 0 <= b < |pages|
      ensures ValidPage(words, Vacuumed(pages, dead)[b])
    {
      VacuumPageItems(words, pages[b], dead);
    }
  }
}
