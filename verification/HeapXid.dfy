/**
  Transaction ids: widening a 32-bit id to 64 bits around the next id to be assigned, and the
  bounds that get_xid_status reports.
 */
module HeapXid {
  import opened Common

  type uint64 = x: int | 0 <= x < 0x1_0000_0000_0000_0000

  const HALF := 0x8000_0000
  const WORD := 0x1_0000_0000
  const FIRST_NORMAL := 3

  function LowWord(f: uint64): uint32 {
    f % WORD
  }

  /** (int32) (a - b) with the unsigned subtraction of the source. */
  function Diff32(a: uint32, b: uint32): int {
    var d := if a < b then a - b + WORD else a - b;
    if d >= HALF then d - WORD else d
  }

  /** The next id is normal, in both words, and cannot wrap. */
  predicate NormalNext(next: uint64) {
    FIRST_NORMAL <= next < 0x1_0000_0000_0000_0000 - HALF && LowWord(next) >= FIRST_NORMAL
  }

  /** The id lies before epoch 0. */
  predicate Clamped(xid: uint32, next: uint64) {
    Diff32(LowWord(next), xid) > 0 && next - FIRST_NORMAL < Diff32(LowWord(next), xid)
  }

  /** FullTransactionIdFromXidAndCtx. */
  function Widen(xid: uint32, next: uint64): uint64
    requires NormalNext(next)
  {
    if xid < FIRST_NORMAL then xid
    else if Clamped(xid, next) then FIRST_NORMAL
    else next - Diff32(LowWord(next), xid)
  }

  /** The ids that 32 bits can tell apart around next. */
  predicate InWindow(f: int, next: uint64) {
    next - HALF < f <= next + HALF
  }

  lemma Diff32Congruent(next: uint64, xid: uint32)
    ensures exists k: int :: next - Diff32(LowWord(next), xid) == k * WORD + xid
    ensures InWindow(next - Diff32(LowWord(next), xid), next)
  {
    var n, e := LowWord(next), next / WORD;
    assert next == e * WORD + n;
    var d := n - Diff32(n, xid) - xid;
    assert d == 0 || d == WORD || d == -WORD;
    var k := if d == 0 then e else if d == WORD then e + 1 else e - 1;
    assert next - Diff32(n, xid) == k * WORD + xid;
  }

  lemma CongruentLow(k: int, xid: uint32, f: uint64)
    requires f == k * WORD + xid
    ensures LowWord(f) == xid
  {
  }

  /** Widening yields a normal id; unless the id lies before epoch 0, its low word is the id and
      no other id in the window has that low word. Clamping happens only in epoch 0. */
  lemma WidenMeaning(xid: uint32, next: uint64)
    requires NormalNext(next) && xid >= FIRST_NORMAL
    ensures Widen(xid, next) >= FIRST_NORMAL
    ensures Clamped(xid, next) ==> next < WORD && Widen(xid, next) == FIRST_NORMAL
    ensures !Clamped(xid, next) ==> LowWord(Widen(xid, next)) == xid && InWindow(Widen(xid, next), next)
  {
    var f := next - Diff32(LowWord(next), xid);
    Diff32Congruent(next, xid);
    var k: int :| f == k * WORD + xid;
    if !Clamped(xid, next) {
      CongruentLow(k, xid, f);
    }
  }

  /** Clamping is exact: it happens when no id at all has that low word in the window. */
  lemma ClampedIffNone(xid: uint32, next: uint64)
    requires NormalNext(next) && xid >= FIRST_NORMAL
    ensures Clamped(xid, next) <==> forall f: uint64 :: InWindow(f, next) ==> LowWord(f) != xid
  {
    if Clamped(xid, next) {
      forall f: uint64 | InWindow(f, next)
        ensures LowWord(f) != xid
      {
        if LowWord(f) == xid {
          Unique(xid, next, f);
          assert false;
        }
      }
    } else {
      WidenMeaning(xid, next);
      assert InWindow(Widen(xid, next), next);
    }
  }

  /** The only candidate in the window is the one that the subtraction yields. */
  lemma Unique(xid: uint32, next: uint64, f: uint64)
    requires InWindow(f, next) && LowWord(f) == xid
    ensures f == next - Diff32(LowWord(next), xid)
  {
    Diff32Congruent(next, xid);
    var g := next - Diff32(LowWord(next), xid);
    var k: int :| g == k * WORD + xid;
    var l := f / WORD;
    assert f == l * WORD + xid;
    assert f - g == (l - k) * WORD;
  }

  lemma WidenUnique(xid: uint32, next: uint64, f: uint64)
    requires NormalNext(next) && xid >= FIRST_NORMAL && InWindow(f, next) && LowWord(f) == xid
    ensures Widen(xid, next) == f
  {
    Unique(xid, next, f);
    assert f >= FIRST_NORMAL;
  }

  /** Different ids widen differently, unless clamped. */
  lemma WidenInjective(x: uint32, y: uint32, next: uint64)
    requires NormalNext(next) && x >= FIRST_NORMAL && y >= FIRST_NORMAL
    requires !Clamped(x, next) && !Clamped(y, next) && Widen(x, next) == Widen(y, next)
    ensures x == y
  {
    WidenMeaning(x, next);
    WidenMeaning(y, next);
  }

  /** Widening again after the counter moved on gives the same id while it is in the window. */
  lemma WidenStable(xid: uint32, next: uint64, later: uint64)
    requires NormalNext(next) && NormalNext(later) && xid >= FIRST_NORMAL && next <= later && !Clamped(xid, next)
    ensures Widen(xid, later) == Widen(xid, next) <==> later - HALF < Widen(xid, next)
  {
    WidenMeaning(xid, next);
    WidenMeaning(xid, later);
    if later - HALF < Widen(xid, next) {
      WidenUnique(xid, later, Widen(xid, next));
    }
  }

  // ---------------------------------------------------------------------------
  // Bounds.

  datatype Bounds = XidInvalid | InFuture | PrecedesClusterMin | PrecedesRelMin | BoundsOk

  datatype Status = Committed | IsCurrent | InProgress | Aborted

  /** Where an id stands with respect to three marks. */
  function Classify(f: int, next: int, oldest: int, relFrozen: int): Bounds {
    if next <= f then InFuture
    else if f < oldest then PrecedesClusterMin
    else if f < relFrozen then PrecedesRelMin
    else BoundsOk
  }

  /** An id is fine exactly from the later of the two lower marks on and before the next id; the
      marks themselves are fine, the next id is not. A fault is named after the first mark that the
      id misses, the cluster's before the relation's. */
  lemma ClassifyMeaning(f: int, next: int, oldest: int, relFrozen: int)
    ensures Classify(f, next, oldest, relFrozen) == BoundsOk <==> oldest <= f && relFrozen <= f && f < next
    ensures Classify(f, next, oldest, relFrozen) == InFuture <==> f >= next
    ensures Classify(f, next, oldest, relFrozen) == PrecedesClusterMin <==> f < next && f < oldest
    ensures Classify(f, next, oldest, relFrozen) == PrecedesRelMin <==> f < next && oldest <= f < relFrozen
  {
  }

  /** The cached part of HeapCheckContext. */
  class Context {
    var nextFxid: uint64
    var oldestFxid: uint64
    const relFrozenFxid: uint64
    var cachedXid: uint32
    var cachedStatus: Status

    ghost predicate Valid()
      reads this
    {
      NormalNext(nextFxid)
    }

    constructor (next: uint64, oldestXid: uint32, relFrozenXid: uint32)
      requires NormalNext(next)
      ensures Valid() && nextFxid == next && oldestFxid == Widen(oldestXid, next) && cachedXid == 0
      ensures relFrozenFxid == Widen(relFrozenXid, next)
    {
      nextFxid, oldestFxid := next, Widen(oldestXid, next);
      relFrozenFxid := Widen(relFrozenXid, next);
      cachedXid, cachedStatus := 0, Committed;
    }

    predicate InCachedRange(f: uint64)
      reads this
    {
      oldestFxid <= f < nextFxid
    }

    /** update_cached_xid_range, with the shared counters as arguments. */
    method UpdateRange(sharedNext: uint64, sharedOldest: uint32)
      requires NormalNext(sharedNext)
      modifies this`nextFxid, this`oldestFxid
      ensures Valid() && nextFxid == sharedNext && oldestFxid == Widen(sharedOldest, sharedNext)
    {
      nextFxid, oldestFxid := sharedNext, Widen(sharedOldest, sharedNext);
    }

    /** get_xid_status. The shared counters are those of the moment; actual is what the
        transaction system says about the id. A wanted status is given exactly when the id is
        within bounds, and nothing is called out of range against stale counters. */
    method GetXidStatus(xid: uint32, want: bool, sharedNext: uint64, sharedOldest: uint32,
                        oldestClogXid: uint32, actual: Status)
      returns (bounds: Bounds, status: Option<Status>)
      requires Valid() && NormalNext(sharedNext)
      modifies this
      ensures Valid()
      ensures xid < FIRST_NORMAL ==>
                && bounds == (if xid == 0 then XidInvalid else BoundsOk)
                && status == (if xid != 0 && want then Some(Committed) else None)
                && nextFxid == old(nextFxid) && oldestFxid == old(oldestFxid)
                && cachedXid == old(cachedXid) && cachedStatus == old(cachedStatus)
      ensures xid >= FIRST_NORMAL && old(InCachedRange(Widen(xid, nextFxid))) ==>
                && nextFxid == old(nextFxid) && oldestFxid == old(oldestFxid)
      ensures xid >= FIRST_NORMAL && !old(InCachedRange(Widen(xid, nextFxid))) ==>
                && nextFxid == sharedNext && oldestFxid == Widen(sharedOldest, sharedNext)
      ensures xid >= FIRST_NORMAL ==> bounds == Classify(Widen(xid, nextFxid), nextFxid, oldestFxid, relFrozenFxid)
      ensures bounds == InFuture || bounds == PrecedesClusterMin ==>
                && nextFxid == sharedNext && oldestFxid == Widen(sharedOldest, sharedNext)
      ensures xid >= FIRST_NORMAL ==> (status.Some? <==> want && bounds == BoundsOk)
      ensures xid >= FIRST_NORMAL && status.Some? ==>
                && cachedXid == xid && cachedStatus == status.value
                && status.value ==
                   if xid == old(cachedXid) then old(cachedStatus)
                   else if Widen(oldestClogXid, nextFxid) <= Widen(xid, nextFxid) then actual
                   else Committed
      ensures xid >= FIRST_NORMAL && status.None? ==> cachedXid == old(cachedXid) && cachedStatus == old(cachedStatus)
    {
      status := None;
      if xid == 0 {
        return XidInvalid, None;
      } else if xid < FIRST_NORMAL {
        return BoundsOk, if want then Some(Committed) else None;
      }
      var f := Widen(xid, nextFxid);
      if !InCachedRange(f) {
        UpdateRange(sharedNext, sharedOldest);
        f := Widen(xid, nextFxid);
      }
      if nextFxid <= f {
        return InFuture, None;
      }
      if f < oldestFxid {
        return PrecedesClusterMin, None;
      }
      if f < relFrozenFxid {
        return PrecedesRelMin, None;
      }
      if !want {
        return BoundsOk, None;
      }
      if xid == cachedXid {
        return BoundsOk, Some(cachedStatus);
      }
      var s := Committed;
      if Widen(oldestClogXid, nextFxid) <= f {
        s := actual;
      }
      cachedXid, cachedStatus := xid, s;
      return BoundsOk, Some(s);
    }
  }
}
