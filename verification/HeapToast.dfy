/**
  The check of an out-of-line value against its chunks (check_toasted_attribute). The value's
  size is a 32-bit unsigned number, sequence numbers are 32-bit signed ones.
 */
module HeapToast {
  import opened Common

  type int32 = x: int | -0x8000_0000 <= x < 0x8000_0000

  const TOAST_MAX_CHUNK_SIZE := 1996

  /** A chunk's data: missing, a plain or short varlena of some length, or anything else. */
  datatype Data = Null | Plain(size: int) | Invalid

  datatype Chunk = Chunk(seqNo: Option<int32>, data: Data)

  datatype Report =
    | NullSequence
    | UnexpectedChunk(found: int32, expected: int32)
    | NullData(seqNo: int32)
    | InvalidHeader(seqNo: int32)
    | FollowsLast(seqNo: int32)
    | WrongSize(seqNo: int32, size: int, expectedSize: int)
    | NotFound
    | EndedEarly(expected: int32)

  /** (extsize - 1) / TOAST_MAX_CHUNK_SIZE with the unsigned subtraction of the source. */
  function LastChunk(extsize: uint32): (n: int32)
    ensures 0 <= n <= 2151787
  {
    (if extsize == 0 then 0xFFFF_FFFF else extsize - 1) / TOAST_MAX_CHUNK_SIZE
  }

  /** extsize less the full chunks, cut to 32 bits. */
  function LastSize(extsize: uint32): int {
    var r := extsize - LastChunk(extsize) * TOAST_MAX_CHUNK_SIZE;
    if r < 0 then r + 0x1_0000_0000 else r
  }

  function ExpectedSize(extsize: uint32, seqNo: int): int {
    if seqNo < LastChunk(extsize) then TOAST_MAX_CHUNK_SIZE else LastSize(extsize)
  }

  /** Signed addition that wraps. */
  function Next(n: int32): int32 {
    if n == 0x7FFF_FFFF then -0x8000_0000 else n + 1
  }

  /** The chunk that belongs at a position of the value. */
  predicate GoodChunk(extsize: uint32, i: int, c: Chunk) {
    c.seqNo == Some(i) && i <= LastChunk(extsize) && c.data == Plain(ExpectedSize(extsize, i))
  }

  /** What is wrong with a chunk where another number is expected. Only a chunk with plain data has
      a size, and only one within the value has a size to be compared. */
  predicate ChunkFault(c: Chunk, expected: int32, extsize: uint32, r: Report) {
    match r
    case NullSequence => c.seqNo.None?
    case UnexpectedChunk(found, wanted) => c.seqNo == Some(found) && found != expected && wanted == expected
    case NullData(n) => c.seqNo == Some(n) && c.data.Null?
    case InvalidHeader(n) => c.seqNo == Some(n) && c.data.Invalid?
    case FollowsLast(n) => c.seqNo == Some(n) && c.data.Plain? && n > LastChunk(extsize)
    case WrongSize(n, size, wanted) =>
      && c.seqNo == Some(n) && n <= LastChunk(extsize) && c.data == Plain(size)
      && size != wanted && wanted == ExpectedSize(extsize, n)
    case _ => false
  }

  /** check_toast_tuple. */
  method CheckToastTuple(c: Chunk, expected: int32, extsize: uint32) returns (next: int32, rs: seq<Report>)
    ensures forall r :: r in rs <==> ChunkFault(c, expected, extsize, r)
    ensures rs == [] <==> GoodChunk(extsize, expected, c)
    ensures next == if c.seqNo.Some? then Next(c.seqNo.value) else expected
  {
    next, rs := expected, [];
    if c.seqNo.None? {
      rs := [NullSequence];
      return;
    }
    var seqNo := c.seqNo.value;
    if seqNo != expected {
      rs := [UnexpectedChunk(seqNo, expected)];
    }
    next := Next(seqNo);
    if c.data.Null? {
      rs := rs + [NullData(seqNo)];
      return;
    }
    if c.data.Invalid? {
      rs := rs + [InvalidHeader(seqNo)];
      return;
    }
    if seqNo > LastChunk(extsize) {
      rs := rs + [FollowsLast(seqNo)];
      return;
    }
    if c.data.size != ExpectedSize(extsize, seqNo) {
      rs := rs + [WrongSize(seqNo, c.data.size, ExpectedSize(extsize, seqNo))];
    }
  }

  predicate GoodPrefix(extsize: uint32, chunks: seq<Chunk>, n: nat)
    requires n <= |chunks|
  {
    forall i :: 0 <= i < n ==> GoodChunk(extsize, i, chunks[i])
  }

  /** The chunks are exactly 0 .. last, in order, and each has its size. */
  predicate Whole(extsize: uint32, chunks: seq<Chunk>) {
    |chunks| == LastChunk(extsize) + 1 && GoodPrefix(extsize, chunks, |chunks|)
  }

  /** The number expected after some chunks. A chunk without number is passed over. */
  function ExpectedAfter(chunks: seq<Chunk>): int32 {
    if chunks == [] then 0
    else
      var c := chunks[|chunks| - 1];
      if c.seqNo.Some? then Next(c.seqNo.value) else ExpectedAfter(chunks[..|chunks| - 1])
  }

  /** Some chunk has the fault, or there is none, or they end before the last number. */
  ghost predicate ValueFault(extsize: uint32, chunks: seq<Chunk>, r: Report) {
    || (exists i :: 0 <= i < |chunks| && ChunkFault(chunks[i], ExpectedAfter(chunks[..i]), extsize, r))
    || (r.NotFound? && chunks == [])
    || (r.EndedEarly? && chunks != [] && r.expected == ExpectedAfter(chunks) <= LastChunk(extsize))
  }

  /** check_toasted_attribute reports exactly the faults, and nothing exactly when the value is
      whole. */
  /** The reports are those about the first n chunks. */
  ghost predicate ReportsOf(extsize: uint32, chunks: seq<Chunk>, n: nat, rs: seq<Report>)
    requires n <= |chunks|
  {
    forall r :: r in rs <==> exists k :: 0 <= k < n && ChunkFault(chunks[k], ExpectedAfter(chunks[..k]), extsize, r)
  }

  lemma ReportsMore(extsize: uint32, chunks: seq<Chunk>, n: nat, rs: seq<Report>, more: seq<Report>)
    requires n < |chunks| && ReportsOf(extsize, chunks, n, rs)
    requires forall r :: r in more <==> ChunkFault(chunks[n], ExpectedAfter(chunks[..n]), extsize, r)
    ensures ReportsOf(extsize, chunks, n + 1, rs + more)
  {
    hide ChunkFault;
  }

  /** With the report about the end they are all the faults of the value. */
  lemma ReportsAll(extsize: uint32, chunks: seq<Chunk>, rs: seq<Report>)
    requires ReportsOf(extsize, chunks, |chunks|, rs)
    ensures var last := ExpectedAfter(chunks);
            var end := if chunks == [] then [NotFound]
                       else if last <= LastChunk(extsize) then [EndedEarly(last)] else [];
            forall r :: r in rs + end <==> ValueFault(extsize, chunks, r)
  {
    hide ChunkFault, LastChunk;
  }

  method CheckToastedAttribute(chunks: seq<Chunk>, extsize: uint32) returns (rs: seq<Report>)
    ensures forall r :: r in rs <==> ValueFault(extsize, chunks, r)
    ensures rs == [] <==> Whole(extsize, chunks)
  {
    hide ChunkFault, LastChunk, ReportsOf, ValueFault;
    rs := [];
    assert ReportsOf(extsize, chunks, 0, []) by { NoReportsYet(extsize, chunks); }
    var expected: int32 := 0;
    var i := 0;
    while i < |chunks|
      invariant 0 <= i <= |chunks| && expected == ExpectedAfter(chunks[..i])
      invariant ReportsOf(extsize, chunks, i, rs)
      invariant rs == [] <==> GoodPrefix(extsize, chunks, i)
      invariant rs == [] ==> expected == i <= LastChunk(extsize) + 1
    {
      assert chunks[..i + 1][..i] == chunks[..i];
      var next, more := CheckToastTuple(chunks[i], expected, extsize);
      ReportsMore(extsize, chunks, i, rs, more);
      expected, rs := next, rs + more;
      i := i + 1;
    }
    assert chunks[..|chunks|] == chunks;
    ReportsAll(extsize, chunks, rs);
    if chunks == [] {
      rs := rs + [NotFound];
    } else if expected <= LastChunk(extsize) {
      rs := rs + [EndedEarly(expected)];
    } else {
      assert rs + [] == rs;
    }
  }

  lemma NoReportsYet(extsize: uint32, chunks: seq<Chunk>)
    ensures ReportsOf(extsize, chunks, 0, [])
  {
  }

  function Sum(chunks: seq<Chunk>): int {
    if chunks == [] then 0
    else
      var c := chunks[|chunks| - 1];
      Sum(chunks[..|chunks| - 1]) + if c.data.Plain? then c.data.size else 0
  }

  lemma {:induction false} FullChunks(extsize: uint32, chunks: seq<Chunk>, n: nat)
    requires n <= |chunks| && n <= LastChunk(extsize) && GoodPrefix(extsize, chunks, |chunks|)
    ensures Sum(chunks[..n]) == n * TOAST_MAX_CHUNK_SIZE
  {
    if n > 0 {
      FullChunks(extsize, chunks, n - 1);
      assert GoodChunk(extsize, n - 1, chunks[n - 1]);
      assert chunks[..n][..n - 1] == chunks[..n - 1];
    }
  }

  /** An accepted value has its full size. The only other value the check accepts is 2^32 bytes of
      chunks for a recorded size of zero, where the subtraction wraps. */
  lemma WholeHasItsSize(extsize: uint32, chunks: seq<Chunk>)
    requires Whole(extsize, chunks)
    ensures Sum(chunks) == if extsize == 0 then 0x1_0000_0000 else extsize
    ensures Sum(chunks) == extsize <==> extsize >= 1
  {
    var last: nat := LastChunk(extsize);
    FullChunks(extsize, chunks, last);
    assert chunks[..|chunks| - 1] == chunks[..last];
    assert GoodChunk(extsize, last, chunks[last]);
  }

  /** The last chunk of a whole value holds 1 .. 1996 bytes. */
  lemma LastSizeRange(extsize: uint32)
    ensures 1 <= LastSize(extsize) <= TOAST_MAX_CHUNK_SIZE
  {
    var less := if extsize == 0 then 0xFFFF_FFFF else extsize - 1;
    var q, r := less / TOAST_MAX_CHUNK_SIZE, less % TOAST_MAX_CHUNK_SIZE;
    assert less == q * TOAST_MAX_CHUNK_SIZE + r;
  }
}
