/**
  Bloom signatures: the Park-Miller generator with C's 32-bit signed arithmetic, the bits it
  chooses for a column value, and the word-wise subset test of the scan.
 */
module BloomSignature {
  import opened Common

  newtype int32 = x: int | -0x8000_0000 <= x < 0x8000_0000

  const P: int := 0x7fff_ffff
  const SIGNWORDBITS: int := 16

  /** C division and remainder round toward zero. */
  function CDiv(a: int, b: int): int
    requires b > 0
  {
    if a >= 0 then a / b else -(-a / b)
  }

  function CMod(a: int, b: int): int
    requires b > 0
  {
    if a >= 0 then a % b else -(-a % b)
  }

  /** Conversion of a 32-bit unsigned value to a signed one. */
  function ToInt32(u: uint32): int {
    if u < 0x8000_0000 then u else u - 0x1_0000_0000
  }

  /** Exclusive or of the low n bits. */
  function Xor(a: nat, b: nat, n: nat): (x: nat)
  {
    if n == 0 then 0 else 2 * Xor(a / 2, b / 2, n - 1) + (a % 2 + b % 2) % 2
  }

  function Pow2(n: nat): nat {
    if n == 0 then 1 else 2 * Pow2(n - 1)
  }

  lemma {:induction false} XorBound(a: nat, b: nat, n: nat)
    ensures Xor(a, b, n) < Pow2(n)
  {
    if n > 0 {
      XorBound(a / 2, b / 2, n - 1);
    }
  }

  lemma LowBit(y: nat, r: nat)
    requires r < 2
    ensures (2 * y + r) / 2 == y && (2 * y + r) % 2 == r
  {
  }

  lemma BitTwice(p: nat, q: nat)
    requires p < 2 && q < 2
    ensures ((p + q) % 2 + q) % 2 == p
  {
  }

  /** Exclusive or with b is its own inverse. */
  lemma {:induction false} XorInvolutive(a: nat, b: nat, n: nat)
    requires a < Pow2(n)
    ensures Xor(Xor(a, b, n), b, n) == a
  {
    if n > 0 {
      var y, r := Xor(a / 2, b / 2, n - 1), (a % 2 + b % 2) % 2;
      LowBit(y, r);
      BitTwice(a % 2, b % 2);
      XorInvolutive(a / 2, b / 2, n - 1);
    }
  }

  lemma Pow2At32()
    ensures Pow2(32) == 0x1_0000_0000
  {
    assert Pow2(8) == 0x100;
    assert Pow2(16) == 0x1_0000;
    assert Pow2(24) == 0x100_0000;
  }

  function Xor32(a: uint32, b: uint32): uint32 {
    XorBound(a, b, 32);
    Pow2At32();
    Xor(a, b, 32)
  }

  lemma Xor32Cancel(a: uint32, b: uint32, c: uint32)
    ensures Xor32(a, b) == c <==> a == Xor32(c, b)
  {
    Pow2At32();
    XorInvolutive(a, b, 32);
    XorInvolutive(c, b, 32);
  }

  /** The state mySrand leaves for a seed. */
  function Seeded(seed: uint32): int {
    CMod(ToInt32(seed), 0x7fff_fffe) + 1
  }

  /** The state myRand leaves for a state. */
  function NextState(next: int): int {
    var x := 16807 * CMod(next, 127773) - 2836 * CDiv(next, 127773);
    if x < 0 then x + P else x
  }

  /** A state from which the generator runs as intended. */
  predicate Live(next: int) {
    -P < next < P && next != 0
  }

  /** The generator, whose state is a static variable of the source. */
  class Generator {
    var next: int32

    /** myRand. No intermediate result leaves the int32 range, whatever the state. */
    method Rand() returns (r: int32)
      modifies this
      ensures next as int == NextState(old(next) as int)
      ensures r as int == next as int - 1
    {
      DivModBounds(next as int);
      var hi := CDiv(next as int, 127773) as int32;
      var lo := CMod(next as int, 127773) as int32;
      var x: int32 := 16807 * lo - 2836 * hi;
      if x < 0 {
        x := x + 0x7fff_ffff;
      }
      next := x;
      r := x - 1;
    }

    /** mySrand. */
    method Srand(seed: uint32)
      modifies this
      ensures next as int == Seeded(seed)
    {
      next := (CMod(ToInt32(seed), 0x7fff_fffe) + 1) as int32;
    }
  }

  lemma DivModBounds(n: int)
    requires -0x8000_0000 <= n < 0x8000_0000
    ensures n == 127773 * CDiv(n, 127773) + CMod(n, 127773)
    ensures -127772 <= CMod(n, 127773) <= 127772
    ensures -16807 <= CDiv(n, 127773) <= 16807
    ensures n >= 0 ==> CMod(n, 127773) >= 0 && CDiv(n, 127773) >= 0
    ensures n <= 0 ==> CMod(n, 127773) <= 0 && CDiv(n, 127773) <= 0
    ensures n != P && n != -P ==> -2147480808 <= 16807 * CMod(n, 127773) - 2836 * CDiv(n, 127773) <= 2147480808
  {
  }

  /** 16807 has an inverse modulo P, so it sends no live state to a multiple of P. */
  lemma NoZeroDivisor(x: int, k: int)
    requires 16807 * x == P * k && -P < x < P
    ensures x == 0
  {
    var a, b := 1407677000, 11017;
    assert 16807 * a == P * b + 1;
    var m := a * k - b * x;
    assert x == P * m by {
      calc {
        P * m;
        a * (P * k) - (P * b) * x;
        a * (16807 * x) - (16807 * a - 1) * x;
        x;
      }
    }
    assert 2147483647 * m == x;
    assert m == 0;
  }

  /** From a live state the generator computes 16807 * state modulo P and stays in [1, P - 1]. */
  lemma NextStateIsParkMiller(next: int)
    requires Live(next)
    ensures 1 <= NextState(next) <= P - 1
    ensures NextState(next) == 16807 * next % P
    ensures Live(NextState(next))
  {
    var hi, lo := CDiv(next, 127773), CMod(next, 127773);
    DivModBounds(next);
    var x := 16807 * lo - 2836 * hi;
    assert 16807 * next == P * hi + x;
    if x == 0 {
      NoZeroDivisor(next, hi);
    }
    var q := if x < 0 then hi - 1 else hi;
    ModUnique(16807 * next, q, NextState(next));
  }

  lemma ModUnique(a: int, q: int, r: int)
    requires a == P * q + r && 0 <= r < P
    ensures a % P == r
  {
    assert P == 2147483647;
    var d := q - a / P;
    assert 2147483647 * d == a % P - r;
    assert d == 0;
  }

  /** The seed transformation never leaves the generator's range, but, against its comment, it
      can produce negative states, and zero for exactly two seeds. */
  lemma SeededRange(seed: uint32)
    ensures -(P - 3) <= Seeded(seed) <= P - 1
    ensures Seeded(seed) == 0 <==> seed == 0x8000_0001 || seed == 0xFFFF_FFFF
  {
  }

  // ---------------------------------------------------------------------------
  // The bits of a value.

  /** What myRand returns first when seeded with a column number. */
  function ColumnRand(attno: nat): (r: uint32)
    requires attno < 32
    ensures r == 16807 * (attno + 1) - 1
  {
    assert Seeded(attno) == attno + 1;
    NextState(Seeded(attno)) - 1
  }

  /** The state from which signValue draws the bits of a value with the given hash. */
  function ValueState(attno: nat, hash: uint32): int
    requires attno < 32
  {
    Seeded(Xor32(hash, ColumnRand(attno)))
  }

  function BitIndex(next: int, words: nat): int
    requires words > 0
  {
    CMod(NextState(next) - 1, words * SIGNWORDBITS)
  }

  /** The bit indexes signValue sets, in order, from the given state. */
  function BitsFrom(next: int, count: nat, words: nat): seq<int>
    requires words > 0
    decreases count
  {
    if count == 0 then []
    else [BitIndex(next, words)] + BitsFrom(NextState(next), count - 1, words)
  }

  predicate InRange(bits: seq<int>, words: nat) {
    forall j :: 0 <= j < |bits| ==> 0 <= bits[j] < words * SIGNWORDBITS
  }

  lemma {:induction false} LiveBitsInRange(next: int, count: nat, words: nat)
    requires words > 0 && Live(next)
    ensures InRange(BitsFrom(next, count, words), words)
    decreases count
  {
    if count > 0 {
      hide NextState, Live;
      NextStateIsParkMiller(next);
      LiveBitsInRange(NextState(next), count - 1, words);
    }
  }

  /** Exact condition for sound bit indexes: the generator must not be seeded to zero, which
      happens for exactly two hash values per column; then the first index is -1. */
  lemma BitsInRangeIffLive(attno: nat, hash: uint32, count: nat, words: nat)
    requires attno < 32 && words > 0 && count > 0
    ensures InRange(BitsFrom(ValueState(attno, hash), count, words), words)
       <==> ValueState(attno, hash) != 0
    ensures ValueState(attno, hash) == 0 <==>
            hash == Xor32(0x8000_0001, ColumnRand(attno)) || hash == Xor32(0xFFFF_FFFF, ColumnRand(attno))
  {
    hide Seeded, Xor32;
    var r, next := ColumnRand(attno), ValueState(attno, hash);
    SeededRange(Xor32(hash, r));
    Xor32Cancel(hash, r, 0x8000_0001);
    Xor32Cancel(hash, r, 0xFFFF_FFFF);
    if next != 0 {
      LiveBitsInRange(next, count, words);
    } else {
      assert BitsFrom(next, count, words)[0] == BitIndex(0, words) == -1;
    }
  }

  // ---------------------------------------------------------------------------
  // Signatures.

  /** A uint16 signature word as its bits, least significant first. */
  type Word = w: seq<bool> | |w| == 16 witness seq(16, _ => false)
  type Signature = seq<Word>

  const ZERO: Word := seq(16, _ => false)

  /** Bitwise and. */
  function And(a: Word, b: Word): Word {
    seq(16, i requires 0 <= i < 16 => a[i] && b[i])
  }

  /** SETBIT. */
  function SetBit(sign: Signature, i: int): (r: Signature)
    requires 0 <= i < |sign| * SIGNWORDBITS
    ensures |r| == |sign|
  {
    sign[i / SIGNWORDBITS := sign[i / SIGNWORDBITS][i % SIGNWORDBITS := true]]
  }

  function SetBits(sign: Signature, bits: seq<int>): (r: Signature)
    requires InRange(bits, |sign|)
    ensures |r| == |sign|
    decreases |bits|
  {
    if bits == [] then sign else SetBits(SetBit(sign, bits[0]), bits[1..])
  }

  /** The scan's test: every word of the scan signature is contained in the tuple's word. */
  predicate Subsumes(tuple: Signature, scan: Signature) {
    |tuple| == |scan| && forall w :: 0 <= w < |scan| ==> And(tuple[w], scan[w]) == scan[w]
  }

  method SignatureTest(tuple: Signature, scan: Signature) returns (res: bool)
    requires |tuple| == |scan|
    ensures res <==> Subsumes(tuple, scan)
  {
    res := true;
    for i := 0 to |scan|
      invariant res && forall w :: 0 <= w < i ==> And(tuple[w], scan[w]) == scan[w]
    {
      if And(tuple[i], scan[i]) != scan[i] {
        res := false;
        break;
      }
    }
  }

  predicate HasBit(sign: Signature, i: int)
    requires 0 <= i < |sign| * SIGNWORDBITS
  {
    sign[i / SIGNWORDBITS][i % SIGNWORDBITS]
  }

  lemma SetBitHas(sign: Signature, b: int, i: int)
    requires 0 <= b < |sign| * SIGNWORDBITS && 0 <= i < |sign| * SIGNWORDBITS
    ensures HasBit(SetBit(sign, b), i) <==> i == b || HasBit(sign, i)
  {
  }

  lemma {:induction false} SetBitsHas(sign: Signature, bits: seq<int>, i: int)
    requires InRange(bits, |sign|) && 0 <= i < |sign| * SIGNWORDBITS
    ensures HasBit(SetBits(sign, bits), i) <==> i in bits || HasBit(sign, i)
    decreases |bits|
  {
    hide HasBit, SetBit;
    if bits != [] {
      SetBitsHas(SetBit(sign, bits[0]), bits[1..], i);
      SetBitHas(sign, bits[0], i);
    }
  }

  lemma {:induction false} SetBitsConcat(sign: Signature, a: seq<int>, b: seq<int>)
    requires InRange(a, |sign|) && InRange(b, |sign|)
    ensures InRange(a + b, |sign|)
    ensures SetBits(sign, a + b) == SetBits(SetBits(sign, a), b)
    decreases |a|
  {
    if a == [] {
      assert a + b == b;
    } else {
      assert (a + b)[1..] == a[1..] + b;
      SetBitsConcat(SetBit(sign, a[0]), a[1..], b);
    }
  }

  ghost predicate BitsCover(tuple: Signature, scan: Signature)
    requires |tuple| == |scan|
  {
    forall i :: 0 <= i < |scan| * SIGNWORDBITS && HasBit(scan, i) ==> HasBit(tuple, i)
  }

  lemma CoverWord(tuple: Signature, scan: Signature, w: nat)
    requires |tuple| == |scan| && w < |scan| && BitsCover(tuple, scan)
    ensures And(tuple[w], scan[w]) == scan[w]
  {
    forall j | 0 <= j < 16 && scan[w][j]
      ensures tuple[w][j]
    {
      var i := w * SIGNWORDBITS + j;
      assert i / SIGNWORDBITS == w && i % SIGNWORDBITS == j;
      assert HasBit(scan, i);
      assert HasBit(tuple, i);
    }
  }

  /** The word-wise test is the inclusion of the scan's bits in the tuple's bits. */
  lemma SubsumesIffBits(tuple: Signature, scan: Signature)
    requires |tuple| == |scan|
    ensures Subsumes(tuple, scan) <==> BitsCover(tuple, scan)
  {
    if Subsumes(tuple, scan) {
      forall i | 0 <= i < |scan| * SIGNWORDBITS && HasBit(scan, i)
        ensures HasBit(tuple, i)
      {
        var w, j := i / SIGNWORDBITS, i % SIGNWORDBITS;
        assert And(tuple[w], scan[w])[j];
      }
    } else if BitsCover(tuple, scan) {
      forall w | 0 <= w < |scan|
        ensures And(tuple[w], scan[w]) == scan[w]
      {
        CoverWord(tuple, scan, w);
      }
    }
  }

  function Empty(words: nat): (s: Signature)
    ensures |s| == words
  {
    seq(words, _ => ZERO)
  }

  lemma EmptyHasNone(words: nat, i: int)
    requires 0 <= i < words * SIGNWORDBITS
    ensures !HasBit(Empty(words), i)
  {
  }

  // ---------------------------------------------------------------------------
  // Rows and scan keys.

  /** The part of BloomState the signature depends on; hash is the column's hash function. stray is
      the word that a shift of one by minus one yields, which C leaves open. */
  datatype BloomState = BloomState(
    nColumns: nat,
    words: nat,
    bitSize: seq<nat>,
    hash: (nat, int) -> uint32,
    stray: Word)

  predicate ValidState(st: BloomState) {
    && 0 < st.nColumns <= 32 && |st.bitSize| == st.nColumns
    && 1 <= st.words <= 256
    && forall i :: 0 <= i < st.nColumns ==> 1 <= st.bitSize[i] <= 4095
  }

  type Row = seq<Option<int>>

  /** A scan key: a column and a value, null when absent. */
  datatype Key = Key(attno: nat, arg: Option<int>)

  /** The positions set in a word, the first of a signature. */
  function WordBits(w: Word, n: nat): (bits: seq<int>)
    requires n <= 16
    ensures InRange(bits, 1) && forall i :: i in bits <==> 0 <= i < n && w[i]
  {
    if n == 0 then [] else WordBits(w, n - 1) + (if w[n - 1] then [n - 1] else [])
  }

  lemma LiveValueBits(st: BloomState, attno: nat, v: int)
    requires ValidState(st) && attno < st.nColumns && ValueState(attno, st.hash(attno, v)) != 0
    ensures InRange(BitsFrom(ValueState(attno, st.hash(attno, v)), st.bitSize[attno], st.words), st.words)
  {
    BitsInRangeIffLive(attno, st.hash(attno, v), st.bitSize[attno], st.words);
  }

  /** The bits that signValue sets for a value. From state zero every index is minus one, and each
      pass of the loop or-s the stray word into the first one. */
  function ValueBits(st: BloomState, attno: nat, v: int): (bits: seq<int>)
    requires ValidState(st) && attno < st.nColumns
    ensures InRange(bits, st.words)
  {
    if ValueState(attno, st.hash(attno, v)) == 0 then WordBits(st.stray, 16)
    else
      LiveValueBits(st, attno, v);
      BitsFrom(ValueState(attno, st.hash(attno, v)), st.bitSize[attno], st.words)
  }

  /** The bits of the non-null columns below n. */
  function RowBits(st: BloomState, row: Row, n: nat): (bits: seq<int>)
    requires ValidState(st) && n <= |row| == st.nColumns
    ensures InRange(bits, st.words)
  {
    if n == 0 then []
    else
      var before := RowBits(st, row, n - 1);
      if row[n - 1].None? then before else before + ValueBits(st, n - 1, row[n - 1].value)
  }

  function RowSign(st: BloomState, row: Row): (s: Signature)
    requires ValidState(st) && |row| == st.nColumns
    ensures |s| == st.words
  {
    SetBits(Empty(st.words), RowBits(st, row, |row|))
  }

  /** Keys on columns of the index, none of them null. */
  predicate KeysOk(st: BloomState, keys: seq<Key>) {
    forall k :: k in keys ==> k.attno < st.nColumns && k.arg.Some?
  }

  function KeyBits(st: BloomState, keys: seq<Key>): (bits: seq<int>)
    requires ValidState(st) && KeysOk(st, keys)
    ensures InRange(bits, st.words)
  {
    if keys == [] then []
    else
      var k := keys[|keys| - 1];
      KeyBits(st, keys[..|keys| - 1]) + ValueBits(st, k.attno, k.arg.value)
  }

  function ScanSign(st: BloomState, keys: seq<Key>): (s: Signature)
    requires ValidState(st) && KeysOk(st, keys)
    ensures |s| == st.words
  {
    SetBits(Empty(st.words), KeyBits(st, keys))
  }

  /** Each key's column is not null and equals the key. Values that the operator class calls
      equal have equal hashes, and only the hash is used. */
  predicate RowMatches(st: BloomState, row: Row, keys: seq<Key>) {
    forall k :: k in keys ==>
      && k.attno < |row| && k.arg.Some? && row[k.attno].Some?
      && st.hash(k.attno, row[k.attno].value) == st.hash(k.attno, k.arg.value)
  }

  lemma {:induction false} ColumnBitsInRow(st: BloomState, row: Row, n: nat, attno: nat, b: int)
    requires ValidState(st) && |row| == st.nColumns && attno < n <= |row| && row[attno].Some?
    requires b in ValueBits(st, attno, row[attno].value)
    ensures b in RowBits(st, row, n)
  {
    if attno < n - 1 {
      ColumnBitsInRow(st, row, n - 1, attno, b);
    }
  }

  lemma {:induction false} KeyOfBit(st: BloomState, keys: seq<Key>, b: int) returns (k: Key)
    requires ValidState(st) && KeysOk(st, keys) && b in KeyBits(st, keys)
    ensures k in keys && b in ValueBits(st, k.attno, k.arg.value)
  {
    var front := keys[..|keys| - 1];
    if b in KeyBits(st, front) {
      k := KeyOfBit(st, front, b);
    } else {
      k := keys[|keys| - 1];
    }
  }

  ghost predicate AllIn(bits: seq<int>, all: seq<int>) {
    forall b :: b in bits ==> b in all
  }

  lemma BitListsSubsume(words: nat, rowBits: seq<int>, keyBits: seq<int>)
    requires InRange(rowBits, words) && InRange(keyBits, words)
    ensures Subsumes(SetBits(Empty(words), rowBits), SetBits(Empty(words), keyBits)) <==> AllIn(keyBits, rowBits)
  {
    hide HasBit, SetBits, Empty, Subsumes;
    var tuple, scan := SetBits(Empty(words), rowBits), SetBits(Empty(words), keyBits);
    SubsumesIffBits(tuple, scan);
    forall i | 0 <= i < words * SIGNWORDBITS
      ensures HasBit(scan, i) <==> i in keyBits
      ensures HasBit(tuple, i) <==> i in rowBits
    {
      EmptyHasNone(words, i);
      SetBitsHas(Empty(words), keyBits, i);
      SetBitsHas(Empty(words), rowBits, i);
    }
    forall b | b in keyBits
      ensures 0 <= b < words * SIGNWORDBITS && HasBit(scan, b)
    {
      var j :| 0 <= j < |keyBits| && keyBits[j] == b;
    }
  }

  /** The test passes exactly when the row carries every bit of the keys. */
  lemma SignatureTestExact(st: BloomState, row: Row, keys: seq<Key>)
    requires ValidState(st) && |row| == st.nColumns && KeysOk(st, keys)
    ensures Subsumes(RowSign(st, row), ScanSign(st, keys)) <==> AllIn(KeyBits(st, keys), RowBits(st, row, |row|))
  {
    hide Subsumes, Empty, ValueBits, InRange, AllIn;
    BitListsSubsume(st.words, RowBits(st, row, |row|), KeyBits(st, keys));
  }

  /** No false negatives: a row that matches the keys passes the signature test. */
  lemma MatchingRowPasses(st: BloomState, row: Row, keys: seq<Key>)
    requires ValidState(st) && |row| == st.nColumns && RowMatches(st, row, keys)
    ensures KeysOk(st, keys) && Subsumes(RowSign(st, row), ScanSign(st, keys))
  {
    forall b | b in KeyBits(st, keys)
      ensures b in RowBits(st, row, |row|)
    {
      var k := KeyOfBit(st, keys, b);
      ColumnBitsInRow(st, row, |row|, k.attno, b);
    }
    SignatureTestExact(st, row, keys);
  }

  // ---------------------------------------------------------------------------
  // The signing loops.

  function Or(a: Word, b: Word): Word {
    seq(16, i requires 0 <= i < 16 => a[i] || b[i])
  }

  /** One shifted left. A shift by a negative number may yield anything, called stray here. */
  function ShiftedOne(k: int, stray: Word): Word
    requires k < SIGNWORDBITS
  {
    if k < 0 then stray else seq(16, i => i == k)
  }

  lemma OrShiftedOne(w: Word, k: int, stray: Word)
    requires 0 <= k < SIGNWORDBITS
    ensures Or(w, ShiftedOne(k, stray)) == w[k := true]
  {
  }

  /** What SETBIT does for index minus one, whose word is the first. */
  function SetStray(sign: Signature, stray: Word): (r: Signature)
    requires sign != []
    ensures |r| == |sign|
  {
    sign[0 := Or(sign[0], stray)]
  }

  /** It sets the bits of the stray word, however often it is done. */
  lemma StrayIsSetBits(sign: Signature, stray: Word)
    requires sign != []
    ensures SetStray(sign, stray) == SetBits(sign, WordBits(stray, 16))
    ensures SetStray(SetStray(sign, stray), stray) == SetStray(sign, stray)
  {
    hide SetBits;
    var a, b := SetStray(sign, stray), SetBits(sign, WordBits(stray, 16));
    assert Or(Or(sign[0], stray), stray) == Or(sign[0], stray);
    forall w | 0 <= w < |sign|
      ensures a[w] == b[w]
    {
      forall j | 0 <= j < 16
        ensures a[w][j] == b[w][j]
      {
        var i := w * SIGNWORDBITS + j;
        assert i / SIGNWORDBITS == w && i % SIGNWORDBITS == j;
        SetBitsHas(sign, WordBits(stray, 16), i);
      }
    }
  }

  /** SETBIT for any index that the generator can give. */
  function SetAny(sign: Signature, i: int, stray: Word): (r: Signature)
    requires sign != [] && i < |sign| * SIGNWORDBITS
    ensures |r| == |sign|
  {
    if i < 0 then SetStray(sign, stray) else SetBit(sign, i)
  }

  predicate BelowEnd(bits: seq<int>, words: nat) {
    forall j :: 0 <= j < |bits| ==> bits[j] < words * SIGNWORDBITS
  }

  function SetAll(sign: Signature, bits: seq<int>, stray: Word): (r: Signature)
    requires sign != [] && BelowEnd(bits, |sign|)
    ensures |r| == |sign|
    decreases |bits|
  {
    if bits == [] then sign else SetAll(SetAny(sign, bits[0], stray), bits[1..], stray)
  }

  lemma {:induction false} SetAllInRange(sign: Signature, bits: seq<int>, stray: Word)
    requires sign != [] && InRange(bits, |sign|)
    ensures SetAll(sign, bits, stray) == SetBits(sign, bits)
    decreases |bits|
  {
    hide SetBit;
    if bits != [] {
      SetAllInRange(SetBit(sign, bits[0]), bits[1..], stray);
    }
  }

  /** State zero stays, and its index is minus one. */
  lemma ZeroStays(words: nat)
    requires words > 0
    ensures NextState(0) == 0 && BitIndex(0, words) == -1
  {
  }

  lemma {:induction false} FromBelowEnd(next: int, count: nat, words: nat)
    requires words > 0
    ensures BelowEnd(BitsFrom(next, count, words), words)
    decreases count
  {
    hide NextState;
    if count > 0 {
      FromBelowEnd(NextState(next), count - 1, words);
    }
  }

  lemma {:induction false} SetAllZero(sign: Signature, count: nat, stray: Word)
    requires sign != [] && count > 0
    ensures BelowEnd(BitsFrom(0, count, |sign|), |sign|)
    ensures SetAll(sign, BitsFrom(0, count, |sign|), stray) == SetStray(sign, stray)
    decreases count
  {
    hide NextState, BitIndex, SetBits, SetStray;
    FromBelowEnd(0, count, |sign|);
    ZeroStays(|sign|);
    StrayIsSetBits(sign, stray);
    var bits := BitsFrom(0, count, |sign|);
    assert bits[0] == -1 && bits[1..] == BitsFrom(0, count - 1, |sign|);
    if count > 1 {
      SetAllZero(SetStray(sign, stray), count - 1, stray);
    }
  }

  /** So what the loop sets are the bits of the value. */
  lemma LoopSetsValueBits(st: BloomState, sign: Signature, attno: nat, v: int)
    requires ValidState(st) && attno < st.nColumns && |sign| == st.words
    ensures var bits := BitsFrom(ValueState(attno, st.hash(attno, v)), st.bitSize[attno], st.words);
            BelowEnd(bits, |sign|) && SetAll(sign, bits, st.stray) == SetBits(sign, ValueBits(st, attno, v))
  {
    hide SetStray, SetBits, SetAll;
    var next := ValueState(attno, st.hash(attno, v));
    FromBelowEnd(next, st.bitSize[attno], st.words);
    if next == 0 {
      SetAllZero(sign, st.bitSize[attno], st.stray);
      StrayIsSetBits(sign, st.stray);
    } else {
      LiveValueBits(st, attno, v);
      SetAllInRange(sign, BitsFrom(next, st.bitSize[attno], st.words), st.stray);
    }
  }

  /** SETBIT: the word that holds the index, or-ed with a shifted one. */
  method SetBitAt(sign: array<Word>, nBit: int, stray: Word)
    requires sign.Length > 0 && -1 <= nBit < sign.Length * SIGNWORDBITS
    modifies sign
    ensures sign[..] == SetAny(old(sign[..]), nBit, stray)
  {
    var w, k := CDiv(nBit, SIGNWORDBITS), CMod(nBit, SIGNWORDBITS);
    if nBit >= 0 {
      OrShiftedOne(sign[w], k, stray);
    }
    sign[w] := Or(sign[w], ShiftedOne(k, stray));
  }

  lemma CModRange(a: int, m: nat)
    requires a >= -1 && m >= 2
    ensures -1 <= CMod(a, m) < m
  {
  }

  lemma BitIndexRange(next: int, words: nat)
    requires -0x8000_0000 <= next < 0x8000_0000 && words > 0
    ensures -1 <= BitIndex(next, words) < words * SIGNWORDBITS
  {
    DivModBounds(next);
    CModRange(NextState(next) - 1, words * SIGNWORDBITS);
  }

  /** signValue. The bits set depend on the column and the hash alone: the generator is seeded
      anew, whatever state earlier calls left it in. */
  method SignValue(g: Generator, st: BloomState, sign: array<Word>, v: int, attno: nat)
    requires ValidState(st) && attno < st.nColumns
    requires sign.Length == st.words
    modifies g, sign
    ensures sign[..] == SetBits(old(sign[..]), ValueBits(st, attno, v))
  {
    hide NextState, Seeded, Xor32, SetBits, SetAny, CMod;
    g.Srand(attno);
    var r := g.Rand();
    assert r as int == ColumnRand(attno);
    g.Srand(Xor32(st.hash(attno, v), r as int));
    ghost var target := SetBits(sign[..], ValueBits(st, attno, v));
    LoopSetsValueBits(st, sign[..], attno, v);
    var n := st.bitSize[attno];
    for j := 0 to n
      invariant BelowEnd(BitsFrom(g.next as int, n - j, st.words), st.words)
      invariant SetAll(sign[..], BitsFrom(g.next as int, n - j, st.words), st.stray) == target
    {
      ghost var bits := BitsFrom(g.next as int, n - j, st.words);
      BitIndexRange(g.next as int, st.words);
      r := g.Rand();
      var nBit := CMod(r as int, st.words * SIGNWORDBITS);
      assert bits[0] == nBit && bits[1..] == BitsFrom(g.next as int, n - (j + 1), st.words);
      SetBitAt(sign, nBit, st.stray);
    }
  }

  /** The signing loop of BloomFormTuple, which skips null columns. */
  method FormSignature(g: Generator, st: BloomState, row: Row) returns (sign: array<Word>)
    requires ValidState(st) && |row| == st.nColumns
    modifies g
    ensures fresh(sign) && sign[..] == RowSign(st, row)
  {
    hide ValueBits, SetBit, InRange;
    sign := new Word[st.words](_ => ZERO);
    assert sign[..] == Empty(st.words);
    for i := 0 to st.nColumns
      invariant sign[..] == SetBits(Empty(st.words), RowBits(st, row, i))
    {
      if row[i].Some? {
        SetBitsConcat(Empty(st.words), RowBits(st, row, i), ValueBits(st, i, row[i].value));
        SignValue(g, st, sign, row[i].value, i);
      }
    }
  }

  predicate HasNull(keys: seq<Key>) {
    exists k :: k in keys && k.arg.None?
  }

  /** The part of blgetbitmap that computes the scan signature; a null key ends the scan. */
  method FormScanSignature(g: Generator, st: BloomState, keys: seq<Key>) returns (sign: Option<Signature>)
    requires ValidState(st)
    requires forall k :: k in keys ==> k.attno < st.nColumns
    modifies g
    ensures sign.None? <==> HasNull(keys)
    ensures sign.Some? ==> KeysOk(st, keys) && sign.value == ScanSign(st, keys)
  {
    hide ValueBits, SetBit, InRange;
    var words := new Word[st.words](_ => ZERO);
    assert words[..] == Empty(st.words);
    for i := 0 to |keys|
      invariant KeysOk(st, keys[..i]) && words[..] == ScanSign(st, keys[..i])
    {
      assert keys[..i + 1][..i] == keys[..i];
      assert keys[i] in keys;
      if keys[i].arg.None? { return None; }
      SetBitsConcat(Empty(st.words), KeyBits(st, keys[..i]), ValueBits(st, keys[i].attno, keys[i].arg.value));
      SignValue(g, st, words, keys[i].arg.value, keys[i].attno);
    }
    assert keys[..|keys|] == keys;
    sign := Some(words[..]);
  }
}
