/**
  Which bits a value sets in a Bloom signature: in closed form, from the column, the hash and the
  length of the signature.
 */
module BloomBits {
  import opened Common
  import opened BloomSignature

  // ---------------------------------------------------------------------------
  // The seed.

  /** Bit k of a number, the least significant first. */
  predicate BitOf(x: nat, k: nat) {
    if k == 0 then x % 2 == 1 else BitOf(x / 2, k - 1)
  }

  lemma {:induction false} XorBit(a: nat, b: nat, n: nat, k: nat)
    requires k < n
    ensures BitOf(Xor(a, b, n), k) <==> BitOf(a, k) != BitOf(b, k)
  {
    var y, r := Xor(a / 2, b / 2, n - 1), (a % 2 + b % 2) % 2;
    LowBit(y, r);
    if k > 0 {
      XorBit(a / 2, b / 2, n - 1, k - 1);
    }
  }

  /** mySrand takes the remainder that has the sign of the seed read as a signed number. */
  lemma SeedMeaning(seed: uint32)
    ensures var signed := if seed < 0x8000_0000 then seed else seed - 0x1_0000_0000;
            var r := Seeded(seed) - 1;
            && (exists q :: signed == 0x7fff_fffe * q + r)
            && -0x7fff_fffe < r < 0x7fff_fffe
            && (signed >= 0 ==> r >= 0) && (signed <= 0 ==> r <= 0)
  {
    var signed := if seed < 0x8000_0000 then seed else seed - 0x1_0000_0000;
    var q := if signed >= 0 then signed / 0x7fff_fffe else -(-signed / 0x7fff_fffe);
    assert signed == 0x7fff_fffe * q + (Seeded(seed) - 1);
  }

  /** The value's generator is seeded with its hash, each bit flipped where the column's first draw
      has one. */
  lemma ValueSeed(attno: nat, hash: uint32) returns (seed: uint32)
    requires attno < 32
    ensures ValueState(attno, hash) == Seeded(seed)
    ensures forall k: nat :: k < 32 ==> (BitOf(seed, k) <==> BitOf(hash, k) != BitOf(16807 * (attno + 1) - 1, k))
  {
    hide Seeded;
    seed := Xor32(hash, ColumnRand(attno));
    forall k: nat | k < 32
      ensures BitOf(seed, k) <==> BitOf(hash, k) != BitOf(16807 * (attno + 1) - 1, k)
    {
      XorBit(hash, ColumnRand(attno), 32, k);
    }
  }

  // ---------------------------------------------------------------------------
  // The draws.

  function Power(b: int, n: nat): int {
    if n == 0 then 1 else b * Power(b, n - 1)
  }

  lemma MulMod(a: int, b: int)
    ensures a * (b % P) % P == a * b % P
  {
    var q, r := b / P, b % P;
    assert b == P * q + r;
    var m := a * r;
    var q', r' := m / P, m % P;
    assert m == P * q' + r';
    assert a * b == P * (a * q + q') + r' by {
      calc {
        a * b;
        a * (P * q + r);
        P * (a * q) + m;
        P * (a * q + q') + r';
      }
    }
    ModUnique(a * b, a * q + q', r');
  }

  lemma PowerStep(n: nat, s: int)
    ensures Power(16807, n) * (16807 * s % P) % P == Power(16807, n + 1) * s % P
  {
    var p := Power(16807, n);
    MulMod(p, 16807 * s);
    assert p * (16807 * s) == (16807 * p) * s;
  }

  /** From a live state the generator gives as many bits as asked for, and the j-th is the (j+1)-th
      number of Park and Miller's sequence less one, modulo the bits of the signature. */
  lemma {:induction false} BitsClosedForm(s: int, n: nat, words: nat, j: nat)
    requires Live(s) && words > 0 && j < n
    ensures |BitsFrom(s, n, words)| == n
    ensures BitsFrom(s, n, words)[j] == (Power(16807, j + 1) * s % 0x7fff_ffff - 1) % (16 * words)
    decreases n
  {
    hide NextState, Live;
    NextStateIsParkMiller(s);
    FirstBit(s, words);
    if j > 0 {
      BitsClosedForm(NextState(s), n - 1, words, j - 1);
      PowerStep(j, s);
    } else if n > 1 {
      BitsClosedForm(NextState(s), n - 1, words, 0);
    }
  }

  lemma FirstBit(s: int, words: nat)
    requires Live(s) && words > 0
    ensures BitIndex(s, words) == (Power(16807, 1) * s % 0x7fff_ffff - 1) % (16 * words)
  {
    NextStateIsParkMiller(s);
    hide NextState;
    assert Power(16807, 1) == 16807;
    assert words * SIGNWORDBITS == 16 * words;
  }

  /** So are the bits that signValue sets for a value whose generator is not seeded to zero. */
  lemma ValueBitsClosedForm(st: BloomState, attno: nat, v: int, j: nat)
    requires ValidState(st) && attno < st.nColumns && j < st.bitSize[attno]
    requires ValueState(attno, st.hash(attno, v)) != 0
    ensures |ValueBits(st, attno, v)| == st.bitSize[attno]
    ensures ValueBits(st, attno, v)[j] ==
            (Power(16807, j + 1) * ValueState(attno, st.hash(attno, v)) % 0x7fff_ffff - 1) % (16 * st.words)
  {
    hide Seeded, Xor32;
    var s := ValueState(attno, st.hash(attno, v));
    SeededRange(Xor32(st.hash(attno, v), ColumnRand(attno)));
    assert Live(s);
    BitsClosedForm(s, st.bitSize[attno], st.words, j);
  }

  // ---------------------------------------------------------------------------
  // Whole signatures.

  /** The column is not null and its value sets the bit. */
  predicate ColumnSets(st: BloomState, row: Row, i: nat, b: int)
    requires ValidState(st) && i < |row| == st.nColumns
  {
    row[i].Some? && b in ValueBits(st, i, row[i].value)
  }

  lemma {:induction false} RowBitsIff(st: BloomState, row: Row, n: nat, b: int)
    requires ValidState(st) && n <= |row| == st.nColumns
    ensures b in RowBits(st, row, n) <==> exists i: nat :: i < n && ColumnSets(st, row, i, b)
  {
    hide ValueBits, InRange, ValidState;
    if n > 0 {
      RowBitsIff(st, row, n - 1, b);
      assert b in RowBits(st, row, n) <==> b in RowBits(st, row, n - 1) || ColumnSets(st, row, n - 1, b);
    }
  }

  lemma {:induction false} KeyBitsIff(st: BloomState, keys: seq<Key>, b: int)
    requires ValidState(st) && KeysOk(st, keys)
    ensures b in KeyBits(st, keys) <==> exists k :: k in keys && b in ValueBits(st, k.attno, k.arg.value)
  {
    hide ValueBits, InRange, ValidState;
    if keys != [] {
      var front, last := keys[..|keys| - 1], keys[|keys| - 1];
      assert keys == front + [last];
      KeyBitsIff(st, front, b);
    }
  }

  /** A row's signature has exactly the bits of its non-null columns. */
  lemma RowSignature(st: BloomState, row: Row, b: int)
    requires ValidState(st) && |row| == st.nColumns && 0 <= b < st.words * SIGNWORDBITS
    ensures HasBit(RowSign(st, row), b) <==> exists i: nat :: i < |row| && ColumnSets(st, row, i, b)
  {
    hide ValueBits, HasBit, Empty, InRange, ColumnSets;
    SetBitsHas(Empty(st.words), RowBits(st, row, |row|), b);
    EmptyHasNone(st.words, b);
    RowBitsIff(st, row, |row|, b);
  }

  /** A scan's signature has exactly the bits of its keys. */
  lemma ScanSignature(st: BloomState, keys: seq<Key>, b: int)
    requires ValidState(st) && KeysOk(st, keys) && 0 <= b < st.words * SIGNWORDBITS
    ensures HasBit(ScanSign(st, keys), b) <==>
            exists k :: k in keys && b in ValueBits(st, k.attno, k.arg.value)
  {
    hide ValueBits, HasBit, Empty, InRange;
    SetBitsHas(Empty(st.words), KeyBits(st, keys), b);
    EmptyHasNone(st.words, b);
    KeyBitsIff(st, keys, b);
  }
}
