/** CRC-32C: the four-stride table computation equals the byte-at-a-time one, and that equals dividing the
  message bit by bit by the polynomial of section 12.1 of RFC 3720.

  Words are natural numbers below 2^32 and exclusive-or is written out bit by bit; nothing here shifts a
  bit out at the top.
 */
module Crc32c {
  import opened DbFormat
  import opened Coding
  import opened B = Bits

  /** The Castagnoli polynomial, bits reversed. */
  const POLYNOMIAL: nat := 0x82f63b78
  const ONES: nat := 0xffffffff

  // ---------------------------------------------------------------------------
  // Exclusive or
  // ---------------------------------------------------------------------------

  function XorBit(a: nat, b: nat): (r: nat)
    ensures r < 2
  {
    if a % 2 == b % 2 then 0 else 1
  }

  function Xor(a: nat, b: nat): nat
    decreases a
  {
    if a == 0 then b else XorBit(a, b) + 2 * Xor(a / 2, b / 2)
  }

  lemma Halves(bit: nat, x: nat)
    requires bit < 2
    ensures (bit + 2 * x) % 2 == bit && (bit + 2 * x) / 2 == x
  {
  }

  lemma XorLowBit(a: nat, b: nat)
    ensures Xor(a, b) % 2 == XorBit(a, b)
  {
    if a > 0 {
      Halves(XorBit(a, b), Xor(a / 2, b / 2));
    } else {
      assert XorBit(0, b) == b % 2;
    }
  }

  lemma XorParts(a: nat, b: nat)
    ensures Xor(a, b) % 2 == XorBit(a, b) && Xor(a, b) / 2 == Xor(a / 2, b / 2)
  {
    XorLowBit(a, b);
    if a > 0 {
      Halves(XorBit(a, b), Xor(a / 2, b / 2));
    }
  }

  /** A bit of the result is set if it is set in one of the two. */
  lemma {:induction false} XorBits(a: nat, b: nat, bit: nat)
    ensures BitOf(Xor(a, b), bit) <==> BitOf(a, bit) != BitOf(b, bit)
    decreases bit
  {
    XorParts(a, b);
    if bit > 0 {
      XorBits(a / 2, b / 2, bit - 1);
    }
  }

  lemma {:induction false} XorZero(a: nat)
    ensures Xor(a, 0) == a
  {
    if a > 0 {
      XorZero(a / 2);
    }
  }

  lemma {:induction false} XorComm(a: nat, b: nat)
    ensures Xor(a, b) == Xor(b, a)
    decreases a + b
  {
    if a == 0 || b == 0 {
      XorZero(a);
      XorZero(b);
    } else {
      XorComm(a / 2, b / 2);
    }
  }

  lemma SameParts(x: nat, y: nat)
    requires x % 2 == y % 2 && x / 2 == y / 2
    ensures x == y
  {
  }

  lemma {:induction false} XorAssoc(a: nat, b: nat, c: nat)
    ensures Xor(Xor(a, b), c) == Xor(a, Xor(b, c))
    decreases a + b + c
  {
    if a > 0 {
      var ab, bc := Xor(a, b), Xor(b, c);
      XorParts(a, b);
      XorParts(b, c);
      XorParts(ab, c);
      XorParts(a, bc);
      XorAssoc(a / 2, b / 2, c / 2);
      SameParts(Xor(ab, c), Xor(a, bc));
    }
  }

  lemma {:induction false} XorSelf(a: nat)
    ensures Xor(a, a) == 0
  {
    if a > 0 {
      XorSelf(a / 2);
    }
  }

  lemma XorTwice(a: nat, b: nat)
    ensures Xor(Xor(a, b), b) == a
  {
    XorAssoc(a, b, b);
    XorSelf(b);
    XorZero(a);
  }

  /** (a ^ b) ^ (c ^ d) with the middle two exchanged. */
  lemma XorSwap(a: nat, b: nat, c: nat, d: nat)
    ensures Xor(Xor(a, b), Xor(c, d)) == Xor(Xor(a, c), Xor(b, d))
  {
    XorAssoc(a, b, Xor(c, d));
    XorAssoc(b, c, d);
    XorComm(b, c);
    XorAssoc(c, b, d);
    XorAssoc(a, c, Xor(b, d));
  }

  /** Numbers with no bits in common add. */
  lemma {:induction false} XorDisjoint(n: nat, low: nat, high: nat)
    requires low < Power2(n)
    ensures Xor(low, Power2(n) * high) == low + Power2(n) * high
  {
    if low > 0 {
      var half := Power2(n - 1) * high;
      DoubleProduct(Power2(n - 1), high);
      XorDisjoint(n - 1, low / 2, high);
      Halves(0, half);
      assert Xor(low, 2 * half) == low % 2 + 2 * Xor(low / 2, half);
    }
  }

  lemma DoubleProduct(p: nat, x: nat)
    ensures 2 * p * x == 2 * (p * x)
  {
  }

  lemma {:induction false} XorBound(n: nat, a: nat, b: nat)
    requires a < Power2(n) && b < Power2(n)
    ensures Xor(a, b) < Power2(n)
  {
    if a > 0 {
      XorBound(n - 1, a / 2, b / 2);
    }
  }

  lemma Powers()
    ensures Power2(8) == 256 && Power2(16) == 65536 && Power2(24) == 0x100_0000 && Power2(32) == TWO32
  {
    assert Power2(4) == 16;
    assert Power2(12) == 4096;
    assert Power2(20) == 0x10_0000;
    assert Power2(28) == 0x1000_0000;
  }

  // ---------------------------------------------------------------------------
  // Bits
  // ---------------------------------------------------------------------------

  /** Shift one zero bit into the remainder. */
  function Bit(x: nat): nat {
    if x % 2 == 1 then Xor(x / 2, POLYNOMIAL) else x / 2
  }

  function Bits(n: nat, x: nat): nat {
    if n == 0 then x else Bits(n - 1, Bit(x))
  }

  lemma BitLinear(a: nat, b: nat)
    ensures Bit(Xor(a, b)) == Xor(Bit(a), Bit(b))
  {
    XorParts(a, b);
    OnceOrTwice(a / 2, b / 2, POLYNOMIAL);
  }

  /** Adding `c` to one summand adds it to the sum; adding it to both adds nothing. */
  lemma OnceOrTwice(p: nat, q: nat, c: nat)
    ensures Xor(Xor(p, c), q) == Xor(Xor(p, q), c) == Xor(p, Xor(q, c))
    ensures Xor(Xor(p, c), Xor(q, c)) == Xor(p, q)
  {
    XorAssoc(p, q, c);
    XorAssoc(p, c, q);
    XorComm(c, q);
    XorSwap(p, c, q, c);
    XorSelf(c);
    XorZero(Xor(p, q));
  }

  lemma {:induction false} BitsLinear(n: nat, a: nat, b: nat)
    ensures Bits(n, Xor(a, b)) == Xor(Bits(n, a), Bits(n, b))
  {
    if n > 0 {
      BitLinear(a, b);
      BitsLinear(n - 1, Bit(a), Bit(b));
    }
  }

  lemma {:induction false} BitsCompose(m: nat, n: nat, x: nat)
    ensures Bits(m, Bits(n, x)) == Bits(m + n, x)
  {
    if n > 0 {
      BitsCompose(m, n - 1, Bit(x));
    }
  }

  /** Zero bits at the bottom just shift out. */
  lemma {:induction false} BitsShift(n: nat, x: nat)
    ensures Bits(n, Power2(n) * x) == x
  {
    if n > 0 {
      DoubleProduct(Power2(n - 1), x);
      Halves(0, Power2(n - 1) * x);
      BitsShift(n - 1, x);
    }
  }

  /** Entry 128 of the byte table is the polynomial. */
  lemma TopBitEntry()
    ensures Bits(8, 128) == 0x82f63b78
  {
    assert Power2(5) == 32 && Power2(7) == 128;
    BitsShift(7, 1);
    BitsCompose(1, 7, 128);
    assert Bits(1, 1) == Xor(0, POLYNOMIAL);
  }

  lemma {:induction false} BitsBound(n: nat, x: nat)
    requires x < TWO32
    ensures Bits(n, x) < TWO32
  {
    if n > 0 {
      Powers();
      XorBound(32, x / 2, POLYNOMIAL);
      BitsBound(n - 1, Bit(x));
    }
  }

  // ---------------------------------------------------------------------------
  // Bytes
  // ---------------------------------------------------------------------------

  /** The five lookup tables. */
  datatype Tables = Tables(byte: nat -> nat, stride0: nat -> nat, stride1: nat -> nat, stride2: nat -> nat,
      stride3: nat -> nat)

  /** The byte table extends a remainder by one zero byte, the stride tables by sixteen, each for one of the
      remainder's four bytes. */
  ghost predicate TablesOk(t: Tables) {
    && (forall b: nat {:trigger t.byte(b)} :: b < 256 ==> t.byte(b) == Bits(8, b))
    && (forall b: nat {:trigger t.stride3(b)} :: b < 256 ==> t.stride3(b) == Bits(128, b))
    && (forall b: nat {:trigger t.stride2(b)} :: b < 256 ==> t.stride2(b) == Bits(128, 256 * b))
    && (forall b: nat {:trigger t.stride1(b)} :: b < 256 ==> t.stride1(b) == Bits(128, 65536 * b))
    && (forall b: nat {:trigger t.stride0(b)} :: b < 256 ==> t.stride0(b) == Bits(128, 0x100_0000 * b))
  }

  /** Dividing in one more byte, bit by bit. */
  function AddByte(l: nat, b: Byte): nat {
    Bits(8, Xor(l, b))
  }

  /** The remainder after the first `n` bytes. */
  function Fold(l: nat, data: Bytes, n: nat): nat
    requires n <= |data|
  {
    if n == 0 then l else AddByte(Fold(l, data, n - 1), data[n - 1])
  }

  /** The checksum: the remainder, inverted on the way in and out. */
  function Crc(init: nat, data: Bytes): nat {
    Xor(Fold(Xor(init, ONES), data, |data|), ONES)
  }

  function Value(data: Bytes): nat { Crc(0, data) }

  lemma {:induction false} FoldBound(l: nat, data: Bytes, n: nat)
    requires n <= |data| && l < TWO32
    ensures Fold(l, data, n) < TWO32
  {
    if n > 0 {
      FoldBound(l, data, n - 1);
      Powers();
      XorBound(32, Fold(l, data, n - 1), data[n - 1]);
      BitsBound(8, Xor(Fold(l, data, n - 1), data[n - 1]));
    }
  }

  lemma CrcBound(init: nat, data: Bytes)
    requires init < TWO32
    ensures Crc(init, data) < TWO32
  {
    Powers();
    XorBound(32, init, ONES);
    FoldBound(Xor(init, ONES), data, |data|);
    XorBound(32, Fold(Xor(init, ONES), data, |data|), ONES);
  }

  /** Eight steps on a word look its low byte up and shift the rest down. */
  lemma EightBits(x: nat)
    ensures Bits(8, x) == Xor(Bits(8, x % 256), x / 256)
  {
    EightBitsOf(x % 256, x / 256);
    assert x % 256 + 256 * (x / 256) == x;
  }

  lemma EightBitsOf(low: Byte, high: nat)
    ensures Bits(8, low + 256 * high) == Xor(Bits(8, low), high)
  {
    Powers();
    XorDisjoint(8, low, high);
    BitsLinear(8, low, 256 * high);
    BitsShift(8, high);
  }

  /** A byte changes only the low byte of a word. */
  lemma XorByte(l: nat, b: Byte)
    ensures Xor(l, b) % 256 == Xor(l % 256, b) && Xor(l, b) / 256 == l / 256 && Xor(l % 256, b) < 256
  {
    var low, high := l % 256, l / 256;
    Powers();
    XorBound(8, low, b);
    XorByteSplits(low, high, b);
    LowByte(Xor(low, b), high);
  }

  lemma XorByteSplits(low: Byte, high: nat, b: Byte)
    requires Power2(8) == 256 && Xor(low, b) < 256
    ensures Xor(low + 256 * high, b) == Xor(low, b) + 256 * high
  {
    XorDisjoint(8, low, high);
    XorAssoc(low, 256 * high, b);
    XorComm(256 * high, b);
    XorAssoc(low, b, 256 * high);
    XorDisjoint(8, Xor(low, b), high);
  }

  lemma ByteStep(t: Tables, l: nat, b: Byte)
    requires TablesOk(t)
    ensures Xor(l % 256, b) < 256 && Xor(t.byte(Xor(l % 256, b)), l / 256) == AddByte(l, b)
  {
    XorByte(l, b);
    EightBits(Xor(l, b));
  }

  // ---------------------------------------------------------------------------
  // Words
  // ---------------------------------------------------------------------------

  /** `low` below `rest`. */
  function Above(low: Byte, rest: nat): nat {
    low as int + 256 * rest
  }

  /** ReadUint32LE. */
  function Load(data: Bytes, p: nat): nat
    requires p + 4 <= |data|
  {
    Above(data[p], Above(data[p + 1], Above(data[p + 2], data[p + 3])))
  }

  /** Divide in the low byte of a word, leaving the rest of it. */
  lemma PeelByte(n: nat, l: nat, b: Byte, rest: nat)
    ensures Bits(8 + n, Xor(l, Above(b, rest))) == Bits(n, Xor(AddByte(l, b), rest))
  {
    Powers();
    XorDisjoint(8, b, rest);
    XorAssoc(l, b, 256 * rest);
    BitsCompose(n, 8, Xor(l, Above(b, rest)));
    BitsLinear(8, Xor(l, b), 256 * rest);
    BitsShift(8, rest);
  }

  lemma FoldByte(l: nat, data: Bytes, p: nat, n: nat, rest: nat)
    requires p < |data|
    ensures Bits(8 + n, Xor(Fold(l, data, p), Above(data[p], rest))) == Bits(n, Xor(Fold(l, data, p + 1), rest))
  {
    PeelByte(n, Fold(l, data, p), data[p], rest);
  }

  /** Four byte steps are one word step. */
  lemma FoldWord(l: nat, data: Bytes, p: nat)
    requires p + 4 <= |data|
    ensures Fold(l, data, p + 4) == Bits(32, Xor(Fold(l, data, p), Load(data, p)))
  {
    var x3 := data[p + 3];
    var x2 := Above(data[p + 2], x3);
    var x1 := Above(data[p + 1], x2);
    FoldByte(l, data, p, 24, x1);
    FoldByte(l, data, p + 1, 16, x2);
    FoldByte(l, data, p + 2, 8, x3);
    FoldByte(l, data, p + 3, 0, 0);
    XorZero(Fold(l, data, p + 4));
  }

  // ---------------------------------------------------------------------------
  // Strides
  // ---------------------------------------------------------------------------

  /** What the four partial results stand for: dividing them in one after another. */
  function Combine(c0: nat, c1: nat, c2: nat, c3: nat): nat {
    Bits(32, Xor(c3, Bits(32, Xor(c2, Bits(32, Xor(c1, Bits(32, c0)))))))
  }

  lemma CombineSpreads(c0: nat, c1: nat, c2: nat, c3: nat)
    ensures Combine(c0, c1, c2, c3) == Xor(Bits(32, c3), Xor(Bits(64, c2), Xor(Bits(96, c1), Bits(128, c0))))
  {
    var r0 := Bits(32, c0);
    var r1 := Bits(32, Xor(c1, r0));
    var r2 := Bits(32, Xor(c2, r1));
    BitsLinear(32, c1, r0);
    BitsCompose(32, 32, c0);
    assert r1 == Xor(Bits(32, c1), Bits(64, c0));
    BitsLinear(32, c2, r1);
    BitsLinear(32, Bits(32, c1), Bits(64, c0));
    BitsCompose(32, 32, c1);
    BitsCompose(32, 64, c0);
    assert r2 == Xor(Bits(32, c2), Xor(Bits(64, c1), Bits(96, c0)));
    BitsLinear(32, c3, r2);
    BitsLinear(32, Bits(32, c2), Xor(Bits(64, c1), Bits(96, c0)));
    BitsLinear(32, Bits(64, c1), Bits(96, c0));
    BitsCompose(32, 32, c2);
    BitsCompose(32, 64, c1);
    BitsCompose(32, 96, c0);
  }

  /** STEP4's four lookups: the remainder extended by sixteen zero bytes. */
  function Stride(t: Tables, c: nat): nat {
    Xor(Xor(Xor(t.stride3(c % 256), t.stride2(c / 256 % 256)), t.stride1(c / 65536 % 256)), t.stride0(c / 0x100_0000))
  }

  lemma FourParts(c: nat)
    ensures c == Xor(Xor(Xor(c % 256, 256 * (c / 256 % 256)), 65536 * (c / 65536 % 256)), 0x100_0000 * (c / 0x100_0000))
  {
    SplitFour(c);
    JoinFour(c % 256, c / 256 % 256, c / 65536 % 256, c / 0x100_0000);
  }

  lemma JoinFour(b0: nat, b1: nat, b2: nat, b3: nat)
    requires b0 < 256 && b1 < 256 && b2 < 256
    ensures Xor(Xor(Xor(b0, 256 * b1), 65536 * b2), 0x100_0000 * b3) == b0 + 256 * b1 + 65536 * b2 + 0x100_0000 * b3
  {
    Powers();
    XorDisjoint(8, b0, b1);
    XorDisjoint(16, b0 + 256 * b1, b2);
    XorDisjoint(24, b0 + 256 * b1 + 65536 * b2, b3);
  }

  lemma SplitFour(c: nat)
    ensures c == c % 256 + 256 * (c / 256 % 256) + 65536 * (c / 65536 % 256) + 0x100_0000 * (c / 0x100_0000)
  {
    assert c / 256 / 256 == c / 65536;
    assert c / 65536 / 256 == c / 0x100_0000;
  }

  /** The lookups are of the remainder's four bytes, each in its place. */
  lemma StrideParts(t: Tables, c: nat)
    requires TablesOk(t) && c < TWO32
    ensures Stride(t, c) == Xor(Xor(Xor(Bits(128, c % 256), Bits(128, Lane(256, c / 256 % 256))),
        Bits(128, Lane(65536, c / 65536 % 256))),
                                Bits(128, Lane(0x100_0000, c / 0x100_0000)))
  {
    assert c / 0x100_0000 < 256;
  }

  function Lane(scale: nat, digit: nat): nat { scale * digit }

  lemma StrideIsZeros(t: Tables, c: nat)
    requires TablesOk(t) && c < TWO32
    ensures Stride(t, c) == Bits(128, c)
  {
    StrideParts(t, c);
    FourParts(c);
    BitsOfFour(c % 256, 256 * (c / 256 % 256), 65536 * (c / 65536 % 256), 0x100_0000 * (c / 0x100_0000));
  }

  lemma BitsOfFour(b0: nat, b1: nat, b2: nat, b3: nat)
    ensures Bits(128, Xor(Xor(Xor(b0, b1), b2), b3))
        == Xor(Xor(Xor(Bits(128, b0), Bits(128, b1)), Bits(128, b2)), Bits(128, b3))
  {
    BitsLinear(128, Xor(Xor(b0, b1), b2), b3);
    BitsLinear(128, Xor(b0, b1), b2);
    BitsLinear(128, b0, b1);
  }

  lemma SpreadCombined(s3: nat, s2: nat, s1: nat, s0: nat, w: nat)
    ensures Bits(32, Xor(Xor(s3, Xor(s2, Xor(s1, s0))), w))
         == Xor(Xor(Bits(32, s3), Xor(Bits(32, s2), Xor(Bits(32, s1), Bits(32, s0)))), Bits(32, w))
  {
    BitsLinear(32, Xor(s3, Xor(s2, Xor(s1, s0))), w);
    BitsLinear(32, s3, Xor(s2, Xor(s1, s0)));
    BitsLinear(32, s2, Xor(s1, s0));
    BitsLinear(32, s1, s0);
  }

  lemma Rotated(a: nat, b: nat, c: nat, d: nat, e: nat)
    ensures Xor(Xor(a, b), Xor(c, Xor(d, e))) == Xor(Xor(c, Xor(d, Xor(e, b))), a)
  {
    var cde := Xor(c, Xor(d, e));
    XorAssoc(a, b, cde);
    XorComm(a, Xor(b, cde));
    XorComm(b, cde);
    XorAssoc(c, Xor(d, e), b);
    XorAssoc(d, e, b);
  }

  /** A remainder moved past a word: the word step on the combination, done on one stride. */
  lemma OneStride(c0: nat, c1: nat, c2: nat, c3: nat, w: nat)
    ensures Combine(c1, c2, c3, Xor(w, Bits(128, c0))) == Bits(32, Xor(Combine(c0, c1, c2, c3), w))
  {
    CombineSpreads(c0, c1, c2, c3);
    CombineSpreads(c1, c2, c3, Xor(w, Bits(128, c0)));
    SpreadCombined(Bits(32, c3), Bits(64, c2), Bits(96, c1), Bits(128, c0), w);
    BitsCompose(32, 32, c3);
    BitsCompose(32, 64, c2);
    BitsCompose(32, 96, c1);
    BitsLinear(32, w, Bits(128, c0));
    Rotated(Bits(32, w), Bits(32, Bits(128, c0)), Bits(64, c3), Bits(96, c2), Bits(128, c1));
  }

  datatype Strides = Strides(c0: nat, c1: nat, c2: nat, c3: nat)

  ghost predicate Stands(s: Strides, l: nat, data: Bytes, p: nat) {
    && p <= |data| && Combine(s.c0, s.c1, s.c2, s.c3) == Fold(l, data, p)
    && s.c0 < TWO32 && s.c1 < TWO32 && s.c2 < TWO32 && s.c3 < TWO32
  }

  /** STEP4 on the stride whose turn it is. */
  function NextStride(t: Tables, s: Strides, w: nat): Strides {
    Strides(s.c1, s.c2, s.c3, Xor(w, Stride(t, s.c0)))
  }

  lemma StrideWord(t: Tables, l: nat, data: Bytes, p: nat, s: Strides)
    requires TablesOk(t) && p + 4 <= |data| && Stands(s, l, data, p)
    ensures Stands(NextStride(t, s, Load(data, p)), l, data, p + 4)
  {
    StrideIsZeros(t, s.c0);
    OneStride(s.c0, s.c1, s.c2, s.c3, Load(data, p));
    FoldWord(l, data, p);
    Powers();
    BitsBound(128, s.c0);
    XorBound(32, Load(data, p), Bits(128, s.c0));
  }

  /** The first swath loads four words. */
  lemma FirstSwath(l: nat, data: Bytes, p: nat)
    requires p + 16 <= |data| && l < TWO32
    ensures Stands(Strides(Xor(Load(data, p), Fold(l, data, p)), Load(data, p + 4), Load(data, p + 8),
        Load(data, p + 12)), l, data, p + 16)
  {
    FoldWord(l, data, p);
    FoldWord(l, data, p + 4);
    FoldWord(l, data, p + 8);
    FoldWord(l, data, p + 12);
    XorComm(Load(data, p), Fold(l, data, p));
    XorComm(Load(data, p + 4), Fold(l, data, p + 4));
    XorComm(Load(data, p + 8), Fold(l, data, p + 8));
    XorComm(Load(data, p + 12), Fold(l, data, p + 12));
    Powers();
    FoldBound(l, data, p);
    XorBound(32, Load(data, p), Fold(l, data, p));
  }

  // ---------------------------------------------------------------------------
  // The computation
  // ---------------------------------------------------------------------------

  /** STEP4W: divide in one word already loaded. */
  method AddWord(t: Tables, w0: nat, l: nat) returns (w: nat)
    requires TablesOk(t)
    ensures w == Bits(32, Xor(w0, l))
  {
    w := Xor(w0, l);
    var i := 0;
    while i < 4
      invariant 0 <= i <= 4 && w == Bits(8 * i, Xor(w0, l))
    {
      BitsCompose(8, 8 * i, Xor(w0, l));
      EightBits(w);
      XorComm(t.byte(w % 256), w / 256);
      w := Xor(w / 256, t.byte(w % 256));
      i := i + 1;
    }
  }

  method AddBytes(t: Tables, l0: nat, ghost init: nat, data: Bytes, from: nat, to: nat) returns (l: nat)
    requires TablesOk(t) && from <= to <= |data| && l0 == Fold(init, data, from)
    ensures l == Fold(init, data, to)
  {
    l := l0;
    var p: nat := from;
    while p != to
      invariant from <= p <= to && l == Fold(init, data, p)
      decreases if p <= to then to - p else 0
    {
      ByteStep(t, l, data[p]);
      l := Xor(t.byte(Xor(l % 256, data[p])), l / 256);
      p := p + 1;
    }
  }

  /** STEP16 as long as sixteen bytes remain: every stride in turn takes a word. */
  method SwathLoop(t: Tables, s0: Strides, ghost init: nat, data: Bytes, from: nat) returns (s: Strides, p: nat)
    requires TablesOk(t) && Stands(s0, init, data, from)
    ensures from <= p && Stands(s, init, data, p)
  {
    s, p := s0, from;
    while |data| - p >= 16
      invariant from <= p && Stands(s, init, data, p)
    {
      FourStrides(t, init, data, p, s);
      s := Strides(Xor(Load(data, p), Stride(t, s.c0)), Xor(Load(data, p + 4), Stride(t, s.c1)),
                   Xor(Load(data, p + 8), Stride(t, s.c2)), Xor(Load(data, p + 12), Stride(t, s.c3)));
      p := p + 16;
    }
  }

  lemma FourStrides(t: Tables, l: nat, data: Bytes, p: nat, s: Strides)
    requires TablesOk(t) && p + 16 <= |data| && Stands(s, l, data, p)
    ensures Stands(Strides(Xor(Load(data, p), Stride(t, s.c0)), Xor(Load(data, p + 4), Stride(t, s.c1)),
                           Xor(Load(data, p + 8), Stride(t, s.c2)), Xor(Load(data, p + 12), Stride(t, s.c3))), l, data,
                               p + 16)
  {
    StrideWord(t, l, data, p, s);
    var s1 := NextStride(t, s, Load(data, p));
    StrideWord(t, l, data, p + 4, s1);
    var s2 := NextStride(t, s1, Load(data, p + 4));
    StrideWord(t, l, data, p + 8, s2);
    var s3 := NextStride(t, s2, Load(data, p + 8));
    StrideWord(t, l, data, p + 12, s3);
  }

  /** One word at a time, the strides taking turns. */
  method WordLoop(t: Tables, s0: Strides, ghost init: nat, data: Bytes, from: nat) returns (s: Strides, p: nat)
    requires TablesOk(t) && Stands(s0, init, data, from)
    ensures from <= p && Stands(s, init, data, p)
  {
    s, p := s0, from;
    while |data| - p >= 4
      invariant from <= p && Stands(s, init, data, p)
    {
      StrideWord(t, init, data, p, s);
      s := Strides(Xor(Load(data, p), Stride(t, s.c0)), s.c1, s.c2, s.c3);
      s := Strides(s.c1, s.c2, s.c3, s.c0);
      p := p + 4;
    }
  }

  method AddSwaths(t: Tables, l0: nat, ghost init: nat, data: Bytes, from: nat) returns (l: nat, p: nat)
    requires TablesOk(t) && from + 16 <= |data| && init < TWO32 && l0 == Fold(init, data, from)
    ensures from <= p <= |data| && l == Fold(init, data, p)
  {
    var s := Strides(Xor(Load(data, from), l0), Load(data, from + 4), Load(data, from + 8), Load(data, from + 12));
    FirstSwath(init, data, from);
    s, p := SwathLoop(t, s, init, data, from + 16);
    s, p := WordLoop(t, s, init, data, p);
    l := AddStrides(t, s);
  }

  method AddStrides(t: Tables, s: Strides) returns (l: nat)
    requires TablesOk(t)
    ensures l == Combine(s.c0, s.c1, s.c2, s.c3)
  {
    XorZero(s.c0);
    l := AddWord(t, s.c0, 0);
    l := AddWord(t, s.c1, l);
    l := AddWord(t, s.c2, l);
    l := AddWord(t, s.c3, l);
  }

  /** For any buffer, at any alignment (its address is `address` modulo 4), the result is the checksum. */
  method Extend(t: Tables, crc: nat, data: Bytes, address: nat) returns (r: nat)
    requires TablesOk(t) && crc < TWO32
    ensures r == Crc(crc, data) && r < TWO32
  {
    var l := Xor(crc, ONES);
    ghost var init := l;
    Powers();
    XorBound(32, crc, ONES);
    CrcBound(crc, data);
    var p := 0;
    var aligned := (address + 3) / 4 * 4 - address;
    if aligned <= |data| {
      l := AddBytes(t, l, init, data, p, aligned);
      p := aligned;
    }
    if |data| - p >= 16 {
      l, p := AddSwaths(t, l, init, data, p);
    }
    l := AddBytes(t, l, init, data, p, |data|);
    r := Xor(l, ONES);
  }

  // ---------------------------------------------------------------------------
  // Composition and masking
  // ---------------------------------------------------------------------------

  lemma {:induction false} FoldPrefix(l: nat, a: Bytes, b: Bytes, n: nat)
    requires n <= |a|
    ensures Fold(l, a + b, n) == Fold(l, a, n)
  {
    if n > 0 {
      FoldPrefix(l, a, b, n - 1);
    }
  }

  lemma {:induction false} FoldConcat(l: nat, a: Bytes, b: Bytes, n: nat)
    requires n <= |b|
    ensures Fold(l, a + b, |a| + n) == Fold(Fold(l, a, |a|), b, n)
  {
    if n > 0 {
      FoldConcat(l, a, b, n - 1);
    } else {
      FoldPrefix(l, a, b, |a|);
    }
  }

  /** The checksum of a string can be extended piece by piece. */
  lemma CrcComposes(init: nat, a: Bytes, b: Bytes)
    ensures Crc(Crc(init, a), b) == Crc(init, a + b)
  {
    FoldConcat(Xor(init, ONES), a, b, |b|);
    XorTwice(Fold(Xor(init, ONES), a, |a|), ONES);
  }

  const MASK_DELTA := 0xa282ead8

  /** Rotate right by 15 bits and add a constant. */
  function Mask(crc: nat): (r: nat)
    ensures r < TWO32
  {
    (crc / 0x8000 + crc % 0x8000 * 0x2_0000 + MASK_DELTA) % TWO32
  }

  function Unmask(masked: nat): (r: nat)
    ensures r < TWO32
  {
    var rot := (masked + TWO32 - MASK_DELTA) % TWO32;
    rot / 0x2_0000 + rot % 0x2_0000 * 0x8000
  }

  /** Mask is ((crc >> 15) | (crc << 17)) + 0xa282ead8 in 32 bits. */
  lemma MaskRotates(crc: nat)
    requires crc < TWO32
    ensures Mask(crc) == (Or(ShiftRight(crc, 15), crc * 0x2_0000 % TWO32) + 0xa282ead8) % TWO32
  {
    assert Power2(5) == 32 && Power2(10) == 1024 && Power2(15) == 0x8000 && Power2(17) == 0x2_0000;
    ShiftDivides(crc, 15);
    OrOfDisjoint(crc / 0x8000, crc % 0x8000, 17);
    HighPartLost(crc / 0x8000, crc % 0x8000);
  }

  lemma HighPartLost(high: nat, low: nat)
    requires low < 0x8000
    ensures (high * 0x8000 + low) * 0x2_0000 % TWO32 == low * 0x2_0000
  {
    assert (high * 0x8000 + low) * 0x2_0000 == high * TWO32 + low * 0x2_0000;
  }

  lemma Exchange(high: nat, low: nat)
    requires high < 0x2_0000 && low < 0x8000
    ensures (high + low * 0x2_0000) / 0x2_0000 == low && (high + low * 0x2_0000) % 0x2_0000 == high
    ensures (low + high * 0x8000) / 0x8000 == high && (low + high * 0x8000) % 0x8000 == low
  {
  }

  lemma UnmaskMask(crc: nat)
    requires crc < TWO32
    ensures Unmask(Mask(crc)) == crc
  {
    Exchange(crc / 0x8000, crc % 0x8000);
    var rot := crc / 0x8000 + crc % 0x8000 * 0x2_0000;
    assert ((rot + MASK_DELTA) % TWO32 + TWO32 - MASK_DELTA) % TWO32 == rot;
  }

  lemma MaskUnmask(masked: nat)
    requires masked < TWO32
    ensures Mask(Unmask(masked)) == masked
  {
    var rot := (masked + TWO32 - MASK_DELTA) % TWO32;
    Exchange(rot % 0x2_0000, rot / 0x2_0000);
    assert (rot + MASK_DELTA) % TWO32 == masked;
  }
}
