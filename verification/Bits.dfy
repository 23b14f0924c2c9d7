/** Single bits of a machine word. */
module Bits {
  function BitOf(word: nat, bit: nat): bool {
    if bit == 0 then word % 2 == 1 else BitOf(word / 2, bit - 1)
  }

  /** word | (1 << bit) */
  function WithBit(word: nat, bit: nat): nat {
    if bit == 0 then word / 2 * 2 + 1 else word % 2 + 2 * WithBit(word / 2, bit - 1)
  }

  lemma {:induction false} WithBitSetsOne(word: nat, bit: nat, other: nat)
    ensures BitOf(WithBit(word, bit), other) <==> other == bit || BitOf(word, other)
  {
    if bit > 0 && other > 0 {
      WithBitSetsOne(word / 2, bit - 1, other - 1);
    }
    assert WithBit(word, bit) / 2 == if bit == 0 then word / 2 else WithBit(word / 2, bit - 1);
  }

  lemma {:induction false} WithBitFits(word: nat, bit: nat, n: nat)
    requires bit < n && word < Power2(n)
    ensures WithBit(word, bit) < Power2(n)
  {
    if bit > 0 {
      WithBitFits(word / 2, bit - 1, n - 1);
    }
  }

  function Power2(n: nat): (r: nat)
    ensures r > 0
  {
    if n == 0 then 1 else 2 * Power2(n - 1)
  }

  /** Words of `n` bits that agree on every bit are equal. */
  lemma {:induction false} BitsDecideWord(x: nat, y: nat, n: nat)
    requires x < Power2(n) && y < Power2(n)
    requires forall b: nat :: b < n ==> (BitOf(x, b) <==> BitOf(y, b))
    ensures x == y
  {
    if n > 0 {
      assert BitOf(x, 0) <==> BitOf(y, 0);
      forall b: nat | b < n - 1 ensures BitOf(x / 2, b) <==> BitOf(y / 2, b) {
        assert BitOf(x, b + 1) == BitOf(x / 2, b);
        assert BitOf(y, b + 1) == BitOf(y / 2, b);
      }
      BitsDecideWord(x / 2, y / 2, n - 1);
    }
  }

  function ShiftRight(n: nat, bits: nat): nat
    decreases bits
  {
    if bits == 0 then n else ShiftRight(n / 2, bits - 1)
  }

  lemma {:induction false} ShiftDivides(n: nat, bits: nat)
    ensures ShiftRight(n, bits) == n / Power2(bits)
    decreases bits
  {
    if bits > 0 {
      ShiftDivides(n / 2, bits - 1);
      HalfThenDivide(n, Power2(bits - 1));
    }
  }

  lemma HalfThenDivide(n: nat, p: nat)
    requires p > 0
    ensures n / 2 / p == n / (2 * p)
  {
    var q := n / 2 / p;
    assert n / 2 == p * q + n / 2 % p;
    assert n == 2 * p * q + (2 * (n / 2 % p) + n % 2);
    assert n / (2 * p) == q by {
      DivideIs(n, 2 * p, q, 2 * (n / 2 % p) + n % 2);
    }
  }

  lemma DivideIs(n: nat, d: nat, q: nat, r: nat)
    requires r < d && n == d * q + r
    ensures n / d == q
  {
    var more: int := q - n / d;
    assert d * q == d * (n / d) + d * more;
    assert more >= 1 ==> d * more >= d;
    assert more <= -1 ==> d * more + d <= 0;
  }

  /** The low `n` bits set and no other. */
  function Ones(n: nat): nat {
    Power2(n) - 1
  }

  lemma {:induction false} OnesBits(n: nat, bit: nat)
    ensures BitOf(Ones(n), bit) <==> bit < n
  {
    if n == 0 {
      NoBitOfZero(bit);
    } else if bit > 0 {
      OnesBits(n - 1, bit - 1);
      assert Ones(n) / 2 == Ones(n - 1);
    }
  }

  lemma NoBitOfZero(bit: nat)
    ensures !BitOf(0, bit)
  {
  }

  lemma {:induction false} PowerGrows(m: nat, n: nat)
    requires m <= n
    ensures Power2(m) <= Power2(n)
  {
    if m > 0 {
      PowerGrows(m - 1, n - 1);
    }
  }

  /** Of the first `width` bits exactly the first `n` are set. */
  ghost predicate LowBitsOnly(word: nat, n: nat, width: nat) {
    forall b: nat :: b < width ==> (BitOf(word, b) <==> b < n)
  }

  /** A word is the low ones exactly if those are its bits. */
  lemma IsOnes(word: nat, n: nat, width: nat)
    requires word < Power2(width) && n <= width
    ensures word == Ones(n) <==> LowBitsOnly(word, n, width)
  {
    forall b: nat | b < width ensures BitOf(Ones(n), b) <==> b < n {
      OnesBits(n, b);
    }
    PowerGrows(n, width);
    if LowBitsOnly(word, n, width) {
      BitsDecideWord(word, Ones(n), width);
    }
  }

  lemma {:induction false} ShiftOnes(n: nat, bits: nat)
    requires bits <= n
    ensures ShiftRight(Ones(n), bits) == Ones(n - bits)
    decreases bits
  {
    if bits > 0 {
      assert Ones(n) / 2 == Ones(n - 1);
      ShiftOnes(n - 1, bits - 1);
    }
  }

  /** a & b */
  function And(a: nat, b: nat): nat
    decreases a
  {
    if a == 0 then 0 else (if a % 2 == 1 && b % 2 == 1 then 1 else 0) + 2 * And(a / 2, b / 2)
  }

  /** a | b */
  function Or(a: nat, b: nat): nat
    decreases a
  {
    if a == 0 then b else (if a % 2 == 1 || b % 2 == 1 then 1 else 0) + 2 * Or(a / 2, b / 2)
  }

  /** A mask of low ones takes the remainder. */
  lemma {:induction false} AndOnes(a: nat, n: nat)
    ensures And(a, Ones(n)) == a % Power2(n)
    decreases a
  {
    if n == 0 {
      AndZero(a);
    } else if a > 0 {
      AndOnes(a / 2, n - 1);
      AndLowOnes(a, n);
      HalfRemainder(a, Power2(n - 1));
      assert Power2(n) == 2 * Power2(n - 1);
    } else {
      assert 0 % Power2(n) == 0;
    }
  }

  lemma {:induction false} AndZero(a: nat)
    ensures And(a, 0) == 0
    decreases a
  {
    if a > 0 {
      AndZero(a / 2);
    }
  }

  lemma AndLowOnes(a: nat, n: nat)
    requires a > 0 && n > 0
    ensures And(a, Ones(n)) == a % 2 + 2 * And(a / 2, Ones(n - 1))
  {
    assert Ones(n) == 1 + 2 * Ones(n - 1);
  }

  lemma HalfRemainder(a: nat, p: nat)
    requires p > 0
    ensures a % (2 * p) == a % 2 + 2 * (a / 2 % p)
  {
    HalfThenDivide(a, p);
    var q := a / (2 * p);
    assert a / 2 == p * q + a / 2 % p;
    assert a == 2 * p * q + a % (2 * p);
    assert 2 * (p * q) == 2 * p * q;
  }

  /** Bits that do not overlap are joined by adding them. */
  lemma {:induction false} OrOfDisjoint(a: nat, b: nat, n: nat)
    requires a < Power2(n)
    ensures Or(a, b * Power2(n)) == a + b * Power2(n)
  {
    if a > 0 {
      var rest := b * Power2(n - 1);
      assert b * Power2(n) == 2 * rest;
      OrOfDisjoint(a / 2, b, n - 1);
    }
  }

  lemma {:induction false} AndAtMost(a: nat, b: nat)
    ensures And(a, b) <= b
    decreases a
  {
    if a > 0 {
      AndAtMost(a / 2, b / 2);
    }
  }
}
