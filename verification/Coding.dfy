/** Fixed and variable-length integers, and length-prefixed strings. */
module Coding {
  import opened DbFormat
  import opened B = Bits

  const TWO32 := 0x1_0000_0000
  const TWO64 := 0x1_0000_0000_0000_0000

  lemma Regroup(a: Bytes, b: Bytes, c: Bytes)
    ensures (a + b) + c == a + (b + c)
  {
  }

  lemma SplitBack(a: Bytes, b: Bytes)
    ensures (a + b)[..|a|] == a && (a + b)[|a|..] == b
  {
  }

  function Zeros(n: nat): (r: Bytes)
    ensures |r| == n
  {
    seq(n, _ => 0)
  }

  // ---------------------------------------------------------------------------
  // Fixed-length integers, least significant byte first
  // ---------------------------------------------------------------------------

  function Fixed(v: nat, n: nat): (r: Bytes)
    ensures |r| == n
  {
    if n == 0 then [] else [v % 256] + Fixed(v / 256, n - 1)
  }

  function UnFixed(b: Bytes): nat {
    if b == [] then 0 else b[0] + 256 * UnFixed(b[1..])
  }

  function Power256(n: nat): (r: nat)
    ensures r > 0
  {
    if n == 0 then 1 else 256 * Power256(n - 1)
  }

  lemma Powers()
    ensures Power256(4) == TWO32 && Power256(8) == TWO64
  {
    assert Power256(2) == 65536;
    assert Power256(4) == 65536 * 65536;
    assert Power256(6) == 65536 * 65536 * 65536;
  }

  lemma {:induction false} FixedRoundTrip(v: nat, n: nat)
    requires v < Power256(n)
    ensures UnFixed(Fixed(v, n)) == v
  {
    if n > 0 {
      FixedRoundTrip(v / 256, n - 1);
      assert Fixed(v, n)[1..] == Fixed(v / 256, n - 1);
    }
  }

  lemma LowByte(low: Byte, high: nat)
    ensures (low + 256 * high) % 256 == low && (low + 256 * high) / 256 == high
  {
  }

  lemma {:induction false} UnFixedRoundTrip(b: Bytes)
    ensures UnFixed(b) < Power256(|b|) && Fixed(UnFixed(b), |b|) == b
  {
    if b != [] {
      UnFixedRoundTrip(b[1..]);
      LowByte(b[0], UnFixed(b[1..]));
      assert Fixed(UnFixed(b), |b|) == [b[0]] + Fixed(UnFixed(b[1..]), |b| - 1);
      assert b == [b[0]] + b[1..];
    }
  }

  function EncodeFixed32(v: nat): Bytes { Fixed(v, 4) }

  function EncodeFixed64(v: nat): Bytes { Fixed(v, 8) }

  function DecodeFixed32(b: Bytes): nat
    requires |b| >= 4
  {
    UnFixed(b[..4])
  }

  function DecodeFixed64(b: Bytes): nat
    requires |b| >= 8
  {
    UnFixed(b[..8])
  }

  /** Byte `i` is the digit of 256 to the power `i`. */
  lemma {:induction false} FixedDigits(v: nat, n: nat, i: nat)
    requires i < n
    ensures Fixed(v, n)[i] == v / Power256(i) % 256
  {
    if i > 0 {
      FixedDigits(v / 256, n - 1, i - 1);
      DivideTwice(v, Power256(i - 1));
    }
  }

  lemma DivideTwice(n: nat, q: nat)
    requires q > 0
    ensures n / 256 / q == n / (256 * q)
  {
    var k := n / 256 / q;
    assert n / 256 == q * k + n / 256 % q;
    assert n == 256 * q * k + (256 * (n / 256 % q) + n % 256);
    DivideIs(n, 256 * q, k, 256 * (n / 256 % q) + n % 256);
  }

  lemma DecodedFixed(b: Bytes)
    ensures |b| >= 4 ==>
              DecodeFixed32(b) == b[0] as int + 0x100 * b[1] as int + 0x1_0000 * b[2] as int + 0x100_0000 * b[3] as int
    ensures |b| >= 8 ==> DecodeFixed64(b) == DecodeFixed32(b) + TWO32 * DecodeFixed32(b[4..])
  {
    if |b| >= 4 {
      FourDigits(b[..4]);
    }
    if |b| >= 8 {
      EightDigits(b[..8]);
      assert b[..8][..4] == b[..4] && b[..8][4..] == b[4..][..4];
    }
  }

  lemma FourDigits(b: Bytes)
    requires |b| == 4
    ensures UnFixed(b) == b[0] as int + 0x100 * b[1] as int + 0x1_0000 * b[2] as int + 0x100_0000 * b[3] as int
  {
    var b1, b2, b3 := b[1..], b[1..][1..], b[1..][1..][1..];
    assert b1 == [b[1], b[2], b[3]] && b2 == [b[2], b[3]] && b3 == [b[3]] && b3[1..] == [];
    assert UnFixed(b3) == b[3];
    assert UnFixed(b2) == b[2] + 256 * UnFixed(b3);
    assert UnFixed(b1) == b[1] + 256 * UnFixed(b2);
  }

  lemma EightDigits(b: Bytes)
    requires |b| == 8
    ensures UnFixed(b) == UnFixed(b[..4]) + TWO32 * UnFixed(b[4..])
  {
    Powers();
    JoinedDigits(b[..4], b[4..]);
    assert b[..4] + b[4..] == b;
  }

  lemma {:induction false} JoinedDigits(a: Bytes, b: Bytes)
    ensures UnFixed(a + b) == UnFixed(a) + Power256(|a|) * UnFixed(b)
  {
    if a == [] {
      assert a + b == b;
    } else {
      assert (a + b)[1..] == a[1..] + b;
      JoinedDigits(a[1..], b);
      assert 256 * (Power256(|a| - 1) * UnFixed(b)) == Power256(|a|) * UnFixed(b);
    }
  }

  lemma Fixed32RoundTrip(v: nat, rest: Bytes)
    requires v < TWO32
    ensures DecodeFixed32(EncodeFixed32(v) + rest) == v
  {
    Powers();
    FixedRoundTrip(v, 4);
    assert (EncodeFixed32(v) + rest)[..4] == EncodeFixed32(v);
  }

  lemma Fixed64RoundTrip(v: nat, rest: Bytes)
    requires v < TWO64
    ensures DecodeFixed64(EncodeFixed64(v) + rest) == v
  {
    Powers();
    FixedRoundTrip(v, 8);
    assert (EncodeFixed64(v) + rest)[..8] == EncodeFixed64(v);
  }

  // ---------------------------------------------------------------------------
  // Varints
  // ---------------------------------------------------------------------------

  /** Seven bits a byte, the top bit set on all but the last. */
  function Varint(v: nat): (r: Bytes)
    ensures r != []
  {
    if v < 128 then [v] else [v % 128 + 128] + Varint(v / 128)
  }

  method EncodeVarint32(v: nat) returns (r: Bytes)
    requires v < TWO32
    ensures r == Varint(v) && |r| <= 5
  {
    if v < 0x80 {
      r := [v];
    } else if v < 0x4000 {
      r := [v % 128 + 128, v / 0x80];
    } else if v < 0x20_0000 {
      r := [v % 128 + 128, v / 0x80 % 128 + 128, v / 0x4000];
    } else if v < 0x1000_0000 {
      r := [v % 128 + 128, v / 0x80 % 128 + 128, v / 0x4000 % 128 + 128, v / 0x20_0000];
    } else {
      r := [v % 128 + 128, v / 0x80 % 128 + 128, v / 0x4000 % 128 + 128, v / 0x20_0000 % 128 + 128, v / 0x1000_0000];
    }
    VarintUnrolled(v);
  }

  lemma VarintUnrolled(v: nat)
    requires v < TWO32
    ensures v >= 0x80 ==> Varint(v) == [v % 128 + 128] + Varint(v / 0x80)
    ensures v >= 0x4000 ==> Varint(v / 0x80) == [v / 0x80 % 128 + 128] + Varint(v / 0x4000)
    ensures v >= 0x20_0000 ==> Varint(v / 0x4000) == [v / 0x4000 % 128 + 128] + Varint(v / 0x20_0000)
    ensures v >= 0x1000_0000 ==> Varint(v / 0x20_0000) == [v / 0x20_0000 % 128 + 128] + Varint(v / 0x1000_0000)
    ensures Varint(v / 0x1000_0000) == [v / 0x1000_0000]
    ensures v < 0x1000_0000 ==> Varint(v / 0x20_0000) == [v / 0x20_0000]
    ensures v < 0x20_0000 ==> Varint(v / 0x4000) == [v / 0x4000]
    ensures v < 0x4000 ==> Varint(v / 0x80) == [v / 0x80]
  {
    assert v / 0x80 / 128 == v / 0x4000;
    assert v / 0x4000 / 128 == v / 0x20_0000;
    assert v / 0x20_0000 / 128 == v / 0x1000_0000;
  }

  method EncodeVarint64(value: nat) returns (r: Bytes)
    ensures r == Varint(value)
  {
    r := [];
    var v := value;
    while v >= 128
      invariant r + Varint(v) == Varint(value)
    {
      assert r + [v % 128 + 128] + Varint(v / 128) == r + Varint(v);
      r := r + [v % 128 + 128];
      v := v / 128;
    }
    r := r + [v];
  }

  method VarintLength(value: nat) returns (len: nat)
    ensures len == |Varint(value)|
  {
    len := 1;
    var v := value;
    while v >= 128
      invariant |Varint(value)| == len - 1 + |Varint(v)|
    {
      v := v / 128;
      len := len + 1;
    }
  }

  datatype Parsed = Fail | Parsed(value: nat, rest: Bytes)

  /** result |= (byte & 127) << shift, where `scale` is 2 to the power `shift`: the bits do not overlap, and
      those shifted past the register's width are lost. */
  function Accumulate(result: nat, byte: Byte, scale: nat, modulus: nat): (r: nat)
    requires modulus > 0
    ensures r < modulus
  {
    (result + byte % 128 * scale) % modulus
  }

  /** What is read from `p` with `left` more bytes allowed, each scaled by a growing power of 128, in a
      register that wraps at `modulus`. */
  function ParseVarint(p: Bytes, left: nat, result: nat, scale: nat, modulus: nat): Parsed
    requires modulus > 0
    decreases left, |p|
  {
    if left == 0 || p == [] then Fail
    else
      var sum := Accumulate(result, p[0], scale, modulus);
      if p[0] >= 128 then ParseVarint(p[1..], left - 1, sum, scale * 128, modulus) else Parsed(sum, p[1..])
  }

  /** The number that the low seven bits of the first `n` bytes write, the least significant first. */
  function Digits(p: Bytes, n: nat): nat
    requires n <= |p|
  {
    if n == 0 then 0 else p[0] as int % 128 + 128 * Digits(p[1..], n - 1)
  }

  lemma {:induction false} MultipleWraps(x: nat, q: nat, m: nat)
    requires m > 0
    ensures (x + m * q) % m == x % m
  {
    if q > 0 {
      MultipleWraps(x, q - 1, m);
      assert x + m * q == x + m * (q - 1) + m;
      assert (x + m * (q - 1) + m) % m == (x + m * (q - 1)) % m by { DropModulus(x + m * (q - 1), m); }
    }
  }

  lemma DropModulus(x: nat, m: nat)
    requires m > 0
    ensures (x + m) % m == x % m
  {
    DivideIs(x + m, m, x / m + 1, x % m);
  }

  lemma WrapSum(a: nat, b: nat, m: nat)
    requires m > 0
    ensures (a % m + b) % m == (a + b) % m
  {
    var q, r := a / m, a % m;
    assert a == m * q + r;
    MultipleWraps(r + b, q, m);
    assert r + b + m * q == a + b;
  }

  lemma AccumulateMore(result: nat, byte: Byte, scale: nat, modulus: nat, more: nat)
    requires modulus > 0
    ensures (Accumulate(result, byte, scale, modulus) + scale * 128 * more) % modulus ==
            (result + scale * (byte as int % 128 + 128 * more)) % modulus
  {
    var low: nat := byte % 128;
    assert scale * (low + 128 * more) == low * scale + scale * 128 * more;
    WrapSum(result + low * scale, scale * 128 * more, modulus);
  }

  lemma ParseGoesOn(p: Bytes, left: nat, result: nat, scale: nat, modulus: nat)
    requires modulus > 0 && left > 0 && p != [] && p[0] >= 128
    ensures ParseVarint(p, left, result, scale, modulus) ==
            ParseVarint(p[1..], left - 1, Accumulate(result, p[0], scale, modulus), scale * 128, modulus)
  {
  }

  /** The first byte below 128 ends the varint. */
  lemma {:induction false} ParseEnds(p: Bytes, left: nat, result: nat, scale: nat, modulus: nat, i: nat)
    requires modulus > 0 && i < left && i < |p| && p[i] < 128 && forall j :: 0 <= j < i ==> p[j] >= 128
    ensures ParseVarint(p, left, result, scale, modulus) ==
            Parsed((result + scale * Digits(p, i + 1)) % modulus, p[i + 1..])
    decreases i
  {
    if i == 0 {
      assert Digits(p, 1) == p[0] as int % 128;
    } else {
      var sum := Accumulate(result, p[0], scale, modulus);
      ParseGoesOn(p, left, result, scale, modulus);
      ParseEnds(p[1..], left - 1, sum, scale * 128, modulus, i - 1);
      AccumulateMore(result, p[0], scale, modulus, Digits(p[1..], i));
      assert p[1..][i..] == p[i + 1..];
    }
  }

  lemma {:induction false} ParseUnfinished(p: Bytes, left: nat, result: nat, scale: nat, modulus: nat)
    requires modulus > 0 && forall j :: 0 <= j < left && j < |p| ==> p[j] >= 128
    ensures ParseVarint(p, left, result, scale, modulus) == Fail
    decreases left
  {
    if left > 0 && p != [] {
      ParseUnfinished(p[1..], left - 1, Accumulate(result, p[0], scale, modulus), scale * 128, modulus);
    }
  }

  /** A varint ends at its first byte below 128, within five or ten bytes, and its number is taken in the width
      of the register. */
  lemma VarintEnds(p: Bytes, i: nat)
    requires i < |p| && p[i] < 128 && forall j :: 0 <= j < i ==> p[j] >= 128
    ensures GetVarint32(p) == if i < 5 then Parsed(Digits(p, i + 1) % TWO32, p[i + 1..]) else Fail
    ensures GetVarint64(p) == if i < 10 then Parsed(Digits(p, i + 1) % TWO64, p[i + 1..]) else Fail
  {
    if i < 5 {
      ParseEnds(p, 5, 0, 1, TWO32, i);
    } else {
      ParseUnfinished(p, 5, 0, 1, TWO32);
    }
    if i < 10 {
      ParseEnds(p, 10, 0, 1, TWO64, i);
    } else {
      ParseUnfinished(p, 10, 0, 1, TWO64);
    }
  }

  /** Without such a byte nothing is read. */
  lemma VarintNeverEnds(p: Bytes)
    requires forall j :: 0 <= j < |p| ==> p[j] >= 128
    ensures GetVarint32(p) == Fail && GetVarint64(p) == Fail
  {
    ParseUnfinished(p, 5, 0, 1, TWO32);
    ParseUnfinished(p, 10, 0, 1, TWO64);
  }

  /** The encoder: no more bytes than the number needs, all but the last marked. */
  lemma {:induction false} VarintIsShortest(v: nat)
    ensures var r := Varint(v);
            && Digits(r, |r|) == v && (forall i :: 0 <= i < |r| ==> (r[i] >= 128 <==> i < |r| - 1))
            && (|r| > 1 ==> r[|r| - 1] != 0)
    decreases v
  {
    var r := Varint(v);
    if v >= 128 {
      VarintIsShortest(v / 128);
      assert r[1..] == Varint(v / 128);
      assert forall i :: 0 < i < |r| ==> r[i] == r[1..][i - 1];
    }
  }

  function GetVarint32(p: Bytes): Parsed { ParseVarint(p, 5, 0, 1, TWO32) }

  function GetVarint64(p: Bytes): Parsed { ParseVarint(p, 10, 0, 1, TWO64) }

  /** The shifting loop of GetVarint32PtrFallback (28, 2^32) and GetVarint64Ptr (63, 2^64). */
  method ReadVarint(p: Bytes, maxShift: nat, modulus: nat) returns (r: Parsed)
    requires modulus > 0
    ensures r == ParseVarint(p, maxShift / 7 + 1, 0, 1, modulus)
  {
    var result: nat, scale: nat := 0, 1;
    var shift, i := 0, 0;
    ghost var n := maxShift / 7 + 1;
    while shift <= maxShift && i < |p|
      invariant i <= |p| && i <= n && shift == 7 * i
      invariant ParseVarint(p, n, 0, 1, modulus) == ParseVarint(p[i..], n - i, result, scale, modulus)
      decreases |p| - i
    {
      var byte := p[i];
      assert p[i..][1..] == p[i + 1..];
      result := Accumulate(result, byte, scale, modulus);
      if byte < 128 {
        return Parsed(result, p[i + 1..]);
      }
      scale := scale * 128;
      shift, i := shift + 7, i + 1;
    }
    r := Fail;
  }

  lemma ScaleSplits(v: nat, scale: nat)
    ensures v * scale == v % 128 * scale + v / 128 * (scale * 128)
    ensures v % 128 * scale <= v * scale
  {
    var q, m := v / 128, v % 128;
    assert v == 128 * q + m;
    assert v * scale == (128 * q + m) * scale == 128 * q * scale + m * scale;
    assert 128 * q * scale == q * (scale * 128);
  }

  lemma AccumulateFits(result: nat, byte: Byte, scale: nat, modulus: nat)
    requires result + byte % 128 * scale < modulus
    ensures Accumulate(result, byte, scale, modulus) == result + byte % 128 * scale
  {
  }

  lemma ParseMore(p: Bytes, left: nat, result: nat, scale: nat, modulus: nat, low: nat)
    requires p != [] && left > 0 && p[0] >= 128 && modulus > 0 && low == p[0] % 128 * scale && result + low < modulus
    ensures ParseVarint(p, left, result, scale, modulus)
        == ParseVarint(p[1..], left - 1, result + low, scale * 128, modulus)
  {
    AccumulateFits(result, p[0], scale, modulus);
  }

  lemma ParseLast(p: Bytes, left: nat, result: nat, scale: nat, modulus: nat)
    requires p != [] && left > 0 && p[0] < 128 && modulus > 0 && result + p[0] * scale < modulus
    ensures ParseVarint(p, left, result, scale, modulus) == Parsed(result + p[0] * scale, p[1..])
  {
    AccumulateFits(result, p[0], scale, modulus);
  }

  lemma {:induction false} ParseInverse(v: nat, rest: Bytes, left: nat, result: nat, scale: nat, modulus: nat)
    requires result + v * scale < modulus && |Varint(v)| <= left
    ensures ParseVarint(Varint(v) + rest, left, result, scale, modulus) == Parsed(result + v * scale, rest)
    decreases v
  {
    var p := Varint(v) + rest;
    if v < 128 {
      assert p[1..] == rest;
      ParseLast(p, left, result, scale, modulus);
    } else {
      assert p[1..] == Varint(v / 128) + rest;
      ScaleSplits(v, scale);
      var low := v % 128 * scale;
      assert p[0] % 128 == v % 128;
      ParseMore(p, left, result, scale, modulus, low);
      ParseInverse(v / 128, rest, left - 1, result + low, scale * 128, modulus);
    }
  }

  lemma {:induction false} VarintBound(v: nat, n: nat)
    requires v < Power128(n) && n > 0
    ensures |Varint(v)| <= n
  {
    if v >= 128 {
      VarintBound(v / 128, n - 1);
    }
  }

  function Power128(n: nat): nat {
    if n == 0 then 1 else 128 * Power128(n - 1)
  }

  lemma VarintBounds(v: nat)
    ensures v < TWO32 ==> |Varint(v)| <= 5
    ensures v < TWO64 ==> |Varint(v)| <= 10
  {
    assert Power128(3) == 0x20_0000 && Power128(5) == 0x8_0000_0000;
    assert Power128(7) == 0x8_0000_0000 * 16384;
    assert Power128(10) == 0x8_0000_0000 * 0x8_0000_0000;
    if v < TWO32 {
      VarintBound(v, 5);
    }
    if v < TWO64 {
      VarintBound(v, 10);
    }
  }

  lemma Varint32RoundTrip(v: nat, rest: Bytes)
    requires v < TWO32
    ensures GetVarint32(Varint(v) + rest) == Parsed(v, rest)
  {
    VarintBounds(v);
    ParseInverse(v, rest, 5, 0, 1, TWO32);
  }

  lemma Varint64RoundTrip(v: nat, rest: Bytes)
    requires v < TWO64
    ensures GetVarint64(Varint(v) + rest) == Parsed(v, rest)
  {
    VarintBounds(v);
    ParseInverse(v, rest, 10, 0, 1, TWO64);
  }

  /** Reading a varint uses up at least one byte. */
  lemma {:induction false} VarintConsumes(p: Bytes, left: nat, result: nat, scale: nat, modulus: nat)
    requires modulus > 0
    ensures var r := ParseVarint(p, left, result, scale, modulus); r.Parsed? ==> |r.rest| < |p|
    decreases left
  {
    if left > 0 && p != [] && p[0] >= 128 {
      VarintConsumes(p[1..], left - 1, Accumulate(result, p[0], scale, modulus), scale * 128, modulus);
    }
  }

  /** What is read fits the register it is read into. */
  lemma {:induction false} VarintFits(p: Bytes, left: nat, result: nat, scale: nat, modulus: nat)
    requires modulus > 0
    ensures var r := ParseVarint(p, left, result, scale, modulus); r.Parsed? ==> r.value < modulus
    decreases left
  {
    if left > 0 && p != [] && p[0] >= 128 {
      VarintFits(p[1..], left - 1, Accumulate(result, p[0], scale, modulus), scale * 128, modulus);
    }
  }

  // ---------------------------------------------------------------------------
  // Length-prefixed strings
  // ---------------------------------------------------------------------------

  datatype ParsedSlice = NoSlice | ParsedSlice(slice: Bytes, rest: Bytes)

  function LengthPrefixed(s: Bytes): Bytes {
    Varint(|s|) + s
  }

  function GetLengthPrefixedSlice(p: Bytes): ParsedSlice {
    match GetVarint32(p)
    case Fail => NoSlice
    case Parsed(len, rest) => if |rest| >= len then ParsedSlice(rest[..len], rest[len..]) else NoSlice
  }

  lemma LengthPrefixedRoundTrip(s: Bytes, rest: Bytes)
    requires |s| < TWO32
    ensures GetLengthPrefixedSlice(LengthPrefixed(s) + rest) == ParsedSlice(s, rest)
  {
    Varint32RoundTrip(|s|, s + rest);
    assert LengthPrefixed(s) + rest == Varint(|s|) + (s + rest);
    assert (s + rest)[..|s|] == s && (s + rest)[|s|..] == rest;
  }

  lemma SliceConsumes(p: Bytes)
    ensures GetLengthPrefixedSlice(p).ParsedSlice? ==> |GetLengthPrefixedSlice(p).rest| < |p|
  {
    VarintConsumes(p, 5, 0, 1, TWO32);
  }
}
