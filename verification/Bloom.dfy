/** The Bloom filter policy: setting and probing bits by double hashing. */
module Bloom {
  import opened DbFormat
  import opened Coding
  import opened Bits

  // ---------------------------------------------------------------------------
  // Bits of a byte array
  // ---------------------------------------------------------------------------

  function TestBit(a: Bytes, pos: nat): bool
    requires pos < 8 * |a|
  {
    BitOf(a[pos / 8], pos % 8)
  }

  function SetBit(a: Bytes, pos: nat): (r: Bytes)
    requires pos < 8 * |a|
    ensures |r| == |a|
  {
    assert Power2(8) == 256;
    WithBitFits(a[pos / 8], pos % 8, 8);
    a[pos / 8 := WithBit(a[pos / 8], pos % 8)]
  }

  lemma SetBitSetsOne(a: Bytes, pos: nat, other: nat)
    requires pos < 8 * |a| && other < 8 * |a|
    ensures TestBit(SetBit(a, pos), other) <==> other == pos || TestBit(a, other)
  {
    WithBitSetsOne(a[pos / 8], pos % 8, other % 8);
  }

  // ---------------------------------------------------------------------------
  // Probes
  // ---------------------------------------------------------------------------

  /** Rotate right 17 bits. */
  function Delta(h: nat): nat
    requires h < TWO32
  {
    h / 0x2_0000 + h % 0x2_0000 * 0x8000
  }

  /** The sum is (h >> 17) | (h << 15) in 32 bits. */
  lemma DeltaRotates(h: nat)
    requires h < TWO32
    ensures Delta(h) == Or(ShiftRight(h, 17), h * 0x8000 % TWO32)
  {
    SmallPowers();
    ShiftDivides(h, 17);
    OrOfDisjoint(h / 0x2_0000, h % 0x2_0000, 15);
    HighBitsLost(h / 0x2_0000, h % 0x2_0000);
  }

  lemma SmallPowers()
    ensures Power2(15) == 0x8000 && Power2(17) == 0x2_0000
  {
    assert Power2(5) == 32 && Power2(10) == 1024;
  }

  lemma HighBitsLost(high: nat, low: nat)
    requires low < 0x2_0000
    ensures (high * 0x2_0000 + low) * 0x8000 % TWO32 == low * 0x8000
  {
    assert (high * 0x2_0000 + low) * 0x8000 == high * TWO32 + low * 0x8000;
  }

  /** The bit the `j`-th probe for hash `h` looks at: h + j * delta in 32 bits, by the filter's size. */
  function Probe(h: nat, j: nat, bits: nat): (pos: nat)
    requires h < TWO32 && bits > 0
    ensures pos < bits
  {
    (h + j * Delta(h)) % TWO32 % bits
  }

  /** The probes of a walk that starts at the hash and adds the rotated hash in 32 bits. */
  lemma ProbesWalk(h: nat, walk: seq<nat>, j: nat, bits: nat)
    requires h < TWO32 && bits > 0 && j < |walk| && walk[0] == h
    requires forall i {:trigger walk[i]} :: 0 <= i < j ==> walk[i + 1] == (walk[i] + Delta(h)) % TWO32
    ensures walk[j] < TWO32 && Probe(h, j, bits) == walk[j] % bits
  {
    WalkAt(h, walk, j);
  }

  lemma {:induction false} WalkAt(h: nat, walk: seq<nat>, j: nat)
    requires h < TWO32 && j < |walk| && walk[0] == h
    requires forall i {:trigger walk[i]} :: 0 <= i < j ==> walk[i + 1] == (walk[i] + Delta(h)) % TWO32
    ensures walk[j] == (h + j * Delta(h)) % TWO32
    decreases j
  {
    if j > 0 {
      WalkAt(h, walk, j - 1);
      NextProbe(h, j - 1, walk[j - 1]);
      assert walk[j - 1 + 1] == walk[j];
    }
  }

  lemma NextProbe(h: nat, j: nat, at: nat)
    requires h < TWO32 && at == (h + j * Delta(h)) % TWO32
    ensures (at + Delta(h)) % TWO32 == (h + (j + 1) * Delta(h)) % TWO32
  {
    assert (j + 1) * Delta(h) == j * Delta(h) + Delta(h);
    WrappedSum(h + j * Delta(h), Delta(h));
  }

  lemma WrappedSum(a: nat, b: nat)
    ensures (a % TWO32 + b) % TWO32 == (a + b) % TWO32
  {
  }

  /** Some probe for `key` below the `k`-th looks at `pos`. */
  ghost predicate Probed(hash: Bytes -> nat, key: Bytes, k: nat, bits: nat, pos: nat)
    requires bits > 0
  {
    exists j :: 0 <= j < k && Probe(hash(key) % TWO32, j, bits) == pos
  }

  ghost predicate ProbedByAny(hash: Bytes -> nat, keys: seq<Bytes>, k: nat, bits: nat, pos: nat)
    requires bits > 0
  {
    exists i :: 0 <= i < |keys| && Probed(hash, keys[i], k, bits, pos)
  }

  /** The size in bytes of a filter of `n` keys. */
  function FilterSize(n: nat, bitsPerKey: nat): (bytes: nat)
    ensures bytes >= 8 && 8 * bytes >= n * bitsPerKey && (bytes > 8 ==> 8 * (bytes - 1) < n * bitsPerKey)
  {
    (Max(n * bitsPerKey, 64) + 7) / 8
  }

  /** The number of probes for a number of bits per key. */
  function ProbesFor(bitsPerKey: nat): (k: nat)
    ensures 1 <= k <= 30
    ensures k > 1 ==> 100 * k <= 69 * bitsPerKey
    ensures k < 30 ==> 69 * bitsPerKey < 100 * (k + 1)
  {
    var k := (bitsPerKey as real * 0.69).Floor;
    if k < 1 then 1 else if k > 30 then 30 else k
  }

  /** Exactly the bits probed for one of the keys are set, and the number of probes follows. */
  ghost predicate IsFilter(f: Bytes, hash: Bytes -> nat, keys: seq<Bytes>, bitsPerKey: nat) {
    var bytes := FilterSize(|keys|, bitsPerKey);
    && |f| == bytes + 1 && f[bytes] == ProbesFor(bitsPerKey)
    && SetExactly(f[..bytes], hash, keys, ProbesFor(bitsPerKey))
  }

  ghost predicate SetExactly(a: Bytes, hash: Bytes -> nat, keys: seq<Bytes>, k: nat) {
    forall pos :: 0 <= pos < 8 * |a| ==> (TestBit(a, pos) <==> ProbedByAny(hash, keys, k, 8 * |a|, pos))
  }

  method CreateFilter(hash: Bytes -> nat, keys: seq<Bytes>, bitsPerKey: nat, dst: Bytes)
      returns (r: Bytes, ghost f: Bytes)
    ensures r == dst + f && IsFilter(f, hash, keys, bitsPerKey)
  {
    var k := ProbesFor(bitsPerKey);
    var bits := |keys| * bitsPerKey;
    if bits < 64 {
      bits := 64;
    }
    var bytes := (bits + 7) / 8;
    var a: Bytes := seq(bytes, _ => 0);
    forall pos | 0 <= pos < 8 * bytes ensures !TestBit(a, pos) {
      NoBitOfZero(pos % 8);
    }
    for i := 0 to |keys|
      invariant |a| == bytes && SetExactly(a, hash, keys[..i], k)
    {
      ghost var was := a;
      a := AddKey(a, hash, keys[i], k);
      OneMoreKey(was, a, hash, keys, i, k);
    }
    assert keys[..|keys|] == keys;
    f := a + [k];
    assert f[..bytes] == a;
    r := dst + a + [k];
  }

  lemma OneMoreKey(was: Bytes, a: Bytes, hash: Bytes -> nat, keys: seq<Bytes>, i: nat, k: nat)
    requires i < |keys| && |a| == |was| > 0 && SetExactly(was, hash, keys[..i], k)
    requires forall pos ::
        0 <= pos < 8 * |a| ==> (TestBit(a, pos) <==> TestBit(was, pos) || Probed(hash, keys[i], k, 8 * |a|, pos))
    ensures SetExactly(a, hash, keys[..i + 1], k)
  {
    var before, after := keys[..i], keys[..i + 1];
    forall pos | 0 <= pos < 8 * |a|
      ensures TestBit(a, pos) <==> ProbedByAny(hash, after, k, 8 * |a|, pos)
    {
      if ProbedByAny(hash, before, k, 8 * |a|, pos) {
        var n :| 0 <= n < i && Probed(hash, before[n], k, 8 * |a|, pos);
        assert after[n] == before[n];
      }
      if ProbedByAny(hash, after, k, 8 * |a|, pos) {
        var n :| 0 <= n < i + 1 && Probed(hash, after[n], k, 8 * |a|, pos);
        assert n < i ==> before[n] == after[n];
      }
      assert after[i] == keys[i];
    }
  }

  /** The inner loop: set the bits probed for one key. */
  method AddKey(was: Bytes, hash: Bytes -> nat, key: Bytes, k: nat) returns (a: Bytes)
    requires was != []
    ensures |a| == |was|
    ensures forall pos ::
        0 <= pos < 8 * |a| ==> (TestBit(a, pos) <==> TestBit(was, pos) || Probed(hash, key, k, 8 * |a|, pos))
  {
    a := was;
    var bits := 8 * |was|;
    var h := hash(key) % TWO32;
    var delta := h / 0x2_0000 + h % 0x2_0000 * 0x8000;
    ghost var first := h;
    for j := 0 to k
      invariant |a| == |was| && h == (first + j * delta) % TWO32
      invariant forall pos ::
          0 <= pos < bits ==> (TestBit(a, pos) <==> TestBit(was, pos) || Probed(hash, key, j, bits, pos))
    {
      var bitpos := h % bits;
      ghost var before := a;
      a := SetBit(a, bitpos);
      forall pos | 0 <= pos < bits
        ensures TestBit(a, pos) <==> TestBit(was, pos) || Probed(hash, key, j + 1, bits, pos)
      {
        SetBitSetsOne(before, bitpos, pos);
        OneMoreProbe(hash, key, j, bits, pos);
      }
      NextProbe(first, j, h);
      h := (h + delta) % TWO32;
    }
  }

  lemma OneMoreProbe(hash: Bytes -> nat, key: Bytes, j: nat, bits: nat, pos: nat)
    requires bits > 0
    ensures Probed(hash, key, j + 1, bits, pos) <==>
        Probed(hash, key, j, bits, pos) || Probe(hash(key) % TWO32, j, bits) == pos
  {
    if Probed(hash, key, j, bits, pos) {
      var i :| 0 <= i < j && Probe(hash(key) % TWO32, i, bits) == pos;
    }
  }

  // ---------------------------------------------------------------------------
  // Matching
  // ---------------------------------------------------------------------------

  /** What a filter says of a key: too short rejects, an unknown number of probes matches, and otherwise
      all probed bits must be set. */
  ghost predicate MayMatch(hash: Bytes -> nat, key: Bytes, f: Bytes) {
    && |f| >= 2
    && (f[|f| - 1] > 30 || AllProbesSet(f[..|f| - 1], hash(key) % TWO32, f[|f| - 1]))
  }

  ghost predicate AllProbesSet(a: Bytes, h: nat, k: nat)
    requires a != [] && h < TWO32
  {
    var bits := 8 * |a|;
    forall j: nat :: j < k ==> TestBit(a, Probe(h, j, bits))
  }

  method KeyMayMatch(hash: Bytes -> nat, key: Bytes, f: Bytes) returns (r: bool)
    ensures r <==> MayMatch(hash, key, f)
  {
    var len := |f|;
    if len < 2 {
      return false;
    }
    var a, bits := f[..len - 1], (len - 1) * 8;
    var k := f[len - 1];
    if k > 30 {
      return true;
    }
    var h := hash(key) % TWO32;
    var delta := h / 0x2_0000 + h % 0x2_0000 * 0x8000;
    ghost var first := h;
    for j := 0 to k
      invariant h == (first + j * delta) % TWO32
      invariant AllProbesSet(a, first, j)
    {
      var bitpos := h % bits;
      if !TestBit(a, bitpos) {
        assert Probe(first, j, bits) == bitpos;
        return false;
      }
      NextProbe(first, j, h);
      h := (h + delta) % TWO32;
    }
    r := true;
  }

  /** A filter never rejects a key it was made for. */
  lemma NoFalseNegatives(hash: Bytes -> nat, keys: seq<Bytes>, bitsPerKey: nat, f: Bytes, key: Bytes)
    requires IsFilter(f, hash, keys, bitsPerKey) && key in keys
    ensures MayMatch(hash, key, f)
  {
    var k, a := ProbesFor(bitsPerKey), f[..|f| - 1];
    var i :| 0 <= i < |keys| && keys[i] == key;
    forall j | 0 <= j < k ensures TestBit(a, Probe(hash(key) % TWO32, j, 8 * |a|)) {
      var pos := Probe(hash(key) % TWO32, j, 8 * |a|);
      assert Probed(hash, keys[i], k, 8 * |a|, pos);
      assert ProbedByAny(hash, keys, k, 8 * |a|, pos);
    }
  }

  /** The keys determine the filter, so making one is a function of them. */
  lemma FilterIsUnique(hash: Bytes -> nat, keys: seq<Bytes>, bitsPerKey: nat, f: Bytes, g: Bytes)
    requires IsFilter(f, hash, keys, bitsPerKey) && IsFilter(g, hash, keys, bitsPerKey)
    ensures f == g
  {
    var n := |f| - 1;
    assert Power2(8) == 256;
    forall i | 0 <= i < n ensures f[i] == g[i] {
      forall b: nat | b < 8 ensures BitOf(f[i], b) <==> BitOf(g[i], b) {
        assert (8 * i + b) / 8 == i && (8 * i + b) % 8 == b;
        assert TestBit(f[..n], 8 * i + b) <==> TestBit(g[..n], 8 * i + b);
      }
      BitsDecideWord(f[i], g[i], 8);
    }
  }
}
