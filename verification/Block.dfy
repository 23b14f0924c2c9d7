/** Blocks: prefix-compressed entries with restart points, their builder and their bidirectional cursor. */
module Block {
  import opened DbFormat
  import opened Coding

  datatype KV = KV(key: Bytes, value: Bytes)

  // ---------------------------------------------------------------------------
  // The format
  // ---------------------------------------------------------------------------

  /** An entry that shares the first `shared` bytes of its key with the one before. */
  function EncodeEntry(e: KV, shared: nat): Bytes
    requires shared <= |e.key|
  {
    Varint(shared) + Varint(|e.key| - shared) + Varint(|e.value|) + e.key[shared..] + e.value
  }

  /** What a block holds: its entries, how much each shares, and which of them are restart points. */
  datatype Layout = Layout(es: seq<KV>, shared: seq<nat>, restarts: seq<nat>)

  predicate SharedOk(l: Layout, i: nat)
    requires i < |l.es| == |l.shared|
  {
    && l.shared[i] <= |l.es[i].key|
    && (i == 0 ==> l.shared[i] == 0)
    && (i > 0 ==> l.shared[i] <= |l.es[i - 1].key| && l.es[i].key[..l.shared[i]] == l.es[i - 1].key[..l.shared[i]])
  }

  predicate RestartOk(l: Layout, j: nat)
    requires j < |l.restarts| && |l.es| == |l.shared|
  {
    if l.es == [] then l.restarts[j] == 0 else l.restarts[j] < |l.es| && l.shared[l.restarts[j]] == 0
  }

  ghost predicate LayoutOk(l: Layout) {
    && |l.es| == |l.shared|
    && (forall i {:trigger SharedOk(l, i)} :: 0 <= i < |l.es| ==> SharedOk(l, i))
    && |l.restarts| > 0 && l.restarts[0] == 0
    && (forall j {:trigger RestartOk(l, j)} :: 0 <= j < |l.restarts| ==> RestartOk(l, j))
    && (forall j, k {:trigger Increasing(l.restarts, j, k)} ::
        0 <= j < k < |l.restarts| ==> Increasing(l.restarts, j, k))
  }

  predicate Increasing(s: seq<nat>, j: nat, k: nat)
    requires j < |s| && k < |s|
  {
    s[j] < s[k]
  }

  /** The bytes of the first `n` entries. */
  function DataTo(l: Layout, n: nat): Bytes
    requires n <= |l.es| == |l.shared| && forall i {:trigger SharedOk(l, i)} :: 0 <= i < |l.es| ==> SharedOk(l, i)
  {
    if n == 0 then []
    else
      assert SharedOk(l, n - 1);
      DataTo(l, n - 1) + EncodeEntry(l.es[n - 1], l.shared[n - 1])
  }

  /** Where entry `i` starts. */
  function Offset(l: Layout, i: nat): nat
    requires LayoutOk(l) && i <= |l.es|
  {
    |DataTo(l, i)|
  }

  function Data(l: Layout): Bytes
    requires LayoutOk(l)
  {
    DataTo(l, |l.es|)
  }

  /** The restart array: where each of the first `n` restart points starts. */
  function RestartArray(offsets: seq<nat>, n: nat): Bytes
    requires n <= |offsets|
  {
    if n == 0 then [] else RestartArray(offsets, n - 1) + EncodeFixed32(offsets[n - 1])
  }

  ghost predicate OffsetsOf(l: Layout, offsets: seq<nat>)
    requires LayoutOk(l)
  {
    && |offsets| == |l.restarts|
    && forall j {:trigger OffsetIs(l, offsets, j)} :: 0 <= j < |offsets| ==> OffsetIs(l, offsets, j)
  }

  predicate OffsetIs(l: Layout, offsets: seq<nat>, j: nat)
    requires LayoutOk(l) && j < |offsets| == |l.restarts|
  {
    l.restarts[j] <= |l.es| && offsets[j] == Offset(l, l.restarts[j])
  }

  /** The whole block. */
  function Encode(data: Bytes, offsets: seq<nat>): Bytes {
    data + RestartArray(offsets, |offsets|) + EncodeFixed32(|offsets|)
  }

  lemma EncodedAtLeast(e: KV, shared: nat)
    requires shared <= |e.key|
    ensures |EncodeEntry(e, shared)| >= 3
  {
  }

  lemma {:induction false} DataPrefix(l: Layout, m: nat, n: nat)
    requires LayoutOk(l) && m <= n <= |l.es|
    ensures Offset(l, m) + 3 * (n - m) <= Offset(l, n) && DataTo(l, n)[..Offset(l, m)] == DataTo(l, m)
  {
    if m < n {
      DataPrefix(l, m, n - 1);
      assert SharedOk(l, n - 1);
      EncodedAtLeast(l.es[n - 1], l.shared[n - 1]);
    }
  }

  /** Entries start in order. */
  lemma OffsetsAscend(l: Layout, i: nat, j: nat)
    requires LayoutOk(l) && i <= |l.es| && j <= |l.es|
    ensures Offset(l, i) < Offset(l, j) <==> i < j
  {
    if i <= j {
      DataPrefix(l, i, j);
    } else {
      DataPrefix(l, j, i);
    }
  }

  /** The bytes of entry `i` in the block. */
  lemma EntryBytes(l: Layout, i: nat)
    requires LayoutOk(l) && i < |l.es|
    ensures SharedOk(l, i) && Offset(l, i + 1) <= |Data(l)|
    ensures Data(l)[Offset(l, i)..Offset(l, i + 1)] == EncodeEntry(l.es[i], l.shared[i])
    ensures Offset(l, i + 1) == Offset(l, i) + |EncodeEntry(l.es[i], l.shared[i])|
  {
    assert SharedOk(l, i);
    DataPrefix(l, i + 1, |l.es|);
    var e := EncodeEntry(l.es[i], l.shared[i]);
    assert DataTo(l, i + 1) == DataTo(l, i) + e;
    assert Data(l)[Offset(l, i)..Offset(l, i + 1)] == Data(l)[..Offset(l, i + 1)][Offset(l, i)..];
  }

  lemma {:induction false} RestartArrayAt(offsets: seq<nat>, n: nat, j: nat)
    requires j < n <= |offsets|
    ensures |RestartArray(offsets, n)| == 4 * n
    ensures RestartArray(offsets, n)[4 * j..4 * j + 4] == EncodeFixed32(offsets[j])
  {
    RestartArrayLength(offsets, n - 1);
    var init := RestartArray(offsets, n - 1);
    if j < n - 1 {
      RestartArrayAt(offsets, n - 1, j);
      assert (init + EncodeFixed32(offsets[n - 1]))[4 * j..4 * j + 4] == init[4 * j..4 * j + 4];
    }
  }

  lemma {:induction false} RestartArrayLength(offsets: seq<nat>, n: nat)
    requires n <= |offsets|
    ensures |RestartArray(offsets, n)| == 4 * n
  {
    if n > 0 {
      RestartArrayLength(offsets, n - 1);
    }
  }

  // ---------------------------------------------------------------------------
  // Building
  // ---------------------------------------------------------------------------

  /** A layout with one more entry. */
  function Extended(l: Layout, e: KV, shared: nat, restart: bool): Layout {
    Layout(l.es + [e], l.shared + [shared], if restart then l.restarts + [|l.es|] else l.restarts)
  }

  lemma {:induction false} ExtendedData(l: Layout, l': Layout, n: nat)
    requires LayoutOk(l) && LayoutOk(l') && l.es <= l'.es && l.shared <= l'.shared && n <= |l.es|
    ensures DataTo(l', n) == DataTo(l, n)
  {
    if n > 0 {
      ExtendedData(l, l', n - 1);
      assert SharedOk(l, n - 1) && SharedOk(l', n - 1);
    }
  }

  lemma ExtendOk(l: Layout, e: KV, shared: nat, restart: bool)
    requires LayoutOk(l) && shared <= |e.key| && (restart ==> shared == 0 && l.es != [])
    requires if l.es == [] then shared == 0
             else shared <= |l.es[|l.es| - 1].key| && e.key[..shared] == l.es[|l.es| - 1].key[..shared]
    ensures LayoutOk(Extended(l, e, shared, restart))
    ensures Data(Extended(l, e, shared, restart)) == Data(l) + EncodeEntry(e, shared)
  {
    var l' := Extended(l, e, shared, restart);
    forall i | 0 <= i < |l'.es| ensures SharedOk(l', i) {
      assert i < |l.es| ==> SharedOk(l, i);
    }
    forall j | 0 <= j < |l'.restarts| ensures RestartOk(l', j) {
      assert j < |l.restarts| ==> RestartOk(l, j);
    }
    forall j, k | 0 <= j < k < |l'.restarts| ensures Increasing(l'.restarts, j, k) {
      assert RestartOk(l, j);
      assert k < |l.restarts| ==> Increasing(l.restarts, j, k);
    }
    ExtendedData(l, l', |l.es|);
  }

  lemma ExtendOffsets(l: Layout, offsets: seq<nat>, e: KV, shared: nat, restart: bool)
    requires LayoutOk(l) && OffsetsOf(l, offsets) && LayoutOk(Extended(l, e, shared, restart))
    ensures OffsetsOf(Extended(l, e, shared, restart), if restart then offsets + [|Data(l)|] else offsets)
  {
    var l' := Extended(l, e, shared, restart);
    var offsets' := if restart then offsets + [|Data(l)|] else offsets;
    forall j | 0 <= j < |offsets'| ensures OffsetIs(l', offsets', j) {
      if j < |offsets| {
        assert OffsetIs(l, offsets, j);
        ExtendedData(l, l', l.restarts[j]);
      } else {
        ExtendedData(l, l', |l.es|);
      }
    }
  }

  /** Restart points come every `interval` entries. */
  predicate Apart(s: seq<nat>, j: nat, k: nat, interval: nat)
    requires j < |s| && k < |s|
  {
    k == j + 1 ==> s[k] == s[j] + interval
  }

  /** Restart points are `interval` entries apart, and `counter` entries follow the last. */
  ghost predicate Spaced(l: Layout, counter: nat, interval: nat) {
    && l.restarts != [] && counter <= interval && l.restarts[|l.restarts| - 1] + counter == |l.es|
    && forall j, k {:trigger Apart(l.restarts, j, k, interval)} ::
         0 <= j < k < |l.restarts| ==> Apart(l.restarts, j, k, interval)
  }

  /** The keys have no more than their first `n` bytes in common. */
  predicate Longest(a: Bytes, b: Bytes, n: nat) {
    n <= |a| && n <= |b| && a[..n] == b[..n] && (n < |a| && n < |b| ==> a[n] != b[n])
  }

  /** An entry that is no restart point shares all its key has in common with the one before. */
  ghost predicate Elides(l: Layout)
    requires |l.es| == |l.shared|
  {
    forall i {:trigger l.shared[i]} :: 0 < i < |l.es| && i !in l.restarts ==>
      Longest(l.es[i - 1].key, l.es[i].key, l.shared[i])
  }

  lemma ElidesOneMore(l: Layout, e: KV, shared: nat, restart: bool)
    requires |l.es| == |l.shared| && Elides(l)
    requires l.es != [] && !restart ==> Longest(l.es[|l.es| - 1].key, e.key, shared)
    ensures Elides(Extended(l, e, shared, restart))
  {
    var l' := Extended(l, e, shared, restart);
    assert restart ==> |l.es| in l.restarts + [|l.es|];
    forall i | 0 < i < |l'.es| && i !in l'.restarts ensures Longest(l'.es[i - 1].key, l'.es[i].key, l'.shared[i]) {
      assert i in l.restarts ==> i in l'.restarts;
      if i < |l.es| {
        assert l'.shared[i] == l.shared[i];
      }
    }
  }

  lemma SpacedOneMore(l: Layout, counter: nat, interval: nat, e: KV, shared: nat)
    requires interval >= 1 && Spaced(l, counter, interval)
    ensures var restart := counter >= interval;
      Spaced(Extended(l, e, shared, restart), if restart then 1 else counter + 1, interval)
  {
    ApartExtends(l.restarts, |l.es|, interval);
  }

  lemma ExtendAll(l: Layout, offsets: seq<nat>, counter: nat, interval: nat, e: KV, shared: nat)
    returns (l': Layout)
    requires LayoutOk(l) && OffsetsOf(l, offsets) && interval >= 1 && Spaced(l, counter, interval) && shared <= |e.key|
    requires counter >= interval ==> shared == 0
    requires if l.es == [] then shared == 0
             else shared <= |l.es[|l.es| - 1].key| && e.key[..shared] == l.es[|l.es| - 1].key[..shared]
    requires Elides(l) && (l.es != [] && counter < interval ==> Longest(l.es[|l.es| - 1].key, e.key, shared))
    ensures LayoutOk(l') && Elides(l') && l'.es == l.es + [e] && Data(l') == Data(l) + EncodeEntry(e, shared)
    ensures OffsetsOf(l', if counter >= interval then offsets + [|Data(l)|] else offsets)
    ensures Spaced(l', if counter >= interval then 1 else counter + 1, interval)
  {
    var restart := counter >= interval;
    l' := Extended(l, e, shared, restart);
    ExtendOk(l, e, shared, restart);
    ExtendOffsets(l, offsets, e, shared, restart);
    SpacedOneMore(l, counter, interval, e, shared);
    ElidesOneMore(l, e, shared, restart);
  }

  class BlockBuilder {
    const interval: nat
    var buffer: Bytes
    var restarts: seq<nat>
    var counter: nat
    var lastKey: Bytes
    var finished: bool
    ghost var l: Layout

    ghost predicate Valid()
      reads this
    {
      && interval >= 1 && LayoutOk(l) && OffsetsOf(l, restarts) && (!finished ==> buffer == Data(l))
      && lastKey == (if l.es == [] then [] else l.es[|l.es| - 1].key)
      && Spaced(l, counter, interval) && Elides(l)
    }

    constructor (interval: nat)
      requires interval >= 1
      ensures Valid() && l.es == [] && !finished && this.interval == interval
    {
      this.interval := interval;
      buffer, restarts, counter, lastKey, finished, l := [], [0], 0, [], false, Layout([], [], [0]);
    }

    method Add(key: Bytes, value: Bytes)
      requires Valid() && !finished
      modifies this
      ensures Valid() && !finished && l.es == old(l.es) + [KV(key, value)]
    {
      var restart := counter >= interval;
      var shared := 0;
      if !restart {
        shared := SharedLength(lastKey, key);
      }
      ghost var l' := ExtendAll(l, restarts, counter, interval, KV(key, value), shared);
      if restart {
        restarts, counter := restarts + [|buffer|], 0;
      }
      buffer := buffer + EncodeEntry(KV(key, value), shared);
      lastKey := key;
      counter := counter + 1;
      l := l';
    }

    /** The finished block describes exactly the entries added. */
    method Finish() returns (block: Bytes)
      requires Valid() && !finished
      modifies this
      ensures finished && l == old(l) && restarts == old(restarts) && Valid()
      ensures block == Encode(Data(l), restarts)
    {
      for i := 0 to |restarts|
        modifies `buffer
        invariant buffer == Data(l) + RestartArray(restarts, i)
      {
        Regroup(Data(l), RestartArray(restarts, i), EncodeFixed32(restarts[i]));
        buffer := buffer + EncodeFixed32(restarts[i]);
      }
      buffer := buffer + EncodeFixed32(|restarts|);
      finished := true;
      block := buffer;
    }
  }

  /** How many bytes the keys begin with in common. */
  method SharedLength(last: Bytes, key: Bytes) returns (shared: nat)
    ensures Longest(last, key, shared)
  {
    var minLength := if |last| < |key| then |last| else |key|;
    shared := 0;
    while shared < minLength && last[shared] == key[shared]
      invariant shared <= minLength && last[..shared] == key[..shared]
    {
      shared := shared + 1;
    }
  }

  lemma ApartExtends(s: seq<nat>, n: nat, interval: nat)
    requires s != [] && forall j, k {:trigger Apart(s, j, k, interval)} :: 0 <= j < k < |s| ==> Apart(s, j, k, interval)
    ensures n == s[|s| - 1] + interval ==>
              forall j, k {:trigger Apart(s + [n], j, k, interval)} :: 0 <= j < k < |s| + 1
                  ==> Apart(s + [n], j, k, interval)
  {
    forall j, k | 0 <= j < k < |s| + 1 && n == s[|s| - 1] + interval ensures Apart(s + [n], j, k, interval) {
      assert k < |s| ==> Apart(s, j, k, interval);
    }
  }

  // ---------------------------------------------------------------------------
  // Decoding one entry
  // ---------------------------------------------------------------------------

  datatype Decoded = BadEntry | Decoded(shared: nat, nonShared: nat, valueLength: nat, rest: Bytes)

  /** Three varints, and room for the bytes they announce (their sum is taken in 32 bits). */
  function ParseEntry(p: Bytes): Decoded {
    match GetVarint32(p)
    case Fail => BadEntry
    case Parsed(shared, p1) =>
      match GetVarint32(p1)
      case Fail => BadEntry
      case Parsed(nonShared, p2) =>
        match GetVarint32(p2)
        case Fail => BadEntry
        case Parsed(valueLength, p3) =>
          if |p3| < (nonShared + valueLength) % TWO32 then BadEntry else Decoded(shared, nonShared, valueLength, p3)
  }

  lemma ParseSteps(p: Bytes, shared: nat, p1: Bytes, nonShared: nat, p2: Bytes, valueLength: nat, p3: Bytes)
    requires GetVarint32(p) == Parsed(shared, p1) && GetVarint32(p1) == Parsed(nonShared, p2)
    requires GetVarint32(p2) == Parsed(valueLength, p3)
    ensures ParseEntry(p) ==
            if |p3| < (nonShared + valueLength) % TWO32 then BadEntry
            else Decoded(shared, nonShared, valueLength, p3)
  {
  }

  /** The fast path for three one-byte lengths gives what three varints would. */
  method DecodeEntry(p: Bytes) returns (r: Decoded)
    ensures r == ParseEntry(p)
  {
    if |p| < 3 {
      ShortFails(p);
      return BadEntry;
    }
    if p[0] < 128 && p[1] < 128 && p[2] < 128 {
      r := FastDecode(p);
    } else {
      r := ParseEntry(p);
    }
  }

  method FastDecode(p: Bytes) returns (r: Decoded)
    requires |p| >= 3 && p[0] < 128 && p[1] < 128 && p[2] < 128
    ensures r == ParseEntry(p)
  {
    var shared: nat, nonShared: nat, valueLength: nat := p[0], p[1], p[2];
    var rest := p[3..];
    ThreeBytes(p);
    ParseSteps(p, shared, p[1..], nonShared, p[2..], valueLength, rest);
    r := if |rest| < (nonShared + valueLength) % TWO32 then BadEntry else Decoded(shared, nonShared, valueLength, rest);
  }

  lemma ThreeBytes(p: Bytes)
    requires |p| >= 3 && p[0] < 128 && p[1] < 128 && p[2] < 128
    ensures GetVarint32(p) == Parsed(p[0], p[1..]) && GetVarint32(p[1..]) == Parsed(p[1], p[2..])
    ensures GetVarint32(p[2..]) == Parsed(p[2], p[3..])
  {
    OneByte(p);
    OneByte(p[1..]);
    OneByte(p[2..]);
    assert p[1..][1..] == p[2..] && p[2..][1..] == p[3..];
  }

  lemma OneByte(p: Bytes)
    requires p != [] && p[0] < 128
    ensures GetVarint32(p) == Parsed(p[0], p[1..])
  {
    assert Accumulate(0, p[0], 1, TWO32) == p[0];
  }

  lemma ShortFails(p: Bytes)
    requires |p| < 3
    ensures ParseEntry(p) == BadEntry
  {
    VarintConsumes(p, 5, 0, 1, TWO32);
    if GetVarint32(p).Parsed? {
      var p1 := GetVarint32(p).rest;
      VarintConsumes(p1, 5, 0, 1, TWO32);
      if GetVarint32(p1).Parsed? {
        VarintConsumes(GetVarint32(p1).rest, 5, 0, 1, TWO32);
      }
    }
  }

  lemma ParseEncoded(e: KV, shared: nat, rest: Bytes)
    requires shared <= |e.key| && |e.key| + |e.value| < TWO32
    ensures ParseEntry(EncodeEntry(e, shared) + rest) ==
            Decoded(shared, |e.key| - shared, |e.value|, e.key[shared..] + e.value + rest)
  {
    EncodedVarints(e, shared, e.key[shared..] + e.value + rest);
    ParseJoined(Varint(shared), Varint(|e.key| - shared), Varint(|e.value|), e.key[shared..], e.value, rest, shared,
        |e.key| - shared);
  }

  lemma ParseJoined(a: Bytes, b: Bytes, c: Bytes, k: Bytes, v: Bytes, rest: Bytes, shared: nat, nonShared: nat)
    requires |k| == nonShared && nonShared + |v| < TWO32
    requires GetVarint32(a + (b + (c + (k + v + rest)))) == Parsed(shared, b + (c + (k + v + rest)))
    requires GetVarint32(b + (c + (k + v + rest))) == Parsed(nonShared, c + (k + v + rest))
    requires GetVarint32(c + (k + v + rest)) == Parsed(|v|, k + v + rest)
    ensures ParseEntry(a + b + c + k + v + rest) == Decoded(shared, nonShared, |v|, k + v + rest)
  {
    var p3 := k + v + rest;
    assert (nonShared + |v|) % TWO32 <= |p3| by { ModSmall(nonShared + |v|); }
    ParseFits(a + (b + (c + p3)), shared, b + (c + p3), nonShared, c + p3, |v|, p3);
    JoinEntry(a, b, c, k, v, rest);
  }

  lemma ModSmall(n: nat)
    requires n < TWO32
    ensures n % TWO32 == n
  {
  }

  lemma ParseFits(p: Bytes, shared: nat, p1: Bytes, nonShared: nat, p2: Bytes, valueLength: nat, p3: Bytes)
    requires GetVarint32(p) == Parsed(shared, p1) && GetVarint32(p1) == Parsed(nonShared, p2)
    requires GetVarint32(p2) == Parsed(valueLength, p3)
    requires (nonShared + valueLength) % TWO32 <= |p3|
    ensures ParseEntry(p) == Decoded(shared, nonShared, valueLength, p3)
  {
    ParseSteps(p, shared, p1, nonShared, p2, valueLength, p3);
  }

  lemma EncodedVarints(e: KV, shared: nat, tail: Bytes)
    requires shared <= |e.key| && |e.key| + |e.value| < TWO32
    ensures var p2 := Varint(|e.value|) + tail;
            var p1 := Varint(|e.key| - shared) + p2;
            && GetVarint32(Varint(shared) + p1) == Parsed(shared, p1)
            && GetVarint32(p1) == Parsed(|e.key| - shared, p2) && GetVarint32(p2) == Parsed(|e.value|, tail)
  {
    var p2 := Varint(|e.value|) + tail;
    Varint32RoundTrip(shared, Varint(|e.key| - shared) + p2);
    Varint32RoundTrip(|e.key| - shared, p2);
    Varint32RoundTrip(|e.value|, tail);
  }

  lemma JoinEntry(a: Bytes, b: Bytes, c: Bytes, d: Bytes, e: Bytes, f: Bytes)
    ensures a + b + c + d + e + f == a + (b + (c + (d + e + f)))
  {
  }

  // ---------------------------------------------------------------------------
  // Reading
  // ---------------------------------------------------------------------------

  /** The bytes of a finished block and what they stand for; offsets fit in 32 bits. */
  ghost predicate Describes(l: Layout, offsets: seq<nat>, contents: Bytes) {
    && LayoutOk(l) && OffsetsOf(l, offsets) && contents == Encode(Data(l), offsets) && |contents| < TWO32
    && (forall i {:trigger Sized(l, i)} :: 0 <= i < |l.es| ==> Sized(l, i))
  }

  predicate Sized(l: Layout, i: nat)
    requires i < |l.es|
  {
    |l.es[i].key| + |l.es[i].value| < TWO32
  }

  /** Entry `i` is what decoding at its offset gives. */
  lemma EntryParses(l: Layout, i: nat)
    requires LayoutOk(l) && i < |l.es| && Sized(l, i)
    ensures SharedOk(l, i) && Offset(l, i) <= Offset(l, i + 1) <= |Data(l)|
    ensures var e := l.es[i];
            ParseEntry(Data(l)[Offset(l, i)..]) ==
              Decoded(l.shared[i], |e.key| - l.shared[i], |e.value|, e.key[l.shared[i]..] + e.value
                  + Data(l)[Offset(l, i + 1)..])
  {
    EntryBytes(l, i);
    SplitSlice(Data(l), Offset(l, i), Offset(l, i + 1));
    ParseEncoded(l.es[i], l.shared[i], Data(l)[Offset(l, i + 1)..]);
  }

  lemma SplitSlice(d: Bytes, m: nat, n: nat)
    requires m <= n <= |d|
    ensures d[m..] == d[m..n] + d[n..]
  {
  }

  lemma RestartAt(l: Layout, offsets: seq<nat>, contents: Bytes, j: nat)
    requires Describes(l, offsets, contents) && j < |offsets|
    ensures |Data(l)| + 4 * j + 4 <= |contents|
    ensures OffsetIs(l, offsets, j) && RestartOk(l, j)
    ensures DecodeFixed32(contents[|Data(l)| + 4 * j..]) == Offset(l, l.restarts[j])
  {
    RestartArrayAt(offsets, |offsets|, j);
    var points := RestartArray(offsets, |offsets|);
    var at := |Data(l)| + 4 * j;
    assert contents[at..][..4] == contents[at..at + 4] == points[4 * j..4 * j + 4];
    assert OffsetIs(l, offsets, j) && RestartOk(l, j);
    DataPrefix(l, l.restarts[j], |l.es|);
    Fixed32RoundTrip(offsets[j], []);
    assert EncodeFixed32(offsets[j]) + [] == EncodeFixed32(offsets[j]);
  }

  /** The last four bytes say how many restart points there are, and so where their array begins. */
  lemma TrailerParses(l: Layout, offsets: seq<nat>, contents: Bytes)
    requires Describes(l, offsets, contents)
    ensures |contents| >= 4 && DecodeFixed32(contents[|contents| - 4..]) == |offsets|
    ensures |contents| - (1 + |offsets|) * 4 == |Data(l)|
  {
    RestartArrayLength(offsets, |offsets|);
    Fixed32RoundTrip(|offsets|, []);
    assert contents[|contents| - 4..] == EncodeFixed32(|offsets|) + [];
  }

  /** What the cursor needs of a block's bytes: entry `i` starts at `starts[i]` and decodes to what the layout
      says, and the restart array points to the restart points. */
  ghost predicate Readable(l: Layout, starts: seq<nat>, contents: Bytes, restartsAt: nat, numRestarts: nat) {
    && |l.es| == |l.shared| && |starts| == |l.es| + 1 && restartsAt == starts[|l.es|] <= |contents|
    && numRestarts == |l.restarts| > 0 && l.restarts[0] == 0
    && (forall i {:trigger SharedOk(l, i)} :: 0 <= i < |l.es| ==> SharedOk(l, i))
    && (forall i, j {:trigger Increasing(starts, i, j)} :: 0 <= i < j < |starts| ==> Increasing(starts, i, j))
    && (forall i {:trigger EntryReads(l, starts, contents, i)} ::
        0 <= i < |l.es| ==> EntryReads(l, starts, contents, i))
    && (forall j {:trigger RestartOk(l, j)} :: 0 <= j < |l.restarts| ==> RestartOk(l, j))
    && (forall j, k {:trigger Increasing(l.restarts, j, k)} ::
        0 <= j < k < |l.restarts| ==> Increasing(l.restarts, j, k))
    && (forall j {:trigger RestartReads(l, starts, contents, j)} ::
        0 <= j < numRestarts ==> RestartReads(l, starts, contents, j))
  }

  predicate EntryReads(l: Layout, starts: seq<nat>, contents: Bytes, i: nat)
    requires i < |l.es| == |l.shared| && |starts| == |l.es| + 1
  {
    && starts[i] <= starts[|l.es|] <= |contents|
    && FieldsAre(ParseEntry(contents[starts[i]..starts[|l.es|]]), l.es[i], l.shared[i],
        starts[|l.es|] as int - starts[i + 1])
  }

  /** A decoded entry with its fields, and how much follows them. */
  predicate FieldsAre(d: Decoded, e: KV, shared: nat, after: int) {
    && d.Decoded? && d.shared == shared <= |e.key| && d.nonShared == |e.key| - shared && d.valueLength == |e.value|
    && |d.rest| == |e.key| - shared + |e.value| + after && after >= 0
    && d.rest[..|e.key| - shared + |e.value|] == e.key[shared..] + e.value
  }

  predicate RestartReads(l: Layout, starts: seq<nat>, contents: Bytes, j: nat)
    requires j < |l.restarts| && |starts| == |l.es| + 1
  {
    var at := starts[|l.es|] + 4 * j;
    && at + 4 <= |contents| && l.restarts[j] <= |l.es|
    && DecodeFixed32(contents[at..]) == starts[l.restarts[j]]
  }

  ghost function Starts(l: Layout): (starts: seq<nat>)
    requires LayoutOk(l)
    ensures |starts| == |l.es| + 1 && forall i :: 0 <= i <= |l.es| ==> starts[i] == Offset(l, i)
  {
    seq(|l.es| + 1, i requires 0 <= i <= |l.es| => Offset(l, i))
  }

  lemma EntryIsReadable(l: Layout, offsets: seq<nat>, contents: Bytes, i: nat)
    requires Describes(l, offsets, contents) && i < |l.es|
    ensures EntryReads(l, Starts(l), contents, i)
  {
    assert Sized(l, i);
    EntryParses(l, i);
    var e, shared, after := l.es[i], l.shared[i], Data(l)[Offset(l, i + 1)..];
    var n := |Data(l)|;
    assert contents[..n] == Data(l);
    assert contents[Offset(l, i)..n] == contents[..n][Offset(l, i)..];
    assert (e.key[shared..] + e.value + after)[..|e.key| - shared + |e.value|] == e.key[shared..] + e.value;
  }

  lemma EncodedIsReadable(l: Layout, offsets: seq<nat>, contents: Bytes)
    requires Describes(l, offsets, contents)
    ensures Readable(l, Starts(l), contents, |Data(l)|, |offsets|)
  {
    var starts := Starts(l);
    forall i | 0 <= i < |l.es| ensures EntryReads(l, starts, contents, i) {
      EntryIsReadable(l, offsets, contents, i);
    }
    forall j | 0 <= j < |offsets| ensures RestartReads(l, starts, contents, j) {
      RestartAt(l, offsets, contents, j);
    }
    forall i, j | 0 <= i < j < |starts| ensures Increasing(starts, i, j) {
      OffsetsAscend(l, i, j);
    }
    RestartArrayLength(offsets, |offsets|);
  }

  /** In a list that increases, order of positions is order of values. */
  lemma InOrder(s: seq<nat>, j: nat, k: nat)
    requires j < |s| && k < |s|
    requires forall i, m {:trigger Increasing(s, i, m)} :: 0 <= i < m < |s| ==> Increasing(s, i, m)
    ensures s[j] < s[k] <==> j < k
  {
    assert j < k ==> Increasing(s, j, k);
    assert k < j ==> Increasing(s, k, j);
  }

  ghost predicate SortedBy(l: Layout, rank: Bytes -> real) {
    forall i, j {:trigger Before(l, rank, i, j)} :: 0 <= i < j < |l.es| ==> Before(l, rank, i, j)
  }

  predicate Before(l: Layout, rank: Bytes -> real, i: nat, j: nat)
    requires i < |l.es| && j < |l.es|
  {
    rank(l.es[i].key) < rank(l.es[j].key)
  }

  class Iter {
    const rank: Bytes -> real
    const data: Bytes
    const restartsAt: nat
    const numRestarts: nat
    var current: nat
    var restartIndex: nat
    var key: Bytes
    var valueAt: nat
    var value: Bytes
    ghost const l: Layout
    ghost const starts: seq<nat>
    /** The entry the cursor is on; past the end when it is not valid. */
    ghost var at: nat

    /** Block::Block and Block::NewIterator. */
    constructor (rank: Bytes -> real, contents: Bytes, ghost l: Layout, ghost offsets: seq<nat>)
      requires Describes(l, offsets, contents)
      ensures Valid() && at == |l.es| && this.l == l && this.rank == rank
    {
      TrailerParses(l, offsets, contents);
      EncodedIsReadable(l, offsets, contents);
      this.rank, data, this.l, starts := rank, contents, l, Starts(l);
      var n := DecodeFixed32(contents[|contents| - 4..]);
      numRestarts := n;
      restartsAt := |contents| - (1 + n) * 4;
      current, restartIndex := |contents| - (1 + n) * 4, n;
      key, valueAt, value, at := [], 0, [], |l.es|;
    }

    ghost predicate WellFormed() {
      Readable(l, starts, data, restartsAt, numRestarts)
    }

    function NextEntryOffset(): nat
      reads this
    {
      valueAt + |value|
    }

    ghost predicate Valid()
      reads this
    {
      && WellFormed() && at <= |l.es|
      && (if at == |l.es| then current == restartsAt else
            && current == starts[at] && key == l.es[at].key && value == l.es[at].value
            && NextEntryOffset() == starts[at + 1] && NearRestart(at))
    }

    /** The restart index is that of the last restart point before the entry, or at it. */
    ghost predicate NearRestart(i: nat)
      reads this
    {
      && restartIndex < |l.restarts| && l.restarts[restartIndex] <= i
      && (restartIndex + 1 < |l.restarts| ==> i <= l.restarts[restartIndex + 1])
    }

    /** The next thing to parse is entry `i`, and enough of its key is known. */
    ghost predicate Ready(i: nat)
      reads this
    {
      && WellFormed() && i <= |l.es| && NextEntryOffset() == starts[i]
      && (i < |l.es| ==>
           && SharedOk(l, i) && l.shared[i] <= |key| && key[..l.shared[i]] == l.es[i].key[..l.shared[i]]
           && restartIndex < |l.restarts| && l.restarts[restartIndex] <= i)
    }

    function GetRestartPoint(index: nat): (offset: nat)
      requires WellFormed() && index < numRestarts
      ensures index < |l.restarts| && l.restarts[index] <= |l.es| && offset == starts[l.restarts[index]]
    {
      assert RestartReads(l, starts, data, index);
      DecodeFixed32(data[restartsAt + 4 * index..])
    }

    method SeekToRestartPoint(index: nat)
      requires WellFormed() && index < numRestarts
      modifies this
      ensures Ready(l.restarts[index]) && restartIndex == index && at == old(at) && current == old(current)
    {
      assert RestartOk(l, index);
      key, restartIndex := [], index;
      valueAt, value := GetRestartPoint(index), [];
      assert l.restarts[index] < |l.es| ==> SharedOk(l, l.restarts[index]);
    }

    /** Moves to entry `i`, or past the end. */
    method ParseNextKey(ghost i: nat) returns (ok: bool)
      requires Ready(i)
      modifies this
      ensures Valid() && at == i && (ok <==> i < |l.es|) && (ok ==> restartIndex >= old(restartIndex))
    {
      current := NextEntryOffset();
      InOrder(starts, i, |l.es|);
      if current >= restartsAt {
        current, restartIndex, at := restartsAt, numRestarts, i;
        return false;
      }
      assert EntryReads(l, starts, data, i);
      var start;
      key, start, value := ParseFields(data[current..restartsAt], key, l.es[i], l.shared[i],
          restartsAt as int - starts[i + 1]);
      valueAt := current + start;
      at := i;
      ok := true;
      AdvanceRestart();
    }

    method AdvanceRestart()
      requires WellFormed() && at < |l.es| && current == starts[at]
      requires restartIndex < |l.restarts| && l.restarts[restartIndex] <= at
      modifies `restartIndex
      ensures NearRestart(at) && restartIndex >= old(restartIndex)
    {
      while restartIndex + 1 < numRestarts && GetRestartPoint(restartIndex + 1) < current
        invariant old(restartIndex) <= restartIndex < |l.restarts| && l.restarts[restartIndex] <= at
        decreases |l.restarts| - restartIndex
      {
        InOrder(starts, l.restarts[restartIndex + 1], at);
        restartIndex := restartIndex + 1;
      }
      if restartIndex + 1 < numRestarts {
        InOrder(starts, l.restarts[restartIndex + 1], at);
      }
    }

    /** Standing on an entry, the next one can be parsed. */
    lemma ReadyForNext()
      requires Valid() && at < |l.es|
      ensures Ready(at + 1)
    {
      if at + 1 < |l.es| {
        assert SharedOk(l, at + 1);
      }
    }

    /** The cursor is valid exactly when it is before the restart array. */
    lemma InOrderAt()
      requires Valid()
      ensures current < restartsAt <==> at < |l.es|
    {
      InOrder(starts, at, |l.es|);
    }

    method Next()
      requires Valid() && at < |l.es|
      modifies this
      ensures Valid() && at == old(at) + 1
    {
      ReadyForNext();
      var ok := ParseNextKey(at + 1);
    }

    /** The cursor goes to the entry before, or off the front. */
    method Prev()
      requires Valid() && at < |l.es|
      modifies this
      ensures Valid() && at == if old(at) == 0 then |l.es| else old(at) - 1
    {
      ghost var from := at;
      var original := current;
      while GetRestartPoint(restartIndex) >= original
        invariant Valid() && restartIndex < numRestarts && at == from < |l.es| && current == original
        invariant l.restarts[restartIndex] <= from
        decreases restartIndex
      {
        InOrder(starts, l.restarts[restartIndex], from);
        if restartIndex == 0 {
          current, restartIndex, at := restartsAt, numRestarts, |l.es|;
          return;
        }
        InOrder(l.restarts, restartIndex - 1, restartIndex);
        restartIndex := restartIndex - 1;
      }
      InOrder(starts, l.restarts[restartIndex], from);
      SeekToRestartPoint(restartIndex);
      ScanTo(original, from - 1);
    }

    /** Parses on until the entry that ends at `stop`. */
    method ScanTo(stop: nat, ghost last: nat)
      requires last < |l.es| && restartIndex < |l.restarts| && l.restarts[restartIndex] <= last
      requires Ready(l.restarts[restartIndex]) && stop == starts[last + 1]
      modifies this
      ensures Valid() && at == last
    {
      ghost var i := l.restarts[restartIndex];
      var ok := ParseNextKey(i);
      while ok && NextEntryOffset() < stop
        invariant Valid() && ok && at == i <= last
        decreases last - i
      {
        InOrder(starts, i + 1, last + 1);
        ReadyForNext();
        i := i + 1;
        ok := ParseNextKey(i);
      }
      InOrder(starts, at + 1, last + 1);
    }

    method SeekToFirst()
      requires WellFormed()
      modifies this
      ensures Valid() && at == 0
    {
      SeekToRestartPoint(0);
      var ok := ParseNextKey(0);
    }

    method SeekToLast()
      requires WellFormed()
      modifies this
      ensures Valid() && at == if l.es == [] then 0 else |l.es| - 1
    {
      SeekToRestartPoint(numRestarts - 1);
      if l.es != [] {
        assert RestartOk(l, numRestarts - 1);
      }
      ScanToEnd();
    }

    method ScanToEnd()
      requires restartIndex < |l.restarts| && l.restarts[restartIndex] <= |l.es| && Ready(l.restarts[restartIndex])
      requires l.restarts[restartIndex] < |l.es| || l.es == []
      modifies this
      ensures Valid() && at == if l.es == [] then 0 else |l.es| - 1
    {
      ghost var i := l.restarts[restartIndex];
      var ok := ParseNextKey(i);
      while ok && NextEntryOffset() < restartsAt
        invariant Valid() && at == i && (ok <==> i < |l.es|) && (l.es != [] ==> ok)
        decreases |l.es| - i
      {
        InOrder(starts, i + 1, |l.es|);
        ReadyForNext();
        i := i + 1;
        ok := ParseNextKey(i);
      }
      if ok {
        InOrder(starts, at + 1, |l.es|);
      }
    }

    /** The first entry whose key is at or after the target: a binary search over the restart points finds
        the stretch, a scan finds the entry. */
    method Seek(target: Bytes)
      requires WellFormed() && SortedBy(l, rank)
      modifies this
      ensures Valid()
      ensures forall i :: 0 <= i < at ==> rank(l.es[i].key) < rank(target)
      ensures at < |l.es| ==> rank(l.es[at].key) >= rank(target)
    {
      var left := SearchRestarts(target);
      SeekToRestartPoint(left);
      ScanForKey(target);
    }

    /** The last restart point with a key before the target, or the first of all. */
    method SearchRestarts(target: Bytes) returns (left: nat)
      requires WellFormed() && SortedBy(l, rank)
      ensures left < |l.restarts|
      ensures left > 0 ==> l.restarts[left] < |l.es| && rank(l.es[l.restarts[left]].key) < rank(target)
    {
      left := 0;
      var right := numRestarts - 1;
      while left < right
        invariant 0 <= left <= right < numRestarts
        invariant left > 0 ==> l.restarts[left] < |l.es| && rank(l.es[l.restarts[left]].key) < rank(target)
        decreases right - left
      {
        var mid := (left + right + 1) / 2;
        var midKey := KeyAtRestart(mid);
        if rank(midKey) < rank(target) {
          left := mid;
        } else {
          right := mid - 1;
        }
      }
    }

    /** The key at a restart point is stored whole. */
    method KeyAtRestart(mid: nat) returns (midKey: Bytes)
      requires WellFormed() && 0 < mid < |l.restarts|
      ensures l.restarts[mid] < |l.es| && midKey == l.es[l.restarts[mid]].key
    {
      ghost var i := l.restarts[mid];
      assert RestartOk(l, mid);
      InOrder(l.restarts, 0, mid);
      assert SharedOk(l, i);
      var offset := GetRestartPoint(mid);
      assert EntryReads(l, starts, data, i);
      var d := DecodeEntry(data[offset..restartsAt]);
      Reassemble(l.es[i], 0, [], d.rest);
      assert [] + d.rest[..d.nonShared] == d.rest[..d.nonShared];
      midKey := d.rest[..d.nonShared];
    }

    method ScanForKey(target: Bytes)
      requires SortedBy(l, rank) && restartIndex < |l.restarts| && l.restarts[restartIndex] <= |l.es|
          && Ready(l.restarts[restartIndex])
      requires restartIndex > 0 ==>
          l.restarts[restartIndex] < |l.es| && rank(l.es[l.restarts[restartIndex]].key) < rank(target)
      modifies this
      ensures Valid()
      ensures forall i :: 0 <= i < at ==> rank(l.es[i].key) < rank(target)
      ensures at < |l.es| ==> rank(l.es[at].key) >= rank(target)
    {
      ghost var i := l.restarts[restartIndex];
      EarlierKeys(l, rank, target, restartIndex);
      while true
        invariant i <= |l.es| && Ready(i)
        invariant forall k :: 0 <= k < i ==> rank(l.es[k].key) < rank(target)
        decreases |l.es| - i
      {
        var ok := ParseNextKey(i);
        if !ok || rank(key) >= rank(target) {
          return;
        }
        ReadyForNext();
        i := i + 1;
      }
    }
  }

  /** Everything before a restart point whose key is before the target is before the target too. */
  lemma EarlierKeys(l: Layout, rank: Bytes -> real, target: Bytes, j: nat)
    requires SortedBy(l, rank) && j < |l.restarts| && l.restarts[j] <= |l.es| && l.restarts[0] == 0
    requires j > 0 ==> l.restarts[j] < |l.es| && rank(l.es[l.restarts[j]].key) < rank(target)
    ensures forall k :: 0 <= k < l.restarts[j] ==> rank(l.es[k].key) < rank(target)
  {
    forall k | 0 <= k < l.restarts[j] ensures rank(l.es[k].key) < rank(target) {
      assert Before(l, rank, k, l.restarts[j]);
    }
  }

  /** The fields of an entry at the start of `p`: its key, given the one before, and where its value is. */
  method ParseFields(p: Bytes, key: Bytes, ghost e: KV, ghost sharing: nat, ghost after: int)
      returns (key': Bytes, valueAt: nat, value: Bytes)
    requires FieldsAre(ParseEntry(p), e, sharing, after)
    requires sharing <= |key| && key[..sharing] == e.key[..sharing]
    ensures key' == e.key && value == e.value && valueAt + |value| == |p| - after
  {
    var d := DecodeEntry(p);
    var Decoded(shared, nonShared, valueLength, rest) := d;
    Reassemble(e, sharing, key, rest);
    ParseConsumes(p);
    key' := key[..shared] + rest[..nonShared];
    valueAt := |p| - |rest| + nonShared;
    value := rest[nonShared..nonShared + valueLength];
  }

  lemma ParseConsumes(p: Bytes)
    ensures ParseEntry(p).Decoded? ==> |ParseEntry(p).rest| <= |p|
  {
    VarintConsumes(p, 5, 0, 1, TWO32);
    if GetVarint32(p).Parsed? {
      var p1 := GetVarint32(p).rest;
      VarintConsumes(p1, 5, 0, 1, TWO32);
      if GetVarint32(p1).Parsed? {
        VarintConsumes(GetVarint32(p1).rest, 5, 0, 1, TWO32);
      }
    }
  }

  lemma Reassemble(e: KV, shared: nat, known: Bytes, rest: Bytes)
    requires shared <= |e.key| && shared <= |known| && known[..shared] == e.key[..shared]
    requires |rest| >= |e.key| - shared + |e.value|
    requires rest[..|e.key| - shared + |e.value|] == e.key[shared..] + e.value
    ensures known[..shared] + rest[..|e.key| - shared] == e.key
    ensures rest[|e.key| - shared..|e.key| - shared + |e.value|] == e.value
  {
  }

  // ---------------------------------------------------------------------------
  // Round trip
  // ---------------------------------------------------------------------------

  /** A block built from a list of entries describes exactly that list. */
  method Build(es: seq<KV>, interval: nat) returns (block: Bytes, ghost l: Layout, ghost offsets: seq<nat>)
    requires interval >= 1
    ensures l.es == es && LayoutOk(l) && OffsetsOf(l, offsets) && block == Encode(Data(l), offsets)
    ensures Elides(l) && exists counter :: Spaced(l, counter, interval)
  {
    var builder := new BlockBuilder(interval);
    for i := 0 to |es|
      invariant builder.Valid() && !builder.finished && builder.l.es == es[..i] && fresh(builder)
    {
      builder.Add(es[i].key, es[i].value);
    }
    block := builder.Finish();
    l, offsets := builder.l, builder.restarts;
    assert Spaced(l, builder.counter, interval);
    assert es[..|es|] == es;
  }

  /** Going through a block from the front gives its entries, in order. */
  method Scan(it: Iter) returns (out: seq<KV>)
    requires it.WellFormed()
    modifies it
    ensures out == it.l.es
  {
    out := [];
    it.SeekToFirst();
    while it.current < it.restartsAt
      invariant it.Valid() && out == it.l.es[..it.at]
      decreases |it.l.es| - it.at
    {
      it.InOrderAt();
      out := out + [KV(it.key, it.value)];
      it.Next();
    }
    it.InOrderAt();
  }
}
