/** Decoding the encoding of a message gives the message back. */
module PbRoundTrip {
  import opened DbFormat
  import opened Bits
  import opened Coding
  import opened PbCommon
  import opened PbEncode
  import opened PbDecode

  // ---------------------------------------------------------------------------
  // Varints
  // ---------------------------------------------------------------------------

  lemma Powers2()
    ensures Power2(7) == 0x80 && Power2(14) == 0x4000 && Power2(21) == 0x20_0000 && Power2(28) == 0x1000_0000
  {
    assert Power2(4) == 16;
    assert Power2(7) == 128;
    assert Power2(11) == 2048;
    assert Power2(14) == 16384;
    assert Power2(18) == 262144;
    assert Power2(21) == 2097152;
    assert Power2(25) == 33554432;
  }

  lemma SmallMod(n: int)
    requires 0 <= n < TWO32
    ensures n % TWO32 == n
  {
  }

  lemma GroupFits(result: nat, b: Byte, bitpos: nat)
    requires result < Power2(bitpos) && result + b % 128 * Power2(bitpos) < TWO32
    ensures OrGroup(result, b, bitpos) == result + b % 128 * Power2(bitpos)
  {
    SmallMod(b % 128 * Power2(bitpos));
    OrOfDisjoint(result, b % 128, bitpos);
  }

  lemma MoreStep(p: Bytes, result: nat, bitpos: nat, scale: nat)
    requires p != [] && p[0] >= 128 && bitpos < 32
    requires result < scale == Power2(bitpos) && result + p[0] % 128 * scale < TWO32
    ensures MoreVarint32(p, result, bitpos) == MoreVarint32(p[1..], result + p[0] % 128 * scale, bitpos + 7)
  {
    GroupFits(result, p[0], bitpos);
  }

  lemma MoreLast(p: Bytes, result: nat, bitpos: nat, scale: nat, sum: nat)
    requires p != [] && p[0] < 128 && bitpos < 32
    requires result < scale == Power2(bitpos) && sum == result + p[0] * scale < TWO32
    requires bitpos == 28 ==> p[0] < 16
    ensures MoreVarint32(p, result, bitpos) == Parsed(sum, p[1..])
  {
    GroupFits(result, p[0], bitpos);
  }

  /** The first byte of a varint and what follows it. */
  lemma Head(v: nat, rest: Bytes)
    ensures var p := Varint(v) + rest;
      if v < 128 then p[0] == v && p[1..] == rest
      else p[0] == v % 128 + 128 && p[0] % 128 == v % 128 && p[1..] == Varint(v / 128) + rest
  {
    if v < 128 {
      Cons(v, [], rest);
      assert [v] + [] == [v] && [] + rest == rest;
    } else {
      Cons(v % 128 + 128, Varint(v / 128), rest);
    }
  }

  lemma Cons(b: Byte, tail: Bytes, rest: Bytes)
    ensures var p := [b] + tail + rest; p[0] == b && p[1..] == tail + rest
  {
  }

  lemma Inverse28(v: nat, rest: Bytes, result: nat)
    requires v < 0x10 && result < 0x1000_0000
    ensures MoreVarint32(Varint(v) + rest, result, 28) == Parsed(result + v * 0x1000_0000, rest)
  {
    Powers2();
    Head(v, rest);
    MoreLast(Varint(v) + rest, result, 28, 0x1000_0000, result + v * 0x1000_0000);
  }

  lemma Inverse21(v: nat, rest: Bytes, result: nat)
    requires v < 0x800 && result < 0x20_0000
    ensures MoreVarint32(Varint(v) + rest, result, 21) == Parsed(result + v * 0x20_0000, rest)
  {
    Powers2();
    Head(v, rest);
    if v < 128 {
      MoreLast(Varint(v) + rest, result, 21, 0x20_0000, result + v * 0x20_0000);
    } else {
      MoreStep(Varint(v) + rest, result, 21, 0x20_0000);
      Inverse28(v / 128, rest, result + v % 128 * 0x20_0000);
    }
  }

  lemma Inverse14(v: nat, rest: Bytes, result: nat)
    requires v < 0x4_0000 && result < 0x4000
    ensures MoreVarint32(Varint(v) + rest, result, 14) == Parsed(result + v * 0x4000, rest)
  {
    Powers2();
    Head(v, rest);
    if v < 128 {
      MoreLast(Varint(v) + rest, result, 14, 0x4000, result + v * 0x4000);
    } else {
      MoreStep(Varint(v) + rest, result, 14, 0x4000);
      Inverse21(v / 128, rest, result + v % 128 * 0x4000);
    }
  }

  lemma Inverse7(v: nat, rest: Bytes, result: nat)
    requires v < 0x200_0000 && result < 0x80
    ensures MoreVarint32(Varint(v) + rest, result, 7) == Parsed(result + v * 0x80, rest)
  {
    Powers2();
    Head(v, rest);
    if v < 128 {
      MoreLast(Varint(v) + rest, result, 7, 0x80, result + v * 0x80);
    } else {
      MoreStep(Varint(v) + rest, result, 7, 0x80);
      Inverse14(v / 128, rest, result + v % 128 * 0x80);
    }
  }

  lemma Varint32Exact(v: nat, rest: Bytes)
    requires v < TWO32
    ensures ReadVarint32(Varint(v) + rest) == Parsed(v, rest)
  {
    Head(v, rest);
    if v >= 128 {
      Inverse7(v / 128, rest, v % 128);
    }
  }

  /** A length-prefixed string is read back. */
  lemma PrefixedExact(s: Bytes, rest: Bytes)
    requires |s| < TWO32
    ensures ReadVarint32(LengthPrefixed(s) + rest) == Parsed(|s|, s + rest)
    ensures (s + rest)[..|s|] == s && (s + rest)[|s|..] == rest
  {
    Regroup(Varint(|s|), s, rest);
    Varint32Exact(|s|, s + rest);
    SplitBack(s, rest);
  }

  // ---------------------------------------------------------------------------
  // Scalars
  // ---------------------------------------------------------------------------

  lemma ZigZagInverse(n: int)
    ensures UnZigZag(ZigZag(n)) == n
  {
  }

  lemma SignedInverse(w: Width, n: int)
    requires InSigned(w, n)
    ensures -(TWO64 / 2) <= n < TWO64 / 2 && ZigZag(n) < TWO64
    ensures LowSigned(w, Unsigned64(n)) == n
  {
    if w != W64 {
      LowWord(n);
    }
  }

  lemma LowWord(n: int)
    requires -(TWO32 / 2) <= n < TWO32 / 2
    ensures Unsigned64(n) % TWO32 == if n < 0 then n + TWO32 else n
  {
    assert n < 0 ==> n + TWO64 == (TWO32 - 1) * TWO32 + (n + TWO32);
  }

  lemma {:induction false} NulFreeString(b: Bytes)
    requires NulFree(b)
    ensures UpToNul(b) == b
    decreases |b|
  {
    if b != [] {
      assert b[0] in b && NulFree(b[1..]);
      NulFreeString(b[1..]);
    }
  }

  lemma NumberExact(l: LType, v: Datum, rest: Bytes)
    requires l.Bool? || l.VarInt? || l.UVarInt? || l.SVarInt?
    requires Stored(l, v)
    ensures DecodeScalar(l, EncodeDatum(l, v).value + rest) == Got(v, rest)
  {
    match l
    case Bool => Varint32Exact(v.n, rest);
    case VarInt(w) => SignedExact(w, v.n, rest);
    case UVarInt(w) => Varint64RoundTrip(v.n, rest);
    case SVarInt(w) => ZigZagExact(w, v.n, rest);
  }

  lemma SignedExact(w: Width, n: int, rest: Bytes)
    requires InSigned(w, n)
    ensures -(TWO64 / 2) <= n < TWO64 / 2
    ensures DecodeVarInt(w, Varint(Unsigned64(n)) + rest) == Got(Num(n), rest)
  {
    SignedInverse(w, n);
    Varint64RoundTrip(Unsigned64(n), rest);
  }

  lemma ZigZagExact(w: Width, n: int, rest: Bytes)
    requires InSigned(w, n)
    ensures DecodeSVarInt(w, Varint(ZigZag(n)) + rest) == Got(Num(n), rest)
  {
    SignedInverse(w, n);
    Varint64RoundTrip(ZigZag(n), rest);
    ZigZagInverse(n);
  }

  lemma FixedExact(n: nat, v: nat, rest: Bytes)
    requires v < Power256(n)
    ensures DecodeFixed(n, Fixed(v, n) + rest) == Got(Num(v), rest)
  {
    SplitBack(Fixed(v, n), rest);
    FixedRoundTrip(v, n);
  }

  lemma ScalarExact(l: LType, v: Datum, rest: Bytes)
    requires !l.Submessage? && Stored(l, v) && InBounds(l, v)
    ensures EncodeDatum(l, v).Some?
    ensures |EncodeDatum(l, v).value| < TWO32 ==> DecodeScalar(l, EncodeDatum(l, v).value + rest) == Got(v, rest)
  {
    match l
    case Fixed32 =>
      Powers();
      FixedExact(4, v.n, rest);
    case Fixed64 =>
      Powers();
      FixedExact(8, v.n, rest);
    case BytesArray(_) => StringExact(v.bytes, rest);
    case CString(_) =>
      NulFreeString(v.bytes);
      StringExact(v.bytes, rest);
    case FixedLengthBytes(_) => StringExact(v.bytes, rest);
    case _ => NumberExact(l, v, rest);
  }

  lemma StringExact(b: Bytes, rest: Bytes)
    ensures |LengthPrefixed(b)| < TWO32 ==>
      && ReadVarint32(LengthPrefixed(b) + rest) == Parsed(|b|, b + rest)
      && (b + rest)[..|b|] == b && (b + rest)[|b|..] == rest
  {
    if |LengthPrefixed(b)| < TWO32 {
      PrefixedExact(b, rest);
    }
  }

  /** A packable value takes at least one byte. */
  lemma PackableNotEmpty(l: LType, v: Datum)
    requires Packable(l) && Stored(l, v)
    ensures EncodeDatum(l, v).Some? && EncodeDatum(l, v).value != []
  {
  }

  // ---------------------------------------------------------------------------
  // One field
  // ---------------------------------------------------------------------------

  lemma {:induction false} FieldIndexIs(fields: seq<Field>, i: nat, n: nat)
    requires i < n <= |fields| && DistinctTags(fields)
    ensures FieldIndex(fields, fields[i].tag, n) == Some(i)
  {
    if i < n - 1 {
      FieldIndexIs(fields, i, n - 1);
    }
  }

  /** Decoding takes a field's tag, then what follows it as that field. */
  lemma TakeField(l: LType, i: nat, wire: nat, body: Bytes, rest: Bytes, st: State, slot: Slot)
    requires l.Submessage? && DistinctTags(l.fields) && i < |l.fields| == |st.slots| && wire < 8
    requires DecodeSlot(l.fields[i], wire, st.slots[i], body + rest) == GotSlot(slot, rest)
    ensures DecodeFields(l, EncodeTag(wire, l.fields[i].tag) + body + rest, st)
         == DecodeFields(l, rest, State(SetSlot(l.fields, st.slots, i, slot), Seen(l.fields, i, st.seen)))
  {
    Regroup(EncodeTag(wire, l.fields[i].tag), body, rest);
    TagExact(wire, l.fields[i].tag, body + rest);
    FieldIndexIs(l.fields, i, |l.fields|);
  }

  lemma TagExact(wire: nat, tag: nat, rest: Bytes)
    requires 0 < tag < 0x2000_0000 && wire < 8
    ensures EncodeTag(wire, tag) + rest != [] && ReadTag(EncodeTag(wire, tag) + rest) == TagIs(tag, wire, rest)
  {
    Varint32Exact(tag * 8 + wire, rest);
  }

  /** The slots when the fields before the i-th are done and the i-th holds `slot`. */
  function Midway(l: LType, slots: seq<Slot>, i: nat, slot: Slot): (r: seq<Slot>)
    requires l.Submessage? && i < |slots| == |l.fields|
    ensures |r| == |slots|
  {
    slots[..i] + [slot] + DefaultSlots(l, |l.fields|)[i + 1..]
  }

  lemma SetMidway(l: LType, slots: seq<Slot>, i: nat, before: Slot, after: Slot)
    requires l.Submessage? && i < |slots| == |l.fields| && Exclusive(l.fields, slots)
    requires l.fields[i].htype.OneOf? ==> slots[i] != []
    ensures SetSlot(l.fields, Midway(l, slots, i, before), i, after) == Midway(l, slots, i, after)
  {
    var a, b := SetSlot(l.fields, Midway(l, slots, i, before), i, after), Midway(l, slots, i, after);
    forall j | 0 <= j < |slots| ensures a[j] == b[j] {
      if j > i {
        assert b[j] == DefaultSlot(l.fields[j]);
      }
    }
  }

  /** The numbers of the tracked required fields among the first `i`. */
  function SeenBefore(fields: seq<Field>, i: nat): set<nat>
    requires i <= |fields|
  {
    if i == 0 then {} else Seen(fields, i - 1, SeenBefore(fields, i - 1))
  }

  lemma {:induction false} AllSeen(fields: seq<Field>, i: nat)
    requires i <= |fields|
    ensures NumbersSeen(SeenBefore(fields, i), CountRequired(fields, i))
  {
    if i > 0 {
      AllSeen(fields, i - 1);
    }
  }

  function StateAt(l: LType, slots: seq<Slot>, i: nat): (st: State)
    requires l.Submessage? && i <= |slots| == |l.fields|
    ensures |st.slots| == |slots|
  {
    State(slots[..i] + DefaultSlots(l, |l.fields|)[i..], SeenBefore(l.fields, i))
  }

  lemma StateBefore(l: LType, slots: seq<Slot>, i: nat)
    requires l.Submessage? && i < |slots| == |l.fields|
    ensures StateAt(l, slots, i).slots == Midway(l, slots, i, DefaultSlot(l.fields[i]))
    ensures StateAt(l, slots, i + 1).slots == Midway(l, slots, i, slots[i])
  {
    assert slots[..i + 1] == slots[..i] + [slots[i]];
    assert DefaultSlots(l, |l.fields|)[i..] == [DefaultSlot(l.fields[i])] + DefaultSlots(l, |l.fields|)[i + 1..];
  }

  // ---------------------------------------------------------------------------
  // Values, arrays and messages
  // ---------------------------------------------------------------------------

  /** The piece is encoded, small enough for its lengths to be read back. */
  predicate Small(e: Option<Bytes>) {
    e.Some? && |e.value| < TWO32
  }

  ghost predicate Good(l: LType, v: Datum) {
    GoodType(l) && Stored(l, v) && InBounds(l, v)
  }

  lemma DatumRoundTrip(l: LType, v: Datum, base: Datum, rest: Bytes)
    requires Good(l, v) && (l.Submessage? ==> base == Default(l)) && Small(EncodeDatum(l, v))
    ensures DecodeDatum(l, base, EncodeDatum(l, v).value + rest) == Got(v, rest)
    decreases l, 1, 0
  {
    if !l.Submessage? {
      ScalarExact(l, v, rest);
    } else {
      var e := EncodeFrom(l, v.slots, 0).value;
      PrefixedExact(e, rest);
      MessageRoundTrip(l, v.slots);
    }
  }

  lemma FirstState(l: LType, slots: seq<Slot>)
    requires l.Submessage? && |slots| == |l.fields|
    ensures StateAt(l, slots, 0) == State(DefaultSlots(l, |l.fields|), {})
  {
    var defaults := DefaultSlots(l, |l.fields|);
    assert slots[..0] + defaults[0..] == defaults;
  }

  lemma LastState(l: LType, slots: seq<Slot>)
    requires l.Submessage? && |slots| == |l.fields|
    ensures StateAt(l, slots, |l.fields|).slots == slots
  {
    assert slots[..|slots|] + DefaultSlots(l, |l.fields|)[|slots|..] == slots;
  }

  /** Decoding the encoding of a message into a message of defaults gives the message. */
  lemma MessageRoundTrip(l: LType, slots: seq<Slot>)
    requires l.Submessage? && Good(l, Message(slots)) && Small(EncodeFrom(l, slots, 0))
    ensures DecodeMessage(l, DefaultSlots(l, |l.fields|), EncodeFrom(l, slots, 0).value) == Some(slots)
    decreases l, 0, |l.fields| + 1
  {
    FirstState(l, slots);
    LastState(l, slots);
    AllSeen(l.fields, |l.fields|);
    FieldsRoundTrip(l, slots, 0);
  }

  lemma FieldsRoundTrip(l: LType, slots: seq<Slot>, i: nat)
    requires l.Submessage? && Good(l, Message(slots)) && i <= |l.fields| && Small(EncodeFrom(l, slots, i))
    ensures DecodeFields(l, EncodeFrom(l, slots, i).value, StateAt(l, slots, i)) == Some(StateAt(l, slots, |l.fields|))
    decreases l, 0, |l.fields| - i
  {
    if i < |l.fields| {
      var rest := EncodeFrom(l, slots, i + 1);
      SmallParts(EncodeSlot(l.fields[i], slots[i]), rest);
      SlotRoundTrip(l, slots, i, rest.value);
      FieldsRoundTrip(l, slots, i + 1);
    }
  }

  lemma SlotRoundTrip(l: LType, slots: seq<Slot>, i: nat, rest: Bytes)
    requires l.Submessage? && Good(l, Message(slots)) && i < |l.fields| && Small(EncodeSlot(l.fields[i], slots[i]))
    ensures DecodeFields(l, EncodeSlot(l.fields[i], slots[i]).value + rest, StateAt(l, slots, i))
        == DecodeFields(l, rest, StateAt(l, slots, i + 1))
    decreases l.fields[i].ltype, 6, 0
  {
    var f, slot := l.fields[i], slots[i];
    if slot == [] {
      AbsentRoundTrip(l, slots, i, rest);
    } else if !f.htype.Repeated? {
      SingleRoundTrip(l, slots, i, rest);
    } else if Packable(f.ltype) {
      PackedRoundTrip(l, slots, i, rest);
    } else {
      StateBefore(l, slots, i);
      assert SlotInBounds(f, slot) && slot[..0] == [];
      assert EncodeSlot(f, slot) == EncodeItems(f, slot, 0, true);
      UnpackedRoundTrip(l, slots, i, 0, rest);
    }
  }

  lemma AbsentRoundTrip(l: LType, slots: seq<Slot>, i: nat, rest: Bytes)
    requires l.Submessage? && i < |slots| == |l.fields| && StoredSlot(l.fields[i], slots[i]) && slots[i] == []
    ensures EncodeSlot(l.fields[i], slots[i]) == Some([]) && [] + rest == rest
    ensures StateAt(l, slots, i) == StateAt(l, slots, i + 1)
  {
    StateBefore(l, slots, i);
  }

  lemma SingleRoundTrip(l: LType, slots: seq<Slot>, i: nat, rest: Bytes)
    requires l.Submessage? && Good(l, Message(slots)) && i < |l.fields| && Small(EncodeSlot(l.fields[i], slots[i]))
    requires !l.fields[i].htype.Repeated? && slots[i] != []
    ensures DecodeFields(l, EncodeSlot(l.fields[i], slots[i]).value + rest, StateAt(l, slots, i))
        == DecodeFields(l, rest, StateAt(l, slots, i + 1))
    decreases l.fields[i].ltype, 5, 0
  {
    var f, v := l.fields[i], slots[i][0];
    var before := DefaultSlot(f);
    StateBefore(l, slots, i);
    assert StoredSlot(f, slots[i]) && SlotInBounds(f, slots[i]);
    assert slots[i] == [v];
    DatumRoundTrip(f.ltype, v, Default(f.ltype), rest);
    var base := if before == [] then Default(f.ltype) else before[0];
    assert base == Default(f.ltype);
    TakeField(l, i, WireType(f.ltype), EncodeDatum(f.ltype, v).value, rest, StateAt(l, slots, i), [v]);
    SetMidway(l, slots, i, before, [v]);
  }

  lemma ItemsPacked(f: Field, slot: Slot, k: nat)
    requires Packable(f.ltype) && f.htype.Repeated? && StoredSlot(f, slot) && SlotInBounds(f, slot) && k <= |slot|
    ensures EncodeItems(f, slot, k, false).Some?
    ensures Small(EncodeItems(f, slot, k, false)) ==>
        DecodePacked(f, EncodeItems(f, slot, k, false).value, slot[..k]) == Some(slot)
    decreases |slot| - k
  {
    if k == |slot| {
      assert slot[..k] == slot;
    } else {
      ItemsPacked(f, slot, k + 1);
      PackableNotEmpty(f.ltype, slot[k]);
      NextItem(f, slot, k);
      if Small(EncodeItems(f, slot, k, false)) {
        TakeItem(f, slot, k, EncodeItems(f, slot, k + 1, false).value);
      }
    }
  }

  lemma NextItem(f: Field, slot: Slot, k: nat)
    requires StoredSlot(f, slot) && k < |slot| && EncodeDatum(f.ltype, slot[k]).Some?
        && EncodeItems(f, slot, k + 1, false).Some?
    ensures EncodeItems(f, slot, k, false)
        == Some(EncodeDatum(f.ltype, slot[k]).value + EncodeItems(f, slot, k + 1, false).value)
  {
    NothingCat(EncodeDatum(f.ltype, slot[k]));
  }

  lemma TakeItem(f: Field, slot: Slot, k: nat, rest: Bytes)
    requires Packable(f.ltype) && f.htype.Repeated? && StoredSlot(f, slot) && SlotInBounds(f, slot) && k < |slot|
    requires Small(EncodeDatum(f.ltype, slot[k])) && EncodeDatum(f.ltype, slot[k]).value != []
    ensures DecodePacked(f, EncodeDatum(f.ltype, slot[k]).value + rest, slot[..k])
        == DecodePacked(f, rest, slot[..k + 1])
  {
    ScalarExact(f.ltype, slot[k], rest);
    assert slot[..k + 1] == slot[..k] + [slot[k]];
  }

  lemma PackedRoundTrip(l: LType, slots: seq<Slot>, i: nat, rest: Bytes)
    requires l.Submessage? && Good(l, Message(slots)) && i < |l.fields| && Small(EncodeSlot(l.fields[i], slots[i]))
    requires l.fields[i].htype.Repeated? && Packable(l.fields[i].ltype) && slots[i] != []
    ensures DecodeFields(l, EncodeSlot(l.fields[i], slots[i]).value + rest, StateAt(l, slots, i))
        == DecodeFields(l, rest, StateAt(l, slots, i + 1))
  {
    var f, slot := l.fields[i], slots[i];
    StateBefore(l, slots, i);
    assert StoredSlot(f, slot) && SlotInBounds(f, slot);
    ItemsPacked(f, slot, 0);
    assert slot[..0] == [];
    var items := EncodeItems(f, slot, 0, false).value;
    assert EncodeSlot(f, slot).value == EncodeTag(WT_STRING, f.tag) + LengthPrefixed(items);
    PrefixedExact(items, rest);
    TakeField(l, i, WT_STRING, LengthPrefixed(items), rest, StateAt(l, slots, i), slot);
    SetMidway(l, slots, i, [], slot);
  }

  lemma SmallParts(a: Option<Bytes>, b: Option<Bytes>)
    requires Small(Cat(a, b))
    ensures Small(a) && Small(b)
  {
  }

  /** One element behind its own tag. */
  lemma TakeUnpacked(l: LType, slots: seq<Slot>, i: nat, k: nat, rest: Bytes)
    requires l.Submessage? && Good(l, Message(slots)) && i < |l.fields| && k < |slots[i]|
    requires l.fields[i].htype.Repeated? && !Packable(l.fields[i].ltype) && StoredSlot(l.fields[i], slots[i])
    requires Small(Cat(Some(EncodeTag(WireType(l.fields[i].ltype), l.fields[i].tag)),
        EncodeDatum(l.fields[i].ltype, slots[i][k])))
    ensures
      var f, slot, seen := l.fields[i], slots[i], SeenBefore(l.fields, i);
      DecodeFields(l, EncodeTag(WireType(f.ltype), f.tag) + EncodeDatum(f.ltype, slot[k]).value + rest,
          State(Midway(l, slots, i, slot[..k]), seen))
      == DecodeFields(l, rest, State(Midway(l, slots, i, slot[..k + 1]), seen))
    decreases l.fields[i].ltype, 4, 0
  {
    var f, slot := l.fields[i], slots[i];
    assert SlotInBounds(f, slot);
    var item := EncodeDatum(f.ltype, slot[k]);
    DatumRoundTrip(f.ltype, slot[k], Default(f.ltype), rest);
    assert slot[..k] + [slot[k]] == slot[..k + 1];
    TakeField(l, i, WireType(f.ltype), item.value, rest, State(Midway(l, slots, i, slot[..k]), SeenBefore(l.fields, i)),
        slot[..k + 1]);
    SetMidway(l, slots, i, slot[..k], slot[..k + 1]);
  }

  lemma UnpackedRoundTrip(l: LType, slots: seq<Slot>, i: nat, k: nat, rest: Bytes)
    requires l.Submessage? && Good(l, Message(slots)) && i < |l.fields| && k <= |slots[i]|
    requires l.fields[i].htype.Repeated? && !Packable(l.fields[i].ltype) && StoredSlot(l.fields[i], slots[i])
    requires Small(EncodeItems(l.fields[i], slots[i], k, true))
    ensures DecodeFields(l, EncodeItems(l.fields[i], slots[i], k, true).value + rest,
        State(Midway(l, slots, i, slots[i][..k]), SeenBefore(l.fields, i)))
         == DecodeFields(l, rest, StateAt(l, slots, i + 1))
    decreases l.fields[i].ltype, 5, |slots[i]| - k
  {
    var f, slot := l.fields[i], slots[i];
    StateBefore(l, slots, i);
    if k == |slot| {
      assert slot[..k] == slot;
      assert EncodeItems(f, slot, k, true).value + rest == rest;
    } else {
      SmallParts(Cat(Some(EncodeTag(WireType(f.ltype), f.tag)), EncodeDatum(f.ltype, slot[k])),
          EncodeItems(f, slot, k + 1, true));
      var later := EncodeItems(f, slot, k + 1, true).value;
      Regroup(EncodeTag(WireType(f.ltype), f.tag) + EncodeDatum(f.ltype, slot[k]).value, later, rest);
      TakeUnpacked(l, slots, i, k, later + rest);
      UnpackedRoundTrip(l, slots, i, k + 1, rest);
    }
  }

  /** Every message within its bounds has an encoding, and one shorter than 4 GB decodes to the message. */
  lemma EncodeThenDecode(l: LType, slots: seq<Slot>)
    requires l.Submessage? && Good(l, Message(slots))
    ensures EncodeFrom(l, slots, 0).Some?
    ensures |EncodeFrom(l, slots, 0).value| < TWO32 ==>
      DecodeMessage(l, DefaultSlots(l, |l.fields|), EncodeFrom(l, slots, 0).value) == Some(slots)
  {
    InBoundsFits(l, Message(slots));
    EncodesExactly(l, Message(slots));
    if Small(EncodeFrom(l, slots, 0)) {
      MessageRoundTrip(l, slots);
    }
  }
}
