/** The nanopb decoder: what an input decodes to, and the loops that decode it. */
module PbDecode {
  import opened DbFormat
  import opened Bits
  import opened Coding
  import opened PbCommon

  const MAX_REQUIRED_FIELDS: nat := 64

  // ---------------------------------------------------------------------------
  // Varints, tags and skipping
  // ---------------------------------------------------------------------------

  /** The bytes after the first of a 32-bit varint: beyond the fourth bit of the fifth byte only zeros, or
      the sign extension of a negative number, may follow. The shift counter has eight bits. */
  function MoreVarint32(p: Bytes, result: nat, bitpos: nat): Parsed
    decreases |p|, bitpos
  {
    if p == [] then Fail
    else if bitpos >= 32 && !HighBitsOk(p[0], result, bitpos) then Fail
    else
      var sum := if bitpos >= 32 then result else OrGroup(result, p[0], bitpos);
      if p[0] >= 128 then MoreVarint32(p[1..], sum, (bitpos + 7) % 256)
      else if bitpos == 28 && p[0] >= 16 then Fail
      else Parsed(sum, p[1..])
  }

  /** result | (uint32_t)(b & 0x7f) << bitpos */
  function OrGroup(result: nat, b: Byte, bitpos: nat): nat {
    Or(result, b % 128 * Power2(bitpos) % TWO32)
  }

  predicate HighBitsOk(b: Byte, result: nat, bitpos: nat) {
    b % 128 == 0 || (result >= 0x8000_0000 && b == if bitpos < 63 then 255 else 1)
  }

  function ReadVarint32(p: Bytes): Parsed {
    if p == [] then Fail
    else if p[0] < 128 then Parsed(p[0], p[1..])
    else MoreVarint32(p[1..], p[0] % 128, 7)
  }

  lemma {:induction false} MoreConsumes(p: Bytes, result: nat, bitpos: nat)
    ensures var r := MoreVarint32(p, result, bitpos); r.Parsed? ==> |r.rest| < |p|
    decreases |p|
  {
    if p != [] {
      MoreConsumes(p[1..], if bitpos >= 32 then result else OrGroup(result, p[0], bitpos), (bitpos + 7) % 256);
    }
  }

  lemma FifthGroup(bitpos: nat)
    requires bitpos < 256
    ensures (bitpos + 7) % 256 == 35 <==> bitpos == 28
  {
  }

  /** `n` groups of no bits, each saying that more follow. */
  function EmptyGroups(n: nat, tail: Bytes): Bytes {
    if n == 0 then tail else [128] + EmptyGroups(n - 1, tail)
  }

  lemma EmptyGroupShift(tail: Bytes, result: nat, bitpos: nat)
    ensures MoreVarint32([128] + tail, result, bitpos) == MoreVarint32(tail, result, (bitpos + 7) % 256)
  {
    assert 0 * Power2(bitpos) == 0;
    NothingToOr(result);
    assert OrGroup(result, 128, bitpos) == result;
    assert ([128] + tail)[1..] == tail;
  }

  /** Where the counter stands `n` groups further on. */
  function PlaceAfter(bitpos: nat, n: nat): nat
    decreases n
  {
    if n == 0 then bitpos else PlaceAfter((bitpos + 7) % 256, n - 1)
  }

  lemma NextPlace(bitpos: nat) returns (turns: nat)
    requires bitpos < 256
    ensures bitpos + 7 == 256 * turns + (bitpos + 7) % 256 && (bitpos + 7) % 256 < 256
  {
    turns := if bitpos + 7 < 256 then 0 else 1;
  }

  lemma {:induction false} PlaceWraps(bitpos: nat, n: nat) returns (turns: nat)
    requires bitpos < 256
    ensures PlaceAfter(bitpos, n) < 256 && bitpos + 7 * n == 256 * turns + PlaceAfter(bitpos, n)
    decreases n
  {
    if n == 0 {
      turns := 0;
    } else {
      var first := NextPlace(bitpos);
      var later := PlaceWraps((bitpos + 7) % 256, n - 1);
      turns := first + later;
    }
  }

  lemma {:induction false} EmptyGroupsShift(n: nat, tail: Bytes, result: nat, bitpos: nat)
    ensures MoreVarint32(EmptyGroups(n, tail), result, bitpos) == MoreVarint32(tail, result, PlaceAfter(bitpos, n))
    decreases n
  {
    if n > 0 {
      EmptyGroupShift(EmptyGroups(n - 1, tail), result, bitpos);
      EmptyGroupsShift(n - 1, tail, result, (bitpos + 7) % 256);
    }
  }

  lemma {:induction false} NothingToOr(a: nat)
    ensures Or(a, 0) == a
  {
    if a > 0 {
      NothingToOr(a / 2);
    }
  }

  /** The counter starts over after 37 groups: a bit of place 7 * n is read at that place modulo 256, and is
      refused only if it then lies beyond the register. */
  lemma LongVarintWraps(n: nat)
    ensures ReadVarint32(EmptyGroups(n, [1])) ==
            if 7 * n % 256 < 32 then Parsed(Power2(7 * n % 256) % TWO32, []) else Fail
  {
    if n > 0 {
      FirstGroupEmpty(n);
      PlaceIsModulo(n);
      LoneGroup(7 * n % 256);
    }
  }

  lemma FirstGroupEmpty(n: nat)
    requires n > 0
    ensures ReadVarint32(EmptyGroups(n, [1])) == MoreVarint32([1], 0, PlaceAfter(7, n - 1))
  {
    EmptyGroupsShift(n - 1, [1], 0, 7);
    assert EmptyGroups(n, [1])[1..] == EmptyGroups(n - 1, [1]);
  }

  lemma PlaceIsModulo(n: nat)
    requires n > 0
    ensures PlaceAfter(7, n - 1) == 7 * n % 256
  {
    var turns := PlaceWraps(7, n - 1);
    ModOf(7 * n, turns, PlaceAfter(7, n - 1));
  }

  lemma ModOf(x: nat, q: nat, r: nat)
    requires x == 256 * q + r && r < 256
    ensures x % 256 == r
  {
  }

  lemma LoneGroup(bitpos: nat)
    ensures MoreVarint32([1], 0, bitpos) == if bitpos < 32 then Parsed(Power2(bitpos) % TWO32, []) else Fail
  {
  }

  lemma Varint32Consumes(p: Bytes)
    ensures ReadVarint32(p).Parsed? ==> |ReadVarint32(p).rest| < |p|
  {
    if p != [] {
      MoreConsumes(p[1..], p[0] % 128, 7);
    }
  }

  lemma Varint64Consumes(p: Bytes)
    ensures GetVarint64(p).Parsed? ==> |GetVarint64(p).rest| < |p|
  {
    VarintConsumes(p, 10, 0, 1, TWO64);
  }

  datatype TagRead = BadTag | ZeroTag(rest: Bytes) | TagIs(tag: nat, wire: nat, rest: Bytes)

  /** A zero where a tag is due ends the message. */
  function ReadTag(p: Bytes): TagRead {
    match ReadVarint32(p)
    case Fail => BadTag
    case Parsed(word, rest) => if word == 0 then ZeroTag(rest) else TagIs(word / 8, word % 8, rest)
  }

  function AfterVarint(p: Bytes): Option<Bytes>
    decreases |p|
  {
    if p == [] then None else if p[0] < 128 then Some(p[1..]) else AfterVarint(p[1..])
  }

  function SkipBytes(p: Bytes, n: nat): Option<Bytes> {
    if |p| < n then None else Some(p[n..])
  }

  function SkipField(p: Bytes, wire: nat): Option<Bytes> {
    if wire == 0 then AfterVarint(p)
    else if wire == 1 then SkipBytes(p, 8)
    else if wire == 2 then
      match ReadVarint32(p)
      case Fail => None
      case Parsed(size, rest) => SkipBytes(rest, size)
    else if wire == 5 then SkipBytes(p, 4)
    else None
  }

  lemma {:induction false} SkipVarintShrinks(p: Bytes)
    ensures AfterVarint(p).Some? ==> |AfterVarint(p).value| <= |p|
    decreases |p|
  {
    if p != [] && p[0] >= 128 {
      SkipVarintShrinks(p[1..]);
    }
  }

  lemma SkipShrinks(p: Bytes, wire: nat)
    ensures SkipField(p, wire).Some? ==> |SkipField(p, wire).value| <= |p|
  {
    SkipVarintShrinks(p);
    Varint32Consumes(p);
  }

  // ---------------------------------------------------------------------------
  // Scalars and strings
  // ---------------------------------------------------------------------------

  datatype Got = NoDatum | Got(v: Datum, rest: Bytes)

  function Signed(n: nat, modulus: nat): int
    requires n < modulus
  {
    if n < modulus / 2 then n else n - modulus
  }

  function UnZigZag(n: nat): int {
    if n % 2 == 1 then -(n / 2) - 1 else n / 2
  }

  function NumIf(ok: bool, n: int, rest: Bytes): Got {
    if ok then Got(Num(n), rest) else NoDatum
  }

  /** The whole word as a signed number for a 64-bit field, else its low 32 bits. */
  function LowSigned(w: Width, value: nat): int {
    if w == W64 then Signed(value % TWO64, TWO64) else Signed(value % TWO32, TWO32)
  }

  /** pb_dec_varint: fields of up to 32 bits take the low 32 bits as a signed number first. */
  function DecodeVarInt(w: Width, p: Bytes): Got {
    match GetVarint64(p)
    case Fail => NoDatum
    case Parsed(value, rest) =>
      NumIf(InSigned(w, LowSigned(w, value)), LowSigned(w, value), rest)
  }

  function DecodeUVarInt(w: Width, p: Bytes): Got {
    match GetVarint64(p)
    case Fail => NoDatum
    case Parsed(value, rest) => NumIf(value < Modulus(w), value, rest)
  }

  function DecodeSVarInt(w: Width, p: Bytes): Got {
    match GetVarint64(p)
    case Fail => NoDatum
    case Parsed(value, rest) => NumIf(InSigned(w, UnZigZag(value)), UnZigZag(value), rest)
  }

  function DecodeBool(p: Bytes): Got {
    match ReadVarint32(p)
    case Fail => NoDatum
    case Parsed(value, rest) => Got(Num(if value != 0 then 1 else 0), rest)
  }

  function DecodeFixed(n: nat, p: Bytes): Got {
    if |p| < n then NoDatum else Got(Num(UnFixed(p[..n])), p[n..])
  }

  /** A length and that many bytes, if the length is allowed. */
  function DecodeBytes(limit: nat, p: Bytes): Got {
    match ReadVarint32(p)
    case Fail => NoDatum
    case Parsed(size, rest) => if size > limit || |rest| < size then NoDatum else Got(Data(rest[..size]), rest[size..])
  }

  /** No bytes at all stand for all zeros. */
  function DecodeFixedLength(n: nat, p: Bytes): Got {
    match ReadVarint32(p)
    case Fail => NoDatum
    case Parsed(size, rest) =>
      if size == 0 then Got(Data(Zeros(n)), rest)
      else if size != n || |rest| < n then NoDatum
      else Got(Data(rest[..n]), rest[n..])
  }

  function DecodeScalar(l: LType, p: Bytes): Got
    requires !l.Submessage?
  {
    match l
    case Bool => DecodeBool(p)
    case VarInt(w) => DecodeVarInt(w, p)
    case UVarInt(w) => DecodeUVarInt(w, p)
    case SVarInt(w) => DecodeSVarInt(w, p)
    case Fixed32 => DecodeFixed(4, p)
    case Fixed64 => DecodeFixed(8, p)
    case BytesArray(max) => DecodeBytes(max, p)
    case CString(size) => if size == 0 then NoDatum else DecodeBytes(size - 1, p)
    case FixedLengthBytes(n) => DecodeFixedLength(n, p)
  }

  lemma ScalarConsumes(l: LType, p: Bytes)
    requires !l.Submessage?
    ensures DecodeScalar(l, p).Got? ==> |DecodeScalar(l, p).rest| < |p|
  {
    Varint32Consumes(p);
    Varint64Consumes(p);
  }

  /** Elements of a packed block, until it is used up or the array is full. */
  function DecodePacked(f: Field, p: Bytes, slot: Slot): Option<Slot>
    requires Packable(f.ltype) && f.htype.Repeated?
    decreases |p|
  {
    if p == [] then Some(slot)
    else if |slot| >= f.htype.arraySize then None
    else
      ScalarConsumes(f.ltype, p);
      match DecodeScalar(f.ltype, p)
      case NoDatum => None
      case Got(v, rest) => DecodePacked(f, rest, slot + [v])
  }

  // ---------------------------------------------------------------------------
  // Messages
  // ---------------------------------------------------------------------------

  /** The fields read so far, and the numbers of the required ones among them. */
  datatype State = State(slots: seq<Slot>, seen: set<nat>)

  /** A message is decoded into what its storage holds already. */
  function BaseSlots(l: LType, base: Datum): (slots: seq<Slot>)
    requires l.Submessage?
    ensures |slots| == |l.fields|
  {
    if base.Message? && |base.slots| == |l.fields| then base.slots else DefaultSlots(l, |l.fields|)
  }

  function DecodeDatum(l: LType, base: Datum, p: Bytes): (r: Got)
    ensures r.Got? ==> |r.rest| < |p|
    decreases |p|, 0
  {
    if !l.Submessage? then
      ScalarConsumes(l, p);
      DecodeScalar(l, p)
    else
      Varint32Consumes(p);
      match ReadVarint32(p)
      case Fail => NoDatum
      case Parsed(size, rest) =>
        if |rest| < size then NoDatum
        else
          match DecodeMessage(l, BaseSlots(l, base), rest[..size])
          case None => NoDatum
          case Some(slots) => Got(Message(slots), rest[size..])
  }

  datatype GotSlot = NoSlot | GotSlot(slot: Slot, rest: Bytes)

  /** A new element of a repeated field starts from defaults; any other field from what it holds. */
  function DecodeSlot(f: Field, wire: nat, slot: Slot, p: Bytes): (r: GotSlot)
    ensures r.GotSlot? ==> |r.rest| <= |p|
    decreases |p|, 1
  {
    if !f.htype.Repeated? then
      match DecodeDatum(f.ltype, if slot == [] then Default(f.ltype) else slot[0], p)
      case NoDatum => NoSlot
      case Got(v, rest) => GotSlot([v], rest)
    else if wire == 2 && Packable(f.ltype) then
      Varint32Consumes(p);
      match ReadVarint32(p)
      case Fail => NoSlot
      case Parsed(size, rest) =>
        if |rest| < size then NoSlot
        else
          match DecodePacked(f, rest[..size], slot)
          case None => NoSlot
          case Some(slot') => GotSlot(slot', rest[size..])
    else if |slot| >= f.htype.arraySize then NoSlot
    else
      match DecodeDatum(f.ltype, Default(f.ltype), p)
      case NoDatum => NoSlot
      case Got(v, rest) => GotSlot(slot + [v], rest)
  }

  /** Setting a member of a oneof unsets the others. */
  function SetSlot(fields: seq<Field>, slots: seq<Slot>, i: nat, slot: Slot): (r: seq<Slot>)
    requires i < |fields| == |slots|
    ensures |r| == |slots|
  {
    seq(|slots|, j requires 0 <= j < |slots| =>
      if j == i then slot else if SameGroup(fields[j], fields[i]) then [] else slots[j])
  }

  function Seen(fields: seq<Field>, i: nat, seen: set<nat>): set<nat>
    requires i < |fields|
  {
    var n := CountRequired(fields, i);
    if fields[i].htype.Required? && n < MAX_REQUIRED_FIELDS then seen + {n} else seen
  }

  /** A type without fields takes field number 0 for the terminator of its table, which reads as a required
      boolean. */
  predicate AtTerminator(l: LType, tag: nat)
    requires l.Submessage?
  {
    l.fields == [] && tag == 0
  }

  /** The numbers seen are those of required fields; of a type without fields there are none to check. */
  ghost predicate SeenInRange(l: LType, seen: set<nat>)
    requires l.Submessage?
  {
    l.fields != [] ==> forall n :: n in seen ==> n < CountRequired(l.fields, |l.fields|)
  }

  function DecodeFields(l: LType, p: Bytes, st: State): (r: Option<State>)
    requires l.Submessage? && |st.slots| == |l.fields|
    ensures r.Some? ==> |r.value.slots| == |l.fields|
    decreases |p|, 2
  {
    if p == [] then Some(st)
    else
      Varint32Consumes(p);
      match ReadTag(p)
      case BadTag => None
      case ZeroTag(_) => Some(st)
      case TagIs(tag, wire, rest) =>
        match FieldIndex(l.fields, tag, |l.fields|)
        case None =>
          if AtTerminator(l, tag) then
            Varint32Consumes(rest);
            (match DecodeBool(rest)
             case NoDatum => None
             case Got(_, rest') => DecodeFields(l, rest', State(st.slots, st.seen + {0})))
          else
            SkipShrinks(rest, wire);
            (match SkipField(rest, wire)
             case None => None
             case Some(rest') => DecodeFields(l, rest', st))
        case Some(i) =>
          match DecodeSlot(l.fields[i], wire, st.slots[i], rest)
          case NoSlot => None
          case GotSlot(slot, rest') =>
            DecodeFields(l, rest', State(SetSlot(l.fields, st.slots, i, slot), Seen(l.fields, i, st.seen)))
  }

  /** Every required field, as far as they are tracked, was seen. */
  ghost predicate AllTrackedSeen(fields: seq<Field>, seen: set<nat>) {
    forall i :: 0 <= i < |fields| && fields[i].htype.Required? && CountRequired(fields, i) < MAX_REQUIRED_FIELDS ==>
      CountRequired(fields, i) in seen
  }

  /** The same, by number. */
  predicate NumbersSeen(seen: set<nat>, n: nat) {
    forall k :: 0 <= k < n && k < MAX_REQUIRED_FIELDS ==> k in seen
  }

  function DecodeMessage(l: LType, slots: seq<Slot>, p: Bytes): (r: Option<seq<Slot>>)
    requires l.Submessage? && |slots| == |l.fields|
    ensures r.Some? ==> |r.value| == |l.fields|
    decreases |p|, 3
  {
    match DecodeFields(l, p, State(slots, {}))
    case None => None
    case Some(st) => if NumbersSeen(st.seen, CountRequired(l.fields, |l.fields|)) then Some(st.slots) else None
  }

  lemma {:induction false} RequiredNumbered(fields: seq<Field>, n: nat, k: nat) returns (i: nat)
    requires n <= |fields| && k < CountRequired(fields, n)
    ensures i < n && fields[i].htype.Required? && CountRequired(fields, i) == k
  {
    if fields[n - 1].htype.Required? && CountRequired(fields, n - 1) == k {
      i := n - 1;
    } else {
      i := RequiredNumbered(fields, n - 1, k);
    }
  }

  /** The numbers below the count are those of the required fields. */
  lemma SeenByNumber(fields: seq<Field>, seen: set<nat>)
    ensures NumbersSeen(seen, CountRequired(fields, |fields|)) <==> AllTrackedSeen(fields, seen)
  {
    forall i | 0 <= i < |fields| && fields[i].htype.Required?
        ensures CountRequired(fields, i) < CountRequired(fields, |fields|) {
      CountGrows(fields, i + 1, |fields|);
    }
    if AllTrackedSeen(fields, seen) {
      forall k | 0 <= k < CountRequired(fields, |fields|) && k < MAX_REQUIRED_FIELDS ensures k in seen {
        var i := RequiredNumbered(fields, |fields|, k);
      }
    }
  }

  // ---------------------------------------------------------------------------
  // Whatever the input, what is decoded fits its storage
  // ---------------------------------------------------------------------------

  ghost predicate Sound(l: LType, v: Datum) {
    Stored(l, v) && Fits(l, v)
  }

  ghost predicate SoundSlot(f: Field, slot: Slot) {
    StoredSlot(f, slot) && SlotFits(f, slot)
  }

  ghost predicate SoundSlots(l: LType, slots: seq<Slot>)
    requires l.Submessage?
  {
    && |slots| == |l.fields| && Exclusive(l.fields, slots)
    && forall i :: 0 <= i < |slots| ==> SoundSlot(l.fields[i], slots[i])
  }

  lemma FixedIsSmall(b: Bytes)
    ensures UnFixed(b) < Power256(|b|)
  {
    UnFixedRoundTrip(b);
  }

  lemma ScalarIsSound(l: LType, p: Bytes)
    requires !l.Submessage?
    ensures DecodeScalar(l, p).Got? ==> Sound(l, DecodeScalar(l, p).v)
  {
    Powers();
    if |p| >= 4 {
      FixedIsSmall(p[..4]);
    }
    if |p| >= 8 {
      FixedIsSmall(p[..8]);
    }
  }

  lemma {:induction false} PackedIsSound(f: Field, p: Bytes, slot: Slot)
    requires Packable(f.ltype) && f.htype.Repeated? && SoundSlot(f, slot)
    ensures DecodePacked(f, p, slot).Some? ==> SoundSlot(f, DecodePacked(f, p, slot).value)
    decreases |p|
  {
    if p != [] && |slot| < f.htype.arraySize {
      ScalarConsumes(f.ltype, p);
      ScalarIsSound(f.ltype, p);
      var got := DecodeScalar(f.ltype, p);
      if got.Got? {
        PackedIsSound(f, got.rest, slot + [got.v]);
      }
    }
  }

  lemma SetIsSound(l: LType, slots: seq<Slot>, i: nat, slot: Slot)
    requires l.Submessage? && SoundSlots(l, slots) && i < |slots| && SoundSlot(l.fields[i], slot)
    ensures SoundSlots(l, SetSlot(l.fields, slots, i, slot))
  {
  }

  lemma BaseIsSound(l: LType, base: Datum)
    requires l.Submessage? && Sound(l, base)
    ensures SoundSlots(l, BaseSlots(l, base))
  {
  }

  lemma DatumIsSound(l: LType, base: Datum, p: Bytes)
    requires Sound(l, base)
    ensures DecodeDatum(l, base, p).Got? ==> Sound(l, DecodeDatum(l, base, p).v)
    decreases |p|, 0
  {
    if !l.Submessage? {
      ScalarIsSound(l, p);
    } else {
      Varint32Consumes(p);
      var size := ReadVarint32(p);
      if size.Parsed? && size.value <= |size.rest| {
        BaseIsSound(l, base);
        MessageIsSound(l, BaseSlots(l, base), size.rest[..size.value]);
      }
    }
  }

  lemma SlotIsSound(f: Field, wire: nat, slot: Slot, p: Bytes)
    requires SoundSlot(f, slot)
    ensures DecodeSlot(f, wire, slot, p).GotSlot? ==> SoundSlot(f, DecodeSlot(f, wire, slot, p).slot)
    decreases |p|, 1
  {
    DefaultIsStored(f.ltype);
    if !f.htype.Repeated? {
      DatumIsSound(f.ltype, if slot == [] then Default(f.ltype) else slot[0], p);
    } else {
      DatumIsSound(f.ltype, Default(f.ltype), p);
      var size := ReadVarint32(p);
      if Packable(f.ltype) && size.Parsed? && size.value <= |size.rest| {
        PackedIsSound(f, size.rest[..size.value], slot);
      }
    }
  }

  lemma FieldsAreSound(l: LType, p: Bytes, st: State)
    requires l.Submessage? && SoundSlots(l, st.slots)
    ensures DecodeFields(l, p, st).Some? ==> SoundSlots(l, DecodeFields(l, p, st).value.slots)
    decreases |p|, 2
  {
    if p != [] && ReadTag(p).TagIs? {
      Varint32Consumes(p);
      var TagIs(tag, wire, rest) := ReadTag(p);
      var i := FieldIndex(l.fields, tag, |l.fields|);
      if AtTerminator(l, tag) {
        Varint32Consumes(rest);
        var got := DecodeBool(rest);
        if got.Got? {
          FieldsAreSound(l, got.rest, State(st.slots, st.seen + {0}));
        }
      } else if i.None? {
        SkipShrinks(rest, wire);
        var skipped := SkipField(rest, wire);
        if skipped.Some? {
          FieldsAreSound(l, skipped.value, st);
        }
      } else {
        SlotIsSound(l.fields[i.value], wire, st.slots[i.value], rest);
        var got := DecodeSlot(l.fields[i.value], wire, st.slots[i.value], rest);
        if got.GotSlot? {
          SetIsSound(l, st.slots, i.value, got.slot);
          FieldsAreSound(l, got.rest, State(SetSlot(l.fields, st.slots, i.value, got.slot),
              Seen(l.fields, i.value, st.seen)));
        }
      }
    }
  }

  /** Every input that decodes gives a message whose arrays and strings fit and whose oneofs hold at most
      one member. */
  lemma MessageIsSound(l: LType, slots: seq<Slot>, p: Bytes)
    requires l.Submessage? && SoundSlots(l, slots)
    ensures DecodeMessage(l, slots, p).Some? ==> Sound(l, Message(DecodeMessage(l, slots, p).value))
    decreases |p|, 3
  {
    FieldsAreSound(l, p, State(slots, {}));
  }

  // ---------------------------------------------------------------------------
  // Reading a stream
  // ---------------------------------------------------------------------------

  class IStream {
    /** The bytes not read yet. */
    var left: Bytes

    constructor (left: Bytes)
      ensures this.left == left
    {
      this.left := left;
    }

    method ReadByte() returns (ok: bool, b: Byte)
      modifies this
      ensures ok <==> old(left) != []
      ensures if ok then b == old(left)[0] && left == old(left)[1..] else left == old(left)
    {
      if left == [] {
        return false, 0;
      }
      ok, b, left := true, left[0], left[1..];
    }

    method Read(n: nat) returns (ok: bool, buf: Bytes)
      modifies this
      ensures ok <==> n <= |old(left)|
      ensures if ok then buf == old(left)[..n] && left == old(left)[n..] else left == old(left)
    {
      if |left| < n {
        return false, [];
      }
      ok, buf, left := true, left[..n], left[n..];
    }

    method Varint32() returns (ok: bool, value: nat)
      modifies this
      ensures match ReadVarint32(old(left))
              case Fail => !ok
              case Parsed(v, rest) => ok && value == v && left == rest
    {
      var b;
      value := 0;
      ok, b := ReadByte();
      if !ok {
        return;
      }
      if b < 128 {
        value := b;
        return;
      }
      ok, value := Varint32Rest(b % 128);
    }

    /** The multi-byte case. */
    method Varint32Rest(first: nat) returns (ok: bool, value: nat)
      requires first < 128
      modifies this
      ensures match MoreVarint32(old(left), first, 7)
              case Fail => !ok
              case Parsed(v, rest) => ok && value == v && left == rest
    {
      var bitpos: nat, b: Byte := 7, 255;
      value := first;
      ghost var start := left;
      while b >= 128
        invariant bitpos < 256
        invariant b >= 128 ==> MoreVarint32(start, first, 7) == MoreVarint32(left, value, bitpos)
        invariant b < 128 ==>
            MoreVarint32(start, first, 7) == if bitpos == 35 && b >= 16 then Fail else Parsed(value, left)
        decreases b >= 128, |left|
      {
        ok, b := ReadByte();
        if !ok {
          return;
        }
        if bitpos >= 32 {
          var signExtension := if bitpos < 63 then 255 else 1;
          if b % 128 != 0 && (value < 0x8000_0000 || b != signExtension) {
            return false, 0;
          }
        } else {
          value := OrGroup(value, b, bitpos);
        }
        FifthGroup(bitpos);
        bitpos := (bitpos + 7) % 256;
      }
      ok := !(bitpos == 35 && b >= 16);
    }

    method Varint64() returns (ok: bool, value: nat)
      modifies this
      ensures match GetVarint64(old(left))
              case Fail => !ok
              case Parsed(v, rest) => ok && value == v && left == rest
    {
      var bitpos: nat, scale: nat, b: Byte := 0, 1, 255;
      value := 0;
      ghost var n: nat := 10;
      while b >= 128
        invariant n <= 10 && bitpos == 7 * (10 - n)
        invariant b >= 128 ==> GetVarint64(old(left)) == ParseVarint(left, n, value, scale, TWO64)
        invariant b < 128 ==> GetVarint64(old(left)) == Parsed(value, left)
        decreases b >= 128, n
      {
        if bitpos >= 64 {
          return false, 0;
        }
        ok, b := ReadByte();
        if !ok {
          return;
        }
        value := Accumulate(value, b, scale, TWO64);
        scale, bitpos, n := scale * 128, bitpos + 7, n - 1;
      }
      ok := true;
    }

    method SkipVarint() returns (ok: bool)
      modifies this
      ensures match AfterVarint(old(left))
              case None => !ok
              case Some(rest) => ok && left == rest
    {
      var b: Byte := 255;
      while b >= 128
        invariant b >= 128 ==> AfterVarint(old(left)) == AfterVarint(left)
        invariant b < 128 ==> AfterVarint(old(left)) == Some(left)
        decreases b >= 128, |left|
      {
        ok, b := ReadByte();
        if !ok {
          return;
        }
      }
      ok := true;
    }
  }

  /** Cut a length-prefixed part off the stream as a stream of its own. */
  method MakeSubstream(s: IStream) returns (ok: bool, sub: IStream)
    modifies s
    ensures fresh(sub)
    ensures match ReadVarint32(old(s.left))
            case Fail => !ok
            case Parsed(size, rest) =>
              && (ok <==> size <= |rest|)
              && (ok ==> sub.left == rest[..size] && s.left == rest[size..])
  {
    var size;
    sub := new IStream([]);
    ok, size := s.Varint32();
    if !ok {
      return;
    }
    if |s.left| < size {
      return false, sub;
    }
    sub.left := s.left[..size];
    s.left := s.left[size..];
  }

  method SkipFieldData(s: IStream, wire: nat) returns (ok: bool)
    modifies s
    ensures match SkipField(old(s.left), wire)
            case None => !ok
            case Some(rest) => ok && s.left == rest
  {
    var buf;
    if wire == 0 {
      ok := s.SkipVarint();
    } else if wire == 1 {
      ok, buf := s.Read(8);
    } else if wire == 2 {
      var size;
      ok, size := s.Varint32();
      if ok {
        ok, buf := s.Read(size);
      }
    } else if wire == 5 {
      ok, buf := s.Read(4);
    } else {
      ok := false;
    }
  }

  /** What a reading method did is what the function says. */
  ghost predicate GotIs(r: Got, ok: bool, v: Datum, left: Bytes) {
    match r
    case NoDatum => !ok
    case Got(v', rest) => ok && v == v' && left == rest
  }

  method ReadVarInt(s: IStream, w: Width) returns (ok: bool, v: Datum)
    modifies s
    ensures GotIs(DecodeVarInt(w, old(s.left)), ok, v, s.left)
  {
    var value;
    ok, value := s.Varint64();
    v := Num(LowSigned(w, value));
    ok := ok && InSigned(w, LowSigned(w, value));
  }

  method ReadUVarInt(s: IStream, w: Width) returns (ok: bool, v: Datum)
    modifies s
    ensures GotIs(DecodeUVarInt(w, old(s.left)), ok, v, s.left)
  {
    var value;
    ok, value := s.Varint64();
    v := Num(value);
    ok := ok && value < Modulus(w);
  }

  method ReadSVarInt(s: IStream, w: Width) returns (ok: bool, v: Datum)
    modifies s
    ensures GotIs(DecodeSVarInt(w, old(s.left)), ok, v, s.left)
  {
    var value;
    ok, value := s.Varint64();
    v := Num(UnZigZag(value));
    ok := ok && InSigned(w, UnZigZag(value));
  }

  method ReadFixed(s: IStream, n: nat) returns (ok: bool, v: Datum)
    modifies s
    ensures GotIs(DecodeFixed(n, old(s.left)), ok, v, s.left)
  {
    var buf;
    ok, buf := s.Read(n);
    v := Num(UnFixed(buf));
  }

  method ReadBytes(s: IStream, limit: nat) returns (ok: bool, v: Datum)
    modifies s
    ensures GotIs(DecodeBytes(limit, old(s.left)), ok, v, s.left)
  {
    var size, buf;
    v := Data([]);
    ok, size := s.Varint32();
    if !ok || size > limit {
      return false, v;
    }
    ok, buf := s.Read(size);
    v := Data(buf);
  }

  method ReadFixedLength(s: IStream, n: nat) returns (ok: bool, v: Datum)
    modifies s
    ensures GotIs(DecodeFixedLength(n, old(s.left)), ok, v, s.left)
  {
    var size, buf;
    v := Data(Zeros(n));
    ok, size := s.Varint32();
    if !ok || size == 0 {
      return;
    }
    if size != n {
      return false, v;
    }
    ok, buf := s.Read(n);
    v := Data(buf);
  }

  method ReadScalar(s: IStream, l: LType) returns (ok: bool, v: Datum)
    requires !l.Submessage?
    modifies s
    ensures GotIs(DecodeScalar(l, old(s.left)), ok, v, s.left)
  {
    match l
    case Bool =>
      var value;
      ok, value := s.Varint32();
      v := Num(if value != 0 then 1 else 0);
    case VarInt(w) => ok, v := ReadVarInt(s, w);
    case UVarInt(w) => ok, v := ReadUVarInt(s, w);
    case SVarInt(w) => ok, v := ReadSVarInt(s, w);
    case Fixed32 => ok, v := ReadFixed(s, 4);
    case Fixed64 => ok, v := ReadFixed(s, 8);
    case BytesArray(max) => ok, v := ReadBytes(s, max);
    case CString(size) =>
      if size == 0 {
        ok, v := false, Data([]);
      } else {
        ok, v := ReadBytes(s, size - 1);
      }
    case FixedLengthBytes(n) => ok, v := ReadFixedLength(s, n);
  }

  /** The loop over a packed block. */
  method ReadPacked(sub: IStream, f: Field, slot: Slot) returns (ok: bool, r: Slot)
    requires Packable(f.ltype) && f.htype.Repeated?
    modifies sub
    ensures match DecodePacked(f, old(sub.left), slot)
            case None => !ok
            case Some(slot') => ok && r == slot'
  {
    r := slot;
    while sub.left != [] && |r| < f.htype.arraySize
      invariant DecodePacked(f, old(sub.left), slot) == DecodePacked(f, sub.left, r)
      decreases |sub.left|
    {
      ScalarConsumes(f.ltype, sub.left);
      var v;
      ok, v := ReadScalar(sub, f.ltype);
      if !ok {
        return;
      }
      r := r + [v];
    }
    ok := sub.left == [];
  }

  // ---------------------------------------------------------------------------
  // The required-field bitmap
  // ---------------------------------------------------------------------------

  /** Bit n of the two words is set exactly if n was seen. */
  ghost predicate Bitmap(words: seq<nat>, seen: set<nat>) {
    && |words| == 2 && words[0] < Power2(32) && words[1] < Power2(32)
    && (forall n: nat {:trigger HasBit(words, n)} :: n < MAX_REQUIRED_FIELDS ==> (HasBit(words, n) <==> n in seen))
    && (forall n :: n in seen ==> n < MAX_REQUIRED_FIELDS)
  }

  predicate HasBit(words: seq<nat>, n: nat)
    requires |words| == 2 && n < MAX_REQUIRED_FIELDS
  {
    BitOf(words[n / 32], n % 32)
  }

  method MarkSeen(words: array<nat>, n: nat, ghost seen: set<nat>)
    requires Bitmap(words[..], seen) && n < MAX_REQUIRED_FIELDS
    modifies words
    ensures Bitmap(words[..], seen + {n})
  {
    ghost var before := words[..];
    WithBitFits(words[n / 32], n % 32, 32);
    words[n / 32] := WithBit(words[n / 32], n % 32);
    MarkedIsSeen(before, words[..], n, seen);
  }

  lemma MarkedIsSeen(before: seq<nat>, after: seq<nat>, n: nat, seen: set<nat>)
    requires Bitmap(before, seen) && n < MAX_REQUIRED_FIELDS
    requires after == before[n / 32 := WithBit(before[n / 32], n % 32)] && after[n / 32] < Power2(32)
    ensures Bitmap(after, seen + {n})
  {
    forall m: nat | m < MAX_REQUIRED_FIELDS ensures HasBit(after, m) <==> m in seen + {n} {
      OneBitMore(before, after, n, m);
      assert HasBit(before, m) <==> m in seen;
    }
  }

  lemma OneBitMore(before: seq<nat>, after: seq<nat>, n: nat, m: nat)
    requires |before| == 2 && n < MAX_REQUIRED_FIELDS && m < MAX_REQUIRED_FIELDS
    requires after == before[n / 32 := WithBit(before[n / 32], n % 32)]
    ensures HasBit(after, m) <==> m == n || HasBit(before, m)
  {
    WithBitSetsOne(before[n / 32], n % 32, m % 32);
  }

  /** Of the numbers the i-th word tracks, exactly the first `r` were seen. */
  ghost predicate WordSeen(seen: set<nat>, i: nat, r: nat) {
    forall n: nat :: 32 * i <= n < 32 * i + 32 ==> (n in seen <==> n < 32 * i + r)
  }

  lemma BitIsNumber(words: seq<nat>, seen: set<nat>, i: nat, b: nat)
    requires Bitmap(words, seen) && i < 2 && b < 32
    ensures BitOf(words[i], b) <==> 32 * i + b in seen
  {
    assert HasBit(words, 32 * i + b) <==> 32 * i + b in seen;
    assert (32 * i + b) / 32 == i && (32 * i + b) % 32 == b;
  }

  lemma WordIsOnes(words: seq<nat>, seen: set<nat>, i: nat, r: nat)
    requires Bitmap(words, seen) && i < 2 && r <= 32
    ensures words[i] == Ones(r) <==> WordSeen(seen, i, r)
  {
    IsOnes(words[i], r, 32);
    forall b: nat | b < 32 ensures BitOf(words[i], b) <==> 32 * i + b in seen {
      BitIsNumber(words, seen, i, b);
    }
    if words[i] == Ones(r) {
      forall n: nat | 32 * i <= n < 32 * i + 32 ensures n in seen <==> n < 32 * i + r {
        var b := n - 32 * i;
        assert BitOf(words[i], b) <==> b < r;
      }
    }
    if WordSeen(seen, i, r) {
      forall b: nat | b < 32 ensures BitOf(words[i], b) <==> b < r {
        var n: nat := 32 * i + b;
        assert n in seen <==> n < 32 * i + r;
      }
    }
  }

  /** The whole words, then the remaining bits. */
  method CheckBits(words: array<nat>, count: nat, ghost seen: set<nat>) returns (ok: bool)
    requires Bitmap(words[..], seen) && count <= MAX_REQUIRED_FIELDS
    requires count > 0 ==> forall n :: n in seen ==> n < count
    ensures ok <==> NumbersSeen(seen, count)
  {
    var whole, remaining := count / 32, count % 32;
    var i := 0;
    while i < whole
      invariant i <= whole && NumbersSeen(seen, 32 * i)
    {
      WordIsOnes(words[..], seen, i, 32);
      OnesOf32();
      if words[i] != 0xffff_ffff {
        return false;
      }
      i := i + 1;
    }
    ok := true;
    if remaining != 0 {
      WordIsOnes(words[..], seen, whole, remaining);
      OnesOf32();
      ShiftOnes(32, 32 - remaining);
      ok := words[whole] == ShiftRight(0xffff_ffff, 32 - remaining);
    }
  }

  lemma OnesOf32()
    ensures Ones(32) == 0xffff_ffff
  {
    assert Power2(4) == 16;
    assert Power2(8) == 256;
    assert Power2(12) == 4096;
    assert Power2(16) == 65536;
    assert Power2(20) == 16 * 65536;
    assert Power2(24) == 256 * 65536;
    assert Power2(28) == 4096 * 65536;
  }

  // ---------------------------------------------------------------------------
  // Decoding a message
  // ---------------------------------------------------------------------------

  method ReadDatum(s: IStream, l: LType, base: Datum) returns (ok: bool, v: Datum)
    requires GoodType(l)
    modifies s
    ensures GotIs(DecodeDatum(l, base, old(s.left)), ok, v, s.left)
    decreases |s.left|, 0
  {
    if !l.Submessage? {
      ok, v := ReadScalar(s, l);
    } else {
      Varint32Consumes(s.left);
      var sub;
      v := base;
      ok, sub := MakeSubstream(s);
      if ok {
        var slots;
        ok, slots := ReadMessage(sub, l, BaseSlots(l, base));
        v := Message(slots);
      }
    }
  }

  /** decode_static_field. */
  method ReadSlot(s: IStream, f: Field, wire: nat, slot: Slot) returns (ok: bool, r: Slot)
    requires GoodType(f.ltype)
    modifies s
    ensures match DecodeSlot(f, wire, slot, old(s.left))
            case NoSlot => !ok
            case GotSlot(slot', rest) => ok && r == slot' && s.left == rest
    decreases |s.left|, 1
  {
    var v;
    r := slot;
    if !f.htype.Repeated? {
      ok, v := ReadDatum(s, f.ltype, if slot == [] then Default(f.ltype) else slot[0]);
      r := [v];
    } else if wire == 2 && Packable(f.ltype) {
      var sub;
      ok, sub := MakeSubstream(s);
      if ok {
        ok, r := ReadPacked(sub, f, slot);
      }
    } else if |slot| >= f.htype.arraySize {
      ok := false;
    } else {
      ok, v := ReadDatum(s, f.ltype, Default(f.ltype));
      r := slot + [v];
    }
  }

  method ReadTagWord(s: IStream) returns (ok: bool, eof: bool, tag: nat, wire: nat)
    modifies s
    ensures match ReadTag(old(s.left))
            case BadTag => !ok && !eof
            case ZeroTag(_) => !ok && eof
            case TagIs(t, w, rest) => ok && t == tag && w == wire && s.left == rest
  {
    var word;
    ok, word := s.Varint32();
    eof, tag, wire := false, word / 8, word % 8;
    if ok && word == 0 {
      ok, eof := false, true;
    }
  }

  /** Decoding from here gives what decoding from there does. */
  ghost predicate SameDecode(l: LType, p: Bytes, st: State, q: Bytes, st': State)
    requires l.Submessage? && |st.slots| == |st'.slots| == |l.fields|
  {
    DecodeFields(l, p, st) == DecodeFields(l, q, st')
  }

  datatype Progress = Failed | Ended | Going

  /** One turn of the loop of pb_decode_noinit. */
  method StepField(s: IStream, iter: FieldIter, words: array<nat>, l: LType, slots: seq<Slot>, ghost seen: set<nat>)
    returns (r: Progress, slots': seq<Slot>, ghost seen': set<nat>)
    requires l.Submessage? && GoodType(l) && |slots| == |l.fields|
    requires iter.Valid() && iter.fields == l.fields && Bitmap(words[..], seen) && s.left != []
    requires SeenInRange(l, seen)
    modifies s, iter, words
    ensures iter.Valid() && |slots'| == |l.fields|
    ensures Bitmap(words[..], seen') && SeenInRange(l, seen')
    ensures r.Failed? ==> DecodeFields(l, old(s.left), State(slots, seen)) == None
    ensures r.Ended? ==> DecodeFields(l, old(s.left), State(slots, seen)) == Some(State(slots', seen'))
    ensures r.Going? ==>
        |s.left| < |old(s.left)| && SameDecode(l, old(s.left), State(slots, seen), s.left, State(slots', seen'))
    decreases |s.left|, 2
  {
    Varint32Consumes(s.left);
    slots', seen' := slots, seen;
    var ok, eof, tag, wire := ReadTagWord(s);
    if !ok {
      r := if eof then Ended else Failed;
      return;
    }
    var found := iter.Find(tag);
    if found && l.fields == [] {
      r, seen' := TakeTerminator(s, iter, words, seen);
      return;
    }
    if !found {
      SkipShrinks(s.left, wire);
      ok := SkipFieldData(s, wire);
      r := if ok then Going else Failed;
      return;
    }
    r, slots', seen' := TakeFound(s, iter, words, l, wire, slots, seen);
  }

  /** The iterator is at the terminator of an empty table: it is marked seen as the required field number 0,
      and a boolean is read for it. */
  method TakeTerminator(s: IStream, iter: FieldIter, words: array<nat>, ghost seen: set<nat>)
    returns (r: Progress, ghost seen': set<nat>)
    requires iter.Valid() && iter.fields == [] && Bitmap(words[..], seen)
    modifies s, words
    ensures seen' == seen + {0} && Bitmap(words[..], seen')
    ensures match DecodeBool(old(s.left))
            case NoDatum => r.Failed?
            case Got(_, rest) => r.Going? && s.left == rest && |rest| < |old(s.left)|
  {
    Varint32Consumes(s.left);
    MarkSeen(words, iter.requiredFieldIndex, seen);
    seen' := seen + {0};
    var ok, v := ReadScalar(s, Bool);
    r := if ok then Going else Failed;
  }

  /** The iterator is at the field: mark it seen if it is required, and decode it. */
  method TakeFound(s: IStream, iter: FieldIter, words: array<nat>, l: LType, wire: nat, slots: seq<Slot>,
      ghost seen: set<nat>)
    returns (r: Progress, slots': seq<Slot>, ghost seen': set<nat>)
    requires l.Submessage? && GoodType(l) && |slots| == |l.fields|
    requires iter.Valid() && iter.fields == l.fields && l.fields != [] && Bitmap(words[..], seen)
    requires SeenInRange(l, seen)
    modifies s, words
    ensures !r.Ended? && |slots'| == |l.fields| && seen' == Seen(l.fields, iter.pos, seen)
    ensures Bitmap(words[..], seen') && SeenInRange(l, seen')
    ensures match DecodeSlot(l.fields[iter.pos], wire, slots[iter.pos], old(s.left))
            case NoSlot => r.Failed?
            case GotSlot(slot, rest) => r.Going? && s.left == rest && slots' == SetSlot(l.fields, slots, iter.pos, slot)
    decreases |s.left|, 2
  {
    var i := iter.pos;
    var ok, slot;
    slots', seen' := slots, Seen(l.fields, i, seen);
    CountGrows(l.fields, i + 1, |l.fields|);
    if l.fields[i].htype.Required? && iter.requiredFieldIndex < MAX_REQUIRED_FIELDS {
      MarkSeen(words, iter.requiredFieldIndex, seen);
    }
    ok, slot := ReadSlot(s, l.fields[i], wire, slots[i]);
    if ok {
      slots' := SetSlot(l.fields, slots, i, slot);
    }
    r := if ok then Going else Failed;
  }

  /** How many required fields there are, by stepping the iterator from where it is to the end. */
  method CountToEnd(iter: FieldIter) returns (count: nat)
    requires iter.Valid()
    modifies iter
    ensures iter.Valid() && count == CountRequired(iter.fields, |iter.fields|)
  {
    var more := iter.fields != [];
    count := 0;
    var lastRequired := false;
    while more
      invariant iter.Valid() && (iter.fields == [] ==> !more)
      invariant !more ==> count + (if lastRequired then 1 else 0) == CountRequired(iter.fields, |iter.fields|)
      decreases more, |iter.fields| - iter.pos
    {
      count, lastRequired := iter.requiredFieldIndex, iter.fields[iter.pos].htype.Required?;
      more := iter.Next();
    }
    if lastRequired {
      count := count + 1;
    }
  }

  /** pb_decode_noinit: the fields, then the check that every required one was seen. */
  method ReadMessage(s: IStream, l: LType, slots: seq<Slot>) returns (ok: bool, slots': seq<Slot>)
    requires l.Submessage? && GoodType(l) && |slots| == |l.fields|
    modifies s
    ensures match DecodeMessage(l, slots, old(s.left))
            case None => !ok
            case Some(r) => ok && slots' == r
    decreases |s.left|, 3
  {
    var iter := new FieldIter(l.fields);
    var words := new nat[2](_ => 0);
    ghost var seen: set<nat> := {};
    ghost var start := State(slots, {});
    NoBits(words[..]);
    slots' := slots;
    var r := Going;
    while r.Going? && s.left != []
      invariant iter.Valid() && iter.fields == l.fields && |slots'| == |l.fields| && fresh(iter) && fresh(words)
      invariant Bitmap(words[..], seen) && SeenInRange(l, seen)
      invariant r.Going? ==> |s.left| <= |old(s.left)|
      invariant r.Failed? ==> DecodeFields(l, old(s.left), start) == None
      invariant r.Ended? ==> DecodeFields(l, old(s.left), start) == Some(State(slots', seen))
      invariant r.Going? ==> SameDecode(l, old(s.left), start, s.left, State(slots', seen))
      decreases r.Going?, |s.left|
    {
      r, slots', seen := StepField(s, iter, words, l, slots', seen);
    }
    if r.Failed? {
      return false, slots';
    }
    var count := CountToEnd(iter);
    ok := CheckBits(words, if count > MAX_REQUIRED_FIELDS then MAX_REQUIRED_FIELDS else count, seen);
  }

  lemma NoBits(words: seq<nat>)
    requires words == [0, 0]
    ensures Bitmap(words, {})
  {
    forall n: nat | n < MAX_REQUIRED_FIELDS ensures !HasBit(words, n) {
      NoBitOfZero(n % 32);
    }
  }

  /** pb_decode into a message of defaults. It succeeds only if every tracked required field was seen. */
  method Decode(l: LType, input: Bytes) returns (r: Option<seq<Slot>>)
    requires l.Submessage? && GoodType(l)
    ensures r == DecodeMessage(l, DefaultSlots(l, |l.fields|), input)
    ensures r.Some? ==> Sound(l, Message(r.value))
  {
    DefaultIsStored(l);
    MessageIsSound(l, DefaultSlots(l, |l.fields|), input);
    var s := new IStream(input);
    var ok, slots := ReadMessage(s, l, DefaultSlots(l, |l.fields|));
    r := if ok then Some(slots) else None;
  }
}
