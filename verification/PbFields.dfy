/** What a nanopb input holds, field by field: which numbers stand at its field boundaries, and what that
  decides about its decoding. */
module PbFields {
  import opened DbFormat
  import opened Coding
  import opened PbCommon
  import opened PbEncode
  import opened PbDecode
  import opened PbRoundTrip

  // ---------------------------------------------------------------------------
  // Field boundaries
  // ---------------------------------------------------------------------------

  /** What follows a length and as many bytes. */
  function AfterBlock(p: Bytes): Option<Bytes> {
    match ReadVarint32(p)
    case Fail => None
    case Parsed(size, rest) => SkipBytes(rest, size)
  }

  /** What follows the body of a field of the type. */
  function AfterKnown(f: Field, wire: nat, p: Bytes): Option<Bytes> {
    if f.ltype.Submessage? || (f.htype.Repeated? && wire == 2 && Packable(f.ltype)) then AfterBlock(p)
    else
      match DecodeScalar(f.ltype, p)
      case NoDatum => None
      case Got(_, rest) => Some(rest)
  }

  /** What follows the body of the field with this number. */
  function AfterBody(l: LType, tag: nat, wire: nat, p: Bytes): Option<Bytes>
    requires l.Submessage?
  {
    match FieldIndex(l.fields, tag, |l.fields|)
    case Some(i) => AfterKnown(l.fields[i], wire, p)
    case None =>
      if AtTerminator(l, tag) then AfterKnown(Field(0, Required, Bool), wire, p) else SkipField(p, wire)
  }

  /** A field with this number stands at some field boundary of the input. */
  ghost predicate TagIn(l: LType, p: Bytes, tag: nat)
    requires l.Submessage?
    decreases |p|
  {
    && p != [] && ReadTag(p).TagIs?
    && (ReadTag(p).tag == tag ||
         var after := AfterBody(l, ReadTag(p).tag, ReadTag(p).wire, ReadTag(p).rest);
         after.Some? && |after.value| < |p| && TagIn(l, after.value, tag))
  }

  lemma SlotEnds(f: Field, wire: nat, slot: Slot, p: Bytes)
    ensures var got := DecodeSlot(f, wire, slot, p);
            got.GotSlot? ==> AfterKnown(f, wire, p) == Some(got.rest)
  {
  }

  /** One round of the loop. */
  lemma DecodeStep(l: LType, p: Bytes, st: State) returns (st': State)
    requires l.Submessage? && |st.slots| == |l.fields|
    requires p != [] && ReadTag(p).TagIs? && DecodeFields(l, p, st).Some?
    ensures var TagIs(tag, wire, rest) := ReadTag(p);
            var after := AfterBody(l, tag, wire, rest);
            && after.Some? && |after.value| < |p| && |st'.slots| == |l.fields|
            && DecodeFields(l, p, st) == DecodeFields(l, after.value, st')
            && st'.seen == match FieldIndex(l.fields, tag, |l.fields|)
                           case Some(i) => Seen(l.fields, i, st.seen)
                           case None => if AtTerminator(l, tag) then st.seen + {0} else st.seen
  {
    Varint32Consumes(p);
    var TagIs(tag, wire, rest) := ReadTag(p);
    SkipShrinks(rest, wire);
    Varint32Consumes(rest);
    match FieldIndex(l.fields, tag, |l.fields|)
    case Some(i) =>
      SlotEnds(l.fields[i], wire, st.slots[i], rest);
      var got := DecodeSlot(l.fields[i], wire, st.slots[i], rest);
      st' := State(SetSlot(l.fields, st.slots, i, got.slot), Seen(l.fields, i, st.seen));
    case None =>
      st' := State(st.slots, if AtTerminator(l, tag) then st.seen + {0} else st.seen);
  }

  // ---------------------------------------------------------------------------
  // Required fields
  // ---------------------------------------------------------------------------

  /** The required fields before field `i`. */
  function RequiredBefore(fields: seq<Field>, i: nat): set<nat>
    requires i <= |fields|
  {
    set j: nat | j < i && fields[j].htype.Required?
  }

  lemma {:induction false} CountIsNumber(fields: seq<Field>, i: nat)
    requires i <= |fields|
    ensures CountRequired(fields, i) == |RequiredBefore(fields, i)|
  {
    if i == 0 {
      assert RequiredBefore(fields, 0) == {};
    } else {
      CountIsNumber(fields, i - 1);
      assert RequiredBefore(fields, i) ==
             RequiredBefore(fields, i - 1) + if fields[i - 1].htype.Required? then {i - 1} else {};
    }
  }

  lemma RequiredCountsDiffer(fields: seq<Field>, i: nat, j: nat)
    requires i < |fields| && j < |fields| && fields[i].htype.Required? && fields[j].htype.Required? && i != j
    ensures CountRequired(fields, i) != CountRequired(fields, j)
  {
    if i < j {
      CountGrows(fields, i + 1, j);
    } else {
      CountGrows(fields, j + 1, i);
    }
  }

  /** A tracked required field is seen exactly if it was before or its number is in the input. */
  lemma {:induction false} SeenExactly(l: LType, p: Bytes, st: State, i: nat)
    requires l.Submessage? && DistinctTags(l.fields) && |st.slots| == |l.fields| && DecodeFields(l, p, st).Some?
    requires i < |l.fields| && l.fields[i].htype.Required? && CountRequired(l.fields, i) < MAX_REQUIRED_FIELDS
    ensures var n := CountRequired(l.fields, i);
            n in DecodeFields(l, p, st).value.seen <==> n in st.seen || TagIn(l, p, l.fields[i].tag)
    decreases |p|
  {
    if p != [] && ReadTag(p).TagIs? {
      var TagIs(tag, wire, rest) := ReadTag(p);
      var st' := DecodeStep(l, p, st);
      SeenExactly(l, AfterBody(l, tag, wire, rest).value, st', i);
      var j := FieldIndex(l.fields, tag, |l.fields|);
      if j.Some? && j.value != i && l.fields[j.value].htype.Required? {
        RequiredCountsDiffer(l.fields, i, j.value);
      }
    }
  }

  /** An input whose fields decode is accepted as a message exactly if each of the first 64 required fields
      has its number at one of the input's field boundaries. */
  lemma RequiredFieldsDecide(l: LType, slots: seq<Slot>, p: Bytes)
    requires l.Submessage? && DistinctTags(l.fields) && |slots| == |l.fields|
    ensures DecodeMessage(l, slots, p).Some? <==>
      && DecodeFields(l, p, State(slots, {})).Some?
      && forall i :: 0 <= i < |l.fields| && l.fields[i].htype.Required? && |RequiredBefore(l.fields, i)| < 64 ==>
           TagIn(l, p, l.fields[i].tag)
  {
    var st := State(slots, {});
    if DecodeFields(l, p, st).Some? {
      SeenByNumber(l.fields, DecodeFields(l, p, st).value.seen);
      forall i | 0 <= i < |l.fields| && l.fields[i].htype.Required?
        ensures CountRequired(l.fields, i) == |RequiredBefore(l.fields, i)|
        ensures |RequiredBefore(l.fields, i)| < 64 ==>
          (CountRequired(l.fields, i) in DecodeFields(l, p, st).value.seen <==> TagIn(l, p, l.fields[i].tag))
      {
        CountIsNumber(l.fields, i);
        if CountRequired(l.fields, i) < MAX_REQUIRED_FIELDS {
          SeenExactly(l, p, st, i);
        }
      }
    }
  }

  // ---------------------------------------------------------------------------
  // One input after another
  // ---------------------------------------------------------------------------

  lemma TailOfJoined(p: Bytes, q: Bytes, n: nat)
    requires n <= |p|
    ensures (p + q)[n..] == p[n..] + q && (p + q)[..n] == p[..n]
  {
  }

  lemma {:induction false} MoreLocal(p: Bytes, q: Bytes, result: nat, bitpos: nat)
    ensures var r := MoreVarint32(p, result, bitpos);
            r.Parsed? ==> MoreVarint32(p + q, result, bitpos) == Parsed(r.value, r.rest + q)
    decreases |p|
  {
    if p != [] {
      TailOfJoined(p, q, 1);
      MoreLocal(p[1..], q, if bitpos >= 32 then result else OrGroup(result, p[0], bitpos), (bitpos + 7) % 256);
    }
  }

  lemma Varint32Local(p: Bytes, q: Bytes)
    ensures var r := ReadVarint32(p); r.Parsed? ==> ReadVarint32(p + q) == Parsed(r.value, r.rest + q)
  {
    if p != [] {
      TailOfJoined(p, q, 1);
      MoreLocal(p[1..], q, p[0] % 128, 7);
    }
  }

  lemma {:induction false} ParseLocal(p: Bytes, q: Bytes, left: nat, result: nat, scale: nat, modulus: nat)
    requires modulus > 0
    ensures var r := ParseVarint(p, left, result, scale, modulus);
            r.Parsed? ==> ParseVarint(p + q, left, result, scale, modulus) == Parsed(r.value, r.rest + q)
    decreases left
  {
    if left > 0 && p != [] {
      TailOfJoined(p, q, 1);
      ParseLocal(p[1..], q, left - 1, Accumulate(result, p[0], scale, modulus), scale * 128, modulus);
    }
  }

  lemma {:induction false} AfterVarintLocal(p: Bytes, q: Bytes)
    ensures AfterVarint(p).Some? ==> AfterVarint(p + q) == Some(AfterVarint(p).value + q)
    decreases |p|
  {
    if p != [] {
      TailOfJoined(p, q, 1);
      AfterVarintLocal(p[1..], q);
    }
  }

  lemma SkipBytesLocal(p: Bytes, q: Bytes, n: nat)
    ensures SkipBytes(p, n).Some? ==> SkipBytes(p + q, n) == Some(SkipBytes(p, n).value + q)
  {
    if n <= |p| {
      TailOfJoined(p, q, n);
    }
  }

  lemma SkipLocal(p: Bytes, q: Bytes, wire: nat)
    ensures SkipField(p, wire).Some? ==> SkipField(p + q, wire) == Some(SkipField(p, wire).value + q)
  {
    AfterVarintLocal(p, q);
    SkipBytesLocal(p, q, 4);
    SkipBytesLocal(p, q, 8);
    Varint32Local(p, q);
    if ReadVarint32(p).Parsed? {
      SkipBytesLocal(ReadVarint32(p).rest, q, ReadVarint32(p).value);
    }
  }

  lemma BytesLocal(limit: nat, p: Bytes, q: Bytes)
    ensures var got := DecodeBytes(limit, p); got.Got? ==> DecodeBytes(limit, p + q) == Got(got.v, got.rest + q)
  {
    Varint32Local(p, q);
    var r := ReadVarint32(p);
    if r.Parsed? && r.value <= |r.rest| {
      TailOfJoined(r.rest, q, r.value);
    }
  }

  lemma FixedLengthLocal(n: nat, p: Bytes, q: Bytes)
    ensures var got := DecodeFixedLength(n, p); got.Got? ==> DecodeFixedLength(n, p + q) == Got(got.v, got.rest + q)
  {
    Varint32Local(p, q);
    var r := ReadVarint32(p);
    if r.Parsed? && n <= |r.rest| {
      TailOfJoined(r.rest, q, n);
    }
  }

  lemma ScalarLocal(l: LType, p: Bytes, q: Bytes)
    requires !l.Submessage?
    ensures var got := DecodeScalar(l, p); got.Got? ==> DecodeScalar(l, p + q) == Got(got.v, got.rest + q)
  {
    match l
    case Bool => Varint32Local(p, q);
    case VarInt(_) => ParseLocal(p, q, 10, 0, 1, TWO64);
    case UVarInt(_) => ParseLocal(p, q, 10, 0, 1, TWO64);
    case SVarInt(_) => ParseLocal(p, q, 10, 0, 1, TWO64);
    case Fixed32 => if |p| >= 4 { TailOfJoined(p, q, 4); }
    case Fixed64 => if |p| >= 8 { TailOfJoined(p, q, 8); }
    case BytesArray(max) => BytesLocal(max, p, q);
    case CString(size) => if size > 0 { BytesLocal(size - 1, p, q); }
    case FixedLengthBytes(n) => FixedLengthLocal(n, p, q);
  }

  lemma DatumLocal(l: LType, base: Datum, p: Bytes, q: Bytes)
    ensures var got := DecodeDatum(l, base, p); got.Got? ==> DecodeDatum(l, base, p + q) == Got(got.v, got.rest + q)
  {
    if !l.Submessage? {
      ScalarLocal(l, p, q);
    } else {
      Varint32Local(p, q);
      var r := ReadVarint32(p);
      if r.Parsed? && r.value <= |r.rest| {
        TailOfJoined(r.rest, q, r.value);
      }
    }
  }

  lemma SlotLocal(f: Field, wire: nat, slot: Slot, p: Bytes, q: Bytes)
    ensures var got := DecodeSlot(f, wire, slot, p);
            got.GotSlot? ==> DecodeSlot(f, wire, slot, p + q) == GotSlot(got.slot, got.rest + q)
  {
    DatumLocal(f.ltype, if f.htype.Repeated? || slot == [] then Default(f.ltype) else slot[0], p, q);
    Varint32Local(p, q);
    var r := ReadVarint32(p);
    if r.Parsed? && r.value <= |r.rest| {
      TailOfJoined(r.rest, q, r.value);
    }
  }

  lemma TagLocal(p: Bytes, q: Bytes)
    requires ReadTag(p).TagIs?
    ensures var TagIs(tag, wire, rest) := ReadTag(p); ReadTag(p + q) == TagIs(tag, wire, rest + q)
  {
    Varint32Local(p, q);
  }

  /** The input is used up field by field, without a zero where a tag is due. */
  ghost predicate Whole(l: LType, p: Bytes)
    requires l.Submessage?
    decreases |p|
  {
    p == [] ||
      (ReadTag(p).TagIs? &&
        var after := AfterBody(l, ReadTag(p).tag, ReadTag(p).wire, ReadTag(p).rest);
        after.Some? && |after.value| < |p| && Whole(l, after.value))
  }

  /** One field at the front of the input. */
  lemma OneField(l: LType, p: Bytes, st: State, q: Bytes) returns (st': State)
    requires l.Submessage? && |st.slots| == |l.fields| && p != [] && ReadTag(p).TagIs?
    requires DecodeFields(l, p, st).Some?
    ensures var TagIs(tag, wire, rest) := ReadTag(p);
            var after := AfterBody(l, tag, wire, rest);
            && after.Some? && |after.value| < |p| && |st'.slots| == |l.fields|
            && DecodeFields(l, p, st) == DecodeFields(l, after.value, st')
            && DecodeFields(l, p + q, st) == DecodeFields(l, after.value + q, st')
  {
    Varint32Consumes(p);
    var TagIs(tag, wire, rest) := ReadTag(p);
    TagLocal(p, q);
    SkipShrinks(rest, wire);
    Varint32Consumes(rest);
    match FieldIndex(l.fields, tag, |l.fields|)
    case Some(i) =>
      SlotEnds(l.fields[i], wire, st.slots[i], rest);
      SlotLocal(l.fields[i], wire, st.slots[i], rest, q);
      var got := DecodeSlot(l.fields[i], wire, st.slots[i], rest);
      st' := State(SetSlot(l.fields, st.slots, i, got.slot), Seen(l.fields, i, st.seen));
    case None =>
      SkipLocal(rest, q, wire);
      Varint32Local(rest, q);
      st' := State(st.slots, if AtTerminator(l, tag) then st.seen + {0} else st.seen);
  }

  /** Decoding one input after another is decoding them in turn. */
  lemma {:induction false} DecodeInTurn(l: LType, a: Bytes, b: Bytes, st: State)
    requires l.Submessage? && |st.slots| == |l.fields| && Whole(l, a) && DecodeFields(l, a, st).Some?
    ensures DecodeFields(l, a + b, st) == DecodeFields(l, b, DecodeFields(l, a, st).value)
    decreases |a|
  {
    if a == [] {
      assert a + b == b;
    } else {
      var st' := OneField(l, a, st, b);
      DecodeInTurn(l, AfterBody(l, ReadTag(a).tag, ReadTag(a).wire, ReadTag(a).rest).value, b, st');
    }
  }

  /** A zero where a tag is due ends the message, whatever follows. */
  lemma ZeroEndsInput(l: LType, a: Bytes, b: Bytes, st: State)
    requires l.Submessage? && |st.slots| == |l.fields| && Whole(l, a) && DecodeFields(l, a, st).Some?
    ensures DecodeFields(l, a + ([0] + b), st) == DecodeFields(l, a, st)
  {
    DecodeInTurn(l, a, [0] + b, st);
    assert ReadTag([0] + b) == ZeroTag(([0] + b)[1..]);
  }

  // ---------------------------------------------------------------------------
  // What each field does
  // ---------------------------------------------------------------------------

  /** The four kinds of bodies of the wire format. */
  datatype Body = Number(n: nat) | Eight(bytes: Bytes) | Block(bytes: Bytes) | Four(bytes: Bytes)

  predicate BodyOk(body: Body) {
    match body
    case Number(n) => n < TWO64
    case Eight(bytes) => |bytes| == 8
    case Block(bytes) => |bytes| < TWO32
    case Four(bytes) => |bytes| == 4
  }

  /** A field with any number, as any protobuf encoder writes it. */
  function AnyField(tag: nat, body: Body): Bytes {
    match body
    case Number(n) => Varint(tag * 8) + Varint(n)
    case Eight(bytes) => Varint(tag * 8 + 1) + bytes
    case Block(bytes) => Varint(tag * 8 + 2) + (Varint(|bytes|) + bytes)
    case Four(bytes) => Varint(tag * 8 + 5) + bytes
  }

  lemma {:induction false} VarintSkipped(n: nat, rest: Bytes)
    ensures AfterVarint(Varint(n) + rest) == Some(rest)
    decreases n
  {
    Head(n, rest);
    if n >= 128 {
      VarintSkipped(n / 128, rest);
    }
  }

  lemma BodySkipped(tag: nat, body: Body, rest: Bytes) returns (wire: nat, bytes: Bytes)
    requires 0 < tag < 0x2000_0000 && BodyOk(body)
    ensures wire < 8 && AnyField(tag, body) == EncodeTag(wire, tag) + bytes
    ensures SkipField(bytes + rest, wire) == Some(rest)
  {
    match body
    case Number(n) =>
      wire, bytes := 0, Varint(n);
      VarintSkipped(n, rest);
    case Eight(b) =>
      wire, bytes := 1, b;
      TailOfJoined(b, rest, 8);
    case Block(b) =>
      wire, bytes := 2, Varint(|b|) + b;
      Regroup(Varint(|b|), b, rest);
      Varint32Exact(|b|, b + rest);
      TailOfJoined(b, rest, |b|);
    case Four(b) =>
      wire, bytes := 5, b;
      TailOfJoined(b, rest, 4);
  }

  /** A field whose number the type does not have can stand at any field boundary without a difference. */
  lemma UnknownFieldIgnored(l: LType, a: Bytes, tag: nat, body: Body, b: Bytes, st: State)
    requires l.Submessage? && |st.slots| == |l.fields| && Whole(l, a) && DecodeFields(l, a, st).Some?
    requires 0 < tag < 0x2000_0000 && BodyOk(body) && forall i :: 0 <= i < |l.fields| ==> l.fields[i].tag != tag
    ensures DecodeFields(l, a + (AnyField(tag, body) + b), st) == DecodeFields(l, a + b, st)
  {
    var st' := DecodeFields(l, a, st).value;
    DecodeInTurn(l, a, AnyField(tag, body) + b, st);
    DecodeInTurn(l, a, b, st);
    var wire, bytes := BodySkipped(tag, body, b);
    Regroup(EncodeTag(wire, tag), bytes, b);
    TagExact(wire, tag, bytes + b);
    assert FieldIndex(l.fields, tag, |l.fields|).None?;
  }

  /** Field `i` set to `slot`, the other members of its oneof unset, and nothing else. */
  ghost predicate SetTo(fields: seq<Field>, slots: seq<Slot>, slots': seq<Slot>, i: nat, slot: Slot)
    requires i < |fields| == |slots|
  {
    && |slots'| == |slots| && slots'[i] == slot
    && forall j :: 0 <= j < |slots| && j != i ==>
         slots'[j] == if fields[i].htype.OneOf? && fields[j].htype == fields[i].htype then [] else slots[j]
  }

  /** A single scalar field takes the value it has last, whatever it held. */
  lemma LastValueWins(l: LType, a: Bytes, i: nat, v: Datum, b: Bytes, st: State) returns (now: State, after: State)
    requires l.Submessage? && DistinctTags(l.fields) && |st.slots| == |l.fields|
    requires Whole(l, a) && DecodeFields(l, a, st).Some?
    requires i < |l.fields| && !l.fields[i].htype.Repeated? && !l.fields[i].ltype.Submessage?
    requires Good(l.fields[i].ltype, v) && Small(EncodeDatum(l.fields[i].ltype, v))
    ensures now == DecodeFields(l, a, st).value && SetTo(l.fields, now.slots, after.slots, i, [v])
    ensures var f := l.fields[i];
            DecodeFields(l, a + (EncodeTag(WireType(f.ltype), f.tag) + EncodeDatum(f.ltype, v).value + b), st)
            == DecodeFields(l, b, after)
  {
    var f := l.fields[i];
    var body := EncodeDatum(f.ltype, v).value;
    now := DecodeFields(l, a, st).value;
    after := State(SetSlot(l.fields, now.slots, i, [v]), Seen(l.fields, i, now.seen));
    DecodeInTurn(l, a, EncodeTag(WireType(f.ltype), f.tag) + body + b, st);
    DatumRoundTrip(f.ltype, v, if now.slots[i] == [] then Default(f.ltype) else now.slots[i][0], b);
    TakeField(l, i, WireType(f.ltype), body, b, now, [v]);
  }

  /** An element of an array goes behind those it has, and is refused once the array is full. */
  lemma ElementAppended(l: LType, a: Bytes, i: nat, v: Datum, b: Bytes, st: State) returns (now: State, after: State)
    requires l.Submessage? && DistinctTags(l.fields) && |st.slots| == |l.fields|
    requires Whole(l, a) && DecodeFields(l, a, st).Some? && i < |l.fields| && l.fields[i].htype.Repeated?
    requires Good(l.fields[i].ltype, v) && Small(EncodeDatum(l.fields[i].ltype, v))
    ensures now == DecodeFields(l, a, st).value && SetTo(l.fields, now.slots, after.slots, i, now.slots[i] + [v])
    ensures var f := l.fields[i];
            DecodeFields(l, a + (EncodeTag(WireType(f.ltype), f.tag) + EncodeDatum(f.ltype, v).value + b), st)
            == if |now.slots[i]| < f.htype.arraySize then DecodeFields(l, b, after) else None
  {
    var f := l.fields[i];
    var wire, body := WireType(f.ltype), EncodeDatum(f.ltype, v).value;
    now := DecodeFields(l, a, st).value;
    after := State(SetSlot(l.fields, now.slots, i, now.slots[i] + [v]), now.seen);
    DecodeInTurn(l, a, EncodeTag(wire, f.tag) + body + b, st);
    if |now.slots[i]| < f.htype.arraySize {
      DatumRoundTrip(f.ltype, v, Default(f.ltype), b);
      TakeField(l, i, wire, body, b, now, now.slots[i] + [v]);
    } else {
      Regroup(EncodeTag(wire, f.tag), body, b);
      TagExact(wire, f.tag, body + b);
      FieldIndexIs(l.fields, i, |l.fields|);
      assert DecodeSlot(f, wire, now.slots[i], body + b) == NoSlot;
    }
  }

  /** A message given in two blocks, each complete, is the message of both blocks together. */
  lemma BlocksMerge(l: LType, slots: seq<Slot>, a: Bytes, b: Bytes)
    requires l.Submessage? && DistinctTags(l.fields) && |slots| == |l.fields| && Whole(l, a)
    requires DecodeMessage(l, slots, a).Some?
    ensures var first := DecodeMessage(l, slots, a).value;
            DecodeMessage(l, first, b).Some? ==> DecodeMessage(l, slots, a + b) == DecodeMessage(l, first, b)
  {
    var st := DecodeFields(l, a, State(slots, {})).value;
    DecodeInTurn(l, a, b, State(slots, {}));
    SeenApart(l, b, st.slots, {}, st.seen);
    SeenByNumber(l.fields, st.seen);
  }

  /** What was seen before decides neither whether the fields decode nor to what, and stays seen. */
  lemma {:induction false} SeenApart(l: LType, p: Bytes, slots: seq<Slot>, seen: set<nat>, more: set<nat>)
    requires l.Submessage? && |slots| == |l.fields| && seen <= more
    ensures var r, r' := DecodeFields(l, p, State(slots, seen)), DecodeFields(l, p, State(slots, more));
            && (r.Some? <==> r'.Some?) && (r.Some? ==> r'.value.slots == r.value.slots)
            && (r.Some? ==> more <= r'.value.seen && r.value.seen <= r'.value.seen)
    decreases |p|
  {
    if p != [] && ReadTag(p).TagIs? {
      Varint32Consumes(p);
      var TagIs(tag, wire, rest) := ReadTag(p);
      SkipShrinks(rest, wire);
      Varint32Consumes(rest);
      match FieldIndex(l.fields, tag, |l.fields|)
      case Some(i) =>
        var got := DecodeSlot(l.fields[i], wire, slots[i], rest);
        if got.GotSlot? {
          SeenApart(l, got.rest, SetSlot(l.fields, slots, i, got.slot), Seen(l.fields, i, seen),
              Seen(l.fields, i, more));
        }
      case None =>
        if AtTerminator(l, tag) {
          var got := DecodeBool(rest);
          if got.Got? {
            SeenApart(l, got.rest, slots, seen + {0}, more + {0});
          }
        } else if SkipField(rest, wire).Some? {
          SeenApart(l, SkipField(rest, wire).value, slots, seen, more);
        }
    }
  }

  // ---------------------------------------------------------------------------
  // Numbers on the wire
  // ---------------------------------------------------------------------------

  /** Of the 64-bit numbers an unsigned field takes those that fit it. */
  lemma UnsignedOnTheWire(w: Width, n: nat, rest: Bytes)
    requires n < TWO64
    ensures DecodeScalar(UVarInt(w), Varint(n) + rest) == if n < Modulus(w) then Got(Num(n), rest) else NoDatum
  {
    Varint64RoundTrip(n, rest);
    FromUnsigned(w, Varint(n) + rest, n, rest);
  }

  /** A zigzag field takes every second number for a negative one. */
  lemma ZigZagOnTheWire(w: Width, n: nat, rest: Bytes)
    requires n < TWO64
    ensures var v := if n % 2 == 0 then n / 2 else -((n + 1) / 2);
            DecodeScalar(SVarInt(w), Varint(n) + rest) == if InSigned(w, v) then Got(Num(v), rest) else NoDatum
  {
    Varint64RoundTrip(n, rest);
    FromZigZag(w, Varint(n) + rest, n, rest);
  }

  function TwosComplement(w: Width, n: nat): int {
    if w == W64 then (if n < 0x8000_0000_0000_0000 then n else n - 0x1_0000_0000_0000_0000)
    else
      var low := n % 0x1_0000_0000;
      if low < 0x8000_0000 then low else low - 0x1_0000_0000
  }

  /** A signed field of up to 32 bits takes the low 32 bits in two's complement, a wider one all 64, and
      refuses what is out of its range. */
  lemma SignedOnTheWire(w: Width, n: nat, rest: Bytes)
    requires n < TWO64
    ensures var v := TwosComplement(w, n);
            DecodeScalar(VarInt(w), Varint(n) + rest) == if InSigned(w, v) then Got(Num(v), rest) else NoDatum
  {
    Varint64RoundTrip(n, rest);
    FromSigned(w, Varint(n) + rest, n, rest);
  }

  lemma FromUnsigned(w: Width, p: Bytes, n: nat, rest: Bytes)
    requires GetVarint64(p) == Parsed(n, rest)
    ensures DecodeScalar(UVarInt(w), p) == if n < Modulus(w) then Got(Num(n), rest) else NoDatum
  {
  }

  lemma FromZigZag(w: Width, p: Bytes, n: nat, rest: Bytes)
    requires GetVarint64(p) == Parsed(n, rest)
    ensures var v := if n % 2 == 0 then n / 2 else -((n + 1) / 2);
            DecodeScalar(SVarInt(w), p) == if InSigned(w, v) then Got(Num(v), rest) else NoDatum
  {
  }

  lemma FromSigned(w: Width, p: Bytes, n: nat, rest: Bytes)
    requires n < TWO64 && GetVarint64(p) == Parsed(n, rest)
    ensures var v := TwosComplement(w, n);
            DecodeScalar(VarInt(w), p) == if InSigned(w, v) then Got(Num(v), rest) else NoDatum
  {
    assert TwosComplement(w, n) == LowSigned(w, n);
  }

  /** A boolean asks whether the number is 0. */
  lemma BoolOnTheWire(n: nat, rest: Bytes)
    requires n < TWO32
    ensures DecodeScalar(Bool, Varint(n) + rest) == Got(Num(if n == 0 then 0 else 1), rest)
  {
    Varint32Exact(n, rest);
  }

  /** The first example of the protobuf encoding guide: field 1 with value 150, and a string in field 2. */
  lemma GuideExample()
    ensures EncodeTag(WireType(VarInt(W32)), 1) + EncodeDatum(VarInt(W32), Num(150)).value == [0x08, 0x96, 0x01]
    ensures EncodeTag(WireType(CString(8)), 2) == [0x12]
    ensures EncodeDatum(SVarInt(W32), Num(-2)) == Some([3]) && EncodeDatum(SVarInt(W32), Num(1)) == Some([2])
    ensures |EncodeDatum(VarInt(W32), Num(-2)).value| == 10
  {
  }
}
