/** The nanopb encoder: what a message's encoding is, and the passes that size and write it. */
module PbEncode {
  import opened DbFormat
  import opened Coding
  import opened PbCommon

  const WT_VARINT := 0
  const WT_64BIT := 1
  const WT_STRING := 2
  const WT_32BIT := 5

  // ---------------------------------------------------------------------------
  // The encoding
  // ---------------------------------------------------------------------------

  /** Two pieces in a row, if neither is an error. */
  function Cat(a: Option<Bytes>, b: Option<Bytes>): Option<Bytes> {
    if a.Some? && b.Some? then Some(a.value + b.value) else None
  }

  function WireType(l: LType): nat {
    match l
    case Fixed32 => WT_32BIT
    case Fixed64 => WT_64BIT
    case BytesArray(_) => WT_STRING
    case CString(_) => WT_STRING
    case Submessage(_) => WT_STRING
    case FixedLengthBytes(_) => WT_STRING
    case _ => WT_VARINT
  }

  function EncodeTag(wire: nat, tag: nat): Bytes {
    Varint(tag * 8 + wire)
  }

  /** The 64-bit pattern of a signed number. */
  function Unsigned64(n: int): (r: nat)
    requires -(TWO64 / 2) <= n < TWO64 / 2
    ensures r < TWO64
  {
    if n < 0 then n + TWO64 else n
  }

  function ZigZag(n: int): nat {
    if n < 0 then -2 * n - 1 else 2 * n
  }

  /** The string in a C array: its bytes up to the first NUL, or all of them. */
  function UpToNul(b: Bytes): Bytes
    decreases |b|
  {
    if b == [] || b[0] == 0 then [] else [b[0]] + UpToNul(b[1..])
  }

  function EncodeDatum(l: LType, v: Datum): Option<Bytes>
    requires Stored(l, v)
    decreases l, 1, 0
  {
    match l
    case Bool => Some(Varint(if v.n != 0 then 1 else 0))
    case VarInt(_) => Some(Varint(Unsigned64(v.n)))
    case UVarInt(_) => Some(Varint(v.n))
    case SVarInt(_) => Some(Varint(ZigZag(v.n)))
    case Fixed32 => Some(EncodeFixed32(v.n))
    case Fixed64 => Some(EncodeFixed64(v.n))
    case BytesArray(max) => if |v.bytes| > max then None else Some(LengthPrefixed(v.bytes))
    case CString(_) => Some(LengthPrefixed(UpToNul(v.bytes)))
    case FixedLengthBytes(_) => Some(LengthPrefixed(v.bytes))
    case Submessage(_) => Prefixed(EncodeFrom(l, v.slots, 0))
  }

  function Prefixed(e: Option<Bytes>): Option<Bytes> {
    if e.Some? then Some(LengthPrefixed(e.value)) else None
  }

  /** The elements from the k-th on, one after the other, each behind a tag if `tagged`. */
  function EncodeItems(f: Field, slot: Slot, k: nat, tagged: bool): Option<Bytes>
    requires StoredSlot(f, slot) && k <= |slot|
    decreases f.ltype, 2, |slot| - k
  {
    if k == |slot| then Some([])
    else
      Cat(Cat(Some(if tagged then EncodeTag(WireType(f.ltype), f.tag) else []), EncodeDatum(f.ltype, slot[k])),
          EncodeItems(f, slot, k + 1, tagged))
  }

  /** A repeated field: nothing if empty, one packed block if the type allows it, and otherwise each element
      behind its own tag. */
  function EncodeArray(f: Field, slot: Slot): Option<Bytes>
    requires StoredSlot(f, slot) && f.htype.Repeated?
    decreases f.ltype, 3, 0
  {
    if slot == [] then Some([])
    else if |slot| > f.htype.arraySize then None
    else if Packable(f.ltype) then Cat(Some(EncodeTag(WT_STRING, f.tag)), Prefixed(EncodeItems(f, slot, 0, false)))
    else EncodeItems(f, slot, 0, true)
  }

  function EncodeSlot(f: Field, slot: Slot): Option<Bytes>
    requires StoredSlot(f, slot)
    decreases f.ltype, 4, 0
  {
    if f.htype.Repeated? then EncodeArray(f, slot)
    else if slot == [] then Some([])
    else Cat(Some(EncodeTag(WireType(f.ltype), f.tag)), EncodeDatum(f.ltype, slot[0]))
  }

  /** The fields of a message from the i-th on. */
  function EncodeFrom(l: LType, slots: seq<Slot>, i: nat): Option<Bytes>
    requires l.Submessage? && Stored(l, Message(slots)) && i <= |l.fields|
    decreases l, 0, |l.fields| - i
  {
    if i == |l.fields| then Some([])
    else Cat(EncodeSlot(l.fields[i], slots[i]), EncodeFrom(l, slots, i + 1))
  }

  /** A message is encodable exactly if its arrays and byte strings are no longer than their storage. */
  lemma EncodesExactly(l: LType, v: Datum)
    requires Stored(l, v)
    ensures EncodeDatum(l, v).Some? <==> Fits(l, v)
    decreases l, 1, 0
  {
    if l.Submessage? {
      FromEncodes(l, v.slots, 0);
    }
  }

  lemma FromEncodes(l: LType, slots: seq<Slot>, i: nat)
    requires l.Submessage? && Stored(l, Message(slots)) && i <= |l.fields|
    ensures EncodeFrom(l, slots, i).Some? <==> forall j :: i <= j < |l.fields| ==> SlotFits(l.fields[j], slots[j])
    decreases l, 0, |l.fields| - i
  {
    if i < |l.fields| {
      SlotEncodes(l.fields[i], slots[i]);
      FromEncodes(l, slots, i + 1);
    }
  }

  lemma SlotEncodes(f: Field, slot: Slot)
    requires StoredSlot(f, slot)
    ensures EncodeSlot(f, slot).Some? <==> SlotFits(f, slot)
    decreases f.ltype, 3, 0
  {
    if slot != [] {
      EncodesExactly(f.ltype, slot[0]);
      ItemsEncode(f, slot, 0, true);
      ItemsEncode(f, slot, 0, false);
    }
  }

  lemma ItemsEncode(f: Field, slot: Slot, k: nat, tagged: bool)
    requires StoredSlot(f, slot) && k <= |slot|
    ensures EncodeItems(f, slot, k, tagged).Some? <==> forall j :: k <= j < |slot| ==> Fits(f.ltype, slot[j])
    decreases f.ltype, 2, |slot| - k
  {
    if k < |slot| {
      EncodesExactly(f.ltype, slot[k]);
      ItemsEncode(f, slot, k + 1, tagged);
    }
  }

  // ---------------------------------------------------------------------------
  // Output streams
  // ---------------------------------------------------------------------------

  /** A stream: where it writes (nothing when only sizing), its limit, and what it has taken so far. */
  datatype Out = Out(sizing: bool, maxSize: nat, bytesWritten: nat, buffer: Bytes)

  /** The pass took exactly `e`: a sizing pass counts it, a writing pass appends it and succeeds only if
      it fits. */
  ghost predicate Took(ok: bool, e: Option<Bytes>, before: Out, after: Out) {
    && after.sizing == before.sizing && after.maxSize == before.maxSize
    && (ok <==> e.Some? && (before.sizing || before.bytesWritten + |e.value| <= before.maxSize))
    && (ok ==> after.bytesWritten == before.bytesWritten + |e.value|
               && after.buffer == if before.sizing then before.buffer else before.buffer + e.value)
    && (!before.sizing ==> after.bytesWritten <= after.maxSize)
    && (before.sizing ==> after.buffer == before.buffer)
  }

  ghost predicate Room(s: Out) {
    !s.sizing ==> s.bytesWritten <= s.maxSize
  }

  lemma TookBoth(ok: bool, a: Option<Bytes>, b: Option<Bytes>, s: Out, t: Out, u: Out)
    requires Took(true, a, s, t) && Took(ok, b, t, u)
    ensures Took(ok, Cat(a, b), s, u)
  {
    if a.Some? && b.Some? {
      assert s.buffer + a.value + b.value == s.buffer + (a.value + b.value);
    }
  }

  lemma TookFirst(a: Option<Bytes>, b: Option<Bytes>, s: Out, t: Out)
    requires Took(false, a, s, t)
    ensures Took(false, Cat(a, b), s, t)
  {
  }

  lemma TookNothing(s: Out)
    requires Room(s)
    ensures Took(true, Some([]), s, s)
  {
    assert s.buffer + [] == s.buffer;
  }

  class OStream {
    const sizing: bool
    const maxSize: nat
    var bytesWritten: nat
    var buffer: Bytes

    constructor Sizing()
      ensures Contents() == Out(true, 0, 0, [])
    {
      sizing, maxSize, bytesWritten, buffer := true, 0, 0, [];
    }

    /** A stream that goes on writing after `buffer`, with its own count and limit. */
    constructor Writing(buffer: Bytes, maxSize: nat)
      ensures Contents() == Out(false, maxSize, 0, buffer)
    {
      sizing, this.maxSize, bytesWritten, this.buffer := false, maxSize, 0, buffer;
    }

    function Contents(): Out
      reads this
    {
      Out(sizing, maxSize, bytesWritten, buffer)
    }

    method Write(buf: Bytes) returns (ok: bool)
      requires Room(Contents())
      modifies this
      ensures Took(ok, Some(buf), old(Contents()), Contents())
    {
      if |buf| > 0 && !sizing {
        if bytesWritten + |buf| > maxSize {
          return false;
        }
        buffer := buffer + buf;
      }
      assert buf == [] ==> buffer + buf == buffer;
      bytesWritten := bytesWritten + |buf|;
      ok := true;
    }

    /** A write of a known number of bytes while sizing. */
    method Count(size: nat)
      requires sizing
      modifies this
      ensures Contents() == old(Contents()).(bytesWritten := old(bytesWritten) + size)
    {
      bytesWritten := bytesWritten + size;
    }
  }

  // ---------------------------------------------------------------------------
  // Writing values
  // ---------------------------------------------------------------------------

  lemma TopBitOff(buffer: Bytes, b: Byte)
    requires b < 128
    ensures var more: Bytes := buffer + [b + 128]; more[|more| - 1 := more[|more| - 1] % 128] == buffer + [b]
  {
  }

  /** Seven bits at a time with the top bit set, then the top bit of the last byte cleared. */
  method VarintBytes(value: nat) returns (buffer: Bytes)
    ensures buffer == Varint(value)
  {
    if value <= 0x7f {
      return [value];
    }
    buffer := [];
    var v: nat := value;
    ghost var before: Bytes, last: Byte := [], 0;
    while v > 0
      invariant v > 0 ==> buffer + Varint(v) == Varint(value)
      invariant v == 0 ==> last < 128 && buffer == before + [last + 128] && before + [last] == Varint(value)
    {
      Regroup(buffer, [v % 128 + 128], Varint(v / 128));
      before, last := buffer, v % 128;
      buffer := buffer + [v % 128 + 128];
      v := v / 128;
    }
    TopBitOff(before, last);
    buffer := buffer[|buffer| - 1 := buffer[|buffer| - 1] % 128];
  }

  method WriteVarint(s: OStream, value: nat) returns (ok: bool)
    requires Room(s.Contents())
    modifies s
    ensures Took(ok, Some(Varint(value)), old(s.Contents()), s.Contents())
  {
    var bytes := VarintBytes(value);
    ok := s.Write(bytes);
  }

  method WriteTag(s: OStream, wire: nat, tag: nat) returns (ok: bool)
    requires Room(s.Contents())
    modifies s
    ensures Took(ok, Some(EncodeTag(wire, tag)), old(s.Contents()), s.Contents())
  {
    ok := WriteVarint(s, tag * 8 + wire);
  }

  method WriteString(s: OStream, b: Bytes) returns (ok: bool)
    requires Room(s.Contents())
    modifies s
    ensures Took(ok, Some(LengthPrefixed(b)), old(s.Contents()), s.Contents())
  {
    ghost var before := s.Contents();
    ok := WriteVarint(s, |b|);
    ghost var mid := s.Contents();
    if !ok {
      TookFirst(Some(Varint(|b|)), Some(b), before, mid);
      return;
    }
    ok := s.Write(b);
    TookBoth(ok, Some(Varint(|b|)), Some(b), before, mid, s.Contents());
  }

  lemma {:induction false} UpToNulIs(b: Bytes, size: nat)
    requires size <= |b| && (forall i :: 0 <= i < size ==> b[i] != 0) && (size < |b| ==> b[size] == 0)
    ensures UpToNul(b) == b[..size]
    decreases |b|
  {
    if size > 0 {
      UpToNulIs(b[1..], size - 1);
      assert b[..size] == [b[0]] + b[1..][..size - 1];
    }
  }

  /** strnlen: count bytes up to the first NUL. */
  method StringLength(b: Bytes) returns (size: nat)
    ensures size <= |b| && b[..size] == UpToNul(b)
  {
    size := 0;
    while size < |b| && b[size] != 0
      invariant size <= |b| && forall i :: 0 <= i < size ==> b[i] != 0
    {
      size := size + 1;
    }
    UpToNulIs(b, size);
  }

  method WriteDatum(s: OStream, l: LType, v: Datum) returns (ok: bool)
    requires Stored(l, v) && Room(s.Contents())
    modifies s
    ensures Took(ok, EncodeDatum(l, v), old(s.Contents()), s.Contents())
    decreases l, 1, 0
  {
    match l
    case Bool => ok := WriteVarint(s, if v.n != 0 then 1 else 0);
    case VarInt(_) => ok := WriteVarint(s, Unsigned64(v.n));
    case UVarInt(_) => ok := WriteVarint(s, v.n);
    case SVarInt(_) => ok := WriteVarint(s, ZigZag(v.n));
    case Fixed32 => ok := s.Write(EncodeFixed32(v.n));
    case Fixed64 => ok := s.Write(EncodeFixed64(v.n));
    case BytesArray(max) =>
      if |v.bytes| > max {
        ok := false;
      } else {
        ok := WriteString(s, v.bytes);
      }
    case CString(_) =>
      var size := StringLength(v.bytes);
      ok := WriteString(s, v.bytes[..size]);
    case FixedLengthBytes(_) => ok := WriteString(s, v.bytes);
    case Submessage(_) => ok := WriteSubmessage(s, l, v.slots);
  }

  /** Size the message first, then write the size and the message itself through a stream limited to that
      size. */
  method WriteSubmessage(s: OStream, l: LType, slots: seq<Slot>) returns (ok: bool)
    requires l.Submessage? && Stored(l, Message(slots)) && Room(s.Contents())
    modifies s
    ensures Took(ok, Prefixed(EncodeFrom(l, slots, 0)), old(s.Contents()), s.Contents())
    decreases l, 0, |l.fields| + 2
  {
    var sizeStream := new OStream.Sizing();
    ok := WriteMessage(sizeStream, l, slots);
    if !ok {
      return;
    }
    var size := sizeStream.bytesWritten;
    ghost var e := EncodeFrom(l, slots, 0);
    ghost var before := s.Contents();
    ok := WriteVarint(s, size);
    ghost var mid := s.Contents();
    if !ok {
      TookFirst(Some(Varint(size)), e, before, mid);
      return;
    }
    if s.sizing {
      s.Count(size);
      TookBoth(ok, Some(Varint(size)), e, before, mid, s.Contents());
      return;
    }
    if s.bytesWritten + size > s.maxSize {
      ok := false;
      TookBoth(ok, Some(Varint(size)), e, before, mid, s.Contents());
      return;
    }
    var sub := new OStream.Writing(s.buffer, size);
    var status := WriteMessage(sub, l, slots);
    s.bytesWritten, s.buffer := s.bytesWritten + sub.bytesWritten, sub.buffer;
    ok := status && sub.bytesWritten == size;
    TookBoth(ok, Some(Varint(size)), e, before, mid, s.Contents());
  }

  /** All the fields of a message in order. */
  method WriteMessage(s: OStream, l: LType, slots: seq<Slot>) returns (ok: bool)
    requires l.Submessage? && Stored(l, Message(slots)) && Room(s.Contents())
    modifies s
    ensures Took(ok, EncodeFrom(l, slots, 0), old(s.Contents()), s.Contents())
    decreases l, 0, |l.fields| + 1
  {
    ghost var before := s.Contents();
    TookNothing(before);
    ghost var done: Bytes := [];
    NothingCat(EncodeFrom(l, slots, 0));
    for i := 0 to |l.fields|
      invariant Took(true, Some(done), before, s.Contents())
      invariant Cat(Some(done), EncodeFrom(l, slots, i)) == EncodeFrom(l, slots, 0)
    {
      ghost var mid := s.Contents();
      ok := WriteSlot(s, l.fields[i], slots[i]);
      ghost var piece, rest := EncodeSlot(l.fields[i], slots[i]), EncodeFrom(l, slots, i + 1);
      if !ok {
        TookFirst(piece, rest, mid, s.Contents());
        TookBoth(false, Some(done), Cat(piece, rest), before, mid, s.Contents());
        return;
      }
      TookBoth(true, Some(done), piece, before, mid, s.Contents());
      CatAssociates(done, piece, rest);
      done := done + piece.value;
    }
    CatNothing(done);
    ok := true;
  }

  lemma CatAssociates(a: Bytes, b: Option<Bytes>, c: Option<Bytes>)
    requires b.Some?
    ensures Cat(Some(a), Cat(b, c)) == Cat(Some(a + b.value), c)
  {
    if c.Some? {
      assert a + (b.value + c.value) == a + b.value + c.value;
    }
  }

  lemma CatNothing(a: Bytes)
    ensures Cat(Some(a), Some([])) == Some(a)
  {
    assert a + [] == a;
  }

  lemma NothingCat(e: Option<Bytes>)
    ensures Cat(Some([]), e) == e
  {
    if e.Some? {
      assert [] + e.value == e.value;
    }
  }

  method WriteSlot(s: OStream, f: Field, slot: Slot) returns (ok: bool)
    requires StoredSlot(f, slot) && Room(s.Contents())
    modifies s
    ensures Took(ok, EncodeSlot(f, slot), old(s.Contents()), s.Contents())
    decreases f.ltype, 4, 0
  {
    ghost var before := s.Contents();
    if f.htype.Repeated? {
      ok := WriteArray(s, f, slot);
    } else if slot != [] {
      ok := WriteTagged(s, f, slot[0]);
    } else {
      TookNothing(before);
      ok := true;
    }
  }

  method WriteTagged(s: OStream, f: Field, v: Datum) returns (ok: bool)
    requires Stored(f.ltype, v) && Room(s.Contents())
    modifies s
    ensures Took(ok, Cat(Some(EncodeTag(WireType(f.ltype), f.tag)), EncodeDatum(f.ltype, v)), old(s.Contents()),
        s.Contents())
    decreases f.ltype, 2, 0
  {
    ghost var before := s.Contents();
    ghost var tag, value := Some(EncodeTag(WireType(f.ltype), f.tag)), EncodeDatum(f.ltype, v);
    ok := WriteTag(s, WireType(f.ltype), f.tag);
    ghost var mid := s.Contents();
    if !ok {
      TookFirst(tag, value, before, mid);
      return;
    }
    ok := WriteDatum(s, f.ltype, v);
    TookBoth(ok, tag, value, before, mid, s.Contents());
  }

  method WriteItem(s: OStream, f: Field, v: Datum, tagged: bool) returns (ok: bool)
    requires Stored(f.ltype, v) && Room(s.Contents())
    modifies s
    ensures Took(ok, Cat(Some(if tagged then EncodeTag(WireType(f.ltype), f.tag) else []), EncodeDatum(f.ltype, v)),
        old(s.Contents()), s.Contents())
    decreases f.ltype, 3, 0
  {
    if tagged {
      ok := WriteTagged(s, f, v);
    } else {
      ghost var before := s.Contents();
      ok := WriteDatum(s, f.ltype, v);
      TookNothing(before);
      TookBoth(ok, Some([]), EncodeDatum(f.ltype, v), before, before, s.Contents());
    }
  }

  method WriteItems(s: OStream, f: Field, slot: Slot, tagged: bool) returns (ok: bool)
    requires StoredSlot(f, slot) && Room(s.Contents())
    modifies s
    ensures Took(ok, EncodeItems(f, slot, 0, tagged), old(s.Contents()), s.Contents())
    decreases f.ltype, 3, 1
  {
    ghost var before := s.Contents();
    TookNothing(before);
    ghost var done: Bytes := [];
    NothingCat(EncodeItems(f, slot, 0, tagged));
    for k := 0 to |slot|
      invariant Took(true, Some(done), before, s.Contents())
      invariant Cat(Some(done), EncodeItems(f, slot, k, tagged)) == EncodeItems(f, slot, 0, tagged)
    {
      ghost var mid := s.Contents();
      ok := WriteItem(s, f, slot[k], tagged);
      ghost var piece := Cat(Some(if tagged then EncodeTag(WireType(f.ltype), f.tag) else []),
          EncodeDatum(f.ltype, slot[k]));
      ghost var rest := EncodeItems(f, slot, k + 1, tagged);
      if !ok {
        TookFirst(piece, rest, mid, s.Contents());
        TookBoth(false, Some(done), Cat(piece, rest), before, mid, s.Contents());
        return;
      }
      TookBoth(true, Some(done), piece, before, mid, s.Contents());
      CatAssociates(done, piece, rest);
      done := done + piece.value;
    }
    CatNothing(done);
    ok := true;
  }

  lemma {:induction false} FixedSize(f: Field, slot: Slot, k: nat)
    requires StoredSlot(f, slot) && k <= |slot| && (f.ltype.Fixed32? || f.ltype.Fixed64?)
    ensures var e := EncodeItems(f, slot, k, false);
      e.Some? && |e.value| == (if f.ltype.Fixed32? then 4 else 8) * (|slot| - k)
    decreases |slot| - k
  {
    if k < |slot| {
      FixedSize(f, slot, k + 1);
    }
  }

  /** The size of a packed block: known for fixed-size elements, else found by a sizing pass. */
  method PackedSize(f: Field, slot: Slot) returns (ok: bool, size: nat)
    requires StoredSlot(f, slot) && Packable(f.ltype)
    ensures var e := EncodeItems(f, slot, 0, false); (ok <==> e.Some?) && (ok ==> size == |e.value|)
    decreases f.ltype, 3, 2
  {
    ok, size := true, 0;
    if f.ltype.Fixed32? {
      FixedSize(f, slot, 0);
      size := 4 * |slot|;
    } else if f.ltype.Fixed64? {
      FixedSize(f, slot, 0);
      size := 8 * |slot|;
    } else {
      var sizeStream := new OStream.Sizing();
      ok := WriteItems(sizeStream, f, slot, false);
      size := sizeStream.bytesWritten;
    }
  }

  method WritePacked(s: OStream, f: Field, slot: Slot, size: nat) returns (ok: bool)
    requires StoredSlot(f, slot) && Packable(f.ltype) && Room(s.Contents())
    requires EncodeItems(f, slot, 0, false).Some? && size == |EncodeItems(f, slot, 0, false).value|
    modifies s
    ensures Took(ok, Prefixed(EncodeItems(f, slot, 0, false)), old(s.Contents()), s.Contents())
    decreases f.ltype, 3, 3
  {
    ghost var before := s.Contents();
    ghost var head, e := Some(Varint(size)), EncodeItems(f, slot, 0, false);
    ok := WriteVarint(s, size);
    ghost var mid := s.Contents();
    if !ok {
      TookFirst(head, e, before, mid);
      return;
    }
    if s.sizing {
      s.Count(size);
    } else {
      ok := WriteItems(s, f, slot, false);
    }
    TookBoth(ok, head, e, before, mid, s.Contents());
  }

  method WriteArray(s: OStream, f: Field, slot: Slot) returns (ok: bool)
    requires StoredSlot(f, slot) && f.htype.Repeated? && Room(s.Contents())
    modifies s
    ensures Took(ok, EncodeArray(f, slot), old(s.Contents()), s.Contents())
    decreases f.ltype, 3, 4
  {
    ghost var before := s.Contents();
    if slot == [] {
      TookNothing(before);
      return true;
    }
    if |slot| > f.htype.arraySize {
      return false;
    }
    if !Packable(f.ltype) {
      ok := WriteItems(s, f, slot, true);
      return;
    }
    ghost var tag, block := Some(EncodeTag(WT_STRING, f.tag)), Prefixed(EncodeItems(f, slot, 0, false));
    ok := WriteTag(s, WT_STRING, f.tag);
    ghost var mid := s.Contents();
    if !ok {
      TookFirst(tag, block, before, mid);
      return;
    }
    var size;
    ok, size := PackedSize(f, slot);
    if ok {
      ok := WritePacked(s, f, slot, size);
    }
    TookBoth(ok, tag, block, before, mid, s.Contents());
  }

  /** pb_get_encoded_size: what the sizing pass counts is what a writing pass into that much room writes. */
  method EncodedSize(l: LType, slots: seq<Slot>) returns (ok: bool, size: nat)
    requires l.Submessage? && Stored(l, Message(slots))
    ensures var e := EncodeFrom(l, slots, 0); (ok <==> e.Some?) && (ok ==> size == |e.value|)
  {
    var s := new OStream.Sizing();
    ok := WriteMessage(s, l, slots);
    size := s.bytesWritten;
  }

  /** pb_encode into a buffer of `bufferSize` bytes. */
  method Encode(l: LType, slots: seq<Slot>, bufferSize: nat) returns (r: Option<Bytes>)
    requires l.Submessage? && Stored(l, Message(slots))
    ensures var e := EncodeFrom(l, slots, 0);
      r == if e.Some? && |e.value| <= bufferSize then e else None
  {
    var s := new OStream.Writing([], bufferSize);
    var ok := WriteMessage(s, l, slots);
    assert EncodeFrom(l, slots, 0).Some? ==> [] + EncodeFrom(l, slots, 0).value == EncodeFrom(l, slots, 0).value;
    r := if ok then Some(s.buffer) else None;
  }
}
