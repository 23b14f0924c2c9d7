/** nanopb messages: descriptors, the values they describe, and the iterator over a message's fields. */
module PbCommon {
  import opened DbFormat
  import opened Coding

  /** The size of an integer field in memory. */
  datatype Width = W8 | W16 | W32 | W64

  datatype LType =
    | Bool
    | VarInt(width: Width)
    | UVarInt(width: Width)
    | SVarInt(width: Width)
    | Fixed32
    | Fixed64
    | BytesArray(maxSize: nat)
    | CString(dataSize: nat)
    | Submessage(fields: seq<Field>)
    | FixedLengthBytes(size: nat)

  datatype HType = Required | Optional | Repeated(arraySize: nat) | OneOf(group: nat)

  datatype Field = Field(tag: nat, htype: HType, ltype: LType)

  /** One stored value. The 32- and 64-bit patterns of Fixed32 and Fixed64 are numbers; a C string is its
      array's contents. */
  datatype Datum = Num(n: int) | Data(bytes: Bytes) | Message(slots: seq<seq<Datum>>)

  /** The values of one field: one if required, at most one if optional or in a oneof. A field that is absent
      has none. */
  type Slot = seq<Datum>

  function Modulus(w: Width): nat {
    match w
    case W8 => 0x100
    case W16 => 0x1_0000
    case W32 => TWO32
    case W64 => TWO64
  }

  predicate InSigned(w: Width, n: int) {
    -(Modulus(w) / 2) <= n < Modulus(w) / 2
  }

  predicate Packable(l: LType) {
    l.Bool? || l.VarInt? || l.UVarInt? || l.SVarInt? || l.Fixed32? || l.Fixed64?
  }

  // ---------------------------------------------------------------------------
  // Storage, bounds and defaults
  // ---------------------------------------------------------------------------

  /** The value is one the field's C type can hold. */
  ghost predicate Stored(l: LType, v: Datum)
    decreases l
  {
    match l
    case Bool => v.Num? && 0 <= v.n <= 1
    case VarInt(w) => v.Num? && InSigned(w, v.n)
    case SVarInt(w) => v.Num? && InSigned(w, v.n)
    case UVarInt(w) => v.Num? && 0 <= v.n < Modulus(w)
    case Fixed32 => v.Num? && 0 <= v.n < TWO32
    case Fixed64 => v.Num? && 0 <= v.n < TWO64
    case BytesArray(_) => v.Data?
    case CString(size) => v.Data? && |v.bytes| <= size
    case FixedLengthBytes(size) => v.Data? && |v.bytes| == size
    case Submessage(fields) =>
      && v.Message? && |v.slots| == |fields| && Exclusive(fields, v.slots)
      && forall i :: 0 <= i < |fields| ==> StoredSlot(fields[i], v.slots[i])
  }

  ghost predicate StoredSlot(f: Field, slot: Slot)
    decreases f
  {
    && (f.htype.Required? ==> |slot| == 1)
    && (f.htype.Optional? || f.htype.OneOf? ==> |slot| <= 1)
    && forall k :: 0 <= k < |slot| ==> Stored(f.ltype, slot[k])
  }

  predicate SameGroup(f: Field, g: Field) {
    f.htype.OneOf? && g.htype.OneOf? && f.htype.group == g.htype.group
  }

  /** At most one member of a oneof is present. */
  ghost predicate Exclusive(fields: seq<Field>, slots: seq<Slot>)
    requires |slots| == |fields|
  {
    forall i, j ::
      0 <= i < |fields| && 0 <= j < |fields| && i != j && SameGroup(fields[i], fields[j]) && slots[i] != [] ==>
        slots[j] == []
  }

  predicate NulFree(b: Bytes) {
    0 !in b
  }

  /** Arrays, byte strings and C strings within their bounds, at every depth. */
  ghost predicate InBounds(l: LType, v: Datum)
    requires Stored(l, v)
    decreases l
  {
    match l
    case BytesArray(max) => |v.bytes| <= max
    case CString(size) => |v.bytes| < size && NulFree(v.bytes)
    case Submessage(fields) => forall i :: 0 <= i < |fields| ==> SlotInBounds(fields[i], v.slots[i])
    case _ => true
  }

  ghost predicate SlotInBounds(f: Field, slot: Slot)
    requires StoredSlot(f, slot)
    decreases f
  {
    && (f.htype.Repeated? ==> |slot| <= f.htype.arraySize)
    && forall k :: 0 <= k < |slot| ==> InBounds(f.ltype, slot[k])
  }

  /** Arrays and byte strings no longer than their storage, at every depth. */
  ghost predicate Fits(l: LType, v: Datum)
    requires Stored(l, v)
    decreases l
  {
    match l
    case BytesArray(max) => |v.bytes| <= max
    case Submessage(fields) => forall i :: 0 <= i < |fields| ==> SlotFits(fields[i], v.slots[i])
    case _ => true
  }

  ghost predicate SlotFits(f: Field, slot: Slot)
    requires StoredSlot(f, slot)
    decreases f
  {
    && (f.htype.Repeated? ==> |slot| <= f.htype.arraySize)
    && forall k :: 0 <= k < |slot| ==> Fits(f.ltype, slot[k])
  }

  lemma InBoundsFits(l: LType, v: Datum)
    requires Stored(l, v) && InBounds(l, v)
    ensures Fits(l, v)
    decreases l
  {
    if l.Submessage? {
      forall i, k | 0 <= i < |l.fields| && 0 <= k < |v.slots[i]| ensures Fits(l.fields[i].ltype, v.slots[i][k]) {
        assert SlotInBounds(l.fields[i], v.slots[i]);
        InBoundsFits(l.fields[i].ltype, v.slots[i][k]);
      }
      forall i | 0 <= i < |l.fields| ensures SlotFits(l.fields[i], v.slots[i]) {
        assert SlotInBounds(l.fields[i], v.slots[i]);
      }
    }
  }

  ghost predicate DistinctTags(fields: seq<Field>) {
    && (forall i :: 0 <= i < |fields| ==> 0 < fields[i].tag < 0x2000_0000)
    && (forall i, j :: 0 <= i < j < |fields| ==> fields[i].tag != fields[j].tag)
  }

  /** Tags are distinct, nonzero and fit the wire format, at every depth. */
  ghost predicate GoodType(l: LType)
    decreases l
  {
    l.Submessage? ==> DistinctTags(l.fields) && forall i :: 0 <= i < |l.fields| ==> GoodType(l.fields[i].ltype)
  }

  /** pb_message_set_to_defaults for fields without a default of their own. */
  function Default(l: LType): Datum
    decreases l, 1, 0
  {
    match l
    case BytesArray(_) => Data([])
    case CString(_) => Data([])
    case FixedLengthBytes(size) => Data(Zeros(size))
    case Submessage(fields) => Message(DefaultSlots(l, |fields|))
    case _ => Num(0)
  }

  function DefaultSlot(f: Field): Slot
    decreases f.ltype, 2, 0
  {
    if f.htype.Required? then [Default(f.ltype)] else []
  }

  function DefaultSlots(l: LType, n: nat): (r: seq<Slot>)
    requires l.Submessage? && n <= |l.fields|
    ensures |r| == n && forall i :: 0 <= i < n ==> r[i] == DefaultSlot(l.fields[i])
    decreases l, 0, n
  {
    if n == 0 then [] else DefaultSlots(l, n - 1) + [DefaultSlot(l.fields[n - 1])]
  }

  /** Default storage is well formed. */
  lemma DefaultIsStored(l: LType)
    ensures Stored(l, Default(l)) && Fits(l, Default(l))
    decreases l
  {
    if l.Submessage? {
      forall i | 0 <= i < |l.fields| ensures StoredSlot(l.fields[i], DefaultSlot(l.fields[i]))
          && SlotFits(l.fields[i], DefaultSlot(l.fields[i])) {
        DefaultIsStored(l.fields[i].ltype);
      }
    }
  }

  // ---------------------------------------------------------------------------
  // The field iterator
  // ---------------------------------------------------------------------------

  function CountRequired(fields: seq<Field>, n: nat): (count: nat)
    requires n <= |fields|
    ensures count <= n
  {
    if n == 0 then 0 else CountRequired(fields, n - 1) + if fields[n - 1].htype.Required? then 1 else 0
  }

  lemma {:induction false} CountGrows(fields: seq<Field>, m: nat, n: nat)
    requires m <= n <= |fields|
    ensures CountRequired(fields, m) <= CountRequired(fields, n)
  {
    if m < n {
      CountGrows(fields, m, n - 1);
    }
  }

  /** The field with this tag. */
  function FieldIndex(fields: seq<Field>, tag: nat, n: nat): (r: Option<nat>)
    requires n <= |fields|
    ensures r.Some? ==> r.value < n && fields[r.value].tag == tag
    ensures r.None? ==> forall i :: 0 <= i < n ==> fields[i].tag != tag
  {
    if n == 0 then None
    else if fields[n - 1].tag == tag then Some(n - 1)
    else FieldIndex(fields, tag, n - 1)
  }

  class FieldIter {
    const fields: seq<Field>
    var pos: nat
    var requiredFieldIndex: nat

    constructor (fields: seq<Field>)
      ensures this.fields == fields && Valid() && pos == 0
    {
      this.fields := fields;
      pos, requiredFieldIndex := 0, 0;
    }

    ghost predicate Valid()
      reads this
    {
      && (fields == [] ==> pos == 0) && (fields != [] ==> pos < |fields|)
      && requiredFieldIndex == CountRequired(fields, pos)
    }

    /** Step to the next field; at the last one, wrap back to the first and answer false. */
    method Next() returns (more: bool)
      requires Valid()
      modifies this
      ensures Valid() && (more <==> old(pos) + 1 < |fields|)
      ensures pos == if more then old(pos) + 1 else 0
    {
      if fields == [] {
        return false;
      }
      var prev := fields[pos];
      pos := pos + 1;
      if pos == |fields| {
        pos, requiredFieldIndex := 0, 0;
        return false;
      }
      if prev.htype.Required? {
        requiredFieldIndex := requiredFieldIndex + 1;
      }
      return true;
    }

    /** Search forward from the current field, wrapping around, until back at it. A type without fields has
        only the terminator of its table to compare with, whose tag is 0. */
    method Find(tag: nat) returns (found: bool)
      requires Valid() && DistinctTags(fields)
      modifies this
      ensures Valid()
      ensures found <==> FieldIndex(fields, tag, |fields|).Some? || (fields == [] && tag == 0)
      ensures if found && fields != [] then FieldIndex(fields, tag, |fields|) == Some(pos) else pos == old(pos)
    {
      if fields == [] {
        return tag == 0;
      }
      var start := pos;
      var wrapped, done := false, false;
      while !done
        invariant Valid() && pos < |fields|
        invariant if !wrapped then start <= pos && !done else if done then pos == start else pos < start
        invariant wrapped ==> NoneBetween(fields, tag, start, |fields|) && NoneBetween(fields, tag, 0, pos)
        invariant !wrapped ==> NoneBetween(fields, tag, start, pos)
        decreases !done, !wrapped, |fields| - pos
      {
        if fields[pos].tag == tag {
          var i := FieldIndex(fields, tag, |fields|);
          assert i.Some? && fields[i.value].tag == fields[pos].tag;
          return true;
        }
        var more := Next();
        wrapped := wrapped || !more;
        done := pos == start;
      }
      found := false;
    }
  }

  ghost predicate NoneBetween(fields: seq<Field>, tag: nat, from: nat, to: nat)
    requires to <= |fields|
  {
    forall i :: from <= i < to ==> fields[i].tag != tag
  }
}
