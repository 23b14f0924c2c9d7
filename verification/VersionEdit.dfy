/** Version edits as records of the manifest: the tagged encoding and its decoder. */
module VersionEdit {
  import opened DbFormat
  import opened Coding
  import opened VersionBuilder

  /** A file as an edit names it; its keys are encoded internal keys. */
  datatype Meta = Meta(number: nat, fileSize: nat, smallest: Bytes, largest: Bytes)

  /** One tagged field of an encoded edit. */
  datatype Item =
    | Comparator(name: Bytes)
    | LogNumber(n: nat)
    | NextFileNumber(n: nat)
    | LastSequence(n: nat)
    | CompactPointer(level: nat, key: Bytes)
    | DeletedFile(level: nat, number: nat)
    | NewFile(level: nat, file: Meta)
    | PrevLogNumber(n: nat)

  predicate MetaOk(f: Meta) {
    f.number < TWO64 && f.fileSize < TWO64 && |f.smallest| < TWO32 && |f.largest| < TWO32
  }

  /** The values fit the widths they are stored in, and levels are levels. */
  predicate ItemOk(item: Item) {
    match item
    case Comparator(name) => |name| < TWO32
    case LogNumber(n) => n < TWO64
    case NextFileNumber(n) => n < TWO64
    case LastSequence(n) => n < TWO64
    case PrevLogNumber(n) => n < TWO64
    case CompactPointer(level, key) => level < NUM_LEVELS && |key| < TWO32
    case DeletedFile(level, number) => level < NUM_LEVELS && number < TWO64
    case NewFile(level, f) => level < NUM_LEVELS && MetaOk(f)
  }

  // ---------------------------------------------------------------------------
  // Encoding and parsing one field
  // ---------------------------------------------------------------------------

  function TagOf(item: Item): nat {
    match item
    case Comparator(_) => 1
    case LogNumber(_) => 2
    case NextFileNumber(_) => 3
    case LastSequence(_) => 4
    case CompactPointer(_, _) => 5
    case DeletedFile(_, _) => 6
    case NewFile(_, _) => 7
    case PrevLogNumber(_) => 9
  }

  function FileBefore(f: Meta, rest: Bytes): Bytes {
    Varint(f.number) + (Varint(f.fileSize)
        + (Varint(|f.smallest|) + (f.smallest + (Varint(|f.largest|) + (f.largest + rest)))))
  }

  /** What follows the tag in a field's bytes. */
  function BodyBefore(item: Item, rest: Bytes): Bytes {
    match item
    case Comparator(name) => Varint(|name|) + (name + rest)
    case LogNumber(n) => Varint(n) + rest
    case NextFileNumber(n) => Varint(n) + rest
    case LastSequence(n) => Varint(n) + rest
    case CompactPointer(level, key) => Varint(level) + (Varint(|key|) + (key + rest))
    case DeletedFile(level, number) => Varint(level) + (Varint(number) + rest)
    case NewFile(level, f) => Varint(level) + FileBefore(f, rest)
    case PrevLogNumber(n) => Varint(n) + rest
  }

  /** The field's bytes, followed by `rest`. */
  function EncodeBefore(item: Item, rest: Bytes): Bytes {
    Varint(TagOf(item)) + BodyBefore(item, rest)
  }

  lemma Regroup3(a: Bytes, b: Bytes, rest: Bytes, more: Bytes)
    ensures (a + (b + rest)) + more == a + (b + (rest + more))
  {
    Regroup(a, b + rest, more);
    Regroup(b, rest, more);
  }

  lemma FileThenMore(f: Meta, rest: Bytes, more: Bytes)
    ensures FileBefore(f, rest) + more == FileBefore(f, rest + more)
  {
    var a := Varint(|f.largest|) + (f.largest + rest);
    Regroup3(Varint(|f.largest|), f.largest, rest, more);
    var b := Varint(|f.smallest|) + (f.smallest + a);
    Regroup3(Varint(|f.smallest|), f.smallest, a, more);
    Regroup3(Varint(f.number), Varint(f.fileSize), b, more);
  }

  lemma EncodeThenMore(item: Item, rest: Bytes, more: Bytes)
    ensures EncodeBefore(item, rest) + more == EncodeBefore(item, rest + more)
  {
    Regroup(Varint(TagOf(item)), BodyBefore(item, rest), more);
    match item
    case Comparator(name) => Regroup3(Varint(|name|), name, rest, more);
    case LogNumber(n) => Regroup(Varint(n), rest, more);
    case NextFileNumber(n) => Regroup(Varint(n), rest, more);
    case LastSequence(n) => Regroup(Varint(n), rest, more);
    case PrevLogNumber(n) => Regroup(Varint(n), rest, more);
    case CompactPointer(level, key) =>
      Regroup(Varint(level), Varint(|key|) + (key + rest), more);
      Regroup3(Varint(|key|), key, rest, more);
    case DeletedFile(level, number) => Regroup3(Varint(level), Varint(number), rest, more);
    case NewFile(level, f) =>
      Regroup(Varint(level), FileBefore(f, rest), more);
      FileThenMore(f, rest, more);
  }

  function GetLevel(p: Bytes): Parsed {
    match GetVarint32(p)
    case Fail => Fail
    case Parsed(v, rest) => if v < NUM_LEVELS then Parsed(v, rest) else Fail
  }

  datatype ParsedItem = Corrupt | One(item: Item, rest: Bytes)

  function ParseNumber(tag: nat, p: Bytes): ParsedItem {
    match GetVarint64(p)
    case Fail => Corrupt
    case Parsed(n, rest) =>
      One(if tag == 2 then LogNumber(n) else if tag == 3 then NextFileNumber(n) else if tag
          == 4 then LastSequence(n) else PrevLogNumber(n), rest)
  }

  function ParseComparator(p: Bytes): ParsedItem {
    match GetLengthPrefixedSlice(p)
    case NoSlice => Corrupt
    case ParsedSlice(name, rest) => One(Comparator(name), rest)
  }

  function ParsePointerKey(level: nat, p: Bytes): ParsedItem {
    match GetLengthPrefixedSlice(p)
    case NoSlice => Corrupt
    case ParsedSlice(key, rest) => One(CompactPointer(level, key), rest)
  }

  function ParseDeleted(level: nat, p: Bytes): ParsedItem {
    match GetVarint64(p)
    case Fail => Corrupt
    case Parsed(number, rest) => One(DeletedFile(level, number), rest)
  }

  function ParseLargest(level: nat, number: nat, size: nat, smallest: Bytes, p: Bytes): ParsedItem {
    match GetLengthPrefixedSlice(p)
    case NoSlice => Corrupt
    case ParsedSlice(largest, rest) => One(NewFile(level, Meta(number, size, smallest, largest)), rest)
  }

  function ParseSmallest(level: nat, number: nat, size: nat, p: Bytes): ParsedItem {
    match GetLengthPrefixedSlice(p)
    case NoSlice => Corrupt
    case ParsedSlice(smallest, rest) => ParseLargest(level, number, size, smallest, rest)
  }

  function ParseSize(level: nat, number: nat, p: Bytes): ParsedItem {
    match GetVarint64(p)
    case Fail => Corrupt
    case Parsed(size, rest) => ParseSmallest(level, number, size, rest)
  }

  function ParseFile(level: nat, p: Bytes): ParsedItem {
    match GetVarint64(p)
    case Fail => Corrupt
    case Parsed(number, rest) => ParseSize(level, number, rest)
  }

  function ParseAtLevel(tag: nat, p: Bytes): ParsedItem {
    match GetLevel(p)
    case Fail => Corrupt
    case Parsed(level, rest) =>
      if tag == 5 then ParsePointerKey(level, rest) else if tag
          == 6 then ParseDeleted(level, rest) else ParseFile(level, rest)
  }

  /** What follows a tag. */
  function ParseBody(tag: nat, p: Bytes): ParsedItem {
    if tag == 1 then ParseComparator(p)
    else if tag == 2 || tag == 3 || tag == 4 || tag == 9 then ParseNumber(tag, p)
    else if tag == 5 || tag == 6 || tag == 7 then ParseAtLevel(tag, p)
    else Corrupt
  }

  lemma SliceRoundTrip(s: Bytes, rest: Bytes)
    requires |s| < TWO32
    ensures GetLengthPrefixedSlice(Varint(|s|) + (s + rest)) == ParsedSlice(s, rest)
  {
    Varint32RoundTrip(|s|, s + rest);
    SplitBack(s, rest);
  }

  lemma LevelRoundTrip(level: nat, rest: Bytes)
    requires level < NUM_LEVELS
    ensures GetLevel(Varint(level) + rest) == Parsed(level, rest)
  {
    Varint32RoundTrip(level, rest);
  }

  lemma FileRoundTrip(level: nat, f: Meta, rest: Bytes)
    requires MetaOk(f)
    ensures ParseFile(level, FileBefore(f, rest)) == One(NewFile(level, f), rest)
  {
    var p4 := Varint(|f.largest|) + (f.largest + rest);
    var p3 := Varint(|f.smallest|) + (f.smallest + p4);
    var p2 := Varint(f.fileSize) + p3;
    SliceRoundTrip(f.largest, rest);
    assert ParseLargest(level, f.number, f.fileSize, f.smallest, p4) == One(NewFile(level, f), rest);
    SliceRoundTrip(f.smallest, p4);
    assert ParseSmallest(level, f.number, f.fileSize, p3) == One(NewFile(level, f), rest);
    Varint64RoundTrip(f.fileSize, p3);
    assert ParseSize(level, f.number, p2) == One(NewFile(level, f), rest);
    Varint64RoundTrip(f.number, p2);
  }

  /** Parsing a field's body gives the field and what followed it. */
  lemma BodyRoundTrip(item: Item, rest: Bytes)
    requires ItemOk(item)
    ensures ParseBody(TagOf(item), BodyBefore(item, rest)) == One(item, rest)
  {
    match item
    case Comparator(name) => SliceRoundTrip(name, rest);
    case LogNumber(n) => Varint64RoundTrip(n, rest);
    case NextFileNumber(n) => Varint64RoundTrip(n, rest);
    case LastSequence(n) => Varint64RoundTrip(n, rest);
    case PrevLogNumber(n) => Varint64RoundTrip(n, rest);
    case CompactPointer(level, key) =>
      LevelRoundTrip(level, Varint(|key|) + (key + rest));
      SliceRoundTrip(key, rest);
    case DeletedFile(level, number) =>
      LevelRoundTrip(level, Varint(number) + rest);
      Varint64RoundTrip(number, rest);
    case NewFile(level, f) =>
      LevelRoundTrip(level, FileBefore(f, rest));
      FileRoundTrip(level, f, rest);
  }

  // ---------------------------------------------------------------------------
  // Whole edits
  // ---------------------------------------------------------------------------

  /** The contents of an edit; an absent number is one whose `has_` flag is false. */
  datatype Edit = Edit(
    comparator: Option<Bytes>, logNumber: Option<nat>, prevLogNumber: Option<nat>, nextFileNumber: Option<nat>,
        lastSequence: Option<nat>,
    compactPointers: seq<(nat, Bytes)>, deletedFiles: set<(nat, nat)>, newFiles: seq<(nat, Meta)>)

  const EMPTY_EDIT := Edit(None, None, None, None, None, [], {}, [])

  function Apply(e: Edit, item: Item): Edit {
    match item
    case Comparator(name) => e.(comparator := Some(name))
    case LogNumber(n) => e.(logNumber := Some(n))
    case PrevLogNumber(n) => e.(prevLogNumber := Some(n))
    case NextFileNumber(n) => e.(nextFileNumber := Some(n))
    case LastSequence(n) => e.(lastSequence := Some(n))
    case CompactPointer(level, key) => e.(compactPointers := e.compactPointers + [(level, key)])
    case DeletedFile(level, number) => e.(deletedFiles := e.deletedFiles + {(level, number)})
    case NewFile(level, f) => e.(newFiles := e.newFiles + [(level, f)])
  }

  function ApplyAll(e: Edit, items: seq<Item>): Edit {
    if items == [] then e else Apply(ApplyAll(e, items[..|items| - 1]), items[|items| - 1])
  }

  ghost predicate EditOk(e: Edit) {
    && (e.comparator.Some? ==> |e.comparator.value| < TWO32)
    && (e.logNumber.Some? ==> e.logNumber.value < TWO64)
    && (e.prevLogNumber.Some? ==> e.prevLogNumber.value < TWO64)
    && (e.nextFileNumber.Some? ==> e.nextFileNumber.value < TWO64)
    && (e.lastSequence.Some? ==> e.lastSequence.value < TWO64)
    && AllPointersOk(e.compactPointers) && AllDeletedOk(e.deletedFiles) && AllFilesOk(e.newFiles)
  }

  ghost predicate AllPointersOk(list: seq<(nat, Bytes)>) {
    forall p :: p in list ==> p.0 < NUM_LEVELS && |p.1| < TWO32
  }

  ghost predicate AllDeletedOk(deleted: set<(nat, nat)>) {
    forall p :: p in deleted ==> p.0 < NUM_LEVELS && p.1 < TWO64
  }

  ghost predicate AllFilesOk(list: seq<(nat, Meta)>) {
    forall p :: p in list ==> p.0 < NUM_LEVELS && MetaOk(p.1)
  }

  datatype Decoded = Corruption | Edited(edit: Edit)

  lemma NumberConsumes(p: Bytes)
    ensures GetVarint64(p).Parsed? ==> |GetVarint64(p).rest| < |p|
    ensures GetLevel(p).Parsed? ==> |GetLevel(p).rest| < |p|
  {
    VarintConsumes(p, 10, 0, 1, TWO64);
    VarintConsumes(p, 5, 0, 1, TWO32);
  }

  ghost predicate Shrinks(r: ParsedItem, p: Bytes) {
    r.One? ==> |r.rest| < |p|
  }

  lemma FileConsumes(level: nat, p: Bytes)
    ensures Shrinks(ParseFile(level, p), p)
  {
    NumberConsumes(p);
    var n := GetVarint64(p);
    if n.Parsed? {
      NumberConsumes(n.rest);
      var z := GetVarint64(n.rest);
      if z.Parsed? {
        SliceConsumes(z.rest);
        var s := GetLengthPrefixedSlice(z.rest);
        if s.ParsedSlice? {
          SliceConsumes(s.rest);
        }
      }
    }
  }

  lemma BodyConsumes(tag: nat, p: Bytes)
    ensures Shrinks(ParseBody(tag, p), p)
  {
    NumberConsumes(p);
    SliceConsumes(p);
    var level := GetLevel(p);
    if level.Parsed? {
      NumberConsumes(level.rest);
      SliceConsumes(level.rest);
      FileConsumes(level.value, level.rest);
    }
  }

  lemma TagConsumes(p: Bytes)
    ensures GetVarint32(p).Parsed? ==> |GetVarint32(p).rest| < |p|
  {
    VarintConsumes(p, 5, 0, 1, TWO32);
  }

  /** Decoding `input` into an edit that already holds `e`. */
  function Decode(input: Bytes, e: Edit): Decoded
    decreases |input|
  {
    TagConsumes(input);
    match GetVarint32(input)
    case Fail => if input == [] then Edited(e) else Corruption
    case Parsed(tag, rest) =>
      BodyConsumes(tag, rest);
      match ParseBody(tag, rest)
      case Corrupt => Corruption
      case One(item, rest') => Decode(rest', Apply(e, item))
  }

  ghost predicate ItemFits(r: ParsedItem) {
    r.One? ==> ItemOk(r.item)
  }

  lemma NumberFits(p: Bytes)
    ensures GetVarint64(p).Parsed? ==> GetVarint64(p).value < TWO64
  {
    VarintFits(p, 10, 0, 1, TWO64);
  }

  lemma SliceFits(p: Bytes)
    ensures GetLengthPrefixedSlice(p).ParsedSlice? ==> |GetLengthPrefixedSlice(p).slice| < TWO32
  {
    VarintFits(p, 5, 0, 1, TWO32);
  }

  lemma FileFits(level: nat, p: Bytes)
    requires level < NUM_LEVELS
    ensures ItemFits(ParseFile(level, p))
  {
    NumberFits(p);
    var n := GetVarint64(p);
    if n.Parsed? {
      NumberFits(n.rest);
      var z := GetVarint64(n.rest);
      if z.Parsed? {
        SliceFits(z.rest);
        var s := GetLengthPrefixedSlice(z.rest);
        if s.ParsedSlice? {
          SliceFits(s.rest);
        }
      }
    }
  }

  lemma BodyFits(tag: nat, p: Bytes)
    ensures ItemFits(ParseBody(tag, p))
  {
    NumberFits(p);
    SliceFits(p);
    var level := GetLevel(p);
    if level.Parsed? {
      NumberFits(level.rest);
      SliceFits(level.rest);
      FileFits(level.value, level.rest);
    }
  }

  lemma PointerKeepsOk(list: seq<(nat, Bytes)>, level: nat, key: Bytes)
    requires AllPointersOk(list) && level < NUM_LEVELS && |key| < TWO32
    ensures AllPointersOk(list + [(level, key)])
  {
  }

  lemma FileKeepsOk(list: seq<(nat, Meta)>, level: nat, f: Meta)
    requires AllFilesOk(list) && level < NUM_LEVELS && MetaOk(f)
    ensures AllFilesOk(list + [(level, f)])
  {
  }

  lemma ApplyKeepsOk(e: Edit, item: Item)
    requires EditOk(e) && ItemOk(item)
    ensures EditOk(Apply(e, item))
  {
    match item
    case CompactPointer(level, key) => PointerKeepsOk(e.compactPointers, level, key);
    case NewFile(level, f) => FileKeepsOk(e.newFiles, level, f);
    case _ =>
  }

  lemma DecodeStep(input: Bytes, e: Edit) returns (item: Item, rest: Bytes)
    requires GetVarint32(input).Parsed? && Decode(input, e).Edited?
    ensures ItemOk(item) && |rest| < |input| && Decode(input, e) == Decode(rest, Apply(e, item))
  {
    TagConsumes(input);
    var tag := GetVarint32(input);
    BodyConsumes(tag.value, tag.rest);
    BodyFits(tag.value, tag.rest);
    var body := ParseBody(tag.value, tag.rest);
    item, rest := body.item, body.rest;
  }

  /** Whatever the input, a decoded edit names only levels that exist and can be encoded again. */
  lemma {:induction false} DecodedIsOk(input: Bytes, e: Edit)
    requires EditOk(e) && Decode(input, e).Edited?
    ensures EditOk(Decode(input, e).edit)
    decreases |input|
  {
    if GetVarint32(input).Parsed? {
      var item, rest := DecodeStep(input, e);
      ApplyKeepsOk(e, item);
      DecodedIsOk(rest, Apply(e, item));
    }
  }

  /** The fields one after the other, followed by `rest`. */
  function EncodeAll(items: seq<Item>, rest: Bytes): Bytes {
    if items == [] then rest else EncodeBefore(items[0], EncodeAll(items[1..], rest))
  }

  lemma {:induction false} EncodeAllThenMore(items: seq<Item>, rest: Bytes, more: Bytes)
    ensures EncodeAll(items, rest) + more == EncodeAll(items, rest + more)
  {
    if items != [] {
      EncodeAllThenMore(items[1..], rest, more);
      EncodeThenMore(items[0], EncodeAll(items[1..], rest), more);
    }
  }

  lemma {:induction false} EncodeAllSnoc(items: seq<Item>, item: Item, rest: Bytes)
    ensures EncodeAll(items + [item], rest) == EncodeAll(items, EncodeBefore(item, rest))
  {
    if items == [] {
      assert (items + [item])[1..] == [];
    } else {
      EncodeAllSnoc(items[1..], item, rest);
      assert (items + [item])[1..] == items[1..] + [item];
    }
  }

  lemma AppendItem(items: seq<Item>, item: Item)
    ensures EncodeAll(items + [item], []) == EncodeAll(items, []) + EncodeBefore(item, [])
  {
    EncodeAllSnoc(items, item, []);
    EncodeAllThenMore(items, [], EncodeBefore(item, []));
    assert [] + EncodeBefore(item, []) == EncodeBefore(item, []);
  }

  lemma {:induction false} ApplyFirst(e: Edit, items: seq<Item>)
    requires items != []
    ensures ApplyAll(e, items) == ApplyAll(Apply(e, items[0]), items[1..])
  {
    if |items| == 1 {
      assert items[..0] == [] && items[1..] == [];
    } else {
      ApplyFirst(e, items[..|items| - 1]);
      assert items[1..][..|items| - 2] == items[..|items| - 1][1..];
    }
  }

  /** Fields that are well encoded are applied, whatever follows them. */
  lemma {:induction false} DecodeBehind(items: seq<Item>, rest: Bytes, e: Edit)
    requires forall item :: item in items ==> ItemOk(item)
    ensures Decode(EncodeAll(items, rest), e) == Decode(rest, ApplyAll(e, items))
    decreases |items|
  {
    if items != [] {
      var more := EncodeAll(items[1..], rest);
      Varint32RoundTrip(TagOf(items[0]), BodyBefore(items[0], more));
      BodyRoundTrip(items[0], more);
      DecodeBehind(items[1..], rest, Apply(e, items[0]));
      ApplyFirst(e, items);
    }
  }

  /** Decoding the fields of an edit applies them in order. */
  lemma DecodeFields(items: seq<Item>, e: Edit)
    requires forall item :: item in items ==> ItemOk(item)
    ensures Decode(EncodeAll(items, []), e) == Edited(ApplyAll(e, items))
  {
    DecodeBehind(items, [], e);
  }

  /** The tags of the fields with one number, and of the comparator. */
  lemma NumberTags(n: nat, name: Bytes, rest: Bytes, e: Edit)
    requires n < TWO64 && |name| < TWO32
    ensures Decode([1] + (Varint(|name|) + (name + rest)), e) == Decode(rest, e.(comparator := Some(name)))
    ensures Decode([2] + (Varint(n) + rest), e) == Decode(rest, e.(logNumber := Some(n)))
    ensures Decode([3] + (Varint(n) + rest), e) == Decode(rest, e.(nextFileNumber := Some(n)))
    ensures Decode([4] + (Varint(n) + rest), e) == Decode(rest, e.(lastSequence := Some(n)))
    ensures Decode([9] + (Varint(n) + rest), e) == Decode(rest, e.(prevLogNumber := Some(n)))
  {
    DecodeOne(Comparator(name), rest, e);
    DecodeOne(LogNumber(n), rest, e);
    DecodeOne(NextFileNumber(n), rest, e);
    DecodeOne(LastSequence(n), rest, e);
    DecodeOne(PrevLogNumber(n), rest, e);
  }

  /** The tags of the fields of one level, each with the level in a byte. */
  lemma LevelTags(level: Byte, number: nat, size: nat, smallest: Bytes, largest: Bytes, rest: Bytes, e: Edit)
    requires level < 7 && number < TWO64 && size < TWO64 && |smallest| < TWO32 && |largest| < TWO32
    ensures Decode([5] + ([level] + (Varint(|smallest|) + (smallest + rest))), e) ==
            Decode(rest, e.(compactPointers := e.compactPointers + [(level, smallest)]))
    ensures Decode([6] + ([level] + (Varint(number) + rest)), e) ==
            Decode(rest, e.(deletedFiles := e.deletedFiles + {(level, number)}))
    ensures var keys := Varint(|smallest|) + (smallest + (Varint(|largest|) + (largest + rest)));
            Decode([7] + ([level] + (Varint(number) + (Varint(size) + keys))), e) ==
            Decode(rest, e.(newFiles := e.newFiles + [(level, Meta(number, size, smallest, largest))]))
  {
    DecodeOne(CompactPointer(level, smallest), rest, e);
    DecodeOne(DeletedFile(level, number), rest, e);
    DecodeOne(NewFile(level, Meta(number, size, smallest, largest)), rest, e);
  }

  lemma DecodeOne(item: Item, rest: Bytes, e: Edit)
    requires ItemOk(item)
    ensures Decode(EncodeBefore(item, rest), e) == Decode(rest, Apply(e, item))
  {
    Varint32RoundTrip(TagOf(item), BodyBefore(item, rest));
    BodyRoundTrip(item, rest);
  }

  lemma UnknownTagRefused(tag: nat, rest: Bytes, e: Edit)
    requires tag < TWO32
    ensures tag !in {1, 2, 3, 4, 5, 6, 7, 9} ==> Decode(Varint(tag) + rest, e) == Corruption
  {
    Varint32RoundTrip(tag, rest);
  }

  lemma OpenByteRefused(open: Byte, e: Edit)
    ensures open >= 128 ==> Decode([open], e) == Corruption
  {
    assert [open][1..] == [];
    assert ParseVarint([], 4, Accumulate(0, open, 1, TWO32), 128, TWO32) == Fail;
    assert open >= 128 ==> GetVarint32([open]) == Fail;
  }

  lemma HighLevelRefused(tag: nat, level: nat, rest: Bytes, e: Edit)
    requires tag < TWO32 && level < TWO32
    ensures tag in {5, 6, 7} && level >= 7 ==> Decode(Varint(tag) + (Varint(level) + rest), e) == Corruption
  {
    Varint32RoundTrip(tag, Varint(level) + rest);
    Varint32RoundTrip(level, rest);
  }

  /** Behind any fields, an edit is refused for a tag other than 1 to 7 and 9, for a level above 6, and for a
      byte with which its varint goes on when nothing follows. */
  lemma RefusedBehind(items: seq<Item>, tag: nat, level: nat, rest: Bytes, open: Byte, e: Edit)
    requires (forall item :: item in items ==> ItemOk(item)) && tag < TWO32 && level < TWO32
    ensures tag !in {1, 2, 3, 4, 5, 6, 7, 9} ==> Decode(EncodeAll(items, Varint(tag) + rest), e) == Corruption
    ensures tag in {5, 6, 7} && level >= 7 ==>
              Decode(EncodeAll(items, Varint(tag) + (Varint(level) + rest)), e) == Corruption
    ensures open >= 128 ==> Decode(EncodeAll(items, [open]), e) == Corruption
  {
    DecodeBehind(items, Varint(tag) + rest, e);
    DecodeBehind(items, Varint(tag) + (Varint(level) + rest), e);
    DecodeBehind(items, [open], e);
    UnknownTagRefused(tag, rest, ApplyAll(e, items));
    HighLevelRefused(tag, level, rest, ApplyAll(e, items));
    OpenByteRefused(open, ApplyAll(e, items));
  }

  // ---------------------------------------------------------------------------
  // Writing and reading an edit
  // ---------------------------------------------------------------------------

  method PutVarint32(dst: Bytes, v: nat, ghost after: Bytes) returns (r: Bytes)
    requires v < TWO32
    ensures r == dst + Varint(v) && r + after == dst + (Varint(v) + after)
  {
    var bytes := EncodeVarint32(v);
    r := dst + bytes;
    Regroup(dst, bytes, after);
  }

  method PutVarint64(dst: Bytes, v: nat, ghost after: Bytes) returns (r: Bytes)
    requires v < TWO64
    ensures r == dst + Varint(v) && r + after == dst + (Varint(v) + after)
  {
    var bytes := EncodeVarint64(v);
    r := dst + bytes;
    Regroup(dst, bytes, after);
  }

  method PutLengthPrefixedSlice(dst: Bytes, s: Bytes, ghost after: Bytes) returns (r: Bytes)
    requires |s| < TWO32
    ensures r + after == dst + (Varint(|s|) + (s + after))
  {
    r := PutVarint32(dst, |s|, s + after);
    Regroup(r, s, after);
    r := r + s;
  }

  method PutNewFile(dst: Bytes, level: nat, f: Meta) returns (r: Bytes)
    requires level < NUM_LEVELS && MetaOk(f)
    ensures r == dst + EncodeBefore(NewFile(level, f), [])
  {
    ghost var a := Varint(|f.largest|) + (f.largest + []);
    ghost var b := Varint(|f.smallest|) + (f.smallest + a);
    r := PutVarint32(dst, 7, BodyBefore(NewFile(level, f), []));
    r := PutVarint32(r, level, FileBefore(f, []));
    r := PutVarint64(r, f.number, Varint(f.fileSize) + b);
    r := PutVarint64(r, f.fileSize, b);
    r := PutLengthPrefixedSlice(r, f.smallest, a);
    r := PutLengthPrefixedSlice(r, f.largest, []);
    assert r + [] == r;
  }

  method PutNumber(dst: Bytes, item: Item, n: nat) returns (r: Bytes)
    requires n < TWO64 && item in {LogNumber(n), PrevLogNumber(n), NextFileNumber(n), LastSequence(n)}
    ensures r == dst + EncodeBefore(item, [])
  {
    r := PutVarint32(dst, TagOf(item), BodyBefore(item, []));
    r := PutVarint64(r, n, []);
    assert r + [] == r;
  }

  method PutComparator(dst: Bytes, name: Bytes) returns (r: Bytes)
    requires |name| < TWO32
    ensures r == dst + EncodeBefore(Comparator(name), [])
  {
    r := PutVarint32(dst, 1, BodyBefore(Comparator(name), []));
    r := PutLengthPrefixedSlice(r, name, []);
    assert r + [] == r;
  }

  method PutCompactPointer(dst: Bytes, level: nat, key: Bytes) returns (r: Bytes)
    requires level < NUM_LEVELS && |key| < TWO32
    ensures r == dst + EncodeBefore(CompactPointer(level, key), [])
  {
    r := PutVarint32(dst, 5, BodyBefore(CompactPointer(level, key), []));
    r := PutVarint32(r, level, Varint(|key|) + (key + []));
    r := PutLengthPrefixedSlice(r, key, []);
    assert r + [] == r;
  }

  method PutDeletedFile(dst: Bytes, level: nat, number: nat) returns (r: Bytes)
    requires level < NUM_LEVELS && number < TWO64
    ensures r == dst + EncodeBefore(DeletedFile(level, number), [])
  {
    r := PutVarint32(dst, 6, BodyBefore(DeletedFile(level, number), []));
    r := PutVarint32(r, level, Varint(number) + []);
    r := PutVarint64(r, number, []);
    assert r + [] == r;
  }

  /** `dst` encodes fields which, applied to an empty edit, give `e`. */
  ghost predicate Encodes(dst: Bytes, items: seq<Item>, e: Edit) {
    && dst == EncodeAll(items, []) && ApplyAll(EMPTY_EDIT, items) == e
    && forall item :: item in items ==> ItemOk(item)
  }

  lemma EncodesMore(dst: Bytes, items: seq<Item>, e: Edit, item: Item)
    requires Encodes(dst, items, e) && ItemOk(item)
    ensures Encodes(dst + EncodeBefore(item, []), items + [item], Apply(e, item))
  {
    AppendItem(items, item);
    assert (items + [item])[..|items|] == items;
  }

  lemma TakeNext<T>(s: seq<(nat, T)>, i: nat)
    requires i < |s|
    ensures s[..i + 1] == s[..i] + [(s[i].0, s[i].1)] && s[i] in s
  {
  }

  lemma TakeAll<T>(s: seq<T>)
    ensures s[..0] == [] && s[..|s|] == s
  {
  }

  ghost method Extend(dst: Bytes, items: seq<Item>, e: Edit, item: Item) returns (items': seq<Item>, e': Edit)
    requires Encodes(dst, items, e) && ItemOk(item)
    ensures Encodes(dst + EncodeBefore(item, []), items', e') && e' == Apply(e, item)
  {
    EncodesMore(dst, items, e, item);
    items', e' := items + [item], Apply(e, item);
  }

  method PutPointers(before: Bytes, ghost was: seq<Item>, ghost head: Edit, pointers: seq<(nat, Bytes)>)
    returns (dst: Bytes, ghost items: seq<Item>, ghost e: Edit)
    requires Encodes(before, was, head) && head.compactPointers == []
    requires forall p :: p in pointers ==> p.0 < NUM_LEVELS && |p.1| < TWO32
    ensures Encodes(dst, items, e) && e == head.(compactPointers := pointers)
  {
    dst, items, e := before, was, head;
    TakeAll(pointers);
    for i := 0 to |pointers|
      invariant Encodes(dst, items, e) && e == head.(compactPointers := pointers[..i])
    {
      var level, x := pointers[i].0, pointers[i].1;
      TakeNext(pointers, i);
      items, e := Extend(dst, items, e, CompactPointer(level, x));
      dst := PutCompactPointer(dst, level, x);
    }
  }

  /** The deleted files may come in any order. */
  method PutDeletedFiles(before: Bytes, ghost was: seq<Item>, ghost head: Edit, deleted: set<(nat, nat)>)
    returns (dst: Bytes, ghost items: seq<Item>, ghost e: Edit)
    requires Encodes(before, was, head) && head.deletedFiles == {}
    requires forall p :: p in deleted ==> p.0 < NUM_LEVELS && p.1 < TWO64
    ensures Encodes(dst, items, e) && e == head.(deletedFiles := deleted)
  {
    dst, items, e := before, was, head;
    var todo := deleted;
    while todo != {}
      invariant todo <= deleted && Encodes(dst, items, e)
      invariant e == head.(deletedFiles := deleted - todo)
    {
      var p :| p in todo;
      items, e := Extend(dst, items, e, DeletedFile(p.0, p.1));
      dst := PutDeletedFile(dst, p.0, p.1);
      assert deleted - todo + {(p.0, p.1)} == deleted - (todo - {p});
      todo := todo - {p};
    }
  }

  method PutNewFiles(before: Bytes, ghost was: seq<Item>, ghost head: Edit, files: seq<(nat, Meta)>)
    returns (dst: Bytes, ghost items: seq<Item>, ghost e: Edit)
    requires Encodes(before, was, head) && head.newFiles == []
    requires forall p :: p in files ==> p.0 < NUM_LEVELS && MetaOk(p.1)
    ensures Encodes(dst, items, e) && e == head.(newFiles := files)
  {
    dst, items, e := before, was, head;
    TakeAll(files);
    for i := 0 to |files|
      invariant Encodes(dst, items, e) && e == head.(newFiles := files[..i])
    {
      var level, x := files[i].0, files[i].1;
      TakeNext(files, i);
      items, e := Extend(dst, items, e, NewFile(level, x));
      dst := PutNewFile(dst, level, x);
    }
  }

  /** The fields that are written only if they were set. */
  method PutNumbers(comparator: Option<Bytes>, log: Option<nat>, prevLog: Option<nat>, nextFile: Option<nat>,
      lastSequence: Option<nat>)
    returns (dst: Bytes, ghost items: seq<Item>, ghost e: Edit)
    requires comparator.Some? ==> |comparator.value| < TWO32
    requires (log.Some? ==> log.value < TWO64) && (prevLog.Some? ==> prevLog.value < TWO64)
    requires (nextFile.Some? ==> nextFile.value < TWO64) && (lastSequence.Some? ==> lastSequence.value < TWO64)
    ensures Encodes(dst, items, e) && e == Edit(comparator, log, prevLog, nextFile, lastSequence, [], {}, [])
  {
    dst, items, e := [], [], EMPTY_EDIT;
    if comparator.Some? {
      items, e := Extend(dst, items, e, Comparator(comparator.value));
      dst := PutComparator(dst, comparator.value);
    }
    if log.Some? {
      items, e := Extend(dst, items, e, LogNumber(log.value));
      dst := PutNumber(dst, LogNumber(log.value), log.value);
    }
    if prevLog.Some? {
      items, e := Extend(dst, items, e, PrevLogNumber(prevLog.value));
      dst := PutNumber(dst, PrevLogNumber(prevLog.value), prevLog.value);
    }
    if nextFile.Some? {
      items, e := Extend(dst, items, e, NextFileNumber(nextFile.value));
      dst := PutNumber(dst, NextFileNumber(nextFile.value), nextFile.value);
    }
    if lastSequence.Some? {
      items, e := Extend(dst, items, e, LastSequence(lastSequence.value));
      dst := PutNumber(dst, LastSequence(lastSequence.value), lastSequence.value);
    }
  }

  class VersionEdit {
    var comparator: Option<Bytes>
    var logNumber: Option<nat>
    var prevLogNumber: Option<nat>
    var nextFileNumber: Option<nat>
    var lastSequence: Option<nat>
    var compactPointers: seq<(nat, Bytes)>
    var deletedFiles: set<(nat, nat)>
    var newFiles: seq<(nat, Meta)>

    constructor ()
      ensures Contents() == EMPTY_EDIT
    {
      comparator, logNumber, prevLogNumber, nextFileNumber, lastSequence := None, None, None, None, None;
      compactPointers, deletedFiles, newFiles := [], {}, [];
    }

    function Contents(): Edit
      reads this
    {
      Edit(comparator, logNumber, prevLogNumber, nextFileNumber, lastSequence, compactPointers, deletedFiles, newFiles)
    }

    /** Compaction pointers are not cleared. */
    method Clear()
      modifies this
      ensures Contents() == EMPTY_EDIT.(compactPointers := old(compactPointers))
    {
      comparator, logNumber, prevLogNumber, nextFileNumber, lastSequence := None, None, None, None, None;
      deletedFiles, newFiles := {}, [];
    }

    method EncodeTo() returns (dst: Bytes)
      requires EditOk(Contents())
      ensures Decode(dst, EMPTY_EDIT) == Edited(Contents())
    {
      ghost var items, e;
      dst, items, e := PutNumbers(comparator, logNumber, prevLogNumber, nextFileNumber, lastSequence);
      dst, items, e := PutPointers(dst, items, e, compactPointers);
      dst, items, e := PutDeletedFiles(dst, items, e, deletedFiles);
      dst, items, e := PutNewFiles(dst, items, e, newFiles);
      DecodeFields(items, EMPTY_EDIT);
    }

    method DecodeFrom(src: Bytes) returns (ok: bool)
      modifies this
      ensures match Decode(src, EMPTY_EDIT.(compactPointers := old(compactPointers)))
              case Corruption => !ok
              case Edited(e) => ok && Contents() == e
    {
      Clear();
      var input := src;
      ok := true;
      var more := true;
      while more
        invariant ok ==> Decode(src, EMPTY_EDIT.(compactPointers := old(compactPointers))) == Decode(input, Contents())
        invariant !ok ==> Decode(src, EMPTY_EDIT.(compactPointers := old(compactPointers))) == Corruption
        invariant ok && !more ==> GetVarint32(input) == Fail
        invariant more ==> ok
        decreases more, |input|
      {
        TagConsumes(input);
        match GetVarint32(input)
        case Fail => more := false;
        case Parsed(tag, rest) =>
          BodyConsumes(tag, rest);
          match ParseBody(tag, rest) {
            case Corrupt => ok, more := false, false;
            case One(item, rest') =>
              Add(item);
              input := rest';
          }
      }
      if ok && input != [] {
        ok := false;
      }
    }

    method Add(item: Item)
      modifies this
      ensures Contents() == Apply(old(Contents()), item)
    {
      match item
      case Comparator(name) => comparator := Some(name);
      case LogNumber(n) => logNumber := Some(n);
      case PrevLogNumber(n) => prevLogNumber := Some(n);
      case NextFileNumber(n) => nextFileNumber := Some(n);
      case LastSequence(n) => lastSequence := Some(n);
      case CompactPointer(level, key) => compactPointers := compactPointers + [(level, key)];
      case DeletedFile(level, number) => deletedFiles := deletedFiles + {(level, number)};
      case NewFile(level, f) => newFiles := newFiles + [(level, f)];
    }
  }
}
