/** The write-ahead log's framing: records cut into fragments that never cross a 32 KB block, and the reader
  that puts them together again from whatever prefix of the file survived. */
module Log {
  import opened DbFormat
  import opened Coding
  import Crc32c

  const BLOCK := 32768
  const HEADER := 7
  const FULL: Byte := 1
  const FIRST: Byte := 2
  const MIDDLE: Byte := 3
  const LAST: Byte := 4

  // ---------------------------------------------------------------------------
  // The format
  // ---------------------------------------------------------------------------

  datatype Frag = Frag(kind: Byte, payload: Bytes)

  /** How far the end of a block is from `pos`. */
  function Leftover(pos: nat): (r: nat)
    ensures 0 < r <= BLOCK
  {
    BLOCK - pos % BLOCK
  }

  /** Fewer bytes than a header at the end of a block are filled with zeros. */
  function PadLength(pos: nat): nat {
    if Leftover(pos) < HEADER then Leftover(pos) else 0
  }

  function Place(pos: nat): nat { pos + PadLength(pos) }

  /** A checksum, and the disguise it is stored under. The framing works with any that is sound. */
  datatype Checksum = Checksum(value: Bytes -> nat, mask: nat -> nat, unmask: nat -> nat)

  ghost predicate Sound(c: Checksum) {
    && (forall b {:trigger c.value(b)} :: c.value(b) < TWO32)
    && (forall x: nat {:trigger c.mask(x)} :: c.mask(x) < TWO32 && (x < TWO32 ==> c.unmask(c.mask(x)) == x))
  }

  function Crc(): Checksum {
    Checksum(Crc32c.Value, Crc32c.Mask, Crc32c.Unmask)
  }

  lemma CrcIsSound()
    ensures Sound(Crc())
  {
    forall b ensures Crc32c.Value(b) < TWO32 {
      Crc32c.CrcBound(0, b);
    }
    forall x: nat | x < TWO32 ensures Crc32c.Unmask(Crc32c.Mask(x)) == x {
      Crc32c.UnmaskMask(x);
    }
  }

  function Stored(c: Checksum, kind: Byte, payload: Bytes): Bytes {
    EncodeFixed32(c.mask(c.value([kind] + payload)))
  }

  /** Checksum, length and type, then the payload. */
  function Physical(c: Checksum, f: Frag): (r: Bytes)
    ensures |r| == HEADER + |f.payload|
  {
    Stored(c, f.kind, f.payload) + [|f.payload| % 256, |f.payload| / 256 % 256, f.kind] + f.payload
  }

  function EndOf(pos: nat, f: Frag): nat {
    Place(pos) + HEADER + |f.payload|
  }

  predicate Fits(pos: nat, f: Frag) {
    1 <= f.kind <= 4 && Place(pos) % BLOCK + HEADER + |f.payload| <= BLOCK
  }

  /** Room for payload in the block where the next fragment goes. */
  function Avail(pos: nat): nat {
    BLOCK - HEADER - Place(pos) % BLOCK
  }

  function FragKind(begin: bool, end: bool): Byte {
    if begin && end then FULL else if begin then FIRST else if end then LAST else MIDDLE
  }

  /** The next fragment of `rest`. */
  function Cut(pos: nat, rest: Bytes, begin: bool): Frag {
    if |rest| <= Avail(pos) then Frag(FragKind(begin, true), rest) else Frag(FragKind(begin, false), rest[..Avail(pos)])
  }

  /** A fragment that is not the last of its record goes to the end of its block, and zeros are only written
      where no header fits. */
  lemma CutFillsBlock(pos: nat, rest: Bytes, begin: bool)
    ensures var f := Cut(pos, rest, begin);
            && f.payload <= rest && (f.payload == rest || EndOf(pos, f) % 32768 == 0)
            && EndOf(pos, f) == pos + PadLength(pos) + 7 + |f.payload|
            && f.kind == if f.payload == rest then (if begin then 1 else 4) else (if begin then 2 else 3)
    ensures PadLength(pos) < 7 && (PadLength(pos) > 0 <==> pos % 32768 > 32768 - 7)
  {
  }

  lemma PlaceHasRoom(pos: nat)
    ensures Place(pos) % BLOCK + HEADER <= BLOCK
  {
  }

  /** A block with room for a header only takes an empty fragment, and then the next block is used. */
  lemma CutProgress(pos: nat)
    ensures Avail(pos) == 0 ==> Avail(Place(pos) + HEADER) > 0
  {
  }

  /** The bytes written at `pos` when `rest` of a record is left. */
  function Tail(c: Checksum, pos: nat, rest: Bytes, begin: bool): Bytes
    decreases |rest|, if Avail(pos) == 0 then 1 else 0
  {
    var f := Cut(pos, rest, begin);
    PlaceHasRoom(pos);
    CutProgress(pos);
    Zeros(PadLength(pos)) + Physical(c, f)
        + if |rest| <= Avail(pos) then [] else Tail(c, EndOf(pos, f), rest[Avail(pos)..], false)
  }

  /** How a record is written at a position: the bytes depend on nothing else. */
  type Encoder = (nat, Bytes) -> Bytes

  function RecordEncoder(c: Checksum): Encoder {
    (pos, record) => Tail(c, pos, record, true)
  }

  /** The bytes of records written one after another from `pos` on. */
  function LogFrom(enc: Encoder, pos: nat, records: seq<Bytes>): Bytes
    decreases |records|
  {
    if records == [] then []
    else
      var first := enc(pos, records[0]);
      first + LogFrom(enc, pos + |first|, records[1..])
  }

  /** A log file holding these records and nothing else. */
  function LogBytes(c: Checksum, records: seq<Bytes>): Bytes {
    LogFrom(RecordEncoder(c), 0, records)
  }

  lemma {:induction false} LogFromSnoc(enc: Encoder, pos: nat, records: seq<Bytes>, record: Bytes)
    ensures LogFrom(enc, pos, records + [record]) == LogFrom(enc, pos, records)
        + enc(pos + |LogFrom(enc, pos, records)|, record)
    decreases |records|
  {
    var all := records + [record];
    if records == [] {
      assert all[1..] == [];
    } else {
      var first := enc(pos, records[0]);
      assert all[0] == records[0] && all[1..] == records[1..] + [record];
      LogFromSnoc(enc, pos + |first|, records[1..], record);
    }
  }

  /** Where the first `n` records of a log end. */
  function EndsAt(c: Checksum, records: seq<Bytes>, n: nat): nat
    requires n <= |records|
  {
    if n == 0 then 0 else EndsAt(c, records, n - 1) + |RecordEncoder(c)(EndsAt(c, records, n - 1), records[n - 1])|
  }

  // ---------------------------------------------------------------------------
  // Writing
  // ---------------------------------------------------------------------------

  lemma AppendPhysical(dest: Bytes, zeros: Bytes, physical: Bytes, tail: Bytes)
    ensures dest + (zeros + physical + tail) == dest + zeros + physical + tail
  {
  }

  class Writer {
    const c: Checksum
    var dest: Bytes
    var blockOffset: nat

    /** The offset in the block is that of the file's length; a block just filled counts as full or as the
        start of the next. */
    ghost predicate Valid()
      reads this
    {
      blockOffset == |dest| % BLOCK || (blockOffset == BLOCK && |dest| % BLOCK == 0)
    }

    /** A writer on a file that already has some bytes; a new log is `Writer([])`. */
    constructor (c: Checksum, dest: Bytes)
      ensures Valid() && this.dest == dest && this.c == c
    {
      this.c, this.dest, blockOffset := c, dest, |dest| % BLOCK;
    }

    /** What is appended depends only on the length of the file. */
    method AddRecord(record: Bytes)
      requires Valid()
      modifies this
      ensures Valid() && dest == old(dest) + RecordEncoder(c)(|old(dest)|, record)
    {
      var left, begin, more := record, true, true;
      ghost var goal := dest + RecordEncoder(c)(|dest|, record);
      while more
        invariant Valid()
        invariant dest + (if more then Tail(c, |dest|, left, begin) else []) == goal
        decreases more, |left|, if Avail(|dest|) == 0 then 1 else 0
      {
        left, more := AddFragment(left, begin, goal);
        begin := false;
      }
    }

    /** One turn of the loop: as much of what is left as the block has room for. */
    method AddFragment(left: Bytes, begin: bool, ghost goal: Bytes) returns (rest: Bytes, more: bool)
      requires Valid() && dest + Tail(c, |dest|, left, begin) == goal
      modifies this
      ensures Valid() && dest + (if more then Tail(c, |dest|, rest, false) else []) == goal
      ensures more ==> |rest| < |left| || (|rest| == |left| && Avail(|old(dest)|) == 0 && Avail(|dest|) > 0)
    {
      ghost var pos := |dest|;
      StartBlockIfFull();
      var avail := BLOCK - blockOffset - HEADER;
      var length := if |left| < avail then |left| else avail;
      var end := |left| == length;
      var f := Frag(FragKind(begin, end), left[..length]);
      CutProgress(pos);
      PlaceHasRoom(pos);
      assert f == Cut(pos, left, begin);
      Emit(f);
      assert |dest| == EndOf(pos, f);
      assert Avail(pos) == 0 ==> EndOf(pos, f) == Place(pos) + HEADER;
      rest := left[length..];
      more := rest != [];
      AppendPhysical(old(dest), Zeros(PadLength(pos)), Physical(c, f),
          if more then Tail(c, |dest|, rest, false) else []);
    }

    /** Pads out the block if a header does not fit in it. */
    method StartBlockIfFull()
      requires Valid()
      modifies this
      ensures dest == old(dest) + Zeros(PadLength(|old(dest)|))
      ensures blockOffset == |dest| % BLOCK && blockOffset + HEADER <= BLOCK
    {
      var leftover := BLOCK - blockOffset;
      if leftover < HEADER {
        PlaceHasRoom(|dest|);
        dest := dest + Zeros(leftover);
        blockOffset := 0;
      }
    }

    method Emit(f: Frag)
      requires blockOffset + HEADER + |f.payload| <= BLOCK && |dest| % BLOCK == blockOffset
      modifies this
      ensures Valid() && dest == old(dest) + Physical(c, f)
    {
      dest := dest + Physical(c, f);
      blockOffset := blockOffset + HEADER + |f.payload|;
    }
  }

  /** A log written through writers reopened between any two records is the same as one never closed. */
  method WriteAll(c: Checksum, records: seq<Bytes>, reopen: nat -> bool) returns (dest: Bytes)
    ensures dest == LogBytes(c, records)
  {
    dest := [];
    var writer := new Writer(c, dest);
    for i := 0 to |records|
      invariant writer.Valid() && writer.c == c && fresh(writer) && writer.dest == dest
      invariant dest == LogBytes(c, records[..i])
    {
      if reopen(i) {
        writer := new Writer(c, dest);
      }
      OneMore(c, records, i);
      writer.AddRecord(records[i]);
      dest := writer.dest;
    }
    assert records[..|records|] == records;
  }

  lemma OneMore(c: Checksum, records: seq<Bytes>, i: nat)
    requires i < |records|
    ensures LogBytes(c, records[..i + 1]) ==
            LogBytes(c, records[..i]) + RecordEncoder(c)(|LogBytes(c, records[..i])|, records[i])
  {
    LogFromSnoc(RecordEncoder(c), 0, records[..i], records[i]);
    assert records[..i + 1] == records[..i] + [records[i]];
  }

  // ---------------------------------------------------------------------------
  // Reading
  // ---------------------------------------------------------------------------

  /** A fragment and where in the file it is. */
  datatype Piece = Piece(at: nat, frag: Frag)

  function Joined(ps: seq<Piece>): Bytes {
    if ps == [] then [] else Joined(ps[..|ps| - 1]) + ps[|ps| - 1].frag.payload
  }

  function EndOfPiece(p: Piece): nat {
    p.at + 7 + |p.frag.payload|
  }

  /** A first piece and middle ones. */
  predicate Started(ps: seq<Piece>) {
    ps != [] && ps[0].frag.kind == 2 && forall i :: 0 < i < |ps| ==> ps[i].frag.kind == 3
  }

  /** One full piece, or a first piece, middle ones and a last one. */
  predicate Complete(ps: seq<Piece>) {
    (|ps| == 1 && ps[0].frag.kind == 1) || (|ps| > 1 && Started(ps[..|ps| - 1]) && ps[|ps| - 1].frag.kind == 4)
  }

  datatype Phys = Eof | Bad | Fragment(kind: Byte, payload: Bytes)

  /** A full fragment is a record by itself; a last one completes what has been put together. */
  predicate Completes(next: Phys, scratch: Bytes, inFragmented: bool, record: Bytes) {
    && next.Fragment?
    && if next.kind == 1 then record == next.payload
       else next.kind == 4 && inFragmented && record == scratch + next.payload
  }

  /** A first fragment starts a record; a middle one adds to it. */
  predicate GoesOn(next: Phys, scratch: Bytes, inFragmented: bool, scratch': Bytes) {
    && next.Fragment?
    && if next.kind == 2 then scratch' == next.payload
       else next.kind == 3 && inFragmented && scratch' == scratch + next.payload
  }

  function LengthIn(b: Bytes): nat
    requires |b| >= HEADER
  {
    b[4] as int + 256 * b[5] as int
  }

  /** `b` starts like the fragment's bytes: its header parses to the fragment's. */
  lemma HeaderParses(c: Checksum, f: Frag, b: Bytes)
    requires Sound(c) && |f.payload| <= 0xffff && |b| >= HEADER && b[..HEADER] == Physical(c, f)[..HEADER]
    ensures LengthIn(b) == |f.payload| && b[6] == f.kind
    ensures c.unmask(DecodeFixed32(b)) == c.value([f.kind] + f.payload)
  {
    var phys := Physical(c, f);
    assert b[4] == b[..HEADER][4] == phys[4] && b[5] == b[..HEADER][5] == phys[5] && b[6] == b[..HEADER][6] == phys[6];
    var stored := Stored(c, f.kind, f.payload);
    assert b[..4] == b[..HEADER][..4] == phys[..HEADER][..4] == stored;
    Fixed32RoundTrip(c.mask(c.value([f.kind] + f.payload)), []);
    assert stored + [] == stored;
    assert stored[..4] == stored;
  }

  lemma PayloadParses(c: Checksum, f: Frag, b: Bytes)
    requires |b| >= HEADER + |f.payload| && b[..HEADER + |f.payload|] == Physical(c, f)
    ensures b[HEADER..HEADER + |f.payload|] == f.payload
    ensures b[6..HEADER + |f.payload|] == [f.kind] + f.payload
    ensures b[..HEADER] == Physical(c, f)[..HEADER]
  {
    var whole := Physical(c, f);
    var n := HEADER + |f.payload|;
    assert b[HEADER..n] == b[..n][HEADER..] == whole[HEADER..];
    assert b[6..n] == b[..n][6..] == whole[6..];
    assert b[..HEADER] == b[..n][..HEADER];
  }

  lemma StaysInBlock(pos: nat, length: nat, n: nat)
    requires pos % BLOCK + length <= BLOCK && n <= length
    ensures (pos + n) % BLOCK + (length - n) <= BLOCK
  {
  }

  /** The bytes of what is left of a record: its next fragment, and those after it. */
  lemma TailParts(c: Checksum, pos: nat, rest: Bytes, begin: bool)
      returns (f: Frag, after: Bytes, rest': Bytes, last: bool)
    ensures Fits(pos, f) && f.kind == FragKind(begin, last) && rest == f.payload + rest'
    ensures Tail(c, pos, rest, begin) == Zeros(PadLength(pos)) + Physical(c, f) + after
    ensures after == (if last then [] else Tail(c, EndOf(pos, f), rest', false)) && (last ==> rest' == [])
  {
    PlaceHasRoom(pos);
    f := Cut(pos, rest, begin);
    last := |rest| <= Avail(pos);
    rest' := if last then [] else rest[Avail(pos)..];
    after := if last then [] else Tail(c, EndOf(pos, f), rest', false);
  }

  class Reader {
    const c: Checksum
    const file: Bytes
    const checksum: bool
    var filePos: nat
    var buffer: Bytes
    var eof: bool
    /** How many corruptions have been reported. */
    var reports: nat

    constructor (c: Checksum, file: Bytes, checksum: bool)
      ensures Valid() && this.c == c && this.file == file && Pos() == 0 && reports == 0
    {
      this.c, this.file, this.checksum := c, file, checksum;
      filePos, buffer, eof, reports := 0, [], false, 0;
    }

    /** The buffer is what is left of the last block read. */
    ghost predicate Valid()
      reads this
    {
      && |buffer| <= filePos <= |file| && buffer == file[filePos - |buffer|..filePos]
      && Pos() % BLOCK + |buffer| <= BLOCK
      && (if eof then filePos == |file| && Pos() % BLOCK + |buffer| < BLOCK else filePos % BLOCK == 0)
    }

    ghost function Pos(): nat
      reads this
    {
      if |buffer| <= filePos then filePos - |buffer| else 0
    }

    /** The file goes on with this fragment and then `more`, as far as it goes. */
    ghost predicate Ahead(pos: nat, f: Frag, more: Bytes) {
      && Sound(c) && Fits(pos, f) && pos <= |file|
      && file[pos..] <= Zeros(PadLength(pos)) + Physical(c, f) + more
    }

    /** A fragment of the file: header and payload in one block, with the length and the type in the header,
        and the checksum of the type and the payload. */
    ghost predicate FragmentAt(pos: nat, f: Frag) {
      && pos + 7 + |f.payload| <= |file| && pos % BLOCK + 7 + |f.payload| <= BLOCK
      && file[pos + 4] as int + 256 * file[pos + 5] as int == |f.payload| && file[pos + 6] == f.kind
      && file[pos + 7..pos + 7 + |f.payload|] == f.payload
      && (checksum ==> c.unmask(DecodeFixed32(file[pos..pos + 4])) == c.value([f.kind] + f.payload))
    }

    /** Space of a file that was made longer but not written. */
    ghost predicate BlankAt(pos: nat) {
      pos + 7 <= |file| && file[pos + 4] == 0 && file[pos + 5] == 0 && file[pos + 6] == 0
    }

    method ReadBlock()
      requires Valid() && !eof && |buffer| < HEADER
      modifies `filePos, `buffer, `eof
      ensures Valid() && Pos() == old(filePos)
      ensures eof || |buffer| == BLOCK
    {
      var n := if |file| - filePos < BLOCK then |file| - filePos else BLOCK;
      buffer := file[filePos..filePos + n];
      filePos := filePos + n;
      eof := n < BLOCK;
    }

    lemma AheadBuffer(pos: nat, f: Frag, more: Bytes, b: Bytes)
      requires Ahead(pos, f, more) && Place(pos) + |b| <= |file| && b == file[Place(pos)..Place(pos) + |b|]
      ensures |b| >= HEADER ==> b[..HEADER] == Physical(c, f)[..HEADER]
      ensures |b| >= HEADER + |f.payload| ==> b[..HEADER + |f.payload|] == Physical(c, f)
    {
      var pad, phys := PadLength(pos), Physical(c, f);
      forall i | 0 <= i < |b| && i < |phys| ensures b[i] == phys[i] {
        assert b[i] == file[pos..][pad + i];
        assert (Zeros(pad) + phys + more)[pad + i] == phys[i];
      }
    }

    /** On any file, what is returned is a fragment with its checksum; any other header gives up the rest of
        its block, and is reported unless it is blank or the file ends inside it. If the file goes on with
        `f`, as far as it goes, the next fragment is `f` if all of it is there, and otherwise it is the end
        of the file, without a report. */
    method ReadPhysicalRecord(ghost f: Frag, ghost more: Bytes) returns (r: Phys)
      requires Valid()
      modifies `filePos, `buffer, `eof, `reports
      ensures Valid() && (r != Eof ==> Pos() > old(Pos()))
      ensures Ahead(old(Pos()), f, more) ==>
        && reports == old(reports)
        && if EndOf(old(Pos()), f) <= |file| then r == Fragment(f.kind, f.payload) && Pos() == EndOf(old(Pos()), f)
           else r == Eof
      ensures old(Pos()) == |file| ==> r == Eof && reports == old(reports)
      ensures Found(Place(old(Pos())), r, Pos())
      ensures reports == old(reports) + if r.Bad? && !BlankAt(Place(old(Pos()))) then 1 else 0
    {
      ghost var pos := Pos();
      FillBuffer();
      if |buffer| < HEADER {
        Consume(|buffer|);
        return Eof;
      }
      r := ParseBuffer(pos, f, more);
    }

    /** What a read that starts at `q` may give on any file, and where it ends. */
    ghost predicate Found(q: nat, r: Phys, end: nat) {
      && (r.Fragment? ==> FragmentAt(q, Frag(r.kind, r.payload)) && end == q + 7 + |r.payload|)
      && (forall g :: FragmentAt(q, g) && !BlankAt(q) ==> r == Fragment(g.kind, g.payload))
      && (r.Bad? ==> end == |file| || end % BLOCK == 0)
    }

    method ParseBuffer(ghost pos: nat, ghost f: Frag, ghost more: Bytes) returns (r: Phys)
      requires Valid() && |buffer| >= HEADER && Pos() == Place(pos) && pos <= |file|
      requires (eof ==> Pos() + |buffer| == |file|) && (!eof ==> Pos() % BLOCK + |buffer| == BLOCK)
      modifies `buffer, `reports
      ensures Valid() && (r != Eof ==> Pos() > pos)
      ensures Ahead(pos, f, more) ==>
        && reports == old(reports)
        && if EndOf(pos, f) <= |file| then r == Fragment(f.kind, f.payload) && Pos() == EndOf(pos, f) else r == Eof
      ensures Found(Place(pos), r, Pos())
      ensures reports == old(reports) + if r.Bad? && !BlankAt(Place(pos)) then 1 else 0
    {
      var consumed, report;
      r, consumed, report := ParseAt(pos, buffer, eof, f, more);
      Consume(consumed);
      reports := if report then reports + 1 else reports;
    }

    method ParseAt(ghost pos: nat, b: Bytes, ended: bool, ghost f: Frag, ghost more: Bytes)
      returns (r: Phys, consumed: nat, report: bool)
      requires |b| >= HEADER && Place(pos) + |b| <= |file| && b == file[Place(pos)..Place(pos) + |b|] && pos <= |file|
      requires Place(pos) % BLOCK + |b| <= BLOCK
      requires if ended then Place(pos) + |b| == |file| else Place(pos) % BLOCK + |b| == BLOCK
      ensures consumed <= |b| && (r != Eof ==> consumed > 0)
      ensures Ahead(pos, f, more) ==>
        && !report
        && if EndOf(pos, f) <= |file| then r == Fragment(f.kind, f.payload) && Place(pos) + consumed == EndOf(pos, f)
           else r == Eof
      ensures Found(Place(pos), r, Place(pos) + consumed) && (report <==> r.Bad? && !BlankAt(Place(pos)))
    {
      ghost var ahead := Ahead(pos, f, more);
      if ahead {
        AheadBuffer(pos, f, more, b);
      }
      r, consumed, report := ParsePhysical(c, checksum, ended, b, f, ahead);
      FoundAt(Place(pos), b, r, consumed, report, ended);
    }

    /** What was parsed at the front of the buffer, seen in the file. */
    lemma FoundAt(q: nat, b: Bytes, r: Phys, consumed: nat, report: bool, ended: bool)
      requires |b| >= HEADER && q + |b| <= |file| && b == file[q..q + |b|] && q % BLOCK + |b| <= BLOCK
      requires if ended then q + |b| == |file| else q % BLOCK + |b| == BLOCK
      requires Parses(c, checksum, ended, b, r, consumed, report)
      ensures Found(q, r, q + consumed)
      ensures report <==> r.Bad? && !BlankAt(q)
    {
      var n := LengthIn(b);
      assert b[4] == file[q + 4] && b[5] == file[q + 5] && b[6] == file[q + 6];
      SliceOfSlice(file, q, |b|, 0, 4);
      assert b[..4] == b[0..4] && file[q..q + 4][..4] == file[q..q + 4];
      if HEADER + n <= |b| {
        SliceOfSlice(file, q, |b|, HEADER, HEADER + n);
        FirstOfSlice(b, 6, HEADER + n);
      }
      forall g | FragmentAt(q, g) && !BlankAt(q) ensures r == Fragment(g.kind, g.payload) {
        assert n == |g.payload| && b[HEADER..HEADER + n] == g.payload;
      }
    }

    method Consume(n: nat)
      requires Valid() && n <= |buffer|
      modifies `buffer
      ensures Valid() && Pos() == old(Pos()) + n
    {
      StaysInBlock(Pos(), |buffer|, n);
      buffer := buffer[n..];
    }

    /** Skips the trailer of a block and reads the next one, when too little is left for a header. */
    method FillBuffer()
      requires Valid()
      modifies `filePos, `buffer, `eof
      ensures Valid()
      ensures |buffer| >= HEADER ==> Pos() == Place(old(Pos()))
      ensures |buffer| < HEADER ==> eof && |file| < Place(old(Pos())) + HEADER
      ensures eof ==> Pos() + |buffer| == |file|
      ensures !eof ==> Pos() % BLOCK + |buffer| == BLOCK
    {
      if |buffer| < HEADER && !eof {
        ReadBlock();
      }
    }

    /** From `pos` on the file holds the rest of a record and then `later`, as far as it goes. */
    ghost predicate Reading(pos: nat, rest: Bytes, begin: bool, later: Bytes) {
      Sound(c) && pos <= |file| && file[pos..] <= Tail(c, pos, rest, begin) + later
    }

    ghost predicate InSync(pos: nat, records: seq<Bytes>) {
      Sound(c) && pos <= |file| && file[pos..] <= LogFrom(RecordEncoder(c), pos, records)
    }

    /** The next fragment of the record being read, what follows it in the file, and what it leaves. */
    lemma NextFragment(pos: nat, rest: Bytes, begin: bool, later: Bytes)
      returns (f: Frag, more: Bytes, rest': Bytes, last: bool)
      requires Reading(pos, rest, begin, later)
      ensures Ahead(pos, f, more) && f.kind == FragKind(begin, last) && rest == f.payload + rest'
      ensures EndOf(pos, f) <= pos + |Tail(c, pos, rest, begin)|
      ensures last ==> rest' == [] && EndOf(pos, f) == pos + |Tail(c, pos, rest, begin)|
      ensures last && EndOf(pos, f) <= |file| ==> file[EndOf(pos, f)..] <= later
      ensures !last ==> EndOf(pos, f) + |Tail(c, EndOf(pos, f), rest', false)| == pos + |Tail(c, pos, rest, begin)|
      ensures !last && EndOf(pos, f) <= |file| ==> Reading(EndOf(pos, f), rest', false, later)
    {
      var after;
      f, after, rest', last := TailParts(c, pos, rest, begin);
      more := after + later;
      var head := Zeros(PadLength(pos)) + Physical(c, f);
      StreamStep(file[pos..], head, after, later);
      if EndOf(pos, f) <= |file| {
        assert file[pos..][|head|..] == file[EndOf(pos, f)..];
      }
      assert [] + later == later;
    }

    /** The next record if all of it is in the file, and otherwise nothing, without a report. */
    method ReadRecord(ghost records: seq<Bytes>) returns (r: Option<Bytes>, ghost ps: seq<Piece>)
      requires Valid()
      modifies `filePos, `buffer, `eof, `reports
      ensures r.Some? ==> RecordIn(ps, r.value, old(Pos()), Pos())
      ensures Valid() && (r.Some? ==> Pos() > old(Pos()))
      ensures InSync(old(Pos()), records) ==> reports == old(reports) && GotFirst(old(Pos()), records, r, Pos())
    {
      ghost var pos := Pos();
      ghost var record, later, end := [], [], 0;
      ghost var sync := InSync(pos, records) && records != [];
      if sync {
        record, later, end := RecordAhead(pos, records);
      } else if InSync(pos, records) {
        assert pos == |file|;
      }
      r, ps := ReadLogical(record, later);
      if sync {
        FirstGot(pos, records, record, later, end, r, Pos());
      }
    }

    /** What reading gives where the file goes on with these records, and where it ends. */
    ghost predicate GotFirst(pos: nat, records: seq<Bytes>, r: Option<Bytes>, end: nat) {
      if records == [] || pos + |RecordEncoder(c)(pos, records[0])| > |file| then r == None
      else
        && r == Some(records[0]) && end == pos + |RecordEncoder(c)(pos, records[0])|
        && InSync(end, records[1..])
    }

    lemma FirstGot(pos: nat, records: seq<Bytes>, record: Bytes, later: Bytes, end: nat, r: Option<Bytes>, at: nat)
      requires Sound(c) && records != [] && record == records[0]
      requires later == LogFrom(RecordEncoder(c), end, records[1..])
      requires end == pos + |RecordEncoder(c)(pos, record)|
      requires if end > |file| then r == None else r == Some(record) && at == end && file[end..] <= later
      ensures GotFirst(pos, records, r, at)
    {
    }

    /** A file that goes on with records goes on with the first, and then the rest. */
    lemma RecordAhead(pos: nat, records: seq<Bytes>) returns (record: Bytes, later: Bytes, end: nat)
      requires InSync(pos, records) && records != []
      ensures record == records[0] && Reading(pos, record, true, later)
      ensures end == End(pos, record, true) == pos + |RecordEncoder(c)(pos, record)|
      ensures later == LogFrom(RecordEncoder(c), end, records[1..])
    {
      record, end := records[0], pos + |RecordEncoder(c)(pos, records[0])|;
      later := LogFrom(RecordEncoder(c), end, records[1..]);
    }

    /** Pieces of the file that follow one another, from `lo` on. */
    ghost predicate Chain(ps: seq<Piece>, lo: nat) {
      && ps != [] && ps[0].at >= lo && (forall i :: 0 <= i < |ps| ==> FragmentAt(ps[i].at, ps[i].frag))
      && forall i, j :: 0 <= i < j < |ps| && j == i + 1 ==> ps[j].at == Place(EndOfPiece(ps[i]))
    }

    /** The pieces put together so far, up to `end`. */
    ghost predicate Gathered(ps: seq<Piece>, inFragmented: bool, scratch: Bytes, lo: nat, end: nat) {
      inFragmented ==> Chain(ps, lo) && Started(ps) && Joined(ps) == scratch && EndOfPiece(ps[|ps| - 1]) == end
    }

    /** A record is pieces of the file, each with its checksum, that follow one another and are marked as the
        parts of one record. */
    ghost predicate RecordIn(ps: seq<Piece>, record: Bytes, lo: nat, end: nat) {
      Chain(ps, lo) && Complete(ps) && Joined(ps) == record && EndOfPiece(ps[|ps| - 1]) == end
    }

    lemma OnePiece(at: nat, f: Frag, lo: nat) returns (ps: seq<Piece>)
      requires FragmentAt(at, f) && at >= lo
      ensures ps == [Piece(at, f)] && Chain(ps, lo) && Joined(ps) == f.payload
      ensures EndOfPiece(ps[|ps| - 1]) == at + 7 + |f.payload|
    {
      ps := [Piece(at, f)];
      assert ps[..0] == [] && [] + f.payload == f.payload;
    }

    lemma MorePieces(ps: seq<Piece>, at: nat, f: Frag, lo: nat) returns (ps': seq<Piece>)
      requires Chain(ps, lo) && FragmentAt(at, f) && at == Place(EndOfPiece(ps[|ps| - 1]))
      ensures ps' == ps + [Piece(at, f)] && ps'[..|ps|] == ps && Chain(ps', lo) && Joined(ps') == Joined(ps) + f.payload
    {
      ps' := ps + [Piece(at, f)];
      assert ps'[..|ps|] == ps;
    }

    /** What a physical record adds to the pieces. */
    lemma Gathers(ps: seq<Piece>, inFragmented: bool, scratch: Bytes, lo: nat, pos: nat, next: Phys, end: nat,
                  done: Option<Bytes>, scratch': Bytes, inFragmented': bool) returns (ps': seq<Piece>)
      requires Gathered(ps, inFragmented, scratch, lo, pos) && pos >= lo && Found(Place(pos), next, end)
      requires done.Some? ==> Completes(next, scratch, inFragmented, done.value)
      requires done.None? && inFragmented' ==> GoesOn(next, scratch, inFragmented, scratch')
      ensures done.Some? ==> RecordIn(ps', done.value, lo, end)
      ensures done.None? ==> Gathered(ps', inFragmented', scratch', lo, end)
    {
      ps' := ps;
      if next.Fragment? && (done.Some? || inFragmented') {
        var f := Frag(next.kind, next.payload);
        if f.kind == 1 || f.kind == 2 {
          ps' := OnePiece(Place(pos), f, lo);
        } else {
          ps' := MorePieces(ps, Place(pos), f, lo);
        }
      }
    }

    /** The loop of ReadRecord: physical records until they complete a logical one. */
    method ReadLogical(ghost record: Bytes, ghost later: Bytes) returns (r: Option<Bytes>, ghost ps: seq<Piece>)
      requires Valid()
      modifies `filePos, `buffer, `eof, `reports
      ensures r.Some? ==> RecordIn(ps, r.value, old(Pos()), Pos())
      ensures Valid() && (r.Some? ==> Pos() > old(Pos()))
      ensures old(Pos()) == |file| ==> r == None && reports == old(reports)
      ensures Reading(old(Pos()), record, true, later) ==>
                reports == old(reports) && Outcome(r, record, End(old(Pos()), record, true), later)
    {
      var scratch: Bytes := [];
      var inFragmented, stop := false, false;
      r, ps := None, [];
      ghost var sync := Reading(Pos(), record, true, later);
      ghost var end := End(Pos(), record, true);
      ghost var rest := record;
      while !stop
        invariant Valid() && (!stop || r.Some? ==> Pos() >= old(Pos())) && (!inFragmented ==> scratch == [])
        invariant stop && r.Some? ==> Pos() > old(Pos()) && RecordIn(ps, r.value, old(Pos()), Pos())
        invariant !stop ==> Gathered(ps, inFragmented, scratch, old(Pos()), Pos())
        invariant sync ==> reports == old(reports)
        invariant sync && !stop ==>
            Reading(Pos(), rest, !inFragmented, later) && scratch + rest == record
            && end == End(Pos(), rest, !inFragmented)
        invariant sync && stop ==> Outcome(r, record, end, later)
        invariant old(Pos()) == |file| ==> reports == old(reports) && (if stop then r == None else Pos() == |file|)
        decreases !stop, |file| - Pos()
      {
        stop, r, scratch, inFragmented, rest, ps :=
          ReadPiece(scratch, inFragmented, rest, later, ps, old(Pos()));
      }
    }

    ghost function End(pos: nat, rest: Bytes, begin: bool): nat {
      pos + |Tail(c, pos, rest, begin)|
    }

    /** The record if it ends in the file, and then the reader stands after it. */
    ghost predicate Outcome(r: Option<Bytes>, record: Bytes, end: nat, later: Bytes)
      reads this
    {
      if end > |file| then r == None else r == Some(record) && Pos() == end && file[end..] <= later
    }

    /** One turn of the loop, and the pieces it adds up to. */
    method ReadPiece(scratch: Bytes, inFragmented: bool, ghost rest: Bytes, ghost later: Bytes,
                     ghost ps: seq<Piece>, ghost lo: nat)
      returns (stop: bool, r: Option<Bytes>, scratch': Bytes, inFragmented': bool, ghost rest': Bytes,
               ghost ps': seq<Piece>)
      requires Valid() && (!inFragmented ==> scratch == [])
      requires lo <= Pos() && Gathered(ps, inFragmented, scratch, lo, Pos())
      modifies `filePos, `buffer, `eof, `reports
      ensures r.Some? ==> stop && RecordIn(ps', r.value, lo, Pos())
      ensures !stop ==> Gathered(ps', inFragmented', scratch', lo, Pos())
      ensures Valid() && (!inFragmented' ==> scratch' == []) && (!stop || r.Some? ==> Pos() > old(Pos()))
      ensures old(Pos()) == |file| ==> stop && r == None && reports == old(reports)
      ensures Reading(old(Pos()), rest, !inFragmented, later) ==>
                && reports == old(reports)
                && (stop ==> Outcome(r, scratch + rest, End(old(Pos()), rest, !inFragmented), later))
                && (!stop ==>
                      && Reading(Pos(), rest', !inFragmented', later) && scratch' + rest' == scratch + rest
                      && End(Pos(), rest', !inFragmented') == End(old(Pos()), rest, !inFragmented))
    {
      ghost var pos := Pos();
      ghost var next;
      stop, r, scratch', inFragmented', rest', next := ReadFragment(scratch, inFragmented, rest, later);
      ps' := [];
      if next != Eof {
        ps' := Gathers(ps, inFragmented, scratch, lo, pos, next, Pos(), r, scratch', inFragmented');
      }
    }

    /** A physical record, and what it makes of the logical one. */
    method ReadFragment(scratch: Bytes, inFragmented: bool, ghost rest: Bytes, ghost later: Bytes)
      returns (stop: bool, r: Option<Bytes>, scratch': Bytes, inFragmented': bool, ghost rest': Bytes,
               ghost next': Phys)
      requires Valid() && (!inFragmented ==> scratch == [])
      modifies `filePos, `buffer, `eof, `reports
      ensures Found(Place(old(Pos())), next', Pos())
      ensures (stop <==> next' == Eof || r.Some?) && (next' == Eof ==> r == None)
      ensures r.Some? ==> Completes(next', scratch, inFragmented, r.value)
      ensures next' != Eof && r.None? && inFragmented' ==> GoesOn(next', scratch, inFragmented, scratch')
      ensures Valid() && (!inFragmented' ==> scratch' == []) && (!stop || r.Some? ==> Pos() > old(Pos()))
      ensures old(Pos()) == |file| ==> stop && r == None && reports == old(reports)
      ensures Reading(old(Pos()), rest, !inFragmented, later) ==>
                && reports == old(reports)
                && (stop ==> Outcome(r, scratch + rest, End(old(Pos()), rest, !inFragmented), later))
                && (!stop ==>
                      && Reading(Pos(), rest', !inFragmented', later) && scratch' + rest' == scratch + rest
                      && End(Pos(), rest', !inFragmented') == End(old(Pos()), rest, !inFragmented))
    {
      var next;
      ghost var last, payload;
      next, rest', last, payload := NextPhysical(rest, !inFragmented, later);
      if next == Eof {
        return true, None, [], false, rest', Eof;
      }
      var extra;
      r, scratch', inFragmented', extra := Assemble(next, scratch, inFragmented);
      next' := next;
      reports := reports + extra;
      stop := r.Some?;
      assert scratch + (payload + rest') == scratch + payload + rest';
      assert rest' == [] ==> scratch + payload + rest' == scratch + payload;
    }

    /** The physical record that comes next, seen as a piece of the logical one. */
    method NextPhysical(ghost rest: Bytes, ghost begin: bool, ghost later: Bytes)
      returns (next: Phys, ghost rest': Bytes, ghost last: bool, ghost payload: Bytes)
      requires Valid()
      modifies `filePos, `buffer, `eof, `reports
      ensures Valid() && (next != Eof ==> Pos() > old(Pos())) && Found(Place(old(Pos())), next, Pos())
      ensures old(Pos()) == |file| ==> next == Eof && reports == old(reports)
      ensures Reading(old(Pos()), rest, begin, later) ==>
                && reports == old(reports)
                && if next == Eof then End(old(Pos()), rest, begin) > |file|
                   else next == Fragment(FragKind(begin, last), payload) && rest == payload + rest'
                        && PieceRead(Pos(), End(old(Pos()), rest, begin), rest', last, later)
    {
      ghost var f, more := Frag(0, []), [];
      rest', last := [], false;
      if Reading(Pos(), rest, begin, later) {
        f, more, rest', last := NextFragment(Pos(), rest, begin, later);
      }
      payload := f.payload;
      next := ReadPhysicalRecord(f, more);
    }

    /** After a piece of a record ending at `end`: the record is complete, or it goes on. */
    ghost predicate PieceRead(pos: nat, end: nat, rest: Bytes, last: bool, later: Bytes) {
      if last then rest == [] && pos == end <= |file| && file[pos..] <= later
      else Reading(pos, rest, false, later) && End(pos, rest, false) == end
    }

    /** The records lying wholly in the file, in order, and no report; whatever prefix of a log it is. */
    method ReadAll(ghost records: seq<Bytes>) returns (rs: seq<Bytes>)
      requires Valid() && Pos() == 0
      modifies `filePos, `buffer, `eof, `reports
      ensures Sound(c) && file <= LogBytes(c, records) ==>
        reports == old(reports) && Stopped(records, rs)
    {
      rs := [];
      ghost var sync := Sound(c) && file <= LogBytes(c, records);
      assert file[0..] == file && records[0..] == records && records[..0] == [];
      ghost var todo := if sync then records else [];
      var more := true;
      while more
        invariant Valid()
        invariant sync && more ==> reports == old(reports) && At(records, |rs|, rs, todo, Pos())
        invariant sync && !more ==> reports == old(reports) && Stopped(records, rs)
        decreases more, |file| - Pos()
      {
        more, rs, todo := ReadOne(records, rs, todo, sync);
      }
    }

    /** One turn: another record, or the end. */
    method ReadOne(ghost records: seq<Bytes>, rs: seq<Bytes>, ghost todo: seq<Bytes>, ghost sync: bool)
      returns (more: bool, rs': seq<Bytes>, ghost todo': seq<Bytes>)
      requires Valid() && (sync ==> At(records, |rs|, rs, todo, Pos()))
      modifies `filePos, `buffer, `eof, `reports
      ensures Valid() && (more ==> Pos() > old(Pos()))
      ensures sync ==> reports == old(reports)
      ensures sync && more ==> At(records, |rs'|, rs', todo', Pos())
      ensures sync && !more ==> Stopped(records, rs')
    {
      ghost var pos := Pos();
      var r;
      ghost var ps;
      r, ps := ReadRecord(todo);
      if sync {
        AfterOne(records, rs, todo, pos, r, Pos());
      }
      more, rs', todo' := r.Some?, rs, todo;
      if r.Some? {
        rs' := rs + [r.value];
        todo' := if sync then todo[1..] else todo;
      }
    }

    /** Exactly the records that end in the file have been read. */
    ghost predicate Stopped(records: seq<Bytes>, rs: seq<Bytes>) {
      && |rs| <= |records| && rs == records[..|rs|]
      && EndsAt(c, records, |rs|) <= |file| && (|rs| < |records| ==> |file| < EndsAt(c, records, |rs| + 1))
    }

    /** `n` records have been read and `todo` is the rest of them, from `pos` on. */
    ghost predicate At(records: seq<Bytes>, n: nat, rs: seq<Bytes>, todo: seq<Bytes>, pos: nat) {
      && n == |rs| <= |records| && rs == records[..n] && todo == records[n..] && pos == EndsAt(c, records, n)
      && InSync(pos, todo)
    }

    lemma AfterOne(records: seq<Bytes>, rs: seq<Bytes>, todo: seq<Bytes>, pos: nat, r: Option<Bytes>, end: nat)
      requires At(records, |rs|, rs, todo, pos) && GotFirst(pos, todo, r, end)
      ensures if r.Some? then todo != [] && At(records, |rs| + 1, rs + [r.value], todo[1..], end)
              else Stopped(records, rs)
    {
    }
  }

  /** Where records end is how long the log of them is. */
  lemma {:induction false} EndsAtIsLength(c: Checksum, records: seq<Bytes>, n: nat)
    requires n <= |records|
    ensures EndsAt(c, records, n) == |LogBytes(c, records[..n])|
  {
    if n > 0 {
      EndsAtIsLength(c, records, n - 1);
      OneMore(c, records, n - 1);
    }
  }

  /** Adds a physical record to what has been put together of the logical one: it may complete it. */
  method Assemble(next: Phys, scratch: Bytes, inFragmented: bool)
    returns (done: Option<Bytes>, scratch': Bytes, inFragmented': bool, reports: nat)
    requires next != Eof && (!inFragmented ==> scratch == [])
    ensures !inFragmented' ==> scratch' == []
    ensures done.Some? ==> Completes(next, scratch, inFragmented, done.value)
    ensures done.None? && inFragmented' ==> GoesOn(next, scratch, inFragmented, scratch')
    ensures reports == 0 && scratch != [] ==>
      if done.Some? then scratch <= done.value else inFragmented' && scratch <= scratch'
    ensures reports == 0 && next.Fragment? ==> done.Some? || inFragmented'
    ensures next.Fragment? && next.kind == FragKind(!inFragmented, true) ==>
        done == Some(scratch + next.payload) && reports == 0
    ensures next.Fragment? && next.kind == FragKind(!inFragmented, false) ==>
              done == None && scratch' == scratch + next.payload && inFragmented' && reports == 0
  {
    done, scratch', inFragmented', reports := None, scratch, inFragmented, 0;
    match next
    case Bad =>
      reports := if inFragmented then 1 else 0;
      inFragmented', scratch' := false, [];
    case Fragment(kind, payload) =>
      if kind == FULL {
        reports := if inFragmented && scratch != [] then 1 else 0;
        assert [] + payload == payload;
        done := Some(payload);
      } else if kind == FIRST {
        reports := if inFragmented && scratch != [] then 1 else 0;
        scratch', inFragmented' := payload, true;
      } else if kind == MIDDLE {
        if inFragmented {
          scratch' := scratch + payload;
        } else {
          reports := 1;
        }
      } else if kind == LAST {
        if inFragmented {
          done := Some(scratch + payload);
        } else {
          reports := 1;
        }
      } else {
        reports := 1;
        inFragmented', scratch' := false, [];
      }
  }

  lemma StreamStep(s: Bytes, head: Bytes, after: Bytes, later: Bytes)
    requires s <= head + after + later
    ensures s <= head + (after + later)
    ensures |s| >= |head| ==> s[|head|..] <= after + later
  {
    assert head + after + later == head + (after + later);
    if |s| >= |head| {
      DropPrefix(s, head, after + later);
    }
  }

  lemma DropPrefix(s: Bytes, a: Bytes, b: Bytes)
    requires s <= a + b && |s| >= |a|
    ensures s[|a|..] <= b
  {
    forall i | 0 <= i < |s| - |a| ensures s[|a|..][i] == b[i] {
      assert s[|a| + i] == (a + b)[|a| + i];
    }
  }

  /** What the bytes in the buffer hold: a whole fragment, the torn end of the file, or damage. */
  lemma FirstOfSlice(b: Bytes, i: nat, j: nat)
    requires i < j <= |b|
    ensures b[i..j] == [b[i]] + b[i + 1..j]
  {
  }

  lemma SliceOfSlice(s: Bytes, q: nat, n: nat, i: nat, j: nat)
    requires q + n <= |s| && i <= j <= n
    ensures s[q..q + n][i..j] == s[q + i..q + j]
  {
    var a, b := s[q..q + n][i..j], s[q + i..q + j];
    forall k | 0 <= k < j - i ensures a[k] == b[k] {
      assert s[q..q + n][i + k] == s[q + i + k];
    }
  }

  /** What is found at the front of a buffer, how much of it is used up and whether that is reported. */
  predicate Parses(c: Checksum, checksum: bool, eof: bool, b: Bytes, r: Phys, consumed: nat, report: bool)
    requires |b| >= HEADER
  {
    var n := LengthIn(b);
    if HEADER + n > |b| then consumed == |b| && (if eof then r == Eof && !report else r == Bad && report)
    else if b[6] == 0 && n == 0 then consumed == |b| && r == Bad && !report
    else if checksum && c.value(b[6..HEADER + n]) != c.unmask(DecodeFixed32(b))
    then consumed == |b| && r == Bad && report
    else consumed == HEADER + n && r == Fragment(b[6], b[HEADER..HEADER + n]) && !report
  }

  method ParsePhysical(c: Checksum, checksum: bool, eof: bool, b: Bytes, ghost f: Frag, ghost ahead: bool)
    returns (r: Phys, consumed: nat, report: bool)
    requires |b| >= HEADER
    requires ahead ==> Sound(c) && 1 <= f.kind <= 4 && |f.payload| <= 0xffff && b[..HEADER] == Physical(c, f)[..HEADER]
    requires ahead && |b| >= HEADER + |f.payload| ==> b[..HEADER + |f.payload|] == Physical(c, f)
    ensures consumed <= |b| && (r != Eof ==> consumed > 0)
    ensures ahead && |b| >= HEADER + |f.payload| ==>
        r == Fragment(f.kind, f.payload) && consumed == HEADER + |f.payload| && !report
    ensures ahead && |b| < HEADER + |f.payload| && eof ==> r == Eof && !report
    ensures Parses(c, checksum, eof, b, r, consumed, report)
  {
    if ahead {
      HeaderParses(c, f, b);
      if |b| >= HEADER + |f.payload| {
        PayloadParses(c, f, b);
      }
    }
    var length, kind := LengthIn(b), b[6];
    if HEADER + length > |b| {
      return if eof then Eof else Bad, |b|, !eof;
    }
    if kind == 0 && length == 0 {
      return Bad, |b|, false;
    }
    if checksum && c.value(b[6..HEADER + length]) != c.unmask(DecodeFixed32(b)) {
      return Bad, |b|, true;
    }
    r, consumed, report := Fragment(kind, b[HEADER..HEADER + length]), HEADER + length, false;
  }
}
