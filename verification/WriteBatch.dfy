/** Write batches: the byte string a group of updates is logged as, and its way into the memtable. */
module WriteBatch {
  import opened DbFormat
  import opened Coding

  const HEADER := 12

  datatype Update = PutUpdate(key: Bytes, value: Bytes) | DeleteUpdate(key: Bytes)

  predicate UpdateOk(u: Update) {
    |u.key| < TWO32 && (u.PutUpdate? ==> |u.value| < TWO32)
  }

  // ---------------------------------------------------------------------------
  // Encoding
  // ---------------------------------------------------------------------------

  /** One record, followed by `rest`. */
  function EncodeBefore(u: Update, rest: Bytes): Bytes {
    match u
    case PutUpdate(key, value) => [1] + (LengthPrefixed(key) + (LengthPrefixed(value) + rest))
    case DeleteUpdate(key) => [0] + (LengthPrefixed(key) + rest)
  }

  function EncodeAll(us: seq<Update>, rest: Bytes): Bytes {
    if us == [] then rest else EncodeBefore(us[0], EncodeAll(us[1..], rest))
  }

  lemma EncodeThenMore(u: Update, rest: Bytes, more: Bytes)
    ensures EncodeBefore(u, rest) + more == EncodeBefore(u, rest + more)
  {
    match u
    case PutUpdate(key, value) =>
      Regroup([1], LengthPrefixed(key) + (LengthPrefixed(value) + rest), more);
      Regroup(LengthPrefixed(key), LengthPrefixed(value) + rest, more);
      Regroup(LengthPrefixed(value), rest, more);
    case DeleteUpdate(key) =>
      Regroup([0], LengthPrefixed(key) + rest, more);
      Regroup(LengthPrefixed(key), rest, more);
  }

  lemma {:induction false} EncodeAllThenMore(us: seq<Update>, rest: Bytes, more: Bytes)
    ensures EncodeAll(us, rest) + more == EncodeAll(us, rest + more)
  {
    if us != [] {
      EncodeAllThenMore(us[1..], rest, more);
      EncodeThenMore(us[0], EncodeAll(us[1..], rest), more);
    }
  }

  lemma {:induction false} EncodeAllConcat(us: seq<Update>, vs: seq<Update>, rest: Bytes)
    ensures EncodeAll(us + vs, rest) == EncodeAll(us, EncodeAll(vs, rest))
  {
    if us == [] {
      assert us + vs == vs;
    } else {
      assert (us + vs)[1..] == us[1..] + vs;
      EncodeAllConcat(us[1..], vs, rest);
    }
  }

  /** Records laid after records. */
  lemma AppendRecords(us: seq<Update>, vs: seq<Update>)
    ensures EncodeAll(us, []) + EncodeAll(vs, []) == EncodeAll(us + vs, [])
  {
    EncodeAllConcat(us, vs, []);
    EncodeAllThenMore(us, [], EncodeAll(vs, []));
    assert [] + EncodeAll(vs, []) == EncodeAll(vs, []);
  }

  // ---------------------------------------------------------------------------
  // Iterating
  // ---------------------------------------------------------------------------

  /** What a handler is given before the iteration ends, and whether it ends well. */
  datatype Outcome = Outcome(ok: bool, handled: seq<Update>)

  datatype ParsedUpdate = BadUpdate | OneUpdate(update: Update, rest: Bytes)

  function ParseUpdate(input: Bytes): ParsedUpdate
    requires input != []
  {
    match GetLengthPrefixedSlice(input[1..])
    case NoSlice => BadUpdate
    case ParsedSlice(key, rest) =>
      if input[0] == 0 then OneUpdate(DeleteUpdate(key), rest)
      else if input[0] == 1 then
        match GetLengthPrefixedSlice(rest)
        case NoSlice => BadUpdate
        case ParsedSlice(value, rest') => OneUpdate(PutUpdate(key, value), rest')
      else BadUpdate
  }

  lemma UpdateConsumes(input: Bytes)
    requires input != []
    ensures ParseUpdate(input).OneUpdate? ==> |ParseUpdate(input).rest| < |input|
  {
    SliceConsumes(input[1..]);
    var key := GetLengthPrefixedSlice(input[1..]);
    if key.ParsedSlice? {
      SliceConsumes(key.rest);
    }
  }

  function ParseAll(input: Bytes, handled: seq<Update>): Outcome
    decreases |input|
  {
    if input == [] then Outcome(true, handled)
    else
      UpdateConsumes(input);
      match ParseUpdate(input)
      case BadUpdate => Outcome(false, handled)
      case OneUpdate(u, rest) => ParseAll(rest, handled + [u])
  }

  lemma UpdateRoundTrip(u: Update, rest: Bytes)
    requires UpdateOk(u)
    ensures EncodeBefore(u, rest) != [] && ParseUpdate(EncodeBefore(u, rest)) == OneUpdate(u, rest)
  {
    match u
    case PutUpdate(key, value) =>
      LengthPrefixedRoundTrip(key, LengthPrefixed(value) + rest);
      LengthPrefixedRoundTrip(value, rest);
      assert EncodeBefore(u, rest)[1..] == LengthPrefixed(key) + (LengthPrefixed(value) + rest);
    case DeleteUpdate(key) =>
      LengthPrefixedRoundTrip(key, rest);
      assert EncodeBefore(u, rest)[1..] == LengthPrefixed(key) + rest;
  }

  lemma ParseStep(input: Bytes, handled: seq<Update>, u: Update, rest: Bytes)
    requires input != [] && ParseUpdate(input) == OneUpdate(u, rest)
    ensures ParseAll(input, handled) == ParseAll(rest, handled + [u])
  {
  }

  lemma MoveOne(handled: seq<Update>, us: seq<Update>)
    requires us != []
    ensures handled + [us[0]] + us[1..] == handled + us
  {
  }

  lemma {:induction false} RecordsRoundTrip(us: seq<Update>, handled: seq<Update>)
    requires forall u :: u in us ==> UpdateOk(u)
    ensures ParseAll(EncodeAll(us, []), handled) == Outcome(true, handled + us)
    decreases |us|
  {
    if us == [] {
      assert handled + us == handled;
    } else {
      var rest := EncodeAll(us[1..], []);
      UpdateRoundTrip(us[0], rest);
      ParseStep(EncodeBefore(us[0], rest), handled, us[0], rest);
      RecordsRoundTrip(us[1..], handled + [us[0]]);
      MoveOne(handled, us);
    }
  }

  /** A record is marked 1 for a put and 0 for a deletion, and names its key and value with their lengths; any
      other mark ends the iteration. */
  lemma RecordHandsOver(key: Bytes, value: Bytes, mark: Byte, rest: Bytes, handled: seq<Update>)
    requires |key| < TWO32 && |value| < TWO32
    ensures var slices := Varint(|key|) + key + (Varint(|value|) + value + rest);
            ParseAll([1] + slices, handled) == ParseAll(rest, handled + [PutUpdate(key, value)])
    ensures ParseAll([0] + (Varint(|key|) + key + rest), handled) == ParseAll(rest, handled + [DeleteUpdate(key)])
    ensures mark > 1 ==> ParseAll([mark] + rest, handled) == Outcome(false, handled)
  {
    UpdateRoundTrip(PutUpdate(key, value), rest);
    ParseStep(EncodeBefore(PutUpdate(key, value), rest), handled, PutUpdate(key, value), rest);
    UpdateRoundTrip(DeleteUpdate(key), rest);
    ParseStep(EncodeBefore(DeleteUpdate(key), rest), handled, DeleteUpdate(key), rest);
    assert ([mark] + rest)[0] == mark;
  }

  /** The header: eight bytes of sequence number and four of count, the least significant byte first. */
  lemma HeaderBytes(rep: Bytes)
    requires |rep| >= 12
    ensures CountOf(rep) ==
            rep[8] as int + 0x100 * rep[9] as int + 0x1_0000 * rep[10] as int + 0x100_0000 * rep[11] as int
    ensures SequenceOf(rep) ==
            rep[0] as int + 0x100 * rep[1] as int + 0x1_0000 * rep[2] as int + 0x100_0000 * rep[3] as int
            + TWO32 * (rep[4] as int + 0x100 * rep[5] as int + 0x1_0000 * rep[6] as int + 0x100_0000 * rep[7] as int)
  {
    DecodedFixed(rep);
    DecodedFixed(rep[4..]);
    DecodedFixed(rep[8..]);
  }

  function CountOf(rep: Bytes): nat
    requires |rep| >= HEADER
  {
    DecodeFixed32(rep[8..])
  }

  function SequenceOf(rep: Bytes): nat
    requires |rep| >= HEADER
  {
    DecodeFixed64(rep)
  }

  /** WriteBatch::Iterate on any bytes. A batch whose records do not number its count is corrupt, though the
      handler has had them all. */
  method Iterate(rep: Bytes) returns (r: Outcome)
    ensures if |rep| < HEADER then r == Outcome(false, [])
            else
              var p := ParseAll(rep[HEADER..], []);
              r == Outcome(p.ok && |p.handled| == CountOf(rep), p.handled)
  {
    if |rep| < HEADER {
      return Outcome(false, []);
    }
    var input := rep[HEADER..];
    var handled: seq<Update> := [];
    while input != []
      invariant ParseAll(rep[HEADER..], []) == ParseAll(input, handled)
      decreases |input|
    {
      UpdateConsumes(input);
      match ParseUpdate(input)
      case BadUpdate => return Outcome(false, handled);
      case OneUpdate(u, rest) => handled, input := handled + [u], rest;
    }
    r := Outcome(|handled| == CountOf(rep), handled);
  }

  // ---------------------------------------------------------------------------
  // Building
  // ---------------------------------------------------------------------------

  /** `rep` is these updates under this sequence number; the count is kept in 32 bits. */
  ghost predicate IsBatch(rep: Bytes, sequence: nat, us: seq<Update>) {
    && sequence < TWO64 && (forall u :: u in us ==> UpdateOk(u))
    && rep == EncodeFixed64(sequence) + (EncodeFixed32(|us| % TWO32) + EncodeAll(us, []))
  }

  lemma BatchSplit(rep: Bytes, sequence: nat, us: seq<Update>)
    requires IsBatch(rep, sequence, us)
    ensures |rep| >= HEADER && rep[..8] == EncodeFixed64(sequence) && rep[HEADER..] == EncodeAll(us, [])
    ensures rep[8..] == EncodeFixed32(|us| % TWO32) + EncodeAll(us, [])
  {
    var tail := EncodeFixed32(|us| % TWO32) + EncodeAll(us, []);
    SplitBack(EncodeFixed64(sequence), tail);
    SplitBack(EncodeFixed32(|us| % TWO32), EncodeAll(us, []));
    assert rep[HEADER..] == rep[8..][4..];
  }

  lemma BatchParts(rep: Bytes, sequence: nat, us: seq<Update>)
    requires IsBatch(rep, sequence, us)
    ensures |rep| >= HEADER && rep[..8] == EncodeFixed64(sequence) && rep[HEADER..] == EncodeAll(us, [])
    ensures SequenceOf(rep) == sequence && CountOf(rep) == |us| % TWO32
  {
    BatchSplit(rep, sequence, us);
    Fixed64RoundTrip(sequence, EncodeFixed32(|us| % TWO32) + EncodeAll(us, []));
    Fixed32RoundTrip(|us| % TWO32, EncodeAll(us, []));
  }

  lemma RecordsParse(records: Bytes, us: seq<Update>)
    requires records == EncodeAll(us, []) && forall u :: u in us ==> UpdateOk(u)
    ensures ParseAll(records, []) == Outcome(true, us)
  {
    RecordsRoundTrip(us, []);
    assert [] + us == us;
  }

  /** Iterating a batch gives its updates. */
  lemma BatchRoundTrip(rep: Bytes, sequence: nat, us: seq<Update>)
    requires IsBatch(rep, sequence, us)
    ensures |rep| >= HEADER && ParseAll(rep[HEADER..], []) == Outcome(true, us)
  {
    BatchSplit(rep, sequence, us);
    RecordsParse(rep[HEADER..], us);
  }

  /** EncodeFixed32 at offset 8. */
  function WithCount(rep: Bytes, n: nat): Bytes
    requires |rep| >= HEADER
  {
    rep[..8] + (EncodeFixed32(n % TWO32) + rep[HEADER..])
  }

  lemma CountedAppend(rep: Bytes, sequence: nat, us: seq<Update>, vs: seq<Update>, n: nat)
    requires IsBatch(rep, sequence, us) && (forall v :: v in vs ==> UpdateOk(v)) && n % TWO32 == |us + vs| % TWO32
    ensures |rep| >= HEADER && IsBatch(WithCount(rep, n) + EncodeAll(vs, []), sequence, us + vs)
  {
    BatchParts(rep, sequence, us);
    AppendRecords(us, vs);
    Regroup(rep[..8], EncodeFixed32(n % TWO32) + rep[HEADER..], EncodeAll(vs, []));
    Regroup(EncodeFixed32(n % TWO32), rep[HEADER..], EncodeAll(vs, []));
  }

  lemma CountsAdd(m: nat, n: nat)
    ensures (m % TWO32 + n % TWO32) % TWO32 == (m + n) % TWO32
  {
  }

  class WriteBatch {
    var rep: Bytes
    ghost var updates: seq<Update>

    constructor ()
      ensures Valid() && updates == [] && SequenceOf(rep) == 0
    {
      rep := EncodeFixed64(0) + EncodeFixed32(0);
      updates := [];
      new;
      assert rep == EncodeFixed64(0) + (EncodeFixed32(0) + EncodeAll([], []));
      BatchParts(rep, 0, []);
    }

    ghost predicate Valid()
      reads this
    {
      |rep| >= HEADER && IsBatch(rep, SequenceOf(rep), updates)
    }

    method Clear()
      modifies this
      ensures Valid() && updates == [] && SequenceOf(rep) == 0
    {
      rep := EncodeFixed64(0) + EncodeFixed32(0);
      updates := [];
      assert rep == EncodeFixed64(0) + (EncodeFixed32(0) + EncodeAll([], []));
      BatchParts(rep, 0, []);
    }

    method SetSequence(sequence: nat)
      requires Valid() && sequence < TWO64
      modifies this
      ensures Valid() && updates == old(updates) && SequenceOf(rep) == sequence
    {
      BatchParts(rep, SequenceOf(rep), updates);
      ghost var tail := EncodeFixed32(|updates| % TWO32) + EncodeAll(updates, []);
      assert rep[8..] == tail by {
        SplitBack(EncodeFixed64(SequenceOf(rep)), tail);
      }
      rep := EncodeFixed64(sequence) + rep[8..];
      BatchParts(rep, sequence, updates);
    }

    method Put(key: Bytes, value: Bytes)
      requires Valid() && |key| < TWO32 && |value| < TWO32
      modifies this
      ensures Valid() && updates == old(updates) + [PutUpdate(key, value)] && SequenceOf(rep) == old(SequenceOf(rep))
    {
      Add(PutUpdate(key, value));
    }

    method Delete(key: Bytes)
      requires Valid() && |key| < TWO32
      modifies this
      ensures Valid() && updates == old(updates) + [DeleteUpdate(key)] && SequenceOf(rep) == old(SequenceOf(rep))
    {
      Add(DeleteUpdate(key));
    }

    method Add(u: Update)
      requires Valid() && UpdateOk(u)
      modifies this
      ensures Valid() && updates == old(updates) + [u] && SequenceOf(rep) == old(SequenceOf(rep))
    {
      assert [u][1..] == [] && EncodeAll([u], []) == EncodeBefore(u, []);
      AddRecords(1, EncodeBefore(u, []), [u]);
    }

    /** The updates of the source after those of this batch. */
    method Append(source: WriteBatch)
      requires Valid() && source.Valid()
      modifies this
      ensures Valid() && updates == old(updates) + old(source.updates) && SequenceOf(rep) == old(SequenceOf(rep))
    {
      ghost var more := source.updates;
      BatchParts(source.rep, SequenceOf(source.rep), more);
      AddRecords(CountOf(source.rep), source.rep[HEADER..], more);
    }

    method AddRecords(count: nat, records: Bytes, ghost more: seq<Update>)
      requires Valid() && records == EncodeAll(more, []) && count == |more| % TWO32 && forall u ::
          u in more ==> UpdateOk(u)
      modifies this
      ensures Valid() && updates == old(updates) + more && SequenceOf(rep) == old(SequenceOf(rep))
    {
      ghost var sequence := SequenceOf(rep);
      BatchParts(rep, sequence, updates);
      CountsAdd(|updates|, |more|);
      CountedAppend(rep, sequence, updates, more, CountOf(rep) + count);
      rep := WithCount(rep, CountOf(rep) + count) + records;
      updates := updates + more;
      BatchParts(rep, sequence, updates);
    }
  }

  // ---------------------------------------------------------------------------
  // Into the memtable
  // ---------------------------------------------------------------------------

  /** The update on ranked user keys. */
  function OperationOf(u: Update): Operation {
    match u
    case PutUpdate(key, value) => Operation.Put(Rank(key), value)
    case DeleteUpdate(key) => Operation.Delete(Rank(key))
  }

  ghost function Operations(us: seq<Update>): seq<Operation> {
    seq(|us|, i requires 0 <= i < |us| => OperationOf(us[i]))
  }

  /** WriteBatchInternal::InsertInto: each update takes the next sequence number. Updates before a corrupt
      record have gone in. */
  method InsertInto(rep: Bytes, ghost memtable: Entries) returns (ok: bool, ghost after: Entries)
    requires |rep| >= HEADER
    ensures var p := ParseAll(rep[HEADER..], []);
      && (ok <==> p.ok && |p.handled| == CountOf(rep))
      && after == memtable + BatchEntries(Operations(p.handled), SequenceOf(rep))
      && (Older(memtable, SequenceOf(rep)) ==> forall at: nat :: SequenceOf(rep) + |p.handled| <= at + 1 ==>
           ReadsAsUpdated(memtable, p.handled, at, after))
  {
    var r := Iterate(rep);
    ok := r.ok;
    after := InsertAll(r.handled, SequenceOf(rep), memtable);
    forall at: nat | Older(memtable, SequenceOf(rep)) && SequenceOf(rep) + |r.handled| <= at + 1
      ensures ReadsAsUpdated(memtable, r.handled, at, after)
    {
      UpdatesAreRead(memtable, r.handled, SequenceOf(rep), at, after);
    }
  }

  method InsertAll(handled: seq<Update>, first: nat, ghost memtable: Entries) returns (ghost after: Entries)
    ensures after == memtable + BatchEntries(Operations(handled), first)
  {
    var sequence := first;
    after := memtable;
    for i := 0 to |handled|
      invariant sequence == first + i
      invariant after == memtable + BatchEntries(Operations(handled[..i]), first)
    {
      OneMoreEntry(handled, i, first);
      var entry := EntryFor(OperationOf(handled[i]), sequence);
      after := after + iset{entry};
      sequence := sequence + 1;
    }
    assert handled[..|handled|] == handled;
  }

  lemma OneMoreEntry(us: seq<Update>, i: nat, first: nat)
    requires i < |us|
    ensures BatchEntries(Operations(us[..i + 1]), first)
         == BatchEntries(Operations(us[..i]), first) + iset{EntryFor(OperationOf(us[i]), first + i)}
  {
    var before, after := Operations(us[..i]), Operations(us[..i + 1]);
    assert forall j :: 0 <= j < i ==> before[j] == after[j];
    assert after[i] == OperationOf(us[i]);
  }

  /** Over an older memtable the last update of a key decides what is read of it: its value, or nothing if it
      deletes the key. Other keys read as before. */
  ghost predicate ReadsAsUpdated(memtable: Entries, us: seq<Update>, at: nat, after: Entries) {
    && (forall i :: 0 <= i < |us| && (forall j :: i < j < |us| ==> us[j].key != us[i].key) ==>
         Read(after, Rank(us[i].key), at) == if us[i].PutUpdate? then Some(us[i].value) else None)
    && (forall key :: (forall i :: 0 <= i < |us| ==> us[i].key != key) ==>
         Read(after, Rank(key), at) == Read(memtable, Rank(key), at))
  }

  lemma UpdatesAreRead(memtable: Entries, us: seq<Update>, first: nat, at: nat, after: Entries)
    requires UniqueSeqs(memtable) && forall e {:trigger e in memtable} :: e in memtable ==> e.key.seqno < first
    requires after == memtable + BatchEntries(Operations(us), first) && first + |us| <= at + 1
    ensures ReadsAsUpdated(memtable, us, at, after)
  {
    var ops := Operations(us);
    forall i | 0 <= i < |us| && (forall j :: i < j < |us| ==> us[j].key != us[i].key)
      ensures Read(after, Rank(us[i].key), at) == if us[i].PutUpdate? then Some(us[i].value) else None
    {
      forall j | i < j < |us| ensures ops[j].key != ops[i].key {
        RankEmbedsCompare(us[j].key, us[i].key);
      }
      LastOperationIsRead(memtable, ops, first, i, at);
    }
    forall key | forall i :: 0 <= i < |us| ==> us[i].key != key
      ensures Read(after, Rank(key), at) == Read(memtable, Rank(key), at)
    {
      forall i | 0 <= i < |ops| ensures ops[i].key != Rank(key) {
        RankEmbedsCompare(us[i].key, key);
      }
      OtherKeysUnchanged(memtable, ops, first, Rank(key), at, at);
    }
  }

  /** The memtable holds nothing under the numbers the batch takes. */
  ghost predicate Older(memtable: Entries, first: nat) {
    UniqueSeqs(memtable) && forall e {:trigger e in memtable} :: e in memtable ==> e.key.seqno < first
  }

  lemma BatchMeans(rep: Bytes, sequence: nat, us: seq<Update>)
    requires IsBatch(rep, sequence, us)
    ensures |rep| >= HEADER && ParseAll(rep[HEADER..], []) == Outcome(true, us) && SequenceOf(rep) == sequence
    ensures |us| == CountOf(rep) <==> |us| < TWO32
  {
    BatchParts(rep, sequence, us);
    BatchRoundTrip(rep, sequence, us);
    KeptIfSmall(|us|);
  }

  lemma KeptIfSmall(n: nat)
    ensures n == n % TWO32 <==> n < TWO32
  {
  }

  /** A batch that was built goes in as its updates under consecutive sequence numbers, and is found corrupt
      only if they are too many to count in 32 bits. */
  method InsertBatch(rep: Bytes, ghost sequence: nat, ghost us: seq<Update>, ghost memtable: Entries)
      returns (ok: bool, ghost after: Entries)
    requires IsBatch(rep, sequence, us)
    ensures (ok <==> |us| < TWO32) && after == memtable + BatchEntries(Operations(us), sequence)
    ensures Older(memtable, sequence) ==> forall at: nat :: sequence + |us| <= at + 1 ==>
              ReadsAsUpdated(memtable, us, at, after)
  {
    BatchMeans(rep, sequence, us);
    ok, after := InsertInto(rep, memtable);
  }
}
