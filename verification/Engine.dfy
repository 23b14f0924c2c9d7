/** The database object: writes, memtable switches, flushes, trivial moves and compactions, each
  keeping the invariant and leaving every read a snapshot may make as it was. */
module Engine {
  import opened DbFormat
  import opened Version
  import opened CompactionInputs
  import opened CompactionWork
  import opened Lookup
  import opened LayerSteps
  import opened CompactionSteps
  import opened Install
  import opened OutputCuts

  lemma BatchEntriesSnoc(ops: seq<Operation>, i: nat, first: nat)
    requires i < |ops|
    ensures BatchEntries(ops[..i + 1], first) == BatchEntries(ops[..i], first) + iset{EntryFor(ops[i], first + i)}
  {
    forall e | e in BatchEntries(ops[..i], first) ensures e in BatchEntries(ops[..i + 1], first) {
      var j :| 0 <= j < i && e == EntryFor(ops[..i][j], first + j);
      assert ops[..i + 1][j] == ops[..i][j];
    }
    assert ops[..i + 1][i] == ops[i];
  }

  lemma BatchEntriesAreNew(ops: seq<Operation>, last: nat)
    ensures forall e :: e in BatchEntries(ops, last + 1) ==> e.key.seqno > last
  {
  }

  lemma BatchStep(was: Entries, now: Entries, before: Entries, ops: seq<Operation>, i: nat, first: nat)
    requires i < |ops| && was == before + BatchEntries(ops[..i], first)
    requires now == was + iset{EntryFor(ops[i], first + i)}
    ensures now == before + BatchEntries(ops[..i + 1], first)
  {
    BatchEntriesSnoc(ops, i, first);
  }

  /** What a read at the new last sequence number finds once a batch is in. */
  /** A key reads as what the last operation on it left: the value of a put, and nothing for a deletion. */
  ghost predicate LastIsRead(es: Entries, ops: seq<Operation>, seqno: nat) {
    forall i {:trigger LastOnKey(ops, i)} :: 0 <= i < |ops| && LastOnKey(ops, i) ==>
      Read(es, ops[i].key, seqno) == if ops[i].Put? then Some(ops[i].value) else None
  }

  /** A key that no operation names reads as it did. */
  ghost predicate OthersKept(before: Entries, after: Entries, ops: seq<Operation>, seqno: nat, seqno': nat) {
    forall key {:trigger OnKey(ops, key)} :: !OnKey(ops, key) ==> Read(after, key, seqno') == Read(before, key, seqno)
  }

  lemma LastAreRead(before: Entries, ops: seq<Operation>, last: nat)
    requires UniqueSeqs(before) && forall e {:trigger e in before} :: e in before ==> e.key.seqno <= last
    ensures LastIsRead(before + BatchEntries(ops, last + 1), ops, last + |ops|)
  {
    var after := before + BatchEntries(ops, last + 1);
    forall i | 0 <= i < |ops| && LastOnKey(ops, i)
      ensures Read(after, ops[i].key, last + |ops|) == if ops[i].Put? then Some(ops[i].value) else None
    {
      LastOperationIsRead(before, ops, last + 1, i, last + |ops|);
    }
  }

  lemma OthersAreRead(before: Entries, ops: seq<Operation>, last: nat)
    requires UniqueSeqs(before) && forall e {:trigger e in before} :: e in before ==> e.key.seqno <= last
    ensures OthersKept(before, before + BatchEntries(ops, last + 1), ops, last, last + |ops|)
  {
    forall key | !OnKey(ops, key)
      ensures Read(before + BatchEntries(ops, last + 1), key, last + |ops|) == Read(before, key, last)
    {
      OtherKeysUnchanged(before, ops, last + 1, key, last, last + |ops|);
    }
  }

  datatype Tuning = Tuning(
    maxFileSize: nat, maxGrandparentOverlap: nat, expandedLimit: nat,
    sizeSoFar: seq<Entry> -> nat, sizeFinished: seq<Entry> -> nat)

  function EmptyLevels(): Levels {
    seq(NUM_LEVELS, _ => [])
  }

  lemma EmptyLevelsHoldNothing()
    ensures forall l :: 0 <= l < NUM_LEVELS ==> EmptyLevels()[l] == []
    ensures LevelEntries(EmptyLevels()) == iset{}
  {
  }

  lemma EmptyContents()
    ensures Contents([], None, EmptyLevels()) == iset{}
    ensures forall l :: 0 <= l < NUM_LEVELS ==> EntriesOf(EmptyLevels()[l]) == iset{}
  {
    EmptyLevelsHoldNothing();
    assert SetOf([]) == iset{};
  }

  lemma EmptyLayered()
    ensures Layered([], None, EmptyLevels())
  {
    EmptyLevelsHoldNothing();
    EmptyContents();
  }

  lemma EmptyInv()
    ensures Inv([], None, EmptyLevels(), 0, 2) && Contents([], None, EmptyLevels()) == iset{}
  {
    EmptyLevelsHoldNothing();
    EmptyContents();
    EmptyLayered();
  }

  class DBImpl {
    const tuning: Tuning
    var mem: seq<Entry>
    var imm: Option<seq<Entry>>
    var levels: Levels
    var lastSequence: nat
    var nextFileNumber: nat
    /** SnapshotList, oldest first. */
    var snapshots: seq<nat>

    constructor (tuning: Tuning)
      ensures Valid() && SnapshotsOk() && All() == iset{} && snapshots == []
    {
      this.tuning := tuning;
      mem, imm, levels := [], None, EmptyLevels();
      lastSequence, nextFileNumber, snapshots := 0, 2, [];
      EmptyInv();
    }

    ghost predicate Valid()
      reads `mem, `imm, `levels, `lastSequence, `nextFileNumber
    {
      Inv(mem, imm, levels, lastSequence, nextFileNumber)
    }

    /** Snapshots are held in order and never lie in the future. */
    ghost predicate SnapshotsOk()
      reads `snapshots, `lastSequence
    {
      && (forall i :: 0 <= i < |snapshots| ==> snapshots[i] <= lastSequence)
      && (forall i, j :: 0 <= i < j < |snapshots| ==> snapshots[i] <= snapshots[j])
    }

    ghost function All(): Entries
      reads `mem, `imm, `levels
    {
      Contents(mem, imm, levels)
    }

    /** The oldest sequence number a read may still ask for. */
    function SmallestSnapshot(): nat
      reads `snapshots, `lastSequence
    {
      if snapshots == [] then lastSequence else snapshots[0]
    }

    /** DBImpl::Get, at a snapshot or at the latest sequence number. */
    method Get(key: UserKey, snapshot: Option<nat>) returns (r: Option<Bytes>)
      requires Valid()
      ensures r == Read(All(), key, if snapshot.Some? then snapshot.value else lastSequence)
    {
      r := Lookup.Get(mem, imm, levels, key, if snapshot.Some? then snapshot.value else lastSequence);
    }

    method GetSnapshot() returns (s: nat)
      requires SnapshotsOk()
      modifies `snapshots
      ensures SnapshotsOk() && s == lastSequence && snapshots == old(snapshots) + [s]
      ensures SmallestSnapshot() == old(SmallestSnapshot())
    {
      s := lastSequence;
      snapshots := snapshots + [s];
    }

    method ReleaseSnapshot(i: nat)
      requires SnapshotsOk() && i < |snapshots|
      modifies `snapshots
      ensures SnapshotsOk() && snapshots == old(snapshots)[..i] + old(snapshots)[i + 1..]
      ensures SmallestSnapshot() >= old(SmallestSnapshot())
    {
      snapshots := snapshots[..i] + snapshots[i + 1..];
    }

    /** Applying a batch to the memtable: consecutive new sequence numbers, nothing else changes, and
        reads at earlier sequence numbers are untouched. */
    method Write(ops: seq<Operation>)
      requires Valid() && SnapshotsOk() && lastSequence + |ops| < MAX_SEQUENCE
      modifies `mem, `lastSequence
      ensures Valid() && SnapshotsOk() && lastSequence == old(lastSequence) + |ops|
      ensures All() == old(All()) + BatchEntries(ops, old(lastSequence) + 1)
      ensures SameReadsUpTo(old(lastSequence), All(), old(All()))
      ensures LastIsRead(All(), ops, lastSequence)
      ensures OthersKept(old(All()), All(), ops, old(lastSequence), lastSequence)
    {
      mem, lastSequence := ApplyBatch(mem, imm, levels, lastSequence, nextFileNumber, ops);
    }

    /** The switch in MakeRoomForWrite: the memtable becomes immutable. */
    method SwitchMemTable()
      requires Valid() && imm.None?
      modifies `mem, `imm, `nextFileNumber
      ensures Valid() && imm == Some(old(mem)) && mem == [] && All() == old(All())
    {
      nextFileNumber := nextFileNumber + 1;
      imm := Some(mem);
      mem := [];
      assert Contents([], imm, levels) == Contents(old(mem), None, levels);
    }

    /** CompactMemTable: write the immutable memtable as a table and install it as deep as it may go. */
    method CompactMemTable()
      requires Valid() && imm.Some?
      modifies `imm, `levels, `nextFileNumber
      ensures Valid() && imm.None? && All() == old(All())
      ensures Flushed(old(imm).value, old(levels), levels, old(nextFileNumber), tuning)
    {
      levels, nextFileNumber := FlushLevels(mem, imm.value, levels, lastSequence, nextFileNumber, tuning);
      imm := None;
    }

    /** BackgroundCompaction for inputs that start at `start`. If the next level's boundary is closed
        as well, no read at or after the smallest snapshot changes. */
    method BackgroundCompaction(level: nat, start: Files, isManual: bool)
      returns (inputs0: Files, inputs1: Files, grandparents: Files)
      requires Valid() && SnapshotsOk() && level + 1 < NUM_LEVELS && Startable(levels, level, start)
      modifies `levels, `nextFileNumber
      ensures Valid() && All() <= old(All())
      ensures Picked(old(levels), level, inputs0, inputs1) && forall f :: f in start ==> f in inputs0
      ensures exists closed, larger ::
                Inputs(old(levels), level, start, tuning.expandedLimit, inputs0, inputs1, grandparents, closed, larger)
      ensures if !isManual && |inputs0| == 1 && |inputs1| == 0 &&
                 TotalSize(grandparents) <= tuning.maxGrandparentOverlap
              then Moves(old(levels), levels, level, inputs0[0])
              else Compacted(old(levels), levels, level, inputs0, inputs1, grandparents, SmallestSnapshot(),
                             old(nextFileNumber), tuning)
      ensures BoundaryClosed(old(levels)[level + 1], inputs1) ==> SameReadsFrom(SmallestSnapshot(), All(), old(All()))
    {
      ghost var closed, larger;
      var snapshot := SmallestSnapshot();
      var pointer;
      inputs0, inputs1, grandparents, pointer, closed, larger :=
        SetupOtherInputs(levels, level, start, tuning.expandedLimit);
      if !isManual && |inputs0| == 1 && |inputs1| == 0 && TotalSize(grandparents) <= tuning.maxGrandparentOverlap {
        TrivialMove(level, inputs0, inputs1, snapshot);
      } else {
        DoCompaction(level, inputs0, inputs1, grandparents, snapshot);
      }
    }

    /** Move a lone file down one level; nothing about the contents changes. */
    method TrivialMove(level: nat, inputs0: Files, inputs1: Files, ghost snapshot: nat)
      requires Valid() && level + 1 < NUM_LEVELS && Picked(levels, level, inputs0, inputs1)
      requires |inputs0| == 1 && |inputs1| == 0
      modifies `levels
      ensures Valid() && All() == old(All()) && SameReadsFrom(snapshot, All(), old(All()))
      ensures Moves(old(levels), levels, level, inputs0[0])
    {
      levels := MoveLevels(snapshot, mem, imm, levels, lastSequence, nextFileNumber, level, inputs0, inputs1);
    }

    /** Merge the inputs, drop what no snapshot needs, and install the outputs. */
    method DoCompaction(level: nat, inputs0: Files, inputs1: Files, grandparents: Files, snapshot: nat)
      requires Valid() && snapshot <= lastSequence && level + 1 < NUM_LEVELS && Picked(levels, level, inputs0, inputs1)
      modifies `levels, `nextFileNumber
      ensures Valid() && All() <= old(All())
      ensures Compacted(old(levels), levels, level, inputs0, inputs1, grandparents, snapshot, old(nextFileNumber),
          tuning)
      ensures BoundaryClosed(old(levels)[level + 1], inputs1) ==> SameReadsFrom(snapshot, All(), old(All()))
    {
      levels, nextFileNumber := CompactLevels(mem, imm, levels, lastSequence, nextFileNumber, level, inputs0, inputs1,
          grandparents, snapshot, tuning);
    }
  }

  /** The version after a flush: one new table, as deep as it may sink; none if there is nothing in it. */
  ghost predicate Flushed(es: seq<Entry>, levels: Levels, levels': Levels, next: nat, tuning: Tuning)
    requires |levels| == NUM_LEVELS
  {
    if es == [] then levels' == levels
    else exists at: nat, f {:trigger Flush(es, levels, levels', at, f, next)} ::
      && Flush(es, levels, levels', at, f, next) && at < NUM_LEVELS && f.fileSize == tuning.sizeFinished(es)
      && Deepest(levels, f.smallest.user, f.largest.user, tuning.maxGrandparentOverlap, at)
  }

  method FlushLevels(mem: seq<Entry>, es: seq<Entry>, levels: Levels, last: nat, next: nat, tuning: Tuning)
      returns (levels': Levels, next': nat)
    requires Inv(mem, Some(es), levels, last, next)
    ensures Inv(mem, None, levels', last, next') && Contents(mem, None, levels') == Contents(mem, Some(es), levels)
    ensures Flushed(es, levels, levels', next, tuning)
  {
    next' := next + 1;
    if es == [] {
      NoImmutable(mem, levels, last, next);
      return levels, next';
    }
    LargestInRange(mem, Some(es), levels, last, next);
    var at, f;
    levels', at, f := PlaceTable(levels, es, next, tuning);
    FlushKeepsInv(mem, es, levels, levels', at, f, last, next);
  }

  method MoveLevels(ghost snapshot: nat, mem: seq<Entry>, imm: Option<seq<Entry>>, levels: Levels, last: nat, next: nat,
      level: nat, inputs0: Files, inputs1: Files)
    returns (levels': Levels)
    requires Inv(mem, imm, levels, last, next) && level + 1 < NUM_LEVELS && Picked(levels, level, inputs0, inputs1)
    requires |inputs0| == 1 && |inputs1| == 0
    ensures Inv(mem, imm, levels', last, next) && Contents(mem, imm, levels') == Contents(mem, imm, levels)
    ensures SameReadsFrom(snapshot, Contents(mem, imm, levels'), Contents(mem, imm, levels))
    ensures Moves(levels, levels', level, inputs0[0])
  {
    levels' := MoveDown(levels, level, inputs0[0], next);
    assert inputs0 == [inputs0[0]] && inputs1 == [];
    MoveKeepsInv(mem, imm, levels, levels', level, inputs0[0], last, next);
  }

  lemma NoImmutable(mem: seq<Entry>, levels: Levels, last: nat, next: nat)
    requires Inv(mem, Some([]), levels, last, next)
    ensures Inv(mem, None, levels, last, next + 1) && Contents(mem, None, levels) == Contents(mem, Some([]), levels)
  {
    assert Contents(mem, None, levels) == Contents(mem, Some([]), levels);
  }

  /** The version after a merge of these inputs: some outputs with what survives of them, cut where they
      should be and newly numbered, in place of the inputs. */
  ghost predicate Compacted(levels: Levels, levels': Levels, level: nat, inputs0: Files, inputs1: Files,
                            grandparents: Files, snapshot: nat, next: nat, tuning: Tuning) {
    exists input, outputs {:trigger Merges(levels, level, inputs0, inputs1, input, snapshot, outputs)} ::
      && Merges(levels, level, inputs0, inputs1, input, snapshot, outputs) && NumberedFrom(outputs, next)
      && Replaces(levels, levels', level, inputs0, inputs1, outputs)
      && CutRight(outputs, grandparents, tuning.maxGrandparentOverlap, input, tuning.sizeSoFar, tuning.maxFileSize)
  }

  method CompactLevels(mem: seq<Entry>, imm: Option<seq<Entry>>, levels: Levels, last: nat, next: nat, level: nat,
      inputs0: Files, inputs1: Files,
                       grandparents: Files, snapshot: nat, tuning: Tuning)
    returns (levels': Levels, next': nat)
    requires Inv(mem, imm, levels, last, next) && level + 1 < NUM_LEVELS && Picked(levels, level, inputs0, inputs1)
        && snapshot <= last
    ensures Inv(mem, imm, levels', last, next') && Contents(mem, imm, levels') <= Contents(mem, imm, levels)
    ensures Compacted(levels, levels', level, inputs0, inputs1, grandparents, snapshot, next, tuning)
    ensures BoundaryClosed(levels[level + 1], inputs1)
        ==> SameReadsFrom(snapshot, Contents(mem, imm, levels'), Contents(mem, imm, levels))
  {
    var input := MakeInput(mem, imm, levels, level, inputs0, inputs1);
    var outputs;
    levels', outputs := MergeDown(levels, level, inputs0, inputs1, grandparents, input, snapshot, next, tuning);
    next' := next + |outputs|;
    CompactionKeepsInv(mem, imm, levels, levels', level, inputs0, inputs1, outputs, input, snapshot, last, next);
    CompactionKeepsReads(mem, imm, levels, levels', level, inputs0, inputs1, outputs, input, snapshot);
  }

  /** A batch applied, with what it leaves of earlier reads. */
  method ApplyBatch(mem: seq<Entry>, imm: Option<seq<Entry>>, levels: Levels, last: nat, next: nat, ops: seq<Operation>)
    returns (mem': seq<Entry>, last': nat)
    requires Inv(mem, imm, levels, last, next) && last + |ops| < MAX_SEQUENCE
    ensures Inv(mem', imm, levels, last', next) && last' == last + |ops|
    ensures Contents(mem', imm, levels) == Contents(mem, imm, levels) + BatchEntries(ops, last + 1)
    ensures SameReadsUpTo(last, Contents(mem', imm, levels), Contents(mem, imm, levels))
    ensures LastIsRead(Contents(mem', imm, levels), ops, last')
    ensures OthersKept(Contents(mem, imm, levels), Contents(mem', imm, levels), ops, last, last')
  {
    LastAreRead(Contents(mem, imm, levels), ops, last);
    OthersAreRead(Contents(mem, imm, levels), ops, last);
    mem', last' := InsertInto(mem, imm, levels, last, next, ops);
    BatchEntriesAreNew(ops, last);
    EarlierReadsKept(mem', imm, levels, last', next, Contents(mem, imm, levels), BatchEntries(ops, last + 1), last);
  }

  /** WriteBatchInternal::InsertInto: one memtable entry per operation, numbered consecutively. */
  method InsertInto(mem: seq<Entry>, imm: Option<seq<Entry>>, levels: Levels, last: nat, next: nat, ops: seq<Operation>)
    returns (mem': seq<Entry>, last': nat)
    requires Inv(mem, imm, levels, last, next) && last + |ops| < MAX_SEQUENCE
    ensures Inv(mem', imm, levels, last', next) && last' == last + |ops|
    ensures Contents(mem', imm, levels) == Contents(mem, imm, levels) + BatchEntries(ops, last + 1)
  {
    mem', last' := mem, last;
    assert BatchEntries(ops[..0], last + 1) == iset{};
    for i := 0 to |ops|
      invariant Inserted(mem', imm, levels, last', next, mem, last, ops, i)
    {
      mem', last' := InsertNext(mem', imm, levels, last', next, mem, last, ops, i);
    }
    assert ops[..|ops|] == ops;
  }

  /** The first `i` operations are in the memtable. */
  ghost predicate Inserted(mem': seq<Entry>, imm: Option<seq<Entry>>, levels: Levels, last': nat, next: nat,
      mem: seq<Entry>, last: nat, ops: seq<Operation>, i: nat)
    requires i <= |ops|
  {
    && Inv(mem', imm, levels, last', next) && last' == last + i
    && Contents(mem', imm, levels) == Contents(mem, imm, levels) + BatchEntries(ops[..i], last + 1)
  }

  method InsertNext(mem0: seq<Entry>, imm: Option<seq<Entry>>, levels: Levels, last0: nat, next: nat,
      ghost mem: seq<Entry>, ghost last: nat, ops: seq<Operation>, i: nat)
    returns (mem': seq<Entry>, last': nat)
    requires i < |ops| && last + |ops| < MAX_SEQUENCE && Inserted(mem0, imm, levels, last0, next, mem, last, ops, i)
    ensures Inserted(mem', imm, levels, last', next, mem, last, ops, i + 1)
  {
    mem', last' := AddOne(mem0, imm, levels, last0, next, EntryFor(ops[i], last0 + 1));
    BatchStep(Contents(mem0, imm, levels), Contents(mem', imm, levels), Contents(mem, imm, levels), ops, i, last + 1);
  }

  /** MemTable::Add of the next entry. */
  method AddOne(mem: seq<Entry>, imm: Option<seq<Entry>>, levels: Levels, last: nat, next: nat, e: Entry)
    returns (mem': seq<Entry>, last': nat)
    requires Inv(mem, imm, levels, last, next) && e.key.seqno == last + 1 < MAX_SEQUENCE
    ensures Inv(mem', imm, levels, last', next) && last' == last + 1
    ensures Contents(mem', imm, levels) == Contents(mem, imm, levels) + iset{e}
  {
    InsertKeepsInv(mem, imm, levels, last, next, e);
    mem', last' := Insert(mem, e), last + 1;
  }

  lemma EarlierReadsKept(mem: seq<Entry>, imm: Option<seq<Entry>>, levels: Levels, last: nat, next: nat,
      before: Entries, added: Entries, was: nat)
    requires Inv(mem, imm, levels, last, next) && Contents(mem, imm, levels) == before + added
    requires forall e :: e in added ==> e.key.seqno > was
    ensures SameReadsUpTo(was, Contents(mem, imm, levels), before)
  {
    forall key, at: nat | at <= was ensures Read(Contents(mem, imm, levels), key, at) == Read(before, key, at) {
      OldReadsUnchanged(before, Contents(mem, imm, levels), added, was, key, at);
    }
  }

  /** WriteLevel0Table and the edit that installs the table. */
  method PlaceTable(levels: Levels, es: seq<Entry>, number: nat, tuning: Tuning)
      returns (levels': Levels, at: nat, f: FileMetaData)
    requires GoodLevels(levels) && AllOrdered(levels) && Numbered(levels, number) && es != [] && Sorted(es)
    requires forall l, f :: 0 <= l < NUM_LEVELS && f in levels[l] ==> f.largest.seqno <= MAX_SEQUENCE
    ensures Flush(es, levels, levels', at, f, number) && at < NUM_LEVELS && f.fileSize == tuning.sizeFinished(es)
    ensures Deepest(levels, f.smallest.user, f.largest.user, tuning.maxGrandparentOverlap, at)
  {
    f := FileMetaData(number, tuning.sizeFinished(es), es[0].key, es[|es| - 1].key, es);
    at := PickLevelForMemTableOutput(levels, f.smallest.user, f.largest.user, tuning.maxGrandparentOverlap);
    FlushEditIsFresh(levels, at, f);
    levels' := LogAndApply(levels, FlushEdit(at, f));
    FlushIsFlush(es, levels, levels', at, f, number, tuning.maxGrandparentOverlap);
  }

  method MoveDown(levels: Levels, level: nat, f: FileMetaData, next: nat) returns (levels': Levels)
    requires AllOrdered(levels) && Numbered(levels, next) && level + 1 < NUM_LEVELS && f in levels[level]
    ensures Moves(levels, levels', level, f)
  {
    MoveEditIsFresh(levels, level, f, next);
    levels' := LogAndApply(levels, MoveEdit(level, f));
    AppliedMoves(levels, levels', level, f);
  }

  /** Run the merge loop over the input stream and install its outputs. */
  method MergeDown(levels: Levels, level: nat, inputs0: Files, inputs1: Files, grandparents: Files, input: seq<Entry>,
                   snapshot: nat, next: nat, tuning: Tuning)
    returns (levels': Levels, outputs: Files)
    requires GoodLevels(levels) && AllOrdered(levels) && Numbered(levels, next) && level + 1 < NUM_LEVELS
    requires Picked(levels, level, inputs0, inputs1) && snapshot < MAX_SEQUENCE
    requires Sorted(input) && SetOf(input) == InputEntries(inputs0, inputs1)
    ensures Merges(levels, level, inputs0, inputs1, input, snapshot, outputs) && NumberedFrom(outputs, next)
    ensures Replaces(levels, levels', level, inputs0, inputs1, outputs)
    ensures CutRight(outputs, grandparents, tuning.maxGrandparentOverlap, input, tuning.sizeSoFar, tuning.maxFileSize)
  {
    outputs := MergeInputs(levels, level, grandparents, input, snapshot, next, tuning);
    InputsAreLevelEntries(levels, level, inputs0, inputs1);
    CompactionEditIsFresh(levels, level, inputs0, inputs1, outputs, next);
    levels' := LogAndApply(levels, CompactionEdit(level, inputs0, inputs1, outputs));
    AppliedMembers(levels, levels', level, inputs0, inputs1, outputs, next);
    AllAfterReplaces(levels, levels', level, inputs0, inputs1, outputs);
  }

  method MergeInputs(levels: Levels, level: nat, grandparents: Files, input: seq<Entry>, snapshot: nat, next: nat,
      tuning: Tuning)
    returns (outputs: Files)
    requires GoodLevels(levels) && level + 1 < NUM_LEVELS && Sorted(input) && snapshot < MAX_SEQUENCE
    ensures AllWellFormed(outputs) && LevelSorted(outputs) && NumberedFrom(outputs, next)
    ensures Flatten(outputs) == Survivors(input, |input|, snapshot, BaseKeys(levels, level))
    ensures CutRight(outputs, grandparents, tuning.maxGrandparentOverlap, input, tuning.sizeSoFar, tuning.maxFileSize)
  {
    var compaction := new Compaction(level, levels, grandparents, tuning.maxFileSize, tuning.maxGrandparentOverlap);
    var state := new CompactionState(compaction, snapshot, next, tuning.sizeSoFar, tuning.sizeFinished);
    state.DoCompactionWork(input);
    outputs := state.outputs;
  }

  lemma CompactionKeepsReads(mem: seq<Entry>, imm: Option<seq<Entry>>, levels: Levels, levels': Levels, level: nat,
      inputs0: Files, inputs1: Files,
                             outputs: Files, input: seq<Entry>, snapshot: nat)
    requires Layered(mem, imm, levels) && level + 1 < NUM_LEVELS && Picked(levels, level, inputs0, inputs1)
    requires Merges(levels, level, inputs0, inputs1, input, snapshot, outputs)
    requires Replaces(levels, levels', level, inputs0, inputs1, outputs)
    ensures BoundaryClosed(levels[level + 1], inputs1)
        ==> SameReadsFrom(snapshot, Contents(mem, imm, levels'), Contents(mem, imm, levels))
  {
    if BoundaryClosed(levels[level + 1], inputs1) {
      forall key, at: nat | at >= snapshot
        ensures Read(Contents(mem, imm, levels'), key, at) == Read(Contents(mem, imm, levels), key, at)
      {
        CompactionPreservesReads(mem, imm, levels, levels', level, inputs0, inputs1, outputs, input, snapshot, key, at);
      }
    }
  }

  lemma FlushIsFlush(es: seq<Entry>, levels: Levels, levels': Levels, at: nat, f: FileMetaData, next: nat,
      maxOverlap: nat)
    requires Applied(levels, levels', FlushEdit(at, f)) && at < NUM_LEVELS
    requires WellFormed(f) && f.entries == es && f.number == next
    requires at > 0 ==> NoOverlap(levels[0], f.smallest.user, f.largest.user)
    requires forall l :: 0 <= l < at ==> MaySink(levels, l, f.smallest.user, f.largest.user, maxOverlap)
    ensures Flush(es, levels, levels', at, f, next)
  {
    forall l | 0 <= l <= at && at > 0 ensures NoOverlap(levels[l], f.smallest.user, f.largest.user) {
      assert l > 0 ==> MaySink(levels, l - 1, f.smallest.user, f.largest.user, maxOverlap);
    }
    forall l, g | 0 <= l < |levels| ensures g in levels'[l] <==> g in levels[l] || (l == at && g == f) {
      assert (l, g) in FlushEdit(at, f).added <==> l == at && g == f;
    }
  }

  lemma AppliedMoves(levels: Levels, levels': Levels, level: nat, f: FileMetaData)
    requires Applied(levels, levels', MoveEdit(level, f)) && level + 1 < NUM_LEVELS && f in levels[level]
    ensures Moves(levels, levels', level, f)
  {
    forall l, g | 0 <= l < NUM_LEVELS ensures MovedAt(levels, levels', level, f, l, g) {
      MoveEditMembers(level, f, l, g);
    }
  }

  lemma MoveEditMembers(level: nat, f: FileMetaData, l: nat, g: FileMetaData)
    ensures (l, g) in MoveEdit(level, f).added <==> l == level + 1 && g == f
    ensures (l, g.number) in MoveEdit(level, f).deleted <==> l == level && g.number == f.number
  {
  }

  lemma CompactionKeepsInv(mem: seq<Entry>, imm: Option<seq<Entry>>, levels: Levels, levels': Levels, level: nat,
      inputs0: Files, inputs1: Files,
                           outputs: Files, input: seq<Entry>, snapshot: nat, last: nat, next: nat)
    requires Inv(mem, imm, levels, last, next) && level + 1 < NUM_LEVELS && Picked(levels, level, inputs0, inputs1)
    requires Merges(levels, level, inputs0, inputs1, input, snapshot, outputs) && NumberedFrom(outputs, next)
    requires Replaces(levels, levels', level, inputs0, inputs1, outputs)
    ensures Inv(mem, imm, levels', last, next + |outputs|) && Contents(mem, imm, levels') <= Contents(mem, imm, levels)
  {
    MergedOutputsFrom(levels, level, inputs0, inputs1, input, snapshot, outputs);
    InstallKeepsLayered(mem, imm, levels, levels', level, inputs0, inputs1, outputs);
    ReplacesKeepsNumbered(levels, levels', level, inputs0, inputs1, outputs, next);
    InvForLevels(mem, imm, levels, levels', last, next, next + |outputs|);
  }
}
