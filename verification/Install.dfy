/** From a version edit to the installed version: the edits of a flush, a trivial move and a
  compaction, and the file numbers they keep apart. */
module Install {
  import opened DbFormat
  import opened Version
  import opened CompactionInputs
  import opened CompactionWork
  import opened Lookup
  import opened LayerSteps
  import opened CompactionSteps
  import opened VersionBuilder

  type Edit = FileEdit<FileMetaData>

  ghost predicate AllOrdered(levels: Levels) {
    |levels| == NUM_LEVELS && forall l :: 0 <= l < NUM_LEVELS ==> LayerSteps.Ordered(levels[l])
  }

  ghost predicate FreshEdit(levels: Levels, edit: Edit)
    requires |levels| == NUM_LEVELS
  {
    && (forall p :: p in edit.added ==> p.0 < NUM_LEVELS)
    && forall l :: 0 <= l < NUM_LEVELS ==> Fresh(edit, l, Elements(levels[l]), NumberOf)
  }

  /** The in-memory half of VersionSet::LogAndApply. */
  method LogAndApply(levels: Levels, edit: Edit) returns (levels': Levels)
    requires AllOrdered(levels) && FreshEdit(levels, edit)
    ensures Applied(levels, levels', edit)
  {
    forall l | 0 <= l < NUM_LEVELS ensures AddedOnce(Elements(levels[l]), [edit], l, NumberOf) {
      assert [edit][..0] == [];
    }
    levels' := Replay(levels, [edit], KeyOf, NumberOf);
    forall l, g | 0 <= l < NUM_LEVELS
      ensures g in levels'[l] <==> (g in levels[l] && (l, g.number) !in edit.deleted) || (l, g) in edit.added
    {
      assert [edit][..0] == [];
      assert Fold(Elements(levels[l]), [edit], l, NumberOf) == Step(Elements(levels[l]), edit, l, NumberOf);
      assert g in levels'[l] <==> g in Elements(levels'[l]);
      if g in AddedAt(edit, l) {
        var p :| p in edit.added && p.0 == l && p.1 == g;
        assert p == (l, g);
      }
      if (l, g) in edit.added {
        assert (l, g).1 in AddedAt(edit, l);
      }
    }
  }

  // ---------------------------------------------------------------------------
  // Flush
  // ---------------------------------------------------------------------------

  function FlushEdit(at: nat, f: FileMetaData): Edit {
    FileEdit({}, [(at, f)])
  }

  lemma FlushEditIsFresh(levels: Levels, at: nat, f: FileMetaData)
    requires |levels| == NUM_LEVELS && Numbered(levels, f.number) && at < NUM_LEVELS
    ensures FreshEdit(levels, FlushEdit(at, f))
  {
    var edit := FlushEdit(at, f);
    forall l | 0 <= l < NUM_LEVELS ensures Fresh(edit, l, Elements(levels[l]), NumberOf) {
      forall g | g in AddedAt(edit, l) ensures g == f {
      }
    }
  }

  // ---------------------------------------------------------------------------
  // Trivial move
  // ---------------------------------------------------------------------------

  function MoveEdit(level: nat, f: FileMetaData): Edit {
    FileEdit({(level, f.number)}, [(level + 1, f)])
  }

  lemma MoveEditIsFresh(levels: Levels, level: nat, f: FileMetaData, next: nat)
    requires |levels| == NUM_LEVELS && Numbered(levels, next) && level + 1 < NUM_LEVELS && f in levels[level]
    ensures FreshEdit(levels, MoveEdit(level, f))
  {
    var edit := MoveEdit(level, f);
    forall l | 0 <= l < NUM_LEVELS ensures Fresh(edit, l, Elements(levels[l]), NumberOf) {
      forall g | g in AddedAt(edit, l) ensures g == f && l == level + 1 {
      }
    }
  }

  /** What a move does to the levels. */
  ghost predicate Moves(levels: Levels, levels': Levels, level: nat, f: FileMetaData) {
    && AllOrdered(levels') && level + 1 < NUM_LEVELS == |levels| && f in levels[level]
    && forall l, g :: 0 <= l < NUM_LEVELS ==> MovedAt(levels, levels', level, f, l, g)
  }

  ghost predicate MovedAt(levels: Levels, levels': Levels, level: nat, f: FileMetaData, l: nat, g: FileMetaData)
    requires l < |levels| == |levels'|
  {
    g in levels'[l] <==> (g in levels[l] && !(l == level && g.number == f.number)) || (l == level + 1 && g == f)
  }

  lemma MoveReplaces(levels: Levels, levels': Levels, level: nat, f: FileMetaData, next: nat)
    requires Moves(levels, levels', level, f) && Numbered(levels, next)
    ensures Replaces(levels, levels', level, [f], [], [f])
  {
    forall l, g | 0 <= l < |levels|
      ensures g in levels'[l] <==> (g in levels[l] && !(l == level && g == f)) || (l == level + 1 && g == f)
    {
      MoveMembers(levels, levels', level, f, next, l, g);
    }
    assert forall g :: g in levels'[level + 1] <==> (g in levels[level + 1] && g !in []) || g in [f];
    assert forall g :: g in levels'[level] <==> g in levels[level] && g !in [f];
  }

  lemma MoveMembers(levels: Levels, levels': Levels, level: nat, f: FileMetaData, next: nat, l: nat, g: FileMetaData)
    requires Moves(levels, levels', level, f) && Numbered(levels, next) && l < |levels|
    ensures g in levels'[l] <==> (g in levels[l] && !(l == level && g == f)) || (l == level + 1 && g == f)
  {
    assert MovedAt(levels, levels', level, f, l, g);
  }

  lemma MoveKeepsNumbered(levels: Levels, levels': Levels, level: nat, f: FileMetaData, next: nat)
    requires Moves(levels, levels', level, f) && Numbered(levels, next)
    ensures Numbered(levels', next)
  {
    forall l, g | 0 <= l < |levels| && g in levels'[l]
      ensures g in levels[if g == f then level else l] && (g == f ==> l == level + 1)
    {
      MoveMembers(levels, levels', level, f, next, l, g);
    }
  }

  lemma MoveKeepsEntries(levels: Levels, levels': Levels, level: nat, f: FileMetaData, next: nat)
    requires Moves(levels, levels', level, f) && Numbered(levels, next)
    ensures LevelEntries(levels) <= LevelEntries(levels')
  {
    forall e | e in LevelEntries(levels) ensures e in LevelEntries(levels') {
      var l :| 0 <= l < |levels| && InFiles(levels[l], e);
      assert e in EntriesOf(levels[l]);
      var g := EntryOfFiles(levels[l], e);
      var m := if l == level && g == f then level + 1 else l;
      MoveMembers(levels, levels', level, f, next, m, g);
      FileOfLevel(levels'[m], g);
    }
  }

  lemma SingleFileEntries(f: FileMetaData)
    requires WellFormed(f)
    ensures AllWellFormed([f]) && LevelSorted([f]) && EntriesOf([f]) == FileEntries(f)
  {
    AppendEntries([], f);
    assert [] + [f] == [f];
  }

  /** A trivial move keeps the invariant and the contents. */
  lemma MoveKeepsInv(mem: seq<Entry>, imm: Option<seq<Entry>>, levels: Levels, levels': Levels, level: nat,
      f: FileMetaData, last: nat, next: nat)
    requires Inv(mem, imm, levels, last, next) && Moves(levels, levels', level, f) && Picked(levels, level, [f], [])
    ensures Inv(mem, imm, levels', last, next) && Contents(mem, imm, levels') == Contents(mem, imm, levels)
  {
    MoveReplaces(levels, levels', level, f, next);
    MoveKeepsNumbered(levels, levels', level, f, next);
    MoveKeepsEntries(levels, levels', level, f, next);
    MoveKeepsLayered(mem, imm, levels, levels', level, f);
    assert Contents(mem, imm, levels') == Contents(mem, imm, levels);
    InvForLevels(mem, imm, levels, levels', last, next, next);
  }

  lemma MoveKeepsLayered(mem: seq<Entry>, imm: Option<seq<Entry>>, levels: Levels, levels': Levels, level: nat,
      f: FileMetaData)
    requires Layered(mem, imm, levels) && level + 1 < NUM_LEVELS && Picked(levels, level, [f], [])
    requires Replaces(levels, levels', level, [f], [], [f])
    ensures Layered(mem, imm, levels') && Contents(mem, imm, levels') <= Contents(mem, imm, levels)
  {
    assert f in [f];
    FileOfLevel(levels[level], f);
    SingleFileEntries(f);
    assert OutputsFrom([f], [f], []);
    InstallKeepsLayered(mem, imm, levels, levels', level, [f], [], [f]);
  }

  lemma InvForLevels(mem: seq<Entry>, imm: Option<seq<Entry>>, levels: Levels, levels': Levels, last: nat, next: nat,
      next': nat)
    requires Inv(mem, imm, levels, last, next) && Layered(mem, imm, levels') && Numbered(levels', next')
        && AllOrdered(levels')
    requires Contents(mem, imm, levels') <= Contents(mem, imm, levels)
    ensures Inv(mem, imm, levels', last, next')
  {
  }

  // ---------------------------------------------------------------------------
  // Compaction
  // ---------------------------------------------------------------------------

  /** InstallCompactionResults: delete the inputs, add the outputs one level down. */
  function CompactionEdit(level: nat, inputs0: Files, inputs1: Files, outputs: Files): Edit {
    FileEdit((set f | f in inputs0 :: (level, f.number)) + (set f | f in inputs1 :: (level + 1, f.number)),
             seq(|outputs|, i requires 0 <= i < |outputs| => (level + 1, outputs[i])))
  }

  ghost predicate NumberedFrom(outputs: Files, first: nat) {
    forall i :: 0 <= i < |outputs| ==> outputs[i].number == first + i
  }

  lemma CompactionEditIsFresh(levels: Levels, level: nat, inputs0: Files, inputs1: Files, outputs: Files, first: nat)
    requires |levels| == NUM_LEVELS && Numbered(levels, first) && level + 1 < NUM_LEVELS
    requires NumberedFrom(outputs, first)
    ensures FreshEdit(levels, CompactionEdit(level, inputs0, inputs1, outputs))
  {
    var edit := CompactionEdit(level, inputs0, inputs1, outputs);
    forall l | 0 <= l < NUM_LEVELS ensures Fresh(edit, l, Elements(levels[l]), NumberOf) {
      forall g | g in AddedAt(edit, l) ensures g.number >= first {
        var p :| p in edit.added && p.0 == l && p.1 == g;
        var i :| 0 <= i < |edit.added| && edit.added[i] == p;
      }
    }
  }

  lemma EditMembers(level: nat, inputs0: Files, inputs1: Files, outputs: Files, l: nat, g: FileMetaData)
    ensures (l, g) in CompactionEdit(level, inputs0, inputs1, outputs).added <==> l == level + 1 && g in outputs
    ensures (l, g.number) in CompactionEdit(level, inputs0, inputs1, outputs).deleted <==>
      || (l == level && exists f :: f in inputs0 && f.number == g.number)
      || (l == level + 1 && exists f :: f in inputs1 && f.number == g.number)
  {
    var edit := CompactionEdit(level, inputs0, inputs1, outputs);
    if l == level + 1 && g in outputs {
      var i :| 0 <= i < |outputs| && outputs[i] == g;
      assert edit.added[i] == (l, g);
    }
  }

  ghost predicate Applied(levels: Levels, levels': Levels, edit: Edit) {
    && AllOrdered(levels') && |levels| == NUM_LEVELS
    && forall l, g :: 0 <= l < NUM_LEVELS ==>
         (g in levels'[l] <==> (g in levels[l] && (l, g.number) !in edit.deleted) || (l, g) in edit.added)
  }

  ghost predicate After(levels: Levels, levels': Levels, level: nat, inputs0: Files, inputs1: Files, outputs: Files,
      l: nat, g: FileMetaData)
    requires l < |levels| == |levels'|
  {
    g in levels'[l] <==>
      (g in levels[l] && !(l == level && g in inputs0) && !(l == level + 1 && g in inputs1))
          || (l == level + 1 && g in outputs)
  }

  lemma AppliedMember(levels: Levels, levels': Levels, level: nat, inputs0: Files, inputs1: Files, outputs: Files,
      next: nat, l: nat, g: FileMetaData)
    requires Applied(levels, levels', CompactionEdit(level, inputs0, inputs1, outputs))
    requires Numbered(levels, next) && l < NUM_LEVELS && level + 1 < NUM_LEVELS
    requires (forall f :: f in inputs0 ==> f in levels[level]) && (forall f :: f in inputs1 ==> f in levels[level + 1])
    ensures After(levels, levels', level, inputs0, inputs1, outputs, l, g)
  {
    EditMembers(level, inputs0, inputs1, outputs, l, g);
  }

  ghost predicate AllAfter(levels: Levels, levels': Levels, level: nat, inputs0: Files, inputs1: Files,
      outputs: Files) {
    && |levels| == |levels'|
    && forall l, g :: 0 <= l < |levels| ==> After(levels, levels', level, inputs0, inputs1, outputs, l, g)
  }

  lemma AppliedMembers(levels: Levels, levels': Levels, level: nat, inputs0: Files, inputs1: Files, outputs: Files,
      next: nat)
    requires Applied(levels, levels', CompactionEdit(level, inputs0, inputs1, outputs))
    requires Numbered(levels, next) && level + 1 < NUM_LEVELS
    requires (forall f :: f in inputs0 ==> f in levels[level]) && (forall f :: f in inputs1 ==> f in levels[level + 1])
    ensures AllAfter(levels, levels', level, inputs0, inputs1, outputs)
  {
    forall l, g | 0 <= l < |levels| ensures After(levels, levels', level, inputs0, inputs1, outputs, l, g) {
      AppliedMember(levels, levels', level, inputs0, inputs1, outputs, next, l, g);
    }
  }

  lemma AllAfterReplaces(levels: Levels, levels': Levels, level: nat, inputs0: Files, inputs1: Files, outputs: Files)
    requires AllAfter(levels, levels', level, inputs0, inputs1, outputs) && AllOrdered(levels') && level + 1 < |levels|
    ensures Replaces(levels, levels', level, inputs0, inputs1, outputs)
  {
    forall l | 0 <= l < |levels| && l != level && l != level + 1 ensures SameFiles(levels[l], levels'[l]) {
      forall g ensures g in levels[l] <==> g in levels'[l] {
        assert After(levels, levels', level, inputs0, inputs1, outputs, l, g);
      }
    }
    forall g ensures g in levels'[level] <==> g in levels[level] && g !in inputs0 {
      assert After(levels, levels', level, inputs0, inputs1, outputs, level, g);
    }
    forall g ensures g in levels'[level + 1] <==> (g in levels[level + 1] && g !in inputs1) || g in outputs {
      assert After(levels, levels', level, inputs0, inputs1, outputs, level + 1, g);
    }
  }

  lemma ReplacesKeepsNumbered(levels: Levels, levels': Levels, level: nat, inputs0: Files, inputs1: Files,
      outputs: Files, next: nat)
    requires Numbered(levels, next) && Replaces(levels, levels', level, inputs0, inputs1, outputs)
        && NumberedFrom(outputs, next)
    ensures Numbered(levels', next + |outputs|)
  {
    forall g | g in outputs ensures next <= g.number < next + |outputs| {
      var i :| 0 <= i < |outputs| && outputs[i] == g;
    }
    forall l, m, f, g | 0 <= l < |levels| && 0 <= m < |levels| && f in levels'[l] && g in levels'[m]
      ensures f.number < next + |outputs| && (f.number == g.number ==> l == m && f == g)
    {
      FileOrigin(levels, levels', level, inputs0, inputs1, outputs, l, f);
      FileOrigin(levels, levels', level, inputs0, inputs1, outputs, m, g);
      if f in outputs && g in outputs {
        OutputsApart(levels, outputs, next, f, g, l, m);
      }
    }
  }

  lemma OutputsApart(levels: Levels, outputs: Files, next: nat, f: FileMetaData, g: FileMetaData, l: nat, m: nat)
    requires NumberedFrom(outputs, next) && f in outputs && g in outputs && Numbered(levels, next) && l < |levels|
        && m < |levels|
    ensures f.number == g.number ==> f == g
    ensures f !in levels[l] && g !in levels[m]
  {
    var i :| 0 <= i < |outputs| && outputs[i] == f;
    var j :| 0 <= j < |outputs| && outputs[j] == g;
  }

  lemma FileOrigin(levels: Levels, levels': Levels, level: nat, inputs0: Files, inputs1: Files, outputs: Files, l: nat,
      f: FileMetaData)
    requires Replaces(levels, levels', level, inputs0, inputs1, outputs) && l < |levels| && f in levels'[l]
    ensures f in levels[l] || (f in outputs && l == level + 1)
  {
    if l != level && l != level + 1 {
      assert SameFiles(levels[l], levels'[l]);
    }
  }

  /** The sorted stream of all entries of the inputs (VersionSet::MakeInputIterator). */
  method MakeInput(mem: seq<Entry>, imm: Option<seq<Entry>>, levels: Levels, level: nat, inputs0: Files, inputs1: Files)
    returns (input: seq<Entry>)
    requires Layered(mem, imm, levels) && level + 1 < NUM_LEVELS && Picked(levels, level, inputs0, inputs1)
    ensures Sorted(input) && SetOf(input) == InputEntries(inputs0, inputs1)
  {
    InputsAreLevelEntries(levels, level, inputs0, inputs1);
    ghost var all := LevelEntries(levels);
    assert UniqueSeqs(all) && EntriesOf(inputs0) <= all && EntriesOf(inputs1) <= all;
    input := AddFiles([], inputs0, all);
    input := AddFiles(input, inputs1, all);
  }

  method AddFiles(start: seq<Entry>, files: Files, ghost all: Entries) returns (input: seq<Entry>)
    requires Sorted(start) && UniqueSeqs(all) && SetOf(start) <= all && EntriesOf(files) <= all
    ensures Sorted(input) && SetOf(input) == SetOf(start) + EntriesOf(files)
  {
    input := start;
    for i := 0 to |files|
      invariant Sorted(input) && SetOf(input) == SetOf(start) + EntriesOf(files[..i])
    {
      FileOfLevel(files, files[i]);
      input := AddEntries(input, files[i].entries, all);
      assert files[..i + 1] == files[..i] + [files[i]];
      AppendEntries(files[..i], files[i]);
    }
    assert files[..|files|] == files;
  }

  method AddEntries(start: seq<Entry>, es: seq<Entry>, ghost all: Entries) returns (input: seq<Entry>)
    requires Sorted(start) && UniqueSeqs(all) && SetOf(start) <= all && SetOf(es) <= all
    ensures Sorted(input) && SetOf(input) == SetOf(start) + SetOf(es)
  {
    input := start;
    for i := 0 to |es|
      invariant Sorted(input) && SetOf(input) == SetOf(start) + SetOf(es[..i])
    {
      assert es[..i + 1] == es[..i] + [es[i]];
      assert SetOf(es[..i + 1]) == SetOf(es[..i]) + iset{es[i]};
      if es[i] !in input {
        DistinctFromAll(input, es[i], all);
        input := Insert(input, es[i]);
      } else {
        assert es[i] in SetOf(input);
      }
    }
    assert es[..|es|] == es;
  }

  lemma DistinctFromAll(input: seq<Entry>, e: Entry, all: Entries)
    requires UniqueSeqs(all) && SetOf(input) <= all && e in all && e !in input
    ensures forall f :: f in input ==> Less(f.key, e.key) || Less(e.key, f.key)
  {
    forall f | f in input ensures Less(f.key, e.key) || Less(e.key, f.key) {
      assert f in SetOf(input);
      DifferentSeqsDifferentKeys(e, f);
    }
  }

  // ---------------------------------------------------------------------------
  // Writes
  // ---------------------------------------------------------------------------

  /** Adding entries with higher sequence numbers leaves earlier reads alone. */
  lemma OldReadsUnchanged(before: Entries, after: Entries, added: Entries, last: nat, user: UserKey, at: nat)
    requires after == before + added && UniqueSeqs(after) && at <= last
    requires forall e :: e in added ==> e.key.seqno > last
    ensures Read(after, user, at) == Read(before, user, at)
  {
    assert UniqueSeqs(before);
    SameNewestSameRead(after, before, user, at);
  }

  lemma LargestInRange(mem: seq<Entry>, imm: Option<seq<Entry>>, levels: Levels, last: nat, next: nat)
    requires Inv(mem, imm, levels, last, next)
    ensures forall l, f :: 0 <= l < NUM_LEVELS && f in levels[l] ==> f.largest.seqno <= MAX_SEQUENCE
  {
    forall l, f | 0 <= l < NUM_LEVELS && f in levels[l] ensures f.largest.seqno <= MAX_SEQUENCE {
      FileOfLevel(levels[l], f);
      var e := f.entries[|f.entries| - 1];
      assert e in f.entries;
      LevelInContents(mem, imm, levels, l, e);
    }
  }
}
