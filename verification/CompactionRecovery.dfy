/** The compactions of the recovery protocol are those of the engine: when a merge keeps what the protocol
  asks of it, and that the code can break it. */
module CompactionRecovery {
  import opened DbFormat
  import opened Version
  import opened CompactionInputs
  import opened CompactionWork
  import opened Lookup
  import opened CompactionSteps
  import opened CompactionGap
  import opened GapRun
  import opened Recovery

  /** The live tables hold the entries of a version. */
  ghost predicate Holds(tables: Tables, live: set<nat>, levels: Levels) {
    TableEntries(tables, live) == Lookup.LevelEntries(levels)
  }

  lemma TablesAreContents(tables: Tables, live: set<nat>, levels: Levels)
    requires Holds(tables, live, levels)
    ensures TableEntries(tables, live) == Lookup.Contents([], None, levels)
  {
  }

  /** What a merge loses is never gained. */
  lemma MergeAddsNothing(tables: Tables, before: set<nat>, after: set<nat>, levels: Levels, levels': Levels,
      level: nat, inputs0: Files, inputs1: Files, outputs: Files, input: seq<Entry>, snapshot: nat)
    requires Layered([], None, levels) && level + 1 < NUM_LEVELS && Picked(levels, level, inputs0, inputs1)
    requires Merges(levels, level, inputs0, inputs1, input, snapshot, outputs)
    requires Replaces(levels, levels', level, inputs0, inputs1, outputs)
    requires Holds(tables, before, levels) && Holds(tables, after, levels')
    ensures TableEntries(tables, after) <= TableEntries(tables, before)
  {
    TablesAreContents(tables, before, levels);
    TablesAreContents(tables, after, levels');
    ContentsAcrossCompaction([], None, levels, levels', level, inputs0, inputs1, outputs, input, snapshot);
    AfterShrinks(input, snapshot, BaseKeys(levels, level), Rest([], None, levels, input));
  }

  /** The exact condition: a compaction of the engine is one the protocol admits if and only if no deletion
      it drops uncovers an older value outside its inputs. */
  lemma MergePreservesExactly(tables: Tables, before: set<nat>, after: set<nat>, levels: Levels, levels': Levels,
      level: nat, inputs0: Files, inputs1: Files, outputs: Files, input: seq<Entry>, snapshot: nat)
    requires Layered([], None, levels) && level + 1 < NUM_LEVELS && Picked(levels, level, inputs0, inputs1)
    requires Merges(levels, level, inputs0, inputs1, input, snapshot, outputs)
    requires Replaces(levels, levels', level, inputs0, inputs1, outputs)
    requires Holds(tables, before, levels) && Holds(tables, after, levels')
    ensures MergePreserves(tables, before, after, snapshot) <==>
      forall user :: !SomeResurrection(input, snapshot, BaseKeys(levels, level), Rest([], None, levels, input), user)
  {
    var base, rest := BaseKeys(levels, level), Rest([], None, levels, input);
    var was, now := TableEntries(tables, before), TableEntries(tables, after);
    TablesAreContents(tables, before, levels);
    TablesAreContents(tables, after, levels');
    MergeAddsNothing(tables, before, after, levels, levels', level, inputs0, inputs1, outputs, input, snapshot);
    AlikeByKey(snapshot, now, was);
    forall user ensures KeyReadsAlike(snapshot, now, was, user)
        <==> !SomeResurrection(input, snapshot, base, rest, user) {
      CompactionPreservesReadsExactly(
        [], None, levels, levels', level, inputs0, inputs1, outputs, input, snapshot, user);
    }
  }

  /** With the boundary of the next level closed as well, whatever memtables lie above, the compaction is one
      the protocol admits. */
  lemma ClosedMergePreserves(mem: seq<Entry>, imm: Option<seq<Entry>>, tables: Tables, before: set<nat>,
      after: set<nat>, levels: Levels, levels': Levels, level: nat, inputs0: Files, inputs1: Files,
      outputs: Files, input: seq<Entry>, snapshot: nat)
    requires Layered(mem, imm, levels) && level + 1 < NUM_LEVELS && Picked(levels, level, inputs0, inputs1)
    requires Merges(levels, level, inputs0, inputs1, input, snapshot, outputs)
    requires Replaces(levels, levels', level, inputs0, inputs1, outputs)
    requires BoundaryClosed(levels[level + 1], inputs1)
    requires Holds(tables, before, levels) && Holds(tables, after, levels')
    ensures MergePreserves(tables, before, after, snapshot)
  {
    WithoutMemtables(mem, imm, levels);
    var was, now := TableEntries(tables, before), TableEntries(tables, after);
    TablesAreContents(tables, before, levels);
    TablesAreContents(tables, after, levels');
    MergeAddsNothing(tables, before, after, levels, levels', level, inputs0, inputs1, outputs, input, snapshot);
    forall user, at: nat | at >= snapshot ensures Read(now, user, at) == Read(was, user, at) {
      CompactionPreservesReads(
        [], None, levels, levels', level, inputs0, inputs1, outputs, input, snapshot, user, at);
    }
  }

  lemma WithoutMemtables(mem: seq<Entry>, imm: Option<seq<Entry>>, levels: Levels)
    requires Layered(mem, imm, levels)
    ensures Layered([], None, levels)
  {
    assert Lookup.Contents([], None, levels) <= Lookup.Contents(mem, imm, levels);
  }

  // ---------------------------------------------------------------------------
  // The compaction that does not
  // ---------------------------------------------------------------------------

  function GapTables(): Tables {
    map[7 := iset{X0, X1}, 8 := iset{Y0}, 11 := iset{F0, F1}, 12 := iset{F0, X0, F1}]
  }

  lemma GapHolds()
    ensures Holds(GapTables(), {7, 8, 11}, GapLevels()) && Holds(GapTables(), {8, 12}, AfterLevels())
  {
    GapContents();
    OneFileEntries(OUT);
    TwoLevelEntries([], [OUT, Y]);
    forall e ensures InFiles([OUT, Y], e) <==> e in iset{F0, X0, F1, Y0} {
      assert [OUT, Y][0] == OUT && [OUT, Y][1] == Y;
    }
    forall e ensures e in TableEntries(GapTables(), {7, 8, 11}) <==> e in iset{F0, F1, X0, X1, Y0} {
      assert e in GapTables()[7] ==> InTables(GapTables(), {7, 8, 11}, e);
      assert e in GapTables()[8] ==> InTables(GapTables(), {7, 8, 11}, e);
      assert e in GapTables()[11] ==> InTables(GapTables(), {7, 8, 11}, e);
    }
    forall e ensures e in TableEntries(GapTables(), {8, 12}) <==> e in iset{F0, X0, F1, Y0} {
      assert e in GapTables()[8] ==> InTables(GapTables(), {8, 12}, e);
      assert e in GapTables()[12] ==> InTables(GapTables(), {8, 12}, e);
    }
  }

  /** The compaction of `GapRun` is not one the protocol admits. */
  lemma GapMergeIsNotPreserving()
    ensures Holds(GapTables(), {7, 8, 11}, GapLevels()) && Holds(GapTables(), {8, 12}, AfterLevels())
    ensures !MergePreserves(GapTables(), {7, 8, 11}, {8, 12}, 30)
  {
    GapHolds();
    GapArises();
    TablesAreContents(GapTables(), {7, 8, 11}, GapLevels());
    TablesAreContents(GapTables(), {8, 12}, AfterLevels());
    var was, now := TableEntries(GapTables(), {7, 8, 11}), TableEntries(GapTables(), {8, 12});
    assert Read(was, 3.0, 30) != Read(now, 3.0, 30);
  }
}
