/** How the layout of `CompactionGap` comes about, and what the compaction does to it.

  An old snapshot keeps two versions of a user key apart, and the output of a compaction is cut between
  them. Once the snapshot is gone and a new table has been flushed above, the next compaction reads only
  the first of the two files.
 */
module GapRun {
  import opened DbFormat
  import opened Version
  import opened CompactionInputs
  import opened CompactionWork
  import opened Lookup
  import opened LayerSteps
  import opened CompactionSteps
  import opened CompactionGap

  const P := FileMetaData(5, 1, X0.key, X1.key, [X0, X1])
  const Q := FileMetaData(6, 1, Y0.key, Y0.key, [Y0])
  const OUT := FileMetaData(12, 1, F0.key, F1.key, [F0, X0, F1])

  const EARLIER_INPUT: seq<Entry> := [X0, X1, Y0]

  /** Two levels in the middle of an otherwise empty version. */
  function TwoLevels(one: Files, two: Files): (levels: Levels)
    ensures |levels| == NUM_LEVELS && levels[1] == one && levels[2] == two
    ensures forall l :: 0 <= l < NUM_LEVELS && l != 1 && l != 2 ==> levels[l] == []
  {
    [[], one, two, [], [], [], []]
  }

  function EarlierLevels(): Levels { TwoLevels([P], [Q]) }

  function MiddleLevels(): Levels { TwoLevels([], [X, Y]) }

  function AfterLevels(): Levels { TwoLevels([], [OUT, Y]) }

  // ---------------------------------------------------------------------------
  // The compaction under the old snapshot
  // ---------------------------------------------------------------------------

  lemma OneFileEntries(f: FileMetaData)
    ensures EntriesOf([f]) == iset e | e in f.entries
  {
    forall e ensures InFiles([f], e) <==> e in f.entries {
      assert [f][0] == f;
    }
  }

  lemma EarlierIsWellFormed()
    ensures GoodLevels(EarlierLevels())
  {
    assert Sorted([X0, X1]) && Sorted([Y0]) && WellFormed(P) && WellFormed(Q);
    assert AllWellFormed([P]) && AllWellFormed([Q]) && LevelSorted([P]) && LevelSorted([Q]);
  }

  lemma TwoLevelEntries(one: Files, two: Files)
    ensures LevelEntries(TwoLevels(one, two)) == EntriesOf(one) + EntriesOf(two)
  {
    var levels := TwoLevels(one, two);
    forall e ensures e in LevelEntries(levels) <==> e in EntriesOf(one) + EntriesOf(two) {
      if e in EntriesOf(one) { assert InFiles(levels[1], e); }
      if e in EntriesOf(two) { assert InFiles(levels[2], e); }
      if l :| 0 <= l < NUM_LEVELS && InFiles(levels[l], e) {
        assert levels[l] != [] && (l == 1 || l == 2);
      }
    }
  }

  /** A version with two levels in use is layered if the upper one is newer. */
  lemma TwoLevelsLayered(one: Files, two: Files)
    requires GoodLevels(TwoLevels(one, two)) && Newer(EntriesOf(one), EntriesOf(two))
    requires UniqueSeqs(EntriesOf(one) + EntriesOf(two))
    ensures Layered([], None, TwoLevels(one, two))
  {
    var levels := TwoLevels(one, two);
    TwoLevelEntries(one, two);
    assert Contents([], None, levels) == EntriesOf(one) + EntriesOf(two);
    forall l, m | 0 <= l < m < NUM_LEVELS ensures Newer(EntriesOf(levels[l]), EntriesOf(levels[m])) {
      if l != 1 {
        assert l == 2 || levels[l] == [];
      }
      if (l, m) != (1, 2) {
        assert levels[l] == [] || levels[m] == [];
      }
    }
  }

  lemma EarlierIsLayered()
    ensures Layered([], None, EarlierLevels())
  {
    EarlierIsWellFormed();
    OneFileEntries(P);
    OneFileEntries(Q);
    TwoLevelsLayered([P], [Q]);
  }

  lemma EarlierIsPicked()
    ensures Picked(EarlierLevels(), 1, [P], [Q])
  {
    assert [P][0..1] == [P] && IsRun([P], [P]);
    forall key, f | IsLargest([P], key) && f in [P] ensures !IsBoundary(f, key) {
    }
    forall lo, hi | RangeOf([P], lo, hi) ensures [Q] == Overlapping([Q], Some(lo), Some(hi)) {
      assert P in [P];
      OverlappingRun([Q], 0, 1, Some(lo), Some(hi));
      assert [Q][0..1] == [Q];
    }
  }

  lemma FlattenTwo(f: FileMetaData, g: FileMetaData)
    ensures Flatten([f]) == f.entries && Flatten([f, g]) == f.entries + g.entries
  {
    assert [f][..0] == [] && [f, g][..1] == [f];
  }

  lemma Survive3(input: seq<Entry>, snapshot: nat, base: iset<UserKey>)
    requires |input| == 3
    requires !Dropped(input, 0, snapshot, base) && !Dropped(input, 1, snapshot, base)
        && !Dropped(input, 2, snapshot, base)
    ensures Survivors(input, 3, snapshot, base) == input
  {
    assert Survivors(input, 1, snapshot, base) == [input[0]];
    assert Survivors(input, 2, snapshot, base) == [input[0], input[1]];
  }

  /** Under a snapshot between the two versions both stay, and the output may be cut between them. */
  lemma EarlierMerges()
    ensures Merges(EarlierLevels(), 1, [P], [Q], EARLIER_INPUT, 7, [X, Y])
    ensures Replaces(EarlierLevels(), MiddleLevels(), 1, [P], [Q], [X, Y])
  {
    GapIsWellFormed();
    assert Sorted(EARLIER_INPUT);
    forall e ensures e in InputEntries([P], [Q]) <==> e in EARLIER_INPUT {
      OneFileEntries(P);
      OneFileEntries(Q);
      assert e in EARLIER_INPUT <==> e == X0 || e == X1 || e == Y0;
    }
    var base := BaseKeys(EarlierLevels(), 1);
    Survive3(EARLIER_INPUT, 7, base);
    FlattenTwo(X, Y);
    GapLevelsAt();
    assert GapLevels()[2] == [X, Y];
    AllOrderedAt(MiddleLevels());
  }

  lemma AllOrderedAt(levels: Levels)
    requires |levels| == NUM_LEVELS && forall l :: 0 <= l < NUM_LEVELS && l != 1 && l != 2 ==> levels[l] == []
    requires Ordered(levels[1]) && Ordered(levels[2])
    ensures forall l :: 0 <= l < NUM_LEVELS ==> Ordered(levels[l])
  {
  }

  // ---------------------------------------------------------------------------
  // The flush above it
  // ---------------------------------------------------------------------------

  lemma BelowNewTable()
    ensures Overlapping([X, Y], Some(0.0), Some(2.0)) == [X] && TotalSize([X]) == 1
  {
    OverlappingRun([X, Y], 0, 1, Some(0.0), Some(2.0));
    assert [X, Y][0..1] == [X] && [X][..0] == [];
  }

  /** The new table sinks to level 1 and no further. */
  lemma NewTableIsFlushed()
    ensures Flush([F0, F1], MiddleLevels(), GapLevels(), 1, F, 11)
    ensures NoOverlap(MiddleLevels()[0], 0.0, 2.0) && MaySink(MiddleLevels(), 0, 0.0, 2.0, 1)
    ensures !MaySink(MiddleLevels(), 1, 0.0, 2.0, 1)
  {
    GapLevelsAt();
    GapIsWellFormed();
    assert GapLevels()[1] == [F] && MiddleLevels()[1] == [];
    AllOrderedAt(GapLevels());
    BelowNewTable();
    assert X in MiddleLevels()[2] && Overlaps(X, Some(0.0), Some(2.0));
  }

  // ---------------------------------------------------------------------------
  // The compaction that drops the deletion
  // ---------------------------------------------------------------------------

  lemma GapSurvivors(base: iset<UserKey>)
    requires 3.0 in base
    ensures Survivors(INPUT, 4, 30, base) == [F0, X0, F1]
  {
    assert Survivors(INPUT, 1, 30, base) == [F0];
    assert Survivors(INPUT, 2, 30, base) == [F0, X0];
    assert Survivors(INPUT, 3, 30, base) == [F0, X0, F1];
    assert Dropped(INPUT, 3, 30, base);
  }

  lemma SortedThree(a: Entry, b: Entry, c: Entry)
    requires Less(a.key, b.key) && Less(b.key, c.key)
    ensures Sorted([a, b, c])
  {
  }

  lemma OutIsWellFormed()
    ensures WellFormed(OUT) && AllWellFormed([OUT]) && LevelSorted([OUT]) && Flatten([OUT]) == [F0, X0, F1]
  {
    SortedThree(F0, X0, F1);
    FlattenTwo(OUT, OUT);
  }

  lemma GapMerges()
    ensures Merges(GapLevels(), 1, [F], [X], INPUT, 30, [OUT])
  {
    GapLevelsAt();
    GapIsWellFormed();
    GapInputs();
    var base := BaseKeys(GapLevels(), 1);
    assert IsBase(GapLevels(), 1, 3.0);
    GapSurvivors(base);
    OutIsWellFormed();
  }

  lemma GapReplaces()
    ensures Replaces(GapLevels(), AfterLevels(), 1, [F], [X], [OUT])
  {
    GapLevelsAt();
    assert Ordered([OUT, Y]);
    AllOrderedAt(AfterLevels());
  }

  /** The steps that lead there, each as the engine takes it: a compaction under snapshot 7 with its output
      cut after X, a flush, and a compaction with the snapshot gone. After it the deleted value is back. */
  lemma GapArises()
    ensures Layered([], None, EarlierLevels()) && Picked(EarlierLevels(), 1, [P], [Q])
    ensures Merges(EarlierLevels(), 1, [P], [Q], EARLIER_INPUT, 7, [X, Y])
    ensures Replaces(EarlierLevels(), MiddleLevels(), 1, [P], [Q], [X, Y])
    ensures Flush([F0, F1], MiddleLevels(), GapLevels(), 1, F, 11)
    ensures Layered([], None, GapLevels()) && Picked(GapLevels(), 1, [F], [X])
    ensures Merges(GapLevels(), 1, [F], [X], INPUT, 30, [OUT])
    ensures Replaces(GapLevels(), AfterLevels(), 1, [F], [X], [OUT])
    ensures Read(Contents([], None, GapLevels()), 3.0, 30) == None
    ensures Read(Contents([], None, AfterLevels()), 3.0, 30) == Some([4])
  {
    EarlierIsLayered();
    EarlierIsPicked();
    EarlierMerges();
    NewTableIsFlushed();
    GapMerges();
    GapReplaces();
    NextLevelGapBringsBackDeletedValue();
    GapIsLayered();
    ContentsAcrossCompaction([], None, GapLevels(), AfterLevels(), 1, [F], [X], [OUT], INPUT, 30);
  }
}
