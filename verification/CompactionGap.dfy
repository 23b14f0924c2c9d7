/** A concrete compaction that brings a deleted value back.

  The inputs of the next level are not extended over a user key that continues into the next file.
  Below, file X ends with a deletion of a key whose older value starts file Y. A compaction of F
  reads X but not Y, drops the deletion as obsolete, and the old value in Y becomes visible.
 */
module CompactionGap {
  import opened DbFormat
  import opened Version
  import opened CompactionInputs
  import opened CompactionWork
  import opened Lookup
  import opened CompactionSteps

  const F0 := Entry(InternalKey(0.0, 20, Value), [1])
  const F1 := Entry(InternalKey(2.0, 21, Value), [2])
  const X0 := Entry(InternalKey(1.0, 9, Value), [3])
  const X1 := Entry(InternalKey(3.0, 10, Deletion), [])
  const Y0 := Entry(InternalKey(3.0, 5, Value), [4])

  const F := FileMetaData(11, 1, F0.key, F1.key, [F0, F1])
  const X := FileMetaData(7, 1, X0.key, X1.key, [X0, X1])
  const Y := FileMetaData(8, 1, Y0.key, Y0.key, [Y0])

  function GapLevels(): Levels {
    [[], [F], [X, Y], [], [], [], []]
  }

  const INPUT: seq<Entry> := [F0, X0, F1, X1]

  lemma GapLevelsAt()
    ensures |GapLevels()| == NUM_LEVELS && GapLevels()[1] == [F] && GapLevels()[2] == [X, Y]
    ensures forall l :: 0 <= l < NUM_LEVELS && l != 1 && l != 2 ==> GapLevels()[l] == []
  {
  }

  lemma GapIsWellFormed()
    ensures GoodLevels(GapLevels()) && Sorted(INPUT)
  {
    GapLevelsAt();
    assert Sorted([F0, F1]) && Sorted([X0, X1]) && Sorted([Y0]);
    assert WellFormed(F) && WellFormed(X) && WellFormed(Y);
    assert AllWellFormed([F]) && AllWellFormed([X, Y]) && LevelSorted([X, Y]) && LevelSorted([F]);
  }

  /** SetupOtherInputs ends with F and X: Y starts after the range of F. */
  lemma GapIsPicked()
    ensures Picked(GapLevels(), 1, [F], [X])
    ensures !BoundaryClosed(GapLevels()[2], [X])
  {
    GapLevelsAt();
    assert [F][0..1] == [F];
    assert IsRun([F], [F]);
    forall key, f | IsLargest([F], key) && f in [F] ensures !IsBoundary(f, key) {
    }
    forall lo, hi | RangeOf([F], lo, hi) ensures [X] == Overlapping([X, Y], Some(lo), Some(hi)) {
      assert F in [F];
      OverlappingRun([X, Y], 0, 1, Some(lo), Some(hi));
      assert [X, Y][0..1] == [X];
    }
    assert IsLargest([X], X1.key) by { assert X in [X]; }
    assert Y in [X, Y] && IsBoundary(Y, X1.key);
  }

  lemma GapInputs()
    ensures SetOf(INPUT) == InputEntries([F], [X])
  {
    forall e ensures e in InputEntries([F], [X]) <==> e in INPUT {
      assert InFiles([F], e) <==> e in F.entries by { assert [F][0] == F; }
      assert InFiles([X], e) <==> e in X.entries by { assert [X][0] == X; }
      assert e in F.entries <==> e == F0 || e == F1;
      assert e in X.entries <==> e == X0 || e == X1;
      assert e in INPUT <==> e == F0 || e == X0 || e == F1 || e == X1;
    }
  }

  lemma GapRest() returns (rest: Entries)
    ensures rest == iset{Y0} && Compactable(INPUT, rest)
  {
    rest := iset{Y0};
    GapIsWellFormed();
    assert forall e :: e in INPUT <==> e == F0 || e == X0 || e == F1 || e == X1;
    assert forall e :: e in SetOf(INPUT) + rest <==> e == F0 || e == X0 || e == F1 || e == X1 || e == Y0;
  }

  /** The deletion is dropped although Y, outside the compaction, holds the value it hid. */
  lemma GapResurrects(rest: Entries)
    requires rest == iset{Y0}
    ensures Resurrects(INPUT, 30, BaseKeys(GapLevels(), 1), rest, 3.0, 3, Y0)
  {
    GapLevelsAt();
    assert IsBase(GapLevels(), 1, 3.0);
    assert INPUT[3] == X1 && INPUT[2] == F1;
    assert Newest(rest, 3.0, 9, Y0);
  }

  lemma GapContents()
    ensures LevelEntries(GapLevels()) == iset{F0, F1, X0, X1, Y0}
    ensures EntriesOf(GapLevels()[1]) == iset{F0, F1} && EntriesOf(GapLevels()[2]) == iset{X0, X1, Y0}
    ensures forall l :: 0 <= l < NUM_LEVELS && l != 1 && l != 2 ==> EntriesOf(GapLevels()[l]) == iset{}
  {
    GapLevelsAt();
    forall e ensures InFiles([F], e) <==> e == F0 || e == F1 {
      assert [F][0] == F && (e in F.entries <==> e == F0 || e == F1);
    }
    forall e ensures InFiles([X, Y], e) <==> e == X0 || e == X1 || e == Y0 {
      assert [X, Y][0] == X && [X, Y][1] == Y;
      assert (e in X.entries <==> e == X0 || e == X1) && (e in Y.entries <==> e == Y0);
    }
    assert EntriesOf(GapLevels()[1]) == iset{F0, F1} && EntriesOf(GapLevels()[2]) == iset{X0, X1, Y0};
    forall e ensures e in LevelEntries(GapLevels()) <==> e in iset{F0, F1, X0, X1, Y0} {
      if e in iset{F0, F1} { assert InFiles(GapLevels()[1], e); }
      if e in iset{X0, X1, Y0} { assert InFiles(GapLevels()[2], e); }
      if l :| 0 <= l < NUM_LEVELS && InFiles(GapLevels()[l], e) {
        assert l == 1 || l == 2 || GapLevels()[l] == [];
      }
    }
  }

  lemma GapOrder()
    ensures forall l, m :: 0 <= l < m < NUM_LEVELS ==> Newer(EntriesOf(GapLevels()[l]), EntriesOf(GapLevels()[m]))
  {
    GapContents();
    forall l, m | 0 <= l < m < NUM_LEVELS ensures Newer(EntriesOf(GapLevels()[l]), EntriesOf(GapLevels()[m])) {
      assert (l == 1 && m == 2) || EntriesOf(GapLevels()[l]) == iset{} || EntriesOf(GapLevels()[m]) == iset{};
    }
  }

  lemma GapUnique(all: Entries)
    requires all == iset{F0, F1, X0, X1, Y0}
    ensures UniqueSeqs(all)
  {
  }

  /** The version of the example is one the engine's invariant allows. */
  lemma GapIsLayered()
    ensures Layered([], None, GapLevels()) && Rest([], None, GapLevels(), INPUT) == iset{Y0}
  {
    GapIsWellFormed();
    GapOrder();
    GapAll();
    GapUnique(Contents([], None, GapLevels()));
    GapLevelsAt();
  }

  lemma GapAll()
    ensures Contents([], None, GapLevels()) == iset{F0, F1, X0, X1, Y0}
    ensures Rest([], None, GapLevels(), INPUT) == iset{Y0}
  {
    GapContents();
    assert Contents([], None, GapLevels()) == iset{F0, F1, X0, X1, Y0};
    assert forall e :: e in INPUT <==> e == F0 || e == X0 || e == F1 || e == X1;
    assert Rest([], None, GapLevels(), INPUT) == iset{Y0};
  }

  lemma GapReads(rest: Entries)
    requires rest == iset{Y0} && Compactable(INPUT, rest)
    ensures Read(Before(INPUT, rest), 3.0, 30) == None
    ensures Read(After(INPUT, 30, BaseKeys(GapLevels(), 1), rest), 3.0, 30) == Some([4])
  {
    var base := BaseKeys(GapLevels(), 1);
    GapResurrects(rest);
    AfterShrinks(INPUT, 30, base, rest);
    MarkerIsNewest(INPUT, 30, base, rest, 3.0, 3, Y0);
    ResurrectedIsNewest(INPUT, 30, base, rest, 3.0, 3, Y0);
    NewestIsVisible(Before(INPUT, rest), 3.0, 30, INPUT[3]);
    NewestIsVisible(After(INPUT, 30, base, rest), 3.0, 30, Y0);
  }

  lemma GapBefore()
    ensures Contents([], None, GapLevels()) == Before(INPUT, iset{Y0})
  {
    GapAll();
    assert forall e :: e in INPUT <==> e == F0 || e == X0 || e == F1 || e == X1;
  }

  /** The deleted value is read again after the compaction. */
  lemma NextLevelGapBringsBackDeletedValue()
    ensures Layered([], None, GapLevels()) && Picked(GapLevels(), 1, [F], [X])
    ensures Contents([], None, GapLevels()) == Before(INPUT, iset{Y0})
    ensures SetOf(INPUT) == InputEntries([F], [X]) && Sorted(INPUT)
    ensures Read(Before(INPUT, iset{Y0}), 3.0, 30) == None
    ensures Read(After(INPUT, 30, BaseKeys(GapLevels(), 1), iset{Y0}), 3.0, 30) == Some([4])
  {
    GapIsWellFormed();
    GapIsLayered();
    GapBefore();
    GapIsPicked();
    GapInputs();
    var rest := GapRest();
    GapReads(rest);
  }
}
