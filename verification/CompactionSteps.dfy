/** Installing a compaction: why the picked inputs are safe to merge, what the installed version
  keeps, and when its reads are unchanged. */
module CompactionSteps {
  import opened DbFormat
  import opened Version
  import opened CompactionInputs
  import opened CompactionWork
  import opened Lookup
  import opened LayerSteps

  ghost function InputEntries(inputs0: Files, inputs1: Files): Entries {
    EntriesOf(inputs0) + EntriesOf(inputs1)
  }

  /** The version after replacing the inputs by `outputs` one level down. */
  ghost predicate Replaces(levels: Levels, levels': Levels, level: nat, inputs0: Files, inputs1: Files,
      outputs: Files) {
    && |levels'| == |levels| && level + 1 < |levels|
    && (forall l :: 0 <= l < |levels| ==> Ordered(levels'[l]))
    && (forall l :: 0 <= l < |levels| && l != level && l != level + 1 ==> SameFiles(levels[l], levels'[l]))
    && (forall g :: g in levels'[level] <==> g in levels[level] && g !in inputs0)
    && (forall g :: g in levels'[level + 1] <==> (g in levels[level + 1] && g !in inputs1) || g in outputs)
  }

  ghost predicate OutputsFrom(outputs: Files, inputs0: Files, inputs1: Files) {
    && AllWellFormed(outputs) && LevelSorted(outputs)
    && EntriesOf(outputs) <= InputEntries(inputs0, inputs1)
  }

  // ---------------------------------------------------------------------------
  // Files outside the compaction
  // ---------------------------------------------------------------------------

  lemma EntryOfFiles(files: Files, e: Entry) returns (f: FileMetaData)
    requires e in EntriesOf(files)
    ensures f in files && e in f.entries
  {
    var i :| 0 <= i < |files| && e in files[i].entries;
    f := files[i];
  }

  lemma FileOfLevel(files: Files, f: FileMetaData)
    requires f in files
    ensures AllWellFormed(files) ==> WellFormed(f)
    ensures forall e :: e in f.entries ==> e in EntriesOf(files)
  {
    var i :| 0 <= i < |files| && files[i] == f;
    forall e | e in f.entries ensures InFiles(files, e) {
      assert e in files[i].entries;
    }
  }

  /** The range test of the next level's inputs, unfolded. */
  lemma NextLevelSplit(levels: Levels, level: nat, inputs0: Files, inputs1: Files, next: Files)
    returns (lo: UserKey, hi: UserKey, a: nat, b: nat)
    requires GoodLevels(levels) && level + 1 < NUM_LEVELS && Picked(levels, level, inputs0, inputs1)
    requires next == levels[level + 1]
    ensures RangeOf(inputs0, lo, hi)
    ensures a <= b <= |next| && inputs1 == next[a..b]
    ensures forall i :: 0 <= i < a ==> next[i].largest.user < lo
    ensures forall i :: b <= i < |next| ==> hi < next[i].smallest.user
  {
    lo, hi := RangeExists(inputs0);
    a, b := SplitAround(levels[level + 1], Some(lo), Some(hi));
  }

  ghost predicate BeforeAll(f: FileMetaData, es: Entries) {
    forall e :: e in es ==> Less(f.largest, e.key)
  }

  ghost predicate AfterAll(f: FileMetaData, es: Entries) {
    forall e :: e in es ==> Less(e.key, f.smallest)
  }

  lemma RangeBoundsEntries(files: Files, lo: UserKey, hi: UserKey, e: Entry)
    requires AllWellFormed(files) && RangeOf(files, lo, hi) && e in EntriesOf(files)
    ensures lo <= e.key.user <= hi
  {
    var f := EntryOfFiles(files, e);
    FileOfLevel(files, f);
    EntryInBounds(f, e);
  }

  /** A next-level file that is not an input lies wholly before or wholly after every input entry. */
  lemma OutsideIsApart(levels: Levels, level: nat, inputs0: Files, inputs1: Files, g: FileMetaData)
    requires GoodLevels(levels) && level + 1 < NUM_LEVELS && Picked(levels, level, inputs0, inputs1)
    requires g in levels[level + 1] && g !in inputs1
    ensures BeforeAll(g, InputEntries(inputs0, inputs1)) || AfterAll(g, InputEntries(inputs0, inputs1))
  {
    var next := levels[level + 1];
    var lo, hi, a, b := NextLevelSplit(levels, level, inputs0, inputs1, levels[level + 1]);
    var i :| 0 <= i < |next| && next[i] == g;
    SliceMembers(next, a, b);
    SubsetWellFormed(levels[level], inputs0);
    forall e | e in InputEntries(inputs0, inputs1)
      ensures if i < a then Less(g.largest, e.key) else Less(e.key, g.smallest)
    {
      if e in EntriesOf(inputs0) {
        RangeBoundsEntries(inputs0, lo, hi, e);
      } else {
        var j := InputIndex(next, a, b, e);
        EntryInBounds(next[j], e);
        assert i < j ==> Less(next[i].largest, next[j].smallest);
        assert j < i ==> Less(next[j].largest, next[i].smallest);
      }
    }
  }

  lemma SliceMembers(files: Files, a: nat, b: nat)
    requires a <= b <= |files|
    ensures forall i :: a <= i < b ==> files[i] in files[a..b]
  {
    forall i | a <= i < b ensures files[i] in files[a..b] {
      assert files[a..b][i - a] == files[i];
    }
  }

  lemma InputIndex(files: Files, a: nat, b: nat, e: Entry) returns (j: nat)
    requires a <= b <= |files| && e in EntriesOf(files[a..b])
    ensures a <= j < b && e in files[j].entries
  {
    var m :| 0 <= m < b - a && e in files[a..b][m].entries;
    j := a + m;
  }

  /** In level 0 a file that is not an input shares no user key with one. */
  lemma Level0RestSharesNothing(files: Files, inputs0: Files, g: FileMetaData, d: Entry, e: Entry)
    requires AllWellFormed(files) && HullClosed(files, inputs0) && inputs0 != []
        && (forall f :: f in inputs0 ==> f in files)
    requires g in files && g !in inputs0 && d in g.entries && e in EntriesOf(inputs0)
    ensures d.key.user != e.key.user
  {
    var lo, hi := RangeExists(inputs0);
    SubsetWellFormed(files, inputs0);
    RangeBoundsEntries(inputs0, lo, hi, e);
    FileOfLevel(files, g);
    EntryInBounds(g, d);
    assert !Overlaps(g, Some(lo), Some(hi));
  }

  /** Above level 0, boundary closure leaves no older entries of an input's user key behind. */
  lemma RunRestIsNewer(files: Files, inputs0: Files, g: FileMetaData, d: Entry, e: Entry)
    requires AllWellFormed(files) && LevelSorted(files) && UniqueSeqs(EntriesOf(files))
    requires IsRun(inputs0, files) && BoundaryClosed(files, inputs0)
    requires g in files && g !in inputs0 && d in g.entries && e in EntriesOf(inputs0) && d.key.user == e.key.user
    ensures d.key.seqno > e.key.seqno
  {
    var a, b :| 0 <= a <= b <= |files| && inputs0 == files[a..b];
    var j := InputIndex(files, a, b, e);
    var i :| 0 <= i < |files| && files[i] == g;
    SliceMembers(files, a, b);
    if i < a {
      EarlierFileNewer(files, i, j, d, e);
    } else {
      RunEndsBefore(files, a, b, j, i, d, e);
    }
  }

  lemma RunEndsBefore(files: Files, a: nat, b: nat, j: nat, i: nat, d: Entry, e: Entry)
    requires AllWellFormed(files) && LevelSorted(files) && a <= j < b <= i < |files|
    requires BoundaryClosed(files, files[a..b]) && e in files[j].entries && d in files[i].entries
    ensures d.key.user != e.key.user
  {
    var last := files[b - 1];
    LastIsLargest(files, a, b);
    EntryInBounds(files[j], e);
    EntryInBounds(files[i], d);
    LevelAscends(files);
    assert files[i] in files;
    assert !IsBoundary(files[i], last.largest);
    assert Less(last.largest, files[i].smallest);
    assert j < b - 1 ==> Less(files[j].largest, last.largest);
  }

  lemma LastIsLargest(files: Files, a: nat, b: nat)
    requires AllWellFormed(files) && LevelSorted(files) && a < b <= |files|
    ensures IsLargest(files[a..b], files[b - 1].largest)
  {
    LevelAscends(files);
    assert files[a..b][b - 1 - a] == files[b - 1];
    forall f | f in files[a..b] ensures !Less(files[b - 1].largest, f.largest) {
      var m :| 0 <= m < b - a && files[a..b][m] == f;
      assert files[a + m] == f;
    }
  }

  /** Whatever stays behind at the level is newer than every input entry of the same key. */
  lemma LevelRestIsNewer(levels: Levels, level: nat, inputs0: Files, inputs1: Files, g: FileMetaData, d: Entry,
      e: Entry)
    requires GoodLevels(levels) && level + 1 < NUM_LEVELS && Picked(levels, level, inputs0, inputs1)
    requires UniqueSeqs(EntriesOf(levels[level])) && Newer(EntriesOf(levels[level]), EntriesOf(levels[level + 1]))
    requires g in levels[level] && g !in inputs0 && d in g.entries && d.key.user == e.key.user
    requires e in InputEntries(inputs0, inputs1)
    ensures d.key.seqno > e.key.seqno
  {
    FileOfLevel(levels[level], g);
    if e in EntriesOf(inputs0) {
      if level == 0 {
        Level0RestSharesNothing(levels[0], inputs0, g, d, e);
      } else {
        RunRestIsNewer(levels[level], inputs0, g, d, e);
      }
    } else {
      InputsAreLevelEntries(levels, level, inputs0, inputs1);
    }
  }

  lemma InputsAreLevelEntries(levels: Levels, level: nat, inputs0: Files, inputs1: Files)
    requires GoodLevels(levels) && level + 1 < NUM_LEVELS && Picked(levels, level, inputs0, inputs1)
    ensures EntriesOf(inputs0) <= EntriesOf(levels[level])
    ensures EntriesOf(inputs1) <= EntriesOf(levels[level + 1])
    ensures forall f :: f in inputs1 ==> f in levels[level + 1]
    ensures InputEntries(inputs0, inputs1) <= LevelEntries(levels)
  {
    forall e | e in EntriesOf(inputs0) ensures e in EntriesOf(levels[level]) {
      var f := EntryOfFiles(inputs0, e);
      FileOfLevel(levels[level], f);
    }
    var lo, hi, a, b := NextLevelSplit(levels, level, inputs0, inputs1, levels[level + 1]);
    forall e | e in EntriesOf(inputs1) ensures e in EntriesOf(levels[level + 1]) {
      var j := InputIndex(levels[level + 1], a, b, e);
    }
  }

  // ---------------------------------------------------------------------------
  // The installed version
  // ---------------------------------------------------------------------------

  lemma OutputFileIn(outputs: Files, inputs0: Files, inputs1: Files, h: FileMetaData)
    requires OutputsFrom(outputs, inputs0, inputs1) && h in outputs
    ensures WellFormed(h) && forall e :: e in h.entries ==> e in InputEntries(inputs0, inputs1)
    ensures h.entries[0] in InputEntries(inputs0, inputs1)
        && h.entries[|h.entries| - 1] in InputEntries(inputs0, inputs1)
  {
    FileOfLevel(outputs, h);
    assert h.entries[0] in h.entries;
    assert h.entries[|h.entries| - 1] in h.entries;
  }

  /** Outputs fit between the files of the next level that were left alone. */
  lemma InstalledLevelSorted(levels: Levels, levels': Levels, level: nat, inputs0: Files, inputs1: Files,
      outputs: Files)
    requires GoodLevels(levels) && level + 1 < NUM_LEVELS && Picked(levels, level, inputs0, inputs1)
    requires Replaces(levels, levels', level, inputs0, inputs1, outputs) && OutputsFrom(outputs, inputs0, inputs1)
    ensures AllWellFormed(levels'[level + 1]) && LevelSorted(levels'[level + 1])
  {
    var files, next := levels'[level + 1], levels[level + 1];
    SubsetWellFormedUnion(next, outputs, files);
    forall f, g | f in files && g in files && f != g
        ensures Less(f.largest, g.smallest) || Less(g.largest, f.smallest) {
      if f in outputs && g in outputs {
        SortedLevelIsDisjoint(outputs, f, g);
      } else if f in outputs {
        OutputFileIn(outputs, inputs0, inputs1, f);
        OutsideIsApart(levels, level, inputs0, inputs1, g);
      } else if g in outputs {
        OutputFileIn(outputs, inputs0, inputs1, g);
        OutsideIsApart(levels, level, inputs0, inputs1, f);
      } else {
        SortedLevelIsDisjoint(next, f, g);
      }
    }
    OrderedDisjointIsSorted(files);
  }

  lemma SubsetWellFormedUnion(a: Files, b: Files, files: Files)
    requires AllWellFormed(a) && AllWellFormed(b) && forall f :: f in files ==> f in a || f in b
    ensures AllWellFormed(files)
  {
    forall i | 0 <= i < |files| ensures WellFormed(files[i]) {
      assert files[i] in files;
    }
  }

  lemma InstalledGoodLevels(levels: Levels, levels': Levels, level: nat, inputs0: Files, inputs1: Files, outputs: Files)
    requires GoodLevels(levels) && level + 1 < NUM_LEVELS && Picked(levels, level, inputs0, inputs1)
    requires Replaces(levels, levels', level, inputs0, inputs1, outputs) && OutputsFrom(outputs, inputs0, inputs1)
    ensures GoodLevels(levels')
  {
    InstalledLevelSorted(levels, levels', level, inputs0, inputs1, outputs);
    forall l | 0 <= l < NUM_LEVELS ensures AllWellFormed(levels'[l]) && (l > 0 ==> LevelSorted(levels'[l])) {
      if l != level + 1 {
        SubLevel(levels[l], levels'[l]);
      }
    }
  }

  /** Where an entry of the installed version comes from. */
  lemma InstalledEntrySource(levels: Levels, levels': Levels, level: nat, inputs0: Files, inputs1: Files,
      outputs: Files, l: nat, e: Entry)
    requires Replaces(levels, levels', level, inputs0, inputs1, outputs) && OutputsFrom(outputs, inputs0, inputs1)
    requires l < |levels| && e in EntriesOf(levels'[l])
    ensures l != level + 1 ==> e in EntriesOf(levels[l])
    ensures l == level ==> exists g :: g in levels[level] && g !in inputs0 && e in g.entries
    ensures l == level + 1 ==> e in EntriesOf(levels[l]) || e in InputEntries(inputs0, inputs1)
  {
    var g := EntryOfFiles(levels'[l], e);
    if l == level + 1 && g in outputs {
      FileOfLevel(outputs, g);
    } else {
      FileOfLevel(levels[l], g);
    }
  }

  lemma InstalledLevelOrder(levels: Levels, levels': Levels, level: nat, inputs0: Files, inputs1: Files, outputs: Files)
    requires GoodLevels(levels) && level + 1 < NUM_LEVELS && Picked(levels, level, inputs0, inputs1)
    requires Replaces(levels, levels', level, inputs0, inputs1, outputs) && OutputsFrom(outputs, inputs0, inputs1)
    requires UniqueSeqs(EntriesOf(levels[level]))
    requires forall l, m :: 0 <= l < m < NUM_LEVELS ==> Newer(EntriesOf(levels[l]), EntriesOf(levels[m]))
    ensures forall l, m :: 0 <= l < m < NUM_LEVELS ==> Newer(EntriesOf(levels'[l]), EntriesOf(levels'[m]))
  {
    forall l, m, d, e | 0 <= l < m < NUM_LEVELS && d in EntriesOf(levels'[l]) && e in EntriesOf(levels'[m])
        && d.key.user == e.key.user
      ensures d.key.seqno > e.key.seqno
    {
      InstalledPair(levels, levels', level, inputs0, inputs1, outputs, l, m, d, e);
    }
  }

  lemma InstalledPair(levels: Levels, levels': Levels, level: nat, inputs0: Files, inputs1: Files, outputs: Files,
      l: nat, m: nat, d: Entry, e: Entry)
    requires GoodLevels(levels) && level + 1 < NUM_LEVELS && Picked(levels, level, inputs0, inputs1)
    requires Replaces(levels, levels', level, inputs0, inputs1, outputs) && OutputsFrom(outputs, inputs0, inputs1)
    requires UniqueSeqs(EntriesOf(levels[level]))
    requires forall l, m :: 0 <= l < m < NUM_LEVELS ==> Newer(EntriesOf(levels[l]), EntriesOf(levels[m]))
    requires l < m < NUM_LEVELS && d in EntriesOf(levels'[l]) && e in EntriesOf(levels'[m]) && d.key.user == e.key.user
    ensures d.key.seqno > e.key.seqno
  {
    InstalledEntrySource(levels, levels', level, inputs0, inputs1, outputs, l, d);
    InstalledEntrySource(levels, levels', level, inputs0, inputs1, outputs, m, e);
    InputsAreLevelEntries(levels, level, inputs0, inputs1);
    assert Newer(EntriesOf(levels[l]), EntriesOf(levels[m]));
    if l == level && m == level + 1 && e in InputEntries(inputs0, inputs1) {
      var g :| g in levels[level] && g !in inputs0 && d in g.entries;
      LevelRestIsNewer(levels, level, inputs0, inputs1, g, d, e);
    } else {
      assert l < level ==>
          Newer(EntriesOf(levels[l]), EntriesOf(levels[level]))
          && Newer(EntriesOf(levels[l]), EntriesOf(levels[level + 1]));
      assert level < m ==> Newer(EntriesOf(levels[level]), EntriesOf(levels[m]));
      assert level + 1 < m ==> Newer(EntriesOf(levels[level + 1]), EntriesOf(levels[m]));
    }
  }

  lemma InstalledEntriesShrink(levels: Levels, levels': Levels, level: nat, inputs0: Files, inputs1: Files,
      outputs: Files)
    requires GoodLevels(levels) && level + 1 < NUM_LEVELS && Picked(levels, level, inputs0, inputs1)
    requires Replaces(levels, levels', level, inputs0, inputs1, outputs) && OutputsFrom(outputs, inputs0, inputs1)
    ensures LevelEntries(levels') <= LevelEntries(levels)
  {
    InputsAreLevelEntries(levels, level, inputs0, inputs1);
    forall e | e in LevelEntries(levels') ensures e in LevelEntries(levels) {
      var l :| 0 <= l < |levels'| && InFiles(levels'[l], e);
      assert e in EntriesOf(levels'[l]);
      InstalledEntrySource(levels, levels', level, inputs0, inputs1, outputs, l, e);
      assert e !in EntriesOf(levels[l]) ==> e in EntriesOf(inputs0) || e in EntriesOf(inputs1);
    }
  }

  lemma InstalledLevel0(levels: Levels, levels': Levels, level: nat, inputs0: Files, inputs1: Files, outputs: Files)
    requires GoodLevels(levels) && level + 1 < NUM_LEVELS
    requires Replaces(levels, levels', level, inputs0, inputs1, outputs)
    requires NumbersDiffer(levels[0]) && NewestNumberFirst(levels[0])
    ensures NumbersDiffer(levels'[0]) && NewestNumberFirst(levels'[0])
  {
    var files := levels'[0];
    FilesAreDistinct(files);
    forall i | 0 <= i < |files| ensures files[i] in levels[0] {
      assert files[i] in files;
    }
    forall i, j | 0 <= i < |files| && 0 <= j < |files| && files[i].number > files[j].number
      ensures Newer(FileEntries(files[i]), FileEntries(files[j]))
    {
      NewestFirstPair(levels[0], files[i], files[j]);
    }
    forall i, j | 0 <= i < j < |files| ensures files[i].number != files[j].number {
      SameNumberSameFile(levels[0], files[i], files[j]);
    }
  }

  lemma SameNumberSameFile(files: Files, f: FileMetaData, g: FileMetaData)
    requires NumbersDiffer(files) && f in files && g in files
    ensures f.number == g.number ==> f == g
  {
    var i :| 0 <= i < |files| && files[i] == f;
    var j :| 0 <= j < |files| && files[j] == g;
  }

  /** Installing a compaction's outputs keeps the order between layers. */
  lemma InstallKeepsLayered(mem: seq<Entry>, imm: Option<seq<Entry>>, levels: Levels, levels': Levels, level: nat,
      inputs0: Files, inputs1: Files, outputs: Files)
    requires Layered(mem, imm, levels) && level + 1 < NUM_LEVELS && Picked(levels, level, inputs0, inputs1)
    requires Replaces(levels, levels', level, inputs0, inputs1, outputs) && OutputsFrom(outputs, inputs0, inputs1)
    ensures Layered(mem, imm, levels') && Contents(mem, imm, levels') <= Contents(mem, imm, levels)
  {
    InstalledGoodLevels(levels, levels', level, inputs0, inputs1, outputs);
    assert EntriesOf(levels[level]) <= Contents(mem, imm, levels) by {
      forall e | e in EntriesOf(levels[level]) ensures e in Contents(mem, imm, levels) {
        LevelInContents(mem, imm, levels, level, e);
      }
    }
    InstalledLevelOrder(levels, levels', level, inputs0, inputs1, outputs);
    InstalledEntriesShrink(levels, levels', level, inputs0, inputs1, outputs);
    InstalledLevel0(levels, levels', level, inputs0, inputs1, outputs);
  }

  // ---------------------------------------------------------------------------
  // Reads before and after
  // ---------------------------------------------------------------------------

  /** The sorted stream a compaction reads and the outputs it wrote. */
  ghost predicate Merges(levels: Levels, level: nat, inputs0: Files, inputs1: Files, input: seq<Entry>, snapshot: nat,
      outputs: Files) {
    && Sorted(input) && SetOf(input) == InputEntries(inputs0, inputs1)
    && AllWellFormed(outputs) && LevelSorted(outputs)
    && Flatten(outputs) == Survivors(input, |input|, snapshot, BaseKeys(levels, level))
  }

  lemma {:induction false} FlattenIsEntries(files: Files)
    ensures SetOf(Flatten(files)) == EntriesOf(files)
  {
    if files != [] {
      var front, f := files[..|files| - 1], files[|files| - 1];
      FlattenIsEntries(front);
      assert files == front + [f];
      AppendEntries(front, f);
      assert forall e :: e in Flatten(files) <==> e in Flatten(front) || e in f.entries;
      assert SetOf(Flatten(files)) == SetOf(Flatten(front)) + FileEntries(f);
    }
  }

  lemma MergedOutputsFrom(levels: Levels, level: nat, inputs0: Files, inputs1: Files, input: seq<Entry>, snapshot: nat,
      outputs: Files)
    requires Merges(levels, level, inputs0, inputs1, input, snapshot, outputs)
    ensures OutputsFrom(outputs, inputs0, inputs1)
    ensures EntriesOf(outputs) == SetOf(Survivors(input, |input|, snapshot, BaseKeys(levels, level)))
  {
    FlattenIsEntries(outputs);
    forall e | e in EntriesOf(outputs) ensures e in SetOf(input) {
      SurvivorsExactly(input, |input|, snapshot, BaseKeys(levels, level), e);
    }
  }

  ghost predicate IsInput(level: nat, inputs0: Files, inputs1: Files, l: nat, g: FileMetaData) {
    (l == level && g in inputs0) || (l == level + 1 && g in inputs1)
  }

  /** No entry of the compaction is also held outside it. */
  lemma RestIsDisjoint(levels: Levels, level: nat, inputs0: Files, inputs1: Files, l: nat, g: FileMetaData, e: Entry)
    requires GoodLevels(levels) && level + 1 < NUM_LEVELS && Picked(levels, level, inputs0, inputs1)
    requires UniqueSeqs(LevelEntries(levels))
    requires forall l, m :: 0 <= l < m < NUM_LEVELS ==> Newer(EntriesOf(levels[l]), EntriesOf(levels[m]))
    requires l < NUM_LEVELS && g in levels[l] && !IsInput(level, inputs0, inputs1, l, g) && e in g.entries
    ensures e !in InputEntries(inputs0, inputs1)
  {
    FileOfLevel(levels[l], g);
    InputsAreLevelEntries(levels, level, inputs0, inputs1);
    if l == level {
      if e in InputEntries(inputs0, inputs1) {
        LevelUnique(levels, level);
        LevelRestIsNewer(levels, level, inputs0, inputs1, g, e, e);
      }
    } else if l == level + 1 {
      OutsideIsApart(levels, level, inputs0, inputs1, g);
      EntryInBounds(g, e);
    } else {
      assert forall m :: l < m < NUM_LEVELS ==> Newer(EntriesOf(levels[l]), EntriesOf(levels[m]));
      assert forall m :: 0 <= m < l ==> Newer(EntriesOf(levels[m]), EntriesOf(levels[l]));
      assert e in EntriesOf(levels[l]);
    }
  }

  lemma LevelUnique(levels: Levels, l: nat)
    requires UniqueSeqs(LevelEntries(levels)) && l < |levels|
    ensures UniqueSeqs(EntriesOf(levels[l]))
  {
    forall e | e in EntriesOf(levels[l]) ensures e in LevelEntries(levels) {
      assert InFiles(levels[l], e);
    }
  }

  /** What is not compacted: everything but the entries of the input stream. */
  ghost function Rest(mem: seq<Entry>, imm: Option<seq<Entry>>, levels: Levels, input: seq<Entry>): Entries {
    Contents(mem, imm, levels) - SetOf(input)
  }

  /** An entry outside the compaction sits in the memtables or in a file that is not an input. */
  lemma RestSource(mem: seq<Entry>, imm: Option<seq<Entry>>, levels: Levels, level: nat, inputs0: Files, inputs1: Files,
      input: seq<Entry>, e: Entry)
    returns (l: nat, g: FileMetaData)
    requires Layered(mem, imm, levels) && level + 1 < NUM_LEVELS && Picked(levels, level, inputs0, inputs1)
    requires SetOf(input) == InputEntries(inputs0, inputs1)
    requires e in Rest(mem, imm, levels, input) && e !in SetOf(mem) && e !in ImmEntries(imm)
    ensures l < NUM_LEVELS && g in levels[l] && e in g.entries && !IsInput(level, inputs0, inputs1, l, g)
  {
    l :| 0 <= l < |levels| && InFiles(levels[l], e);
    var i :| 0 <= i < |levels[l]| && e in levels[l][i].entries;
    g := levels[l][i];
    FileOfLevel(inputs0 + [g], g);
    if g in inputs0 {
      FileOfLevel(inputs0, g);
    }
    if g in inputs1 {
      FileOfLevel(inputs1, g);
    }
  }

  lemma InstalledHasRest(mem: seq<Entry>, imm: Option<seq<Entry>>, levels: Levels, levels': Levels, level: nat,
      inputs0: Files, inputs1: Files,
                         outputs: Files, input: seq<Entry>, e: Entry)
    requires Layered(mem, imm, levels) && level + 1 < NUM_LEVELS && Picked(levels, level, inputs0, inputs1)
    requires SetOf(input) == InputEntries(inputs0, inputs1)
        && Replaces(levels, levels', level, inputs0, inputs1, outputs)
    requires e in Rest(mem, imm, levels, input) || e in EntriesOf(outputs)
    ensures e in Contents(mem, imm, levels')
  {
    if e in EntriesOf(outputs) {
      var g := EntryOfFiles(outputs, e);
      FileOfLevel(levels'[level + 1], g);
      LevelInContents(mem, imm, levels', level + 1, e);
    } else if e !in SetOf(mem) && e !in ImmEntries(imm) {
      var l, g := RestSource(mem, imm, levels, level, inputs0, inputs1, input, e);
      assert g in levels'[l];
      FileOfLevel(levels'[l], g);
      LevelInContents(mem, imm, levels', l, e);
    }
  }

  lemma InstalledIsRestOrOutput(mem: seq<Entry>, imm: Option<seq<Entry>>, levels: Levels, levels': Levels, level: nat,
      inputs0: Files, inputs1: Files,
                                outputs: Files, input: seq<Entry>, e: Entry)
    requires Layered(mem, imm, levels) && level + 1 < NUM_LEVELS && Picked(levels, level, inputs0, inputs1)
    requires SetOf(input) == InputEntries(inputs0, inputs1)
        && Replaces(levels, levels', level, inputs0, inputs1, outputs)
    requires e in Contents(mem, imm, levels')
    ensures e in Rest(mem, imm, levels, input) || e in EntriesOf(outputs)
  {
    InputsAreLevelEntries(levels, level, inputs0, inputs1);
    if e !in SetOf(mem) && e !in ImmEntries(imm) {
      var l :| 0 <= l < |levels'| && InFiles(levels'[l], e);
      assert e in EntriesOf(levels'[l]);
      var g := EntryOfFiles(levels'[l], e);
      if l == level + 1 && g in outputs {
        FileOfLevel(outputs, g);
      } else {
        assert g in levels[l] && !IsInput(level, inputs0, inputs1, l, g);
        assert UniqueSeqs(LevelEntries(levels));
        RestIsDisjoint(levels, level, inputs0, inputs1, l, g, e);
        FileOfLevel(levels[l], g);
        LevelInContents(mem, imm, levels, l, e);
      }
    }
  }

  /** Contents before and after, in the form the drop-rule theorem speaks of. */
  lemma ContentsAcrossCompaction(mem: seq<Entry>, imm: Option<seq<Entry>>, levels: Levels, levels': Levels, level: nat,
      inputs0: Files, inputs1: Files,
                                 outputs: Files, input: seq<Entry>, snapshot: nat)
    requires Layered(mem, imm, levels) && level + 1 < NUM_LEVELS && Picked(levels, level, inputs0, inputs1)
    requires Merges(levels, level, inputs0, inputs1, input, snapshot, outputs)
    requires Replaces(levels, levels', level, inputs0, inputs1, outputs)
    ensures var rest := Rest(mem, imm, levels, input);
            && Compactable(input, rest)
            && Contents(mem, imm, levels) == Before(input, rest)
            && Contents(mem, imm, levels') == After(input, snapshot, BaseKeys(levels, level), rest)
  {
    var rest := Rest(mem, imm, levels, input);
    MergedOutputsFrom(levels, level, inputs0, inputs1, input, snapshot, outputs);
    InputsAreLevelEntries(levels, level, inputs0, inputs1);
    assert Before(input, rest) == Contents(mem, imm, levels);
    forall e ensures e in Contents(mem, imm, levels') <==> e in After(input, snapshot, BaseKeys(levels, level), rest) {
      if e in Contents(mem, imm, levels') {
        InstalledIsRestOrOutput(mem, imm, levels, levels', level, inputs0, inputs1, outputs, input, e);
      }
      if e in rest || e in EntriesOf(outputs) {
        InstalledHasRest(mem, imm, levels, levels', level, inputs0, inputs1, outputs, input, e);
      }
    }
  }

  /** If boundary closure held at the next level too, nothing outside the compaction is older than
      a marker it drops. The source closes only the upper level, so this is a hypothesis. */
  lemma RestOlderIsDeeper(mem: seq<Entry>, imm: Option<seq<Entry>>, levels: Levels, level: nat, inputs0: Files,
      inputs1: Files, input: seq<Entry>, t: Entry, r: Entry)
    requires Layered(mem, imm, levels) && level + 1 < NUM_LEVELS && Picked(levels, level, inputs0, inputs1)
    requires BoundaryClosed(levels[level + 1], inputs1) && SetOf(input) == InputEntries(inputs0, inputs1)
    requires t in SetOf(input) && r in Rest(mem, imm, levels, input) && r.key.user == t.key.user
        && r.key.seqno < t.key.seqno
    ensures !IsBase(levels, level, t.key.user)
  {
    InputsAreLevelEntries(levels, level, inputs0, inputs1);
    assert r !in SetOf(mem) && r !in ImmEntries(imm);
    var l, g := RestSource(mem, imm, levels, level, inputs0, inputs1, input, r);
    assert UniqueSeqs(LevelEntries(levels));
    OlderOnlyBelow(levels, level, inputs0, inputs1, l, g, t, r);
    EntryInBounds(g, r);
    var i :| 0 <= i < |levels[l]| && levels[l][i] == g;
  }

  lemma OlderOnlyBelow(levels: Levels, level: nat, inputs0: Files, inputs1: Files, l: nat, g: FileMetaData, t: Entry,
      r: Entry)
    requires GoodLevels(levels) && level + 1 < NUM_LEVELS && Picked(levels, level, inputs0, inputs1)
    requires UniqueSeqs(LevelEntries(levels))
    requires forall l, m :: 0 <= l < m < NUM_LEVELS ==> Newer(EntriesOf(levels[l]), EntriesOf(levels[m]))
    requires BoundaryClosed(levels[level + 1], inputs1) && l < NUM_LEVELS
    requires g in levels[l] && r in g.entries && !IsInput(level, inputs0, inputs1, l, g)
    requires t in InputEntries(inputs0, inputs1) && r.key.user == t.key.user && r.key.seqno < t.key.seqno
    ensures l >= level + 2 && WellFormed(g)
  {
    FileOfLevel(levels[l], g);
    InputsAreLevelEntries(levels, level, inputs0, inputs1);
    if l < level {
      ShallowerIsNewer(levels, l, level, r, t);
    } else if l == level {
      LevelUnique(levels, level);
      LevelRestIsNewer(levels, level, inputs0, inputs1, g, r, t);
    } else if l == level + 1 {
      NextLevelRestIsNewer(levels, level, inputs0, inputs1, g, r, t);
    }
  }

  lemma ShallowerIsNewer(levels: Levels, l: nat, level: nat, r: Entry, t: Entry)
    requires |levels| == NUM_LEVELS && l < level && level + 1 < NUM_LEVELS && r.key.user == t.key.user
    requires forall l, m :: 0 <= l < m < NUM_LEVELS ==> Newer(EntriesOf(levels[l]), EntriesOf(levels[m]))
    requires r in EntriesOf(levels[l]) && (t in EntriesOf(levels[level]) || t in EntriesOf(levels[level + 1]))
    ensures r.key.seqno > t.key.seqno
  {
    assert Newer(EntriesOf(levels[l]), EntriesOf(levels[level]));
    assert Newer(EntriesOf(levels[l]), EntriesOf(levels[level + 1]));
  }

  lemma NextLevelRestIsNewer(levels: Levels, level: nat, inputs0: Files, inputs1: Files, g: FileMetaData, r: Entry,
      t: Entry)
    requires GoodLevels(levels) && level + 1 < NUM_LEVELS && Picked(levels, level, inputs0, inputs1)
    requires BoundaryClosed(levels[level + 1], inputs1)
    requires g in levels[level + 1] && g !in inputs1 && r in g.entries
    requires t in InputEntries(inputs0, inputs1) && r.key.user == t.key.user
    ensures r.key.seqno >= t.key.seqno
  {
    var next := levels[level + 1];
    var lo, hi, a, b := NextLevelSplit(levels, level, inputs0, inputs1, next);
    var i :| 0 <= i < |next| && next[i] == g;
    SliceMembers(next, a, b);
    SubsetWellFormed(levels[level], inputs0);
    EntryInBounds(g, r);
    OutsideIsApart(levels, level, inputs0, inputs1, g);
    if i >= b {
      if t in EntriesOf(inputs0) {
        RangeBoundsEntries(inputs0, lo, hi, t);
      } else {
        var j := InputIndex(next, a, b, t);
        RunEndsBefore(next, a, b, j, i, r, t);
      }
    } else if t in EntriesOf(inputs0) {
      RangeBoundsEntries(inputs0, lo, hi, t);
    } else {
      var j := InputIndex(next, a, b, t);
      LaterFileLaterKey(next, i, j, r, t);
    }
  }

  /** Compaction preserves reads: with the next level's boundary closed as well, every key reads the
      same at every snapshot the compaction must honour. */
  lemma CompactionPreservesReads(mem: seq<Entry>, imm: Option<seq<Entry>>, levels: Levels, levels': Levels, level: nat,
      inputs0: Files, inputs1: Files,
                                 outputs: Files, input: seq<Entry>, snapshot: nat, user: UserKey, at: nat)
    requires Layered(mem, imm, levels) && level + 1 < NUM_LEVELS && Picked(levels, level, inputs0, inputs1)
    requires Merges(levels, level, inputs0, inputs1, input, snapshot, outputs)
    requires Replaces(levels, levels', level, inputs0, inputs1, outputs)
    requires BoundaryClosed(levels[level + 1], inputs1) && at >= snapshot
    ensures Read(Contents(mem, imm, levels'), user, at) == Read(Contents(mem, imm, levels), user, at)
  {
    var rest, base := Rest(mem, imm, levels, input), BaseKeys(levels, level);
    ContentsAcrossCompaction(mem, imm, levels, levels', level, inputs0, inputs1, outputs, input, snapshot);
    forall i: nat, r: Entry ensures !Resurrects(input, snapshot, base, rest, user, i, r) {
      if i < |input| && r in rest && input[i].key.user == user == r.key.user && r.key.seqno < input[i].key.seqno {
        RestOlderIsDeeper(mem, imm, levels, level, inputs0, inputs1, input, input[i], r);
      }
    }
    PreservedWithoutResurrection(input, snapshot, base, rest, user, at);
  }

  /** The exact condition: a compaction keeps the reads of a key, at every snapshot it must honour, if and
      only if no deletion it drops uncovers an older value outside its inputs. */
  lemma CompactionPreservesReadsExactly(
      mem: seq<Entry>, imm: Option<seq<Entry>>, levels: Levels, levels': Levels, level: nat,
      inputs0: Files, inputs1: Files, outputs: Files, input: seq<Entry>, snapshot: nat, user: UserKey)
    requires Layered(mem, imm, levels) && level + 1 < NUM_LEVELS && Picked(levels, level, inputs0, inputs1)
    requires Merges(levels, level, inputs0, inputs1, input, snapshot, outputs)
    requires Replaces(levels, levels', level, inputs0, inputs1, outputs)
    ensures KeyReadsAlike(snapshot, Contents(mem, imm, levels'), Contents(mem, imm, levels), user)
      <==> !SomeResurrection(input, snapshot, BaseKeys(levels, level), Rest(mem, imm, levels, input), user)
  {
    var rest, base := Rest(mem, imm, levels, input), BaseKeys(levels, level);
    ContentsAcrossCompaction(mem, imm, levels, levels', level, inputs0, inputs1, outputs, input, snapshot);
    ReadsPreservedExactly(input, snapshot, base, rest, user);
  }
}
