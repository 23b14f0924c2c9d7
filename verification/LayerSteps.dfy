/** What each change of the database's layers keeps: inserting, flushing, moving a file down and
  replacing compaction inputs by outputs all preserve the order between layers. */
module LayerSteps {
  import opened DbFormat
  import opened Version
  import opened CompactionInputs
  import CompactionWork
  import VersionBuilder
  import opened Lookup

  function KeyOf(f: FileMetaData): InternalKey { f.smallest }

  function NumberOf(f: FileMetaData): nat { f.number }

  ghost predicate Ordered(files: Files) {
    VersionBuilder.Ordered(files, KeyOf, NumberOf)
  }

  ghost predicate SameFiles(a: Files, b: Files) {
    forall f :: f in a <==> f in b
  }

  /** File numbers are below the counter and name one file each. */
  ghost predicate Numbered(levels: Levels, nextFileNumber: nat) {
    && (forall l, f {:trigger f in levels[l]} :: 0 <= l < |levels| && f in levels[l] ==> f.number < nextFileNumber)
    && (forall l, m, f, g {:trigger f in levels[l], g in levels[m]} ::
          0 <= l < |levels| && 0 <= m < |levels| && f in levels[l] && g in levels[m] && f.number == g.number ==>
          l == m && f == g)
  }

  /** The invariant of the database between operations. */
  ghost predicate Inv(mem: seq<Entry>, imm: Option<seq<Entry>>, levels: Levels, lastSequence: nat,
      nextFileNumber: nat) {
    && Layered(mem, imm, levels) && Numbered(levels, nextFileNumber)
    && (forall l :: 0 <= l < NUM_LEVELS ==> Ordered(levels[l]))
    && (forall e {:trigger e in Contents(mem, imm, levels)} ::
        e in Contents(mem, imm, levels) ==> e.key.seqno <= lastSequence)
    && lastSequence < MAX_SEQUENCE
  }

  // ---------------------------------------------------------------------------
  // Sets of files
  // ---------------------------------------------------------------------------

  lemma FilesAreDistinct(files: Files)
    requires Ordered(files)
    ensures forall i, j :: 0 <= i < j < |files| ==> files[i] != files[j]
  {
  }

  lemma SameFilesSameEntries(a: Files, b: Files)
    requires SameFiles(a, b)
    ensures EntriesOf(a) == EntriesOf(b)
  {
    forall e ensures InFiles(a, e) <==> InFiles(b, e) {
      if i :| 0 <= i < |a| && e in a[i].entries {
        assert a[i] in b;
      }
      if i :| 0 <= i < |b| && e in b[i].entries {
        assert b[i] in a;
      }
    }
  }

  /** Files in order of smallest key, of which no two overlap, are a sorted level. */
  lemma OrderedDisjointIsSorted(files: Files)
    requires AllWellFormed(files) && Ordered(files)
    requires forall f, g :: f in files && g in files && f != g ==>
        Less(f.largest, g.smallest) || Less(g.largest, f.smallest)
    ensures LevelSorted(files)
  {
    FilesAreDistinct(files);
    forall i, j | 0 <= i < j < |files| ensures Less(files[i].largest, files[j].smallest) {
      BoundsInOrder(files[i]);
      BoundsInOrder(files[j]);
      assert files[i] in files && files[j] in files;
      assert VersionBuilder.FileLess(files[i], files[j], KeyOf, NumberOf);
    }
  }

  lemma SortedLevelIsDisjoint(files: Files, f: FileMetaData, g: FileMetaData)
    requires AllWellFormed(files) && LevelSorted(files) && f in files && g in files && f != g
    ensures Less(f.largest, g.smallest) || Less(g.largest, f.smallest)
  {
    var i :| 0 <= i < |files| && files[i] == f;
    var j :| 0 <= j < |files| && files[j] == g;
    if i < j {
      assert Less(files[i].largest, files[j].smallest);
    } else {
      assert Less(files[j].largest, files[i].smallest);
    }
  }

  lemma SubLevel(files: Files, sub: Files)
    requires AllWellFormed(files) && Ordered(sub) && forall f :: f in sub ==> f in files
    ensures AllWellFormed(sub)
    ensures LevelSorted(files) ==> LevelSorted(sub)
  {
    SubsetWellFormed(files, sub);
    if LevelSorted(files) {
      forall f, g | f in sub && g in sub && f != g ensures Less(f.largest, g.smallest) || Less(g.largest, f.smallest) {
        SortedLevelIsDisjoint(files, f, g);
      }
      OrderedDisjointIsSorted(sub);
    }
  }

  // ---------------------------------------------------------------------------
  // Inserting into the memtable
  // ---------------------------------------------------------------------------

  /** Entries with one user key but different sequence numbers have different keys. */
  lemma DifferentSeqsDifferentKeys(e: Entry, f: Entry)
    requires e.key.user != f.key.user || e.key.seqno != f.key.seqno
    ensures Less(e.key, f.key) || Less(f.key, e.key)
  {
  }

  /** Every entry is older than `e`. */
  ghost predicate AllOlder(es: Entries, e: Entry) {
    forall f {:trigger f in es} :: f in es ==> f.key.seqno < e.key.seqno
  }

  lemma NewestStaysUnique(es: Entries, e: Entry)
    requires UniqueSeqs(es) && AllOlder(es, e)
    ensures UniqueSeqs(es + iset{e})
  {
  }

  lemma NewestStaysNewer(a: Entries, b: Entries, e: Entry)
    requires Newer(a, b) && AllOlder(b, e)
    ensures Newer(a + iset{e}, b)
  {
  }

  lemma InsertIntoContents(mem: seq<Entry>, imm: Option<seq<Entry>>, levels: Levels, e: Entry, mem': seq<Entry>)
    requires SetOf(mem') == SetOf(mem) + iset{e}
    ensures Contents(mem', imm, levels) == Contents(mem, imm, levels) + iset{e}
  {
  }

  lemma InsertKeepsInv(mem: seq<Entry>, imm: Option<seq<Entry>>, levels: Levels, last: nat, next: nat, e: Entry)
    requires Inv(mem, imm, levels, last, next) && e.key.seqno == last + 1 < MAX_SEQUENCE
    ensures forall f :: f in mem ==> Less(f.key, e.key) || Less(e.key, f.key)
    ensures Inv(Insert(mem, e), imm, levels, last + 1, next)
    ensures Contents(Insert(mem, e), imm, levels) == Contents(mem, imm, levels) + iset{e}
  {
    var all := Contents(mem, imm, levels);
    assert AllOlder(all, e) && AllOlder(ImmEntries(imm), e) && AllOlder(LevelEntries(levels), e);
    forall f | f in mem ensures Less(f.key, e.key) || Less(e.key, f.key) {
      assert f in all;
      DifferentSeqsDifferentKeys(e, f);
    }
    var mem' := Insert(mem, e);
    InsertIntoContents(mem, imm, levels, e, mem');
    NewestStaysUnique(all, e);
    NewestStaysNewer(SetOf(mem), ImmEntries(imm), e);
    NewestStaysNewer(SetOf(mem), LevelEntries(levels), e);
  }

  // ---------------------------------------------------------------------------
  // Level 0 and the levels as a whole
  // ---------------------------------------------------------------------------

  lemma LevelInContents(mem: seq<Entry>, imm: Option<seq<Entry>>, levels: Levels, l: nat, e: Entry)
    requires l < |levels| && InFiles(levels[l], e)
    ensures e in Contents(mem, imm, levels) && e in LevelEntries(levels)
  {
  }

  /** Entries of a key in one sorted level get older from file to file. */
  lemma EarlierFileNewer(files: Files, i: nat, j: nat, d: Entry, e: Entry)
    requires AllWellFormed(files) && LevelSorted(files) && UniqueSeqs(EntriesOf(files)) && i < j < |files|
    requires d in files[i].entries && e in files[j].entries && d.key.user == e.key.user
    ensures d.key.seqno > e.key.seqno
  {
    LaterFileLaterKey(files, i, j, d, e);
    assert d in EntriesOf(files) && e in EntriesOf(files);
  }

  // ---------------------------------------------------------------------------
  // Flushing
  // ---------------------------------------------------------------------------

  /** The levels after adding file `f` at level `at`. */
  ghost predicate AddsFile(levels: Levels, levels': Levels, at: nat, f: FileMetaData) {
    && |levels'| == |levels| && at < |levels|
    && (forall l :: 0 <= l < |levels| ==> Ordered(levels'[l]))
    && (forall l, g :: 0 <= l < |levels| ==> (g in levels'[l] <==> g in levels[l] || (l == at && g == f)))
  }

  lemma FlushEntries(levels: Levels, levels': Levels, at: nat, f: FileMetaData)
    requires AddsFile(levels, levels', at, f)
    ensures forall l :: 0 <= l < |levels| ==>
      EntriesOf(levels'[l]) == EntriesOf(levels[l]) + if l == at then FileEntries(f) else iset{}
    ensures LevelEntries(levels') == LevelEntries(levels) + FileEntries(f)
  {
    forall l | 0 <= l < |levels|
      ensures EntriesOf(levels'[l]) == EntriesOf(levels[l]) + if l == at then FileEntries(f) else iset{}
    {
      if l == at {
        SameFilesSameEntries(levels'[l], levels[l] + [f]);
        AppendEntries(levels[l], f);
      } else {
        SameFilesSameEntries(levels'[l], levels[l]);
      }
    }
    forall e ensures e in LevelEntries(levels') <==> e in LevelEntries(levels) + FileEntries(f) {
      if e in LevelEntries(levels') {
        var l :| 0 <= l < |levels'| && InFiles(levels'[l], e);
        assert e in EntriesOf(levels'[l]);
      }
      if e in LevelEntries(levels) {
        var l :| 0 <= l < |levels| && InFiles(levels[l], e);
        assert e in EntriesOf(levels[l]) && e in EntriesOf(levels'[l]);
      }
      if e in FileEntries(f) {
        assert e in EntriesOf(levels'[at]);
      }
    }
  }

  lemma AppendEntries(files: Files, f: FileMetaData)
    ensures EntriesOf(files + [f]) == EntriesOf(files) + FileEntries(f)
  {
    forall e ensures InFiles(files + [f], e) <==> InFiles(files, e) || e in f.entries {
      if i :| 0 <= i < |files| && e in files[i].entries {
        assert (files + [f])[i] == files[i];
      }
      if e in f.entries {
        assert (files + [f])[|files|] == f;
      }
    }
  }

  /** Files without a user key in common hold no entries of a common key. */
  lemma NoOverlapNoSharedKey(files: Files, f: FileMetaData)
    requires AllWellFormed(files) && WellFormed(f) && NoOverlap(files, f.smallest.user, f.largest.user)
    ensures forall d, e :: d in EntriesOf(files) && e in FileEntries(f) ==> d.key.user != e.key.user
    ensures forall g :: g in files ==> Less(f.largest, g.smallest) || Less(g.largest, f.smallest)
  {
    forall d, e | d in EntriesOf(files) && e in FileEntries(f) ensures d.key.user != e.key.user {
      var i :| 0 <= i < |files| && d in files[i].entries;
      EntryInBounds(files[i], d);
      EntryInBounds(f, e);
      assert files[i] in files;
    }
  }

  lemma FlushKeepsSorted(files: Files, files': Files, f: FileMetaData)
    requires AllWellFormed(files) && LevelSorted(files) && WellFormed(f) && Ordered(files')
    requires NoOverlap(files, f.smallest.user, f.largest.user)
    requires forall g :: g in files' <==> g in files || g == f
    ensures AllWellFormed(files') && LevelSorted(files')
  {
    SubsetWellFormed(files + [f], files');
    NoOverlapNoSharedKey(files, f);
    forall g, h | g in files' && h in files' && g != h
        ensures Less(g.largest, h.smallest) || Less(h.largest, g.smallest) {
      if g in files && h in files {
        SortedLevelIsDisjoint(files, g, h);
      }
    }
    OrderedDisjointIsSorted(files');
  }

  /** The shape of a flush: the table holds the immutable memtable, its number is new, and no
      level down to its own overlaps it (unless it stays in level 0). */
  ghost predicate Flush(imm: seq<Entry>, levels: Levels, levels': Levels, at: nat, f: FileMetaData, next: nat) {
    && AddsFile(levels, levels', at, f) && WellFormed(f) && f.entries == imm && f.number == next
    && (at > 0 ==> forall l :: 0 <= l <= at ==> NoOverlap(levels[l], f.smallest.user, f.largest.user))
  }

  lemma FlushKeepsGoodLevels(imm: seq<Entry>, levels: Levels, levels': Levels, at: nat, f: FileMetaData, next: nat)
    requires GoodLevels(levels) && Flush(imm, levels, levels', at, f, next) && Numbered(levels, next)
    ensures GoodLevels(levels') && Numbered(levels', next + 1)
  {
    forall l | 0 <= l < NUM_LEVELS ensures AllWellFormed(levels'[l]) && (l > 0 ==> LevelSorted(levels'[l])) {
      if l == at && l > 0 {
        FlushKeepsSorted(levels[l], levels'[l], f);
      } else if l == at {
        SubsetWellFormed(levels[l] + [f], levels'[l]);
      } else {
        SubLevel(levels[l], levels'[l]);
      }
    }
  }

  lemma FlushKeepsLevel0(imm: seq<Entry>, levels: Levels, levels': Levels, at: nat, f: FileMetaData, next: nat)
    requires GoodLevels(levels) && Flush(imm, levels, levels', at, f, next) && Numbered(levels, next)
    requires NewestNumberFirst(levels[0]) && Newer(SetOf(imm), LevelEntries(levels))
    ensures NumbersDiffer(levels'[0]) && NewestNumberFirst(levels'[0])
  {
    FlushKeepsGoodLevels(imm, levels, levels', at, f, next);
    NumberedLevel(levels', 0, next + 1);
    var files := levels'[0];
    forall i, j | 0 <= i < |files| && 0 <= j < |files| && files[i].number > files[j].number
      ensures Newer(FileEntries(files[i]), FileEntries(files[j]))
    {
      assert files[i] in files && files[j] in files;
      if files[i] == f {
        FileInLevels(levels, 0, files[j]);
      } else {
        NewestFirstPair(levels[0], files[i], files[j]);
      }
    }
  }

  lemma NumberedLevel(levels: Levels, l: nat, next: nat)
    requires Numbered(levels, next) && l < |levels| && Ordered(levels[l])
    ensures NumbersDiffer(levels[l])
  {
    FilesAreDistinct(levels[l]);
    forall i, j | 0 <= i < j < |levels[l]| ensures levels[l][i].number != levels[l][j].number {
      assert levels[l][i] in levels[l] && levels[l][j] in levels[l];
    }
  }

  lemma FileInLevels(levels: Levels, l: nat, g: FileMetaData)
    requires l < |levels| && g in levels[l]
    ensures forall e :: e in FileEntries(g) ==> e in EntriesOf(levels[l]) && e in LevelEntries(levels)
  {
    var n :| 0 <= n < |levels[l]| && levels[l][n] == g;
    forall e | e in FileEntries(g) ensures e in EntriesOf(levels[l]) && e in LevelEntries(levels) {
      assert InFiles(levels[l], e);
    }
  }

  lemma NewestFirstPair(files: Files, f: FileMetaData, g: FileMetaData)
    requires NewestNumberFirst(files) && f in files && g in files && f.number > g.number
    ensures Newer(FileEntries(f), FileEntries(g))
  {
    var m :| 0 <= m < |files| && files[m] == f;
    var n :| 0 <= n < |files| && files[n] == g;
  }

  lemma FlushKeepsLevelOrder(imm: seq<Entry>, levels: Levels, levels': Levels, at: nat, f: FileMetaData, next: nat)
    requires GoodLevels(levels) && Flush(imm, levels, levels', at, f, next)
    requires Newer(SetOf(imm), LevelEntries(levels))
    requires forall l, m :: 0 <= l < m < NUM_LEVELS ==> Newer(EntriesOf(levels[l]), EntriesOf(levels[m]))
    ensures forall l, m :: 0 <= l < m < NUM_LEVELS ==> Newer(EntriesOf(levels'[l]), EntriesOf(levels'[m]))
  {
    FlushEntries(levels, levels', at, f);
    forall l, m | 0 <= l < m < NUM_LEVELS ensures Newer(EntriesOf(levels'[l]), EntriesOf(levels'[m])) {
      assert Newer(EntriesOf(levels[l]), EntriesOf(levels[m]));
      if m == at {
        NoOverlapNoSharedKey(levels[l], f);
      } else if l == at {
        assert forall e :: e in EntriesOf(levels[m]) ==> e in LevelEntries(levels);
      }
    }
  }

  /** Flushing changes neither the contents nor the order of layers. */
  lemma FlushKeepsInv(mem: seq<Entry>, imm: seq<Entry>, levels: Levels, levels': Levels, at: nat, f: FileMetaData,
      last: nat, next: nat)
    requires Inv(mem, Some(imm), levels, last, next) && Flush(imm, levels, levels', at, f, next)
    ensures Inv(mem, None, levels', last, next + 1)
    ensures Contents(mem, None, levels') == Contents(mem, Some(imm), levels)
  {
    FlushKeepsGoodLevels(imm, levels, levels', at, f, next);
    FlushKeepsLevel0(imm, levels, levels', at, f, next);
    FlushKeepsLevelOrder(imm, levels, levels', at, f, next);
    FlushEntries(levels, levels', at, f);
    LayeredAfterFlush(mem, imm, levels, levels');
  }

  lemma LayeredAfterFlush(mem: seq<Entry>, imm: seq<Entry>, levels: Levels, levels': Levels)
    requires Layered(mem, Some(imm), levels) && GoodLevels(levels')
    requires LevelEntries(levels') == LevelEntries(levels) + SetOf(imm)
    requires NumbersDiffer(levels'[0]) && NewestNumberFirst(levels'[0])
    requires forall l, m :: 0 <= l < m < NUM_LEVELS ==> Newer(EntriesOf(levels'[l]), EntriesOf(levels'[m]))
    ensures Layered(mem, None, levels')
    ensures Contents(mem, None, levels') == Contents(mem, Some(imm), levels)
  {
    assert ImmEntries(Some(imm)) == SetOf(imm);
    assert Contents(mem, None, levels') == Contents(mem, Some(imm), levels);
  }
}
