/** Table files, levels, and the range tests of version_set.cc. */
module Version {
  import opened DbFormat

  /** A table file: its metadata together with the sorted entries the file holds. */
  datatype FileMetaData = FileMetaData(
    number: nat, fileSize: nat, smallest: InternalKey, largest: InternalKey, entries: seq<Entry>)

  type Files = seq<FileMetaData>
  type Levels = seq<Files>

  ghost predicate WellFormed(f: FileMetaData) {
    && f.entries != [] && Sorted(f.entries)
    && f.smallest == f.entries[0].key
    && f.largest == f.entries[|f.entries| - 1].key
  }

  ghost predicate AllWellFormed(files: Files) {
    forall i :: 0 <= i < |files| ==> WellFormed(files[i])
  }

  /** Files of a level above 0 are in key order and do not overlap. */
  ghost predicate LevelSorted(files: Files) {
    forall i, j :: 0 <= i < j < |files| ==> Less(files[i].largest, files[j].smallest)
  }

  function TotalSize(files: Files): nat {
    if files == [] then 0 else TotalSize(files[..|files| - 1]) + files[|files| - 1].fileSize
  }

  lemma TotalSizeExtend(files: Files, from: nat, to: nat)
    requires from <= to < |files|
    ensures TotalSize(files[from..to + 1]) == TotalSize(files[from..to]) + files[to].fileSize
  {
    assert files[from..to + 1][..to - from] == files[from..to];
  }

  ghost predicate GoodLevels(levels: Levels) {
    && |levels| == NUM_LEVELS
    && (forall l :: 0 <= l < NUM_LEVELS ==> AllWellFormed(levels[l]))
    && (forall l :: 0 < l < NUM_LEVELS ==> LevelSorted(levels[l]))
  }

  ghost predicate InFiles(files: Files, e: Entry) {
    exists i :: 0 <= i < |files| && e in files[i].entries
  }

  ghost function EntriesOf(files: Files): Entries {
    iset e | InFiles(files, e)
  }

  /** The entries of a list of files, file after file. */
  ghost function Flatten(files: Files): seq<Entry> {
    if files == [] then [] else Flatten(files[..|files| - 1]) + files[|files| - 1].entries
  }

  /** The user-key range of `f` reaches into [lo, hi]; an absent bound is infinite. */
  predicate Overlaps(f: FileMetaData, lo: Option<UserKey>, hi: Option<UserKey>) {
    !AfterFile(lo, f) && !BeforeFile(hi, f)
  }

  /** An absent key is before all keys, so it is never after a file. */
  predicate AfterFile(user: Option<UserKey>, f: FileMetaData) {
    user.Some? && user.value > f.largest.user
  }

  /** An absent key is after all keys, so it is never before a file. */
  predicate BeforeFile(user: Option<UserKey>, f: FileMetaData) {
    user.Some? && user.value < f.smallest.user
  }

  /** All entries of a well-formed file lie between its bounds. */
  lemma EntryInBounds(f: FileMetaData, e: Entry)
    requires WellFormed(f) && e in f.entries
    ensures f.smallest == e.key || Less(f.smallest, e.key)
    ensures f.largest == e.key || Less(e.key, f.largest)
    ensures f.smallest.user <= e.key.user <= f.largest.user
  {
    var i :| 0 <= i < |f.entries| && f.entries[i] == e;
    assert i > 0 ==> Less(f.entries[0].key, f.entries[i].key);
    assert i < |f.entries| - 1 ==> Less(f.entries[i].key, f.entries[|f.entries| - 1].key);
  }

  lemma BoundsInOrder(f: FileMetaData)
    requires WellFormed(f)
    ensures f.smallest == f.largest || Less(f.smallest, f.largest)
    ensures f.smallest.user <= f.largest.user
  {
    EntryInBounds(f, f.entries[0]);
  }

  lemma LevelAscends(files: Files)
    requires AllWellFormed(files) && LevelSorted(files)
    ensures forall i, j :: 0 <= i < j < |files| ==> Less(files[i].largest, files[j].largest)
    ensures forall i, j :: 0 <= i < j < |files| ==> Less(files[i].smallest, files[j].smallest)
  {
    forall i, j | 0 <= i < j < |files|
      ensures Less(files[i].largest, files[j].largest) && Less(files[i].smallest, files[j].smallest)
    {
      BoundsInOrder(files[i]);
      BoundsInOrder(files[j]);
    }
  }

  lemma {:induction false} AppendFile(files: Files, f: FileMetaData)
    requires AllWellFormed(files) && LevelSorted(files) && WellFormed(f)
    requires files != [] ==> Less(files[|files| - 1].largest, f.smallest)
    ensures AllWellFormed(files + [f]) && LevelSorted(files + [f])
    ensures Flatten(files + [f]) == Flatten(files) + f.entries
  {
    assert (files + [f])[..|files|] == files;
    forall i | 0 <= i < |files| ensures Less(files[i].largest, f.smallest) {
      BoundsInOrder(files[|files| - 1]);
      if i < |files| - 1 { assert Less(files[i].largest, files[|files| - 1].smallest); }
    }
  }

  /** Binary search: the first file whose largest key is at or after `key`. */
  method FindFile(files: Files, key: InternalKey) returns (right: nat)
    requires AllWellFormed(files) && LevelSorted(files)
    ensures right <= |files|
    ensures forall i :: 0 <= i < right ==> Less(files[i].largest, key)
    ensures forall i :: right <= i < |files| ==> !Less(files[i].largest, key)
  {
    var left := 0;
    right := |files|;
    while left < right
      invariant left <= right <= |files|
      invariant forall i :: 0 <= i < left ==> Less(files[i].largest, key)
      invariant forall i :: right <= i < |files| ==> !Less(files[i].largest, key)
    {
      var mid := (left + right) / 2;
      forall i | 0 <= i < |files| && i != mid
        ensures i < mid ==> Less(files[i].largest, files[mid].largest)
        ensures mid < i ==> Less(files[mid].largest, files[i].largest)
      {
        BoundsInOrder(files[i]);
        BoundsInOrder(files[mid]);
        if i < mid { assert Less(files[i].largest, files[mid].smallest); }
        if mid < i { assert Less(files[mid].largest, files[i].smallest); }
      }
      if Less(files[mid].largest, key) {
        left := mid + 1;
      } else {
        right := mid;
      }
    }
  }

  /** The binary-search form used above level 0 and the scan used in level 0 both decide whether
      any file of the level reaches into the range. */
  method SomeFileOverlapsRange(disjointSorted: bool, files: Files, lo: Option<UserKey>, hi: Option<UserKey>)
    returns (overlap: bool)
    requires AllWellFormed(files) && (disjointSorted ==> LevelSorted(files))
    requires forall f :: f in files ==> f.largest.seqno <= MAX_SEQUENCE
    ensures overlap <==> exists f :: f in files && Overlaps(f, lo, hi)
  {
    if !disjointSorted {
      for i := 0 to |files|
        invariant forall j :: 0 <= j < i ==> !Overlaps(files[j], lo, hi)
      {
        if AfterFile(lo, files[i]) || BeforeFile(hi, files[i]) {
        } else {
          assert files[i] in files;
          return true;
        }
      }
      return false;
    }
    var index := 0;
    if lo.Some? {
      index := FindFile(files, SeekKey(lo.value, MAX_SEQUENCE));
      forall i | 0 <= i < |files| ensures AfterFile(lo, files[i]) <==> i < index {
        assert files[i] in files;
      }
    }
    if index >= |files| {
      return false;
    }
    if !BeforeFile(hi, files[index]) {
      assert files[index] in files;
      return true;
    }
    forall i | index <= i < |files| ensures BeforeFile(hi, files[i]) {
      BoundsInOrder(files[index]);
      if index < i { assert Less(files[index].largest, files[i].smallest); }
    }
    return false;
  }
}
