/** Layered lookup: searching memtable, immutable memtable and levels in order, stopping at the first
  hit, returns exactly what a flat search over all entries would. */
module Lookup {
  import opened DbFormat
  import opened Version

  // ---------------------------------------------------------------------------
  // The order between layers
  // ---------------------------------------------------------------------------

  /** For every user key, everything in `a` is newer than everything in `b`. */
  ghost predicate Newer(a: Entries, b: Entries) {
    forall e, f {:trigger e in a, f in b} :: e in a && f in b && e.key.user == f.key.user ==> e.key.seqno > f.key.seqno
  }

  ghost function FileEntries(f: FileMetaData): Entries {
    SetOf(f.entries)
  }

  ghost predicate InLevels(levels: Levels, e: Entry) {
    exists l :: 0 <= l < |levels| && InFiles(levels[l], e)
  }

  ghost function LevelEntries(levels: Levels): Entries {
    iset e | InLevels(levels, e)
  }

  ghost function ImmEntries(imm: Option<seq<Entry>>): Entries {
    if imm.Some? then SetOf(imm.value) else iset{}
  }

  /** Everything the database holds. */
  ghost function Contents(mem: seq<Entry>, imm: Option<seq<Entry>>, levels: Levels): Entries {
    SetOf(mem) + ImmEntries(imm) + LevelEntries(levels)
  }

  ghost predicate NumbersDiffer(files: Files) {
    forall i, j :: 0 <= i < j < |files| ==> files[i].number != files[j].number
  }

  /** In level 0 a file with a higher number holds newer entries. */
  ghost predicate NewestNumberFirst(files: Files) {
    forall i, j :: 0 <= i < |files| && 0 <= j < |files| && files[i].number > files[j].number ==>
      Newer(FileEntries(files[i]), FileEntries(files[j]))
  }

  /** Same user key: memtable newer than immutable, newer than level 0 by file number, newer than
      each deeper level. */
  ghost predicate Layered(mem: seq<Entry>, imm: Option<seq<Entry>>, levels: Levels) {
    && Sorted(mem) && (imm.Some? ==> Sorted(imm.value)) && GoodLevels(levels)
    && Newer(SetOf(mem), ImmEntries(imm)) && Newer(SetOf(mem), LevelEntries(levels))
    && Newer(ImmEntries(imm), LevelEntries(levels))
    && NumbersDiffer(levels[0]) && NewestNumberFirst(levels[0])
    && (forall l, m :: 0 <= l < m < NUM_LEVELS ==> Newer(EntriesOf(levels[l]), EntriesOf(levels[m])))
    && UniqueSeqs(Contents(mem, imm, levels))
  }

  /** The outcome of searching one layer. */
  ghost predicate Answers(es: Entries, user: UserKey, snapshot: nat, r: Option<Entry>) {
    match r
    case Some(e) => Newest(es, user, snapshot, e)
    case None => NoneVisible(es, user, snapshot)
  }

  /** A hit in a newer layer hides the older one; a miss passes the question on. */
  lemma AnswerFromLayers(a: Entries, b: Entries, user: UserKey, snapshot: nat, ra: Option<Entry>, rb: Option<Entry>)
    requires Newer(a, b) && Answers(a, user, snapshot, ra) && (ra.None? ==> Answers(b, user, snapshot, rb))
    ensures Answers(a + b, user, snapshot, if ra.Some? then ra else rb)
  {
  }

  // ---------------------------------------------------------------------------
  // Level 0
  // ---------------------------------------------------------------------------

  /** The files whose key range includes `user`. */
  method FilesCovering(files: Files, user: UserKey) returns (tmp: Files)
    ensures forall f :: f in tmp <==> f in files && f.smallest.user <= user <= f.largest.user
    ensures NumbersDiffer(files) ==> NumbersDiffer(tmp)
  {
    tmp := [];
    for i := 0 to |files|
      invariant forall f :: f in tmp <==> f in files[..i] && f.smallest.user <= user <= f.largest.user
      invariant NumbersDiffer(files) ==> NumbersDiffer(tmp)
    {
      if user >= files[i].smallest.user && user <= files[i].largest.user {
        forall j | 0 <= j < |tmp| && NumbersDiffer(files) ensures tmp[j].number != files[i].number {
          assert tmp[j] in files[..i];
        }
        tmp := tmp + [files[i]];
      }
      assert files[..i + 1] == files[..i] + [files[i]];
    }
    assert files[..|files|] == files;
  }

  ghost predicate NewestFirst(files: Files) {
    forall i, j :: 0 <= i < j < |files| ==> files[i].number > files[j].number
  }

  function InsertByNumber(files: Files, f: FileMetaData): (r: Files)
    requires NewestFirst(files) && forall g :: g in files ==> g.number != f.number
    ensures NewestFirst(r) && forall g :: g in r <==> g in files || g == f
  {
    if files == [] || f.number > files[0].number then [f] + files
    else
      var rest := InsertByNumber(files[1..], f);
      assert forall i :: 0 <= i < |rest| ==> rest[i] in rest;
      assert files == [files[0]] + files[1..];
      [files[0]] + rest
  }

  /** std::sort with NewestFirst. */
  function SortNewestFirst(files: Files): (r: Files)
    requires NumbersDiffer(files)
    ensures NewestFirst(r) && forall g :: g in r <==> g in files
  {
    if files == [] then []
    else
      var rest := SortNewestFirst(files[1..]);
      assert forall g :: g in rest ==> exists i :: 0 < i < |files| && files[i] == g;
      assert files == [files[0]] + files[1..];
      InsertByNumber(rest, files[0])
  }

  /** Searching level 0: every file that covers the key, newest first. */
  method GetFromLevel0(files: Files, user: UserKey, snapshot: nat) returns (r: Option<Entry>)
    requires AllWellFormed(files) && NumbersDiffer(files) && NewestNumberFirst(files)
    ensures Answers(EntriesOf(files), user, snapshot, r)
  {
    var tmp := FilesCovering(files, user);
    tmp := SortNewestFirst(tmp);
    for i := 0 to |tmp|
      invariant forall j :: 0 <= j < i ==> NoneVisible(FileEntries(tmp[j]), user, snapshot)
    {
      assert tmp[i] in tmp && tmp[i] in files;
      SearchFindsNewest(tmp[i].entries, user, snapshot);
      r := Search(tmp[i].entries, user, snapshot);
      if r.Some? {
        HitInLevel0(files, tmp, i, user, snapshot, r.value);
        return;
      }
    }
    MissInLevel0(files, tmp, user, snapshot);
    return None;
  }

  lemma MissInLevel0(files: Files, tmp: Files, user: UserKey, snapshot: nat)
    requires AllWellFormed(files)
    requires forall f :: f in tmp <==> f in files && f.smallest.user <= user <= f.largest.user
    requires forall j :: 0 <= j < |tmp| ==> NoneVisible(FileEntries(tmp[j]), user, snapshot)
    ensures NoneVisible(EntriesOf(files), user, snapshot)
  {
    forall e | InFiles(files, e) && e.key.user == user ensures e.key.seqno > snapshot {
      var f := CoveringFile(files, tmp, user, e);
    }
  }

  lemma CoveringFile(files: Files, tmp: Files, user: UserKey, e: Entry) returns (j: nat)
    requires AllWellFormed(files) && InFiles(files, e) && e.key.user == user
    requires forall f :: f in tmp <==> f in files && f.smallest.user <= user <= f.largest.user
    ensures j < |tmp| && e in FileEntries(tmp[j])
  {
    var i :| 0 <= i < |files| && e in files[i].entries;
    EntryInBounds(files[i], e);
    assert files[i] in tmp;
    j :| 0 <= j < |tmp| && tmp[j] == files[i];
  }

  lemma HitInLevel0(files: Files, tmp: Files, i: nat, user: UserKey, snapshot: nat, e: Entry)
    requires AllWellFormed(files) && NewestNumberFirst(files)
    requires forall f :: f in tmp <==> f in files && f.smallest.user <= user <= f.largest.user
    requires NewestFirst(tmp) && i < |tmp| && Newest(FileEntries(tmp[i]), user, snapshot, e)
    requires forall j :: 0 <= j < i ==> NoneVisible(FileEntries(tmp[j]), user, snapshot)
    ensures Newest(EntriesOf(files), user, snapshot, e)
  {
    assert tmp[i] in tmp;
    var m :| 0 <= m < |files| && files[m] == tmp[i];
    forall f | InFiles(files, f) && f.key.user == user && f.key.seqno <= snapshot
      ensures f.key.seqno <= e.key.seqno
    {
      var j := CoveringFile(files, tmp, user, f);
      if j > i {
        assert tmp[j] in tmp;
        var n :| 0 <= n < |files| && files[n] == tmp[j];
        assert Newer(FileEntries(files[m]), FileEntries(files[n]));
      }
    }
  }

  // ---------------------------------------------------------------------------
  // Sorted levels
  // ---------------------------------------------------------------------------

  /** Searching a level above 0: one binary search, then at most one file. */
  method GetFromLevel(files: Files, user: UserKey, snapshot: nat) returns (r: Option<Entry>)
    requires AllWellFormed(files) && LevelSorted(files)
    ensures Answers(EntriesOf(files), user, snapshot, r)
  {
    var index := FindFile(files, SeekKey(user, snapshot));
    forall e | InFiles(files, e) && e.key.user == user && e.key.seqno <= snapshot
      ensures exists i :: index <= i < |files| && e in files[i].entries
    {
      var i :| 0 <= i < |files| && e in files[i].entries;
      EntryInBounds(files[i], e);
    }
    if index >= |files| {
      return None;
    }
    var f := files[index];
    if user < f.smallest.user {
      forall e | InFiles(files, e) && e.key.user == user ensures e.key.seqno > snapshot {
        EntryFromIndexOn(files, index, e);
      }
      return None;
    }
    SearchFindsNewest(f.entries, user, snapshot);
    r := Search(f.entries, user, snapshot);
    SearchInLevel(files, index, user, snapshot, r);
  }

  /** An entry of a later file comes after every entry of an earlier one. */
  lemma LaterFileLaterKey(files: Files, i: nat, j: nat, d: Entry, e: Entry)
    requires AllWellFormed(files) && LevelSorted(files) && i < j < |files|
    requires d in files[i].entries && e in files[j].entries
    ensures Less(d.key, e.key)
  {
    EntryInBounds(files[i], d);
    EntryInBounds(files[j], e);
    assert Less(files[i].largest, files[j].smallest);
  }

  lemma EntryFromIndexOn(files: Files, index: nat, e: Entry)
    requires AllWellFormed(files) && LevelSorted(files) && index < |files|
    ensures forall i :: index <= i < |files| && e in files[i].entries ==> files[index].smallest.user <= e.key.user
  {
    forall i | index <= i < |files| && e in files[i].entries ensures files[index].smallest.user <= e.key.user {
      EntryInBounds(files[i], e);
      LevelAscends(files);
    }
  }

  lemma SearchInLevel(files: Files, index: nat, user: UserKey, snapshot: nat, r: Option<Entry>)
    requires AllWellFormed(files) && LevelSorted(files) && index < |files|
    requires forall i :: 0 <= i < index ==> Less(files[i].largest, SeekKey(user, snapshot))
    requires !Less(files[index].largest, SeekKey(user, snapshot))
    requires r == Search(files[index].entries, user, snapshot)
    ensures Answers(EntriesOf(files), user, snapshot, r)
  {
    var f, seek := files[index], SeekKey(user, snapshot);
    SearchFindsNewest(f.entries, user, snapshot);
    var b := LowerBound(f.entries, seek);
    assert b < |f.entries|;
    var d := f.entries[b];
    forall e | e in EntriesOf(files) && e.key.user == user && e.key.seqno <= snapshot
      ensures r.Some? && e.key.seqno <= d.key.seqno
    {
      VisibleFromIndexOn(files, index, user, snapshot, e);
    }
    if r.Some? {
      assert InFiles(files, d);
    }
  }

  lemma VisibleInRun(es: seq<Entry>, seek: InternalKey, e: Entry)
    requires Sorted(es) && e in es && !Less(e.key, seek)
    ensures var b := LowerBound(es, seek); b < |es| && (es[b] == e || Less(es[b].key, e.key))
  {
    var b := LowerBound(es, seek);
    var j :| 0 <= j < |es| && es[j] == e;
    assert b < j ==> Less(es[b].key, es[j].key);
  }

  /** A visible entry of the key is at or after the lower bound of the file binary search found. */
  lemma VisibleFromIndexOn(files: Files, index: nat, user: UserKey, snapshot: nat, e: Entry)
    requires AllWellFormed(files) && LevelSorted(files) && index < |files|
    requires forall i :: 0 <= i < index ==> Less(files[i].largest, SeekKey(user, snapshot))
    requires !Less(files[index].largest, SeekKey(user, snapshot))
    requires e in EntriesOf(files) && e.key.user == user && e.key.seqno <= snapshot
    ensures var b := LowerBound(files[index].entries, SeekKey(user, snapshot));
            && b < |files[index].entries| && files[index].entries[b].key.user == user
            && e.key.seqno <= files[index].entries[b].key.seqno
  {
    var f, seek := files[index], SeekKey(user, snapshot);
    var b := LowerBound(f.entries, seek);
    var i :| 0 <= i < |files| && e in files[i].entries;
    EntryInBounds(files[i], e);
    if i > index {
      LaterFileLaterKey(files, index, i, f.entries[b], e);
    } else {
      VisibleInRun(f.entries, seek, e);
    }
  }

  // ---------------------------------------------------------------------------
  // All levels
  // ---------------------------------------------------------------------------

  /** Version::Get: level by level, returning at the first file that knows the key. */
  method GetFromVersion(levels: Levels, user: UserKey, snapshot: nat) returns (r: Option<Entry>)
    requires GoodLevels(levels) && NumbersDiffer(levels[0]) && NewestNumberFirst(levels[0])
    requires forall l, m :: 0 <= l < m < NUM_LEVELS ==> Newer(EntriesOf(levels[l]), EntriesOf(levels[m]))
    ensures Answers(LevelEntries(levels), user, snapshot, r)
  {
    for level := 0 to NUM_LEVELS
      invariant forall l :: 0 <= l < level ==> NoneVisible(EntriesOf(levels[l]), user, snapshot)
    {
      if |levels[level]| > 0 {
        if level == 0 {
          r := GetFromLevel0(levels[0], user, snapshot);
        } else {
          r := GetFromLevel(levels[level], user, snapshot);
        }
        if r.Some? {
          HitAtLevel(levels, level, user, snapshot, r.value);
          return;
        }
      }
    }
    MissEverywhere(levels, user, snapshot);
    return None;
  }

  lemma MissEverywhere(levels: Levels, user: UserKey, snapshot: nat)
    requires forall l :: 0 <= l < |levels| ==> NoneVisible(EntriesOf(levels[l]), user, snapshot)
    ensures NoneVisible(LevelEntries(levels), user, snapshot)
  {
    forall e | e in LevelEntries(levels) && e.key.user == user ensures e.key.seqno > snapshot {
      var l :| 0 <= l < |levels| && InFiles(levels[l], e);
      assert e in EntriesOf(levels[l]);
    }
  }

  lemma HitAtLevel(levels: Levels, level: nat, user: UserKey, snapshot: nat, e: Entry)
    requires level < |levels| && Newest(EntriesOf(levels[level]), user, snapshot, e)
    requires forall l, m :: 0 <= l < m < |levels| ==> Newer(EntriesOf(levels[l]), EntriesOf(levels[m]))
    requires forall l :: 0 <= l < level ==> NoneVisible(EntriesOf(levels[l]), user, snapshot)
    ensures Newest(LevelEntries(levels), user, snapshot, e)
  {
    forall f | InLevels(levels, f) && f.key.user == user && f.key.seqno <= snapshot
      ensures f.key.seqno <= e.key.seqno
    {
      var l :| 0 <= l < |levels| && InFiles(levels[l], f);
      assert f in EntriesOf(levels[l]);
      if level < l {
        assert Newer(EntriesOf(levels[level]), EntriesOf(levels[l]));
      }
    }
  }

  /** DBImpl::Get: memtable, immutable memtable, then the current version. */
  method Get(mem: seq<Entry>, imm: Option<seq<Entry>>, levels: Levels, user: UserKey, snapshot: nat)
      returns (r: Option<Bytes>)
    requires Layered(mem, imm, levels)
    ensures r == Read(Contents(mem, imm, levels), user, snapshot)
  {
    var e := Search(mem, user, snapshot);
    SearchFindsNewest(mem, user, snapshot);
    ghost var fromMem := e;
    ghost var fromImm: Option<Entry>, fromLevels: Option<Entry> := None, None;
    if e.None? {
      if imm.Some? {
        e := Search(imm.value, user, snapshot);
        SearchFindsNewest(imm.value, user, snapshot);
      }
      fromImm := e;
      if e.None? {
        e := GetFromVersion(levels, user, snapshot);
        fromLevels := e;
      }
      AnswerFromLayers(ImmEntries(imm), LevelEntries(levels), user, snapshot, fromImm, fromLevels);
    }
    AnswerFromLayers(SetOf(mem), ImmEntries(imm) + LevelEntries(levels), user, snapshot, fromMem, e);
    assert SetOf(mem) + (ImmEntries(imm) + LevelEntries(levels)) == Contents(mem, imm, levels);
    if e.Some? {
      NewestIsVisible(Contents(mem, imm, levels), user, snapshot, e.value);
    }
    r := Outcome(e);
  }
}
