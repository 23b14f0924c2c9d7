/** The manifest: a snapshot of the current version followed by the edits applied since, and its replay. */
module Manifest {
  import opened DbFormat
  import opened Coding
  import opened VersionBuilder
  import opened VersionEdit

  function Number(f: Meta): nat { f.number }

  // ---------------------------------------------------------------------------
  // What a list of edits amounts to
  // ---------------------------------------------------------------------------

  function FilePart(e: Edit): FileEdit<Meta> { FileEdit(e.deletedFiles, e.newFiles) }

  ghost function FileParts(es: seq<Edit>): seq<FileEdit<Meta>> {
    if es == [] then [] else FileParts(es[..|es| - 1]) + [FilePart(es[|es| - 1])]
  }

  /** The number an edit last set, if any did. */
  datatype Numbers = Numbers(log: Option<nat>, prevLog: Option<nat>, nextFile: Option<nat>, lastSequence: Option<nat>)

  const NO_NUMBERS := Numbers(None, None, None, None)

  function Later(was: Option<nat>, next: Option<nat>): Option<nat> {
    if next.Some? then next else was
  }

  function NumbersAfter(n: Numbers, e: Edit): Numbers {
    Numbers(Later(n.log, e.logNumber), Later(n.prevLog, e.prevLogNumber), Later(n.nextFile, e.nextFileNumber),
        Later(n.lastSequence, e.lastSequence))
  }

  ghost function NumbersOf(es: seq<Edit>): Numbers {
    if es == [] then NO_NUMBERS else NumbersAfter(NumbersOf(es[..|es| - 1]), es[|es| - 1])
  }

  /** A level's compaction pointer after an edit: the last one the edit names. */
  function PointerAfter(p: Bytes, list: seq<(nat, Bytes)>, level: nat): Bytes {
    if list == [] then p
    else if list[|list| - 1].0 == level then list[|list| - 1].1
    else PointerAfter(p, list[..|list| - 1], level)
  }

  /** The last pair for the level decides, and without one the pointer stays. */
  lemma {:induction false} LastPointerWins(p: Bytes, list: seq<(nat, Bytes)>, level: nat)
    ensures forall i :: 0 <= i < |list| && list[i].0 == level && (forall j :: i < j < |list| ==> list[j].0 != level) ==>
              PointerAfter(p, list, level) == list[i].1
    ensures (forall i :: 0 <= i < |list| ==> list[i].0 != level) ==> PointerAfter(p, list, level) == p
  {
    if list != [] && list[|list| - 1].0 != level {
      LastPointerWins(p, list[..|list| - 1], level);
    }
  }

  ghost function PointerOf(es: seq<Edit>, level: nat): Bytes {
    if es == [] then [] else PointerAfter(PointerOf(es[..|es| - 1], level), es[|es| - 1].compactPointers, level)
  }

  lemma Snoc(es: seq<Edit>, e: Edit)
    ensures FileParts(es + [e]) == FileParts(es) + [FilePart(e)]
    ensures NumbersOf(es + [e]) == NumbersAfter(NumbersOf(es), e)
    ensures forall l :: PointerOf(es + [e], l) == PointerAfter(PointerOf(es, l), e.compactPointers, l)
  {
    assert (es + [e])[..|es|] == es;
  }

  // ---------------------------------------------------------------------------
  // What a manifest holds
  // ---------------------------------------------------------------------------

  predicate NameMatches(e: Edit, name: Bytes) {
    e.comparator.Some? ==> e.comparator.value == name
  }

  /** The edits of a manifest's records, if all decode and none names another comparator. */
  ghost function EditsOf(records: seq<Bytes>, name: Bytes): Option<seq<Edit>> {
    if records == [] then Some([])
    else
      match EditsOf(records[..|records| - 1], name)
      case None => None
      case Some(es) => NextEdits(es, Decode(records[|records| - 1], EMPTY_EDIT), name)
  }

  lemma EditsOfSnoc(records: seq<Bytes>, record: Bytes, name: Bytes, e: Edit)
    requires EditsOf(records, name).Some? && Decode(record, EMPTY_EDIT) == Edited(e) && NameMatches(e, name)
    ensures EditsOf(records + [record], name) == Some(EditsOf(records, name).value + [e])
  {
    assert (records + [record])[..|records|] == records;
  }

  lemma EditsOfStep(records: seq<Bytes>, record: Bytes, name: Bytes)
    requires EditsOf(records, name).Some?
    ensures EditsOf(records + [record], name)
        == NextEdits(EditsOf(records, name).value, Decode(record, EMPTY_EDIT), name)
  {
    assert (records + [record])[..|records|] == records;
  }

  ghost function NextEdits(es: seq<Edit>, d: Decoded, name: Bytes): Option<seq<Edit>> {
    if d.Edited? && NameMatches(d.edit, name) then Some(es + [d.edit]) else None
  }

  /** Once a prefix of the records is bad the whole is. */
  lemma {:induction false} BadPrefix(records: seq<Bytes>, n: nat, name: Bytes)
    requires n <= |records| && EditsOf(records[..n], name).None?
    ensures EditsOf(records, name).None?
    decreases |records|
  {
    if n == |records| {
      assert records[..n] == records;
    } else {
      var front := records[..|records| - 1];
      assert front[..n] == records[..n];
      BadPrefix(front, n, name);
    }
  }

  /** `files` is what folding the edits one at a time gives at this level, and no file was added twice. */
  ghost predicate LevelHolds(es: seq<Edit>, files: seq<Meta>, level: nat) {
    && AddedOnce({}, FileParts(es), level, Number)
    && Fold({}, FileParts(es), level, Number) == Elements(files)
  }

  lemma AddedOnceSnoc(parts: seq<FileEdit<Meta>>, part: FileEdit<Meta>, level: nat)
    requires AddedOnce({}, parts, level, Number) && Fresh(part, level, Mentioned({}, parts, level), Number)
    ensures AddedOnce({}, parts + [part], level, Number)
  {
    var more := parts + [part];
    forall n | 0 <= n < |more| ensures Fresh(more[n], level, Mentioned({}, more[..n], level), Number) {
      assert more[..n] == parts[..n];
      assert parts[..|parts|] == parts;
    }
  }

  lemma LevelSnoc(es: seq<Edit>, e: Edit, files: seq<Meta>, files': seq<Meta>, level: nat)
    requires LevelHolds(es, files, level) && Fresh(FilePart(e), level, Mentioned({}, FileParts(es), level), Number)
    requires Elements(files') == Step(Elements(files), FilePart(e), level, Number)
    ensures LevelHolds(es + [e], files', level)
  {
    Snoc(es, e);
    AddedOnceSnoc(FileParts(es), FilePart(e), level);
    assert (FileParts(es) + [FilePart(e)])[..|FileParts(es)|] == FileParts(es);
  }

  ghost predicate DistinctNumbers(files: set<Meta>) {
    forall f, g {:trigger f in files, g in files} :: f in files && g in files && f.number == g.number ==> f == g
  }

  lemma FreshStaysDistinct(known: set<Meta>, part: FileEdit<Meta>, level: nat)
    requires DistinctNumbers(known) && Fresh(part, level, known, Number)
    ensures DistinctNumbers(known + AddedAt(part, level))
  {
    forall f, g | f in AddedAt(part, level) && g in AddedAt(part, level) && f.number == g.number ensures f == g {
      var p :| p in part.added && p.0 == level && p.1 == f;
      var q :| q in part.added && q.0 == level && q.1 == g;
      var i :| 0 <= i < |part.added| && part.added[i] == p;
      var j :| 0 <= j < |part.added| && part.added[j] == q;
      assert i == j;
    }
    forall f, g | f in AddedAt(part, level) && g in known ensures f.number != g.number {
      assert Number(f) != Number(g);
    }
  }

  /** Every file of the fold was mentioned, and mentioned files have distinct numbers. */
  lemma {:induction false} FoldIsDistinct(parts: seq<FileEdit<Meta>>, level: nat)
    requires AddedOnce({}, parts, level, Number)
    ensures Fold({}, parts, level, Number) <= Mentioned({}, parts, level)
    ensures DistinctNumbers(Mentioned({}, parts, level))
  {
    if parts != [] {
      FrontAddedOnce({}, parts, level, Number);
      FoldIsDistinct(parts[..|parts| - 1], level);
      FreshStaysDistinct(Mentioned({}, parts[..|parts| - 1], level), parts[|parts| - 1], level);
    }
  }

  // ---------------------------------------------------------------------------
  // An ordered list of files is determined by its elements
  // ---------------------------------------------------------------------------

  lemma BothEmpty(a: seq<Meta>, b: seq<Meta>)
    requires Elements(a) == Elements(b)
    ensures a == [] <==> b == []
  {
    if a != [] {
      assert a[0] in Elements(b);
    }
    if b != [] {
      assert b[0] in Elements(a);
    }
  }

  lemma {:induction false} OrderedUnique(a: seq<Meta>, b: seq<Meta>, key: Meta -> InternalKey)
    requires Ordered(a, key, Number) && Ordered(b, key, Number) && Elements(a) == Elements(b)
    ensures a == b
  {
    BothEmpty(a, b);
    if a != [] {
      assert a[0] in Elements(b) && b[0] in Elements(a);
      var i :| 0 <= i < |a| && a[i] == b[0];
      var j :| 0 <= j < |b| && b[j] == a[0];
      assert i > 0 ==> FileLess(a[0], b[0], key, Number);
      assert j > 0 ==> FileLess(b[0], a[0], key, Number);
      assert a[0] == b[0];
      TailElements(a, key);
      TailElements(b, key);
      OrderedUnique(a[1..], b[1..], key);
      assert a == [a[0]] + a[1..] && b == [b[0]] + b[1..];
    }
  }

  lemma TailElements(a: seq<Meta>, key: Meta -> InternalKey)
    requires a != [] && Ordered(a, key, Number)
    ensures Elements(a[1..]) == Elements(a) - {a[0]}
  {
    forall f | f in a[1..] ensures f != a[0] {
      var i :| 1 <= i < |a| && a[i] == f;
      assert FileLess(a[0], a[i], key, Number);
    }
  }

  ghost predicate FilesOk(files: seq<Meta>, key: Meta -> InternalKey) {
    && Ordered(files, key, Number) && DistinctNumbers(Elements(files))
    && forall f :: f in files ==> MetaOk(f)
  }

  ghost predicate VersionOk(current: seq<seq<Meta>>, key: Meta -> InternalKey) {
    |current| == NUM_LEVELS && forall l :: 0 <= l < NUM_LEVELS ==> FilesOk(current[l], key)
  }

  ghost predicate PointersOk(pointers: seq<Bytes>) {
    |pointers| == NUM_LEVELS && forall l :: 0 <= l < NUM_LEVELS ==> |pointers[l]| < TWO32
  }

  ghost function EditsIn(manifest: Option<seq<Bytes>>, name: Bytes): Option<seq<Edit>> {
    if manifest.Some? then EditsOf(manifest.value, name) else None
  }

  /** The new files of `part` are new to every level. */
  ghost predicate AllFresh(part: FileEdit<Meta>, manifest: Option<seq<Edit>>, current: seq<seq<Meta>>) {
    |current| == NUM_LEVELS && forall l ::
        0 <= l < NUM_LEVELS ==> Fresh(part, l, Known(manifest, current[l], l), Number)
  }

  /** Every level of `version` is that of `current` after one edit. */
  ghost predicate Applied(current: seq<seq<Meta>>, part: FileEdit<Meta>, version: seq<seq<Meta>>) {
    && |current| == NUM_LEVELS && |version| == NUM_LEVELS
    && forall l :: 0 <= l < NUM_LEVELS ==> Elements(version[l]) == Step(Elements(current[l]), part, l, Number)
  }

  ghost predicate PointersApplied(pointers: seq<Bytes>, list: seq<(nat, Bytes)>, after: seq<Bytes>) {
    && |pointers| == NUM_LEVELS && |after| == NUM_LEVELS
    && forall l :: 0 <= l < NUM_LEVELS ==> after[l] == PointerAfter(pointers[l], list, l)
  }

  ghost predicate PointersOfEdits(es: seq<Edit>, pointers: seq<Bytes>) {
    |pointers| == NUM_LEVELS && forall l :: 0 <= l < NUM_LEVELS ==> pointers[l] == PointerOf(es, l)
  }

  /** Level by level, the files are the fold of the edits in order, if no file is added twice. */
  ghost predicate FilesReplayed(es: seq<Edit>, current: seq<seq<Meta>>, key: Meta -> InternalKey) {
    && |current| == NUM_LEVELS
    && forall l :: 0 <= l < NUM_LEVELS && AddedOnce({}, FileParts(es), l, Number) ==>
         Ordered(current[l], key, Number) && Elements(current[l]) == Fold({}, FileParts(es), l, Number)
  }

  // ---------------------------------------------------------------------------
  // The snapshot a new manifest begins with
  // ---------------------------------------------------------------------------

  /** No two files listed at this level share a number. */
  ghost predicate ListedOnce(list: seq<(nat, Meta)>, level: nat) {
    forall i, j :: 0 <= i < j < |list| && list[i].0 == level && list[j].0 == level
        ==> Number(list[i].1) != Number(list[j].1)
  }

  lemma ListOneMore(list: seq<(nat, Meta)>, at: nat, f: Meta, level: nat)
    requires ListedOnce(list, level)
    requires at == level ==> forall g :: g in FilesAt(list, level) ==> g.number != f.number
    ensures ListedOnce(list + [(at, f)], level)
    ensures FilesAt(list + [(at, f)], level) == FilesAt(list, level) + if at == level then {f} else {}
  {
    var more := list + [(at, f)];
    FilesAtSnoc(more, level);
    assert more[..|more| - 1] == list;
    forall i, j | 0 <= i < j < |more| && more[i].0 == level && more[j].0 == level
        ensures Number(more[i].1) != Number(more[j].1) {
      assert more[i] in list && more[i].1 in FilesAt(list, level);
    }
  }

  /** `list` names the files of the levels below `level` and the first `n` of `level`. */
  ghost predicate Lists(list: seq<(nat, Meta)>, current: seq<seq<Meta>>, level: nat, n: nat, l: nat)
    requires |current| == NUM_LEVELS
  {
    && ListedOnce(list, l)
    && FilesAt(list, l) == if l < level && l < NUM_LEVELS then Elements(current[l])
                           else if l == level && l < NUM_LEVELS && n <= |current[l]| then Elements(current[l][..n])
                           else {}
  }

  lemma ListNext(list: seq<(nat, Meta)>, current: seq<seq<Meta>>, level: nat, n: nat, l: nat, key: Meta -> InternalKey)
    requires |current| == NUM_LEVELS && level < NUM_LEVELS && n < |current[level]| && FilesOk(current[level], key)
    requires Lists(list, current, level, n, l)
    ensures Lists(list + [(level, current[level][n])], current, level, n + 1, l)
  {
    var files, f := current[level], current[level][n];
    if l == level {
      assert files[..n + 1] == files[..n] + [f];
      forall g | g in files[..n] ensures g.number != f.number {
        var i :| 0 <= i < n && files[i] == g;
        assert FileLess(g, f, key, Number) && g in Elements(files) && f in Elements(files);
      }
    }
    ListOneMore(list, level, f, l);
  }

  lemma ListNextLevel(list: seq<(nat, Meta)>, current: seq<seq<Meta>>, level: nat, l: nat)
    requires |current| == NUM_LEVELS && level < NUM_LEVELS && Lists(list, current, level, |current[level]|, l)
    ensures Lists(list, current, level + 1, 0, l)
  {
    assert current[level][..|current[level]|] == current[level];
  }

  method SnapshotFiles(current: seq<seq<Meta>>, ghost key: Meta -> InternalKey) returns (list: seq<(nat, Meta)>)
    requires |current| == NUM_LEVELS && forall l :: 0 <= l < NUM_LEVELS ==> FilesOk(current[l], key)
    ensures forall l :: 0 <= l < NUM_LEVELS ==> ListedOnce(list, l) && FilesAt(list, l) == Elements(current[l])
    ensures forall p :: p in list ==> p.0 < NUM_LEVELS && MetaOk(p.1)
  {
    list := [];
    for level := 0 to NUM_LEVELS
      invariant forall l: nat :: Lists(list, current, level, 0, l)
      invariant forall p :: p in list ==> p.0 < NUM_LEVELS && MetaOk(p.1)
    {
      var files := current[level];
      for i := 0 to |files|
        invariant forall l: nat :: Lists(list, current, level, i, l)
        invariant forall p :: p in list ==> p.0 < NUM_LEVELS && MetaOk(p.1)
      {
        ghost var was := list;
        list := list + [(level, files[i])];
        ghost var n := i + 1;
        forall l: nat ensures Lists(list, current, level, n, l) {
          ListNext(was, current, level, i, l, key);
        }
      }
      ghost var above := level + 1;
      forall l: nat ensures Lists(list, current, above, 0, l) {
        ListNextLevel(list, current, level, l);
      }
    }
    forall l | 0 <= l < NUM_LEVELS ensures ListedOnce(list, l) && FilesAt(list, l) == Elements(current[l]) {
      assert Lists(list, current, NUM_LEVELS, 0, l);
    }
  }

  method SnapshotPointers(pointers: seq<Bytes>) returns (list: seq<(nat, Bytes)>)
    requires |pointers| == NUM_LEVELS && forall l :: 0 <= l < NUM_LEVELS ==> |pointers[l]| < TWO32
    ensures forall l :: 0 <= l < NUM_LEVELS ==> PointerAfter([], list, l) == pointers[l]
    ensures forall p :: p in list ==> p.0 < NUM_LEVELS && |p.1| < TWO32
  {
    list := [];
    for level := 0 to NUM_LEVELS
      invariant forall l :: 0 <= l < NUM_LEVELS ==> PointerAfter([], list, l) == if l < level then pointers[l] else []
      invariant forall p :: p in list ==> p.0 < NUM_LEVELS && |p.1| < TWO32
    {
      if pointers[level] != [] {
        var more := list + [(level, pointers[level])];
        assert more[..|list|] == list;
        list := more;
      }
    }
  }

  /** An edit that, applied to nothing, gives these files and pointers, and sets no number. */
  ghost predicate IsSnapshot(s: Edit, name: Bytes, current: seq<seq<Meta>>, pointers: seq<Bytes>)
    requires |current| == NUM_LEVELS && |pointers| == NUM_LEVELS
  {
    && s.comparator == Some(name) && s.deletedFiles == {}
    && NumbersAfter(NO_NUMBERS, s) == NO_NUMBERS
    && (forall l :: 0 <= l < NUM_LEVELS ==>
          && ListedOnce(s.newFiles, l) && FilesAt(s.newFiles, l) == Elements(current[l])
          && PointerAfter([], s.compactPointers, l) == pointers[l])
  }

  lemma SnapshotHolds(s: Edit, name: Bytes, current: seq<seq<Meta>>, pointers: seq<Bytes>, l: nat)
    requires |current| == NUM_LEVELS && |pointers| == NUM_LEVELS && IsSnapshot(s, name, current, pointers)
        && l < NUM_LEVELS
    ensures LevelHolds([s], current[l], l) && NumbersOf([s]) == NO_NUMBERS && PointerOf([s], l) == pointers[l]
    ensures Mentioned({}, FileParts([s]), l) == Elements(current[l])
  {
    Snoc([], s);
    assert [] + [s] == [s];
    var part := FilePart(s);
    assert FileParts([s]) == [] + [part] == [part];
    assert [part][..0] == [];
    assert AddedAt(part, l) == Elements(current[l]);
    AddedOnceSnoc([], part, l);
    assert Step({}, part, l, Number) == Elements(current[l]);
  }

  method WriteSnapshot(name: Bytes, current: seq<seq<Meta>>, pointers: seq<Bytes>, ghost key: Meta -> InternalKey)
    returns (record: Bytes, ghost s: Edit)
    requires VersionOk(current, key) && PointersOk(pointers) && |name| < TWO32
    ensures Decode(record, EMPTY_EDIT) == Edited(s) && IsSnapshot(s, name, current, pointers)
  {
    var edit := new VersionEdit();
    edit.comparator := Some(name);
    edit.compactPointers := SnapshotPointers(pointers);
    edit.newFiles := SnapshotFiles(current, key);
    s := edit.Contents();
    record := edit.EncodeTo();
  }

  // ---------------------------------------------------------------------------
  // The version set
  // ---------------------------------------------------------------------------

  /** The files a level has had since its manifest was begun. */
  ghost function Known(manifest: Option<seq<Edit>>, files: seq<Meta>, level: nat): set<Meta> {
    if manifest.Some? then Mentioned({}, FileParts(manifest.value), level) else Elements(files)
  }

  ghost function Last(es: seq<Edit>): Option<Edit> {
    if es == [] then None else Some(es[|es| - 1])
  }

  /** The manifest's edits amount to these numbers. The next file and last sequence numbers may have
      grown since the last edit. */
  ghost predicate NumbersHold(es: seq<Edit>, log: nat, prevLog: nat, nextFile: nat, lastSequence: nat) {
    var n := NumbersOf(es);
    && n.log == Some(log) && n.prevLog == Some(prevLog)
    && n.nextFile.Some? && log < n.nextFile.value <= nextFile
    && n.lastSequence.Some? && n.lastSequence.value <= lastSequence
    && Last(es).Some? && Last(es).value.nextFileNumber == n.nextFile && Last(es).value.lastSequence == n.lastSequence
  }

  /** The part of Builder::Apply that moves the compaction pointers. */
  method ApplyPointers(pointers: seq<Bytes>, list: seq<(nat, Bytes)>) returns (r: seq<Bytes>)
    requires |pointers| == NUM_LEVELS && forall p :: p in list ==> p.0 < NUM_LEVELS
    ensures PointersApplied(pointers, list, r)
  {
    r := pointers;
    TakeAll(list);
    for i := 0 to |list|
      invariant |r| == NUM_LEVELS && forall l :: 0 <= l < NUM_LEVELS ==> r[l] == PointerAfter(pointers[l], list[..i], l)
    {
      TakeNext(list, i);
      var level, key := list[i].0, list[i].1;
      ghost var more := list[..i + 1];
      assert more[..|more| - 1] == list[..i];
      r := r[level := key];
    }
  }

  lemma {:induction false} PointerFits(p: Bytes, list: seq<(nat, Bytes)>, level: nat)
    requires |p| < TWO32 && forall q :: q in list ==> |q.1| < TWO32
    ensures |PointerAfter(p, list, level)| < TWO32
  {
    if list != [] {
      PointerFits(p, list[..|list| - 1], level);
    }
  }

  lemma {:induction false} PointerTwice(p: Bytes, list: seq<(nat, Bytes)>, level: nat)
    ensures PointerAfter(PointerAfter(p, list, level), list, level) == PointerAfter(p, list, level)
  {
    if list != [] && list[|list| - 1].0 != level {
      PointerTwice(p, list[..|list| - 1], level);
    }
  }

  lemma FreshBelow(part: FileEdit<Meta>, level: nat, files: set<Meta>, known: set<Meta>)
    requires Fresh(part, level, known, Number) && files <= known
    ensures Fresh(part, level, files, Number)
    ensures AddedOnce(files, [part], level, Number)
  {
    assert [part][..0] == [];
  }

  lemma StepIsOk(files: seq<Meta>, files': seq<Meta>, part: FileEdit<Meta>, level: nat, key: Meta -> InternalKey)
    requires FilesOk(files, key) && Fresh(part, level, Elements(files), Number)
    requires forall p :: p in part.added ==> MetaOk(p.1)
    requires Ordered(files', key, Number) && Elements(files') == Step(Elements(files), part, level, Number)
    ensures FilesOk(files', key)
  {
    FreshStaysDistinct(Elements(files), part, level);
    assert Elements(files') <= Elements(files) + AddedAt(part, level);
    forall f | f in files' ensures MetaOk(f) {
      assert f in Elements(files');
      if f !in files {
        var p :| p in part.added && p.0 == level && p.1 == f;
      }
    }
  }

  lemma FoldOne(base: set<Meta>, part: FileEdit<Meta>, level: nat)
    ensures Fold(base, [part], level, Number) == Step(base, part, level, Number)
  {
    assert [part][..0] == [];
    assert Fold(base, [], level, Number) == base;
  }

  /** The next version: the current one with one edit applied by a builder. */
  method NextVersion(current: seq<seq<Meta>>, part: FileEdit<Meta>, key: Meta -> InternalKey)
      returns (version: seq<seq<Meta>>)
    requires |current| == NUM_LEVELS && forall l :: 0 <= l < NUM_LEVELS ==> FilesOk(current[l], key)
    requires forall p :: p in part.added ==> p.0 < NUM_LEVELS && MetaOk(p.1)
    requires forall l :: 0 <= l < NUM_LEVELS ==> Fresh(part, l, Elements(current[l]), Number)
    ensures VersionOk(version, key) && Applied(current, part, version)
  {
    version := Replay(current, [part], key, Number);
    forall l | 0 <= l < NUM_LEVELS
      ensures FilesOk(version[l], key) && Elements(version[l]) == Step(Elements(current[l]), part, l, Number)
    {
      FreshBelow(part, l, Elements(current[l]), Elements(current[l]));
      FoldOne(Elements(current[l]), part, l);
      StepIsOk(current[l], version[l], part, l, key);
    }
  }

  lemma KnownCovers(es: seq<Edit>, files: seq<Meta>, level: nat)
    requires LevelHolds(es, files, level)
    ensures Elements(files) <= Mentioned({}, FileParts(es), level)
  {
    FoldIsDistinct(FileParts(es), level);
  }

  /** The records hold these edits, and the edits fold to these files. */
  ghost predicate Begun(records: seq<Bytes>, name: Bytes, es: seq<Edit>, current: seq<seq<Meta>>) {
    && |current| == NUM_LEVELS && EditsOf(records, name) == Some(es)
    && forall l :: 0 <= l < NUM_LEVELS ==> LevelHolds(es, current[l], l)
  }

  lemma BegunOneMore(records: seq<Bytes>, record: Bytes, name: Bytes, es: seq<Edit>, e: Edit, current: seq<seq<Meta>>,
      version: seq<seq<Meta>>)
    requires Begun(records, name, es, current) && |version| == NUM_LEVELS
    requires Decode(record, EMPTY_EDIT) == Edited(e) && NameMatches(e, name)
    requires Applied(current, FilePart(e), version)
    requires forall l :: 0 <= l < NUM_LEVELS ==> Fresh(FilePart(e), l, Mentioned({}, FileParts(es), l), Number)
    ensures Begun(records + [record], name, es + [e], version)
  {
    EditsOfSnoc(records, record, name, e);
    forall l | 0 <= l < NUM_LEVELS ensures LevelHolds(es + [e], version[l], l) {
      LevelSnoc(es, e, current[l], version[l], l);
    }
  }

  lemma SnapshotBegins(record: Bytes, s: Edit, name: Bytes, current: seq<seq<Meta>>, pointers: seq<Bytes>)
    requires |current| == NUM_LEVELS && |pointers| == NUM_LEVELS
    requires Decode(record, EMPTY_EDIT) == Edited(s) && IsSnapshot(s, name, current, pointers)
    ensures Begun([record], name, [s], current)
    ensures forall l :: 0 <= l < NUM_LEVELS ==>
      PointerOf([s], l) == pointers[l] && Mentioned({}, FileParts([s]), l) == Elements(current[l])
  {
    EditsOfSnoc([], record, name, s);
    assert [] + [record] == [record] && [] + [s] == [s];
    forall l | 0 <= l < NUM_LEVELS
      ensures LevelHolds([s], current[l], l) && PointerOf([s], l) == pointers[l]
      ensures Mentioned({}, FileParts([s]), l) == Elements(current[l])
    {
      SnapshotHolds(s, name, current, pointers, l);
    }
  }

  /** The open descriptor log amounts to this state. */
  ghost predicate ManifestHolds(manifest: Option<seq<Bytes>>, name: Bytes, current: seq<seq<Meta>>,
      log: nat, prevLog: nat, nextFile: nat, lastSequence: nat) {
    manifest.Some? ==>
      && EditsIn(manifest, name).Some? && Begun(manifest.value, name, EditsIn(manifest, name).value, current)
      && NumbersHold(EditsIn(manifest, name).value, log, prevLog, nextFile, lastSequence)
  }

  /** An open log has one more edit; a new one holds the compaction pointers it began with. */
  ghost predicate Extended(manifest: Option<seq<Bytes>>, e: Edit, manifest': Option<seq<Bytes>>, name: Bytes,
      pointers: seq<Bytes>) {
    && EditsIn(manifest', name).Some?
    && (manifest.Some? ==>
        EditsIn(manifest, name).Some? && EditsIn(manifest', name).value == EditsIn(manifest, name).value + [e])
    && (manifest.None? ==> PointersOfEdits(EditsIn(manifest', name).value, pointers))
  }

  lemma AllKnown(part: FileEdit<Meta>, es: seq<Edit>, current: seq<seq<Meta>>)
    requires AllFresh(part, Some(es), current)
    requires forall l :: 0 <= l < NUM_LEVELS ==> LevelHolds(es, current[l], l)
    ensures AllFresh(part, None, current)
  {
    forall l | 0 <= l < NUM_LEVELS ensures Fresh(part, l, Elements(current[l]), Number) {
      KnownCovers(es, current[l], l);
      FreshBelow(part, l, Elements(current[l]), Mentioned({}, FileParts(es), l));
    }
  }

  lemma PointersFit(pointers: seq<Bytes>, list: seq<(nat, Bytes)>, after: seq<Bytes>)
    requires PointersOk(pointers) && PointersApplied(pointers, list, after) && forall p :: p in list ==> |p.1| < TWO32
    ensures PointersOk(after)
  {
    forall l | 0 <= l < NUM_LEVELS ensures |after[l]| < TWO32 {
      PointerFits(pointers[l], list, l);
    }
  }

  lemma PointersStay(es: seq<Edit>, e: Edit, before: seq<Bytes>, pointers: seq<Bytes>)
    requires PointersApplied(before, e.compactPointers, pointers) && PointersOfEdits(es, pointers)
    ensures PointersOfEdits(es + [e], pointers)
  {
    Snoc(es, e);
    forall l | 0 <= l < NUM_LEVELS ensures pointers[l] == PointerOf(es + [e], l) {
      PointerTwice(before[l], e.compactPointers, l);
    }
  }

  /** A new descriptor log, begun with a snapshot. */
  method BeginLog(name: Bytes, current: seq<seq<Meta>>, pointers: seq<Bytes>, ghost key: Meta -> InternalKey,
      ghost part: FileEdit<Meta>)
    returns (records: seq<Bytes>, ghost es: seq<Edit>)
    requires |name| < TWO32 && VersionOk(current, key) && PointersOk(pointers) && AllFresh(part, None, current)
    ensures Begun(records, name, es, current) && PointersOfEdits(es, pointers) && AllFresh(part, Some(es), current)
  {
    ghost var s;
    var snapshot;
    snapshot, s := WriteSnapshot(name, current, pointers, key);
    records, es := [snapshot], [s];
    SnapshotBegins(snapshot, s, name, current, pointers);
  }

  lemma LogOneMore(records: seq<Bytes>, record: Bytes, name: Bytes, es: seq<Edit>, e: Edit, current: seq<seq<Meta>>,
      version: seq<seq<Meta>>)
    requires Begun(records, name, es, current) && Decode(record, EMPTY_EDIT) == Edited(e) && NameMatches(e, name)
    requires AllFresh(FilePart(e), Some(es), current) && Applied(current, FilePart(e), version)
    ensures Begun(records + [record], name, es + [e], version)
    ensures EditsIn(Some(records + [record]), name) == Some(es + [e])
  {
    forall l | 0 <= l < NUM_LEVELS ensures Fresh(FilePart(e), l, Mentioned({}, FileParts(es), l), Number) {
      assert Fresh(FilePart(e), l, Known(Some(es), current[l], l), Number);
    }
    BegunOneMore(records, record, name, es, e, current, version);
  }

  /** Append an edit's record to the open descriptor log, or to a new one begun with a snapshot. */
  method LogEdit(manifest: Option<seq<Bytes>>, name: Bytes, current: seq<seq<Meta>>, pointers: seq<Bytes>,
      ghost before: seq<Bytes>,
      ghost key: Meta -> InternalKey, ghost e: Edit, record: Bytes, ghost version: seq<seq<Meta>>)
    returns (records: seq<Bytes>)
    requires |name| < TWO32 && VersionOk(current, key) && PointersOk(pointers)
        && PointersApplied(before, e.compactPointers, pointers)
    requires manifest.Some? ==>
        EditsIn(manifest, name).Some? && Begun(manifest.value, name, EditsIn(manifest, name).value, current)
    requires Decode(record, EMPTY_EDIT) == Edited(e) && NameMatches(e, name)
    requires AllFresh(FilePart(e), EditsIn(manifest, name), current) && Applied(current, FilePart(e), version)
    ensures EditsIn(Some(records), name).Some? && Begun(records, name, EditsIn(Some(records), name).value, version)
    ensures Last(EditsIn(Some(records), name).value) == Some(e)
    ensures Extended(manifest, e, Some(records), name, pointers)
  {
    ghost var es;
    if manifest.None? {
      records, es := BeginLog(name, current, pointers, key, FilePart(e));
      PointersStay(es, e, before, pointers);
    } else {
      records, es := manifest.value, EditsIn(manifest, name).value;
    }
    LogOneMore(records, record, name, es, e, current, version);
    records := records + [record];
  }

  /** One record of the replay loop. */
  method ReadEdit(record: Bytes, name: Bytes) returns (ok: bool, e: Edit)
    ensures ok ==> EditOk(e)
    ensures forall es :: NextEdits(es, Decode(record, EMPTY_EDIT), name) == if ok then Some(es + [e]) else None
  {
    var edit := new VersionEdit();
    ok := edit.DecodeFrom(record);
    e := edit.Contents();
    if ok {
      ok := e.comparator.None? || e.comparator.value == name;
      DecodedIsOk(record, EMPTY_EDIT);
    }
  }

  ghost predicate BuilderHolds(builder: Builder<Meta>, es: seq<Edit>)
    reads builder, builder.deleted, builder.added
  {
    && builder.Valid() && builder.number == Number
    && (forall l :: 0 <= l < NUM_LEVELS ==>
          && builder.base[l] == []
          && builder.deleted[l] == BatchDeleted(FileParts(es), l, Number)
          && builder.added[l] == BatchAdded(FileParts(es), l, builder.key, Number))
  }

  method ApplyEdit(builder: Builder<Meta>, ghost es: seq<Edit>, e: Edit)
    requires BuilderHolds(builder, es) && EditOk(e)
    modifies builder.deleted, builder.added
    ensures BuilderHolds(builder, es + [e])
  {
    builder.Apply(FilePart(e));
    Snoc(es, e);
    assert (FileParts(es) + [FilePart(e)])[..|FileParts(es)|] == FileParts(es);
  }

  method SaveReplayed(builder: Builder<Meta>, ghost es: seq<Edit>) returns (version: seq<seq<Meta>>)
    requires BuilderHolds(builder, es)
    ensures FilesReplayed(es, version, builder.key)
  {
    version := builder.SaveTo();
    forall l | 0 <= l < NUM_LEVELS && AddedOnce({}, FileParts(es), l, Number)
      ensures Ordered(version[l], builder.key, Number) && Elements(version[l]) == Fold({}, FileParts(es), l, Number)
    {
      assert Elements<Meta>([]) == {};
      SavedIsFold(version[l], [], FileParts(es), l, builder.key, Number);
    }
  }

  /** What the loop over a manifest's records has gathered. */
  ghost predicate Gathered(es: seq<Edit>, n: Numbers, pointers: seq<Bytes>) {
    n == NumbersOf(es) && PointersOfEdits(es, pointers) && PointersOk(pointers)
  }

  method Gather(ghost es: seq<Edit>, e: Edit, n: Numbers, pointers: seq<Bytes>)
      returns (n': Numbers, pointers': seq<Bytes>)
    requires Gathered(es, n, pointers) && EditOk(e)
    ensures Gathered(es + [e], n', pointers')
  {
    n' := NumbersAfter(n, e);
    pointers' := ApplyPointers(pointers, e.compactPointers);
    Snoc(es, e);
    forall l | 0 <= l < NUM_LEVELS ensures |pointers'[l]| < TWO32 {
      PointerFits(pointers[l], e.compactPointers, l);
    }
  }

  method ReplayOne(builder: Builder<Meta>, record: Bytes, name: Bytes, n: Numbers, pointers: seq<Bytes>,
      ghost done: seq<Bytes>, ghost es: seq<Edit>)
    returns (ok: bool, n': Numbers, pointers': seq<Bytes>, ghost es': seq<Edit>)
    requires EditsOf(done, name) == Some(es) && BuilderHolds(builder, es) && Gathered(es, n, pointers)
    modifies builder.deleted, builder.added
    ensures ok ==>
        EditsOf(done + [record], name) == Some(es') && BuilderHolds(builder, es') && Gathered(es', n', pointers')
    ensures !ok ==> EditsOf(done + [record], name) == None
  {
    var e;
    ok, e := ReadEdit(record, name);
    EditsOfStep(done, record, name);
    n', pointers', es' := n, pointers, es;
    if ok {
      ApplyEdit(builder, es, e);
      n', pointers' := Gather(es, e, n, pointers);
      es' := es + [e];
    }
  }

  /** The loop of Recover, which stops at the first record that is bad or names another comparator. */
  method ReplayRecords(builder: Builder<Meta>, manifest: seq<Bytes>, name: Bytes)
    returns (ok: bool, n: Numbers, pointers: seq<Bytes>, ghost es: seq<Edit>)
    requires BuilderHolds(builder, [])
    modifies builder.deleted, builder.added
    ensures ok <==> EditsOf(manifest, name).Some?
    ensures ok ==> EditsOf(manifest, name) == Some(es) && BuilderHolds(builder, es) && Gathered(es, n, pointers)
  {
    es := [];
    n, pointers := NO_NUMBERS, [[], [], [], [], [], [], []];
    ok := true;
    var i := 0;
    while i < |manifest| && ok
      invariant i <= |manifest|
      invariant ok ==>
          EditsOf(manifest[..i], name) == Some(es) && BuilderHolds(builder, es) && Gathered(es, n, pointers)
      invariant !ok ==> EditsOf(manifest[..i], name) == None
      decreases |manifest| - i, ok
    {
      assert manifest[..i + 1] == manifest[..i] + [manifest[i]];
      ok, n, pointers, es := ReplayOne(builder, manifest[i], name, n, pointers, manifest[..i], es);
      i := i + 1;
    }
    assert manifest[..|manifest|] == manifest;
    if !ok {
      BadPrefix(manifest, i, name);
    }
  }

  method ReplayManifest(empty: seq<seq<Meta>>, manifest: seq<Bytes>, name: Bytes, key: Meta -> InternalKey)
    returns (ok: bool, n: Numbers, pointers: seq<Bytes>, version: seq<seq<Meta>>, ghost es: seq<Edit>)
    requires |empty| == NUM_LEVELS && forall l :: 0 <= l < NUM_LEVELS ==> empty[l] == []
    ensures ok <==> EditsOf(manifest, name).Some?
    ensures ok ==> EditsOf(manifest, name) == Some(es) && Gathered(es, n, pointers) && FilesReplayed(es, version, key)
  {
    var builder := new Builder(empty, key, Number);
    ok, n, pointers, es := ReplayRecords(builder, manifest, name);
    version := empty;
    if ok {
      version := SaveReplayed(builder, es);
    }
  }

  class VersionSet {
    const name: Bytes
    const key: Meta -> InternalKey
    var current: seq<seq<Meta>>
    var nextFileNumber: nat
    var manifestFileNumber: nat
    var lastSequence: nat
    var logNumber: nat
    var prevLogNumber: nat
    var compactPointer: seq<Bytes>
    /** The records of the open descriptor log, if one is open. */
    var descriptorLog: Option<seq<Bytes>>

    constructor (name: Bytes, key: Meta -> InternalKey)
      requires |name| < TWO32
      ensures this.name == name && this.key == key && Valid() && descriptorLog.None?
      ensures current == [[], [], [], [], [], [], []] && compactPointer == [[], [], [], [], [], [], []]
    {
      this.name, this.key := name, key;
      current, compactPointer := [[], [], [], [], [], [], []], [[], [], [], [], [], [], []];
      nextFileNumber, manifestFileNumber, lastSequence, logNumber, prevLogNumber := 2, 0, 0, 0, 0;
      descriptorLog := None;
    }

    ghost function Edits(): Option<seq<Edit>>
      reads this
    {
      EditsIn(descriptorLog, name)
    }

    ghost predicate Valid()
      reads this
    {
      && |name| < TWO32 && VersionOk(current, key) && PointersOk(compactPointer)
      && logNumber < nextFileNumber && prevLogNumber < TWO64
      && ManifestHolds(descriptorLog, name, current, logNumber, prevLogNumber, nextFileNumber, lastSequence)
    }

    /** The edit as it is logged: the numbers it left out are filled in from the version set. */
    function Filled(e: Edit): Edit
      reads this
    {
      e.(logNumber := if e.logNumber.Some? then e.logNumber else Some(logNumber),
         prevLogNumber := if e.prevLogNumber.Some? then e.prevLogNumber else Some(prevLogNumber),
         nextFileNumber := Some(nextFileNumber), lastSequence := Some(lastSequence))
    }

    method LogAndApply(edit: VersionEdit)
      requires Valid() && EditOk(edit.Contents()) && NameMatches(edit.Contents(), name)
      requires nextFileNumber < TWO64 && lastSequence < TWO64
      requires edit.logNumber.Some? ==> logNumber <= edit.logNumber.value < nextFileNumber
      requires AllFresh(FilePart(edit.Contents()), Edits(), current)
      modifies this, edit
      ensures Valid() && descriptorLog.Some?
      ensures edit.Contents() == old(Filled(edit.Contents()))
      ensures Applied(old(current), FilePart(edit.Contents()), current)
      ensures PointersApplied(old(compactPointer), edit.compactPointers, compactPointer)
      ensures edit.logNumber == Some(logNumber) && edit.prevLogNumber == Some(prevLogNumber)
      ensures nextFileNumber == old(nextFileNumber) && lastSequence == old(lastSequence)
      ensures Extended(old(descriptorLog), edit.Contents(), descriptorLog, name, compactPointer)
    {
      Fill(edit);
      var record := edit.EncodeTo();
      Install(edit.Contents(), record);
    }

    method Fill(edit: VersionEdit)
      modifies edit
      ensures edit.Contents() == old(Filled(edit.Contents()))
    {
      if edit.logNumber.None? {
        edit.logNumber := Some(logNumber);
      }
      if edit.prevLogNumber.None? {
        edit.prevLogNumber := Some(prevLogNumber);
      }
      edit.nextFileNumber, edit.lastSequence := Some(nextFileNumber), Some(lastSequence);
    }

    /** Log a filled-in edit and make the version it leads to current. */
    method Install(e: Edit, record: Bytes)
      requires Valid() && EditOk(e) && NameMatches(e, name) && Decode(record, EMPTY_EDIT) == Edited(e)
      requires e.logNumber.Some? && e.prevLogNumber.Some? && e.nextFileNumber == Some(nextFileNumber)
          && e.lastSequence == Some(lastSequence)
      requires logNumber <= e.logNumber.value < nextFileNumber
      requires AllFresh(FilePart(e), Edits(), current)
      modifies this`current, this`compactPointer, this`descriptorLog, this`logNumber, this`prevLogNumber
      ensures Valid() && descriptorLog.Some?
      ensures Applied(old(current), FilePart(e), current)
      ensures PointersApplied(old(compactPointer), e.compactPointers, compactPointer)
      ensures e.logNumber == Some(logNumber) && e.prevLogNumber == Some(prevLogNumber)
      ensures Extended(old(descriptorLog), e, descriptorLog, name, compactPointer)
    {
      if descriptorLog.Some? {
        AllKnown(FilePart(e), Edits().value, current);
      }
      var version := NextVersion(current, FilePart(e), key);
      var pointers := ApplyPointers(compactPointer, e.compactPointers);
      PointersFit(compactPointer, e.compactPointers, pointers);
      var records := LogEdit(descriptorLog, name, current, pointers, compactPointer, key, e, record, version);
      descriptorLog := Some(records);
      current, compactPointer := version, pointers;
      logNumber, prevLogNumber := e.logNumber.value, e.prevLogNumber.value;
    }

    /** Replay a manifest into a new version set. */
    method Recover(manifest: seq<Bytes>) returns (ok: bool)
      requires current == [[], [], [], [], [], [], []] && compactPointer == [[], [], [], [], [], [], []]
      modifies this
      ensures descriptorLog == old(descriptorLog)
      ensures match EditsOf(manifest, name)
              case None => !ok
              case Some(es) =>
                var n := NumbersOf(es);
                && (ok <==> n.nextFile.Some? && n.log.Some? && n.lastSequence.Some?)
                && (ok ==>
                    NumbersRecovered(n) && PointersOfEdits(es, compactPointer) && PointersOk(compactPointer)
                    && FilesReplayed(es, current, key))
    {
      var n, pointers, version;
      ghost var es;
      ok, n, pointers, version, es := ReplayManifest(current, manifest, name, key);
      if !ok {
        return;
      }
      ok := n.nextFile.Some? && n.log.Some? && n.lastSequence.Some?;
      compactPointer := pointers;
      if ok {
        current := version;
        manifestFileNumber, nextFileNumber := n.nextFile.value, n.nextFile.value + 1;
        lastSequence, logNumber := n.lastSequence.value, n.log.value;
        prevLogNumber := if n.prevLog.Some? then n.prevLog.value else 0;
      }
    }

    ghost predicate NumbersRecovered(n: Numbers)
      reads this
    {
      && n.nextFile == Some(manifestFileNumber) && nextFileNumber == manifestFileNumber + 1
      && n.lastSequence == Some(lastSequence) && n.log == Some(logNumber)
      && prevLogNumber == (if n.prevLog.Some? then n.prevLog.value else 0)
    }
  }

  /** Recovering from the manifest a version set has written gives back its current version and its log
      numbers, and the file and sequence numbers of its last edit, which are no larger than it had reached. */
  method Reopen(was: VersionSet) returns (vs: VersionSet)
    requires was.Valid() && was.descriptorLog.Some?
    ensures fresh(vs) && vs.Valid() && vs.descriptorLog.None?
    ensures vs.current == was.current
    ensures vs.logNumber == was.logNumber && vs.prevLogNumber == was.prevLogNumber
    ensures vs.logNumber < vs.manifestFileNumber <= was.nextFileNumber && vs.nextFileNumber == vs.manifestFileNumber + 1
    ensures vs.lastSequence <= was.lastSequence
    ensures var last := Last(was.Edits().value);
      last.Some? && last.value.nextFileNumber == Some(vs.manifestFileNumber)
          && last.value.lastSequence == Some(vs.lastSequence)
    ensures forall l :: 0 <= l < NUM_LEVELS ==> vs.compactPointer[l] == PointerOf(was.Edits().value, l)
  {
    vs := new VersionSet(was.name, was.key);
    ghost var es := was.Edits().value;
    var ok := vs.Recover(was.descriptorLog.value);
    forall l | 0 <= l < NUM_LEVELS ensures vs.current[l] == was.current[l] {
      assert LevelHolds(es, was.current[l], l);
      OrderedUnique(vs.current[l], was.current[l], was.key);
    }
    assert vs.current == was.current;
  }
}
