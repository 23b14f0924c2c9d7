/** VersionSet::Builder: applying a batch of edits to a version without building the versions in
  between. The builder is generic in the file type, given a file's number and its smallest key. */
module VersionBuilder {
  import opened DbFormat

  /** The file part of a VersionEdit. */
  datatype FileEdit<F> = FileEdit(deleted: set<(nat, nat)>, added: seq<(nat, F)>)

  type FileSets<!F> = seq<set<F>>

  // ---------------------------------------------------------------------------
  // One edit at a time
  // ---------------------------------------------------------------------------

  ghost function FilesAt<F>(pairs: seq<(nat, F)>, level: nat): set<F> {
    set p | p in pairs && p.0 == level :: p.1
  }

  ghost function AddedAt<F>(edit: FileEdit<F>, level: nat): set<F> {
    FilesAt(edit.added, level)
  }

  /** The files of a level after one edit: deletions first, then additions. */
  ghost function Step<F(!new)>(files: set<F>, edit: FileEdit<F>, level: nat, number: F -> nat): set<F> {
    (set f | f in files && (level, number(f)) !in edit.deleted) + AddedAt(edit, level)
  }

  ghost function Fold<F(!new)>(base: set<F>, edits: seq<FileEdit<F>>, level: nat, number: F -> nat): set<F> {
    if edits == [] then base
    else Step(Fold(base, edits[..|edits| - 1], level, number), edits[|edits| - 1], level, number)
  }

  /** Numbers the edit adds at `level` are new to `known` and distinct from one another. */
  ghost predicate Fresh<F(!new)>(edit: FileEdit<F>, level: nat, known: set<F>, number: F -> nat) {
    && (forall f, g :: f in AddedAt(edit, level) && g in known ==> number(f) != number(g))
    && (forall i, j :: 0 <= i < j < |edit.added| && edit.added[i].0 == level && edit.added[j].0 == level ==>
          number(edit.added[i].1) != number(edit.added[j].1))
  }

  /** Every file the base or an edit ever mentions at `level`. */
  ghost function Mentioned<F(!new)>(base: set<F>, edits: seq<FileEdit<F>>, level: nat): set<F> {
    if edits == [] then base
    else Mentioned(base, edits[..|edits| - 1], level) + AddedAt(edits[|edits| - 1], level)
  }

  /** Each (level, number) is added at most once and is not in the base. */
  ghost predicate AddedOnce<F(!new)>(base: set<F>, edits: seq<FileEdit<F>>, level: nat, number: F -> nat) {
    forall n :: 0 <= n < |edits| ==> Fresh(edits[n], level, Mentioned(base, edits[..n], level), number)
  }

  // ---------------------------------------------------------------------------
  // The batched form
  // ---------------------------------------------------------------------------

  /** BySmallestKey: by smallest key, ties by file number. */
  predicate FileLess<F>(f: F, g: F, key: F -> InternalKey, number: F -> nat) {
    Less(key(f), key(g)) || (!Less(key(g), key(f)) && number(f) < number(g))
  }

  ghost predicate Ordered<F>(files: seq<F>, key: F -> InternalKey, number: F -> nat) {
    forall i, j :: 0 <= i < j < |files| ==> FileLess(files[i], files[j], key, number)
  }

  ghost function Elements<F>(files: seq<F>): set<F> {
    set f | f in files
  }

  /** std::set::insert: keeps the order, and keeps the old element if one is in the same place. */
  function SetInsert<F>(files: seq<F>, f: F, key: F -> InternalKey, number: F -> nat): (r: seq<F>)
    requires Ordered(files, key, number)
    ensures Ordered(r, key, number)
    ensures Elements(files) <= Elements(r) <= Elements(files) + {f}
    ensures (forall g :: g in files ==> number(g) != number(f)) ==> f in r
  {
    if files == [] then [f]
    else if FileLess(f, files[0], key, number) then [f] + files
    else if FileLess(files[0], f, key, number) then
      var rest := SetInsert(files[1..], f, key, number);
      ElementsCons(files[0], rest);
      assert forall g :: g in rest ==> FileLess(files[0], g, key, number) by {
        assert forall g :: g in rest ==> g in Elements(files[1..]) + {f};
      }
      ElementsCons(files[0], files[1..]);
      assert files == [files[0]] + files[1..];
      [files[0]] + rest
    else files
  }

  lemma ElementsCons<F>(f: F, files: seq<F>)
    ensures Elements([f] + files) == {f} + Elements(files)
  {
  }

  lemma ElementsSnoc<F>(files: seq<F>, f: F)
    ensures Elements(files + [f]) == Elements(files) + {f}
  {
  }

  ghost function InsertAll<F>(files: seq<F>, pairs: seq<(nat, F)>, level: nat, key: F -> InternalKey,
      number: F -> nat): (r: seq<F>)
    requires Ordered(files, key, number)
    ensures Ordered(r, key, number)
  {
    if pairs == [] then files
    else
      var r := InsertAll(files, pairs[..|pairs| - 1], level, key, number);
      if pairs[|pairs| - 1].0 == level then SetInsert(r, pairs[|pairs| - 1].1, key, number) else r
  }

  ghost function NumbersAt<F(!new)>(pairs: seq<(nat, F)>, level: nat, number: F -> nat): set<nat> {
    set p | p in pairs && p.0 == level :: number(p.1)
  }

  ghost function DeletedAt<F>(edit: FileEdit<F>, level: nat): set<nat> {
    set p | p in edit.deleted && p.0 == level :: p.1
  }

  class Builder<F(==,!new)> {
    const base: seq<seq<F>>
    const key: F -> InternalKey
    const number: F -> nat
    /** levels_[l].deleted_files and levels_[l].added_files (an ordered set). */
    const deleted: array<set<nat>>
    const added: array<seq<F>>

    constructor (base: seq<seq<F>>, key: F -> InternalKey, number: F -> nat)
      requires |base| == NUM_LEVELS && forall l :: 0 <= l < NUM_LEVELS ==> Ordered(base[l], key, number)
      ensures this.base == base && this.key == key && this.number == number
      ensures Valid() && fresh(deleted) && fresh(added)
      ensures forall l :: 0 <= l < NUM_LEVELS ==> deleted[l] == {} && added[l] == []
    {
      this.base, this.key, this.number := base, key, number;
      deleted := new set<nat>[NUM_LEVELS](_ => {});
      added := new seq<F>[NUM_LEVELS](_ => []);
    }

    ghost predicate Valid()
      reads this, deleted, added
    {
      && |base| == NUM_LEVELS && deleted.Length == NUM_LEVELS && added.Length == NUM_LEVELS
      && (forall l :: 0 <= l < NUM_LEVELS ==> Ordered(base[l], key, number) && Ordered(added[l], key, number))
    }

    method Apply(edit: FileEdit<F>)
      requires Valid()
      requires forall p :: p in edit.added ==> p.0 < NUM_LEVELS
      modifies deleted, added
      ensures Valid()
      ensures forall l :: 0 <= l < NUM_LEVELS ==>
        && deleted[l] == old(deleted[l]) + DeletedAt(edit, l) - NumbersAt(edit.added, l, number)
        && added[l] == InsertAll(old(added[l]), edit.added, l, key, number)
    {
      forall l | 0 <= l < NUM_LEVELS {
        deleted[l] := deleted[l] + set p | p in edit.deleted && p.0 == l :: p.1;
      }
      for i := 0 to |edit.added|
        invariant Valid()
        invariant forall l :: 0 <= l < NUM_LEVELS ==>
          deleted[l] == old(deleted[l]) + DeletedAt(edit, l) - NumbersAt(edit.added[..i], l, number)
        invariant forall l :: 0 <= l < NUM_LEVELS ==>
          added[l] == InsertAll(old(added[l]), edit.added[..i], l, key, number)
      {
        var level, f := edit.added[i].0, edit.added[i].1;
        assert edit.added[i] in edit.added;
        assert edit.added[..i + 1] == edit.added[..i] + [edit.added[i]];
        assert edit.added[..i + 1][..i] == edit.added[..i];
        deleted[level] := deleted[level] - {number(f)};
        added[level] := SetInsert(added[level], f, key, number);
      }
      assert edit.added[..|edit.added|] == edit.added;
    }

    /** Merge the added files into the base files of each level, leaving out deleted numbers. */
    method SaveTo() returns (version: seq<seq<F>>)
      requires Valid()
      ensures |version| == NUM_LEVELS
      ensures forall l :: 0 <= l < NUM_LEVELS ==> IsMerge(version[l], base[l], added[l], deleted[l], key, number)
    {
      version := [];
      for level := 0 to NUM_LEVELS
        invariant |version| == level
        invariant forall l :: 0 <= l < level ==> IsMerge(version[l], base[l], added[l], deleted[l], key, number)
      {
        var files := MergeLevel(base[level], added[level], deleted[level], key, number);
        version := version + [files];
      }
    }
  }

  /** The files of a level after SaveTo: both lists without the deleted numbers, by smallest key. */
  ghost predicate IsMerge<F(!new)>(files: seq<F>, base: seq<F>, added: seq<F>, deleted: set<nat>, key: F -> InternalKey,
      number: F -> nat) {
    && Elements(files) == Live(Elements(base) + Elements(added), deleted, number)
    && (Disjoint(base, added, number) ==> Ordered(files, key, number))
  }

  ghost predicate Disjoint<F(!new)>(base: seq<F>, added: seq<F>, number: F -> nat) {
    forall f, g :: f in base && g in added ==> number(f) != number(g)
  }

  ghost function Live<F(!new)>(files: set<F>, deleted: set<nat>, number: F -> nat): set<F> {
    set f | f in files && number(f) !in deleted
  }

  method MergeLevel<F(==,!new)>(base: seq<F>, added: seq<F>, deleted: set<nat>, key: F -> InternalKey, number: F -> nat)
    returns (files: seq<F>)
    requires Ordered(base, key, number) && Ordered(added, key, number)
    ensures IsMerge(files, base, added, deleted, key, number)
  {
    files := [];
    var pos := 0;
    for i := 0 to |added|
      invariant pos <= |base| && Merged(files, base, pos, added, i, deleted, key, number)
    {
      while pos < |base| && !FileLess(added[i], base[pos], key, number)
        invariant pos <= |base| && Merged(files, base, pos, added, i, deleted, key, number)
      {
        TakeBase(files, base, pos, added, i, deleted, key, number);
        files := MaybeAddFile(files, base[pos], deleted, number);
        pos := pos + 1;
      }
      TakeAdded(files, base, pos, added, i, deleted, key, number);
      files := MaybeAddFile(files, added[i], deleted, number);
    }
    while pos < |base|
      invariant pos <= |base| && Merged(files, base, pos, added, |added|, deleted, key, number)
    {
      TakeBase(files, base, pos, added, |added|, deleted, key, number);
      files := MaybeAddFile(files, base[pos], deleted, number);
      pos := pos + 1;
    }
    assert base[..pos] == base && added[..|added|] == added;
  }

  function MaybeAddFile<F>(files: seq<F>, f: F, deleted: set<nat>, number: F -> nat): seq<F> {
    if number(f) in deleted then files else files + [f]
  }

  /** The first `pos` base files and the first `i` added files have been merged, and if numbers do
      not clash everything merged comes before everything left. */
  ghost predicate Merged<F(!new)>(files: seq<F>, base: seq<F>, pos: nat, added: seq<F>, i: nat, deleted: set<nat>,
      key: F -> InternalKey, number: F -> nat)
    requires pos <= |base| && i <= |added|
  {
    && Elements(files) == Live(Elements(base[..pos]) + Elements(added[..i]), deleted, number)
    && (Disjoint(base, added, number) ==>
         && Ordered(files, key, number)
         && (forall f, j :: f in files && pos <= j < |base| ==> FileLess(f, base[j], key, number))
         && (forall f, j :: f in files && i <= j < |added| ==> FileLess(f, added[j], key, number)))
  }

  lemma LiveGrows<F(!new)>(files: seq<F>, known: set<F>, f: F, deleted: set<nat>, number: F -> nat)
    requires Elements(files) == Live(known, deleted, number)
    ensures Elements(MaybeAddFile(files, f, deleted, number)) == Live(known + {f}, deleted, number)
  {
    ElementsSnoc(files, f);
  }

  lemma AppendOrdered<F>(files: seq<F>, f: F, key: F -> InternalKey, number: F -> nat)
    requires Ordered(files, key, number) && forall g :: g in files ==> FileLess(g, f, key, number)
    ensures Ordered(files + [f], key, number)
  {
  }

  lemma TakeBase<F(!new)>(files: seq<F>, base: seq<F>, pos: nat, added: seq<F>, i: nat, deleted: set<nat>,
      key: F -> InternalKey, number: F -> nat)
    requires pos < |base| && i <= |added| && Ordered(base, key, number) && Ordered(added, key, number)
    requires Merged(files, base, pos, added, i, deleted, key, number)
    requires i < |added| ==> !FileLess(added[i], base[pos], key, number)
    ensures Merged(MaybeAddFile(files, base[pos], deleted, number), base, pos + 1, added, i, deleted, key, number)
  {
    var f := base[pos];
    assert Elements(base[..pos + 1]) + Elements(added[..i]) == Elements(base[..pos]) + Elements(added[..i]) + {f} by {
      assert base[..pos + 1] == base[..pos] + [f];
      ElementsSnoc(base[..pos], f);
    }
    LiveGrows(files, Elements(base[..pos]) + Elements(added[..i]), f, deleted, number);
    if Disjoint(base, added, number) {
      AppendOrdered(files, f, key, number);
      forall j | i <= j < |added| ensures FileLess(f, added[j], key, number) {
        assert f in base && added[i] in added && number(f) != number(added[i]);
      }
    }
  }

  lemma TakeAdded<F(!new)>(files: seq<F>, base: seq<F>, pos: nat, added: seq<F>, i: nat, deleted: set<nat>,
      key: F -> InternalKey, number: F -> nat)
    requires pos <= |base| && i < |added| && Ordered(base, key, number) && Ordered(added, key, number)
    requires Merged(files, base, pos, added, i, deleted, key, number)
    requires pos < |base| ==> FileLess(added[i], base[pos], key, number)
    ensures Merged(MaybeAddFile(files, added[i], deleted, number), base, pos, added, i + 1, deleted, key, number)
  {
    var f := added[i];
    assert Elements(base[..pos]) + Elements(added[..i + 1]) == Elements(base[..pos]) + Elements(added[..i]) + {f} by {
      assert added[..i + 1] == added[..i] + [f];
      ElementsSnoc(added[..i], f);
    }
    LiveGrows(files, Elements(base[..pos]) + Elements(added[..i]), f, deleted, number);
    if Disjoint(base, added, number) {
      AppendOrdered(files, f, key, number);
    }
  }

  // ---------------------------------------------------------------------------
  // The batch equals the fold
  // ---------------------------------------------------------------------------

  ghost function BatchDeleted<F(!new)>(edits: seq<FileEdit<F>>, level: nat, number: F -> nat): set<nat> {
    if edits == [] then {}
    else
      var last := edits[|edits| - 1];
      BatchDeleted(edits[..|edits| - 1], level, number) + DeletedAt(last, level) - NumbersAt(last.added, level, number)
  }

  ghost function BatchAdded<F>(edits: seq<FileEdit<F>>, level: nat, key: F -> InternalKey,
      number: F -> nat): (r: seq<F>)
    ensures Ordered(r, key, number)
  {
    if edits == [] then []
    else InsertAll(BatchAdded(edits[..|edits| - 1], level, key, number), edits[|edits| - 1].added, level, key, number)
  }

  lemma FilesAtSnoc<F>(pairs: seq<(nat, F)>, level: nat)
    requires pairs != []
    ensures var last := pairs[|pairs| - 1];
            FilesAt(pairs, level) == FilesAt(pairs[..|pairs| - 1], level) + if last.0 == level then {last.1} else {}
  {
    var last := pairs[|pairs| - 1];
    assert pairs == pairs[..|pairs| - 1] + [last];
    forall f | f in FilesAt(pairs[..|pairs| - 1], level) ensures f in FilesAt(pairs, level) {
      var p :| p in pairs[..|pairs| - 1] && p.0 == level && p.1 == f;
      assert p in pairs;
    }
  }

  lemma {:induction false} InsertAllFresh<F(!new)>(files: seq<F>, pairs: seq<(nat, F)>, level: nat,
      key: F -> InternalKey, number: F -> nat)
    requires Ordered(files, key, number)
    requires forall p, g :: p in pairs && p.0 == level && g in files ==> number(p.1) != number(g)
    requires forall i, j ::
        0 <= i < j < |pairs| && pairs[i].0 == level && pairs[j].0 == level ==> number(pairs[i].1) != number(pairs[j].1)
    ensures Elements(InsertAll(files, pairs, level, key, number)) == Elements(files) + FilesAt(pairs, level)
  {
    if pairs != [] {
      var front, last := pairs[..|pairs| - 1], pairs[|pairs| - 1];
      InsertAllFresh(files, front, level, key, number);
      FilesAtSnoc(pairs, level);
      var r := InsertAll(files, front, level, key, number);
      if last.0 == level {
        forall g | g in r ensures number(g) != number(last.1) {
          assert g in Elements(r);
          if g !in files {
            var p :| p in front && p.0 == level && p.1 == g;
            var i :| 0 <= i < |front| && front[i] == p;
            assert pairs[i] == p;
          }
        }
        assert last.1 in SetInsert(r, last.1, key, number);
      }
    }
  }

  lemma {:induction false} BatchStaysMentioned<F(!new)>(base: set<F>, edits: seq<FileEdit<F>>, level: nat,
      key: F -> InternalKey, number: F -> nat)
    requires AddedOnce(base, edits, level, number)
    ensures Elements(BatchAdded(edits, level, key, number)) + base == Mentioned(base, edits, level)
    ensures forall f, g :: f in base && g in BatchAdded(edits, level, key, number) ==> number(f) != number(g)
  {
    if edits != [] {
      var front, last := edits[..|edits| - 1], edits[|edits| - 1];
      FrontAddedOnce(base, edits, level, number);
      BatchStaysMentioned(base, front, level, key, number);
      InsertLastFresh(base, edits, level, key, number);
      var before := BatchAdded(front, level, key, number);
      forall f, g | f in base && g in BatchAdded(edits, level, key, number) ensures number(f) != number(g) {
        assert g in Elements(BatchAdded(edits, level, key, number));
        assert g in before || g in AddedAt(last, level);
        assert f in Mentioned(base, front, level);
      }
    }
  }

  lemma FrontAddedOnce<F(!new)>(base: set<F>, edits: seq<FileEdit<F>>, level: nat, number: F -> nat)
    requires edits != [] && AddedOnce(base, edits, level, number)
    ensures AddedOnce(base, edits[..|edits| - 1], level, number)
    ensures Fresh(edits[|edits| - 1], level, Mentioned(base, edits[..|edits| - 1], level), number)
  {
    var front := edits[..|edits| - 1];
    forall n | 0 <= n < |front| ensures Fresh(front[n], level, Mentioned(base, front[..n], level), number) {
      assert front[..n] == edits[..n] && front[n] == edits[n];
    }
  }

  lemma InsertLastFresh<F(!new)>(base: set<F>, edits: seq<FileEdit<F>>, level: nat, key: F -> InternalKey,
      number: F -> nat)
    requires edits != []
    requires Fresh(edits[|edits| - 1], level, Mentioned(base, edits[..|edits| - 1], level), number)
    requires Elements(BatchAdded(edits[..|edits| - 1], level, key, number)) <= Mentioned(base, edits[..|edits| - 1],
        level)
    ensures Elements(BatchAdded(edits, level, key, number))
         == Elements(BatchAdded(edits[..|edits| - 1], level, key, number)) + AddedAt(edits[|edits| - 1], level)
  {
    var before, last := BatchAdded(edits[..|edits| - 1], level, key, number), edits[|edits| - 1];
    forall p, g | p in last.added && p.0 == level && g in before ensures number(p.1) != number(g) {
      assert p.1 in AddedAt(last, level) && g in Elements(before);
    }
    InsertAllFresh(before, last.added, level, key, number);
  }

  /** One step: applying an edit to the batch is applying it to the set of live files. */
  lemma LiveStep<F(!new)>(known: set<F>, deleted: set<nat>, edit: FileEdit<F>, level: nat, number: F -> nat)
    requires forall f, g :: f in AddedAt(edit, level) && g in known ==> number(f) != number(g)
    ensures Live(known + AddedAt(edit, level), deleted + DeletedAt(edit, level) - NumbersAt(edit.added, level, number),
        number)
         == Step(Live(known, deleted, number), edit, level, number)
  {
    var deleted' := deleted + DeletedAt(edit, level) - NumbersAt(edit.added, level, number);
    forall f | f in AddedAt(edit, level) ensures number(f) in NumbersAt(edit.added, level, number) {
      var p :| p in edit.added && p.0 == level && p.1 == f;
      assert number(p.1) in NumbersAt(edit.added, level, number);
    }
    forall f | f in known ensures number(f) in deleted' <==>
        number(f) in deleted || (level, number(f)) in edit.deleted {
      if (level, number(f)) in edit.deleted {
        assert (level, number(f)).1 in DeletedAt(edit, level);
      }
      forall p | p in edit.added && p.0 == level ensures number(p.1) != number(f) {
        assert p.1 in AddedAt(edit, level);
      }
    }
  }

  /** Applying the edits as one batch gives the same files as applying them one at a time. */
  lemma {:induction false} BatchEqualsFold<F(!new)>(base: set<F>, edits: seq<FileEdit<F>>, level: nat,
      key: F -> InternalKey, number: F -> nat)
    requires AddedOnce(base, edits, level, number)
    ensures Live(base + Elements(BatchAdded(edits, level, key, number)), BatchDeleted(edits, level, number), number)
         == Fold(base, edits, level, number)
  {
    if edits == [] {
      assert Live(base, {}, number) == base;
      assert base + Elements(BatchAdded(edits, level, key, number)) == base;
    } else {
      var front, last := edits[..|edits| - 1], edits[|edits| - 1];
      FrontAddedOnce(base, edits, level, number);
      BatchEqualsFold(base, front, level, key, number);
      BatchStaysMentioned(base, front, level, key, number);
      InsertLastFresh(base, edits, level, key, number);
      var known := base + Elements(BatchAdded(front, level, key, number));
      assert base + Elements(BatchAdded(edits, level, key, number)) == known + AddedAt(last, level);
      LiveStep(known, BatchDeleted(front, level, number), last, level, number);
    }
  }

  /** What SaveTo makes of a batch in which no file is added twice. */
  lemma SavedIsFold<F(!new)>(files: seq<F>, base: seq<F>, edits: seq<FileEdit<F>>, level: nat, key: F -> InternalKey,
      number: F -> nat)
    requires AddedOnce(Elements(base), edits, level, number)
    requires IsMerge(files, base, BatchAdded(edits, level, key, number), BatchDeleted(edits, level, number), key,
        number)
    ensures Ordered(files, key, number) && Elements(files) == Fold(Elements(base), edits, level, number)
  {
    BatchEqualsFold(Elements(base), edits, level, key, number);
    BatchStaysMentioned(Elements(base), edits, level, key, number);
    assert Disjoint(base, BatchAdded(edits, level, key, number), number);
  }

  /** A builder over `base` given the edits in turn, then saved. */
  method Replay<F(==,!new)>(base: seq<seq<F>>, edits: seq<FileEdit<F>>, key: F -> InternalKey, number: F -> nat)
    returns (version: seq<seq<F>>)
    requires |base| == NUM_LEVELS && forall l :: 0 <= l < NUM_LEVELS ==> Ordered(base[l], key, number)
    requires forall e, p :: e in edits && p in e.added ==> p.0 < NUM_LEVELS
    ensures |version| == NUM_LEVELS
    ensures forall l :: 0 <= l < NUM_LEVELS && AddedOnce(Elements(base[l]), edits, l, number) ==>
      Ordered(version[l], key, number) && Elements(version[l]) == Fold(Elements(base[l]), edits, l, number)
  {
    var builder := new Builder(base, key, number);
    for i := 0 to |edits|
      invariant builder.Valid() && fresh(builder.deleted) && fresh(builder.added)
      invariant forall l :: 0 <= l < NUM_LEVELS ==>
        && builder.deleted[l] == BatchDeleted(edits[..i], l, number)
        && builder.added[l] == BatchAdded(edits[..i], l, key, number)
    {
      assert edits[i] in edits;
      assert edits[..i + 1][..i] == edits[..i];
      builder.Apply(edits[i]);
    }
    assert edits[..|edits|] == edits;
    version := builder.SaveTo();
    forall l | 0 <= l < NUM_LEVELS && AddedOnce(Elements(base[l]), edits, l, number)
      ensures Ordered(version[l], key, number) && Elements(version[l]) == Fold(Elements(base[l]), edits, l, number)
    {
      SavedIsFold(version[l], base[l], edits, l, key, number);
    }
  }
}
