/** The merge loop of a compaction: which entries it drops, how it cuts output files, and exactly
  when a reader can tell the difference. */
module CompactionWork {
  import opened DbFormat
  import opened Version
  import opened OutputCuts

  /** No file at level + 2 or deeper has `user` inside its key range. */
  ghost predicate IsBase(levels: Levels, level: nat, user: UserKey) {
    forall l, i :: level + 2 <= l < |levels| && 0 <= i < |levels[l]| ==>
      !(levels[l][i].smallest.user <= user <= levels[l][i].largest.user)
  }

  /** Compaction in version_set.h: the input version and the cursors that move along it. */
  class Compaction {
    const level: nat
    const levels: Levels
    const grandparents: Files
    const maxOutputFileSize: nat
    const maxGrandparentOverlap: nat
    const levelPtrs: array<nat>
    var grandparentIndex: nat
    var seenKey: bool
    var overlappedBytes: nat

    constructor (level: nat, levels: Levels, grandparents: Files, maxOutput: nat, maxOverlap: nat)
      requires |levels| == NUM_LEVELS && level + 1 < NUM_LEVELS
      requires forall l :: level + 2 <= l < NUM_LEVELS ==> AllWellFormed(levels[l]) && LevelSorted(levels[l])
      ensures Valid() && fresh(levelPtrs)
      ensures this.level == level && this.levels == levels && this.grandparents == grandparents
      ensures maxOutputFileSize == maxOutput && maxGrandparentOverlap == maxOverlap
      ensures (forall user :: CursorsBehind(user)) && forall input :: CountedTo(input, 0)
    {
      this.level, this.levels, this.grandparents := level, levels, grandparents;
      maxOutputFileSize, maxGrandparentOverlap := maxOutput, maxOverlap;
      levelPtrs := new nat[NUM_LEVELS](_ => 0);
      grandparentIndex, seenKey, overlappedBytes := 0, false, 0;
    }

    ghost predicate Valid()
      reads this, levelPtrs
    {
      && |levels| == NUM_LEVELS && level + 1 < NUM_LEVELS && levelPtrs.Length == NUM_LEVELS
      && (forall l :: level + 2 <= l < NUM_LEVELS ==> AllWellFormed(levels[l]) && LevelSorted(levels[l]))
      && (forall l :: 0 <= l < NUM_LEVELS ==> levelPtrs[l] <= |levels[l]|)
      && grandparentIndex <= |grandparents|
    }

    /** Every file a cursor has passed ends before `user`; so it stays true as keys grow. */
    ghost predicate CursorsBehind(user: UserKey)
      requires Valid()
      reads this, levelPtrs
    {
      forall l, i :: level + 2 <= l < NUM_LEVELS && 0 <= i < levelPtrs[l] ==> levels[l][i].largest.user < user
    }

    /** The counters of ShouldStopBefore after the first `n` input entries. */
    ghost predicate CountedTo(input: seq<Entry>, n: nat)
      requires n <= |input|
      reads this
    {
      if n == 0 then grandparentIndex == 0 && !seenKey && overlappedBytes == 0
      else
        var s := CountedFrom(grandparents, maxGrandparentOverlap, input, n - 1);
        && seenKey && grandparentIndex == PassedFrom(grandparents, input[n - 1].key, 0)
        && overlappedBytes == BytesBetween(grandparents, input[s].key, input[n - 1].key)
    }

    /** The cursor-driven test gives the stateless answer for every non-decreasing key sequence. */
    method IsBaseLevelForKey(user: UserKey) returns (base: bool)
      requires Valid() && CursorsBehind(user)
      modifies levelPtrs
      ensures Valid() && CursorsBehind(user)
      ensures base <==> IsBase(levels, level, user)
    {
      var lvl := level + 2;
      while lvl < NUM_LEVELS
        invariant level + 2 <= lvl <= NUM_LEVELS
        invariant Valid() && CursorsBehind(user)
        invariant forall l, i :: level + 2 <= l < lvl && 0 <= i < |levels[l]| ==>
                    !(levels[l][i].smallest.user <= user <= levels[l][i].largest.user)
      {
        ghost var files := levels[lvl];
        while levelPtrs[lvl] < |levels[lvl]|
          invariant Valid() && CursorsBehind(user)
          decreases |levels[lvl]| - levelPtrs[lvl]
        {
          var f := levels[lvl][levelPtrs[lvl]];
          if user <= f.largest.user {
            if user >= f.smallest.user {
              return false;
            }
            forall i | levelPtrs[lvl] < i < |files| ensures user < files[i].smallest.user {
              BoundsInOrder(f);
              assert Less(f.largest, files[i].smallest);
            }
            break;
          }
          levelPtrs[lvl] := levelPtrs[lvl] + 1;
        }
        assert forall i :: 0 <= i < |files| ==> !(files[i].smallest.user <= user <= files[i].largest.user);
        lvl := lvl + 1;
      }
      return true;
    }

    /** Whether the current output should be closed before `key` because it already overlaps too
        many grandparent bytes. Only this object's counters change. */
    method ShouldStopBefore(key: InternalKey) returns (stop: bool)
      requires Valid()
      modifies `grandparentIndex, `seenKey, `overlappedBytes
      ensures Valid() && seenKey
      ensures grandparentIndex >= old(grandparentIndex)
      ensures grandparentIndex < |grandparents| ==> !Less(grandparents[grandparentIndex].largest, key)
      ensures forall i :: old(grandparentIndex) <= i < grandparentIndex ==> Less(grandparents[i].largest, key)
      ensures var passed :=
                if old(seenKey) then TotalSize(grandparents[old(grandparentIndex)..grandparentIndex]) else 0;
              var total := old(overlappedBytes) + passed;
              && stop == (total > maxGrandparentOverlap)
              && overlappedBytes == (if stop then 0 else total)
    {
      while grandparentIndex < |grandparents| && Less(grandparents[grandparentIndex].largest, key)
        invariant old(grandparentIndex) <= grandparentIndex <= |grandparents|
        invariant forall i :: old(grandparentIndex) <= i < grandparentIndex ==> Less(grandparents[i].largest, key)
        invariant overlappedBytes == old(overlappedBytes) +
                    (if old(seenKey) then TotalSize(grandparents[old(grandparentIndex)..grandparentIndex]) else 0)
        invariant seenKey == old(seenKey)
      {
        if seenKey {
          overlappedBytes := overlappedBytes + grandparents[grandparentIndex].fileSize;
        }
        TotalSizeExtend(grandparents, old(grandparentIndex), grandparentIndex);
        grandparentIndex := grandparentIndex + 1;
      }
      seenKey := true;
      if overlappedBytes > maxGrandparentOverlap {
        overlappedBytes := 0;
        return true;
      }
      return false;
    }
  }

  /** The counters give, entry by entry, the stops of the input. */
  method StopAt(compaction: Compaction, input: seq<Entry>, n: nat) returns (stop: bool)
    requires compaction.Valid() && Sorted(input) && n < |input| && compaction.CountedTo(input, n)
    modifies compaction`grandparentIndex, compaction`seenKey, compaction`overlappedBytes
    ensures compaction.Valid() && compaction.CountedTo(input, n + 1)
    ensures stop <==> Stops(compaction.grandparents, compaction.maxGrandparentOverlap, input, n)
  {
    ghost var from, was := compaction.grandparentIndex, compaction.overlappedBytes;
    stop := compaction.ShouldStopBefore(input[n].key);
    if n == 0 {
      PassedIsFirst(compaction.grandparents, input[0].key, 0, compaction.grandparentIndex);
    } else {
      CountedNext(compaction.grandparents, compaction.maxGrandparentOverlap, input, n, from,
          compaction.grandparentIndex, was);
    }
  }

  // ---------------------------------------------------------------------------
  // Drop rules
  // ---------------------------------------------------------------------------

  /** Rule (A): the entry just before is for the same key and already visible to every snapshot. */
  predicate Hidden(input: seq<Entry>, i: nat, snapshot: nat)
    requires i < |input|
  {
    i > 0 && input[i - 1].key.user == input[i].key.user && input[i - 1].key.seqno <= snapshot
  }

  /** Rule (B): a deletion marker visible to every snapshot with nothing beneath it. */
  ghost predicate Obsolete(input: seq<Entry>, i: nat, snapshot: nat, base: iset<UserKey>)
    requires i < |input|
  {
    && input[i].key.kind == Deletion && input[i].key.seqno <= snapshot
    && input[i].key.user in base
  }

  ghost predicate Dropped(input: seq<Entry>, i: nat, snapshot: nat, base: iset<UserKey>)
    requires i < |input|
  {
    Hidden(input, i, snapshot) || Obsolete(input, i, snapshot, base)
  }

  /** What the loop keeps of the first `n` entries. */
  ghost function Survivors(input: seq<Entry>, n: nat, snapshot: nat, base: iset<UserKey>): seq<Entry>
    requires n <= |input|
  {
    if n == 0 then []
    else Survivors(input, n - 1, snapshot, base) +
         if Dropped(input, n - 1, snapshot, base) then [] else [input[n - 1]]
  }

  ghost function BaseKeys(levels: Levels, level: nat): iset<UserKey> {
    iset u: UserKey | IsBase(levels, level, u)
  }

  lemma {:induction false} SurvivorsExactly(input: seq<Entry>, n: nat, snapshot: nat, base: iset<UserKey>, e: Entry)
    requires n <= |input|
    ensures e in Survivors(input, n, snapshot, base) <==>
            exists i :: 0 <= i < n && input[i] == e && !Dropped(input, i, snapshot, base)
  {
    if n > 0 {
      SurvivorsExactly(input, n - 1, snapshot, base, e);
    }
  }

  /** What is dropped, over the whole input: an entry with a newer one of its key at or below the smallest
      snapshot, and a deletion at or below it of a key that no deeper file reaches. */
  lemma DroppedExactly(input: seq<Entry>, j: nat, snapshot: nat, levels: Levels, level: nat)
    requires Sorted(input) && j < |input|
    ensures Dropped(input, j, snapshot, BaseKeys(levels, level)) <==>
            || (exists i :: 0 <= i < j && input[i].key.user == input[j].key.user && input[i].key.seqno <= snapshot)
            || (input[j].key.kind == Deletion && input[j].key.seqno <= snapshot
                && forall l, f :: level + 2 <= l < |levels| && f in levels[l] ==>
                     !(f.smallest.user <= input[j].key.user <= f.largest.user))
  {
    forall i | 0 <= i < j && input[i].key.user == input[j].key.user && input[i].key.seqno <= snapshot
      ensures Hidden(input, j, snapshot)
    {
      assert Less(input[i].key, input[j].key);
      assert i < j - 1 ==> Less(input[i].key, input[j - 1].key) && Less(input[j - 1].key, input[j].key);
    }
  }

  /** The loop's test is the drop rules'. */
  lemma SurvivorsNext(input: seq<Entry>, n: nat, snapshot: nat, levels: Levels, level: nat,
                      currentUserKey: Option<UserKey>, lastSequenceForKey: nat, drop: bool)
    requires n < |input| && currentUserKey == (if n == 0 then None else Some(input[n - 1].key.user))
    requires n > 0 ==> lastSequenceForKey == input[n - 1].key.seqno
    requires drop <==>
      || (currentUserKey == Some(input[n].key.user) && lastSequenceForKey <= snapshot)
      || (input[n].key.kind == Deletion && input[n].key.seqno <= snapshot && IsBase(levels, level, input[n].key.user))
    ensures var base := BaseKeys(levels, level);
            Survivors(input, n + 1, snapshot, base) ==
            Survivors(input, n, snapshot, base) + if drop then [] else [input[n]]
  {
    assert drop <==> Dropped(input, n, snapshot, BaseKeys(levels, level));
  }

  /** A sorted run and its first and last key. */
  ghost predicate RunBounds(run: seq<Entry>, smallest: InternalKey, largest: InternalKey) {
    run != [] && Sorted(run) && smallest == run[0].key && largest == run[|run| - 1].key
  }

  lemma RunGrows(run: seq<Entry>, smallest: InternalKey, largest: InternalKey, e: Entry)
    requires run != [] ==> RunBounds(run, smallest, largest) && Less(largest, e.key)
    ensures RunBounds(run + [e], if run == [] then e.key else smallest, e.key) && (run + [e])[..|run|] == run
  {
    assert forall i :: 0 <= i < |run| ==> i == |run| - 1 || Less(run[i].key, run[|run| - 1].key);
  }

  /** DBImpl::CompactionState with the output methods of DBImpl. */
  class CompactionState {
    const compaction: Compaction
    const smallestSnapshot: nat
    const firstNumber: nat
    /** TableBuilder::FileSize while a table is being built, and after Finish. */
    const sizeSoFar: seq<Entry> -> nat
    const sizeFinished: seq<Entry> -> nat
    var outputs: Files
    var building: bool
    var current: seq<Entry>
    var currentSmallest: InternalKey
    var currentLargest: InternalKey
    var nextFileNumber: nat

    constructor (compaction: Compaction, snapshot: nat, nextFileNumber: nat,
                 sizeSoFar: seq<Entry> -> nat, sizeFinished: seq<Entry> -> nat)
      ensures this.compaction == compaction && smallestSnapshot == snapshot && firstNumber == nextFileNumber
      ensures this.sizeSoFar == sizeSoFar && this.sizeFinished == sizeFinished
      ensures Valid() && outputs == [] && !building
    {
      this.compaction, smallestSnapshot, firstNumber := compaction, snapshot, nextFileNumber;
      this.sizeSoFar, this.sizeFinished := sizeSoFar, sizeFinished;
      this.nextFileNumber := nextFileNumber;
      outputs, building, current := [], false, [];
    }

    /** Finished outputs are well-formed, disjoint and consecutively numbered; the open table continues
        after them and is still under the size limit. */
    ghost predicate Valid()
      reads this
    {
      && OutputsOk()
      && nextFileNumber == firstNumber + |outputs| + (if building then 1 else 0)
      && (building <==> current != [])
      && (building ==> CurrentOk() && sizeSoFar(current) < compaction.maxOutputFileSize)
    }

    ghost predicate OutputsOk()
      reads this`outputs
    {
      && AllWellFormed(outputs) && LevelSorted(outputs)
      && forall i :: 0 <= i < |outputs| ==>
          outputs[i].number == firstNumber + i && outputs[i].fileSize == sizeFinished(outputs[i].entries)
    }

    ghost predicate CurrentOk()
      reads this
    {
      && RunBounds(current, currentSmallest, currentLargest)
      && (outputs != [] ==> Less(outputs[|outputs| - 1].largest, currentSmallest))
    }

    /** Valid, except that the open table may have just reached the size limit. */
    ghost predicate Closable()
      reads this
    {
      && building && OutputsOk() && CurrentOk()
      && nextFileNumber == firstNumber + |outputs| + 1
    }

    /** Everything kept so far, in order. */
    ghost function Kept(): seq<Entry>
      reads this
    {
      Flatten(outputs) + current
    }

    /** The outputs and the open table as runs of entries. */
    ghost function Cut(): Cutting
      reads this
    {
      Cutting(RunsOf(outputs), current)
    }

    /** `key` comes after everything kept so far. */
    ghost predicate Behind(key: InternalKey)
      reads this
    {
      && (current != [] ==> Less(currentLargest, key))
      && (outputs != [] ==> Less(outputs[|outputs| - 1].largest, key))
    }

    method OpenCompactionOutputFile()
      requires Valid() && !building
      modifies this`building, this`nextFileNumber
      ensures building && nextFileNumber == old(nextFileNumber) + 1
    {
      nextFileNumber := nextFileNumber + 1;
      building := true;
    }

    method FinishCompactionOutputFile()
      requires Closable()
      modifies this`outputs, this`building, this`current
      ensures Valid() && !building && Kept() == old(Kept())
      ensures |outputs| == old(|outputs|) + 1 && outputs[..|outputs| - 1] == old(outputs)
      ensures outputs[|outputs| - 1].largest == old(currentLargest) && Cut() == Closed(old(Cut()))
    {
      var file := FileMetaData(nextFileNumber - 1, sizeFinished(current), currentSmallest, currentLargest, current);
      AppendFile(outputs, file);
      RunsOfMore(outputs, file);
      outputs := outputs + [file];
      current, building := [], false;
    }

    /** TableBuilder::Add with the bookkeeping of the current output's bounds. */
    method AddToCurrent(e: Entry)
      requires current != [] ==> CurrentOk()
      requires Behind(e.key) && building
      modifies this`current, this`currentSmallest, this`currentLargest
      ensures CurrentOk() && current == old(current) + [e]
    {
      RunGrows(current, currentSmallest, currentLargest, e);
      if current == [] {
        currentSmallest := e.key;
      }
      currentLargest := e.key;
      current := current + [e];
    }

    /** Add an entry to the open table, opening one first and closing it after if need be. */
    method Keep(e: Entry)
      requires Valid() && Behind(e.key)
      modifies this
      ensures Valid() && Kept() == old(Kept()) + [e]
      ensures Cut() == WithEntry(old(Cut()), e, sizeSoFar, compaction.maxOutputFileSize)
      ensures forall k :: Less(e.key, k) ==> Behind(k)
    {
      if !building {
        OpenCompactionOutputFile();
      }
      AddToCurrent(e);
      assert Kept() == old(Kept()) + [e];
      if sizeSoFar(current) >= compaction.maxOutputFileSize {
        FinishCompactionOutputFile();
      }
    }

    /** The two drop rules, given the sequence number of the previous entry of the same key. */
    method ShouldDrop(key: InternalKey, lastSequenceForKey: nat) returns (drop: bool)
      requires compaction.Valid() && compaction.CursorsBehind(key.user)
      modifies compaction.levelPtrs
      ensures compaction.Valid() && compaction.CursorsBehind(key.user)
      ensures drop <==>
        || lastSequenceForKey <= smallestSnapshot
        || (key.kind == Deletion && key.seqno <= smallestSnapshot
            && IsBase(compaction.levels, compaction.level, key.user))
    {
      if lastSequenceForKey <= smallestSnapshot {
        return true;
      } else if key.kind == Deletion && key.seqno <= smallestSnapshot {
        drop := compaction.IsBaseLevelForKey(key.user);
      } else {
        return false;
      }
    }

    /** One round of the merge loop. */
    method ProcessEntry(input: seq<Entry>, n: nat, currentUserKey: Option<UserKey>, lastSequenceForKey: nat)
      returns (drop: bool)
      requires Sorted(input) && n < |input| && compaction.Valid() && compaction.CountedTo(input, n)
      requires Valid() && Behind(input[n].key) && smallestSnapshot < MAX_SEQUENCE
      requires compaction.CursorsBehind(input[n].key.user)
      modifies this, compaction, compaction.levelPtrs
      ensures Valid() && compaction.Valid() && compaction.CursorsBehind(input[n].key.user)
      ensures compaction.CountedTo(input, n + 1) && forall k :: Less(input[n].key, k) ==> Behind(k)
      ensures drop <==>
        || (currentUserKey == Some(input[n].key.user) && lastSequenceForKey <= smallestSnapshot)
        || (input[n].key.kind == Deletion && input[n].key.seqno <= smallestSnapshot
            && IsBase(compaction.levels, compaction.level, input[n].key.user))
      ensures Kept() == old(Kept()) + if drop then [] else [input[n]]
      ensures Cut() == Round(old(Cut()), input[n], StopsAt(input, n), drop, sizeSoFar, compaction.maxOutputFileSize)
    {
      var e := input[n];
      EndIfStopped(input, n);
      var last := if currentUserKey == Some(e.key.user) then lastSequenceForKey else MAX_SEQUENCE;
      drop := ShouldDrop(e.key, last);
      KeepUnless(drop, e);
    }

    method KeepUnless(drop: bool, e: Entry)
      requires Valid() && Behind(e.key)
      modifies this
      ensures Valid() && Kept() == old(Kept()) + if drop then [] else [e]
      ensures Cut() == if drop then old(Cut()) else WithEntry(old(Cut()), e, sizeSoFar, compaction.maxOutputFileSize)
      ensures forall k :: Less(e.key, k) ==> Behind(k)
    {
      if !drop {
        Keep(e);
      } else {
        LessTransitive(e.key);
      }
    }

    /** The count at entry `n`, and an end of the open output if it calls for one. */
    method EndIfStopped(input: seq<Entry>, n: nat)
      requires Sorted(input) && n < |input| && compaction.Valid() && compaction.CountedTo(input, n)
      requires Valid() && Behind(input[n].key) && compaction.CursorsBehind(input[n].key.user)
      modifies this`outputs, this`building, this`current
      modifies compaction`grandparentIndex, compaction`seenKey, compaction`overlappedBytes
      ensures Valid() && Behind(input[n].key) && Kept() == old(Kept())
      ensures compaction.Valid() && compaction.CountedTo(input, n + 1)
      ensures compaction.CursorsBehind(input[n].key.user)
      ensures Cut() == if StopsAt(input, n) then Closed(old(Cut())) else old(Cut())
    {
      var stop := StopAt(compaction, input, n);
      if stop && building {
        FinishCompactionOutputFile();
      }
    }

    /** The grandparent bytes passed call for a new output before entry `n`. */
    predicate StopsAt(input: seq<Entry>, n: nat)
      requires n < |input|
    {
      Stops(compaction.grandparents, compaction.maxGrandparentOverlap, input, n)
    }

    lemma LessTransitive(key: InternalKey)
      requires Behind(key)
      ensures forall k :: Less(key, k) ==> Behind(k)
    {
    }

    ghost predicate IsCut(input: seq<Entry>, n: nat)
      requires n <= |input|
      reads this
    {
      CutOk(Cut(), compaction.grandparents, compaction.maxGrandparentOverlap, input, n, sizeSoFar,
          compaction.maxOutputFileSize)
    }

    /** The first `n` entries are done. */
    ghost predicate Reached(input: seq<Entry>, n: nat, currentUserKey: Option<UserKey>, lastSequenceForKey: nat)
      requires n <= |input|
      reads this, compaction, compaction.levelPtrs
    {
      && Valid() && compaction.Valid() && compaction.CountedTo(input, n) && IsCut(input, n)
      && (n < |input| ==> Behind(input[n].key) && compaction.CursorsBehind(input[n].key.user))
      && Kept() == Survivors(input, n, smallestSnapshot, BaseKeys(compaction.levels, compaction.level))
      && currentUserKey == (if n == 0 then None else Some(input[n - 1].key.user))
      && (n > 0 ==> lastSequenceForKey == input[n - 1].key.seqno)
    }

    method ReachNext(input: seq<Entry>, n: nat, currentUserKey: Option<UserKey>, lastSequenceForKey: nat)
      requires Sorted(input) && n < |input| && smallestSnapshot < MAX_SEQUENCE
      requires Reached(input, n, currentUserKey, lastSequenceForKey)
      modifies this, compaction, compaction.levelPtrs
      ensures Reached(input, n + 1, Some(input[n].key.user), input[n].key.seqno)
    {
      CutBefore(input[n].key);
      ghost var was := Cut();
      var drop := ProcessEntry(input, n, currentUserKey, lastSequenceForKey);
      RoundKeepsCut(was, compaction.grandparents, compaction.maxGrandparentOverlap, input, n, drop, sizeSoFar,
          compaction.maxOutputFileSize);
      SurvivorsNext(input, n, smallestSnapshot, compaction.levels, compaction.level, currentUserKey,
          lastSequenceForKey, drop);
      assert n + 1 < |input| ==> Less(input[n].key, input[n + 1].key);
    }

    /** The merge loop: reads the sorted input once, keeps exactly the survivors, and ends an output exactly
        at the size limit or before a key by which too many grandparent bytes have been passed. */
    method DoCompactionWork(input: seq<Entry>)
      requires Valid() && outputs == [] && !building
      requires compaction.Valid() && (forall u :: compaction.CursorsBehind(u)) && compaction.CountedTo(input, 0)
      requires Sorted(input) && smallestSnapshot < MAX_SEQUENCE
      modifies this, compaction, compaction.levelPtrs
      ensures Valid() && !building
      ensures Flatten(outputs) == Survivors(input, |input|, smallestSnapshot,
          BaseKeys(compaction.levels, compaction.level))
      ensures CutRight(outputs, compaction.grandparents, compaction.maxGrandparentOverlap, input, sizeSoFar,
          compaction.maxOutputFileSize)
    {
      var _, _ := MergeAll(input);
      FinishLast(input);
    }

    /** The loop, up to the end of the input. */
    method MergeAll(input: seq<Entry>) returns (currentUserKey: Option<UserKey>, lastSequenceForKey: nat)
      requires Sorted(input) && smallestSnapshot < MAX_SEQUENCE && Reached(input, 0, None, MAX_SEQUENCE)
      modifies this, compaction, compaction.levelPtrs
      ensures Reached(input, |input|, currentUserKey, lastSequenceForKey)
    {
      currentUserKey, lastSequenceForKey := None, MAX_SEQUENCE;
      var i := 0;
      while i < |input|
        invariant 0 <= i <= |input|
        invariant forall last: nat :: last == lastSequenceForKey ==> Reached(input, i, currentUserKey, last)
      {
        ReachNext(input, i, currentUserKey, lastSequenceForKey);
        currentUserKey, lastSequenceForKey := Some(input[i].key.user), input[i].key.seqno;
        i := i + 1;
      }
    }

    /** The open output, if there is one, is the last. */
    method FinishLast(input: seq<Entry>)
      requires Valid() && IsCut(input, |input|)
      modifies this`outputs, this`building, this`current
      ensures Valid() && !building && Flatten(outputs) == old(Kept())
      ensures CutRight(outputs, compaction.grandparents, compaction.maxGrandparentOverlap, input, sizeSoFar,
          compaction.maxOutputFileSize)
    {
      EndKeepsCut(Cut(), compaction.grandparents, compaction.maxGrandparentOverlap, input, sizeSoFar,
          compaction.maxOutputFileSize);
      if building {
        FinishCompactionOutputFile();
      }
      FilesAreCut(outputs, compaction.grandparents, compaction.maxGrandparentOverlap, input, sizeSoFar,
          compaction.maxOutputFileSize);
    }

    lemma CutBefore(key: InternalKey)
      requires Valid() && Behind(key)
      ensures EndsBefore(Cut(), key)
    {
      LevelAscends(outputs);
    }
  }

  // ---------------------------------------------------------------------------
  // When reads survive
  // ---------------------------------------------------------------------------

  /** Dropping the deletion at `i` brings back `r`, an entry outside the compaction: the marker was
      the newest thing for its key at `snapshot`, and `r` is the newest thing below it. */
  ghost predicate Resurrects(input: seq<Entry>, snapshot: nat, base: iset<UserKey>, rest: Entries, user: UserKey,
      i: nat, r: Entry) {
    && i < |input| && input[i].key.user == user
    && Obsolete(input, i, snapshot, base) && !Hidden(input, i, snapshot)
    && input[i].key.seqno > 0 && Newest(rest, user, input[i].key.seqno - 1, r) && r.key.kind == Value
    && forall f :: f in rest && f.key.user == user ==> !(input[i].key.seqno < f.key.seqno <= snapshot)
  }

  ghost predicate SomeResurrection(input: seq<Entry>, snapshot: nat, base: iset<UserKey>, rest: Entries,
      user: UserKey) {
    exists i: nat, r: Entry :: Resurrects(input, snapshot, base, rest, user, i, r)
  }

  ghost predicate Compactable(input: seq<Entry>, rest: Entries) {
    && Sorted(input) && UniqueSeqs(SetOf(input) + rest)
    && forall e :: e in input ==> e !in rest
  }

  ghost function Before(input: seq<Entry>, rest: Entries): Entries { SetOf(input) + rest }

  ghost function After(input: seq<Entry>, snapshot: nat, base: iset<UserKey>, rest: Entries): Entries {
    SetOf(Survivors(input, |input|, snapshot, base)) + rest
  }

  lemma SameUserOrder(input: seq<Entry>, rest: Entries, i: nat, j: nat)
    requires Compactable(input, rest) && i < j < |input| && input[i].key.user == input[j].key.user
    ensures input[i].key.seqno > input[j].key.seqno
    ensures input[j - 1].key.user == input[j].key.user
    ensures i < j - 1 ==> input[i].key.seqno > input[j - 1].key.seqno
  {
    assert Less(input[i].key, input[j].key);
    assert input[i] in SetOf(input) + rest && input[j] in SetOf(input) + rest;
    assert input[j - 1] in SetOf(input) + rest;
    assert Less(input[j - 1].key, input[j].key);
    if i < j - 1 {
      assert Less(input[i].key, input[j - 1].key);
    }
  }

  lemma AfterShrinks(input: seq<Entry>, snapshot: nat, base: iset<UserKey>, rest: Entries)
    ensures After(input, snapshot, base, rest) <= Before(input, rest)
  {
    forall e | e in Survivors(input, |input|, snapshot, base) ensures e in input {
      SurvivorsExactly(input, |input|, snapshot, base, e);
    }
  }

  lemma HiddenIsNotNewest(input: seq<Entry>, rest: Entries, snapshot: nat, user: UserKey, at: nat, i: nat)
    requires Compactable(input, rest) && i < |input| && Hidden(input, i, snapshot) && at >= snapshot
    ensures !Newest(Before(input, rest), user, at, input[i])
  {
    SameUserOrder(input, rest, i - 1, i);
    assert input[i - 1] in Before(input, rest);
  }

  lemma DroppedIsGone(input: seq<Entry>, snapshot: nat, base: iset<UserKey>, rest: Entries, i: nat)
    requires Compactable(input, rest) && i < |input| && Dropped(input, i, snapshot, base)
    ensures input[i] !in After(input, snapshot, base, rest)
  {
    SurvivorsExactly(input, |input|, snapshot, base, input[i]);
    forall j | 0 <= j < |input| && j != i ensures input[j] != input[i] {
      if i < j {
        assert Less(input[i].key, input[j].key);
      } else {
        assert Less(input[j].key, input[i].key);
      }
    }
  }

  /** An entry that the loop drops cannot be the newest for any live snapshot, unless it is an
      obsolete deletion marker. */
  lemma NewestIsDroppedOnlyIfObsolete(input: seq<Entry>, snapshot: nat, base: iset<UserKey>, rest: Entries,
      user: UserKey, at: nat, e: Entry)
    returns (i: nat)
    requires Compactable(input, rest) && at >= snapshot
    requires Newest(Before(input, rest), user, at, e) && e !in After(input, snapshot, base, rest)
    ensures i < |input| && input[i] == e
    ensures Obsolete(input, i, snapshot, base) && !Hidden(input, i, snapshot)
  {
    assert e in input;
    i :| 0 <= i < |input| && input[i] == e;
    SurvivorsExactly(input, |input|, snapshot, base, e);
    assert Dropped(input, i, snapshot, base);
    if Hidden(input, i, snapshot) {
      HiddenIsNotNewest(input, rest, snapshot, user, at, i);
    }
  }

  /** After the marker at `i` is gone, only `rest` can answer below it. */
  lemma BelowMarkerOnlyRest(input: seq<Entry>, snapshot: nat, base: iset<UserKey>, rest: Entries, i: nat, w: Entry)
    requires Compactable(input, rest) && i < |input|
    requires Obsolete(input, i, snapshot, base)
    requires w in After(input, snapshot, base, rest)
    requires w.key.user == input[i].key.user && w.key.seqno < input[i].key.seqno
    ensures w in rest
  {
    if w !in rest {
      SurvivorsExactly(input, |input|, snapshot, base, w);
      var j :| 0 <= j < |input| && input[j] == w && !Dropped(input, j, snapshot, base);
      if j < i {
        SameUserOrder(input, rest, j, i);
      } else {
        SameUserOrder(input, rest, i, j);
      }
      assert false;
    }
  }

  lemma PreservedWithoutResurrection(input: seq<Entry>, snapshot: nat, base: iset<UserKey>, rest: Entries,
      user: UserKey, at: nat)
    requires Compactable(input, rest) && at >= snapshot
    requires !SomeResurrection(input, snapshot, base, rest, user)
    ensures Read(After(input, snapshot, base, rest), user, at) == Read(Before(input, rest), user, at)
  {
    var before, after := Before(input, rest), After(input, snapshot, base, rest);
    AfterShrinks(input, snapshot, base, rest);
    var v, w := Visible(before, user, at), Visible(after, user, at);
    if v.Some? && v.value in after {
      NewestIsVisible(after, user, at, v.value);
    } else if v.Some? {
      var e := v.value;
      var i := NewestIsDroppedOnlyIfObsolete(input, snapshot, base, rest, user, at, e);
      if w.Some? && w.value.key.kind == Value {
        assert w.value.key.seqno < e.key.seqno;
        BelowMarkerOnlyRest(input, snapshot, base, rest, i, w.value);
        assert Newest(rest, user, e.key.seqno - 1, w.value);
        assert Resurrects(input, snapshot, base, rest, user, i, w.value);
        assert false;
      }
    }
  }

  lemma MarkerIsNewest(input: seq<Entry>, snapshot: nat, base: iset<UserKey>, rest: Entries, user: UserKey, i: nat,
      r: Entry)
    requires Compactable(input, rest)
    requires Resurrects(input, snapshot, base, rest, user, i, r)
    ensures Newest(Before(input, rest), user, snapshot, input[i])
  {
    var e := input[i];
    assert e in Before(input, rest);
    forall f | f in Before(input, rest) && f.key.user == user && f.key.seqno <= snapshot
      ensures f.key.seqno <= e.key.seqno
    {
      if f in input {
        var j :| 0 <= j < |input| && input[j] == f;
        if j < i {
          SameUserOrder(input, rest, j, i);
        } else if i < j {
          SameUserOrder(input, rest, i, j);
        }
      }
    }
  }

  lemma ResurrectedIsNewest(input: seq<Entry>, snapshot: nat, base: iset<UserKey>, rest: Entries, user: UserKey, i: nat,
      r: Entry)
    requires Compactable(input, rest)
    requires Resurrects(input, snapshot, base, rest, user, i, r)
    ensures Newest(After(input, snapshot, base, rest), user, snapshot, r)
  {
    var e, after := input[i], After(input, snapshot, base, rest);
    AfterShrinks(input, snapshot, base, rest);
    MarkerIsNewest(input, snapshot, base, rest, user, i, r);
    forall f | f in after && f.key.user == user && f.key.seqno <= snapshot
      ensures f.key.seqno <= r.key.seqno
    {
      assert f.key.seqno <= e.key.seqno;
      DroppedIsGone(input, snapshot, base, rest, i);
      assert f != e;
      BelowMarkerOnlyRest(input, snapshot, base, rest, i, f);
    }
  }

  /** The exact condition: reads of `user` at every snapshot the compaction must honour are
      unchanged if and only if no dropped deletion marker uncovers an older value outside it. */
  lemma ReadsPreservedExactly(input: seq<Entry>, snapshot: nat, base: iset<UserKey>, rest: Entries, user: UserKey)
    requires Compactable(input, rest)
    ensures KeyReadsAlike(snapshot, After(input, snapshot, base, rest), Before(input, rest), user)
       <==> !SomeResurrection(input, snapshot, base, rest, user)
  {
    if !SomeResurrection(input, snapshot, base, rest, user) {
      forall at | at >= snapshot
        ensures Read(After(input, snapshot, base, rest), user, at) == Read(Before(input, rest), user, at)
      {
        PreservedWithoutResurrection(input, snapshot, base, rest, user, at);
      }
    } else {
      var i: nat, r: Entry :| Resurrects(input, snapshot, base, rest, user, i, r);
      AfterShrinks(input, snapshot, base, rest);
      MarkerIsNewest(input, snapshot, base, rest, user, i, r);
      ResurrectedIsNewest(input, snapshot, base, rest, user, i, r);
      NewestIsVisible(Before(input, rest), user, snapshot, input[i]);
      NewestIsVisible(After(input, snapshot, base, rest), user, snapshot, r);
      assert Read(After(input, snapshot, base, rest), user, snapshot) != Read(Before(input, rest), user, snapshot);
    }
  }
}
