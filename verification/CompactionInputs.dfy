/** Choosing what a compaction reads: overlapping files, boundary files, and the level for a flush. */
module CompactionInputs {
  import opened DbFormat
  import opened Version

  // ---------------------------------------------------------------------------
  // Overlapping files
  // ---------------------------------------------------------------------------

  /** The files that reach into [lo, hi], in level order. */
  function Overlapping(files: Files, lo: Option<UserKey>, hi: Option<UserKey>): Files {
    if files == [] then []
    else Overlapping(files[..|files| - 1], lo, hi) +
         if Overlaps(files[|files| - 1], lo, hi) then [files[|files| - 1]] else []
  }

  lemma {:induction false} OverlappingExactly(files: Files, lo: Option<UserKey>, hi: Option<UserKey>, f: FileMetaData)
    ensures f in Overlapping(files, lo, hi) <==> f in files && Overlaps(f, lo, hi)
  {
    if files != [] {
      OverlappingExactly(files[..|files| - 1], lo, hi, f);
    }
  }

  predicate Inside(f: FileMetaData, lo: Option<UserKey>, hi: Option<UserKey>) {
    && (lo.Some? ==> lo.value <= f.smallest.user)
    && (hi.Some? ==> f.largest.user <= hi.value)
  }

  /** [lo, hi] contains [lo', hi']. */
  predicate Contains(lo: Option<UserKey>, hi: Option<UserKey>, lo': Option<UserKey>, hi': Option<UserKey>) {
    && (lo.Some? <==> lo'.Some?) && (lo.Some? ==> lo.value <= lo'.value)
    && (hi.Some? <==> hi'.Some?) && (hi.Some? ==> hi'.value <= hi.value)
  }

  predicate Touch(f: FileMetaData, g: FileMetaData) {
    f.smallest.user <= g.largest.user && g.smallest.user <= f.largest.user
  }

  /** `picked` holds every file reaching into [lo, hi] and every file touching a picked one. */
  ghost predicate OverlapClosed(files: Files, lo: Option<UserKey>, hi: Option<UserKey>, picked: set<FileMetaData>) {
    && (forall f :: f in files && Overlaps(f, lo, hi) ==> f in picked)
    && (forall f, g :: f in picked && f in files && g in files && Touch(f, g) ==> g in picked)
  }

  /** The range grown so far reaches only files that every closed set must contain. */
  ghost predicate OnlyNeeded(files: Files, begin: Option<UserKey>, end: Option<UserKey>, lo: Option<UserKey>,
      hi: Option<UserKey>) {
    forall picked, g :: OverlapClosed(files, begin, end, picked) && g in files && Overlaps(g, lo, hi) ==> g in picked
  }

  function StartsBefore(files: Files, u: UserKey): nat {
    if files == [] then 0
    else StartsBefore(files[..|files| - 1], u) + if files[|files| - 1].smallest.user < u then 1 else 0
  }

  function EndsAfter(files: Files, u: UserKey): nat {
    if files == [] then 0
    else EndsAfter(files[..|files| - 1], u) + if files[|files| - 1].largest.user > u then 1 else 0
  }

  lemma {:induction false} StartsBeforeShrinks(files: Files, u: UserKey, v: UserKey)
    requires v < u
    ensures StartsBefore(files, v) <= StartsBefore(files, u)
    ensures (exists f :: f in files && f.smallest.user == v) ==> StartsBefore(files, v) < StartsBefore(files, u)
  {
    if files != [] {
      StartsBeforeShrinks(files[..|files| - 1], u, v);
      if f :| f in files && f.smallest.user == v {
        assert f == files[|files| - 1] || f in files[..|files| - 1];
      }
    }
  }

  lemma {:induction false} EndsAfterShrinks(files: Files, u: UserKey, v: UserKey)
    requires u < v
    ensures EndsAfter(files, v) <= EndsAfter(files, u)
    ensures (exists f :: f in files && f.largest.user == v) ==> EndsAfter(files, v) < EndsAfter(files, u)
  {
    if files != [] {
      EndsAfterShrinks(files[..|files| - 1], u, v);
      if f :| f in files && f.largest.user == v {
        assert f == files[|files| - 1] || f in files[..|files| - 1];
      }
    }
  }

  /** How far the range can still grow. */
  function Slack(files: Files, lo: Option<UserKey>, hi: Option<UserKey>): nat {
    (if lo.Some? then StartsBefore(files, lo.value) else 0) + (if hi.Some? then EndsAfter(files, hi.value) else 0)
  }

  /** Growing the range by a file it reaches still reaches only needed files. */
  lemma GrowKeepsNeeded(files: Files, begin: Option<UserKey>, end: Option<UserKey>,
                        lo: Option<UserKey>, hi: Option<UserKey>, f: FileMetaData, lo': Option<UserKey>,
                            hi': Option<UserKey>)
    requires OnlyNeeded(files, begin, end, lo, hi) && f in files && Overlaps(f, lo, hi) && AllWellFormed(files)
    requires (lo' == lo && hi.Some? && hi' == Some(f.largest.user))
        || (hi' == hi && lo.Some? && lo' == Some(f.smallest.user))
    ensures OnlyNeeded(files, begin, end, lo', hi')
  {
    forall picked, g | OverlapClosed(files, begin, end, picked) && g in files && Overlaps(g, lo', hi')
      ensures g in picked
    {
      BoundsInOrder(g);
      BoundsInOrder(f);
      if !Overlaps(g, lo, hi) {
        assert Touch(f, g);
      }
    }
  }

  /** Version::GetOverlappingInputs. Level 0 files overlap one another, so there the range grows,
      and the scan restarts, until it is closed; the result is then the least closed set. */
  method GetOverlappingInputs(level: nat, files: Files, begin: Option<UserKey>, end: Option<UserKey>)
    returns (inputs: Files, ghost lo: Option<UserKey>, ghost hi: Option<UserKey>)
    requires AllWellFormed(files)
    ensures inputs == Overlapping(files, lo, hi) && Contains(lo, hi, begin, end)
    ensures level > 0 ==> lo == begin && hi == end
    ensures level == 0 ==> forall f :: f in inputs ==> Inside(f, lo, hi)
    ensures forall picked, f :: OverlapClosed(files, begin, end, picked) && f in inputs ==> f in picked
  {
    inputs := [];
    var userBegin, userEnd := begin, end;
    var i := 0;
    while i < |files|
      invariant 0 <= i <= |files| && Contains(userBegin, userEnd, begin, end)
      invariant inputs == Overlapping(files[..i], userBegin, userEnd)
      invariant level > 0 ==> userBegin == begin && userEnd == end
      invariant level == 0 ==> forall f :: f in inputs ==> Inside(f, userBegin, userEnd)
      invariant OnlyNeeded(files, begin, end, userBegin, userEnd)
      decreases Slack(files, userBegin, userEnd), |files| - i
    {
      var f := files[i];
      OverlappingNext(files, i, userBegin, userEnd);
      i := i + 1;
      if AfterFile(userBegin, f) || BeforeFile(userEnd, f) {
      } else {
        inputs := inputs + [f];
        if level == 0 {
          if begin.Some? && f.smallest.user < userBegin.value {
            GrowKeepsNeeded(files, begin, end, userBegin, userEnd, f, Some(f.smallest.user), userEnd);
            StartsBeforeShrinks(files, userBegin.value, f.smallest.user);
            userBegin := Some(f.smallest.user);
            inputs, i := [], 0;
          } else if end.Some? && f.largest.user > userEnd.value {
            GrowKeepsNeeded(files, begin, end, userBegin, userEnd, f, userBegin, Some(f.largest.user));
            EndsAfterShrinks(files, userEnd.value, f.largest.user);
            userEnd := Some(f.largest.user);
            inputs, i := [], 0;
          }
        }
      }
    }
    assert files[..i] == files;
    lo, hi := userBegin, userEnd;
    forall picked, f | OverlapClosed(files, begin, end, picked) && f in inputs ensures f in picked {
      OverlappingExactly(files, lo, hi, f);
    }
  }

  // ---------------------------------------------------------------------------
  // Key ranges
  // ---------------------------------------------------------------------------

  ghost predicate IsSmallest(files: Files, key: InternalKey) {
    && (exists f :: f in files && f.smallest == key)
    && forall f :: f in files ==> !Less(f.smallest, key)
  }

  ghost predicate IsLargest(files: Files, key: InternalKey) {
    && (exists f :: f in files && f.largest == key)
    && forall f :: f in files ==> !Less(key, f.largest)
  }

  /** VersionSet::GetRange: the smallest range of internal keys that covers the files. */
  method GetRange(inputs: Files) returns (smallest: InternalKey, largest: InternalKey)
    requires inputs != []
    ensures IsSmallest(inputs, smallest) && IsLargest(inputs, largest)
  {
    smallest, largest := inputs[0].smallest, inputs[0].largest;
    assert inputs[0] in inputs;
    for i := 1 to |inputs|
      invariant exists j :: 0 <= j < i && inputs[j].smallest == smallest
      invariant exists j :: 0 <= j < i && inputs[j].largest == largest
      invariant forall j :: 0 <= j < i ==> !Less(inputs[j].smallest, smallest) && !Less(largest, inputs[j].largest)
    {
      if Less(inputs[i].smallest, smallest) {
        smallest := inputs[i].smallest;
      }
      if Less(largest, inputs[i].largest) {
        largest := inputs[i].largest;
      }
    }
  }

  // ---------------------------------------------------------------------------
  // Boundary files
  // ---------------------------------------------------------------------------

  /** `f` starts after `key` with the same user key, so it holds older entries of that user key. */
  predicate IsBoundary(f: FileMetaData, key: InternalKey) {
    Less(key, f.smallest) && f.smallest.user == key.user
  }

  ghost predicate BoundaryClosed(levelFiles: Files, inputs: Files) {
    forall key, f :: IsLargest(inputs, key) && f in levelFiles ==> !IsBoundary(f, key)
  }

  /** File `k` is the first of the level to start after the largest key of those before it, and shares its
      user key. */
  ghost predicate Continues(levelFiles: Files, files: Files, k: nat)
    requires k < |files|
  {
    exists key :: IsLargest(files[..k], key) && files[k] in levelFiles && IsBoundary(files[k], key)
               && forall f :: f in levelFiles && IsBoundary(f, key) ==> !Less(f.smallest, files[k].smallest)
  }

  /** From place `n` on the files are those that continue the ones before them, until none does. */
  ghost predicate ClosedFrom(levelFiles: Files, files: Files, n: nat) {
    && n <= |files| && BoundaryClosed(levelFiles, files)
    && forall k {:trigger Continues(levelFiles, files, k)} :: n <= k < |files| ==> Continues(levelFiles, files, k)
  }

  /** `sub` is a contiguous run of the level. */
  ghost predicate IsRun(sub: Files, files: Files) {
    exists a, b :: 0 <= a <= b <= |files| && sub == files[a..b]
  }

  method FindSmallestBoundaryFile(levelFiles: Files, largestKey: InternalKey) returns (best: Option<FileMetaData>)
    ensures best.None? ==> forall f :: f in levelFiles ==> !IsBoundary(f, largestKey)
    ensures best.Some? ==>
      && best.value in levelFiles && IsBoundary(best.value, largestKey)
      && forall f :: f in levelFiles && IsBoundary(f, largestKey) ==> !Less(f.smallest, best.value.smallest)
  {
    best := None;
    for i := 0 to |levelFiles|
      invariant best.None? ==> forall j :: 0 <= j < i ==> !IsBoundary(levelFiles[j], largestKey)
      invariant best.Some? ==>
        && best.value in levelFiles && IsBoundary(best.value, largestKey)
        && forall j :: 0 <= j < i && IsBoundary(levelFiles[j], largestKey)
            ==> !Less(levelFiles[j].smallest, best.value.smallest)
    {
      var f := levelFiles[i];
      if Less(largestKey, f.smallest) && f.smallest.user == largestKey.user {
        if best.None? || Less(f.smallest, best.value.smallest) {
          best := Some(f);
        }
      }
    }
  }

  function StartsAfter(files: Files, key: InternalKey): nat {
    if files == [] then 0
    else StartsAfter(files[..|files| - 1], key) + if Less(key, files[|files| - 1].smallest) then 1 else 0
  }

  lemma {:induction false} StartsAfterShrinks(files: Files, key: InternalKey, f: FileMetaData, key': InternalKey)
    requires Less(key, f.smallest) && (f.smallest == key' || Less(f.smallest, key'))
    ensures StartsAfter(files, key') <= StartsAfter(files, key)
    ensures f in files ==> StartsAfter(files, key') < StartsAfter(files, key)
  {
    if files != [] {
      StartsAfterShrinks(files[..|files| - 1], key, f, key');
      assert f in files ==> f == files[|files| - 1] || f in files[..|files| - 1];
    }
  }

  lemma LargestAscends(files: Files, i: nat, j: nat)
    requires AllWellFormed(files) && LevelSorted(files) && i < j < |files|
    ensures Less(files[i].largest, files[j].largest)
  {
    LevelAscends(files);
  }

  lemma RunEndsLast(files: Files, a: nat, b: nat, f: FileMetaData)
    requires AllWellFormed(files) && LevelSorted(files) && a < b <= |files| && f in files[a..b]
    ensures files[b - 1] in files[a..b]
    ensures f == files[b - 1] || Less(f.largest, files[b - 1].largest)
  {
    var run := files[a..b];
    assert files[b - 1] == run[b - a - 1];
    var m :| 0 <= m < |run| && run[m] == f;
    assert f == files[a + m];
    if a + m < b - 1 {
      LargestAscends(files, a + m, b - 1);
    }
  }

  lemma LastOfRunIsLargest(files: Files, a: nat, b: nat, key: InternalKey)
    requires AllWellFormed(files) && LevelSorted(files) && a < b <= |files| && IsLargest(files[a..b], key)
    ensures key == files[b - 1].largest
  {
    var h :| h in files[a..b] && h.largest == key;
    RunEndsLast(files, a, b, h);
  }

  /** Above level 0, the smallest file that starts after the end of file `b - 1` is file `b`. */
  lemma NextStartsNext(files: Files, b: nat, f: FileMetaData)
    requires AllWellFormed(files) && LevelSorted(files) && 0 < b <= |files| && f in files
    requires Less(files[b - 1].largest, f.smallest)
    ensures b < |files| && Less(files[b - 1].largest, files[b].smallest)
    ensures f == files[b] || Less(files[b].smallest, f.smallest)
  {
    var j :| 0 <= j < |files| && files[j] == f;
    BoundsInOrder(f);
    LevelAscends(files);
  }

  lemma NextIsTheBoundary(files: Files, b: nat, f: FileMetaData)
    requires AllWellFormed(files) && LevelSorted(files) && 0 < b <= |files|
    requires f in files && IsBoundary(f, files[b - 1].largest)
    requires forall g :: g in files && IsBoundary(g, files[b - 1].largest) ==> !Less(g.smallest, f.smallest)
    ensures b < |files| && f == files[b]
  {
    NextStartsNext(files, b, f);
    assert files[b] in files;
  }

  /** In a sorted level the next boundary file is the very next file, so a run stays a run. */
  lemma BoundaryExtendsRun(files: Files, run: Files, key: InternalKey, f: FileMetaData)
    requires AllWellFormed(files) && LevelSorted(files) && IsRun(run, files) && run != []
    requires IsLargest(run, key) && f in files && IsBoundary(f, key)
    requires forall g :: g in files && IsBoundary(g, key) ==> !Less(g.smallest, f.smallest)
    ensures IsRun(run + [f], files)
  {
    var a, b :| 0 <= a <= b <= |files| && run == files[a..b];
    LastOfRunIsLargest(files, a, b, key);
    NextIsTheBoundary(files, b, f);
    RunGrows(files, a, b);
  }

  lemma RunGrows(files: Files, a: nat, b: nat)
    requires a <= b < |files|
    ensures files[a..b] + [files[b]] == files[a..b + 1]
    ensures IsRun(files[a..b + 1], files)
  {
  }

  /** The files so far: those given, and ones that continue them. */
  ghost predicate Adding(levelFiles: Files, start: Files, result: Files, largestKey: InternalKey) {
    && start <= result && IsLargest(result, largestKey)
    && (forall f :: f in result ==> f in start || f in levelFiles)
    && (forall k {:trigger Continues(levelFiles, result, k)} ::
         |start| <= k < |result| ==> Continues(levelFiles, result, k))
    && (BoundaryClosed(levelFiles, start) ==> result == start)
    && (LevelSorted(levelFiles) && IsRun(start, levelFiles) ==> IsRun(result, levelFiles))
  }

  lemma AddsOne(levelFiles: Files, start: Files, result: Files, key: InternalKey, f: FileMetaData)
    requires AllWellFormed(levelFiles) && Adding(levelFiles, start, result, key) && f in levelFiles
    requires IsBoundary(f, key) && forall g :: g in levelFiles && IsBoundary(g, key) ==> !Less(g.smallest, f.smallest)
    ensures Adding(levelFiles, start, result + [f], f.largest)
    ensures StartsAfter(levelFiles, f.largest) < StartsAfter(levelFiles, key)
  {
    var i :| 0 <= i < |levelFiles| && levelFiles[i] == f;
    BoundsInOrder(f);
    StartsAfterShrinks(levelFiles, key, f, f.largest);
    if LevelSorted(levelFiles) && IsRun(start, levelFiles) {
      BoundaryExtendsRun(levelFiles, result, key, f);
    }
    AppendLargest(result, key, f);
    ContinuesOn(levelFiles, result, |start|, key, f);
    assert !BoundaryClosed(levelFiles, result);
  }

  /** AddBoundaryInputs: keep adding the file that continues the largest user key, until none does. */
  method AddBoundaryInputs(levelFiles: Files, compactionFiles: Files) returns (result: Files)
    requires AllWellFormed(levelFiles) && AllWellFormed(compactionFiles)
    ensures compactionFiles <= result && (compactionFiles == [] ==> result == [])
    ensures forall f :: f in result ==> f in compactionFiles || f in levelFiles
    ensures ClosedFrom(levelFiles, result, |compactionFiles|)
    ensures BoundaryClosed(levelFiles, compactionFiles) ==> result == compactionFiles
    ensures LevelSorted(levelFiles) && IsRun(compactionFiles, levelFiles) ==> IsRun(result, levelFiles)
  {
    result := compactionFiles;
    if compactionFiles == [] {
      return;
    }
    var _, largestKey := GetRange(compactionFiles);
    var continueSearching := true;
    while continueSearching
      invariant Adding(levelFiles, compactionFiles, result, largestKey)
      invariant !continueSearching ==> forall f :: f in levelFiles ==> !IsBoundary(f, largestKey)
      decreases continueSearching, StartsAfter(levelFiles, largestKey)
    {
      var boundary := FindSmallestBoundaryFile(levelFiles, largestKey);
      if boundary.Some? {
        AddsOne(levelFiles, compactionFiles, result, largestKey, boundary.value);
        result := result + [boundary.value];
        largestKey := boundary.value.largest;
      } else {
        continueSearching := false;
      }
    }
    forall key | IsLargest(result, key) ensures Tag(key) == Tag(largestKey) && key.user == largestKey.user {
    }
  }

  lemma ContinuesOn(levelFiles: Files, files: Files, n: nat, key: InternalKey, f: FileMetaData)
    requires IsLargest(files, key) && f in levelFiles && IsBoundary(f, key)
    requires forall g :: g in levelFiles && IsBoundary(g, key) ==> !Less(g.smallest, f.smallest)
    requires forall k {:trigger Continues(levelFiles, files, k)} :: n <= k < |files| ==> Continues(levelFiles, files, k)
    ensures forall k {:trigger Continues(levelFiles, files + [f], k)} ::
              n <= k < |files| + 1 ==> Continues(levelFiles, files + [f], k)
  {
    forall k | n <= k < |files| + 1 ensures Continues(levelFiles, files + [f], k) {
      if k < |files| {
        assert Continues(levelFiles, files, k);
        assert (files + [f])[..k] == files[..k];
      } else {
        assert (files + [f])[..k] == files;
      }
    }
  }

  lemma AppendLargest(files: Files, key: InternalKey, f: FileMetaData)
    requires IsLargest(files, key) && Less(key, f.largest)
    ensures IsLargest(files + [f], f.largest)
  {
    assert f in files + [f];
  }

  // ---------------------------------------------------------------------------
  // Completing the inputs of a compaction
  // ---------------------------------------------------------------------------

  ghost predicate RangeOf(files: Files, lo: UserKey, hi: UserKey) {
    && (exists f :: f in files && f.smallest.user == lo) && (exists f :: f in files && f.largest.user == hi)
    && forall f :: f in files ==> lo <= f.smallest.user && f.largest.user <= hi
  }

  /** Every file that reaches into the user-key range of `inputs` is one of them. */
  ghost predicate HullClosed(files: Files, inputs: Files) {
    forall lo, hi, f :: RangeOf(inputs, lo, hi) && f in files && Overlaps(f, Some(lo), Some(hi)) ==> f in inputs
  }

  /** What a compaction may start from at `level`. */
  ghost predicate Startable(levels: Levels, level: nat, inputs0: Files)
    requires level < |levels|
  {
    && inputs0 != [] && (forall f :: f in inputs0 ==> f in levels[level])
    && (if level == 0 then HullClosed(levels[0], inputs0) else IsRun(inputs0, levels[level]))
  }

  /** What SetupOtherInputs ends with: the level's inputs are closed, and the next level's inputs
      are exactly the files reaching into their user-key range. */
  ghost predicate Picked(levels: Levels, level: nat, inputs0: Files, inputs1: Files)
    requires level + 1 < |levels|
  {
    && Startable(levels, level, inputs0) && BoundaryClosed(levels[level], inputs0)
    && forall lo, hi :: RangeOf(inputs0, lo, hi) ==> inputs1 == Overlapping(levels[level + 1], Some(lo), Some(hi))
  }

  lemma RangeOfKeys(files: Files, smallest: InternalKey, largest: InternalKey)
    requires IsSmallest(files, smallest) && IsLargest(files, largest)
    ensures RangeOf(files, smallest.user, largest.user)
    ensures forall lo, hi :: RangeOf(files, lo, hi) ==> lo == smallest.user && hi == largest.user
  {
  }

  lemma HullClosedIsBoundaryClosed(files: Files, inputs: Files)
    requires AllWellFormed(files) && HullClosed(files, inputs) && forall f :: f in inputs ==> f in files
    ensures BoundaryClosed(files, inputs)
  {
    forall key, f | IsLargest(inputs, key) && f in files ensures !IsBoundary(f, key) {
      BoundsInOrder(f);
      var lo, hi := RangeExists(inputs);
      var g :| g in inputs && g.largest == key;
      var i :| 0 <= i < |files| && files[i] == g;
      BoundsInOrder(g);
    }
  }

  lemma RangeExists(files: Files) returns (lo: UserKey, hi: UserKey)
    requires files != []
    ensures RangeOf(files, lo, hi)
  {
    lo, hi := files[0].smallest.user, files[0].largest.user;
    for n := 1 to |files|
      invariant exists j :: 0 <= j < n && files[j].smallest.user == lo
      invariant exists j :: 0 <= j < n && files[j].largest.user == hi
      invariant forall j :: 0 <= j < n ==> lo <= files[j].smallest.user && files[j].largest.user <= hi
    {
      if files[n].smallest.user < lo {
        lo := files[n].smallest.user;
      }
      if hi < files[n].largest.user {
        hi := files[n].largest.user;
      }
    }
  }

  lemma InsideIsHullClosed(files: Files, lo: Option<UserKey>, hi: Option<UserKey>)
    requires forall f :: f in Overlapping(files, lo, hi) ==> Inside(f, lo, hi)
    ensures HullClosed(files, Overlapping(files, lo, hi))
  {
    var inputs := Overlapping(files, lo, hi);
    forall a, b, f | RangeOf(inputs, a, b) && f in files && Overlaps(f, Some(a), Some(b)) ensures f in inputs {
      OverlappingExactly(files, lo, hi, f);
    }
  }

  lemma {:induction false} OverlappingBefore(files: Files, a: nat, lo: Option<UserKey>, hi: Option<UserKey>)
    requires a <= |files| && forall i :: 0 <= i < a ==> !Overlaps(files[i], lo, hi)
    ensures Overlapping(files[..a], lo, hi) == []
  {
    if a > 0 {
      OverlappingBefore(files, a - 1, lo, hi);
      OverlappingNext(files, a - 1, lo, hi);
    }
  }

  lemma {:induction false} OverlappingWithin(files: Files, a: nat, b: nat, lo: Option<UserKey>, hi: Option<UserKey>)
    requires a <= b <= |files| && forall i :: a <= i < b ==> Overlaps(files[i], lo, hi)
    requires forall i :: 0 <= i < a ==> !Overlaps(files[i], lo, hi)
    ensures Overlapping(files[..b], lo, hi) == files[a..b]
  {
    if b == a {
      OverlappingBefore(files, a, lo, hi);
    } else {
      OverlappingWithin(files, a, b - 1, lo, hi);
      OverlappingNext(files, b - 1, lo, hi);
      SliceNext(files, a, b - 1);
    }
  }

  lemma {:induction false} OverlappingAfter(files: Files, b: nat, n: nat, lo: Option<UserKey>, hi: Option<UserKey>)
    requires b <= n <= |files| && forall i :: b <= i < n ==> !Overlaps(files[i], lo, hi)
    ensures Overlapping(files[..n], lo, hi) == Overlapping(files[..b], lo, hi)
  {
    if n > b {
      OverlappingAfter(files, b, n - 1, lo, hi);
      OverlappingNext(files, n - 1, lo, hi);
    }
  }

  lemma OverlappingRun(files: Files, a: nat, b: nat, lo: Option<UserKey>, hi: Option<UserKey>)
    requires a <= b <= |files| && forall i :: a <= i < b ==> Overlaps(files[i], lo, hi)
    requires forall i :: 0 <= i < a ==> !Overlaps(files[i], lo, hi)
    requires forall i :: b <= i < |files| ==> !Overlaps(files[i], lo, hi)
    ensures Overlapping(files, lo, hi) == files[a..b]
  {
    OverlappingWithin(files, a, b, lo, hi);
    OverlappingAfter(files, b, |files|, lo, hi);
    assert files[..|files|] == files;
  }

  lemma OverlappingNext(files: Files, n: nat, lo: Option<UserKey>, hi: Option<UserKey>)
    requires n < |files|
    ensures Overlapping(files[..n + 1], lo, hi) == Overlapping(files[..n], lo, hi)
        + if Overlaps(files[n], lo, hi) then [files[n]] else []
  {
    assert files[..n + 1][..n] == files[..n];
  }

  lemma SliceNext(files: Files, a: nat, n: nat)
    requires a <= n < |files|
    ensures files[a..n] + [files[n]] == files[a..n + 1]
  {
  }

  /** Above level 0 the files reaching into a range are a contiguous run: those before it end
      before the range, those after it start after the range. */
  lemma SplitAround(files: Files, lo: Option<UserKey>, hi: Option<UserKey>) returns (a: nat, b: nat)
    requires AllWellFormed(files) && LevelSorted(files)
    ensures a <= b <= |files| && Overlapping(files, lo, hi) == files[a..b]
    ensures forall i :: 0 <= i < a ==> AfterFile(lo, files[i])
    ensures forall i :: a <= i < b ==> Overlaps(files[i], lo, hi)
    ensures forall i :: b <= i < |files| ==> BeforeFile(hi, files[i]) && !AfterFile(lo, files[i])
  {
    a := 0;
    while a < |files| && AfterFile(lo, files[a])
      invariant a <= |files| && forall i :: 0 <= i < a ==> AfterFile(lo, files[i])
    {
      a := a + 1;
    }
    b := a;
    while b < |files| && !BeforeFile(hi, files[b])
      invariant a <= b <= |files| && forall i :: a <= i < b ==> !BeforeFile(hi, files[i])
    {
      b := b + 1;
    }
    LevelAscends(files);
    OverlappingRun(files, a, b, lo, hi);
  }

  lemma {:induction false} OverlappingGrows(files: Files, lo: Option<UserKey>, hi: Option<UserKey>,
      lo': Option<UserKey>, hi': Option<UserKey>)
    requires Contains(lo, hi, lo', hi')
    ensures |Overlapping(files, lo', hi')| <= |Overlapping(files, lo, hi)|
    ensures |Overlapping(files, lo', hi')| == |Overlapping(files, lo, hi)| ==>
        Overlapping(files, lo', hi') == Overlapping(files, lo, hi)
  {
    if files != [] {
      OverlappingGrows(files[..|files| - 1], lo, hi, lo', hi');
    }
  }

  /** `larger` is what the level has between `lo` and `hi`, widened at level 0 until nothing overlaps it,
      and the files that continue it. */
  ghost predicate Expansion(levels: Levels, level: nat, lo: UserKey, hi: UserKey, larger: Files)
    requires level < |levels|
  {
    exists m :: 0 <= m <= |larger| && Covers(levels, level, lo, hi, larger[..m]) && ClosedFrom(levels[level], larger, m)
  }

  ghost predicate Covers(levels: Levels, level: nat, lo: UserKey, hi: UserKey, files: Files)
    requires level < |levels|
  {
    && (level > 0 ==> files == Overlapping(levels[level], Some(lo), Some(hi)))
    && (forall f :: f in levels[level] && Overlaps(f, Some(lo), Some(hi)) ==> f in files)
    && forall picked, f :: OverlapClosed(levels[level], Some(lo), Some(hi), picked) && f in files ==> f in picked
  }

  /** Reading `larger` instead takes as many next-level files, and stays under the limit. */
  ghost predicate Worthwhile(levels: Levels, level: nat, inputs0: Files, inputs1: Files, larger: Files, limit: nat)
    requires level + 1 < |levels|
  {
    && |larger| > |inputs0| && TotalSize(inputs1) + TotalSize(larger) < limit
    && forall lo, hi :: RangeOf(larger, lo, hi) ==>
         |Overlapping(levels[level + 1], Some(lo), Some(hi))| == |inputs1|
  }

  /** What SetupOtherInputs makes of `start`. */
  ghost predicate Inputs(levels: Levels, level: nat, start: Files, expandedLimit: nat, inputs0: Files, inputs1: Files,
                         grandparents: Files, closed: Files, larger: Files)
    requires |levels| == NUM_LEVELS && level + 1 < NUM_LEVELS
  {
    && Picked(levels, level, inputs0, inputs1) && Picked(levels, level, closed, inputs1)
    && start <= closed && ClosedFrom(levels[level], closed, |start|) && (forall f :: f in closed ==> f in inputs0)
    && (inputs1 != [] ==> forall lo, hi :: RangeOf(closed + inputs1, lo, hi) ==>
         Expansion(levels, level, lo, hi, larger))
    && inputs0 == (if inputs1 != [] && Worthwhile(levels, level, closed, inputs1, larger, expandedLimit)
                   then larger else closed)
    && (level + 2 == NUM_LEVELS ==> grandparents == [])
    && (level + 2 < NUM_LEVELS ==> forall lo, hi :: RangeOf(inputs0 + inputs1, lo, hi) ==>
         grandparents == Overlapping(levels[level + 2], Some(lo), Some(hi)))
  }

  /** VersionSet::SetupOtherInputs. The level's inputs grow to all that the range of both levels covers
      exactly when that reads the same next-level files and stays under the limit; either way it ends with
      `Picked`. */
  method SetupOtherInputs(levels: Levels, level: nat, start: Files, expandedLimit: nat)
    returns (inputs0: Files, inputs1: Files, grandparents: Files, compactPointer: InternalKey,
             ghost closed: Files, ghost larger: Files)
    requires GoodLevels(levels) && level + 1 < NUM_LEVELS && Startable(levels, level, start)
    ensures Inputs(levels, level, start, expandedLimit, inputs0, inputs1, grandparents, closed, larger)
    ensures IsLargest(inputs0, compactPointer)
  {
    inputs0 := CloseLevel(levels, level, start);
    closed, larger := inputs0, inputs0;
    var smallest, largest;
    inputs1, smallest, largest := NextLevelInputs(levels, level, inputs0);
    var allStart, allLimit := GetRange(inputs0 + inputs1);
    RangeOfKeys(inputs0 + inputs1, allStart, allLimit);
    if inputs1 != [] {
      inputs0, largest, larger :=
        GrowInputs(levels, level, inputs0, inputs1, largest, allStart, allLimit, expandedLimit);
      allStart, allLimit := GetRange(inputs0 + inputs1);
    }
    grandparents := [];
    RangeOfKeys(inputs0 + inputs1, allStart, allLimit);
    if level + 2 < NUM_LEVELS {
      ghost var lo, hi;
      grandparents, lo, hi := GetOverlappingInputs(level + 2, levels[level + 2], Some(allStart.user),
          Some(allLimit.user));
    }
    compactPointer := largest;
  }

  lemma WorthwhileIf(levels: Levels, level: nat, inputs0: Files, inputs1: Files, larger: Files, next: Files, limit: nat)
    requires level + 1 < |levels| && Picked(levels, level, larger, next)
    requires |larger| > |inputs0| && TotalSize(inputs1) + TotalSize(larger) < limit
    ensures Worthwhile(levels, level, inputs0, inputs1, larger, limit) <==> |next| == |inputs1|
  {
    var lo, hi := RangeExists(larger);
  }

  /** See if the number of inputs can grow without changing the files of the next level. */
  method GrowInputs(levels: Levels, level: nat, closed: Files, inputs1: Files, limitKey: InternalKey,
                    allStart: InternalKey, allLimit: InternalKey, expandedLimit: nat)
    returns (inputs0: Files, largest: InternalKey, ghost larger: Files)
    requires GoodLevels(levels) && level + 1 < NUM_LEVELS && Picked(levels, level, closed, inputs1)
    requires (forall f :: f in closed ==> allStart.user <= f.smallest.user && f.largest.user <= allLimit.user)
    requires IsLargest(closed, limitKey)
    ensures Picked(levels, level, inputs0, inputs1) && IsLargest(inputs0, largest)
    ensures (forall f :: f in closed ==> f in inputs0) && Expansion(levels, level, allStart.user, allLimit.user, larger)
    ensures inputs0 == if Worthwhile(levels, level, closed, inputs1, larger, expandedLimit) then larger else closed
  {
    inputs0, largest := closed, limitKey;
    var expanded0 := ExpandLevel(levels, level, closed, allStart, allLimit);
    larger := expanded0;
    if |expanded0| > |closed| && TotalSize(inputs1) + TotalSize(expanded0) < expandedLimit {
      var expanded1, newStart, newLimit := NextLevelInputs(levels, level, expanded0);
      WorthwhileIf(levels, level, closed, inputs1, expanded0, expanded1, expandedLimit);
      if |expanded1| == |inputs1| {
        SameNextLevel(levels, level, closed, inputs1, expanded0, expanded1);
        inputs0, largest := expanded0, newLimit;
      }
    }
  }

  method CloseLevel(levels: Levels, level: nat, start: Files) returns (inputs0: Files)
    requires GoodLevels(levels) && level + 1 < NUM_LEVELS && Startable(levels, level, start)
    ensures Startable(levels, level, inputs0) && BoundaryClosed(levels[level], inputs0)
    ensures start <= inputs0 && ClosedFrom(levels[level], inputs0, |start|)
  {
    SubsetWellFormed(levels[level], start);
    inputs0 := AddBoundaryInputs(levels[level], start);
    if level == 0 {
      HullClosedIsBoundaryClosed(levels[0], start);
    }
  }

  lemma SubsetWellFormed(files: Files, sub: Files)
    requires AllWellFormed(files) && forall f :: f in sub ==> f in files
    ensures AllWellFormed(sub)
  {
    forall i | 0 <= i < |sub| ensures WellFormed(sub[i]) {
      assert sub[i] in files;
    }
  }

  method NextLevelInputs(levels: Levels, level: nat, inputs0: Files)
    returns (inputs1: Files, smallest: InternalKey, largest: InternalKey)
    requires GoodLevels(levels) && level + 1 < NUM_LEVELS
    requires Startable(levels, level, inputs0) && BoundaryClosed(levels[level], inputs0)
    ensures Picked(levels, level, inputs0, inputs1)
    ensures IsSmallest(inputs0, smallest) && IsLargest(inputs0, largest)
  {
    smallest, largest := GetRange(inputs0);
    ghost var lo, hi;
    inputs1, lo, hi := GetOverlappingInputs(level + 1, levels[level + 1], Some(smallest.user), Some(largest.user));
    RangeOfKeys(inputs0, smallest, largest);
  }

  lemma CoversRange(levels: Levels, level: nat, allStart: UserKey, allLimit: UserKey,
                    lo: Option<UserKey>, hi: Option<UserKey>, files: Files)
    requires level < |levels| && files == Overlapping(levels[level], lo, hi)
    requires Contains(lo, hi, Some(allStart), Some(allLimit))
    requires level > 0 ==> lo == Some(allStart) && hi == Some(allLimit)
    requires forall picked, f :: OverlapClosed(levels[level], Some(allStart), Some(allLimit), picked) && f in files ==>
               f in picked
    ensures Covers(levels, level, allStart, allLimit, files)
  {
    forall f | f in levels[level] && Overlaps(f, Some(allStart), Some(allLimit)) ensures f in files {
      OverlappingExactly(levels[level], lo, hi, f);
    }
  }

  /** All files of the level reaching into the whole range. */
  method CoverRange(levels: Levels, level: nat, inputs0: Files, allStart: InternalKey, allLimit: InternalKey)
    returns (files: Files)
    requires GoodLevels(levels) && level + 1 < NUM_LEVELS && Startable(levels, level, inputs0)
    requires forall f :: f in inputs0 ==> allStart.user <= f.smallest.user && f.largest.user <= allLimit.user
    ensures Startable(levels, level, files) && Covers(levels, level, allStart.user, allLimit.user, files)
    ensures forall f :: f in inputs0 ==> f in files
  {
    ghost var lo, hi;
    files, lo, hi := GetOverlappingInputs(level, levels[level], Some(allStart.user), Some(allLimit.user));
    CoversRange(levels, level, allStart.user, allLimit.user, lo, hi, files);
    forall f | f in inputs0 ensures f in files {
      SubsetWellFormed(levels[level], inputs0);
      var i :| 0 <= i < |inputs0| && inputs0[i] == f;
      BoundsInOrder(f);
      OverlappingExactly(levels[level], lo, hi, f);
    }
    assert inputs0[0] in files;
    forall f | f in files ensures f in levels[level] {
      OverlappingExactly(levels[level], lo, hi, f);
    }
    if level == 0 {
      InsideIsHullClosed(levels[0], lo, hi);
    } else {
      var a, b := SplitAround(levels[level], lo, hi);
    }
  }

  /** All files of the level reaching into the whole range, closed again. */
  method ExpandLevel(levels: Levels, level: nat, inputs0: Files, allStart: InternalKey, allLimit: InternalKey)
    returns (expanded0: Files)
    requires GoodLevels(levels) && level + 1 < NUM_LEVELS && Startable(levels, level, inputs0)
    requires forall f :: f in inputs0 ==> allStart.user <= f.smallest.user && f.largest.user <= allLimit.user
    ensures Startable(levels, level, expanded0) && BoundaryClosed(levels[level], expanded0)
    ensures forall f :: f in inputs0 ==> f in expanded0
    ensures Expansion(levels, level, allStart.user, allLimit.user, expanded0)
  {
    var files := CoverRange(levels, level, inputs0, allStart, allLimit);
    expanded0 := CloseLevel(levels, level, files);
    assert expanded0[..|files|] == files;
  }

  lemma SameNextLevel(levels: Levels, level: nat, inputs0: Files, inputs1: Files, expanded0: Files, expanded1: Files)
    requires level + 1 < |levels| && Picked(levels, level, inputs0, inputs1)
        && Picked(levels, level, expanded0, expanded1)
    requires (forall f :: f in inputs0 ==> f in expanded0) && |expanded1| == |inputs1|
    ensures expanded1 == inputs1
  {
    var small, large := RangeExists(inputs0);
    var small', large' := RangeExists(expanded0);
    OverlappingGrows(levels[level + 1], Some(small'), Some(large'), Some(small), Some(large));
  }

  // ---------------------------------------------------------------------------
  // Where a compaction starts
  // ---------------------------------------------------------------------------

  /** `i` is the first file after the compaction pointer, or file 0 if there is none. */
  ghost predicate IsNextAfter(files: Files, pointer: Option<InternalKey>, i: nat) {
    if pointer.None? then i == 0
    else if i == 0 then (forall j :: 0 < j < |files| ==> !Less(pointer.value, files[j].largest))
        || Less(pointer.value, files[0].largest)
    else
      && i < |files| && Less(pointer.value, files[i].largest)
      && forall j :: 0 <= j < i ==> !Less(pointer.value, files[j].largest)
  }

  method NextAfterPointer(files: Files, pointer: Option<InternalKey>) returns (i: nat)
    requires files != []
    ensures i < |files| && IsNextAfter(files, pointer, i)
  {
    i := 0;
    while i < |files| && pointer.Some? && !Less(pointer.value, files[i].largest)
      invariant i <= |files| && (pointer.None? ==> i == 0)
      invariant pointer.Some? ==> forall j :: 0 <= j < i ==> !Less(pointer.value, files[j].largest)
    {
      i := i + 1;
    }
    if i == |files| {
      i := 0;
    }
  }

  /** VersionSet::PickCompaction: by size, the first file after the compaction pointer (wrapping
      around), otherwise the file charged with too many seeks; at level 0, all it overlaps. */
  method PickCompaction(levels: Levels, level: nat, bySize: bool, pointer: Option<InternalKey>, seekFile: FileMetaData)
    returns (start: Files, file: FileMetaData)
    requires GoodLevels(levels) && level + 1 < NUM_LEVELS && levels[level] != []
    requires !bySize ==> seekFile in levels[level]
    ensures Startable(levels, level, start) && file in start && (level > 0 ==> start == [file])
    ensures level == 0 ==> forall picked, f ::
        OverlapClosed(levels[0], Some(file.smallest.user), Some(file.largest.user), picked) && f in start ==>
        f in picked
    ensures if bySize then exists i ::
        0 <= i < |levels[level]| && file == levels[level][i] && IsNextAfter(levels[level], pointer, i)
            else file == seekFile
  {
    if bySize {
      var i := NextAfterPointer(levels[level], pointer);
      file := levels[level][i];
    } else {
      file := seekFile;
    }
    if level == 0 {
      start := CloseLevel0(levels[0], file);
    } else {
      start := [file];
      SingletonRun(levels[level], file);
    }
  }

  method CloseLevel0(files: Files, file: FileMetaData) returns (start: Files)
    requires AllWellFormed(files) && file in files
    ensures HullClosed(files, start) && file in start && forall f :: f in start ==> f in files
    ensures forall picked, f ::
        OverlapClosed(files, Some(file.smallest.user), Some(file.largest.user), picked) && f in start ==> f in picked
  {
    ghost var lo, hi;
    start, lo, hi := GetOverlappingInputs(0, files, Some(file.smallest.user), Some(file.largest.user));
    InsideIsHullClosed(files, lo, hi);
    ghost var i :| 0 <= i < |files| && files[i] == file;
    BoundsInOrder(file);
    OverlappingExactly(files, lo, hi, file);
    forall f | f in start ensures f in files {
      OverlappingExactly(files, lo, hi, f);
    }
  }

  lemma SingletonRun(files: Files, file: FileMetaData)
    requires file in files
    ensures IsRun([file], files)
  {
    var i :| 0 <= i < |files| && files[i] == file;
    assert files[i..i + 1] == [file];
  }

  /** The shortest prefix holding `limit` bytes, or everything. */
  method CutAtLimit(inputs: Files, limit: nat) returns (cut: Files)
    ensures cut <= inputs && (inputs != [] ==> cut != [])
    ensures cut == inputs || TotalSize(cut) >= limit
    ensures forall n :: 0 < n < |cut| ==> TotalSize(cut[..n]) < limit
  {
    var i, total := 0, 0;
    while i < |inputs|
      invariant 0 <= i <= |inputs| && total == TotalSize(inputs[..i])
      invariant forall n :: 0 < n <= i ==> TotalSize(inputs[..n]) < limit
    {
      total := total + inputs[i].fileSize;
      assert inputs[..i + 1][..i] == inputs[..i];
      i := i + 1;
      if total >= limit {
        cut := inputs[..i];
        assert forall n :: 0 < n < i ==> cut[..n] == inputs[..n];
        return;
      }
    }
    assert inputs[..i] == inputs;
    return inputs;
  }

  lemma PrefixOfRun(files: Files, run: Files, cut: Files)
    requires IsRun(run, files) && cut <= run
    ensures IsRun(cut, files)
  {
    var a, b :| 0 <= a <= b <= |files| && run == files[a..b];
    assert cut == files[a..a + |cut|];
  }

  /** VersionSet::CompactRange: the files reaching into the range; above level 0, cut off once they
      hold enough bytes. At level 0 nothing is cut, because an older file must not be left behind. */
  method CompactRange(levels: Levels, level: nat, begin: Option<UserKey>, end: Option<UserKey>, limit: nat)
    returns (start: Files)
    requires GoodLevels(levels) && level + 1 < NUM_LEVELS
    ensures start != [] ==> Startable(levels, level, start)
    ensures start == [] <==> forall f :: f in levels[level] ==> !Overlaps(f, begin, end)
    ensures level > 0 ==>
      (start <= Overlapping(levels[level], begin, end) &&
       (start == Overlapping(levels[level], begin, end) || TotalSize(start) >= limit) &&
       forall n :: 0 < n < |start| ==> TotalSize(start[..n]) < limit)
    ensures level == 0 ==>
      && (forall f :: f in levels[0] && Overlaps(f, begin, end) ==> f in start)
      && (forall picked, f :: OverlapClosed(levels[0], begin, end, picked) && f in start ==> f in picked)
  {
    ghost var lo, hi;
    start, lo, hi := GetOverlappingInputs(level, levels[level], begin, end);
    RangeFilesExactly(levels[level], begin, end, lo, hi, start);
    if level == 0 {
      InsideIsHullClosed(levels[0], lo, hi);
    } else {
      start := CutRange(levels, level, begin, end, start, limit);
    }
  }

  method CutRange(levels: Levels, level: nat, begin: Option<UserKey>, end: Option<UserKey>, all: Files, limit: nat)
    returns (start: Files)
    requires GoodLevels(levels) && 0 < level < NUM_LEVELS && all == Overlapping(levels[level], begin, end)
    requires forall f :: f in all ==> f in levels[level]
    ensures start <= all && (all == [] <==> start == []) && (start != [] ==> Startable(levels, level, start))
    ensures start == all || TotalSize(start) >= limit
    ensures forall n :: 0 < n < |start| ==> TotalSize(start[..n]) < limit
  {
    start := CutAtLimit(all, limit);
    var a, b := SplitAround(levels[level], begin, end);
    PrefixOfRun(levels[level], all, start);
    assert forall f :: f in start ==> f in all;
  }

  lemma RangeFilesExactly(files: Files, begin: Option<UserKey>, end: Option<UserKey>, lo: Option<UserKey>,
      hi: Option<UserKey>, inputs: Files)
    requires inputs == Overlapping(files, lo, hi) && Contains(lo, hi, begin, end)
    requires forall picked, f :: OverlapClosed(files, begin, end, picked) && f in inputs ==> f in picked
    ensures forall f :: f in inputs ==> f in files
    ensures inputs == [] <==> forall f :: f in files ==> !Overlaps(f, begin, end)
    ensures forall f :: f in files && Overlaps(f, begin, end) ==> f in inputs
  {
    forall f ensures f in inputs <==> f in files && Overlaps(f, lo, hi) {
      OverlappingExactly(files, lo, hi, f);
    }
    if inputs != [] {
      var none: set<FileMetaData> := {};
      assert inputs[0] in inputs && inputs[0] !in none;
      assert !OverlapClosed(files, begin, end, none);
    }
  }

  // ---------------------------------------------------------------------------
  // Where a flushed memtable goes
  // ---------------------------------------------------------------------------

  const MAX_MEM_COMPACT_LEVEL: nat := 2

  ghost predicate NoOverlap(files: Files, lo: UserKey, hi: UserKey) {
    forall f :: f in files ==> !Overlaps(f, Some(lo), Some(hi))
  }

  /** A new table may sink from `level` to the next: nothing there overlaps it, and not too much
      overlaps it in the level after. */
  ghost predicate MaySink(levels: Levels, level: nat, lo: UserKey, hi: UserKey, maxOverlap: nat)
    requires level + 1 < |levels|
  {
    && NoOverlap(levels[level + 1], lo, hi)
    && (level + 2 < |levels| ==> TotalSize(Overlapping(levels[level + 2], Some(lo), Some(hi))) <= maxOverlap)
  }

  /** `level` is as deep as a table with this range may sink, and no deeper than 2. */
  ghost predicate Deepest(levels: Levels, lo: UserKey, hi: UserKey, maxOverlap: nat, level: nat)
    requires |levels| == NUM_LEVELS && level < NUM_LEVELS
  {
    && level <= 2 && (level > 0 ==> NoOverlap(levels[0], lo, hi))
    && (forall l :: 0 <= l < level ==> MaySink(levels, l, lo, hi, maxOverlap))
    && (level < 2 && NoOverlap(levels[0], lo, hi) ==> !MaySink(levels, level, lo, hi, maxOverlap))
  }

  /** Version::PickLevelForMemTableOutput: as deep as the table may sink, but no deeper than 2. */
  method PickLevelForMemTableOutput(levels: Levels, lo: UserKey, hi: UserKey, maxOverlap: nat) returns (level: nat)
    requires GoodLevels(levels)
    requires forall l, f :: 0 <= l < NUM_LEVELS && f in levels[l] ==> f.largest.seqno <= MAX_SEQUENCE
    ensures level < NUM_LEVELS && Deepest(levels, lo, hi, maxOverlap, level)
  {
    level := 0;
    var overlap0 := SomeFileOverlapsRange(false, levels[0], Some(lo), Some(hi));
    if !overlap0 {
      while level < MAX_MEM_COMPACT_LEVEL
        invariant level <= MAX_MEM_COMPACT_LEVEL
        invariant forall l :: 0 <= l < level ==> MaySink(levels, l, lo, hi, maxOverlap)
      {
        var overlap := SomeFileOverlapsRange(true, levels[level + 1], Some(lo), Some(hi));
        if overlap {
          break;
        }
        if level + 2 < NUM_LEVELS {
          ghost var a, b;
          var overlaps;
          overlaps, a, b := GetOverlappingInputs(level + 2, levels[level + 2], Some(lo), Some(hi));
          if TotalSize(overlaps) > maxOverlap {
            break;
          }
        }
        level := level + 1;
      }
    }
  }
}
