/** Where a compaction ends its output tables: at the size limit, or before a key by which too many bytes
  of the grandparent level have been passed. */
module OutputCuts {
  import opened DbFormat
  import opened Version

  // ---------------------------------------------------------------------------
  // Grandparent bytes passed
  // ---------------------------------------------------------------------------

  /** How many grandparent files the cursor has passed at `key`, starting from file `from`. */
  function PassedFrom(grandparents: Files, key: InternalKey, from: nat): (n: nat)
    requires from <= |grandparents|
    ensures from <= n <= |grandparents| && (n < |grandparents| ==> !Less(grandparents[n].largest, key))
    decreases |grandparents| - from
  {
    if from < |grandparents| && Less(grandparents[from].largest, key) then PassedFrom(grandparents, key, from + 1)
    else from
  }

  lemma {:induction false} PassedIsFirst(grandparents: Files, key: InternalKey, from: nat, n: nat)
    requires from <= n <= |grandparents| && forall i :: from <= i < n ==> Less(grandparents[i].largest, key)
    requires n < |grandparents| ==> !Less(grandparents[n].largest, key)
    ensures PassedFrom(grandparents, key, from) == n
    decreases n - from
  {
    if from < n {
      PassedIsFirst(grandparents, key, from + 1, n);
    }
  }

  lemma {:induction false} PassedOn(grandparents: Files, key: InternalKey, key': InternalKey, from: nat)
    requires from <= |grandparents| && Less(key, key')
    ensures PassedFrom(grandparents, key, from) <= PassedFrom(grandparents, key', from)
    ensures PassedFrom(grandparents, key', PassedFrom(grandparents, key, from)) == PassedFrom(grandparents, key', from)
    decreases |grandparents| - from
  {
    if from < |grandparents| && Less(grandparents[from].largest, key) {
      PassedOn(grandparents, key, key', from + 1);
    }
  }

  /** The bytes of the grandparent files that end at or after `lo` and before `hi`. */
  function BytesBetween(grandparents: Files, lo: InternalKey, hi: InternalKey): nat {
    var from, to := PassedFrom(grandparents, lo, 0), PassedFrom(grandparents, hi, 0);
    if from <= to then TotalSize(grandparents[from..to]) else 0
  }

  lemma {:induction false} SizesAdd(files: Files, a: nat, b: nat, c: nat)
    requires a <= b <= c <= |files|
    ensures TotalSize(files[a..c]) == TotalSize(files[a..b]) + TotalSize(files[b..c])
    decreases c
  {
    if b < c {
      SizesAdd(files, a, b, c - 1);
      TotalSizeExtend(files, a, c - 1);
      TotalSizeExtend(files, b, c - 1);
    }
  }

  lemma BytesAdd(grandparents: Files, a: InternalKey, b: InternalKey, c: InternalKey)
    requires (a == b || Less(a, b)) && Less(b, c)
    ensures BytesBetween(grandparents, a, c) == BytesBetween(grandparents, a, b) + BytesBetween(grandparents, b, c)
  {
    if a != b {
      PassedOn(grandparents, a, b, 0);
    }
    PassedOn(grandparents, b, c, 0);
    SizesAdd(grandparents, PassedFrom(grandparents, a, 0), PassedFrom(grandparents, b, 0),
        PassedFrom(grandparents, c, 0));
  }

  /** The input place, up to `i`, from which the bytes are being counted. */
  function CountedFrom(grandparents: Files, limit: nat, input: seq<Entry>, i: nat): (s: nat)
    requires i < |input|
    ensures s <= i
  {
    if i == 0 then 0
    else
      var s := CountedFrom(grandparents, limit, input, i - 1);
      if BytesBetween(grandparents, input[s].key, input[i].key) > limit then i else s
  }

  /** By input entry `i` more than the limit has been passed since the count last started over. */
  predicate Stops(grandparents: Files, limit: nat, input: seq<Entry>, i: nat)
    requires i < |input|
  {
    i > 0 && BytesBetween(grandparents, input[CountedFrom(grandparents, limit, input, i - 1)].key, input[i].key) > limit
  }

  /** What the cursor passes from one input key to the next adds to what has been counted. */
  lemma CountOn(grandparents: Files, limit: nat, input: seq<Entry>, n: nat, from: nat, to: nat)
    requires Sorted(input) && 0 < n < |input| && from == PassedFrom(grandparents, input[n - 1].key, 0)
    requires from <= to <= |grandparents| && forall i :: from <= i < to ==> Less(grandparents[i].largest, input[n].key)
    requires to < |grandparents| ==> !Less(grandparents[to].largest, input[n].key)
    ensures to == PassedFrom(grandparents, input[n].key, 0)
    ensures var k := input[CountedFrom(grandparents, limit, input, n - 1)].key;
            BytesBetween(grandparents, k, input[n].key) ==
            BytesBetween(grandparents, k, input[n - 1].key) + TotalSize(grandparents[from..to])
  {
    var s := CountedFrom(grandparents, limit, input, n - 1);
    PassedIsFirst(grandparents, input[n].key, from, to);
    PassedOn(grandparents, input[n - 1].key, input[n].key, 0);
    assert s == n - 1 || Less(input[s].key, input[n - 1].key);
    BytesAdd(grandparents, input[s].key, input[n - 1].key, input[n].key);
  }

  /** The count after entry `n`: over the limit exactly at a stop, where it starts over. */
  lemma CountedNext(grandparents: Files, limit: nat, input: seq<Entry>, n: nat, from: nat, to: nat, was: nat)
    requires Sorted(input) && 0 < n < |input| && from == PassedFrom(grandparents, input[n - 1].key, 0)
    requires from <= to <= |grandparents| && forall i :: from <= i < to ==> Less(grandparents[i].largest, input[n].key)
    requires to < |grandparents| ==> !Less(grandparents[to].largest, input[n].key)
    requires was == BytesBetween(grandparents, input[CountedFrom(grandparents, limit, input, n - 1)].key,
                                 input[n - 1].key)
    ensures var total := was + TotalSize(grandparents[from..to]);
            && (Stops(grandparents, limit, input, n) <==> total > limit)
            && BytesBetween(grandparents, input[CountedFrom(grandparents, limit, input, n)].key, input[n].key) ==
               (if total > limit then 0 else total)
    ensures to == PassedFrom(grandparents, input[n].key, 0)
  {
    CountOn(grandparents, limit, input, n, from, to);
    assert BytesBetween(grandparents, input[n].key, input[n].key) == 0;
  }

  // ---------------------------------------------------------------------------
  // Runs
  // ---------------------------------------------------------------------------

  /** The tables finished so far, as runs of entries, and the open one. */
  datatype Cutting = Cutting(done: seq<seq<Entry>>, open: seq<Entry>)

  /** The open run, if there is one, is finished. */
  function Closed(c: Cutting): Cutting {
    if c.open == [] then c else Cutting(c.done + [c.open], [])
  }

  /** One more entry in the open run, which is finished at the size limit. */
  function WithEntry(c: Cutting, e: Entry, size: seq<Entry> -> nat, limit: nat): Cutting {
    var open := c.open + [e];
    if size(open) >= limit then Cutting(c.done + [open], []) else Cutting(c.done, open)
  }

  /** One round: an end before the entry if it stops, and the entry unless it is dropped. */
  function Round(c: Cutting, e: Entry, stop: bool, drop: bool, size: seq<Entry> -> nat, limit: nat): Cutting {
    var ended := if stop then Closed(c) else c;
    if drop then ended else WithEntry(ended, e, size, limit)
  }

  /** The run did not reach the size limit before its last entry. */
  ghost predicate Under(run: seq<Entry>, size: seq<Entry> -> nat, limit: nat) {
    forall m {:trigger run[..m]} :: 1 <= m < |run| ==> size(run[..m]) < limit
  }

  /** Every stop among the first `n` input entries is after the whole run or not after its first entry. */
  ghost predicate Unstopped(run: seq<Entry>, grandparents: Files, overlap: nat, input: seq<Entry>, n: nat)
    requires run != [] && n <= |input|
  {
    forall j {:trigger Stops(grandparents, overlap, input, j)} ::
      0 <= j < n && Stops(grandparents, overlap, input, j) ==>
        Less(run[|run| - 1].key, input[j].key) || !Less(run[0].key, input[j].key)
  }

  /** A stop after run `a` and not after the first entry of `b`. */
  ghost predicate StoppedBetween(a: seq<Entry>, b: seq<Entry>, grandparents: Files, overlap: nat, input: seq<Entry>,
                                 n: nat)
    requires a != [] && n <= |input|
  {
    exists j {:trigger Stops(grandparents, overlap, input, j)} ::
      0 <= j < n && Stops(grandparents, overlap, input, j) && Less(a[|a| - 1].key, input[j].key)
      && (b != [] ==> !Less(b[0].key, input[j].key))
  }

  /** Why run `a` ended before `b`. */
  ghost predicate EndedFor(a: seq<Entry>, b: seq<Entry>, grandparents: Files, overlap: nat, input: seq<Entry>, n: nat,
                           size: seq<Entry> -> nat, limit: nat)
    requires a != [] && n <= |input|
  {
    size(a) >= limit || StoppedBetween(a, b, grandparents, overlap, input, n)
  }

  /** Finished runs are cut where they should be. */
  ghost predicate DoneOk(done: seq<seq<Entry>>, grandparents: Files, overlap: nat, input: seq<Entry>, n: nat,
                         size: seq<Entry> -> nat, limit: nat)
    requires n <= |input|
  {
    && (forall k :: 0 <= k < |done| ==> done[k] != [])
    && (forall k :: 0 <= k < |done| ==>
         Under(done[k], size, limit) && Unstopped(done[k], grandparents, overlap, input, n))
    && (forall k, l :: 0 <= k < l < |done| && l == k + 1 ==>
         EndedFor(done[k], done[l], grandparents, overlap, input, n, size, limit))
  }

  /** So is the open one, as far as it goes. */
  ghost predicate OpenOk(c: Cutting, grandparents: Files, overlap: nat, input: seq<Entry>, n: nat,
                         size: seq<Entry> -> nat, limit: nat)
    requires n <= |input|
  {
    && Under(c.open, size, limit)
    && (c.open != [] ==> size(c.open) < limit && Unpassed(c.open, grandparents, overlap, input, n))
    && (c.done != [] ==>
         var last := c.done[|c.done| - 1];
         last != [] && EndedFor(last, c.open, grandparents, overlap, input, n, size, limit))
  }

  /** No stop so far is after the first entry of the run. */
  ghost predicate Unpassed(run: seq<Entry>, grandparents: Files, overlap: nat, input: seq<Entry>, n: nat)
    requires run != [] && n <= |input|
  {
    forall j {:trigger Stops(grandparents, overlap, input, j)} ::
      0 <= j < n && Stops(grandparents, overlap, input, j) ==> !Less(run[0].key, input[j].key)
  }

  ghost predicate CutOk(c: Cutting, grandparents: Files, overlap: nat, input: seq<Entry>, n: nat,
                        size: seq<Entry> -> nat, limit: nat)
    requires n <= |input|
  {
    && DoneOk(c.done, grandparents, overlap, input, n, size, limit)
    && OpenOk(c, grandparents, overlap, input, n, size, limit)
  }

  /** Every run ends before the key. */
  ghost predicate EndsBefore(c: Cutting, key: InternalKey) {
    && (forall k :: 0 <= k < |c.done| ==> c.done[k] != [] && Less(c.done[k][|c.done[k]| - 1].key, key))
    && (c.open != [] ==> Less(c.open[|c.open| - 1].key, key))
  }

  lemma EndedLater(a: seq<Entry>, b: seq<Entry>, grandparents: Files, overlap: nat, input: seq<Entry>, n: nat,
                   size: seq<Entry> -> nat, limit: nat)
    requires a != [] && n < |input| && EndedFor(a, b, grandparents, overlap, input, n, size, limit)
    ensures EndedFor(a, b, grandparents, overlap, input, n + 1, size, limit)
  {
  }

  /** The count at the next entry, and an end there if it stops. */
  lemma StopKeepsCut(c: Cutting, grandparents: Files, overlap: nat, input: seq<Entry>, n: nat,
                     size: seq<Entry> -> nat, limit: nat) returns (c': Cutting)
    requires n < |input| && CutOk(c, grandparents, overlap, input, n, size, limit) && EndsBefore(c, input[n].key)
    ensures c' == if Stops(grandparents, overlap, input, n) then Closed(c) else c
    ensures CutOk(c', grandparents, overlap, input, n + 1, size, limit) && EndsBefore(c', input[n].key)
  {
    DoneLater(c.done, grandparents, overlap, input, n, size, limit);
    if c.done != [] {
      EndedLater(c.done[|c.done| - 1], c.open, grandparents, overlap, input, n, size, limit);
    }
    if Stops(grandparents, overlap, input, n) {
      StopHere(c, grandparents, overlap, input, n, size, limit);
      ClosedBefore(c, input[n].key);
      c' := Closed(c);
    } else {
      c' := c;
      assert c.open != [] ==> Unpassed(c.open, grandparents, overlap, input, n + 1);
    }
  }

  lemma StoppedRun(run: seq<Entry>, grandparents: Files, overlap: nat, input: seq<Entry>, n: nat)
    requires n < |input| && Stops(grandparents, overlap, input, n)
    requires run != [] && Less(run[|run| - 1].key, input[n].key) && Unpassed(run, grandparents, overlap, input, n)
    ensures StoppedBetween(run, [], grandparents, overlap, input, n + 1)
    ensures Unstopped(run, grandparents, overlap, input, n + 1)
  {
  }

  lemma ClosedBefore(c: Cutting, key: InternalKey)
    requires EndsBefore(c, key)
    ensures EndsBefore(Closed(c), key)
  {
    var done: seq<seq<Entry>> := Closed(c).done;
    forall k: int | 0 <= k < |done| ensures done[k] != [] && Less(done[k][|done[k]| - 1].key, key) {
      assert k < |c.done| ==> done[k] == c.done[k];
    }
  }

  lemma StopHere(c: Cutting, grandparents: Files, overlap: nat, input: seq<Entry>, n: nat,
                 size: seq<Entry> -> nat, limit: nat)
    requires n < |input| && Stops(grandparents, overlap, input, n) && EndsBefore(c, input[n].key)
    requires DoneOk(c.done, grandparents, overlap, input, n + 1, size, limit)
    requires Under(c.open, size, limit) && (c.open != [] ==> Unpassed(c.open, grandparents, overlap, input, n))
    requires c.done != [] ==> EndedFor(c.done[|c.done| - 1], c.open, grandparents, overlap, input, n + 1, size, limit)
    ensures CutOk(Closed(c), grandparents, overlap, input, n + 1, size, limit)
  {
    if c.open != [] {
      StoppedRun(c.open, grandparents, overlap, input, n);
      CloseKeepsDone(c, grandparents, overlap, input, n + 1, size, limit);
      EndsHere(c, grandparents, overlap, input, n + 1, size, limit);
    }
  }

  lemma EndsHere(c: Cutting, grandparents: Files, overlap: nat, input: seq<Entry>, n: nat,
                 size: seq<Entry> -> nat, limit: nat)
    requires n <= |input| && c.open != [] && EndedFor(c.open, [], grandparents, overlap, input, n, size, limit)
    ensures OpenOk(Closed(c), grandparents, overlap, input, n, size, limit)
  {
    var done := c.done + [c.open];
    assert done[|done| - 1] == c.open;
  }

  lemma DoneLater(done: seq<seq<Entry>>, grandparents: Files, overlap: nat, input: seq<Entry>, n: nat,
                  size: seq<Entry> -> nat, limit: nat)
    requires n < |input| && DoneOk(done, grandparents, overlap, input, n, size, limit)
    requires forall k :: 0 <= k < |done| ==> Less(done[k][|done[k]| - 1].key, input[n].key)
    ensures DoneOk(done, grandparents, overlap, input, n + 1, size, limit)
  {
    forall k, l | 0 <= k < l < |done| && l == k + 1
      ensures EndedFor(done[k], done[l], grandparents, overlap, input, n + 1, size, limit)
    {
      EndedLater(done[k], done[l], grandparents, overlap, input, n, size, limit);
    }
  }

  lemma CloseKeepsDone(c: Cutting, grandparents: Files, overlap: nat, input: seq<Entry>, n: nat,
                       size: seq<Entry> -> nat, limit: nat)
    requires n <= |input| && DoneOk(c.done, grandparents, overlap, input, n, size, limit) && c.open != []
    requires Under(c.open, size, limit) && Unstopped(c.open, grandparents, overlap, input, n)
    requires c.done != [] ==> EndedFor(c.done[|c.done| - 1], c.open, grandparents, overlap, input, n, size, limit)
    ensures DoneOk(Closed(c).done, grandparents, overlap, input, n, size, limit)
  {
    var done := Closed(c).done;
    forall k, l | 0 <= k < l < |done| && l == k + 1
      ensures EndedFor(done[k], done[l], grandparents, overlap, input, n, size, limit)
    {
      assert l < |c.done| ==> EndedFor(c.done[k], c.done[l], grandparents, overlap, input, n, size, limit);
    }
  }

  /** The entry goes into the open run. */
  lemma KeepKeepsCut(c: Cutting, grandparents: Files, overlap: nat, input: seq<Entry>, n: nat,
                     size: seq<Entry> -> nat, limit: nat)
    requires Sorted(input) && n < |input| && CutOk(c, grandparents, overlap, input, n + 1, size, limit)
    requires EndsBefore(c, input[n].key)
    ensures CutOk(WithEntry(c, input[n], size, limit), grandparents, overlap, input, n + 1, size, limit)
  {
    var open := c.open + [input[n]];
    var c' := Cutting(c.done, open);
    UnderMore(c.open, input[n], size, limit);
    assert Unpassed(open, grandparents, overlap, input, n + 1) by {
      assert forall j :: 0 <= j < n + 1 ==> !Less(input[n].key, input[j].key);
    }
    if c.done != [] {
      EndedBeforeMore(c.done[|c.done| - 1], c.open, input[n], grandparents, overlap, input, n, size, limit);
    }
    if size(open) >= limit {
      CloseKeepsDone(c', grandparents, overlap, input, n + 1, size, limit);
      assert Closed(c') == WithEntry(c, input[n], size, limit);
    }
  }

  lemma UnderMore(run: seq<Entry>, e: Entry, size: seq<Entry> -> nat, limit: nat)
    requires Under(run, size, limit) && (run != [] ==> size(run) < limit)
    ensures Under(run + [e], size, limit)
  {
    forall m | 1 <= m < |run| + 1 ensures size((run + [e])[..m]) < limit {
      assert (run + [e])[..m] == run[..m];
      assert run[..|run|] == run;
    }
  }

  lemma EndedBeforeMore(a: seq<Entry>, b: seq<Entry>, e: Entry, grandparents: Files, overlap: nat, input: seq<Entry>,
                        n: nat, size: seq<Entry> -> nat, limit: nat)
    requires Sorted(input) && n < |input| && a != [] && e == input[n]
    requires EndedFor(a, b, grandparents, overlap, input, n + 1, size, limit)
    ensures EndedFor(a, b + [e], grandparents, overlap, input, n + 1, size, limit)
  {
    assert forall j :: 0 <= j < n + 1 ==> !Less(input[n].key, input[j].key);
  }

  /** One round of the loop. */
  lemma RoundKeepsCut(c: Cutting, grandparents: Files, overlap: nat, input: seq<Entry>, n: nat, drop: bool,
                      size: seq<Entry> -> nat, limit: nat)
    requires Sorted(input) && n < |input| && CutOk(c, grandparents, overlap, input, n, size, limit)
    requires EndsBefore(c, input[n].key)
    ensures CutOk(Round(c, input[n], Stops(grandparents, overlap, input, n), drop, size, limit),
                  grandparents, overlap, input, n + 1, size, limit)
  {
    var c' := StopKeepsCut(c, grandparents, overlap, input, n, size, limit);
    if !drop {
      KeepKeepsCut(c', grandparents, overlap, input, n, size, limit);
    }
  }

  /** At the end the open run is finished as it is. */
  lemma EndKeepsCut(c: Cutting, grandparents: Files, overlap: nat, input: seq<Entry>,
                    size: seq<Entry> -> nat, limit: nat)
    requires CutOk(c, grandparents, overlap, input, |input|, size, limit)
    ensures DoneOk(Closed(c).done, grandparents, overlap, input, |input|, size, limit)
  {
    if c.open != [] {
      CloseKeepsDone(c, grandparents, overlap, input, |input|, size, limit);
    }
  }

  // ---------------------------------------------------------------------------
  // Output files
  // ---------------------------------------------------------------------------

  /** The outputs of a compaction end where they should. No output reached the size limit before its last
      entry; none goes on past a stop; and each but the last ended at the limit or for a stop. */
  ghost predicate CutRight(outputs: Files, grandparents: Files, overlap: nat, input: seq<Entry>,
                           size: seq<Entry> -> nat, limit: nat) {
    && (forall k, m {:trigger outputs[k].entries[..m]} :: 0 <= k < |outputs| && 1 <= m < |outputs[k].entries| ==>
         size(outputs[k].entries[..m]) < limit)
    && (forall k, j {:trigger outputs[k], Stops(grandparents, overlap, input, j)} ::
         0 <= k < |outputs| && 0 <= j < |input| && Stops(grandparents, overlap, input, j) ==>
           Less(outputs[k].largest, input[j].key) || !Less(outputs[k].smallest, input[j].key))
    && (forall k, l {:trigger HasEnded(outputs[k], outputs[l], grandparents, overlap, input, size, limit)} ::
         0 <= k < l < |outputs| && l == k + 1 ==>
           HasEnded(outputs[k], outputs[l], grandparents, overlap, input, size, limit))
  }

  /** File `f` reached the limit, or there is a stop after it and not after the first key of the next. */
  ghost predicate HasEnded(f: FileMetaData, next: FileMetaData, grandparents: Files, overlap: nat, input: seq<Entry>,
                           size: seq<Entry> -> nat, limit: nat) {
    || size(f.entries) >= limit
    || exists j {:trigger Stops(grandparents, overlap, input, j)} ::
         0 <= j < |input| && Stops(grandparents, overlap, input, j)
         && Less(f.largest, input[j].key) && !Less(next.smallest, input[j].key)
  }

  /** The entries of each file. */
  ghost function RunsOf(files: Files): (r: seq<seq<Entry>>)
    ensures |r| == |files| && forall i :: 0 <= i < |files| ==> r[i] == files[i].entries
  {
    seq(|files|, i requires 0 <= i < |files| => files[i].entries)
  }

  lemma RunsOfMore(files: Files, f: FileMetaData)
    ensures RunsOf(files + [f]) == RunsOf(files) + [f.entries]
  {
  }

  lemma FilesAreCut(files: Files, grandparents: Files, overlap: nat, input: seq<Entry>,
                    size: seq<Entry> -> nat, limit: nat)
    requires AllWellFormed(files) && DoneOk(RunsOf(files), grandparents, overlap, input, |input|, size, limit)
    ensures CutRight(files, grandparents, overlap, input, size, limit)
  {
    var runs := RunsOf(files);
    forall k, l | 0 <= k < l < |files| && l == k + 1
      ensures HasEnded(files[k], files[l], grandparents, overlap, input, size, limit)
    {
      assert EndedFor(runs[k], runs[l], grandparents, overlap, input, |input|, size, limit);
    }
    forall k, j | 0 <= k < |files| && 0 <= j < |input| && Stops(grandparents, overlap, input, j)
      ensures Less(files[k].largest, input[j].key) || !Less(files[k].smallest, input[j].key)
    {
      assert Unstopped(runs[k], grandparents, overlap, input, |input|);
    }
    forall k, m | 0 <= k < |files| && 1 <= m < |files[k].entries| ensures size(files[k].entries[..m]) < limit {
      assert Under(runs[k], size, limit);
    }
  }
}
