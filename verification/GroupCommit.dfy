/** Group commit: the queue of waiting writers, the batch group its leader builds, and what every
  interleaving of arrivals and group commits guarantees.

  Each method below is one stretch of DBImpl::Write under the mutex, so any sequence of calls the
  preconditions allow is an interleaving of writers.
 */
module GroupCommit {
  import opened DbFormat

  const HEADER := 12

  type ByteSize = n: nat | n >= HEADER witness HEADER

  /** A write batch: its operations and the length of its representation. */
  datatype WriteBatch = WriteBatch(ops: seq<Operation>, bytes: ByteSize)

  /** A queued writer; without a batch it only asks for the memtable to be switched. */
  datatype Writer = Writer(batch: Option<WriteBatch>, sync: bool)

  datatype Status = Ok | Failed

  function Ops(w: Writer): seq<Operation> {
    if w.batch.Some? then w.batch.value.ops else []
  }

  function Bytes(w: Writer): nat {
    if w.batch.Some? then w.batch.value.bytes else 0
  }

  /** The operations of writers `lo..hi`, in order. */
  function GroupOps(ws: seq<Writer>, lo: nat, hi: nat): seq<Operation>
    requires hi <= |ws|
  {
    if hi <= lo then [] else GroupOps(ws, lo, hi - 1) + Ops(ws[hi - 1])
  }

  function GroupBytes(ws: seq<Writer>, lo: nat, hi: nat): nat
    requires hi <= |ws|
  {
    if hi <= lo then 0 else GroupBytes(ws, lo, hi - 1) + Bytes(ws[hi - 1])
  }

  /** The length of the batch a group is merged into: one header and every body. */
  function MergedBytes(ws: seq<Writer>, lo: nat, hi: nat): nat
    requires hi <= |ws|
  {
    if hi <= lo then HEADER
    else MergedBytes(ws, lo, hi - 1) + if ws[hi - 1].batch.Some? then Bytes(ws[hi - 1]) - HEADER else 0
  }

  /** Writers seen from further along the queue, or with later arrivals behind them. */
  lemma {:induction false} GroupShifts(ws: seq<Writer>, ws': seq<Writer>, lo: nat, lo': nat, n: nat)
    requires lo + n <= |ws| && lo' + n <= |ws'| && forall j :: lo <= j < lo + n ==> ws[j] == ws'[j - lo + lo']
    ensures GroupOps(ws, lo, lo + n) == GroupOps(ws', lo', lo' + n)
    ensures GroupBytes(ws, lo, lo + n) == GroupBytes(ws', lo', lo' + n)
  {
    if n > 0 {
      GroupShifts(ws, ws', lo, lo', n - 1);
    }
  }

  /** How far a group may grow: less when the first write is small, so as not to slow it down. */
  function MaxSize(first: nat): nat {
    if first <= 0x2_0000 then first + 0x2_0000 else 0x10_0000
  }

  /** Writer `i` may ride with the writers before it. */
  predicate MayJoin(queue: seq<Writer>, i: nat)
    requires i < |queue|
  {
    && (queue[i].sync ==> queue[0].sync)
    && (queue[i].batch.Some? ==> GroupBytes(queue, 0, i + 1) <= MaxSize(Bytes(queue[0])))
  }

  /** The first `n` writers are the front one's group: all may join, and the next one may not. */
  predicate IsGroup(queue: seq<Writer>, n: nat) {
    && 1 <= n <= |queue| && queue[0].batch.Some?
    && (forall i :: 1 <= i < n ==> MayJoin(queue, i))
    && (n < |queue| ==> !MayJoin(queue, n))
  }

  lemma GroupIsUnique(queue: seq<Writer>, n: nat, m: nat)
    requires IsGroup(queue, n) && IsGroup(queue, m)
    ensures n == m
  {
  }

  /** Behind a first batch of at most 128 KB the others add up to at most 128 KB; a larger one with its group
      stays within 1 MB, unless it is alone beyond that. */
  predicate Bounded(ws: seq<Writer>, lo: nat, hi: nat)
    requires lo < hi <= |ws|
  {
    if Bytes(ws[lo]) <= 128 * 1024 then GroupBytes(ws, lo + 1, hi) <= 128 * 1024
    else GroupBytes(ws, lo, hi) <= Max(1024 * 1024, Bytes(ws[lo]))
  }

  lemma BoundedShifts(ws: seq<Writer>, ws': seq<Writer>, lo: nat, lo': nat, n: nat)
    requires n > 0 && lo + n <= |ws| && lo' + n <= |ws'|
    requires forall j :: lo <= j < lo + n ==> ws[j] == ws'[j - lo + lo']
    ensures Bounded(ws', lo', lo' + n) <==> Bounded(ws, lo, lo + n)
  {
    assert ws[lo] == ws'[lo'];
    GroupShifts(ws, ws', lo, lo', n);
    GroupShifts(ws, ws', lo + 1, lo' + 1, n - 1);
  }

  lemma MembersMaySync(queue: seq<Writer>, n: nat)
    requires IsGroup(queue, n)
    ensures forall i :: 0 <= i < n && queue[i].sync ==> queue[0].sync
  {
    forall i | 0 <= i < n && queue[i].sync ensures queue[0].sync {
      assert i > 0 ==> MayJoin(queue, i);
    }
  }

  lemma {:induction false} LeaderFirst(ws: seq<Writer>, lo: nat, hi: nat)
    requires lo < hi <= |ws|
    ensures GroupBytes(ws, lo, hi) == Bytes(ws[lo]) + GroupBytes(ws, lo + 1, hi)
  {
    if lo + 1 < hi {
      LeaderFirst(ws, lo, hi - 1);
    }
  }

  /** How many of the writers `lo..hi` have something to write. */
  function Batches(ws: seq<Writer>, lo: nat, hi: nat): nat
    requires hi <= |ws|
  {
    if hi <= lo then 0 else Batches(ws, lo, hi - 1) + if ws[hi - 1].batch.Some? then 1 else 0
  }

  /** What is counted for a group: its merged batch, and the headers the merging saves. */
  lemma {:induction false} HeadersSaved(ws: seq<Writer>, lo: nat, hi: nat)
    requires hi <= |ws|
    ensures GroupBytes(ws, lo, hi) + HEADER == MergedBytes(ws, lo, hi) + HEADER * Batches(ws, lo, hi)
  {
    if lo < hi {
      HeadersSaved(ws, lo, hi - 1);
    }
  }

  /** The group's bytes stay within the limit computed from the first batch. */
  lemma {:induction false} GroupIsBounded(queue: seq<Writer>, n: nat)
    requires 1 <= n <= |queue| && queue[0].batch.Some? && forall i :: 1 <= i < n ==> MayJoin(queue, i)
    ensures Bounded(queue, 0, n) && MergedBytes(queue, 0, n) <= GroupBytes(queue, 0, n)
  {
    LeaderFirst(queue, 0, n);
    if n > 1 {
      GroupIsBounded(queue, n - 1);
      LeaderFirst(queue, 0, n - 1);
      assert MayJoin(queue, n - 1);
    }
  }

  /** A writer left out although its sync flag allows it would have broken that limit. */
  lemma GroupIsFull(queue: seq<Writer>, n: nat)
    requires IsGroup(queue, n) && n < |queue| && (queue[n].sync ==> queue[0].sync)
    ensures queue[n].batch.Some?
    ensures if Bytes(queue[0]) <= 128 * 1024 then GroupBytes(queue, 1, n + 1) > 128 * 1024
            else GroupBytes(queue, 0, n + 1) > 1024 * 1024
  {
    LeaderFirst(queue, 0, n + 1);
  }

  method BuildBatchGroup(writers: seq<Writer>) returns (ops: seq<Operation>, n: nat)
    requires |writers| > 0 && writers[0].batch.Some?
    ensures IsGroup(writers, n) && ops == GroupOps(writers, 0, n)
    ensures Bounded(writers, 0, n) && forall i :: 0 <= i < n && writers[i].sync ==> writers[0].sync
    ensures n < |writers| && (writers[n].sync ==> writers[0].sync) ==>
              && writers[n].batch.Some?
              && (if Bytes(writers[0]) <= 128 * 1024 then GroupBytes(writers, 1, n + 1) > 128 * 1024
                  else GroupBytes(writers, 0, n + 1) > 1024 * 1024)
  {
    var first := writers[0];
    ops := first.batch.value.ops;
    var size: nat := first.batch.value.bytes;
    var maxSize := 0x10_0000;
    if size <= 0x2_0000 {
      maxSize := size + 0x2_0000;
    }
    n := 1;
    while n < |writers|
      invariant 1 <= n <= |writers| && maxSize == MaxSize(Bytes(first))
      invariant forall i :: 1 <= i < n ==> MayJoin(writers, i)
      invariant ops == GroupOps(writers, 0, n) && size == GroupBytes(writers, 0, n)
    {
      var w := writers[n];
      if w.sync && !first.sync {
        break;
      }
      if w.batch.Some? {
        size := size + w.batch.value.bytes;
        if size > maxSize {
          break;
        }
        ops := ops + w.batch.value.ops;
      }
      n := n + 1;
    }
    GroupIsBounded(writers, n);
    MembersMaySync(writers, n);
    if n < |writers| && (writers[n].sync ==> writers[0].sync) {
      GroupIsFull(writers, n);
    }
  }

  // ---------------------------------------------------------------------------
  // History
  // ---------------------------------------------------------------------------

  /** A log record: the operations take consecutive sequence numbers from `sequence` on. */
  datatype Record = Record(sequence: nat, ops: seq<Operation>)

  /** A group that was written: writers `lo..hi` in order of arrival, how it went, and how many records
      the log had after it. */
  datatype Attempt = Attempt(lo: nat, hi: nat, record: Record, status: Status, logged: bool, logEnd: nat)

  /** Writers in order of arrival, the statuses of those that returned, and the groups written. */
  datatype History = History(arrived: seq<Writer>, done: seq<Status>, attempts: seq<Attempt>)

  ghost predicate AttemptOk(h: History, a: Attempt) {
    && a.lo < a.hi <= |h.done| && |h.done| <= |h.arrived|
    && h.arrived[a.lo].batch.Some? && a.record.ops == GroupOps(h.arrived, a.lo, a.hi)
    && (forall k :: a.lo <= k < a.hi ==> h.done[k] == a.status)
    && (forall k :: a.lo <= k < a.hi && h.arrived[k].sync ==> h.arrived[a.lo].sync)
    && Bounded(h.arrived, a.lo, a.hi)
    && (a.status == Ok ==> a.logged)
  }

  /** Where group `a` leaves the sequence counter. */
  function NextSequence(a: Attempt): nat {
    a.record.sequence + |a.record.ops|
  }

  /** A later group has later writers, and the one right after starts where this one stops: in the
      sequence numbers, and in the log. */
  predicate Follows(attempts: seq<Attempt>, i: nat, j: nat)
    requires i < j < |attempts|
  {
    && attempts[i].hi <= attempts[j].lo
    && (j == i + 1 ==>
         && attempts[j].record.sequence == NextSequence(attempts[i])
         && attempts[j].logEnd == attempts[i].logEnd + Count(attempts[j].logged))
  }

  function Count(logged: bool): nat { if logged then 1 else 0 }

  ghost predicate AttemptsInOrder(attempts: seq<Attempt>, base: nat, last: nat, logged: nat) {
    && (attempts == [] ==> last == base && logged == 0)
    && (attempts != [] ==>
         && attempts[0].record.sequence == base + 1 && attempts[0].logEnd == Count(attempts[0].logged)
         && NextSequence(attempts[|attempts| - 1]) == last + 1 && attempts[|attempts| - 1].logEnd == logged)
    && forall i, j {:trigger Follows(attempts, i, j)} :: 0 <= i < j < |attempts| ==> Follows(attempts, i, j)
  }

  /** The record of a group that reached the log is the one it left there. */
  predicate InLog(a: Attempt, log: seq<Record>) {
    a.logged ==> 1 <= a.logEnd <= |log| && log[a.logEnd - 1] == a.record
  }

  ghost predicate LogMatches(attempts: seq<Attempt>, log: seq<Record>) {
    forall i {:trigger InLog(attempts[i], log)} :: 0 <= i < |attempts| ==> InLog(attempts[i], log)
  }

  ghost predicate AttemptsOk(h: History) {
    && |h.done| <= |h.arrived|
    && forall i {:trigger AttemptOk(h, h.attempts[i])} :: 0 <= i < |h.attempts| ==> AttemptOk(h, h.attempts[i])
  }

  ghost predicate InAttempt(attempts: seq<Attempt>, k: nat) {
    exists i :: 0 <= i < |attempts| && attempts[i].lo <= k < attempts[i].hi
  }

  /** Writer `k` returned Ok with something to write. */
  predicate Committed(h: History, k: nat) {
    k < |h.done| && k < |h.arrived| && h.done[k] == Ok && h.arrived[k].batch.Some?
  }

  /** Whatever was committed was in a group. */
  ghost predicate AllGrouped(h: History) {
    forall k: nat :: Committed(h, k) ==> InAttempt(h.attempts, k)
  }

  /** Attempt `i` succeeded and had to be synced. */
  predicate MustBeSynced(h: History, i: nat) {
    i < |h.attempts| && h.attempts[i].status == Ok && h.attempts[i].lo < |h.arrived| && h.arrived[h.attempts[i].lo].sync
  }

  ghost predicate AllSynced(h: History, synced: nat) {
    forall i: nat :: MustBeSynced(h, i) ==> h.attempts[i].logEnd <= synced
  }

  /** The queue is the writers that have arrived and not returned, in order. */
  ghost predicate Waiting(h: History, queue: seq<Writer>) {
    && |h.done| + |queue| == |h.arrived|
    && forall j {:trigger queue[j]} :: 0 <= j < |queue| ==> queue[j] == h.arrived[j + |h.done|]
  }

  ghost predicate HistoryOk(h: History, queue: seq<Writer>, log: seq<Record>, synced: nat, last: nat, base: nat) {
    && AttemptsOk(h) && Waiting(h, queue)
    && AttemptsInOrder(h.attempts, base, last, |log|) && LogMatches(h.attempts, log) && synced <= |log|
    && AllGrouped(h) && AllSynced(h, synced)
  }

  // ---------------------------------------------------------------------------
  // The queue
  // ---------------------------------------------------------------------------

  class WriteQueue {
    var writers: seq<Writer>
    var log: seq<Record>
    /** How many log records a successful Sync has covered. */
    var synced: nat
    var lastSequence: nat
    var bgError: Status
    /** The group the front writer is logging with the mutex released, if any. */
    var group: Option<(nat, Record)>
    ghost var history: History
    ghost const base: nat

    ghost predicate Valid()
      reads this
    {
      && HistoryOk(history, writers, log, synced, lastSequence, base)
      && (group.Some? ==>
           && 1 <= group.value.0 <= |writers| && writers[0].batch.Some?
           && (forall i :: 1 <= i < group.value.0 ==> MayJoin(writers, i))
           && group.value.1 == Record(lastSequence + 1, GroupOps(writers, 0, group.value.0)))
    }

    constructor (lastSequence: nat)
      ensures Valid() && writers == [] && log == [] && group == None && history == History([], [], [])
      ensures this.lastSequence == lastSequence && base == lastSequence
    {
      writers, log, synced, bgError, group := [], [], 0, Ok, None;
      this.lastSequence, base, history := lastSequence, lastSequence, History([], [], []);
    }

    /** A writer joins the queue; this may happen while a group is being logged. */
    method Enqueue(w: Writer)
      requires Valid()
      modifies `writers, `history
      ensures Valid() && writers == old(writers) + [w]
      ensures history == old(history).(arrived := old(history).arrived + [w])
    {
      EnqueueKeeps(history, writers, log, synced, lastSequence, base, w);
      if group.Some? {
        EnqueueKeepsGroup(writers, group.value.0, w);
      }
      writers := writers + [w];
      history := history.(arrived := history.arrived + [w]);
    }

    /** The front writer goes ahead once MakeRoomForWrite returns `room`. With an error, or without a
        batch, it leaves alone; otherwise it fixes its group and starts logging it. */
    method Lead(room: Status)
      requires Valid() && writers != [] && group == None
      modifies `writers, `group, `history
      ensures Valid()
      ensures var status := if bgError == Failed then Failed else room;
              if status == Ok && old(writers)[0].batch.Some? then
                && writers == old(writers) && history == old(history)
                && group.Some? && IsGroup(writers, group.value.0)
                && group.value.1 == Record(lastSequence + 1, GroupOps(writers, 0, group.value.0))
              else
                && writers == old(writers)[1..] && group == None
                && history == old(history).(done := old(history).done + [status])
    {
      var status := if bgError == Failed then Failed else room;
      if status == Ok && writers[0].batch.Some? {
        var ops, n := BuildBatchGroup(writers);
        group := Some((n, Record(lastSequence + 1, ops)));
      } else {
        LeaveAlone(history, writers, log, synced, lastSequence, base, status);
        writers := writers[1..];
        history := history.(done := history.done + [status]);
      }
    }

    /** The group has been logged, synced if its leader asked for it, and inserted; or something of that
        failed. Everyone in it leaves with the one status. */
    method Finish(appended: bool, syncOk: bool, inserted: bool)
      requires Valid() && group.Some?
      modifies this
      ensures Valid() && group == None
      ensures var (n, record) := old(group).value;
              var sync := old(writers)[0].sync;
              var status := if appended && (sync ==> syncOk) && inserted then Ok else Failed;
              && writers == old(writers)[n..]
              && log == old(log) + (if appended then [record] else [])
              && lastSequence == old(lastSequence) + |record.ops|
              && synced == (if appended && sync && syncOk then |log| else old(synced))
              && bgError == (if appended && sync && !syncOk then Failed else old(bgError))
              && history == AfterGroup(old(history), n, record, status, appended, |log|)
    {
      var (n, record) := group.value;
      ghost var was := history;
      var status;
      status, log, synced, bgError := LogGroup(history, writers, log, synced, lastSequence, base, bgError, n, record,
          appended, syncOk, inserted);
      ghost var a := Attempt(|was.done|, |was.done| + n, record, status, appended, |log|);
      lastSequence := lastSequence + |record.ops|;
      group := None;
      Pop(n, status);
      history := history.(attempts := history.attempts + [a]);
      assert history == AfterGroup(was, n, record, status, appended, |log|);
    }

    /** Everyone up to the last writer of the group leaves the queue with the group's status. */
    method Pop(n: nat, status: Status)
      requires n <= |writers|
      modifies `writers, `history
      ensures writers == old(writers)[n..]
      ensures history == old(history).(done := old(history).done + Repeat(status, n))
    {
      var popped := 0;
      while popped < n
        invariant popped <= n && writers == old(writers)[popped..]
        invariant history == old(history).(done := old(history).done + Repeat(status, popped))
      {
        RepeatSnoc(old(history).done, status, popped);
        writers := writers[1..];
        history := history.(done := history.done + [status]);
        popped := popped + 1;
      }
    }
  }

  /** Writing the group keeps the history in order. */
  method LogGroup(ghost h: History, queue: seq<Writer>, log: seq<Record>, synced: nat, ghost last: nat, ghost base: nat,
      bgError: Status, n: nat, record: Record, appended: bool, syncOk: bool, inserted: bool)
    returns (status: Status, log': seq<Record>, synced': nat, bgError': Status)
    requires HistoryOk(h, queue, log, synced, last, base)
    requires 1 <= n <= |queue| && queue[0].batch.Some? && (forall i :: 1 <= i < n ==> MayJoin(queue, i))
    requires record == Record(last + 1, GroupOps(queue, 0, n))
    ensures status == GroupStatus(appended, queue[0].sync, syncOk, inserted)
    ensures log' == log + if appended then [record] else []
    ensures synced' == if appended && queue[0].sync && syncOk then |log'| else synced
    ensures bgError' == if appended && queue[0].sync && !syncOk then Failed else bgError
    ensures HistoryOk(AfterGroup(h, n, record, status, appended, |log'|), queue[n..], log', synced',
        last + |record.ops|, base)
  {
    status, log', synced', bgError' :=
      WriteGroup(log, synced, bgError, record, queue[0].sync, appended, syncOk, inserted);
    ghost var a := Attempt(|h.done|, |h.done| + n, record, status, appended, |log'|);
    GroupLeaves(h, queue, log, synced, last, base, n, a, synced');
  }

  /** Logging, syncing and inserting a group, each of which may fail. */
  method WriteGroup(log: seq<Record>, synced: nat, bgError: Status, record: Record, sync: bool, appended: bool,
      syncOk: bool, inserted: bool)
    returns (status: Status, log': seq<Record>, synced': nat, bgError': Status)
    ensures status == GroupStatus(appended, sync, syncOk, inserted)
    ensures log' == log + if appended then [record] else []
    ensures synced' == if appended && sync && syncOk then |log'| else synced
    ensures bgError' == if appended && sync && !syncOk then Failed else bgError
  {
    status, log', synced', bgError' := Ok, log, synced, bgError;
    if !appended {
      status := Failed;
      return;
    }
    log' := log + [record];
    if sync {
      if syncOk {
        synced' := |log'|;
      } else {
        status := Failed;
        bgError' := Failed;
      }
    }
    if status == Ok && !inserted {
      status := Failed;
    }
  }

  /** The status of a group: logged, synced if asked for, and inserted. */
  function GroupStatus(appended: bool, sync: bool, syncOk: bool, inserted: bool): Status {
    if appended && (sync ==> syncOk) && inserted then Ok else Failed
  }

  function Repeat<T>(x: T, n: nat): (r: seq<T>)
    ensures |r| == n && forall i :: 0 <= i < n ==> r[i] == x
  {
    seq(n, _ => x)
  }

  lemma RepeatSnoc<T>(s: seq<T>, x: T, n: nat)
    ensures s + Repeat(x, n) + [x] == s + Repeat(x, n + 1)
  {
  }

  lemma RangeStays(ws: seq<Writer>, ws': seq<Writer>, lo: nat, hi: nat)
    requires ws <= ws' && lo < hi <= |ws|
    ensures GroupOps(ws', lo, hi) == GroupOps(ws, lo, hi) && (Bounded(ws', lo, hi) <==> Bounded(ws, lo, hi))
  {
    var n := hi - lo;
    assert hi == lo + n;
    GroupShifts(ws, ws', lo, lo, n);
    BoundedShifts(ws, ws', lo, lo, n);
  }

  lemma AttemptStays(h: History, h': History, a: Attempt)
    requires AttemptOk(h, a) && h.done <= h'.done && h.arrived <= h'.arrived && |h'.done| <= |h'.arrived|
    ensures AttemptOk(h', a)
  {
    RangeStays(h.arrived, h'.arrived, a.lo, a.hi);
  }

  lemma EnqueueKeeps(h: History, queue: seq<Writer>, log: seq<Record>, synced: nat, last: nat, base: nat, w: Writer)
    requires HistoryOk(h, queue, log, synced, last, base)
    ensures HistoryOk(h.(arrived := h.arrived + [w]), queue + [w], log, synced, last, base)
  {
    var h' := h.(arrived := h.arrived + [w]);
    forall i | 0 <= i < |h.attempts| ensures AttemptOk(h', h'.attempts[i]) {
      AttemptStays(h, h', h.attempts[i]);
    }
    assert AllGrouped(h') by {
      forall k: nat ensures Committed(h', k) ==> Committed(h, k) {}
    }
    assert AllSynced(h', synced) by {
      forall i: nat ensures MustBeSynced(h', i) ==> MustBeSynced(h, i) {
        assert i < |h.attempts| ==> AttemptOk(h, h.attempts[i]);
      }
    }
  }

  lemma EnqueueKeepsGroup(queue: seq<Writer>, n: nat, w: Writer)
    requires n <= |queue| && forall i :: 1 <= i < n ==> MayJoin(queue, i)
    ensures GroupOps(queue + [w], 0, n) == GroupOps(queue, 0, n) && forall i :: 1 <= i < n ==> MayJoin(queue + [w], i)
  {
    forall i | 1 <= i < n ensures MayJoin(queue + [w], i) {
      MayStillJoin(queue, i, w);
    }
    GroupShifts(queue, queue + [w], 0, 0, n);
  }

  lemma MayStillJoin(queue: seq<Writer>, i: nat, w: Writer)
    requires 1 <= i < |queue| && MayJoin(queue, i)
    ensures MayJoin(queue + [w], i)
  {
    GroupShifts(queue, queue + [w], 0, 0, i + 1);
  }

  lemma LeaveAlone(h: History, queue: seq<Writer>, log: seq<Record>, synced: nat, last: nat, base: nat, status: Status)
    requires HistoryOk(h, queue, log, synced, last, base) && queue != [] && (status == Ok ==> queue[0].batch.None?)
    ensures HistoryOk(h.(done := h.done + [status]), queue[1..], log, synced, last, base)
  {
    var h' := h.(done := h.done + [status]);
    forall i | 0 <= i < |h.attempts| ensures AttemptOk(h', h'.attempts[i]) {
      AttemptStays(h, h', h.attempts[i]);
    }
    assert h.arrived[|h.done|] == queue[0];
    assert AllGrouped(h') by {
      forall k: nat ensures Committed(h', k) ==> Committed(h, k) {}
    }
    assert AllSynced(h', synced) by {
      forall i: nat ensures MustBeSynced(h', i) ==> MustBeSynced(h, i) {}
    }
  }

  ghost function AfterGroup(h: History, n: nat, record: Record, status: Status, logged: bool, logEnd: nat): History {
    h.(done := h.done + Repeat(status, n), attempts := h.attempts
        + [Attempt(|h.done|, |h.done| + n, record, status, logged, logEnd)])
  }

  /** A group at the head of the queue, seen among all writers that ever arrived. */
  lemma WaitingGroup(h: History, queue: seq<Writer>, n: nat)
    requires |h.done| <= |h.arrived| && Waiting(h, queue)
    requires 1 <= n <= |queue| && queue[0].batch.Some? && (forall i :: 1 <= i < n ==> MayJoin(queue, i))
    ensures GroupOps(h.arrived, |h.done|, |h.done| + n) == GroupOps(queue, 0, n)
    ensures Bounded(h.arrived, |h.done|, |h.done| + n)
  {
    GroupShifts(queue, h.arrived, 0, |h.done|, n);
    GroupIsBounded(queue, n);
    BoundedShifts(queue, h.arrived, 0, |h.done|, n);
  }

  lemma NewAttemptOk(h: History, queue: seq<Writer>, n: nat, a: Attempt)
    requires |h.done| <= |h.arrived| && Waiting(h, queue)
    requires 1 <= n <= |queue| && queue[0].batch.Some? && (forall i :: 1 <= i < n ==> MayJoin(queue, i))
    requires a.lo == |h.done| && a.hi == a.lo + n && a.record.ops == GroupOps(queue, 0, n)
        && (a.status == Ok ==> a.logged)
    ensures AttemptOk(AfterGroup(h, n, a.record, a.status, a.logged, a.logEnd), a)
  {
    WaitingGroup(h, queue, n);
    forall k | a.lo <= k < a.hi && h.arrived[k].sync ensures h.arrived[a.lo].sync {
      assert queue[k - a.lo] == h.arrived[k];
      assert k > a.lo ==> MayJoin(queue, k - a.lo);
    }
  }

  lemma GroupKeepsAttempts(h: History, queue: seq<Writer>, n: nat, a: Attempt)
    requires AttemptsOk(h) && Waiting(h, queue)
    requires 1 <= n <= |queue| && queue[0].batch.Some? && (forall i :: 1 <= i < n ==> MayJoin(queue, i))
    requires a.lo == |h.done| && a.hi == a.lo + n && a.record.ops == GroupOps(queue, 0, n)
        && (a.status == Ok ==> a.logged)
    ensures AttemptsOk(AfterGroup(h, n, a.record, a.status, a.logged, a.logEnd))
  {
    var h' := AfterGroup(h, n, a.record, a.status, a.logged, a.logEnd);
    NewAttemptOk(h, queue, n, a);
    forall i | 0 <= i < |h.attempts| ensures AttemptOk(h', h'.attempts[i]) {
      AttemptStays(h, h', h.attempts[i]);
    }
  }

  lemma AppendKeepsOrder(attempts: seq<Attempt>, base: nat, last: nat, a: Attempt, log: seq<Record>)
    requires AttemptsInOrder(attempts, base, last, |log|) && a.record.sequence == last + 1 && LogMatches(attempts, log)
    requires forall i :: 0 <= i < |attempts| ==> attempts[i].hi <= a.lo
    requires a.logEnd == |log| + Count(a.logged)
    ensures AttemptsInOrder(attempts + [a], base, last + |a.record.ops|, a.logEnd)
    ensures LogMatches(attempts + [a], log + if a.logged then [a.record] else [])
  {
    var all := attempts + [a];
    forall i, j | 0 <= i < j < |all| ensures Follows(all, i, j) {
      assert j < |attempts| ==> Follows(attempts, i, j);
    }
    forall i | 0 <= i < |all| ensures InLog(all[i], log + if a.logged then [a.record] else []) {
      assert i < |attempts| ==> InLog(attempts[i], log);
    }
  }

  lemma GroupKeepsGrouped(h: History, n: nat, a: Attempt)
    requires AllGrouped(h) && a.lo == |h.done| && a.hi == a.lo + n
    ensures AllGrouped(AfterGroup(h, n, a.record, a.status, a.logged, a.logEnd))
  {
    var h' := AfterGroup(h, n, a.record, a.status, a.logged, a.logEnd);
    forall k: nat | Committed(h', k) ensures InAttempt(h'.attempts, k) {
      if k < |h.done| {
        assert Committed(h, k);
        var i :| 0 <= i < |h.attempts| && h.attempts[i].lo <= k < h.attempts[i].hi;
        assert h'.attempts[i] == h.attempts[i];
      } else {
        assert h'.attempts[|h.attempts|].lo <= k;
      }
    }
  }

  lemma GroupKeepsSynced(h: History, n: nat, a: Attempt, synced: nat, synced': nat)
    requires AllSynced(h, synced) && synced <= synced' && a.lo == |h.done|
    requires a.status == Ok && a.lo < |h.arrived| && h.arrived[a.lo].sync ==> a.logEnd <= synced'
    ensures AllSynced(AfterGroup(h, n, a.record, a.status, a.logged, a.logEnd), synced')
  {
    var h' := AfterGroup(h, n, a.record, a.status, a.logged, a.logEnd);
    forall i: nat | MustBeSynced(h', i) ensures h'.attempts[i].logEnd <= synced' {
      assert i < |h.attempts| ==> MustBeSynced(h, i);
    }
  }

  lemma GroupKeepsOrder(h: History, base: nat, last: nat, log: seq<Record>, n: nat, a: Attempt)
    requires AttemptsOk(h) && AttemptsInOrder(h.attempts, base, last, |log|) && LogMatches(h.attempts, log)
    requires a.lo == |h.done| && a.hi == a.lo + n && a.record.sequence == last + 1
    requires a.logEnd == |log| + Count(a.logged)
    ensures var h' := AfterGroup(h, n, a.record, a.status, a.logged, a.logEnd);
            && AttemptsInOrder(h'.attempts, base, last + |a.record.ops|, a.logEnd)
            && LogMatches(h'.attempts, log + if a.logged then [a.record] else [])
  {
    forall i | 0 <= i < |h.attempts| ensures h.attempts[i].hi <= a.lo {
      assert AttemptOk(h, h.attempts[i]);
    }
    AppendKeepsOrder(h.attempts, base, last, a, log);
  }

  lemma GroupKeepsWaiting(h: History, queue: seq<Writer>, n: nat, a: Attempt)
    requires Waiting(h, queue) && n <= |queue|
    ensures Waiting(AfterGroup(h, n, a.record, a.status, a.logged, a.logEnd), queue[n..])
  {
  }

  lemma GroupLeaves(h: History, queue: seq<Writer>, log: seq<Record>, synced: nat, last: nat, base: nat,
                    n: nat, a: Attempt, synced': nat)
    requires HistoryOk(h, queue, log, synced, last, base)
    requires 1 <= n <= |queue| && queue[0].batch.Some? && (forall i :: 1 <= i < n ==> MayJoin(queue, i))
    requires a.record == Record(last + 1, GroupOps(queue, 0, n)) && (a.status == Ok ==> a.logged)
    requires a.lo == |h.done| && a.hi == a.lo + n && a.logEnd == |log| + Count(a.logged)
    requires synced <= synced' <= a.logEnd && (a.status == Ok && queue[0].sync ==> synced' == a.logEnd)
    ensures HistoryOk(AfterGroup(h, n, a.record, a.status, a.logged, a.logEnd), queue[n..],
                      log + if a.logged then [a.record] else [], synced', last + |a.record.ops|, base)
  {
    GroupKeepsAttempts(h, queue, n, a);
    GroupKeepsOrder(h, base, last, log, n, a);
    GroupKeepsWaiting(h, queue, n, a);
    GroupKeepsGrouped(h, n, a);
    assert h.arrived[a.lo] == queue[0];
    GroupKeepsSynced(h, n, a, synced, synced');
  }

  // ---------------------------------------------------------------------------
  // What holds in every state of the queue
  // ---------------------------------------------------------------------------

  /** Later groups take later sequence numbers and later places in the log. */
  lemma {:induction false} GroupsAscend(attempts: seq<Attempt>, base: nat, last: nat, logged: nat, i: nat, j: nat)
    requires AttemptsInOrder(attempts, base, last, logged) && i < j < |attempts|
    ensures NextSequence(attempts[i]) <= attempts[j].record.sequence
    ensures attempts[i].logEnd + Count(attempts[j].logged) <= attempts[j].logEnd
  {
    assert Follows(attempts, j - 1, j);
    if i < j - 1 {
      GroupsAscend(attempts, base, last, logged, i, j - 1);
    }
  }

  /** Every log record was left there by exactly one group. */
  lemma {:induction false} RecordOwner(attempts: seq<Attempt>, base: nat, last: nat, log: seq<Record>, n: nat, r: nat)
      returns (i: nat)
    requires AttemptsInOrder(attempts, base, last, |log|) && LogMatches(attempts, log)
    requires n < |attempts| && r < attempts[n].logEnd && r < |log|
    ensures i <= n && attempts[i].logged && attempts[i].logEnd == r + 1 && log[r] == attempts[i].record
    ensures forall j :: 0 <= j < |attempts| && attempts[j].logged && attempts[j].logEnd == r + 1 ==> j == i
  {
    if attempts[n].logged && attempts[n].logEnd == r + 1 {
      i := n;
      assert InLog(attempts[n], log);
      forall j | 0 <= j < |attempts| && j != i ensures !attempts[j].logged || attempts[j].logEnd != r + 1 {
        GroupsAscend(attempts, base, last, |log|, if i < j then i else j, if i < j then j else i);
      }
    } else {
      assert n > 0 ==> Follows(attempts, n - 1, n);
      i := RecordOwner(attempts, base, last, log, n - 1, r);
    }
  }

  /** The log follows the queue: of two records the earlier has the earlier writers, and its sequence
      numbers all come first. */
  lemma LogFollowsQueue(h: History, queue: seq<Writer>, log: seq<Record>, synced: nat, last: nat, base: nat, r: nat,
      q: nat)
    returns (i: nat, j: nat)
    requires HistoryOk(h, queue, log, synced, last, base) && r < q < |log|
    ensures i < j < |h.attempts| && log[r] == h.attempts[i].record && log[q] == h.attempts[j].record
    ensures h.attempts[i].hi <= h.attempts[j].lo && log[r].sequence + |log[r].ops| <= log[q].sequence
  {
    i := RecordOwner(h.attempts, base, last, log, |h.attempts| - 1, r);
    j := RecordOwner(h.attempts, base, last, log, |h.attempts| - 1, q);
    var k := if i < j then j else i;
    if i != j {
      GroupsAscend(h.attempts, base, last, |log|, if i < j then i else j, k);
      assert i < j ==> Follows(h.attempts, i, j);
    }
  }

  /** While no append fails, the log's sequence numbers have no gaps. */
  lemma NoFailureNoGap(h: History, queue: seq<Writer>, log: seq<Record>, synced: nat, last: nat, base: nat, r: nat)
    requires HistoryOk(h, queue, log, synced, last, base) && forall i :: 0 <= i < |h.attempts| ==> h.attempts[i].logged
    requires r < |log|
    ensures log[r].sequence + |log[r].ops| == if r + 1 < |log| then log[r + 1].sequence else last + 1
    ensures r == 0 ==> log[r].sequence == base + 1
  {
    var n := |h.attempts| - 1;
    var i := RecordOwner(h.attempts, base, last, log, n, r);
    if r + 1 < |log| {
      var j := RecordOwner(h.attempts, base, last, log, n, r + 1);
      assert i < n ==> Follows(h.attempts, i, i + 1);
    }
    forall k | 0 <= k < n ensures h.attempts[k].logEnd < h.attempts[n].logEnd {
      GroupsAscend(h.attempts, base, last, |log|, k, n);
    }
    forall k | 0 < k <= n ensures h.attempts[0].logEnd < h.attempts[k].logEnd {
      GroupsAscend(h.attempts, base, last, |log|, 0, k);
    }
  }

  /** Where a writer's own operations are in its group's. */
  lemma {:induction false} OpsInGroup(ws: seq<Writer>, lo: nat, k: nat, hi: nat)
    requires lo <= k < hi <= |ws|
    ensures var at := |GroupOps(ws, lo, k)|;
            at + |Ops(ws[k])| <= |GroupOps(ws, lo, hi)| && GroupOps(ws, lo, hi)[at..at + |Ops(ws[k])|] == Ops(ws[k])
  {
    var front, last := GroupOps(ws, lo, hi - 1), Ops(ws[hi - 1]);
    if k < hi - 1 {
      OpsInGroup(ws, lo, k, hi - 1);
      SliceOfFront(front, last, |GroupOps(ws, lo, k)|, |Ops(ws[k])|);
    } else {
      SliceOfBack(front, last);
    }
  }

  lemma SliceOfFront(front: seq<Operation>, back: seq<Operation>, at: nat, n: nat)
    requires at + n <= |front|
    ensures (front + back)[at..at + n] == front[at..at + n]
  {
  }

  lemma SliceOfBack(front: seq<Operation>, back: seq<Operation>)
    ensures (front + back)[|front|..|front| + |back|] == back
  {
  }

  /** A write that returned Ok is in the log, whole and under consecutive sequence numbers of its own,
      in the one record of its group; and if it asked for a sync, that record has been synced. */
  lemma CommittedWritesAreLogged(h: History, queue: seq<Writer>, log: seq<Record>, synced: nat, last: nat, base: nat,
      k: nat)
    returns (r: nat, at: nat)
    requires HistoryOk(h, queue, log, synced, last, base) && Committed(h, k)
    ensures r < |log| && at + |Ops(h.arrived[k])| <= |log[r].ops|
    ensures log[r].ops[at..at + |Ops(h.arrived[k])|] == Ops(h.arrived[k])
    ensures log[r].sequence + |log[r].ops| <= last + 1
    ensures h.arrived[k].sync ==> r < synced
  {
    var i := GroupOf(h, log, k);
    r, at := h.attempts[i].logEnd - 1, |GroupOps(h.arrived, h.attempts[i].lo, k)|;
    if i < |h.attempts| - 1 {
      GroupsAscend(h.attempts, base, last, |log|, i, |h.attempts| - 1);
    }
    assert h.arrived[k].sync ==> MustBeSynced(h, i);
  }

  lemma GroupOf(h: History, log: seq<Record>, k: nat) returns (i: nat)
    requires AttemptsOk(h) && LogMatches(h.attempts, log) && AllGrouped(h) && Committed(h, k)
    ensures i < |h.attempts|
    ensures var a := h.attempts[i];
            && 1 <= a.logEnd <= |log| && log[a.logEnd - 1] == a.record && a.status == Ok && a.lo <= k < |h.arrived|
            && (h.arrived[k].sync ==> h.arrived[a.lo].sync)
            && var at := |GroupOps(h.arrived, a.lo, k)|;
               at + |Ops(h.arrived[k])| <= |a.record.ops| &&
               a.record.ops[at..at + |Ops(h.arrived[k])|] == Ops(h.arrived[k])
  {
    i :| 0 <= i < |h.attempts| && h.attempts[i].lo <= k < h.attempts[i].hi;
    var a := h.attempts[i];
    assert AttemptOk(h, a);
    assert InLog(a, log);
    OpsInGroup(h.arrived, a.lo, k, a.hi);
  }
}
