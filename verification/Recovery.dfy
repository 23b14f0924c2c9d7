/** Crash recovery as a state machine: the write-ahead log, memtable switches, flushes, compactions,
  file deletion, crashes at any point and the steps of DB::Open.

  Whatever the run, the tables named by the manifest together with the logs it has not retired read
  exactly like everything ever logged, so a recovered database holds every acknowledged write and
  nothing that was never logged. Completed log appends are assumed to survive a crash; any table
  file the manifest does not name may be lost or damaged by it.
 */
module Recovery {
  import opened DbFormat

  // ---------------------------------------------------------------------------
  // What is on disk and what is in memory
  // ---------------------------------------------------------------------------

  /** A log record: operations that take consecutive sequence numbers from `sequence` on. */
  datatype Batch = Batch(sequence: nat, ops: seq<Operation>)

  ghost function Writes(b: Batch): Entries {
    BatchEntries(b.ops, b.sequence)
  }

  type Logs = map<nat, seq<Batch>>
  type Tables = map<nat, Entries>

  datatype Manifest = Manifest(logNumber: nat, nextFile: nat, lastSequence: nat, tables: set<nat>)

  datatype Disk = Disk(manifest: Manifest, logs: Logs, tables: Tables)

  /** CompactMemTable: the table is being written, is written and no longer in pending_outputs_, its
      edit is being saved, or is saved and not yet the current version. */
  datatype Flush = NoFlush | Building(n: nat) | Built(n: nat) | FlushSaving(next: Manifest) | FlushSaved

  /** A compaction: writing `outputs`, saving its edit, or saved and not yet the current version. */
  datatype Merge = NoMerge | Merging(outputs: set<nat>)
                 | MergeSaving(next: Manifest, outputs: set<nat>, smallest: nat) | MergeSaved(outputs: set<nat>)

  /** Where DB::Open is in the logs: all numbered below `from` are done; inside one; or past them all
      with a new log created. */
  datatype Replay = Between(from: nat) | Replaying(n: nat, pos: nat, mem: Entries) | LogReady(n: nat)

  datatype Memory =
    | Down
    | Recovering(nextFile: nat, maxSequence: nat, added: set<nat>, replay: Replay)
    | Up(mem: Entries, imm: Option<Entries>, inFlight: Option<Batch>, logNo: nat, verLog: nat, nextFile: nat,
         lastSequence: nat, current: set<nat>, pending: set<nat>, flush: Flush, merge: Merge)

  /** What has been logged and acknowledged so far, and the oldest snapshot compactions still honour. */
  datatype History = History(logged: Entries, acked: Entries, floor: nat)

  datatype System = System(disk: Disk, memory: Memory, history: History)

  // ---------------------------------------------------------------------------
  // Contents
  // ---------------------------------------------------------------------------

  ghost predicate InLog(logs: Logs, n: nat, i: nat, e: Entry) {
    n in logs && i < |logs[n]| && e in Writes(logs[n][i])
  }

  /** Record `i` of log `n` is at or after log `lo` and before record `pos` of log `cur`. */
  predicate Within(lo: nat, cur: nat, pos: nat, n: nat, i: nat) {
    lo <= n && (n < cur || (n == cur && i < pos))
  }

  ghost predicate InLogPart(logs: Logs, lo: nat, cur: nat, pos: nat, e: Entry) {
    exists n: nat, i: nat :: InLog(logs, n, i, e) && Within(lo, cur, pos, n, i)
  }

  ghost predicate InLogFrom(logs: Logs, lo: nat, e: Entry) {
    exists n: nat, i: nat :: InLog(logs, n, i, e) && lo <= n
  }

  ghost predicate InTables(tables: Tables, live: set<nat>, e: Entry) {
    exists n :: n in live && n in tables && e in tables[n]
  }

  /** Entries of the logs numbered from `lo` on, up to record `pos` of log `cur`. */
  ghost function LogPart(logs: Logs, lo: nat, cur: nat, pos: nat): Entries {
    iset e | InLogPart(logs, lo, cur, pos, e)
  }

  ghost function LogFrom(logs: Logs, lo: nat): Entries {
    iset e | InLogFrom(logs, lo, e)
  }

  ghost function TableEntries(tables: Tables, live: set<nat>): Entries {
    iset e | InTables(tables, live, e)
  }

  /** What a recovery would find. */
  ghost function Recoverable(d: Disk): Entries {
    TableEntries(d.tables, d.manifest.tables) + LogFrom(d.logs, d.manifest.logNumber)
  }

  /** What a running database holds. */
  ghost function Contents(d: Disk, u: Memory): Entries
    requires u.Up?
  {
    u.mem + ImmEntries(u.imm) + TableEntries(d.tables, u.current)
  }

  ghost function ImmEntries(imm: Option<Entries>): Entries {
    if imm.Some? then imm.value else iset{}
  }

  ghost function InFlightEntries(b: Option<Batch>): Entries {
    if b.Some? then Writes(b.value) else iset{}
  }

  // ---------------------------------------------------------------------------
  // Steps
  // ---------------------------------------------------------------------------

  datatype Event =
    | Append(ops: seq<Operation>) | Apply | Switch
    | FlushBegin | FlushBuilt | FlushSave | FlushWrite | FlushPublish
    | MergeBegin | MergeOpen | MergeFill(n: nat, es: Entries) | MergeSave(inputs: set<nat>,
        smallest: nat) | MergeWrite | MergePublish
    | DeleteLog(n: nat) | DeleteTable(n: nat)
    | Crash
    | OpenManifest | OpenLog(n: nat) | ReadRecord | Spill | CloseLog | NewLog | OpenDone

  /** The background thread is at a point where DeleteObsoleteFiles is called. */
  predicate MayDelete(u: Memory)
    requires u.Up?
  {
    u.flush == NoFlush && (u.merge == NoMerge || u.merge.Merging?)
  }

  ghost predicate Step(s: System, ev: Event, t: System) {
    match ev
    case Append(ops) => AppendStep(s, ops, t)
    case Apply => ApplyStep(s, t)
    case Switch => SwitchStep(s, t)
    case FlushBegin => FlushBeginStep(s, t)
    case FlushBuilt => FlushBuiltStep(s, t)
    case FlushSave => FlushSaveStep(s, t)
    case FlushWrite => FlushWriteStep(s, t)
    case FlushPublish => FlushPublishStep(s, t)
    case MergeBegin => MergeBeginStep(s, t)
    case MergeOpen => MergeOpenStep(s, t)
    case MergeFill(n, es) => MergeFillStep(s, n, es, t)
    case MergeSave(inputs, smallest) => MergeSaveStep(s, inputs, smallest, t)
    case MergeWrite => MergeWriteStep(s, t)
    case MergePublish => MergePublishStep(s, t)
    case DeleteLog(n) => DeleteLogStep(s, n, t)
    case DeleteTable(n) => DeleteTableStep(s, n, t)
    case Crash => CrashStep(s, t)
    case OpenManifest => OpenManifestStep(s, t)
    case OpenLog(n) => OpenLogStep(s, n, t)
    case ReadRecord => ReadRecordStep(s, t)
    case Spill => SpillStep(s, t)
    case CloseLog => CloseLogStep(s, t)
    case NewLog => NewLogStep(s, t)
    case OpenDone => OpenDoneStep(s, t)
  }

  // ----- writing -----

  /** The leader's batch takes the next sequence numbers and reaches the log. */
  ghost predicate AppendStep(s: System, ops: seq<Operation>, t: System) {
    && s.memory.Up? && s.memory.inFlight == None && s.memory.logNo in s.disk.logs
    && var b := Batch(s.memory.lastSequence + 1, ops);
       var n := s.memory.logNo;
       && t.disk == s.disk.(logs := s.disk.logs[n := s.disk.logs[n] + [b]])
       && t.memory == s.memory.(inFlight := Some(b))
       && t.history == s.history.(logged := s.history.logged + Writes(b))
  }

  /** It is inserted in the memtable, the last sequence advances and the writers are told. */
  ghost predicate ApplyStep(s: System, t: System) {
    && s.memory.Up? && s.memory.inFlight.Some?
    && var b := s.memory.inFlight.value;
       && t.disk == s.disk
       && t.memory == s.memory.(mem := s.memory.mem + Writes(b), inFlight := None,
           lastSequence := s.memory.lastSequence + |b.ops|)
       && t.history == s.history.(acked := s.history.acked + Writes(b))
  }

  /** MakeRoomForWrite turns the memtable immutable and starts a new log. */
  ghost predicate SwitchStep(s: System, t: System) {
    && s.memory.Up? && s.memory.inFlight == None && s.memory.imm == None
    && var n := s.memory.nextFile;
       && t.disk == s.disk.(logs := s.disk.logs[n := []])
       && t.memory == s.memory.(mem := iset{}, imm := Some(s.memory.mem), logNo := n, nextFile := n + 1)
       && t.history == s.history
  }

  // ----- flushing the immutable memtable -----

  ghost predicate FlushBeginStep(s: System, t: System) {
    && s.memory.Up? && s.memory.imm.Some? && MayDelete(s.memory)
    && var n := s.memory.nextFile;
       && t.disk == s.disk
       && t.memory == s.memory.(nextFile := n + 1, pending := s.memory.pending + {n}, flush := Building(n))
       && t.history == s.history
  }

  /** The table is complete; an empty one is removed again. Its number leaves pending_outputs_. */
  ghost predicate FlushBuiltStep(s: System, t: System) {
    && s.memory.Up? && s.memory.flush.Building? && s.memory.imm.Some?
    && var n := s.memory.flush.n;
       && t.disk == s.disk.(tables := if s.memory.imm.value
           == iset{} then s.disk.tables - {n} else s.disk.tables[n := s.memory.imm.value])
       && t.memory == s.memory.(pending := s.memory.pending - {n}, flush := Built(n))
       && t.history == s.history
  }

  /** LogAndApply fills in the edit: logs before the current one are no longer needed. */
  ghost predicate FlushSaveStep(s: System, t: System) {
    && s.memory.Up? && s.memory.flush.Built? && s.memory.imm.Some?
    && var added := if s.memory.imm.value == iset{} then {} else {s.memory.flush.n};
       var next := Manifest(s.memory.logNo, s.memory.nextFile, s.memory.lastSequence, s.memory.current + added);
       && t.disk == s.disk
       && t.memory == s.memory.(flush := FlushSaving(next))
       && t.history == s.history
  }

  ghost predicate FlushWriteStep(s: System, t: System) {
    && s.memory.Up? && s.memory.flush.FlushSaving?
    && t.disk == s.disk.(manifest := s.memory.flush.next)
    && t.memory == s.memory.(flush := FlushSaved)
    && t.history == s.history
  }

  ghost predicate FlushPublishStep(s: System, t: System) {
    && s.memory.Up? && s.memory.flush.FlushSaved?
    && t.disk == s.disk
    && t.memory == s.memory.(flush := NoFlush, imm := None, current := s.disk.manifest.tables,
        verLog := s.disk.manifest.logNumber)
    && t.history == s.history
  }

  // ----- compaction -----

  ghost predicate MergeBeginStep(s: System, t: System) {
    && s.memory.Up? && s.memory.flush == NoFlush && s.memory.merge == NoMerge
    && t == s.(memory := s.memory.(merge := Merging({})))
  }

  ghost predicate MergeOpenStep(s: System, t: System) {
    && s.memory.Up? && s.memory.flush == NoFlush && s.memory.merge.Merging?
    && var n := s.memory.nextFile;
       && t.disk == s.disk.(tables := s.disk.tables[n := iset{}])
       && t.memory == s.memory.(nextFile := n + 1, pending := s.memory.pending + {n},
           merge := Merging(s.memory.merge.outputs + {n}))
       && t.history == s.history
  }

  ghost predicate MergeFillStep(s: System, n: nat, es: Entries, t: System) {
    && s.memory.Up? && s.memory.flush == NoFlush && s.memory.merge.Merging? && n in s.memory.merge.outputs
    && t.disk == s.disk.(tables := s.disk.tables[n := es])
    && t.memory == s.memory && t.history == s.history
  }

  /** The outputs keep nothing new and lose nothing a snapshot from `smallest` on can see. */
  ghost predicate MergePreserves(tables: Tables, before: set<nat>, after: set<nat>, smallest: nat) {
    && TableEntries(tables, after) <= TableEntries(tables, before)
    && SameReadsFrom(smallest, TableEntries(tables, after), TableEntries(tables, before))
  }

  ghost predicate MergeSaveStep(s: System, inputs: set<nat>, smallest: nat, t: System) {
    && s.memory.Up? && s.memory.flush == NoFlush && s.memory.merge.Merging? && smallest <= s.memory.lastSequence
    && var outputs := s.memory.merge.outputs;
       var after := s.memory.current - inputs + outputs;
       && MergePreserves(s.disk.tables, s.memory.current, after, smallest)
       && t.disk == s.disk
       && t.memory == s.memory.(merge :=
            MergeSaving(Manifest(s.memory.verLog, s.memory.nextFile, s.memory.lastSequence, after), outputs, smallest))
       && t.history == s.history
  }

  ghost predicate MergeWriteStep(s: System, t: System) {
    && s.memory.Up? && s.memory.merge.MergeSaving?
    && t.disk == s.disk.(manifest := s.memory.merge.next)
    && t.memory == s.memory.(merge := MergeSaved(s.memory.merge.outputs))
    && t.history == s.history.(floor := Max(s.history.floor, s.memory.merge.smallest))
  }

  ghost predicate MergePublishStep(s: System, t: System) {
    && s.memory.Up? && s.memory.merge.MergeSaved?
    && t.disk == s.disk
    && t.memory == s.memory.(merge := NoMerge, current := s.disk.manifest.tables,
        pending := s.memory.pending - s.memory.merge.outputs)
    && t.history == s.history
  }

  // ----- deleting obsolete files -----

  ghost predicate DeleteLogStep(s: System, n: nat, t: System) {
    && s.memory.Up? && MayDelete(s.memory) && n < s.memory.verLog
    && t == s.(disk := s.disk.(logs := s.disk.logs - {n}))
  }

  ghost predicate DeleteTableStep(s: System, n: nat, t: System) {
    && s.memory.Up? && MayDelete(s.memory) && n !in s.memory.current && n !in s.memory.pending
    && t == s.(disk := s.disk.(tables := s.disk.tables - {n}))
  }

  // ----- crashing -----

  /** Memory is lost, and so may be any table file the manifest does not name. */
  ghost predicate CrashStep(s: System, t: System) {
    && t.memory == Down && t.history == s.history
    && t.disk.manifest == s.disk.manifest && t.disk.logs == s.disk.logs
    && forall n :: n in s.disk.manifest.tables && n in s.disk.tables ==>
        n in t.disk.tables && t.disk.tables[n] == s.disk.tables[n]
  }

  // ----- DB::Open -----

  /** VersionSet::Recover: the next number is kept for the new manifest. */
  ghost predicate OpenManifestStep(s: System, t: System) {
    && s.memory == Down
    && s.disk.manifest.tables <= s.disk.tables.Keys
    && t == s.(memory := Recovering(s.disk.manifest.nextFile + 1, 0, {}, Between(s.disk.manifest.logNumber)))
  }

  /** The log with the smallest number not yet recovered. */
  ghost predicate OpenLogStep(s: System, n: nat, t: System) {
    && s.memory.Recovering? && s.memory.replay.Between?
    && n in s.disk.logs && n >= s.memory.replay.from
    && (forall k :: k in s.disk.logs && k >= s.memory.replay.from ==> k >= n)
    && t == s.(memory := s.memory.(replay := Replaying(n, 0, iset{})))
  }

  ghost predicate ReadRecordStep(s: System, t: System) {
    && s.memory.Recovering? && s.memory.replay.Replaying?
    && var n, pos := s.memory.replay.n, s.memory.replay.pos;
       && n in s.disk.logs && pos < |s.disk.logs[n]|
       && var b := s.disk.logs[n][pos];
          t == s.(memory := s.memory.(maxSequence := Max(s.memory.maxSequence, b.sequence + |b.ops| - 1),
                                      replay := Replaying(n, pos + 1, s.memory.replay.mem + Writes(b))))
  }

  /** WriteLevel0Table during recovery. */
  ghost predicate SpillStep(s: System, t: System) {
    && s.memory.Recovering? && s.memory.replay.Replaying?
    && var n, mem := s.memory.nextFile, s.memory.replay.mem;
       && t.disk == s.disk.(tables := if mem == iset{} then s.disk.tables - {n} else s.disk.tables[n := mem])
       && t.memory == s.memory.(nextFile := n + 1, added := s.memory.added + (if mem == iset{} then {} else {n}),
                                replay := s.memory.replay.(mem := iset{}))
       && t.history == s.history
  }

  /** MarkFileNumberUsed after the last record, with nothing left in memory. */
  ghost predicate CloseLogStep(s: System, t: System) {
    && s.memory.Recovering? && s.memory.replay.Replaying?
    && var n := s.memory.replay.n;
       && n in s.disk.logs && s.memory.replay.pos == |s.disk.logs[n]| && s.memory.replay.mem == iset{}
       && t == s.(memory := s.memory.(nextFile := Max(s.memory.nextFile, n + 1), replay := Between(n + 1)))
  }

  ghost predicate NewLogStep(s: System, t: System) {
    && s.memory.Recovering? && s.memory.replay.Between?
    && (forall k :: k in s.disk.logs ==> k < s.memory.replay.from)
    && var n := s.memory.nextFile;
       && t.disk == s.disk.(logs := s.disk.logs[n := []])
       && t.memory == s.memory.(nextFile := n + 1, replay := LogReady(n))
       && t.history == s.history
  }

  /** The recovered tables and the new log are installed in one manifest. */
  ghost predicate OpenDoneStep(s: System, t: System) {
    && s.memory.Recovering? && s.memory.replay.LogReady?
    && var n := s.memory.replay.n;
       var last := Max(s.disk.manifest.lastSequence, s.memory.maxSequence);
       var m := Manifest(n, s.memory.nextFile, last, s.disk.manifest.tables + s.memory.added);
       && t.disk == s.disk.(manifest := m)
       && t.memory == Up(iset{}, None, None, n, n, s.memory.nextFile, last, m.tables, {}, NoFlush, NoMerge)
       && t.history == s.history
  }

  /** NewDB. */
  ghost predicate Init(s: System) {
    && s.disk == Disk(Manifest(0, 2, 0, {}), map[], map[])
    && s.memory == Down && s.history == History(iset{}, iset{}, 0)
  }

  // ---------------------------------------------------------------------------
  // Invariant
  // ---------------------------------------------------------------------------

  ghost predicate AtMost(es: Entries, last: int) {
    forall e {:trigger e in es} :: e in es ==> e.key.seqno <= last
  }

  /** Every entry of `b` is newer than every entry of `a`. */
  ghost predicate NewerThan(b: Entries, a: Entries) {
    forall e, f {:trigger e in a, f in b} :: e in a && f in b ==> e.key.seqno < f.key.seqno
  }

  /** Later records carry later sequence numbers, across log files too. */
  ghost predicate LogsAscend(logs: Logs, lo: nat) {
    forall n: nat, i: nat, m: nat, j: nat, e: Entry, f: Entry {:trigger InLog(logs, n, i, e), InLog(logs, m, j, f)} ::
      InLog(logs, n, i, e) && InLog(logs, m, j, f) && lo <= n && (n < m || (n == m && i < j)) ==>
        e.key.seqno < f.key.seqno
  }

  ghost predicate Reads(es: Entries, h: History) {
    es <= h.logged && SameReadsFrom(h.floor, es, h.logged)
  }

  /** `tables` and the unretired `log` together stand for everything ever logged. */
  ghost predicate StoreOk(tables: Entries, log: Entries, last: nat, h: History) {
    && UniqueSeqs(h.logged) && h.acked <= h.logged && h.floor <= last
    && Reads(tables + log, h)
    && AtMost(tables, last) && NewerThan(log, tables)
    && (forall e {:trigger e in h.logged} :: e in h.logged ==> e.key.seqno <= last || e in log)
  }

  /** What holds of the disk at every instant, whatever memory is doing. */
  ghost predicate DiskOk(d: Disk, h: History) {
    var m := d.manifest;
    && m.tables <= d.tables.Keys
    && m.logNumber < m.nextFile && (forall n :: n in m.tables ==> n < m.nextFile)
    && LogsAscend(d.logs, m.logNumber)
    && StoreOk(TableEntries(d.tables, m.tables), LogFrom(d.logs, m.logNumber), m.lastSequence, h)
  }

  // ----- running -----

  ghost predicate NumbersOk(d: Disk, u: Memory)
    requires u.Up?
  {
    && d.manifest.nextFile <= u.nextFile && u.verLog <= u.logNo && u.logNo in d.logs
    && u.logNo < u.nextFile && (forall n :: n in d.logs ==> n <= u.logNo)
    && (forall n :: n in u.current ==> n < u.nextFile)
    && u.current <= d.tables.Keys
  }

  ghost predicate SequencesOk(d: Disk, u: Memory, h: History)
    requires u.Up?
  {
    && d.manifest.lastSequence <= u.lastSequence
    && AtMost(h.acked, u.lastSequence) && AtMost(TableEntries(d.tables, u.current), u.lastSequence)
    && AtMost(u.mem, u.lastSequence) && AtMost(ImmEntries(u.imm), u.lastSequence)
    && (u.inFlight.Some? ==> u.inFlight.value.sequence == u.lastSequence + 1)
    && forall e {:trigger e in h.logged} :: e in h.logged ==>
        e.key.seqno <= u.lastSequence || e in InFlightEntries(u.inFlight)
  }

  /** The memtables are what the logs not yet retired say they are. */
  ghost predicate MemoryOk(d: Disk, u: Memory, h: History)
    requires u.Up?
  {
    && u.mem + InFlightEntries(u.inFlight) == LogFrom(d.logs, u.logNo)
    && ImmEntries(u.imm) == LogPart(d.logs, u.verLog, u.logNo, 0)
    && Reads(TableEntries(d.tables, u.current) + LogFrom(d.logs, u.verLog), h)
  }

  /** The manifest on disk is the current version, except between saving an edit and publishing it. */
  ghost predicate ManifestOk(d: Disk, u: Memory)
    requires u.Up?
  {
    var m := d.manifest;
    && (u.flush != FlushSaved && !u.merge.MergeSaved? ==> m.tables == u.current && m.logNumber == u.verLog)
    && (u.flush == FlushSaved ==> m.logNumber == u.logNo)
    && (u.merge.MergeSaved? ==> m.logNumber == u.verLog)
    && (u.flush != NoFlush ==> u.imm.Some? && (u.merge == NoMerge || u.merge.Merging?))
  }

  /** A manifest about to be written. */
  ghost predicate NextOk(d: Disk, u: Memory, next: Manifest)
    requires u.Up?
  {
    && next.tables <= d.tables.Keys && next.logNumber < next.nextFile <= u.nextFile
    && (forall n :: n in next.tables ==> n < next.nextFile)
    && d.manifest.lastSequence <= next.lastSequence <= u.lastSequence
  }

  ghost predicate FlushOk(d: Disk, u: Memory)
    requires u.Up?
  {
    match u.flush
    case NoFlush => true
    case Building(n) => n < u.nextFile && n !in u.current
    case Built(n) =>
      && u.imm.Some? && n < u.nextFile && n !in u.current
      && (u.imm.value != iset{} ==> n in d.tables && d.tables[n] == u.imm.value)
    case FlushSaving(next) =>
      && NextOk(d, u, next) && next.logNumber == u.logNo && AtMost(ImmEntries(u.imm), next.lastSequence)
      && TableEntries(d.tables, next.tables) == TableEntries(d.tables, u.current) + ImmEntries(u.imm)
    case FlushSaved => true
  }

  ghost predicate MergeOk(d: Disk, u: Memory)
    requires u.Up?
  {
    match u.merge
    case NoMerge => true
    case Merging(outputs) => OutputsOk(d, u, outputs)
    case MergeSaving(next, outputs, smallest) =>
      && NextOk(d, u, next) && next.logNumber == u.verLog && smallest <= next.lastSequence
      && MergePreserves(d.tables, u.current, next.tables, smallest)
    case MergeSaved(outputs) => true
  }

  ghost predicate OutputsOk(d: Disk, u: Memory, outputs: set<nat>)
    requires u.Up?
  {
    && outputs <= d.tables.Keys && outputs <= u.pending && outputs !! u.current
    && (forall n :: n in outputs ==> n < u.nextFile)
    && (u.flush.Building? || u.flush.Built? ==> u.flush.n !in outputs)
    && (u.flush.FlushSaving? ==> outputs !! u.flush.next.tables)
    && (u.flush == FlushSaved ==> outputs !! d.manifest.tables)
  }

  ghost predicate UpOk(d: Disk, u: Memory, h: History)
    requires u.Up?
  {
    && NumbersOk(d, u) && SequencesOk(d, u, h) && MemoryOk(d, u, h) && ManifestOk(d, u) && FlushOk(d, u)
        && MergeOk(d, u)
  }

  // ----- recovering -----

  /** The entries read so far are in the recovered tables and the memtable, in order. */
  ghost predicate ReplayedTo(d: Disk, r: Memory, mem: Entries, cur: nat, pos: nat)
    requires r.Recovering?
  {
    && TableEntries(d.tables, r.added) + mem == LogPart(d.logs, d.manifest.logNumber, cur, pos)
    && AtMost(LogPart(d.logs, d.manifest.logNumber, cur, pos), r.maxSequence)
    && NewerThan(mem, TableEntries(d.tables, r.added))
  }

  /** Recovered tables are numbered in the order of their entries. */
  ghost predicate SpillsAscend(tables: Tables, added: set<nat>) {
    forall a, b {:trigger a in added, b in added} :: a in added && b in added && a < b && a in tables && b in tables
        ==> NewerThan(tables[b], tables[a])
  }

  ghost predicate RecoveringOk(d: Disk, r: Memory)
    requires r.Recovering?
  {
    && d.manifest.nextFile < r.nextFile && r.added <= d.tables.Keys
    && (forall n :: n in r.added ==> d.manifest.nextFile < n < r.nextFile)
    && SpillsAscend(d.tables, r.added)
    && match r.replay
       case Between(from) =>
         && d.manifest.logNumber <= from && ReplayedTo(d, r, iset{}, from, 0)
         && (forall n :: n in d.logs && n < from ==> n < r.nextFile)
       case Replaying(n, pos, mem) =>
         && d.manifest.logNumber <= n && n in d.logs && pos <= |d.logs[n]| && ReplayedTo(d, r, mem, n, pos)
         && (forall k :: k in d.logs && k < n ==> k < r.nextFile)
       case LogReady(n) =>
         && n in d.logs && d.logs[n] == [] && (forall k :: k in d.logs ==> k <= n) && n < r.nextFile
         && d.manifest.logNumber <= n && ReplayedTo(d, r, iset{}, n, 0)
  }

  ghost predicate Inv(s: System) {
    && DiskOk(s.disk, s.history)
    && (s.memory.Up? ==> UpOk(s.disk, s.memory, s.history))
    && (s.memory.Recovering? ==> RecoveringOk(s.disk, s.memory))
  }

  // ---------------------------------------------------------------------------
  // Entry sets
  // ---------------------------------------------------------------------------

  /** A read of a set and a newer one looks in the newer one first. */
  lemma VisibleInUnion(a: Entries, m: Entries, key: UserKey, at: nat)
    requires UniqueSeqs(a) && UniqueSeqs(m) && NewerThan(m, a)
    ensures Visible(a + m, key, at) == if Visible(m, key, at).Some? then Visible(m, key, at) else Visible(a, key, at)
  {
    var v, w := Visible(m, key, at), Visible(a, key, at);
    assert UniqueSeqs(a + m);
    if v.Some? {
      NewestIsVisible(a + m, key, at, v.value);
    } else if w.Some? {
      NewestIsVisible(a + m, key, at, w.value);
    }
  }

  lemma SameReadsInUnion(from: nat, a: Entries, b: Entries, m: Entries)
    requires SameReadsFrom(from, a, b) && UniqueSeqs(a) && UniqueSeqs(b) && UniqueSeqs(m)
    requires NewerThan(m, a) && NewerThan(m, b)
    ensures SameReadsFrom(from, a + m, b + m)
  {
    forall key, at: nat | at >= from ensures Read(a + m, key, at) == Read(b + m, key, at) {
      VisibleInUnion(a, m, key, at);
      VisibleInUnion(b, m, key, at);
      assert Read(a, key, at) == Read(b, key, at);
    }
  }

  lemma SameReadsChain(from: nat, early: nat, late: nat, a: Entries, b: Entries, c: Entries)
    requires SameReadsFrom(early, a, b) && SameReadsFrom(late, b, c) && from >= early && from >= late
    ensures SameReadsFrom(from, a, c)
  {
    forall key, at: nat | at >= from ensures Read(a, key, at) == Read(c, key, at) {
      assert Read(a, key, at) == Read(b, key, at);
    }
  }

  lemma WritesOfBatch(b: Batch)
    ensures UniqueSeqs(Writes(b)) && AtMost(Writes(b), b.sequence + |b.ops| - 1)
    ensures forall e {:trigger e in Writes(b)} :: e in Writes(b) ==> e.key.seqno >= b.sequence
  {
  }

  lemma ReadsGrow(es: Entries, h: History, m: Entries)
    requires Reads(es, h) && UniqueSeqs(h.logged) && UniqueSeqs(m) && NewerThan(m, h.logged)
    ensures Reads(es + m, h.(logged := h.logged + m))
  {
    SameReadsInUnion(h.floor, es, h.logged, m);
  }

  // ----- logs -----

  lemma {:induction false} LogsSame(logs: Logs, logs': Logs, lo: nat, cur: nat)
    requires forall n: nat, i: nat, e {:trigger InLog(logs', n, i, e)} {:trigger InLog(logs, n, i, e)} ::
               lo <= n ==> (InLog(logs', n, i, e) <==> InLog(logs, n, i, e))
    ensures LogFrom(logs', lo) == LogFrom(logs, lo) && LogPart(logs', lo, cur, 0) == LogPart(logs, lo, cur, 0)
    ensures LogsAscend(logs, lo) ==> LogsAscend(logs', lo)
  {
    forall e ensures InLogFrom(logs', lo, e) <==> InLogFrom(logs, lo, e) {
      if InLogFrom(logs', lo, e) {
        var n: nat, i: nat :| InLog(logs', n, i, e) && lo <= n;
        assert InLog(logs, n, i, e);
      }
      if InLogFrom(logs, lo, e) {
        var n: nat, i: nat :| InLog(logs, n, i, e) && lo <= n;
        assert InLog(logs', n, i, e);
      }
    }
    forall e ensures InLogPart(logs', lo, cur, 0, e) <==> InLogPart(logs, lo, cur, 0, e) {
      if InLogPart(logs', lo, cur, 0, e) {
        var n: nat, i: nat :| InLog(logs', n, i, e) && Within(lo, cur, 0, n, i);
        assert InLog(logs, n, i, e);
      }
      if InLogPart(logs, lo, cur, 0, e) {
        var n: nat, i: nat :| InLog(logs, n, i, e) && Within(lo, cur, 0, n, i);
        assert InLog(logs', n, i, e);
      }
    }
  }

  lemma NewLogSame(logs: Logs, n: nat, lo: nat, cur: nat)
    requires n !in logs
    ensures LogFrom(logs[n := []], lo) == LogFrom(logs, lo) && LogPart(logs[n := []], lo, cur, 0)
        == LogPart(logs, lo, cur, 0)
    ensures LogsAscend(logs, lo) ==> LogsAscend(logs[n := []], lo)
  {
    LogsSame(logs, logs[n := []], lo, cur);
  }

  lemma DropLogSame(logs: Logs, n: nat, lo: nat, cur: nat)
    requires n < lo
    ensures LogFrom(logs - {n}, lo) == LogFrom(logs, lo) && LogPart(logs - {n}, lo, cur, 0) == LogPart(logs, lo, cur, 0)
    ensures LogsAscend(logs, lo) ==> LogsAscend(logs - {n}, lo)
  {
    LogsSame(logs, logs - {n}, lo, cur);
  }

  ghost function Appended(logs: Logs, n: nat, b: Batch): Logs
    requires n in logs
  {
    logs[n := logs[n] + [b]]
  }

  lemma InAppended(logs: Logs, n: nat, b: Batch, k: nat, i: nat, e: Entry)
    requires n in logs
    ensures InLog(Appended(logs, n, b), k, i, e) <==>
        InLog(logs, k, i, e) || (k == n && i == |logs[n]| && e in Writes(b))
  {
  }

  lemma AppendGrows(logs: Logs, n: nat, b: Batch, lo: nat, cur: nat)
    requires n in logs && lo <= n && cur <= n
    ensures LogFrom(Appended(logs, n, b), lo) == LogFrom(logs, lo) + Writes(b)
    ensures LogPart(Appended(logs, n, b), lo, cur, 0) == LogPart(logs, lo, cur, 0)
  {
    var logs' := Appended(logs, n, b);
    forall k: nat, i: nat, e ensures InLog(logs', k, i, e) <==>
        InLog(logs, k, i, e) || (k == n && i == |logs[n]| && e in Writes(b)) {
      InAppended(logs, n, b, k, i, e);
    }
    forall e ensures InLogFrom(logs', lo, e) <==> InLogFrom(logs, lo, e) || e in Writes(b) {
      assert e in Writes(b) ==> InLog(logs', n, |logs[n]|, e);
      if InLogFrom(logs, lo, e) {
        var k: nat, i: nat :| InLog(logs, k, i, e) && lo <= k;
        assert InLog(logs', k, i, e);
      }
    }
    forall e ensures InLogPart(logs', lo, cur, 0, e) <==> InLogPart(logs, lo, cur, 0, e) {
      if InLogPart(logs', lo, cur, 0, e) {
        var k: nat, i: nat :| InLog(logs', k, i, e) && Within(lo, cur, 0, k, i);
        assert InLog(logs, k, i, e);
      }
      if InLogPart(logs, lo, cur, 0, e) {
        var k: nat, i: nat :| InLog(logs, k, i, e) && Within(lo, cur, 0, k, i);
        assert InLog(logs', k, i, e);
      }
    }
  }

  /** A batch newer than the whole log keeps the order when it goes to the last file. */
  lemma AppendAscends(logs: Logs, n: nat, b: Batch, lo: nat)
    requires n in logs && lo <= n && LogsAscend(logs, lo) && (forall k :: k in logs ==> k <= n)
    requires NewerThan(Writes(b), LogFrom(logs, lo))
    ensures LogsAscend(Appended(logs, n, b), lo)
  {
    var logs' := Appended(logs, n, b);
    forall k: nat, i: nat, m: nat, j: nat, e, f |
        InLog(logs', k, i, e) && InLog(logs', m, j, f) && lo <= k && (k < m || (k == m && i < j))
      ensures e.key.seqno < f.key.seqno
    {
      InAppended(logs, n, b, k, i, e);
      InAppended(logs, n, b, m, j, f);
      assert InLog(logs, k, i, e) by { assert m in logs'; }
      assert e in LogFrom(logs, lo);
    }
  }

  lemma LogSplit(logs: Logs, lo: nat, mid: nat)
    requires lo <= mid
    ensures LogFrom(logs, lo) == LogPart(logs, lo, mid, 0) + LogFrom(logs, mid)
    ensures LogsAscend(logs, lo) ==> NewerThan(LogFrom(logs, mid), LogPart(logs, lo, mid, 0))
    ensures LogsAscend(logs, lo) ==> LogsAscend(logs, mid)
  {
    forall e ensures InLogFrom(logs, lo, e) <==> InLogPart(logs, lo, mid, 0, e) || InLogFrom(logs, mid, e) {
      if InLogFrom(logs, lo, e) {
        var n: nat, i: nat :| InLog(logs, n, i, e) && lo <= n;
        assert Within(lo, mid, 0, n, i) || mid <= n;
      }
      if InLogPart(logs, lo, mid, 0, e) {
        var n: nat, i: nat :| InLog(logs, n, i, e) && Within(lo, mid, 0, n, i);
        assert lo <= n;
      }
    }
  }

  // ----- tables -----

  lemma TablesSame(tables: Tables, tables': Tables, live: set<nat>)
    requires forall n :: n in live ==> ((n in tables' <==> n in tables) && (n in tables ==> tables'[n] == tables[n]))
    ensures TableEntries(tables', live) == TableEntries(tables, live)
  {
    forall e ensures InTables(tables', live, e) <==> InTables(tables, live, e) {
      if InTables(tables', live, e) {
        var n :| n in live && n in tables' && e in tables'[n];
        assert n in live && n in tables && e in tables[n];
      }
      if InTables(tables, live, e) {
        var n :| n in live && n in tables && e in tables[n];
        assert n in live && n in tables' && e in tables'[n];
      }
    }
  }

  lemma TablesUnion(tables: Tables, a: set<nat>, b: set<nat>)
    ensures TableEntries(tables, a + b) == TableEntries(tables, a) + TableEntries(tables, b)
  {
    forall e ensures InTables(tables, a + b, e) <==> InTables(tables, a, e) || InTables(tables, b, e) {
      if InTables(tables, a + b, e) {
        var n :| n in a + b && n in tables && e in tables[n];
        assert n in a || n in b;
      }
      if InTables(tables, a, e) {
        var n :| n in a && n in tables && e in tables[n];
        assert n in a + b;
      }
      if InTables(tables, b, e) {
        var n :| n in b && n in tables && e in tables[n];
        assert n in a + b;
      }
    }
  }

  lemma OneTable(tables: Tables, n: nat)
    ensures TableEntries(tables, {n}) == if n in tables then tables[n] else iset{}
    ensures TableEntries(tables, {}) == iset{}
  {
    forall e ensures InTables(tables, {n}, e) <==> n in tables && e in tables[n] {
      assert n in {n};
    }
  }

  // ---------------------------------------------------------------------------
  // Every step keeps the invariant
  // ---------------------------------------------------------------------------

  // ----- writing -----

  lemma StoreAppend(tables: Entries, log: Entries, last: nat, h: History, m: Entries)
    requires StoreOk(tables, log, last, h) && UniqueSeqs(m) && NewerThan(m, h.logged)
    ensures StoreOk(tables, log + m, last, h.(logged := h.logged + m))
    ensures NewerThan(m, log)
  {
    ReadsGrow(tables + log, h, m);
    assert tables + (log + m) == tables + log + m;
  }

  lemma AppendKeepsDisk(d: Disk, n: nat, b: Batch, d': Disk, h: History)
    requires DiskOk(d, h) && n in d.logs && d.manifest.logNumber <= n && (forall k :: k in d.logs ==> k <= n)
    requires NewerThan(Writes(b), h.logged)
    requires d' == d.(logs := Appended(d.logs, n, b))
    ensures DiskOk(d', h.(logged := h.logged + Writes(b)))
  {
    var m := d.manifest;
    WritesOfBatch(b);
    StoreAppend(TableEntries(d.tables, m.tables), LogFrom(d.logs, m.logNumber), m.lastSequence, h, Writes(b));
    AppendAscends(d.logs, n, b, m.logNumber);
    AppendGrows(d.logs, n, b, m.logNumber, m.logNumber);
  }

  lemma AppendKeepsMemory(d: Disk, u: Memory, b: Batch, d': Disk, u': Memory, h: History)
    requires u.Up? && u.inFlight == None && u.logNo in d.logs && u.verLog <= u.logNo && MemoryOk(d, u, h)
    requires NewerThan(Writes(b), h.logged) && UniqueSeqs(h.logged)
    requires d' == d.(logs := Appended(d.logs, u.logNo, b)) && u' == u.(inFlight := Some(b))
    ensures MemoryOk(d', u', h.(logged := h.logged + Writes(b)))
  {
    WritesOfBatch(b);
    AppendGrows(d.logs, u.logNo, b, u.verLog, u.logNo);
    AppendGrows(d.logs, u.logNo, b, u.logNo, u.logNo);
    ReadsGrow(TableEntries(d.tables, u.current) + LogFrom(d.logs, u.verLog), h, Writes(b));
    assert TableEntries(d.tables, u.current) + (LogFrom(d.logs, u.verLog) + Writes(b))
        == TableEntries(d.tables, u.current) + LogFrom(d.logs, u.verLog) + Writes(b);
  }

  lemma AppendKeepsInv(s: System, ops: seq<Operation>, t: System)
    requires Inv(s) && AppendStep(s, ops, t)
    ensures Inv(t)
  {
    var d, u, h := s.disk, s.memory, s.history;
    var b := Batch(u.lastSequence + 1, ops);
    WritesOfBatch(b);
    assert NewerThan(Writes(b), h.logged) by { assert InFlightEntries(u.inFlight) == iset{}; }
    AppendKeepsDisk(d, u.logNo, b, t.disk, h);
    AppendKeepsMemory(d, u, b, t.disk, t.memory, h);
  }

  lemma ApplyKeepsInv(s: System, t: System)
    requires Inv(s) && ApplyStep(s, t)
    ensures Inv(t)
  {
    WritesOfBatch(s.memory.inFlight.value);
  }

  /** The new log's number was never used for a log, and every acknowledged write stays covered. */
  lemma SwitchKeepsInv(s: System, t: System)
    requires Inv(s) && SwitchStep(s, t)
    ensures Inv(t) && s.memory.nextFile !in s.disk.logs
  {
    var d, u := s.disk, s.memory;
    NewLogSame(d.logs, u.nextFile, d.manifest.logNumber, u.nextFile);
    NewLogSame(d.logs, u.nextFile, u.verLog, u.nextFile);
    NewLogSame(d.logs, u.nextFile, u.nextFile, u.nextFile);
    LogSplit(d.logs, u.verLog, u.logNo);
    LogTail(d.logs, u.verLog, u.nextFile);
  }

  lemma LogTail(logs: Logs, lo: nat, next: nat)
    requires forall k :: k in logs ==> k < next
    ensures LogFrom(logs, next) == iset{} && LogPart(logs, lo, next, 0) == LogFrom(logs, lo)
  {
    forall e ensures !InLogFrom(logs, next, e) && (InLogFrom(logs, lo, e) <==> InLogPart(logs, lo, next, 0, e)) {
      if InLogFrom(logs, lo, e) {
        var n: nat, i: nat :| InLog(logs, n, i, e) && lo <= n;
        assert Within(lo, next, 0, n, i);
      }
    }
  }

  // ----- flushing -----

  lemma FlushBeginKeepsInv(s: System, t: System)
    requires Inv(s) && FlushBeginStep(s, t)
    ensures Inv(t)
  {
  }

  /** Writing a table file that no version and no compaction names. */
  lemma OtherTableKeepsDisk(d: Disk, tables': Tables, h: History)
    requires DiskOk(d, h)
    requires forall k :: k in d.manifest.tables ==> k in tables' && tables'[k] == d.tables[k]
    ensures DiskOk(d.(tables := tables'), h)
  {
    TablesSame(d.tables, tables', d.manifest.tables);
  }

  lemma FlushBuiltKeepsInv(s: System, t: System)
    requires Inv(s) && FlushBuiltStep(s, t)
    ensures Inv(t)
  {
    OtherTableKeepsDisk(s.disk, t.disk.tables, s.history);
    TablesSame(s.disk.tables, t.disk.tables, s.memory.current);
  }

  lemma FlushSaveKeepsInv(s: System, t: System)
    requires Inv(s) && FlushSaveStep(s, t)
    ensures Inv(t)
  {
    var d, u := s.disk, s.memory;
    TablesUnion(d.tables, u.current, {u.flush.n});
    OneTable(d.tables, u.flush.n);
    assert u.current + {} == u.current;
  }

  lemma StoreFlush(tables: Entries, part: Entries, log: Entries, whole: Entries, last: nat, last': nat, h: History)
    requires StoreOk(tables, whole, last, h) && whole == part + log && last <= last'
    requires NewerThan(log, part) && AtMost(part, last')
    ensures StoreOk(tables + part, log, last', h)
  {
    assert tables + part + log == tables + whole;
  }

  lemma FlushWriteKeepsInv(s: System, t: System)
    requires Inv(s) && FlushWriteStep(s, t)
    ensures Inv(t)
  {
    var d, u, h := s.disk, s.memory, s.history;
    var next := u.flush.next;
    LogSplit(d.logs, u.verLog, u.logNo);
    StoreFlush(TableEntries(d.tables, u.current), ImmEntries(u.imm), LogFrom(d.logs, u.logNo),
        LogFrom(d.logs, u.verLog),
               d.manifest.lastSequence, next.lastSequence, h);
    assert DiskOk(t.disk, h);
  }

  lemma FlushPublishKeepsInv(s: System, t: System)
    requires Inv(s) && FlushPublishStep(s, t)
    ensures Inv(t)
  {
    LogSplit(s.disk.logs, s.memory.logNo, s.memory.logNo);
    forall e ensures !InLogPart(s.disk.logs, s.memory.logNo, s.memory.logNo, 0, e) {
    }
  }

  // ----- compaction -----

  lemma MergeBeginKeepsInv(s: System, t: System)
    requires Inv(s) && MergeBeginStep(s, t)
    ensures Inv(t)
  {
  }

  lemma MergeOpenKeepsInv(s: System, t: System)
    requires Inv(s) && MergeOpenStep(s, t)
    ensures Inv(t)
  {
    OtherTableKeepsDisk(s.disk, t.disk.tables, s.history);
    TablesSame(s.disk.tables, t.disk.tables, s.memory.current);
  }

  lemma MergeFillKeepsInv(s: System, n: nat, es: Entries, t: System)
    requires Inv(s) && MergeFillStep(s, n, es, t)
    ensures Inv(t)
  {
    OtherTableKeepsDisk(s.disk, t.disk.tables, s.history);
    TablesSame(s.disk.tables, t.disk.tables, s.memory.current);
  }

  lemma MergeSaveKeepsInv(s: System, inputs: set<nat>, smallest: nat, t: System)
    requires Inv(s) && MergeSaveStep(s, inputs, smallest, t)
    ensures Inv(t)
  {
  }

  lemma StoreMerge(tables: Entries, tables': Entries, log: Entries, last: nat, last': nat, h: History, smallest: nat)
    requires StoreOk(tables, log, last, h) && last <= last' && smallest <= last'
    requires tables' <= tables && SameReadsFrom(smallest, tables', tables)
    ensures StoreOk(tables', log, last', h.(floor := Max(h.floor, smallest)))
  {
    SameReadsInUnion(smallest, tables', tables, log);
    SameReadsChain(Max(h.floor, smallest), smallest, h.floor, tables' + log, tables + log, h.logged);
  }

  lemma MergeWriteKeepsInv(s: System, t: System)
    requires Inv(s) && MergeWriteStep(s, t)
    ensures Inv(t)
  {
    var d, u, h := s.disk, s.memory, s.history;
    var next := u.merge.next;
    StoreMerge(TableEntries(d.tables, u.current), TableEntries(d.tables, next.tables), LogFrom(d.logs, u.verLog),
               d.manifest.lastSequence, next.lastSequence, h, u.merge.smallest);
    assert DiskOk(t.disk, t.history);
  }

  lemma MergePublishKeepsInv(s: System, t: System)
    requires Inv(s) && MergePublishStep(s, t)
    ensures Inv(t)
  {
  }

  // ----- deleting -----

  lemma DeleteLogKeepsInv(s: System, n: nat, t: System)
    requires Inv(s) && DeleteLogStep(s, n, t)
    ensures Inv(t)
  {
    DropLogSame(s.disk.logs, n, s.memory.verLog, s.memory.logNo);
    DropLogSame(s.disk.logs, n, s.memory.logNo, s.memory.logNo);
  }

  lemma DeleteTableKeepsInv(s: System, n: nat, t: System)
    requires Inv(s) && DeleteTableStep(s, n, t)
    ensures Inv(t)
  {
    OtherTableKeepsDisk(s.disk, t.disk.tables, s.history);
    TablesSame(s.disk.tables, t.disk.tables, s.memory.current);
  }

  lemma CrashKeepsInv(s: System, t: System)
    requires Inv(s) && CrashStep(s, t)
    ensures Inv(t)
  {
    OtherTableKeepsDisk(s.disk, t.disk.tables, s.history);
    assert t.disk == s.disk.(tables := t.disk.tables);
  }

  // ----- recovering -----

  lemma OpenManifestKeepsInv(s: System, t: System)
    requires Inv(s) && OpenManifestStep(s, t)
    ensures Inv(t)
  {
    var d := s.disk;
    OneTable(d.tables, 0);
    assert LogPart(d.logs, d.manifest.logNumber, d.manifest.logNumber, 0) == iset{};
  }

  /** Two positions with no record between them. */
  lemma SamePart(logs: Logs, lo: nat, cur: nat, pos: nat, cur': nat, pos': nat)
    requires forall n: nat, i: nat ::
        n in logs && i < |logs[n]| ==> (Within(lo, cur, pos, n, i) <==> Within(lo, cur', pos', n, i))
    ensures LogPart(logs, lo, cur, pos) == LogPart(logs, lo, cur', pos')
  {
    forall e ensures InLogPart(logs, lo, cur, pos, e) <==> InLogPart(logs, lo, cur', pos', e) {
      if InLogPart(logs, lo, cur, pos, e) {
        var n: nat, i: nat :| InLog(logs, n, i, e) && Within(lo, cur, pos, n, i);
        assert Within(lo, cur', pos', n, i);
      }
      if InLogPart(logs, lo, cur', pos', e) {
        var n: nat, i: nat :| InLog(logs, n, i, e) && Within(lo, cur', pos', n, i);
        assert Within(lo, cur, pos, n, i);
      }
    }
  }

  lemma OpenLogKeepsInv(s: System, n: nat, t: System)
    requires Inv(s) && OpenLogStep(s, n, t)
    ensures Inv(t)
  {
    SamePart(s.disk.logs, s.disk.manifest.logNumber, s.memory.replay.from, 0, n, 0);
  }

  lemma NextRecord(logs: Logs, lo: nat, n: nat, pos: nat)
    requires n in logs && pos < |logs[n]| && lo <= n
    ensures LogPart(logs, lo, n, pos + 1) == LogPart(logs, lo, n, pos) + Writes(logs[n][pos])
    ensures LogsAscend(logs, lo) ==> NewerThan(Writes(logs[n][pos]), LogPart(logs, lo, n, pos))
  {
    forall e ensures InLogPart(logs, lo, n, pos + 1, e) <==>
        InLogPart(logs, lo, n, pos, e) || e in Writes(logs[n][pos]) {
      if InLogPart(logs, lo, n, pos + 1, e) {
        var k: nat, i: nat :| InLog(logs, k, i, e) && Within(lo, n, pos + 1, k, i);
        assert Within(lo, n, pos, k, i) || (k == n && i == pos);
      }
      if InLogPart(logs, lo, n, pos, e) {
        var k: nat, i: nat :| InLog(logs, k, i, e) && Within(lo, n, pos, k, i);
        assert Within(lo, n, pos + 1, k, i);
      }
      if e in Writes(logs[n][pos]) {
        assert InLog(logs, n, pos, e) && Within(lo, n, pos + 1, n, pos);
      }
    }
    if LogsAscend(logs, lo) {
      forall e, f | e in LogPart(logs, lo, n, pos) && f in Writes(logs[n][pos]) ensures e.key.seqno < f.key.seqno {
        var k: nat, i: nat :| InLog(logs, k, i, e) && Within(lo, n, pos, k, i);
        assert InLog(logs, n, pos, f);
      }
    }
  }

  lemma ReadRecordKeepsInv(s: System, t: System)
    requires Inv(s) && ReadRecordStep(s, t)
    ensures Inv(t)
  {
    var d, r := s.disk, s.memory;
    var n, pos := r.replay.n, r.replay.pos;
    NextRecord(d.logs, d.manifest.logNumber, n, pos);
    WritesOfBatch(d.logs[n][pos]);
    assert TableEntries(d.tables, r.added) + (r.replay.mem + Writes(d.logs[n][pos]))
        == TableEntries(d.tables, r.added) + r.replay.mem + Writes(d.logs[n][pos]);
  }

  lemma SpillAscends(tables: Tables, added: set<nat>, n: nat, mem: Entries)
    requires SpillsAscend(tables, added) && NewerThan(mem, TableEntries(tables, added))
    requires forall k :: k in added ==> k < n
    ensures SpillsAscend(tables[n := mem], added + {n})
  {
    forall a, b | a in added + {n} && b in added + {n} && a < b && a in tables[n := mem] && b in tables[n := mem]
      ensures NewerThan(tables[n := mem][b], tables[n := mem][a])
    {
      assert a in added;
      forall e | e in tables[a] ensures e in TableEntries(tables, added) {
        assert InTables(tables, added, e);
      }
    }
  }

  lemma SpillKeepsInv(s: System, t: System)
    requires Inv(s) && SpillStep(s, t)
    ensures Inv(t)
  {
    var d, r := s.disk, s.memory;
    var n := r.nextFile;
    OtherTableKeepsDisk(d, t.disk.tables, s.history);
    TablesSame(d.tables, t.disk.tables, r.added);
    TablesUnion(t.disk.tables, r.added, {n});
    OneTable(t.disk.tables, n);
    assert r.added + {} == r.added;
    SpillAscends(d.tables, r.added, n, r.replay.mem);
  }

  lemma CloseLogKeepsInv(s: System, t: System)
    requires Inv(s) && CloseLogStep(s, t)
    ensures Inv(t)
  {
    var d, n := s.disk, s.memory.replay.n;
    SamePart(d.logs, d.manifest.logNumber, n, |d.logs[n]|, n + 1, 0);
  }

  /** DB::Open never starts its log over an existing one. */
  lemma NewLogKeepsInv(s: System, t: System)
    requires Inv(s) && NewLogStep(s, t)
    ensures Inv(t) && s.memory.nextFile !in s.disk.logs
  {
    var d, n, lo := s.disk, s.memory.nextFile, s.disk.manifest.logNumber;
    SamePart(d.logs, lo, s.memory.replay.from, 0, n, 0);
    NewLogSame(d.logs, n, lo, n);
  }

  /** The recovered tables are younger than the old ones, and numbered in the order of their entries. */
  lemma OpenDoneKeepsInv(s: System, t: System)
    requires Inv(s) && OpenDoneStep(s, t)
    ensures Inv(t)
    ensures SpillsAscend(t.disk.tables, s.memory.added)
    ensures forall n, k :: n in s.memory.added && k in s.disk.manifest.tables ==> n > k
  {
    var d, r, h := s.disk, s.memory, s.history;
    var n, m := r.replay.n, d.manifest;
    TablesUnion(d.tables, m.tables, r.added);
    LogSplit(d.logs, m.logNumber, n);
    assert LogFrom(d.logs, n) == iset{};
    assert LogPart(d.logs, n, n, 0) == iset{};
    StoreFlush(TableEntries(d.tables, m.tables), TableEntries(d.tables, r.added), LogFrom(d.logs, n),
        LogFrom(d.logs, m.logNumber),
               m.lastSequence, t.disk.manifest.lastSequence, h);
    assert DiskOk(t.disk, h);
  }

  lemma WriteStepKeepsInv(s: System, ev: Event, t: System)
    requires Inv(s) && Step(s, ev, t)
    requires ev.Append? || ev.Apply? || ev.Switch? || ev.DeleteLog? || ev.DeleteTable? || ev.Crash?
    ensures Inv(t)
  {
    match ev
    case Append(ops) => AppendKeepsInv(s, ops, t);
    case Apply => ApplyKeepsInv(s, t);
    case Switch => SwitchKeepsInv(s, t);
    case DeleteLog(n) => DeleteLogKeepsInv(s, n, t);
    case DeleteTable(n) => DeleteTableKeepsInv(s, n, t);
    case Crash => CrashKeepsInv(s, t);
  }

  lemma FlushStepKeepsInv(s: System, ev: Event, t: System)
    requires Inv(s) && Step(s, ev, t)
    requires ev.FlushBegin? || ev.FlushBuilt? || ev.FlushSave? || ev.FlushWrite? || ev.FlushPublish?
    ensures Inv(t)
  {
    match ev
    case FlushBegin => FlushBeginKeepsInv(s, t);
    case FlushBuilt => FlushBuiltKeepsInv(s, t);
    case FlushSave => FlushSaveKeepsInv(s, t);
    case FlushWrite => FlushWriteKeepsInv(s, t);
    case FlushPublish => FlushPublishKeepsInv(s, t);
  }

  lemma MergeStepKeepsInv(s: System, ev: Event, t: System)
    requires Inv(s) && Step(s, ev, t)
    requires ev.MergeBegin? || ev.MergeOpen? || ev.MergeFill? || ev.MergeSave? || ev.MergeWrite? || ev.MergePublish?
    ensures Inv(t)
  {
    match ev
    case MergeBegin => MergeBeginKeepsInv(s, t);
    case MergeOpen => MergeOpenKeepsInv(s, t);
    case MergeFill(n, es) => MergeFillKeepsInv(s, n, es, t);
    case MergeSave(inputs, smallest) => MergeSaveKeepsInv(s, inputs, smallest, t);
    case MergeWrite => MergeWriteKeepsInv(s, t);
    case MergePublish => MergePublishKeepsInv(s, t);
  }

  lemma OpenStepKeepsInv(s: System, ev: Event, t: System)
    requires Inv(s) && Step(s, ev, t)
    requires ev.OpenManifest? || ev.OpenLog? || ev.ReadRecord? || ev.Spill? || ev.CloseLog? || ev.NewLog?
        || ev.OpenDone?
    ensures Inv(t)
  {
    match ev
    case OpenManifest => OpenManifestKeepsInv(s, t);
    case OpenLog(n) => OpenLogKeepsInv(s, n, t);
    case ReadRecord => ReadRecordKeepsInv(s, t);
    case Spill => SpillKeepsInv(s, t);
    case CloseLog => CloseLogKeepsInv(s, t);
    case NewLog => NewLogKeepsInv(s, t);
    case OpenDone => OpenDoneKeepsInv(s, t);
  }

  lemma StepKeepsInv(s: System, ev: Event, t: System)
    requires Inv(s) && Step(s, ev, t)
    ensures Inv(t)
  {
    if ev.Append? || ev.Apply? || ev.Switch? || ev.DeleteLog? || ev.DeleteTable? || ev.Crash? {
      WriteStepKeepsInv(s, ev, t);
    } else if ev.FlushBegin? || ev.FlushBuilt? || ev.FlushSave? || ev.FlushWrite? || ev.FlushPublish? {
      FlushStepKeepsInv(s, ev, t);
    } else if ev.MergeBegin? || ev.MergeOpen? || ev.MergeFill? || ev.MergeSave? || ev.MergeWrite? || ev.MergePublish? {
      MergeStepKeepsInv(s, ev, t);
    } else {
      OpenStepKeepsInv(s, ev, t);
    }
  }

  // ---------------------------------------------------------------------------
  // What every run guarantees
  // ---------------------------------------------------------------------------

  ghost predicate Run(states: seq<System>, events: seq<Event>) {
    && |states| == |events| + 1 && Init(states[0])
    && forall i :: 0 <= i < |events| ==> Step(states[i], events[i], states[i + 1])
  }

  lemma InitInv(s: System)
    requires Init(s)
    ensures Inv(s)
  {
    assert TableEntries(map[], {}) == iset{};
    assert LogFrom(map[], 0) == iset{};
    assert Recoverable(s.disk) == iset{};
  }

  lemma {:induction false} RunKeepsInv(states: seq<System>, events: seq<Event>, i: nat)
    requires Run(states, events) && i < |states|
    ensures Inv(states[i])
  {
    if i == 0 {
      InitInv(states[0]);
    } else {
      RunKeepsInv(states, events, i - 1);
      StepKeepsInv(states[i - 1], events[i - 1], states[i]);
    }
  }

  /** A step only adds to what has been logged and acknowledged, whatever it does to memory. */
  lemma HistoryGrows(s: System, ev: Event, t: System)
    requires Step(s, ev, t)
    ensures s.history.logged <= t.history.logged && s.history.acked <= t.history.acked
  {
  }

  lemma {:induction false} RunHistoryGrows(states: seq<System>, events: seq<Event>, i: nat, j: nat)
    requires Run(states, events) && i <= j < |states|
    ensures states[i].history.logged <= states[j].history.logged && states[i].history.acked <= states[j].history.acked
  {
    if i < j {
      RunHistoryGrows(states, events, i, j - 1);
      HistoryGrows(states[j - 1], events[j - 1], states[j]);
    }
  }

  /** An open database reads, at its last sequence number, exactly as the history of logged writes:
      nothing acknowledged in an earlier incarnation is missing or hidden, nothing else is present. */
  lemma OpenReadsAsHistory(s: System)
    requires Inv(s) && s.memory.Up?
    ensures s.history.acked <= s.history.logged && AtMost(s.history.acked, s.memory.lastSequence)
    ensures Contents(s.disk, s.memory) <= s.history.logged
    ensures s.history.floor <= s.memory.lastSequence
    ensures forall key, at: nat :: s.history.floor <= at <= s.memory.lastSequence ==>
              Read(Contents(s.disk, s.memory), key, at) == Read(s.history.logged, key, at)
  {
    var d, u, h := s.disk, s.memory, s.history;
    var now, coming := Contents(d, u), InFlightEntries(u.inFlight);
    var all := TableEntries(d.tables, u.current) + LogFrom(d.logs, u.verLog);
    LogSplit(d.logs, u.verLog, u.logNo);
    assert now + coming == all;
    assert NewerThan(coming, now) by { InFlightIsNew(d, u, h); }
    forall key, at: nat | h.floor <= at <= u.lastSequence ensures Read(now, key, at) == Read(h.logged, key, at) {
      if u.inFlight.Some? {
        WritesOfBatch(u.inFlight.value);
      }
      VisibleInUnion(now, coming, key, at);
      assert Read(all, key, at) == Read(h.logged, key, at);
    }
  }

  lemma InFlightIsNew(d: Disk, u: Memory, h: History)
    requires u.Up? && SequencesOk(d, u, h)
    ensures NewerThan(InFlightEntries(u.inFlight), Contents(d, u))
  {
    assert AtMost(Contents(d, u), u.lastSequence);
    if u.inFlight.Some? {
      WritesOfBatch(u.inFlight.value);
    }
  }

  /** The next batch gets sequence numbers nothing logged so far has, in this run or an earlier one. */
  lemma NextSequenceIsFresh(s: System)
    requires Inv(s) && s.memory.Up? && s.memory.inFlight == None
    ensures AtMost(s.history.logged, s.memory.lastSequence)
  {
    assert InFlightEntries(s.memory.inFlight) == iset{};
  }

  /** Over every run: whatever was acknowledged by step `i` is part of what the database reads from at
      any later step `j` at which it is open, however many crashes and recoveries lie between. */
  lemma AcknowledgedWritesSurvive(states: seq<System>, events: seq<Event>, i: nat, j: nat)
    requires Run(states, events) && i <= j < |states| && states[j].memory.Up?
    ensures states[i].history.acked <= states[j].history.logged
        && AtMost(states[i].history.acked, states[j].memory.lastSequence)
    ensures Contents(states[j].disk, states[j].memory) <= states[j].history.logged
    ensures forall key :: Read(Contents(states[j].disk, states[j].memory), key, states[j].memory.lastSequence)
                       == Read(states[j].history.logged, key, states[j].memory.lastSequence)
  {
    RunKeepsInv(states, events, j);
    RunHistoryGrows(states, events, i, j);
    OpenReadsAsHistory(states[j]);
  }

  /** Opening never fails for want of a table file, and recovery always has a next step until done. */
  lemma OpenNeverStuck(s: System) returns (ev: Event, t: System)
    requires Inv(s) && !s.memory.Up?
    ensures ev != Crash && Step(s, ev, t)
  {
    var r, d, h := s.memory, s.disk, s.history;
    if r == Down {
      ev := OpenManifest;
      t := s.(memory := Recovering(d.manifest.nextFile + 1, 0, {}, Between(d.manifest.logNumber)));
    } else {
      match r.replay
      case Between(from) => ev, t := NextLog(s);
      case Replaying(n, pos, mem) => ev, t := NextInLog(s);
      case LogReady(n) =>
        var last := Max(d.manifest.lastSequence, r.maxSequence);
        var m := Manifest(n, r.nextFile, last, d.manifest.tables + r.added);
        ev := OpenDone;
        t := System(d.(manifest := m), Up(iset{}, None, None, n, n, r.nextFile, last, m.tables, {}, NoFlush, NoMerge),
            h);
    }
  }

  lemma NextLog(s: System) returns (ev: Event, t: System)
    requires s.memory.Recovering? && s.memory.replay.Between?
    ensures ev != Crash && Step(s, ev, t)
  {
    var r, d := s.memory, s.disk;
    var from := r.replay.from;
    if k :| k in d.logs && k >= from {
      var n := LeastLog(d.logs, from, k);
      ev, t := OpenLog(n), s.(memory := r.(replay := Replaying(n, 0, iset{})));
    } else {
      ev := NewLog;
      t := System(d.(logs := d.logs[r.nextFile := []]), r.(nextFile := r.nextFile + 1, replay := LogReady(r.nextFile)),
          s.history);
    }
  }

  lemma NextInLog(s: System) returns (ev: Event, t: System)
    requires Inv(s) && s.memory.Recovering? && s.memory.replay.Replaying?
    ensures ev != Crash && Step(s, ev, t)
  {
    var r, d := s.memory, s.disk;
    var n, pos, mem := r.replay.n, r.replay.pos, r.replay.mem;
    if pos < |d.logs[n]| {
      var b := d.logs[n][pos];
      ev := ReadRecord;
      t := s.(memory := r.(maxSequence := Max(r.maxSequence, b.sequence + |b.ops| - 1),
          replay := Replaying(n, pos + 1, mem + Writes(b))));
    } else if mem == iset{} {
      ev := CloseLog;
      t := s.(memory := r.(nextFile := Max(r.nextFile, n + 1), replay := Between(n + 1)));
    } else {
      var k := r.nextFile;
      ev := Spill;
      t := System(d.(tables := d.tables[k := mem]),
          r.(nextFile := k + 1, added := r.added + {k}, replay := Replaying(n, pos, iset{})), s.history);
    }
  }

  lemma {:induction false} LeastLog(logs: Logs, from: nat, k: nat) returns (n: nat)
    requires k in logs && k >= from
    ensures n in logs && n >= from && forall m :: m in logs && m >= from ==> m >= n
    decreases k
  {
    if m :| m in logs && from <= m < k {
      n := LeastLog(logs, from, m);
    } else {
      n := k;
    }
  }
}
