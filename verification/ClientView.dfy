/** What clients see of the recovery protocol: over every run, crashes and recoveries included, an open
  database answers like a map to which the logged operations were applied in order. */
module ClientView {
  import opened DbFormat
  import opened Recovery

  /** The map after the operations, in order. */
  function Applied(m: map<UserKey, Bytes>, ops: seq<Operation>): map<UserKey, Bytes> {
    if ops == [] then m
    else
      var before, op := Applied(m, ops[..|ops| - 1]), ops[|ops| - 1];
      match op
      case Put(key, value) => before[key := value]
      case Delete(key) => before - {key}
  }

  function Lookup(m: map<UserKey, Bytes>, key: UserKey): Option<Bytes> {
    if key in m then Some(m[key]) else None
  }

  /** The operations of the first `n` events that reached the log. */
  function LoggedOps(events: seq<Event>, n: nat): seq<Operation>
    requires n <= |events|
  {
    if n == 0 then [] else LoggedOps(events, n - 1) + OpsOf(events[n - 1])
  }

  function OpsOf(ev: Event): seq<Operation> {
    if ev.Append? then ev.ops else []
  }

  lemma {:induction false} AppliedInTwo(m: map<UserKey, Bytes>, a: seq<Operation>, b: seq<Operation>)
    ensures Applied(m, a + b) == Applied(Applied(m, a), b)
  {
    if b == [] {
      assert a + b == a;
    } else {
      assert (a + b)[..|a + b| - 1] == a + b[..|b| - 1];
      AppliedInTwo(m, a, b[..|b| - 1]);
    }
  }

  /** The last operation on a key decides its place in the map. */
  lemma {:induction false} AppliedAt(m: map<UserKey, Bytes>, ops: seq<Operation>, key: UserKey) returns (i: Option<nat>)
    ensures i.None? ==> !OnKey(ops, key) && Lookup(Applied(m, ops), key) == Lookup(m, key)
    ensures i.Some? ==> i.value < |ops| && ops[i.value].key == key && LastOnKey(ops, i.value)
    ensures i.Some? ==>
        Lookup(Applied(m, ops), key) == if ops[i.value].Put? then Some(ops[i.value].value) else None
  {
    if ops == [] {
      i := None;
    } else if ops[|ops| - 1].key == key {
      i := Some(|ops| - 1);
    } else {
      i := AppliedAt(m, ops[..|ops| - 1], key);
    }
  }

  /** At every sequence number that no entry is above, the entries read like the map. */
  ghost predicate ReadsLike(es: Entries, m: map<UserKey, Bytes>) {
    forall key, at: nat :: AtMost(es, at) ==> Read(es, key, at) == Lookup(m, key)
  }

  lemma NothingReadsLikeEmpty()
    ensures ReadsLike(iset{}, map[])
  {
  }

  lemma BatchReadsLike(es: Entries, m: map<UserKey, Bytes>, b: Batch)
    requires ReadsLike(es, m) && UniqueSeqs(es) && b.sequence > 0 && AtMost(es, b.sequence - 1)
    ensures ReadsLike(es + Writes(b), Applied(m, b.ops))
  {
    var all := es + Writes(b);
    forall key, at: nat | AtMost(all, at) ensures Read(all, key, at) == Lookup(Applied(m, b.ops), key) {
      var i := AppliedAt(m, b.ops, key);
      if i.Some? {
        BatchReaches(b, all, at);
        LastOperationIsRead(es, b.ops, b.sequence, i.value, at);
      } else {
        OtherKeysUnchanged(es, b.ops, b.sequence, key, at, at);
      }
    }
  }

  lemma BatchReaches(b: Batch, all: Entries, at: nat)
    requires Writes(b) <= all && AtMost(all, at) && b.ops != []
    ensures at + 1 >= b.sequence + |b.ops|
  {
    assert EntryFor(b.ops[|b.ops| - 1], b.sequence + (|b.ops| - 1)) in Writes(b);
  }

  lemma StepReadsLike(s: System, ev: Event, t: System, m: map<UserKey, Bytes>)
    requires Inv(s) && Step(s, ev, t) && ReadsLike(s.history.logged, m)
    ensures ReadsLike(t.history.logged, Applied(m, OpsOf(ev)))
  {
    if ev.Append? {
      var b := AppendLogs(s, ev.ops, t);
      BatchReadsLike(s.history.logged, m, b);
    } else {
      OnlyAppendLogs(s, ev, t);
    }
  }

  lemma AppendLogs(s: System, ops: seq<Operation>, t: System) returns (b: Batch)
    requires Inv(s) && AppendStep(s, ops, t)
    ensures b.ops == ops && b.sequence > 0 && t.history.logged == s.history.logged + Writes(b)
    ensures UniqueSeqs(s.history.logged) && AtMost(s.history.logged, b.sequence - 1)
  {
    b := Batch(s.memory.lastSequence + 1, ops);
    NextSequenceIsFresh(s);
  }

  lemma {:induction false} HistoryReadsLike(states: seq<System>, events: seq<Event>, j: nat)
    requires Run(states, events) && j < |states|
    ensures ReadsLike(states[j].history.logged, Applied(map[], LoggedOps(events, j)))
  {
    if j == 0 {
      NothingReadsLikeEmpty();
    } else {
      HistoryReadsLike(states, events, j - 1);
      RunKeepsInv(states, events, j - 1);
      StepReadsLike(states[j - 1], events[j - 1], states[j], Applied(map[], LoggedOps(events, j - 1)));
      AppliedInTwo(map[], LoggedOps(events, j - 1), OpsOf(events[j - 1]));
    }
  }

  lemma OnlyAppendLogs(s: System, ev: Event, t: System)
    requires Step(s, ev, t) && !ev.Append?
    ensures t.history.logged == s.history.logged
  {
  }

  /** Over every run: an open database with nothing in flight answers every read like the map to which all
      logged operations, of every incarnation, were applied in order. */
  lemma RunReadsLikeMap(states: seq<System>, events: seq<Event>, j: nat)
    requires Run(states, events) && j < |states| && states[j].memory.Up? && states[j].memory.inFlight == None
    ensures var s, m := states[j], Applied(map[], LoggedOps(events, j));
            forall key :: Read(Contents(s.disk, s.memory), key, s.memory.lastSequence) ==
                          if key in m then Some(m[key]) else None
  {
    RunKeepsInv(states, events, j);
    NextSequenceIsFresh(states[j]);
    OpenReadsAsHistory(states[j]);
    HistoryReadsLike(states, events, j);
  }

  lemma {:induction false} KeyUntouched(states: seq<System>, events: seq<Event>, a: nat, j: nat, key: UserKey)
    requires Run(states, events) && a <= j < |states|
    requires forall k :: a <= k < j && events[k].Append? ==> !OnKey(events[k].ops, key)
    ensures forall e {:trigger e in states[j].history.logged} ::
              e in states[j].history.logged && e.key.user == key ==> e in states[a].history.logged
  {
    if a < j {
      KeyUntouched(states, events, a, j - 1, key);
      var s, ev, t := states[j - 1], events[j - 1], states[j];
      assert Step(s, ev, t);
      if !ev.Append? {
        OnlyAppendLogs(s, ev, t);
      }
    }
  }

  /** Over every run: once a batch has been acknowledged at step `a`, its last operation on a key is what an
      open database reads of that key at any later step `j`, as long as no operation logged since has it. */
  lemma AcknowledgedBatchIsRead(states: seq<System>, events: seq<Event>, a: nat, j: nat, i: nat)
    requires Run(states, events) && a < j < |states| && events[a] == Apply && states[j].memory.Up?
    requires states[a].memory.Up? && states[a].memory.inFlight.Some?
    requires var ops := states[a].memory.inFlight.value.ops;
             && i < |ops| && LastOnKey(ops, i)
             && forall k :: a < k < j && events[k].Append? ==> !OnKey(events[k].ops, ops[i].key)
    ensures var ops := states[a].memory.inFlight.value.ops;
            Read(Contents(states[j].disk, states[j].memory), ops[i].key, states[j].memory.lastSequence) ==
            if ops[i].Put? then Some(ops[i].value) else None
  {
    var b := states[a].memory.inFlight.value;
    var e := EntryFor(b.ops[i], b.sequence + i);
    var logged, last := states[j].history.logged, states[j].memory.lastSequence;
    RunKeepsInv(states, events, a);
    RunKeepsInv(states, events, j);
    assert Step(states[a], events[a], states[a + 1]);
    RunHistoryGrows(states, events, a + 1, j);
    KeyUntouched(states, events, a + 1, j, b.ops[i].key);
    OpenReadsAsHistory(states[j]);
    assert e in Writes(b);
    LastInLog(states[a].disk, states[a].memory, states[a].history, b, i);
    assert Newest(logged, b.ops[i].key, last, e);
    NewestIsVisible(logged, b.ops[i].key, last, e);
  }

  lemma LastInLog(d: Disk, u: Memory, h: History, b: Batch, i: nat)
    requires u.Up? && u.inFlight == Some(b) && SequencesOk(d, u, h) && i < |b.ops| && LastOnKey(b.ops, i)
    ensures forall f {:trigger f in h.logged} :: f in h.logged && f.key.user == b.ops[i].key ==>
              f.key.seqno <= b.sequence + i
  {
  }
}
