/** The common vocabulary of the storage engine: bytes, keys, entries and what a read sees.

  Every other module is proved against `Visible` and `Read`: an entry set is a bag of
  (user key, sequence, kind, value) records, and reading a key at a sequence number returns the
  newest record at or below that number.
 */
module DbFormat {
  type Byte = b: int | 0 <= b < 256
  type Bytes = seq<Byte>

  datatype Option<+T> = None | Some(value: T)

  /** config::kNumLevels. */
  const NUM_LEVELS: nat := 7

  /** Which way a cursor last moved. */
  datatype Direction = Forward | Reverse

  function Max(a: int, b: int): int { if a < b then b else a }

  // ---------------------------------------------------------------------------
  // User keys
  // ---------------------------------------------------------------------------

  /** Slice::compare: byte by byte, then the shorter string first. */
  function Compare(a: Bytes, b: Bytes): int {
    if a == [] then (if b == [] then 0 else -1)
    else if b == [] then 1
    else if a[0] < b[0] then -1
    else if a[0] > b[0] then 1
    else Compare(a[1..], b[1..])
  }

  /** The position of a byte string in the bytewise order, as a number in [0, 1). */
  function Rank(a: Bytes): (r: real)
    ensures 0.0 <= r < 1.0
    ensures r == 0.0 <==> a == []
  {
    if a == [] then 0.0 else (a[0] as real + 1.0 + Rank(a[1..])) / 257.0
  }

  /** The bytewise order embeds in the reals, so a key may be represented by its rank. */
  lemma {:induction false} RankEmbedsCompare(a: Bytes, b: Bytes)
    ensures Compare(a, b) < 0 <==> Rank(a) < Rank(b)
    ensures Compare(a, b) == 0 <==> Rank(a) == Rank(b)
    ensures Rank(a) == Rank(b) <==> a == b
  {
    if a != [] && b != [] {
      RankEmbedsCompare(a[1..], b[1..]);
      if a[0] == b[0] && a[1..] == b[1..] {
        assert a == [a[0]] + a[1..] == [b[0]] + b[1..] == b;
      }
    }
  }

  /** A user key, given by its position in the order of the user comparator. Any total order on
      byte strings is countable and so embeds in the reals (`RankEmbedsCompare` does it for the
      default comparator). */
  type UserKey = real

  // ---------------------------------------------------------------------------
  // Internal keys and entries
  // ---------------------------------------------------------------------------

  const MAX_SEQUENCE: nat := 0xFF_FFFF_FFFF_FFFF

  datatype Kind = Deletion | Value

  datatype InternalKey = InternalKey(user: UserKey, seqno: nat, kind: Kind)

  datatype Entry = Entry(key: InternalKey, value: Bytes)

  /** The 64-bit trailer of an internal key. */
  function Tag(k: InternalKey): nat {
    k.seqno * 256 + if k.kind == Value then 1 else 0
  }

  /** InternalKeyComparator::Compare(a, b) < 0: user key ascending, trailer descending. */
  predicate Less(a: InternalKey, b: InternalKey) {
    a.user < b.user || (a.user == b.user && Tag(a) > Tag(b))
  }

  /** The key under which the entries of `user` visible at `snapshot` begin. */
  function SeekKey(user: UserKey, snapshot: nat): InternalKey {
    InternalKey(user, snapshot, Value)
  }

  ghost predicate Sorted(es: seq<Entry>) {
    forall i, j :: 0 <= i < j < |es| ==> Less(es[i].key, es[j].key)
  }

  // ---------------------------------------------------------------------------
  // What a read sees
  // ---------------------------------------------------------------------------

  type Entries = iset<Entry>

  ghost function SetOf(es: seq<Entry>): Entries {
    iset e | e in es
  }

  /** `e` is the newest entry of `user` at or below `snapshot`. */
  ghost predicate Newest(es: Entries, user: UserKey, snapshot: nat, e: Entry) {
    && e in es && e.key.user == user && e.key.seqno <= snapshot
    && forall f {:trigger f in es} :: f in es && f.key.user == user && f.key.seqno <= snapshot
        ==> f.key.seqno <= e.key.seqno
  }

  ghost predicate NoneVisible(es: Entries, user: UserKey, snapshot: nat) {
    forall f {:trigger f in es} :: f in es && f.key.user == user ==> f.key.seqno > snapshot
  }

  /** A sequence number is given to at most one entry of a key. */
  ghost predicate UniqueSeqs(es: Entries) {
    forall e, f {:trigger e in es, f in es} ::
      e in es && f in es && e.key.user == f.key.user && e.key.seqno == f.key.seqno ==> e == f
  }

  ghost function Visible(es: Entries, user: UserKey, snapshot: nat): (r: Option<Entry>)
    ensures r.Some? ==> Newest(es, user, snapshot, r.value)
    ensures r.None? ==> NoneVisible(es, user, snapshot)
    decreases snapshot
  {
    if exists e :: e in es && e.key.user == user && e.key.seqno == snapshot then
      var e :| e in es && e.key.user == user && e.key.seqno == snapshot;
      Some(e)
    else if snapshot == 0 then None
    else Visible(es, user, snapshot - 1)
  }

  /** The result a client gets: a value, or nothing if the newest entry is missing or a deletion. */
  ghost function Read(es: Entries, user: UserKey, snapshot: nat): Option<Bytes> {
    Outcome(Visible(es, user, snapshot))
  }

  function Outcome(e: Option<Entry>): Option<Bytes> {
    if e.Some? && e.value.key.kind == Value then Some(e.value.value) else None
  }

  /** With unique sequence numbers the newest entry is the only one, so `Visible` finds it. */
  lemma NewestIsVisible(es: Entries, user: UserKey, snapshot: nat, e: Entry)
    requires UniqueSeqs(es) && Newest(es, user, snapshot, e)
    ensures Visible(es, user, snapshot) == Some(e)
  {
    var v := Visible(es, user, snapshot);
    assert v.Some?;
    assert v.value.key.seqno == e.key.seqno;
  }

  /** Sets that agree on which entry is the newest answer every read alike. */
  lemma SameNewestSameRead(a: Entries, b: Entries, user: UserKey, snapshot: nat)
    requires UniqueSeqs(a) && UniqueSeqs(b)
    requires forall e :: Newest(a, user, snapshot, e) <==> Newest(b, user, snapshot, e)
    ensures Visible(a, user, snapshot) == Visible(b, user, snapshot)
  {
    var v := Visible(a, user, snapshot);
    var w := Visible(b, user, snapshot);
    if v.Some? {
      NewestIsVisible(b, user, snapshot, v.value);
    }
    if w.Some? {
      NewestIsVisible(a, user, snapshot, w.value);
    }
  }

  /** Every key reads the same in both, at every sequence number from `snapshot` on. */
  ghost predicate SameReadsFrom(snapshot: nat, a: Entries, b: Entries) {
    forall key, at: nat :: at >= snapshot ==> Read(a, key, at) == Read(b, key, at)
  }

  /** This key reads the same in both, at every sequence number from `snapshot` on. */
  ghost predicate KeyReadsAlike(snapshot: nat, a: Entries, b: Entries, key: UserKey) {
    forall at: nat :: at >= snapshot ==> Read(a, key, at) == Read(b, key, at)
  }

  lemma AlikeByKey(snapshot: nat, a: Entries, b: Entries)
    ensures SameReadsFrom(snapshot, a, b) <==> forall key :: KeyReadsAlike(snapshot, a, b, key)
  {
    if forall key :: KeyReadsAlike(snapshot, a, b, key) {
      forall key, at: nat | at >= snapshot ensures Read(a, key, at) == Read(b, key, at) {
        assert KeyReadsAlike(snapshot, a, b, key);
      }
    }
  }

  /** Every key reads the same in both, at every sequence number up to `last`. */
  ghost predicate SameReadsUpTo(last: nat, a: Entries, b: Entries) {
    forall key, at: nat :: at <= last ==> Read(a, key, at) == Read(b, key, at)
  }

  // ---------------------------------------------------------------------------
  // Writes
  // ---------------------------------------------------------------------------

  datatype Operation = Put(key: UserKey, value: Bytes) | Delete(key: UserKey)

  /** The entry an operation becomes at a sequence number. */
  function EntryFor(op: Operation, seqno: nat): Entry {
    match op
    case Put(key, value) => Entry(InternalKey(key, seqno, Value), value)
    case Delete(key) => Entry(InternalKey(key, seqno, Deletion), [])
  }

  ghost function BatchEntries(ops: seq<Operation>, first: nat): Entries {
    iset i | 0 <= i < |ops| :: EntryFor(ops[i], first + i)
  }

  /** The last operation on its key. */
  predicate LastOnKey(ops: seq<Operation>, i: nat)
    requires i < |ops|
  {
    forall j :: i < j < |ops| ==> ops[j].key != ops[i].key
  }

  predicate OnKey(ops: seq<Operation>, key: UserKey) {
    exists i :: 0 <= i < |ops| && ops[i].key == key
  }

  /** The last operation on a key decides what is read of it once a batch is in: the value of a put, nothing
      after a deletion. */
  lemma LastOperationIsRead(before: Entries, ops: seq<Operation>, first: nat, i: nat, at: nat)
    requires UniqueSeqs(before) && (forall e {:trigger e in before} :: e in before ==> e.key.seqno < first)
    requires i < |ops| && LastOnKey(ops, i) && at + 1 >= first + |ops|
    ensures Read(before + BatchEntries(ops, first), ops[i].key, at) ==
            if ops[i].Put? then Some(ops[i].value) else None
  {
    var all, e := before + BatchEntries(ops, first), EntryFor(ops[i], first + i);
    BatchIsUnique(before, ops, first);
    assert e in BatchEntries(ops, first);
    assert Newest(all, ops[i].key, at, e);
    NewestIsVisible(all, ops[i].key, at, e);
  }

  /** A key no operation of the batch is on reads as it did. */
  lemma OtherKeysUnchanged(before: Entries, ops: seq<Operation>, first: nat, key: UserKey, was: nat, at: nat)
    requires UniqueSeqs(before) && (forall e {:trigger e in before} :: e in before ==> e.key.seqno < first)
    requires forall e {:trigger e in before} :: e in before ==> e.key.seqno <= was
    requires !OnKey(ops, key) && was <= at
    ensures Read(before + BatchEntries(ops, first), key, at) == Read(before, key, was)
  {
    var all, v := before + BatchEntries(ops, first), Visible(before, key, was);
    BatchIsUnique(before, ops, first);
    assert forall e {:trigger e in all} :: e in all && e.key.user == key ==> e in before;
    if v.Some? {
      NewestIsVisible(all, key, at, v.value);
    }
  }

  lemma BatchIsUnique(before: Entries, ops: seq<Operation>, first: nat)
    requires UniqueSeqs(before) && (forall e {:trigger e in before} :: e in before ==> e.key.seqno < first)
    ensures UniqueSeqs(before + BatchEntries(ops, first))
  {
    assert forall e {:trigger e in BatchEntries(ops, first)} ::
        e in BatchEntries(ops, first) ==> e.key.seqno >= first;
  }

  // ---------------------------------------------------------------------------
  // Searching one sorted run
  // ---------------------------------------------------------------------------

  /** Where `key` belongs in a sorted run: the index of the first entry at or after it. */
  function LowerBound(es: seq<Entry>, key: InternalKey): (i: nat)
    ensures i <= |es|
    ensures forall j :: 0 <= j < i ==> Less(es[j].key, key)
    ensures i < |es| ==> !Less(es[i].key, key)
  {
    if es == [] || !Less(es[0].key, key) then 0 else 1 + LowerBound(es[1..], key)
  }

  /** A point lookup in one run: the entry at the lower bound, if it is for the sought key. */
  function Search(es: seq<Entry>, user: UserKey, snapshot: nat): Option<Entry> {
    var i := LowerBound(es, SeekKey(user, snapshot));
    if i < |es| && es[i].key.user == user then Some(es[i]) else None
  }

  lemma SearchFindsNewest(es: seq<Entry>, user: UserKey, snapshot: nat)
    requires Sorted(es)
    ensures match Search(es, user, snapshot)
            case Some(e) => Newest(SetOf(es), user, snapshot, e)
            case None => NoneVisible(SetOf(es), user, snapshot)
  {
    var seek := SeekKey(user, snapshot);
    var i := LowerBound(es, seek);
    forall e | e in es && e.key.user == user && e.key.seqno <= snapshot
      ensures i < |es| && (e == es[i] || Less(es[i].key, e.key))
    {
      var j :| 0 <= j < |es| && es[j] == e;
      assert !Less(e.key, seek);
      assert i < j ==> Less(es[i].key, es[j].key);
    }
  }

  /** Where an entry goes in a sorted run of entries with other keys. */
  function Insert(es: seq<Entry>, e: Entry): (r: seq<Entry>)
    requires Sorted(es) && forall f :: f in es ==> Less(f.key, e.key) || Less(e.key, f.key)
    ensures Sorted(r) && SetOf(r) == SetOf(es) + iset{e}
  {
    if es == [] then [e]
    else if Less(e.key, es[0].key) then
      assert forall f :: f in [e] + es <==> f == e || f in es;
      [e] + es
    else
      var rest := Insert(es[1..], e);
      InsertedPast(es, e, rest);
      [es[0]] + rest
  }

  lemma InsertedPast(es: seq<Entry>, e: Entry, rest: seq<Entry>)
    requires es != [] && Sorted(es) && Less(es[0].key, e.key)
    requires Sorted(rest) && SetOf(rest) == SetOf(es[1..]) + iset{e}
    ensures Sorted([es[0]] + rest) && SetOf([es[0]] + rest) == SetOf(es) + iset{e}
  {
    assert forall f :: f in es <==> f == es[0] || f in es[1..];
    assert forall f :: f in rest <==> f in SetOf(rest);
    assert forall f :: f in [es[0]] + rest <==> f == es[0] || f in rest;
    assert forall f :: f in rest ==> Less(es[0].key, f.key);
  }
}
