/** DBIter: a cursor over the live keys of a snapshot, built on a cursor over internal entries. */
module DBIter {
  import opened DbFormat

  // ---------------------------------------------------------------------------
  // The snapshot-visible map, as positions in the internal sequence
  // ---------------------------------------------------------------------------

  predicate InSnapshot(es: seq<Entry>, s: nat, i: nat)
    requires i < |es|
  {
    es[i].key.seqno <= s
  }

  /** Entry `i` is what the snapshot shows for its key: the newest visible one, and not a deletion. */
  ghost predicate Live(es: seq<Entry>, s: nat, i: nat) {
    && i < |es| && InSnapshot(es, s, i) && es[i].key.kind == Value
    && forall k :: 0 <= k < i && es[k].key.user == es[i].key.user ==> !InSnapshot(es, s, k)
  }

  lemma UsersAscend(es: seq<Entry>)
    requires Sorted(es)
    ensures forall i, j :: 0 <= i <= j < |es| ==> es[i].key.user <= es[j].key.user
  {
    forall i, j | 0 <= i <= j < |es| ensures es[i].key.user <= es[j].key.user {
      assert i < j ==> Less(es[i].key, es[j].key);
    }
  }

  /** Live entries are exactly the values a read at the snapshot returns. */
  lemma LiveIsRead(es: seq<Entry>, s: nat, i: nat)
    requires Sorted(es) && UniqueSeqs(SetOf(es)) && i < |es|
    ensures Live(es, s, i) <==> Visible(SetOf(es), es[i].key.user, s) == Some(es[i]) && es[i].key.kind == Value
  {
    var all, e := SetOf(es), es[i];
    var v := Visible(all, e.key.user, s);
    if Live(es, s, i) {
      forall f | f in all && f.key.user == e.key.user && f.key.seqno <= s ensures f.key.seqno <= e.key.seqno {
        var k :| 0 <= k < |es| && es[k] == f;
        assert k >= i;
        assert i < k ==> Less(es[i].key, es[k].key);
      }
      assert e in all;
      NewestIsVisible(all, e.key.user, s, e);
    }
    if v == Some(e) && e.key.kind == Value {
      forall k | 0 <= k < i && es[k].key.user == e.key.user ensures !InSnapshot(es, s, k) {
        assert Less(es[k].key, es[i].key);
        assert es[k] in all && es[i] in all;
      }
    }
  }

  /** Every key the snapshot maps to a value has a live entry holding that value. */
  lemma ReadIsLive(es: seq<Entry>, s: nat, user: UserKey) returns (i: nat)
    requires Sorted(es) && UniqueSeqs(SetOf(es)) && Read(SetOf(es), user, s).Some?
    ensures Live(es, s, i) && es[i].key.user == user && Read(SetOf(es), user, s) == Some(es[i].value)
  {
    var v := Visible(SetOf(es), user, s).value;
    assert v in es;
    i :| 0 <= i < |es| && es[i] == v;
    LiveIsRead(es, s, i);
  }

  /** One live entry per key, in key order. */
  lemma LiveKeysAscend(es: seq<Entry>, s: nat, i: nat, j: nat)
    requires Sorted(es) && Live(es, s, i) && Live(es, s, j) && i < j
    ensures es[i].key.user < es[j].key.user
  {
    UsersAscend(es);
  }

  // ---------------------------------------------------------------------------
  // The inner cursor
  // ---------------------------------------------------------------------------

  /** An iterator over a sorted run of internal entries; past either end it is not valid. */
  class InternalIterator {
    const es: seq<Entry>
    var pos: nat

    constructor (es: seq<Entry>)
      ensures this.es == es && !Valid()
    {
      this.es, pos := es, |es|;
    }

    predicate Valid()
      reads this
    {
      pos < |es|
    }

    method SeekToFirst()
      modifies this
      ensures pos == 0
    {
      pos := 0;
    }

    method SeekToLast()
      modifies this
      ensures pos == if es == [] then 0 else |es| - 1
    {
      pos := if es == [] then 0 else |es| - 1;
    }

    method Seek(key: InternalKey)
      modifies this
      ensures pos == LowerBound(es, key)
    {
      pos := LowerBound(es, key);
    }

    method Next()
      requires Valid()
      modifies this
      ensures pos == old(pos) + 1
    {
      pos := pos + 1;
    }

    method Prev()
      requires Valid()
      modifies this
      ensures pos == if old(pos) == 0 then |es| else old(pos) - 1
    {
      pos := if pos == 0 then |es| else pos - 1;
    }
  }

  // ---------------------------------------------------------------------------
  // DBIter
  // ---------------------------------------------------------------------------

  class DBIter {
    const iter: InternalIterator
    const sequence: nat
    var direction: Direction
    var savedKey: UserKey
    var savedValue: Bytes
    var valid: bool
    /** The live entry the cursor stands on, when valid. */
    ghost var at: nat

    constructor (iter: InternalIterator, sequence: nat)
      requires Sorted(iter.es) && iter.pos <= |iter.es|
      ensures Valid() && !valid && this.iter == iter && this.sequence == sequence
    {
      this.iter, this.sequence := iter, sequence;
      direction, valid, savedKey, savedValue, at := Forward, false, 0.0, [], 0;
    }

    ghost function Es(): seq<Entry> { iter.es }

    ghost predicate IsLive(i: nat) { Live(Es(), sequence, i) }

    /** Forward, the inner iterator is on the current entry. In reverse it is on some earlier key, or
        off the front, and everything it passed on the way is too new to be seen. */
    ghost predicate Valid()
      reads this, iter
    {
      && Sorted(Es()) && iter.pos <= |Es()|
      && (valid ==> IsLive(at))
      && (valid && direction == Forward ==> iter.pos == at)
      && (valid && direction == Reverse ==>
           && savedKey == Es()[at].key.user && savedValue == Es()[at].value
           && (iter.Valid() ==> Es()[iter.pos].key.user < savedKey)
           && forall k :: 0 <= k < at && (iter.Valid() ==> iter.pos < k) ==> !InSnapshot(Es(), sequence, k))
    }

    function Key(): (key: UserKey)
      requires Valid() && valid
      reads this, iter
      ensures key == Es()[at].key.user
    {
      if direction == Forward then iter.es[iter.pos].key.user else savedKey
    }

    function GetValue(): (value: Bytes)
      requires Valid() && valid
      reads this, iter
      ensures value == Es()[at].value
    {
      if direction == Forward then iter.es[iter.pos].value else savedValue
    }

    // ----- going forward -----

    /** What is still to be skipped when scanning on from `p`. */
    ghost predicate Skips(p: nat, skipping: bool, skip: UserKey) {
      var es := Es();
      && (forall j :: p <= j < |es| && (skipping ==> es[j].key.user > skip) ==>
           forall k :: 0 <= k < p && es[k].key.user == es[j].key.user ==> !InSnapshot(es, sequence, k))
      && (skipping ==> forall j :: p <= j < |es| && InSnapshot(es, sequence, j) ==> es[j].key.user >= skip)
    }

    /** Scanning over one entry: it is too new, or it is now the deletion or the older entry to skip. */
    lemma SkipsStep(p: nat, skipping: bool, skip: UserKey)
      requires Sorted(Es()) && p < |Es()| && Skips(p, skipping, skip)
      ensures !InSnapshot(Es(), sequence, p) ==> Skips(p + 1, skipping, skip)
      ensures InSnapshot(Es(), sequence, p) && Es()[p].key.kind == Deletion ==> Skips(p + 1, true, Es()[p].key.user)
      ensures InSnapshot(Es(), sequence, p) && skipping && Es()[p].key.user <= skip ==> Skips(p + 1, true, skip)
      ensures InSnapshot(Es(), sequence, p) && skipping ==> Es()[p].key.user >= skip
      ensures InSnapshot(Es(), sequence, p) && Es()[p].key.kind == Value && (skipping ==> Es()[p].key.user > skip)
          ==> IsLive(p)
      ensures skipping && Es()[p].key.user <= skip && InSnapshot(Es(), sequence, p) ==> Es()[p].key.user == skip
      ensures IsLive(p) ==> InSnapshot(Es(), sequence, p) && Es()[p].key.kind == Value
    {
      UsersAscend(Es());
    }

    /** Scan to the first live entry at or after the inner position whose key is past `skip`. */
    method FindNextUserEntry(skipping0: bool, skip0: UserKey)
      requires Sorted(Es()) && iter.Valid() && direction == Forward && Skips(iter.pos, skipping0, skip0)
      modifies this, iter
      ensures Valid() && direction == Forward
      ensures valid ==> at >= old(iter.pos) && (skipping0 ==> Es()[at].key.user > skip0)
      ensures forall j ::
        old(iter.pos) <= j < (if valid then at else |Es()|) && (skipping0 ==> Es()[j].key.user > skip0) ==> !IsLive(j)
    {
      var skipping := skipping0;
      savedKey := skip0;
      UsersAscend(Es());
      while iter.Valid()
        invariant old(iter.pos) <= iter.pos <= |Es()| && direction == Forward
        invariant Skips(iter.pos, skipping, savedKey)
        invariant skipping0 ==> skipping && savedKey >= skip0
        invariant forall j :: iter.pos <= j < |Es()| && IsLive(j) && (skipping0 ==> Es()[j].key.user > skip0) ==>
                    (skipping ==> Es()[j].key.user > savedKey)
        invariant forall j :: old(iter.pos) <= j < iter.pos && (skipping0 ==> Es()[j].key.user > skip0) ==> !IsLive(j)
        decreases |Es()| - iter.pos
      {
        var e := iter.es[iter.pos];
        SkipsStep(iter.pos, skipping, savedKey);
        if e.key.seqno <= sequence {
          match e.key.kind
          case Deletion =>
            savedKey := e.key.user;
            skipping := true;
          case Value =>
            if skipping && e.key.user <= savedKey {
            } else {
              valid, savedKey, at := true, 0.0, iter.pos;
              return;
            }
        }
        iter.Next();
      }
      savedKey, valid := 0.0, false;
    }

    // ----- going backward -----

    /** Scan back to the last live entry at or before the inner position. */
    method FindPrevUserEntry()
      requires Sorted(Es()) && direction == Reverse && (iter.Valid() || iter.pos == |Es()|)
      modifies this, iter
      ensures Valid() && (valid ==> direction == Reverse)
      ensures valid ==> old(iter.Valid()) && at <= old(iter.pos)
      ensures forall j :: 0 <= j <= old(iter.pos) && old(iter.Valid()) && (valid ==> at < j) ==> !IsLive(j)
    {
      ghost var start := iter.pos;
      var valueType := Deletion;
      UsersAscend(Es());
      while iter.Valid()
        invariant start < |Es()| ==> iter.pos <= start || iter.pos == |Es()|
        invariant start >= |Es()| ==> iter.pos == |Es()| && valueType == Deletion
        invariant direction == Reverse
        invariant valueType == Deletion ==>
          forall j :: 0 <= j <= start < |Es()| && (iter.Valid() ==> iter.pos < j) ==> !IsLive(j)
        invariant valueType == Value ==>
          && Passed(start) && savedKey == Es()[at].key.user && savedValue == Es()[at].value
        decreases if iter.Valid() then iter.pos + 1 else 0
      {
        var e := iter.es[iter.pos];
        if e.key.seqno <= sequence {
          if valueType != Deletion && e.key.user < savedKey {
            break;
          }
          valueType := e.key.kind;
          if valueType == Deletion {
            savedKey, savedValue := 0.0, [];
          } else {
            savedKey, savedValue, at := e.key.user, e.value, iter.pos;
          }
        }
        iter.Prev();
      }
      if valueType == Deletion {
        valid, savedKey, savedValue, direction := false, 0.0, [], Forward;
      } else {
        valid := true;
      }
    }

    /** While scanning back: `at` is a visible value, everything between it and the inner position is
        too new, and nothing after it up to `start` is live. */
    ghost predicate Passed(start: nat)
      reads this, iter
    {
      && at <= start < |Es()| && InSnapshot(Es(), sequence, at) && Es()[at].key.kind == Value
      && (iter.Valid() ==> iter.pos < at)
      && (forall k :: 0 <= k < at && (iter.Valid() ==> iter.pos < k) ==> !InSnapshot(Es(), sequence, k))
      && (forall j :: at < j <= start ==> !IsLive(j))
    }

    // ----- the cursor operations -----

    ghost predicate NoneLive(lo: nat, hi: nat) {
      forall j :: lo <= j < hi ==> !IsLive(j)
    }

    /** Move to the next live entry. */
    method Next()
      requires Valid() && valid
      modifies this, iter
      ensures Valid()
      ensures valid ==> at > old(at)
      ensures NoneLive(old(at) + 1, if valid then at else |Es()|)
    {
      ghost var from := at;
      UsersAscend(Es());
      ghost var was := Es()[from].key.user;
      assert forall j :: from < j < |Es()| && IsLive(j) ==> Es()[j].key.user > was;
      if direction == Reverse {
        direction := Forward;
        if !iter.Valid() {
          iter.SeekToFirst();
        } else {
          iter.Next();
        }
        valid, savedKey := iter.Valid(), if iter.Valid() then savedKey else 0.0;
        if !valid {
          return;
        }
      } else {
        savedKey := iter.es[iter.pos].key.user;
      }
      FindNextUserEntry(true, savedKey);
    }

    /** Move to the live entry before this one. */
    method Prev()
      requires Valid() && valid
      modifies this, iter
      ensures Valid()
      ensures valid ==> at < old(at)
      ensures NoneLive(if valid then at + 1 else 0, old(at))
    {
      ghost var from := at;
      UsersAscend(Es());
      if direction == Forward {
        savedKey := iter.es[iter.pos].key.user;
        while true
          invariant iter.pos <= from && direction == Forward && savedKey == Es()[from].key.user
          invariant forall j :: iter.pos <= j < from ==> Es()[j].key.user == savedKey
          decreases iter.pos
        {
          iter.Prev();
          if !iter.Valid() {
            valid, savedKey, savedValue := false, 0.0, [];
            return;
          }
          if iter.es[iter.pos].key.user < savedKey {
            break;
          }
        }
        direction := Reverse;
      }
      FindPrevUserEntry();
    }

    /** Move to the first live entry whose key is at or after `target`. */
    method Seek(target: UserKey)
      requires Valid()
      modifies this, iter
      ensures Valid()
      ensures valid ==> Es()[at].key.user >= target
      ensures forall j :: 0 <= j < (if valid then at else |Es()|) && Es()[j].key.user >= target ==> !IsLive(j)
    {
      direction, savedValue := Forward, [];
      iter.Seek(SeekKey(target, sequence));
      SeekSkips(target, iter.pos);
      if iter.Valid() {
        FindNextUserEntry(false, target);
      } else {
        valid := false;
      }
    }

    method SeekToFirst()
      requires Valid()
      modifies this, iter
      ensures Valid()
      ensures NoneLive(0, if valid then at else |Es()|)
    {
      direction, savedValue := Forward, [];
      iter.SeekToFirst();
      if iter.Valid() {
        FindNextUserEntry(false, savedKey);
      } else {
        valid := false;
      }
    }

    method SeekToLast()
      requires Valid()
      modifies this, iter
      ensures Valid()
      ensures NoneLive(if valid then at + 1 else 0, |Es()|)
    {
      direction, savedValue := Reverse, [];
      iter.SeekToLast();
      FindPrevUserEntry();
    }

    /** Everything before the sought internal key is of a smaller user key or too new to be seen. */
    lemma SeekSkips(target: UserKey, p: nat)
      requires Sorted(Es()) && p == LowerBound(Es(), SeekKey(target, sequence))
      ensures Skips(p, false, target) && p <= |Es()|
      ensures forall k :: 0 <= k < p ==> Es()[k].key.user < target || !InSnapshot(Es(), sequence, k)
      ensures forall k :: p <= k < |Es()| ==> Es()[k].key.user >= target
    {
    }
  }
}
