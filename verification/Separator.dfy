/** Internal keys over byte strings, and the shortened keys that separate blocks in a table's index. */
module Separator {
  import opened DbFormat

  /** An internal key with its user key spelled out. */
  datatype IKey = IKey(user: Bytes, seqno: nat, kind: Kind)

  /** The same key, with its user key given by its place in the bytewise order. */
  function Order(k: IKey): InternalKey {
    InternalKey(Rank(k.user), k.seqno, k.kind)
  }

  predicate KeyLess(a: IKey, b: IKey) {
    Less(Order(a), Order(b))
  }

  /** InternalKeyComparator::Compare. */
  function CompareKeys(a: IKey, b: IKey): int {
    var r := Compare(a.user, b.user);
    if r != 0 then r
    else if Tag(Order(a)) > Tag(Order(b)) then -1
    else if Tag(Order(a)) < Tag(Order(b)) then 1
    else 0
  }

  /** The comparator's answers are those of the order by ranks, and only equal keys compare equal. */
  lemma CompareIsOrder(a: IKey, b: IKey)
    ensures CompareKeys(a, b) < 0 <==> KeyLess(a, b)
    ensures CompareKeys(a, b) > 0 <==> KeyLess(b, a)
    ensures CompareKeys(a, b) == 0 <==> a == b
  {
    RankEmbedsCompare(a.user, b.user);
  }

  /** Past the common prefix, the larger byte decides. */
  lemma {:induction false} FirstDifference(a: Bytes, b: Bytes, d: nat)
    requires d < |a| && d < |b| && a[..d] == b[..d] && a[d] < b[d]
    ensures Compare(a, b) < 0 && Compare(b, a) > 0
  {
    if d > 0 {
      assert a[0] == a[..d][0] == b[..d][0] == b[0];
      assert a[1..][..d - 1] == a[..d][1..] == b[..d][1..] == b[1..][..d - 1];
      FirstDifference(a[1..], b[1..], d - 1);
    }
  }

  // ---------------------------------------------------------------------------
  // The bytewise comparator
  // ---------------------------------------------------------------------------

  /** The strings first differ at `d`, and there is room for a byte between theirs. */
  predicate RoomAt(start: Bytes, limit: Bytes, d: nat) {
    d < |start| && d < |limit| && start[..d] == limit[..d] && start[d] as int + 1 < limit[d] as int
  }

  /** A string strictly between the two: the common prefix and one larger byte. Without room where they first
      differ, the first string itself. */
  method FindShortestSeparator(start: Bytes, limit: Bytes) returns (r: Bytes)
    ensures r == start || (|r| <= |start| && Rank(start) < Rank(r) < Rank(limit))
    ensures forall d: nat :: RoomAt(start, limit, d) ==> r == start[..d] + [start[d] + 1]
    ensures r != start ==> exists d: nat :: RoomAt(start, limit, d)
  {
    var minLength := if |start| < |limit| then |start| else |limit|;
    var d := 0;
    while d < minLength && start[d] == limit[d]
      invariant d <= minLength && start[..d] == limit[..d]
    {
      d := d + 1;
    }
    r := start;
    OnlyOnePlace(start, limit, d);
    if d < minLength {
      if start[d] < 0xff && start[d] + 1 < limit[d] {
        assert RoomAt(start, limit, d);
        r := start[..d] + [start[d] + 1];
        FirstDifference(start, r, d);
        FirstDifference(r, limit, d);
        RankEmbedsCompare(start, r);
        RankEmbedsCompare(r, limit);
      }
    }
  }

  lemma AgreeBelow(a: Bytes, b: Bytes, d: nat)
    requires d <= |a| && d <= |b| && a[..d] == b[..d]
    ensures forall i :: 0 <= i < d ==> a[i] == b[i]
  {
    forall i | 0 <= i < d ensures a[i] == b[i] {
      assert a[i] == a[..d][i] == b[..d][i];
    }
  }

  lemma OnlyOnePlace(start: Bytes, limit: Bytes, d: nat)
    requires d <= |start| && d <= |limit| && start[..d] == limit[..d]
    requires d == |start| || d == |limit| || start[d] != limit[d]
    ensures forall e: nat :: RoomAt(start, limit, e) ==> e == d
  {
    AgreeBelow(start, limit, d);
    forall e: nat | RoomAt(start, limit, e) ensures e == d {
      AgreeBelow(start, limit, e);
    }
  }

  /** `i` is the first place that does not hold a 0xff byte. */
  predicate FirstBelow(key: Bytes, i: nat) {
    i < |key| && key[i] != 0xff && forall j :: 0 <= j < i ==> key[j] == 0xff
  }

  /** A later string that is no longer: up to and with the first byte that can be raised. A string of 0xff
      bytes only stays as it is. */
  method FindShortSuccessor(key: Bytes) returns (r: Bytes)
    ensures if forall i :: 0 <= i < |key| ==> key[i] == 0xff then r == key
            else |r| <= |key| && Rank(key) < Rank(r)
    ensures forall i: nat :: FirstBelow(key, i) ==> r == key[..i] + [key[i] + 1]
  {
    for i := 0 to |key|
      invariant forall j :: 0 <= j < i ==> key[j] == 0xff
    {
      if key[i] != 0xff {
        r := key[..i] + [key[i] + 1];
        FirstDifference(key, r, i);
        RankEmbedsCompare(key, r);
        return;
      }
    }
    r := key;
  }

  // ---------------------------------------------------------------------------
  // The internal key comparator
  // ---------------------------------------------------------------------------

  /** `sep` separates a block ending in `last` from one starting with `next`: it is `last` itself, or its
      user key is strictly between theirs. */
  predicate Separates(sep: IKey, last: IKey, next: Option<IKey>) {
    sep == last || (Rank(last.user) < Rank(sep.user) && (next.Some? ==> Rank(sep.user) < Rank(next.value.user)))
  }

  /** `sep` is `last`, or shorter under the largest sequence number, and shortened where that is possible:
      before a byte of `last` that can be raised and stay below the one in `next`. */
  ghost predicate ShortSeparator(sep: IKey, last: IKey, next: IKey) {
    && Separates(sep, last, Some(next)) && |sep.user| <= |last.user|
    && (sep != last ==> |sep.user| < |last.user| && sep.seqno == MAX_SEQUENCE && sep.kind == Value)
    && forall d: nat :: RoomAt(last.user, next.user, d) && d + 1 < |last.user| ==>
         sep.user == last.user[..d] + [last.user[d] + 1]
  }

  /** The same after the last block. */
  ghost predicate ShortSuccessor(sep: IKey, last: IKey) {
    && Separates(sep, last, None) && |sep.user| <= |last.user|
    && (sep != last ==> |sep.user| < |last.user| && sep.seqno == MAX_SEQUENCE && sep.kind == Value)
    && forall i: nat :: FirstBelow(last.user, i) && i + 1 < |last.user| ==>
         sep.user == last.user[..i] + [last.user[i] + 1]
  }

  method InternalSeparator(start: IKey, limit: IKey) returns (r: IKey)
    ensures ShortSeparator(r, start, limit)
  {
    var tmp := FindShortestSeparator(start.user, limit.user);
    r := start;
    RankEmbedsCompare(start.user, tmp);
    if |tmp| < |start.user| && Compare(start.user, tmp) < 0 {
      r := IKey(tmp, MAX_SEQUENCE, Value);
    }
  }

  method InternalSuccessor(key: IKey) returns (r: IKey)
    ensures ShortSuccessor(r, key)
  {
    var tmp := FindShortSuccessor(key.user);
    r := key;
    RankEmbedsCompare(key.user, tmp);
    if |tmp| < |key.user| && Compare(key.user, tmp) < 0 {
      r := IKey(tmp, MAX_SEQUENCE, Value);
    }
  }
}
