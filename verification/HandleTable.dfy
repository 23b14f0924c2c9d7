/** The cache's chained hash table, proved to be a finite map from keys to handles. */
module HandleTable {
  import opened DbFormat
  import opened Bits

  /** A key together with the hash it is filed under. */
  datatype Key = Key(bytes: Bytes, hash: nat)

  type Id = nat

  /** One link of a bucket's chain. */
  datatype Slot = Slot(key: Key, id: Id)

  type Buckets = seq<seq<Slot>>

  /** The bucket a key belongs in, its hash masked by the length less one. */
  function Home(key: Key, length: nat): (b: nat)
    requires length > 0
    ensures b < length
  {
    AndAtMost(key.hash, length - 1);
    And(key.hash, length - 1)
  }

  ghost predicate SlotOk(list: Buckets, contents: map<Key, Id>, i: nat, j: nat)
    requires i < |list| && j < |list[i]|
  {
    Home(list[i][j].key, |list|) == i && list[i][j].key in contents && contents[list[i][j].key] == list[i][j].id
  }

  ghost predicate Chained(chain: seq<Slot>, key: Key) {
    exists j :: 0 <= j < |chain| && chain[j].key == key
  }

  /** A chain names each key at most once. */
  predicate Distinct(chain: seq<Slot>) {
    forall j, l :: 0 <= j < l < |chain| ==> chain[j].key != chain[l].key
  }

  /** The buckets hold exactly the map, each key in its home bucket. */
  ghost predicate Holds(list: Buckets, contents: map<Key, Id>) {
    && |list| > 0
    && (forall i, j {:trigger SlotOk(list, contents, i, j)} ::
        0 <= i < |list| && 0 <= j < |list[i]| ==> SlotOk(list, contents, i, j))
    && (forall i {:trigger Distinct(list[i])} :: 0 <= i < |list| ==> Distinct(list[i]))
    && (forall k {:trigger Chained(list[Home(k, |list|)], k)} :: k in contents ==> Chained(list[Home(k, |list|)], k))
  }

  /** One bucket changed to hold one key differently. */
  lemma ReplaceChain(list: Buckets, contents: map<Key, Id>, b: nat, chain: seq<Slot>, contents': map<Key, Id>, key: Key)
    requires Holds(list, contents) && b == Home(key, |list|) && Distinct(chain)
    requires forall k :: k != key ==>
        (k in contents' <==> k in contents) && (k in contents ==> contents'[k] == contents[k])
    requires forall j :: 0 <= j < |chain| ==> chain[j].key == key || chain[j] in list[b]
    requires forall j :: 0 <= j < |chain| && chain[j].key == key ==> key in contents' && contents'[key] == chain[j].id
    requires forall s :: s in list[b] && s.key != key ==> s in chain
    requires key in contents' ==> Chained(chain, key)
    ensures Holds(list[b := chain], contents')
  {
    var list' := list[b := chain];
    forall i, j | 0 <= i < |list'| && 0 <= j < |list'[i]| ensures SlotOk(list', contents', i, j) {
      if i == b {
        if chain[j].key != key {
          var l :| 0 <= l < |list[b]| && list[b][l] == chain[j];
          assert SlotOk(list, contents, b, l);
        }
      } else {
        assert SlotOk(list, contents, i, j);
      }
    }
    forall i | 0 <= i < |list'| ensures Distinct(list'[i]) {
      assert i != b ==> Distinct(list[i]);
    }
    forall k | k in contents' ensures Chained(list'[Home(k, |list'|)], k) {
      if k != key {
        var h := Home(k, |list|);
        assert Chained(list[h], k);
        if h == b {
          var j :| 0 <= j < |list[b]| && list[b][j].key == k;
          assert list[b][j] in chain;
        }
      }
    }
  }

  lemma NotChained(list: Buckets, contents: map<Key, Id>, key: Key)
    requires Holds(list, contents) && key !in contents
    ensures forall j :: 0 <= j < |list[Home(key, |list|)]| ==> list[Home(key, |list|)][j].key != key
  {
    var b := Home(key, |list|);
    forall j | 0 <= j < |list[b]| ensures list[b][j].key != key {
      assert SlotOk(list, contents, b, j);
    }
  }

  /** Four buckets, doubled any number of times. */
  predicate Doubled(n: nat) {
    n == 4 || (n > 4 && n % 2 == 0 && Doubled(n / 2))
  }

  lemma {:induction false} DoubledIsPower(length: nat) returns (n: nat)
    requires Doubled(length)
    ensures length == Power2(n) && length > 0
  {
    if length == 4 {
      assert Power2(1) == 2;
      n := 2;
    } else {
      var m := DoubledIsPower(length / 2);
      n := m + 1;
    }
  }

  /** In a table whose length has been doubled from four, the bucket is the hash's remainder. */
  lemma HomeIsRemainder(key: Key, length: nat)
    requires Doubled(length)
    ensures Home(key, length) == key.hash % length
  {
    var n := DoubledIsPower(length);
    AndOnes(key.hash, n);
  }

  class HandleTable {
    var list: Buckets
    var elems: nat
    ghost var contents: map<Key, Id>

    ghost predicate Valid()
      reads this
    {
      Holds(list, contents) && elems == |contents| && Doubled(|list|)
    }

    constructor ()
      ensures Valid() && contents == map[]
    {
      list, elems, contents := [[], [], [], []], 0, map[];
    }

    /** Where a key is in its bucket; past the end of the chain when it is not there. */
    method FindPointer(key: Key) returns (b: nat, j: nat)
      requires Valid()
      ensures b == Home(key, |list|) < |list| && j <= |list[b]|
      ensures j < |list[b]| <==> key in contents
      ensures j < |list[b]| ==> list[b][j] == Slot(key, contents[key])
    {
      b, j := Home(key, |list|), 0;
      while j < |list[b]| && list[b][j].key != key
        invariant j <= |list[b]|
        invariant forall l :: 0 <= l < j ==> list[b][l].key != key
      {
        j := j + 1;
      }
      assert key in contents ==> Chained(list[b], key);
      assert j < |list[b]| ==> SlotOk(list, contents, b, j);
    }

    method Lookup(key: Key) returns (r: Option<Id>)
      requires Valid()
      ensures r == if key in contents then Some(contents[key]) else None
    {
      var b, j := FindPointer(key);
      r := if j < |list[b]| then Some(list[b][j].id) else None;
    }

    /** Files `id` under `key` and gives back what was there; buckets stay as many as entries. */
    method Insert(key: Key, id: Id) returns (old': Option<Id>)
      requires Valid() && |contents| <= |list|
      modifies this
      ensures Valid() && contents == old(contents)[key := id] && |contents| <= |list|
      ensures old' == if key in old(contents) then Some(old(contents)[key]) else None
      ensures |list| == old(|list|) || (|contents| == old(|list|) + 1 && |list| < 2 * |contents|)
    {
      var b, j := FindPointer(key);
      var chain := if j < |list[b]| then list[b][j := Slot(key, id)] else list[b] + [Slot(key, id)];
      assert Distinct(list[b]);
      if j == |list[b]| {
        NotChained(list, contents, key);
      }
      ghost var contents' := contents[key := id];
      assert key in contents ==> contents'.Keys == contents.Keys;
      assert key !in contents ==> contents'.Keys == contents.Keys + {key};
      ChainHolds(list, contents, b, j, key, id, chain);
      old' := if j < |list[b]| then Some(list[b][j].id) else None;
      list := list[b := chain];
      contents := contents';
      if old' == None {
        elems := elems + 1;
        if elems > |list| {
          Resize();
        }
      }
    }

    method Remove(key: Key) returns (result: Option<Id>)
      requires Valid()
      modifies `list, `elems, `contents
      ensures Valid() && contents == old(contents) - {key} && |list| == |old(list)|
      ensures result == if key in old(contents) then Some(old(contents)[key]) else None
    {
      var b, j := FindPointer(key);
      result := None;
      if j < |list[b]| {
        result := Some(list[b][j].id);
        UnlinkHolds(list, contents, b, j, key);
        list := list[b := list[b][..j] + list[b][j + 1..]];
        assert (contents - {key}).Keys == contents.Keys - {key};
        contents := contents - {key};
        elems := elems - 1;
      } else {
        assert contents - {key} == contents;
      }
    }

    /** Rehashes every chain into a table with at least as many buckets as entries. */
    method Resize()
      requires Valid()
      modifies `list
      ensures Valid() && |contents| <= |list| && (|list| > 4 ==> |list| < 2 * |contents|)
    {
      var newLength := 4;
      while newLength < elems
        invariant Doubled(newLength) && newLength >= 4 && (newLength > 4 ==> newLength < 2 * elems)
      {
        newLength := newLength * 2;
      }
      var newList: Buckets := seq(newLength, _ => []);
      var from := list;
      ghost var all, done: map<Key, Id> := contents, map[];
      for i := 0 to |from|
        invariant Holds(newList, done) && |newList| == newLength && Moved(from, all, done, i, 0)
      {
        newList, done := MoveChain(from, all, newList, done, i);
      }
      AllMoved(from, all, done);
      list := newList;
    }
  }

  method MoveChain(list: Buckets, ghost contents: map<Key, Id>, newList: Buckets, ghost done: map<Key, Id>, i: nat)
    returns (newList': Buckets, ghost done': map<Key, Id>)
    requires Holds(list, contents) && i < |list| && Holds(newList, done) && Moved(list, contents, done, i, 0)
    ensures Holds(newList', done') && |newList'| == |newList| && Moved(list, contents, done', i + 1, 0)
  {
    newList', done' := newList, done;
    for j := 0 to |list[i]|
      invariant Holds(newList', done') && |newList'| == |newList| && Moved(list, contents, done', i, j)
    {
      var s := list[i][j];
      NextToMove(list, contents, done', i, j);
      var b := Home(s.key, |newList'|);
      PushHolds(newList', done', s);
      newList' := newList'[b := [s] + newList'[b]];
      done' := done'[s.key := s.id];
    }
    ChainMoved(list, contents, done', i);
  }

  lemma PushHolds(list: Buckets, contents: map<Key, Id>, s: Slot)
    requires Holds(list, contents) && s.key !in contents
    ensures var b := Home(s.key, |list|); Holds(list[b := [s] + list[b]], contents[s.key := s.id])
  {
    var b := Home(s.key, |list|);
    NotChained(list, contents, s.key);
    assert Distinct(list[b]);
    assert ([s] + list[b])[0] == s;
    ReplaceChain(list, contents, b, [s] + list[b], contents[s.key := s.id], s.key);
  }

  /** Slots before position (i, j), chain by chain. */
  predicate Earlier(i: nat, j: nat, x: nat, y: nat) {
    x < i || (x == i && y < j)
  }

  ghost predicate Passed(list: Buckets, i: nat, j: nat, k: Key) {
    exists x, y :: 0 <= x < |list| && 0 <= y < |list[x]| && Earlier(i, j, x, y) && list[x][y].key == k
  }

  /** `done` maps exactly the keys passed so far, as `contents` does. */
  ghost predicate Moved(list: Buckets, contents: map<Key, Id>, done: map<Key, Id>, i: nat, j: nat) {
    && (forall k :: k in done ==> k in contents && done[k] == contents[k])
    && (forall k {:trigger Passed(list, i, j, k)} {:trigger k in done} :: k in done <==> Passed(list, i, j, k))
  }

  lemma NextToMove(list: Buckets, contents: map<Key, Id>, done: map<Key, Id>, i: nat, j: nat)
    requires Holds(list, contents) && i < |list| && j < |list[i]| && Moved(list, contents, done, i, j)
    ensures list[i][j].key !in done && Moved(list, contents, done[list[i][j].key := list[i][j].id], i, j + 1)
  {
    var s := list[i][j];
    var done' := done[s.key := s.id];
    assert SlotOk(list, contents, i, j);
    assert Distinct(list[i]);
    forall x, y | 0 <= x < |list| && 0 <= y < |list[x]| && Earlier(i, j, x, y) ensures list[x][y].key != s.key {
      assert SlotOk(list, contents, x, y);
    }
    forall k ensures Passed(list, i, j + 1, k) <==> Passed(list, i, j, k) || k == s.key {
      if Passed(list, i, j + 1, k) {
        var x, y :| 0 <= x < |list| && 0 <= y < |list[x]| && Earlier(i, j + 1, x, y) && list[x][y].key == k;
        assert Earlier(i, j, x, y) || (x == i && y == j);
      }
      if Passed(list, i, j, k) {
        var x, y :| 0 <= x < |list| && 0 <= y < |list[x]| && Earlier(i, j, x, y) && list[x][y].key == k;
        assert Earlier(i, j + 1, x, y);
      }
      assert Earlier(i, j + 1, i, j);
    }
    forall k ensures k in done' <==> Passed(list, i, j + 1, k) {
      assert Passed(list, i, j + 1, k) <==> Passed(list, i, j, k) || k == s.key;
    }
  }

  lemma ChainMoved(list: Buckets, contents: map<Key, Id>, done: map<Key, Id>, i: nat)
    requires i < |list| && Moved(list, contents, done, i, |list[i]|)
    ensures Moved(list, contents, done, i + 1, 0)
  {
    forall k ensures Passed(list, i + 1, 0, k) <==> Passed(list, i, |list[i]|, k) {
      if Passed(list, i + 1, 0, k) {
        var x, y :| 0 <= x < |list| && 0 <= y < |list[x]| && Earlier(i + 1, 0, x, y) && list[x][y].key == k;
        assert Earlier(i, |list[i]|, x, y);
      }
      if Passed(list, i, |list[i]|, k) {
        var x, y :| 0 <= x < |list| && 0 <= y < |list[x]| && Earlier(i, |list[i]|, x, y) && list[x][y].key == k;
        assert Earlier(i + 1, 0, x, y);
      }
    }
    forall k ensures k in done <==> Passed(list, i + 1, 0, k) {
      assert Passed(list, i + 1, 0, k) <==> Passed(list, i, |list[i]|, k);
    }
  }

  lemma AllMoved(list: Buckets, contents: map<Key, Id>, done: map<Key, Id>)
    requires Holds(list, contents) && Moved(list, contents, done, |list|, 0)
    ensures done == contents
  {
    forall k | k in contents ensures k in done {
      var b := Home(k, |list|);
      assert Chained(list[b], k);
      var y :| 0 <= y < |list[b]| && list[b][y].key == k;
      assert Earlier(|list|, 0, b, y);
      assert Passed(list, |list|, 0, k);
    }
  }

  lemma ChainHolds(list: Buckets, contents: map<Key, Id>, b: nat, j: nat, key: Key, id: Id, chain: seq<Slot>)
    requires Holds(list, contents) && b == Home(key, |list|) && j <= |list[b]|
    requires j < |list[b]| <==> key in contents
    requires j < |list[b]| ==> list[b][j].key == key
    requires chain == if j < |list[b]| then list[b][j := Slot(key, id)] else list[b] + [Slot(key, id)]
    ensures Holds(list[b := chain], contents[key := id])
  {
    assert Distinct(list[b]);
    if j == |list[b]| {
      NotChained(list, contents, key);
    }
    assert chain[j].key == key;
    ReplaceChain(list, contents, b, chain, contents[key := id], key);
  }

  lemma UnlinkHolds(list: Buckets, contents: map<Key, Id>, b: nat, j: nat, key: Key)
    requires Holds(list, contents) && b == Home(key, |list|) && j < |list[b]| && list[b][j].key == key
    ensures Holds(list[b := list[b][..j] + list[b][j + 1..]], contents - {key})
  {
    assert Distinct(list[b]);
    var chain := list[b][..j] + list[b][j + 1..];
    forall s | s in list[b] && s.key != key ensures s in chain {
      var l :| 0 <= l < |list[b]| && list[b][l] == s;
      assert l < j ==> chain[l] == s;
      assert l > j ==> chain[l - 1] == s;
    }
    ReplaceChain(list, contents, b, chain, contents - {key}, key);
  }
}
