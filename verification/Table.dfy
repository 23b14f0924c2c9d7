/** Tables: sorted blocks under a sparse index of shortened keys, read through a two-level cursor. */
module Table {
  import opened DbFormat
  import opened Separator

  datatype Pair = Pair(key: IKey, value: Bytes)

  type Block = seq<Pair>

  ghost predicate SortedPairs(ps: seq<Pair>) {
    forall i, j {:trigger KeyLess(ps[i].key, ps[j].key)} :: 0 <= i < j < |ps| ==> KeyLess(ps[i].key, ps[j].key)
  }

  /** Where `key` belongs in a sorted run: the index of the first pair at or after it. */
  function FirstAtOrAfter(ps: seq<Pair>, key: IKey): (i: nat)
    ensures i <= |ps|
  {
    FirstFrom(ps, key, 0)
  }

  function FirstFrom(ps: seq<Pair>, key: IKey, n: nat): (i: nat)
    requires n <= |ps|
    ensures n <= i <= |ps|
    decreases |ps| - n
  {
    if n == |ps| || !KeyLess(ps[n].key, key) then n else FirstFrom(ps, key, n + 1)
  }

  lemma {:induction false} FirstFromIsFirst(ps: seq<Pair>, key: IKey, n: nat, j: nat)
    requires n <= j < |ps|
    ensures var i := FirstFrom(ps, key, n); (j < i ==> KeyLess(ps[j].key, key)) && (j == i ==> !KeyLess(ps[j].key, key))
    decreases |ps| - n
  {
    if n < |ps| && KeyLess(ps[n].key, key) && n < j {
      FirstFromIsFirst(ps, key, n + 1, j);
    } else if n < |ps| && KeyLess(ps[n].key, key) {
      assert FirstFrom(ps, key, n) == FirstFrom(ps, key, n + 1);
    }
  }

  /** Pairs before the place found are before the key, and the one at it is not. */
  lemma FirstIsFirst(ps: seq<Pair>, key: IKey, j: nat)
    requires j < |ps|
    ensures var i := FirstAtOrAfter(ps, key);
            (j < i ==> KeyLess(ps[j].key, key)) && (j == i ==> !KeyLess(ps[j].key, key))
  {
    FirstFromIsFirst(ps, key, 0, j);
  }

  lemma FirstIsUnique(ps: seq<Pair>, key: IKey, i: nat)
    requires SortedPairs(ps) && i <= |ps|
    requires forall j {:trigger KeyLess(ps[j].key, key)} :: 0 <= j < i ==> KeyLess(ps[j].key, key)
    requires i < |ps| ==> !KeyLess(ps[i].key, key)
    ensures FirstAtOrAfter(ps, key) == i
  {
    var f := FirstAtOrAfter(ps, key);
    if f < |ps| {
      FirstIsFirst(ps, key, f);
    }
    if i < |ps| {
      FirstIsFirst(ps, key, i);
    }
  }

  // ---------------------------------------------------------------------------
  // Blocks end to end
  // ---------------------------------------------------------------------------

  /** The pairs of the first `n` blocks. */
  function Flat(blocks: seq<Block>, n: nat): seq<Pair>
    requires n <= |blocks|
  {
    if n == 0 then [] else Flat(blocks, n - 1) + blocks[n - 1]
  }

  /** How many pairs come before block `n`. */
  function Offset(blocks: seq<Block>, n: nat): nat
    requires n <= |blocks|
  {
    |Flat(blocks, n)|
  }

  function All(blocks: seq<Block>): seq<Pair> {
    Flat(blocks, |blocks|)
  }

  lemma {:induction false} FlatPrefix(blocks: seq<Block>, m: nat, n: nat)
    requires m <= n <= |blocks|
    ensures Offset(blocks, m) <= Offset(blocks, n) && Flat(blocks, n)[..Offset(blocks, m)] == Flat(blocks, m)
  {
    if m < n {
      FlatPrefix(blocks, m, n - 1);
    }
  }

  /** Pair `p` of block `b` in the whole. */
  lemma FlatAt(blocks: seq<Block>, b: nat, p: nat)
    requires b < |blocks| && p < |blocks[b]|
    ensures Offset(blocks, b) + p < Offset(blocks, b + 1) <= |All(blocks)|
    ensures All(blocks)[Offset(blocks, b) + p] == blocks[b][p]
  {
    FlatPrefix(blocks, b + 1, |blocks|);
    assert Flat(blocks, b + 1)[Offset(blocks, b) + p] == blocks[b][p];
  }

  lemma {:induction false} FlatAgrees(blocks: seq<Block>, more: seq<Block>, n: nat)
    requires n <= |blocks| && blocks <= more
    ensures Flat(more, n) == Flat(blocks, n)
  {
    if n > 0 {
      FlatAgrees(blocks, more, n - 1);
    }
  }

  /** Where in the blocks a pair of the whole is. */
  lemma {:induction false} FindBlock(blocks: seq<Block>, n: nat, m: nat) returns (b: nat, p: nat)
    requires n <= |blocks| && m < Offset(blocks, n)
    ensures b < n && p < |blocks[b]| && m == Offset(blocks, b) + p
  {
    if m < Offset(blocks, n - 1) {
      b, p := FindBlock(blocks, n - 1, m);
    } else {
      b, p := n - 1, m - Offset(blocks, n - 1);
    }
  }

  // ---------------------------------------------------------------------------
  // The table and its index
  // ---------------------------------------------------------------------------

  /** `index[b]` is the key under which block `b` is listed. */
  datatype Table = Table(blocks: seq<Block>, index: seq<IKey>)

  /** Each index key is at or after every key up to its block's end and before every later one; a later
      block that starts with the index key's own user key does not occur unless the index key is the
      last key of its block. */
  ghost predicate IndexOk(t: Table) {
    && |t.index| == |t.blocks| && SortedPairs(All(t.blocks))
    && forall b {:trigger Listed(t, b)} :: 0 <= b < |t.blocks| ==> Listed(t, b)
  }

  ghost predicate Listed(t: Table, b: nat)
    requires b < |t.blocks| == |t.index|
  {
    && t.blocks[b] != []
    && Separates(t.index[b], t.blocks[b][|t.blocks[b]| - 1].key,
                 if b + 1 < |t.blocks| && t.blocks[b + 1] != [] then Some(t.blocks[b + 1][0].key) else None)
  }

  lemma ListingOf(t: Table, b: nat)
    requires IndexOk(t) && b < |t.blocks|
    ensures Listed(t, b)
  {
  }

  lemma KeyLessTransitive(a: IKey, b: IKey, c: IKey)
    requires KeyLess(a, b) && KeyLess(b, c)
    ensures KeyLess(a, c)
  {
  }

  lemma NotLessThanEarlier(sep: IKey, last: IKey, k: IKey)
    requires !KeyLess(sep, last) && KeyLess(k, last)
    ensures !KeyLess(sep, k) && KeyLess(k, sep)
  {
  }

  lemma LessThanLater(sep: IKey, next: IKey, k: IKey)
    requires KeyLess(sep, next) && KeyLess(next, k)
    ensures KeyLess(sep, k) && Rank(next.user) <= Rank(k.user)
  {
  }

  lemma SepBounds(sep: IKey, last: IKey, next: Option<IKey>)
    requires Separates(sep, last, next) && (next.Some? ==> KeyLess(last, next.value))
    ensures !KeyLess(sep, last) && (next.Some? ==> KeyLess(sep, next.value))
    ensures next.Some? && sep != last ==> Rank(sep.user) < Rank(next.value.user)
  {
  }

  /** Keys up to the end of block `b` are at or before its index key. */
  lemma IndexAfter(t: Table, b: nat, m: nat)
    requires IndexOk(t) && b < |t.blocks| && m < Offset(t.blocks, b + 1)
    ensures m < |All(t.blocks)| && !KeyLess(t.index[b], All(t.blocks)[m].key)
  {
    ListingOf(t, b);
    var last := |t.blocks[b]| - 1;
    FlatAt(t.blocks, b, last);
    SepBounds(t.index[b], t.blocks[b][last].key, None);
    if m < Offset(t.blocks, b) + last {
      NotLessThanEarlier(t.index[b], t.blocks[b][last].key, All(t.blocks)[m].key);
    }
  }

  /** Later keys are after it; and their user keys are too, unless it is the last key of its block. */
  lemma IndexBefore(t: Table, b: nat, m: nat)
    requires IndexOk(t) && b < |t.blocks| && Offset(t.blocks, b + 1) <= m < |All(t.blocks)|
    ensures KeyLess(t.index[b], All(t.blocks)[m].key)
    ensures t.blocks[b] != []
    ensures t.index[b] != t.blocks[b][|t.blocks[b]| - 1].key ==> Rank(t.index[b].user) < Rank(All(t.blocks)[m].key.user)
  {
    ListingOf(t, b);
    ListingOf(t, b + 1);
    var all, last := All(t.blocks), |t.blocks[b]| - 1;
    FlatAt(t.blocks, b, last);
    FlatAt(t.blocks, b + 1, 0);
    var next := all[Offset(t.blocks, b + 1)].key;
    SepBounds(t.index[b], t.blocks[b][last].key, Some(next));
    if Offset(t.blocks, b + 1) < m {
      LessThanLater(t.index[b], next, all[m].key);
    }
  }

  // ---------------------------------------------------------------------------
  // Building
  // ---------------------------------------------------------------------------

  /** The first key after block `b`: in the next block, or in the one being filled. */
  function NextKey(blocks: seq<Block>, data: Block, b: nat): Option<IKey>
    requires b < |blocks|
  {
    var next := if b + 1 < |blocks| then blocks[b + 1] else data;
    if next == [] then None else Some(next[0].key)
  }

  predicate SeparatesAt(blocks: seq<Block>, data: Block, index: seq<IKey>, b: nat)
    requires b < |blocks| && b < |index|
  {
    blocks[b] != [] && Separates(index[b], blocks[b][|blocks[b]| - 1].key, NextKey(blocks, data, b))
  }

  /** Blocks written, the block being filled, and the index so far. The index entry of the last block
      written waits for the key that will follow it. */
  ghost predicate Building(blocks: seq<Block>, data: Block, index: seq<IKey>, lastKey: IKey, pending: bool) {
    && |index| == |blocks| - (if pending then 1 else 0)
    && (pending ==> data == []) && (data == [] ==> pending || blocks == [])
    && (forall b :: 0 <= b < |blocks| ==> blocks[b] != [])
    && (forall b {:trigger SeparatesAt(blocks, data, index, b)} ::
        0 <= b < |index| ==> SeparatesAt(blocks, data, index, b))
    && var all := All(blocks) + data;
       SortedPairs(all) && (all != [] ==> lastKey == all[|all| - 1].key)
  }

  lemma {:induction false} LastOfAll(blocks: seq<Block>)
    requires blocks != [] && blocks[|blocks| - 1] != []
    ensures var (all, last) := (All(blocks), blocks[|blocks| - 1]); all != [] && all[|all| - 1] == last[|last| - 1]
  {
  }

  /** The waiting index entry, made when the next key is known. */
  lemma IndexKeeps(blocks: seq<Block>, index: seq<IKey>, lastKey: IKey, sep: IKey, pair: Pair)
    requires Building(blocks, [], index, lastKey, true) && Separates(sep, lastKey, Some(pair.key))
    ensures forall b {:trigger SeparatesAt(blocks, [pair], index + [sep], b)} ::
        0 <= b < |blocks| ==> SeparatesAt(blocks, [pair], index + [sep], b)
  {
    LastOfAll(blocks);
    assert All(blocks) + [] == All(blocks);
    forall b | 0 <= b < |blocks| ensures SeparatesAt(blocks, [pair], index + [sep], b) {
      assert b < |index| ==> SeparatesAt(blocks, [], index, b);
    }
  }

  lemma AppendSorted(all: seq<Pair>, pair: Pair)
    requires SortedPairs(all) && (all != [] ==> KeyLess(all[|all| - 1].key, pair.key))
    ensures SortedPairs(all + [pair])
  {
    forall i, j | 0 <= i < j < |all| + 1 ensures KeyLess((all + [pair])[i].key, (all + [pair])[j].key) {
      if j == |all| && i < |all| - 1 {
        KeyLessTransitive(all[i].key, all[|all| - 1].key, pair.key);
      }
    }
  }

  /** A key joins the block being filled, whose first key stays the same. */
  lemma AddKeeps(blocks: seq<Block>, data: Block, index: seq<IKey>, lastKey: IKey, pair: Pair)
    requires Building(blocks, data, index, lastKey, false) && data != []
    requires KeyLess(lastKey, pair.key)
    ensures Building(blocks, data + [pair], index, pair.key, false)
  {
    AppendSorted(All(blocks) + data, pair);
    assert All(blocks) + (data + [pair]) == All(blocks) + data + [pair];
    forall b | 0 <= b < |index| ensures SeparatesAt(blocks, data + [pair], index, b) {
      assert SeparatesAt(blocks, data, index, b);
    }
  }

  lemma AddFirst(blocks: seq<Block>, index: seq<IKey>, lastKey: IKey, pending: bool, sep: IKey, pair: Pair)
    requires Building(blocks, [], index, lastKey, pending)
    requires All(blocks) != [] ==> KeyLess(lastKey, pair.key)
    requires pending ==> Separates(sep, lastKey, Some(pair.key))
    ensures Building(blocks, [pair], if pending then index + [sep] else index, pair.key, false)
  {
    assert All(blocks) + [] == All(blocks);
    AppendSorted(All(blocks), pair);
    if pending {
      IndexKeeps(blocks, index, lastKey, sep, pair);
    }
  }

  lemma FlushKeeps(blocks: seq<Block>, data: Block, index: seq<IKey>, lastKey: IKey)
    requires Building(blocks, data, index, lastKey, false) && data != []
    ensures Building(blocks + [data], [], index, lastKey, true) && All(blocks + [data]) == All(blocks) + data
  {
    FlatAgrees(blocks, blocks + [data], |blocks|);
    forall b | 0 <= b < |index| ensures SeparatesAt(blocks + [data], [], index, b) {
      assert SeparatesAt(blocks, data, index, b);
    }
    assert All(blocks + [data]) + [] == All(blocks) + data;
  }

  lemma FinishIsOk(blocks: seq<Block>, index: seq<IKey>, lastKey: IKey, pending: bool, sep: IKey)
    requires Building(blocks, [], index, lastKey, pending) && (pending ==> Separates(sep, lastKey, None))
    ensures IndexOk(Table(blocks, if pending then index + [sep] else index))
  {
    var t := Table(blocks, if pending then index + [sep] else index);
    assert All(blocks) + [] == All(blocks);
    if pending {
      LastOfAll(blocks);
    }
    forall b | 0 <= b < |t.blocks| ensures Listed(t, b) {
      assert b < |index| ==> SeparatesAt(blocks, [], index, b);
    }
  }

  class TableBuilder {
    /** When a block counts as full. */
    const blockSize: nat
    const estimate: Block -> nat
    var blocks: seq<Block>
    var data: Block
    var index: seq<IKey>
    var lastKey: IKey
    var pendingIndexEntry: bool
    var closed: bool

    ghost predicate Valid()
      reads this
    {
      !closed ==> Building(blocks, data, index, lastKey, pendingIndexEntry)
    }

    ghost function Contents(): seq<Pair>
      reads this
    {
      All(blocks) + data
    }

    constructor (blockSize: nat, estimate: Block -> nat)
      ensures Valid() && Contents() == [] && !closed
    {
      this.blockSize, this.estimate := blockSize, estimate;
      blocks, data, index, lastKey, pendingIndexEntry, closed := [], [], [], IKey([], 0, Deletion), false, false;
    }

    method Add(key: IKey, value: Bytes)
      requires Valid() && !closed && (Contents() != [] ==> KeyLess(Contents()[|Contents()| - 1].key, key))
      modifies this
      ensures Valid() && !closed && Contents() == old(Contents()) + [Pair(key, value)]
      ensures var full := old(data) + [Pair(key, value)];
              if estimate(full) >= blockSize then blocks == old(blocks) + [full] && data == []
              else blocks == old(blocks) && data == full
      ensures if old(pendingIndexEntry)
              then |index| == |old(index)| + 1 && index[..|old(index)|] == old(index)
                   && ShortSeparator(index[|old(index)|], old(lastKey), key)
              else index == old(index)
    {
      ghost var (was, wasIndex, wasPending) := (lastKey, index, pendingIndexEntry);
      var pair := Pair(key, value);
      assert All(blocks) + (data + [pair]) == All(blocks) + data + [pair];
      assert All(blocks) + [] == All(blocks) && [] + [pair] == [pair];
      if pendingIndexEntry {
        lastKey := InternalSeparator(lastKey, key);
        index := index + [lastKey];
        pendingIndexEntry := false;
      }
      if data == [] {
        AddFirst(blocks, wasIndex, was, wasPending, lastKey, pair);
      } else {
        AddKeeps(blocks, data, index, was, pair);
      }
      lastKey := key;
      data := data + [pair];
      if estimate(data) >= blockSize {
        Flush();
      }
    }

    method Flush()
      requires Valid() && !closed
      modifies `blocks, `data, `pendingIndexEntry
      ensures Valid() && Contents() == old(Contents()) && data == []
      ensures old(data) != [] ==> pendingIndexEntry
      ensures old(data) == [] ==> pendingIndexEntry == old(pendingIndexEntry)
      ensures blocks == if old(data) == [] then old(blocks) else old(blocks) + [old(data)]
    {
      if data == [] {
        return;
      }
      FlushKeeps(blocks, data, index, lastKey);
      assert All(blocks + [data]) + [] == All(blocks) + data;
      blocks := blocks + [data];
      data := [];
      pendingIndexEntry := true;
    }

    /** The table holds exactly the pairs added, in order, under an index that can be searched. */
    method Finish() returns (t: Table)
      requires Valid() && !closed
      modifies this
      ensures closed && IndexOk(t) && All(t.blocks) == old(Contents())
      ensures t.blocks == if old(data) == [] then old(blocks) else old(blocks) + [old(data)]
      ensures if old(data) != [] || old(pendingIndexEntry)
              then |t.index| == |old(index)| + 1 && t.index[..|old(index)|] == old(index)
                   && ShortSuccessor(t.index[|old(index)|], old(lastKey))
              else t.index == old(index)
    {
      Flush();
      assert All(blocks) + [] == All(blocks);
      closed := true;
      ghost var was, wasIndex, wasPending := lastKey, index, pendingIndexEntry;
      if pendingIndexEntry {
        lastKey := InternalSuccessor(lastKey);
        index := index + [lastKey];
        pendingIndexEntry := false;
      }
      FinishIsOk(blocks, wasIndex, was, wasPending, lastKey);
      t := Table(blocks, index);
    }
  }

  // ---------------------------------------------------------------------------
  // Reading
  // ---------------------------------------------------------------------------

  /** The first index key at or after `key`. */
  function IndexSeek(index: seq<IKey>, key: IKey): (i: nat)
    ensures i <= |index|
  {
    IndexFrom(index, key, 0)
  }

  function IndexFrom(index: seq<IKey>, key: IKey, n: nat): (i: nat)
    requires n <= |index|
    ensures n <= i <= |index|
    decreases |index| - n
  {
    if n == |index| || !KeyLess(index[n], key) then n else IndexFrom(index, key, n + 1)
  }

  lemma {:induction false} IndexFromIsFirst(index: seq<IKey>, key: IKey, n: nat, j: nat)
    requires n <= j < |index|
    ensures var i := IndexFrom(index, key, n);
            (j < i ==> KeyLess(index[j], key)) && (j == i ==> !KeyLess(index[j], key))
    decreases |index| - n
  {
    if n < |index| && KeyLess(index[n], key) && n < j {
      IndexFromIsFirst(index, key, n + 1, j);
    } else if n < |index| && KeyLess(index[n], key) {
      assert IndexFrom(index, key, n) == IndexFrom(index, key, n + 1);
    }
  }

  lemma IndexSeekIsFirst(index: seq<IKey>, key: IKey, j: nat)
    requires j < |index|
    ensures var i := IndexSeek(index, key); (j < i ==> KeyLess(index[j], key)) && (j == i ==> !KeyLess(index[j], key))
  {
    IndexFromIsFirst(index, key, 0, j);
  }

  lemma LessThanSought(k: IKey, sep: IKey, key: IKey)
    requires !KeyLess(sep, k) && KeyLess(sep, key)
    ensures KeyLess(k, key)
  {
  }

  lemma SoughtIsBefore(key: IKey, sep: IKey, k: IKey)
    requires !KeyLess(sep, key) && KeyLess(sep, k)
    ensures !KeyLess(k, key)
  {
  }

  /** Everything in the blocks the index search skips is before the sought key. */
  lemma SkippedBlocks(t: Table, key: IKey, m: nat)
    requires IndexOk(t) && m < Offset(t.blocks, IndexSeek(t.index, key))
    ensures m < |All(t.blocks)| && KeyLess(All(t.blocks)[m].key, key)
  {
    var b, p := FindBlock(t.blocks, IndexSeek(t.index, key), m);
    FlatAt(t.blocks, b, p);
    IndexAfter(t, b, m);
    IndexSeekIsFirst(t.index, key, b);
    LessThanSought(All(t.blocks)[m].key, t.index[b], key);
  }

  lemma BeforeInBlock(t: Table, key: IKey, k: nat)
    requires IndexOk(t)
    requires var i := IndexSeek(t.index, key);
             k < Offset(t.blocks, i) + if i < |t.blocks| then FirstAtOrAfter(t.blocks[i], key) else 0
    ensures k < |All(t.blocks)| && KeyLess(All(t.blocks)[k].key, key)
  {
    var i := IndexSeek(t.index, key);
    if k < Offset(t.blocks, i) {
      SkippedBlocks(t, key, k);
    } else {
      FirstIsFirst(t.blocks[i], key, k - Offset(t.blocks, i));
      FlatAt(t.blocks, i, k - Offset(t.blocks, i));
    }
  }

  lemma AtInBlock(t: Table, key: IKey)
    requires IndexOk(t) && IndexSeek(t.index, key) < |t.blocks|
    ensures var i := IndexSeek(t.index, key);
            var m := Offset(t.blocks, i) + FirstAtOrAfter(t.blocks[i], key);
            m < |All(t.blocks)| ==> !KeyLess(All(t.blocks)[m].key, key)
  {
    var all, i := All(t.blocks), IndexSeek(t.index, key);
    var p := FirstAtOrAfter(t.blocks[i], key);
    var m := Offset(t.blocks, i) + p;
    if p < |t.blocks[i]| {
      FirstIsFirst(t.blocks[i], key, p);
      FlatAt(t.blocks, i, p);
    } else if m < |all| {
      IndexSeekIsFirst(t.index, key, i);
      IndexBefore(t, i, m);
      SoughtIsBefore(key, t.index[i], all[m].key);
    }
  }

  /** The search in the block the index points to finds the place in the whole. */
  lemma SeekInBlock(t: Table, key: IKey)
    requires IndexOk(t)
    ensures var i := IndexSeek(t.index, key);
            FirstAtOrAfter(All(t.blocks), key) ==
              Offset(t.blocks, i) + if i < |t.blocks| then FirstAtOrAfter(t.blocks[i], key) else 0
  {
    var i := IndexSeek(t.index, key);
    var m := Offset(t.blocks, i) + if i < |t.blocks| then FirstAtOrAfter(t.blocks[i], key) else 0;
    if i < |t.blocks| {
      FlatPrefix(t.blocks, i + 1, |t.blocks|);
      AtInBlock(t, key);
    }
    forall k | 0 <= k < m ensures k < |All(t.blocks)| && KeyLess(All(t.blocks)[k].key, key) {
      BeforeInBlock(t, key, k);
    }
    FirstIsUnique(All(t.blocks), key, m);
  }

  function LastIn(block: Block): nat {
    if block == [] then 0 else |block| - 1
  }

  /** A cursor over all pairs of a table, holding one open block at a time. */
  class TwoLevelIterator {
    const t: Table
    /** The index cursor; past the end when not valid. */
    var indexPos: nat
    /** The open block and the cursor in it. */
    var data: Option<(nat, nat)>
    ghost var at: nat

    constructor (t: Table)
      requires IndexOk(t)
      ensures Valid() && this.t == t && at == |All(t.blocks)|
    {
      this.t, indexPos, data, at := t, |t.index|, None, |All(t.blocks)|;
    }

    ghost predicate Valid()
      reads this
    {
      && IndexOk(t) && indexPos <= |t.index|
      && (data.None? ==> at == |All(t.blocks)|)
      && (data.Some? ==>
           && data.value.0 == indexPos < |t.index| && data.value.1 < |t.blocks[indexPos]|
           && at == Offset(t.blocks, indexPos) + data.value.1)
    }

    function Current(): (pair: Pair)
      requires Valid() && data.Some?
      reads this
      ensures at < |All(t.blocks)| && pair == All(t.blocks)[at]
    {
      FlatAt(t.blocks, indexPos, data.value.1);
      t.blocks[data.value.0][data.value.1]
    }

    /** Opens the block the index cursor is on, unless it is the one already open. */
    method InitDataBlock()
      requires IndexOk(t) && indexPos <= |t.index|
      modifies `data
      ensures data.Some? <==> indexPos < |t.index|
      ensures data.Some? ==> data.value.0 == indexPos
    {
      if indexPos == |t.index| {
        data := None;
      } else if data.Some? && data.value.0 == indexPos {
      } else {
        data := Some((indexPos, |t.blocks[indexPos]|));
      }
    }

    method SkipEmptyDataBlocksForward(ghost m: nat)
      requires IndexOk(t) && indexPos <= |t.index|
      requires data.None? ==> indexPos == |t.index| && m == |All(t.blocks)|
      requires data.Some? ==> data.value.0 == indexPos < |t.index| && data.value.1 <= |t.blocks[indexPos]|
      requires data.Some? ==> m == Offset(t.blocks, indexPos) + data.value.1
      modifies this
      ensures Valid() && at == m
    {
      while data == None || data.value.1 == |t.blocks[data.value.0]|
        invariant indexPos <= |t.index|
        invariant data.None? ==> indexPos == |t.index| && m == |All(t.blocks)|
        invariant data.Some? ==> data.value.0 == indexPos < |t.index| && data.value.1 <= |t.blocks[indexPos]|
        invariant data.Some? ==> m == Offset(t.blocks, indexPos) + data.value.1
        decreases |t.index| - indexPos
      {
        if indexPos == |t.index| {
          break;
        }
        indexPos := indexPos + 1;
        InitDataBlock();
        if data.Some? {
          data := Some((data.value.0, 0));
        }
      }
      at := m;
    }

    method SkipEmptyDataBlocksBackward(ghost m: int)
      requires IndexOk(t) && indexPos <= |t.index|
      requires data.None? ==> indexPos == |t.index| && m == -1
      requires data.Some? ==> data.value.0 == indexPos < |t.index| && data.value.1 <= |t.blocks[indexPos]|
      requires data.Some? ==>
          m == Offset(t.blocks, indexPos) + (if data.value.1 < |t.blocks[indexPos]| then data.value.1 else -1)
      modifies this
      ensures Valid() && at == if m < 0 then |All(t.blocks)| else m
    {
      while data == None || data.value.1 == |t.blocks[data.value.0]|
        invariant indexPos <= |t.index|
        invariant data.None? ==> indexPos == |t.index| && m == -1
        invariant data.Some? ==> data.value.0 == indexPos < |t.index| && data.value.1 <= |t.blocks[indexPos]|
        invariant data.Some? ==>
            m == Offset(t.blocks, indexPos) + (if data.value.1 < |t.blocks[indexPos]| then data.value.1 else -1)
        decreases if indexPos < |t.index| then indexPos + 1 else 0
      {
        if indexPos == |t.index| {
          break;
        }
        indexPos := if indexPos == 0 then |t.index| else indexPos - 1;
        InitDataBlock();
        if data.Some? {
          ListingOf(t, indexPos);
          data := Some((data.value.0, LastIn(t.blocks[data.value.0])));
        }
      }
      at := if m < 0 then |All(t.blocks)| else m;
    }

    method Seek(target: IKey)
      requires Valid()
      modifies this
      ensures Valid() && at == FirstAtOrAfter(All(t.blocks), target)
    {
      indexPos := IndexSeek(t.index, target);
      InitDataBlock();
      SeekInBlock(t, target);
      if data.Some? {
        data := Some((data.value.0, FirstAtOrAfter(t.blocks[data.value.0], target)));
      }
      SkipEmptyDataBlocksForward(FirstAtOrAfter(All(t.blocks), target));
    }

    method SeekToFirst()
      requires Valid()
      modifies this
      ensures Valid() && at == 0
    {
      indexPos := 0;
      InitDataBlock();
      if data.Some? {
        data := Some((data.value.0, 0));
      }
      SkipEmptyDataBlocksForward(0);
    }

    method SeekToLast()
      requires Valid()
      modifies this
      ensures Valid() && at == if All(t.blocks) == [] then 0 else |All(t.blocks)| - 1
    {
      indexPos := if |t.index| == 0 then 0 else |t.index| - 1;
      InitDataBlock();
      if data.Some? {
        ListingOf(t, indexPos);
        data := Some((data.value.0, LastIn(t.blocks[data.value.0])));
      }
      SkipEmptyDataBlocksBackward(|All(t.blocks)| - 1);
    }

    method Next()
      requires Valid() && data.Some?
      modifies this
      ensures Valid() && at == old(at) + 1
    {
      data := Some((data.value.0, data.value.1 + 1));
      SkipEmptyDataBlocksForward(at + 1);
    }

    method Prev()
      requires Valid() && data.Some?
      modifies this
      ensures Valid() && at == if old(at) == 0 then |All(t.blocks)| else old(at) - 1
    {
      data := Some((data.value.0, if data.value.1 == 0 then |t.blocks[data.value.0]| else data.value.1 - 1));
      SkipEmptyDataBlocksBackward(at as int - 1);
    }
  }

  // ---------------------------------------------------------------------------
  // Point lookup
  // ---------------------------------------------------------------------------

  /** A filter that never rejects a user key stored in the block it is asked about. */
  ghost predicate FilterComplete(t: Table, keyMayMatch: (nat, Bytes) -> bool) {
    forall b, p :: 0 <= b < |t.blocks| && 0 <= p < |t.blocks[b]| ==> keyMayMatch(b, t.blocks[b][p].key.user)
  }

  lemma SoughtUserIsBefore(key: IKey, sep: IKey, k: IKey)
    requires !KeyLess(sep, key) && Rank(sep.user) < Rank(k.user)
    ensures key.user != k.user
  {
  }

  /** What the search of one block says about the whole: the same pair, or that the sought user key does
      not come first after it. */
  lemma LookupInBlock(t: Table, key: IKey)
    requires IndexOk(t)
    ensures var (b, m) := (IndexSeek(t.index, key), FirstAtOrAfter(All(t.blocks), key));
            if b == |t.blocks| then m == |All(t.blocks)|
            else
              var p := FirstAtOrAfter(t.blocks[b], key);
              if p < |t.blocks[b]| then m < |All(t.blocks)| && All(t.blocks)[m] == t.blocks[b][p]
              else m < |All(t.blocks)| ==> All(t.blocks)[m].key.user != key.user
  {
    var b, m := IndexSeek(t.index, key), FirstAtOrAfter(All(t.blocks), key);
    SeekInBlock(t, key);
    if b < |t.blocks| {
      var p := FirstAtOrAfter(t.blocks[b], key);
      if p < |t.blocks[b]| {
        FlatAt(t.blocks, b, p);
      } else if m < |All(t.blocks)| {
        NoSuchUserPastBlock(t, key);
      }
    }
  }

  lemma NoSuchUserPastBlock(t: Table, key: IKey)
    requires IndexOk(t) && IndexSeek(t.index, key) < |t.blocks|
    requires var b := IndexSeek(t.index, key);
             FirstAtOrAfter(t.blocks[b], key) == |t.blocks[b]| && Offset(t.blocks, b + 1) < |All(t.blocks)|
    ensures var b := IndexSeek(t.index, key); All(t.blocks)[Offset(t.blocks, b + 1)].key.user != key.user
  {
    var b := IndexSeek(t.index, key);
    var m := Offset(t.blocks, b + 1);
    ListingOf(t, b);
    var last := t.blocks[b][|t.blocks[b]| - 1].key;
    IndexBefore(t, b, m);
    IndexSeekIsFirst(t.index, key, b);
    FirstIsFirst(t.blocks[b], key, |t.blocks[b]| - 1);
    assert KeyLess(last, key) && t.index[b] != last;
    SoughtUserIsBefore(key, t.index[b], All(t.blocks)[m].key);
  }

  /** Table::InternalGet: the pair handed to the caller, if any. It is of the sought user key exactly when
      the first pair at or after `key` in the whole table is, and then it is that pair. */
  method InternalGet(t: Table, key: IKey, keyMayMatch: Option<(nat, Bytes) -> bool>) returns (r: Option<Pair>)
    requires IndexOk(t) && (keyMayMatch.Some? ==> FilterComplete(t, keyMayMatch.value))
    ensures var m := FirstAtOrAfter(All(t.blocks), key);
            if m < |All(t.blocks)| && All(t.blocks)[m].key.user == key.user then r == Some(All(t.blocks)[m])
            else r.Some? ==> r.value.key.user != key.user
  {
    r := None;
    var b := IndexSeek(t.index, key);
    LookupInBlock(t, key);
    if b < |t.index| {
      if keyMayMatch.Some? && !keyMayMatch.value(b, key.user) {
      } else {
        var p := FirstAtOrAfter(t.blocks[b], key);
        if p < |t.blocks[b]| {
          r := Some(t.blocks[b][p]);
        }
      }
    }
  }
}
