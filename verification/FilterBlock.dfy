/** The filter block of a table: one filter for every 2 KB range of block offsets. */
module FilterBlock {
  import opened DbFormat
  import opened Coding
  import opened Bits
  import Bloom
  import Table

  const FILTER_BASE_LG := 11
  const FILTER_BASE := 2048

  /** A filter policy: the bytes made for some keys, and whether a key may be among those a filter was made for. */
  datatype Policy = Policy(create: seq<Bytes> -> Bytes, keyMayMatch: (Bytes, Bytes) -> bool)

  ghost predicate PolicyComplete(p: Policy) {
    forall keys: seq<Bytes>, key: Bytes {:trigger p.keyMayMatch(key, p.create(keys))} :: key in keys
        ==> p.keyMayMatch(key, p.create(keys))
  }

  lemma BloomIsComplete(p: Policy, hash: Bytes -> nat, bitsPerKey: nat)
    requires forall keys :: Bloom.IsFilter(p.create(keys), hash, keys, bitsPerKey)
    requires forall key, f :: p.keyMayMatch(key, f) == Bloom.MayMatch(hash, key, f)
    ensures PolicyComplete(p)
  {
    forall keys: seq<Bytes>, key: Bytes | key in keys ensures p.keyMayMatch(key, p.create(keys)) {
      Bloom.NoFalseNegatives(hash, keys, bitsPerKey, p.create(keys), key);
    }
  }

  // ---------------------------------------------------------------------------
  // Strings laid end to end
  // ---------------------------------------------------------------------------

  function Join(list: seq<Bytes>): Bytes {
    if list == [] then [] else Join(list[..|list| - 1]) + list[|list| - 1]
  }

  /** `start[i]` is where the i-th string begins. */
  ghost predicate Offsets(start: seq<nat>, list: seq<Bytes>) {
    && |start| == |list|
    && forall i: nat {:trigger BeginsAt(start, list, i)} :: i < |list| ==> BeginsAt(start, list, i)
  }

  ghost predicate BeginsAt(start: seq<nat>, list: seq<Bytes>, i: nat)
    requires i < |list| && i < |start|
  {
    start[i] == |Join(list[..i])|
  }

  lemma JoinSnoc(list: seq<Bytes>, s: Bytes)
    ensures Join(list + [s]) == Join(list) + s
  {
    assert (list + [s])[..|list|] == list;
  }

  lemma OffsetsSnoc(start: seq<nat>, list: seq<Bytes>, s: Bytes)
    requires Offsets(start, list)
    ensures Offsets(start + [|Join(list)|], list + [s])
  {
    var start', list' := start + [|Join(list)|], list + [s];
    forall i: nat | i < |list'| ensures BeginsAt(start', list', i) {
      assert list'[..i] == list[..i];
      assert list[..|list|] == list;
      assert i < |list| ==> BeginsAt(start, list, i);
    }
  }

  lemma {:induction false} JoinPrefix(list: seq<Bytes>, i: nat)
    requires i <= |list|
    ensures |Join(list[..i])| <= |Join(list)| && Join(list)[..|Join(list[..i])|] == Join(list[..i])
    decreases |list|
  {
    if i == |list| {
      assert list[..i] == list;
    } else {
      assert list[..|list| - 1][..i] == list[..i];
      JoinPrefix(list[..|list| - 1], i);
    }
  }

  /** The i-th string lies between the i-th offset and the next. */
  lemma JoinSlice(list: seq<Bytes>, i: nat)
    requires i < |list|
    ensures |Join(list[..i])| <= |Join(list[..i + 1])| <= |Join(list)|
    ensures Join(list)[|Join(list[..i])|..|Join(list[..i + 1])|] == list[i]
  {
    JoinPrefix(list, i + 1);
    assert list[..i + 1][..i] == list[..i];
    assert Join(list[..i + 1]) == Join(list[..i]) + list[i];
    var from, to := |Join(list[..i])|, |Join(list[..i + 1])|;
    assert Join(list)[from..to] == Join(list)[..to][from..];
  }

  // ---------------------------------------------------------------------------
  // Building
  // ---------------------------------------------------------------------------

  /** The keys added for block offsets in the i-th range, in order. */
  function KeysOf(log: seq<(nat, Bytes)>, i: nat): seq<Bytes> {
    if log == [] then []
    else KeysOf(log[..|log| - 1], i) + if log[|log| - 1].0 / FILTER_BASE == i then [log[|log| - 1].1] else []
  }

  /** An empty range has an empty filter. */
  function FilterFor(p: Policy, keys: seq<Bytes>): Bytes {
    if keys == [] then [] else p.create(keys)
  }

  lemma {:induction false} KeyIsListed(log: seq<(nat, Bytes)>, n: nat)
    requires n < |log|
    ensures log[n].1 in KeysOf(log, log[n].0 / FILTER_BASE)
  {
    if n < |log| - 1 {
      KeyIsListed(log[..|log| - 1], n);
    }
  }

  /** The keys of a range are those added at offsets in it. */
  lemma {:induction false} KeysOfRange(log: seq<(nat, Bytes)>, i: nat, key: Bytes)
    ensures key in KeysOf(log, i) <==> exists e :: e in log && e.1 == key && 2048 * i <= e.0 < 2048 * (i + 1)
  {
    if log != [] {
      var front, last := log[..|log| - 1], log[|log| - 1];
      KeysOfRange(front, i, key);
      assert log == front + [last];
      assert last.0 / FILTER_BASE == i <==> 2048 * i <= last.0 < 2048 * (i + 1);
    }
  }

  lemma {:induction false} NoKeysPast(log: seq<(nat, Bytes)>, i: nat)
    requires forall e :: e in log ==> e.0 / FILTER_BASE < i
    ensures KeysOf(log, i) == []
  {
    if log != [] {
      assert log[|log| - 1] in log;
      NoKeysPast(log[..|log| - 1], i);
    }
  }

  lemma KeysOfSnoc(log: seq<(nat, Bytes)>, e: (nat, Bytes), i: nat)
    ensures KeysOf(log + [e], i) == KeysOf(log, i) + if e.0 / FILTER_BASE == i then [e.1] else []
  {
    assert (log + [e])[..|log|] == log;
  }

  /** The filters of the ranges below the current one hold exactly the keys of their range. */
  ghost predicate FiltersOf(p: Policy, filters: seq<Bytes>, log: seq<(nat, Bytes)>) {
    forall i: nat {:trigger FilterHolds(p, filters, log, i)} :: i < |filters| ==> FilterHolds(p, filters, log, i)
  }

  ghost predicate FilterHolds(p: Policy, filters: seq<Bytes>, log: seq<(nat, Bytes)>, i: nat)
    requires i < |filters|
  {
    filters[i] == FilterFor(p, KeysOf(log, i))
  }

  function Words(ws: seq<nat>): Bytes {
    if ws == [] then [] else Words(ws[..|ws| - 1]) + EncodeFixed32(ws[|ws| - 1])
  }

  /** The finished block: the filters, where each begins, where the offsets begin, and the range size. */
  ghost predicate Layout(contents: Bytes, filters: seq<Bytes>, offsets: seq<nat>) {
    && Offsets(offsets, filters)
    && contents == Join(filters) + (Words(offsets) + EncodeFixed32(|Join(filters)|)) + [FILTER_BASE_LG]
  }

  /** `flat` is the strings of `list` end to end and `start` is where each begins. */
  ghost predicate Strings(flat: Bytes, start: seq<nat>, list: seq<Bytes>) {
    flat == Join(list) && Offsets(start, list)
  }

  lemma StringsSnoc(flat: Bytes, start: seq<nat>, list: seq<Bytes>, s: Bytes)
    requires Strings(flat, start, list)
    ensures Strings(flat + s, start + [|flat|], list + [s])
  {
    OffsetsSnoc(start, list, s);
    JoinSnoc(list, s);
  }

  /** The closed ranges have their filters, the current one its pending keys, and later ones nothing. */
  ghost predicate Logged(p: Policy, filters: seq<Bytes>, pending: seq<Bytes>, log: seq<(nat, Bytes)>) {
    && FiltersOf(p, filters, log) && pending == KeysOf(log, |filters|)
    && forall e :: e in log ==> e.0 / FILTER_BASE <= |filters|
  }

  lemma LogOneMore(p: Policy, filters: seq<Bytes>, pending: seq<Bytes>, log: seq<(nat, Bytes)>, at: nat, key: Bytes)
    requires Logged(p, filters, pending, log) && at / FILTER_BASE == |filters|
    ensures Logged(p, filters, pending + [key], log + [(at, key)])
  {
    var log' := log + [(at, key)];
    forall i: nat | i < |filters| ensures FilterHolds(p, filters, log', i) {
      assert FilterHolds(p, filters, log, i);
      KeysOfSnoc(log, (at, key), i);
      assert KeysOf(log, i) + [] == KeysOf(log, i);
    }
    KeysOfSnoc(log, (at, key), |filters|);
  }

  lemma CloseRange(p: Policy, filters: seq<Bytes>, pending: seq<Bytes>, log: seq<(nat, Bytes)>)
    requires Logged(p, filters, pending, log)
    ensures Logged(p, filters + [FilterFor(p, pending)], [], log)
  {
    NoKeysPast(log, |filters| + 1);
    var filters' := filters + [FilterFor(p, pending)];
    forall i: nat | i < |filters'| ensures FilterHolds(p, filters', log, i) {
      assert i < |filters| ==> FilterHolds(p, filters, log, i);
    }
  }

  /** With no key pending every key is in a closed range. */
  lemma NoPending(p: Policy, filters: seq<Bytes>, pending: seq<Bytes>, log: seq<(nat, Bytes)>)
    requires Logged(p, filters, pending, log)
    ensures pending == [] ==> forall e :: e in log ==> e.0 / FILTER_BASE < |filters|
  {
    if pending == [] {
      forall e | e in log ensures e.0 / FILTER_BASE != |filters| {
        var n :| 0 <= n < |log| && log[n] == e;
        KeyIsListed(log, n);
      }
    }
  }

  method MakeFilter(p: Policy, keys: Bytes, start: seq<nat>, ghost pending: seq<Bytes>) returns (filter: Bytes)
    requires Strings(keys, start, pending)
    ensures filter == FilterFor(p, pending)
  {
    filter := [];
    if |start| > 0 {
      var tmpKeys := ListKeys(keys, start, pending);
      filter := p.create(tmpKeys);
    }
  }

  method AppendFilter(offsets: seq<nat>, result: Bytes, ghost filters: seq<Bytes>, filter: Bytes)
    returns (offsets': seq<nat>, result': Bytes, ghost filters': seq<Bytes>)
    requires Strings(result, offsets, filters)
    ensures Strings(result', offsets', filters') && filters' == filters + [filter]
  {
    StringsSnoc(result, offsets, filters, filter);
    offsets', result', filters' := offsets + [|result|], result + filter, filters + [filter];
  }

  class FilterBlockBuilder {
    const policy: Policy
    var keys: Bytes
    var start: seq<nat>
    var result: Bytes
    var filterOffsets: seq<nat>
    /** Every key added, with the offset of the block it was added for. */
    ghost var log: seq<(nat, Bytes)>
    ghost var at: nat
    ghost var pending: seq<Bytes>
    ghost var filters: seq<Bytes>

    constructor (policy: Policy)
      ensures this.policy == policy && Valid() && log == [] && at == 0
    {
      this.policy := policy;
      keys, start, result, filterOffsets := [], [], [], [];
      log, at, pending, filters := [], 0, [], [];
    }

    ghost predicate Valid()
      reads this
    {
      && Strings(keys, start, pending) && Strings(result, filterOffsets, filters)
      && Logged(policy, filters, pending, log) && at / FILTER_BASE == |filters|
    }

    method StartBlock(blockOffset: nat)
      requires Valid() && blockOffset / FILTER_BASE >= |filterOffsets|
      modifies this
      ensures Valid() && at == blockOffset && log == old(log)
    {
      var filterIndex := blockOffset / FILTER_BASE;
      while filterIndex > |filterOffsets|
        invariant filterIndex >= |filterOffsets| && log == old(log)
        invariant Valid()
      {
        at := FILTER_BASE * (|filterOffsets| + 1);
        GenerateFilter();
      }
      at := blockOffset;
    }

    method AddKey(key: Bytes)
      requires Valid()
      modifies this
      ensures Valid() && at == old(at) && log == old(log) + [(at, key)]
    {
      StringsSnoc(keys, start, pending, key);
      LogOneMore(policy, filters, pending, log, at, key);
      start := start + [|keys|];
      keys := keys + key;
      log, pending := log + [(at, key)], pending + [key];
    }

    /** Close the current range. */
    method GenerateFilter()
      requires Strings(keys, start, pending) && Strings(result, filterOffsets, filters)
          && Logged(policy, filters, pending, log)
      modifies this`keys, this`start, this`result, this`filterOffsets, this`pending, this`filters
      ensures Strings(keys, start, pending) && Strings(result, filterOffsets, filters)
          && Logged(policy, filters, pending, log)
      ensures pending == [] && |filters| == old(|filters|) + 1
    {
      var filter := MakeFilter(policy, keys, start, pending);
      CloseRange(policy, filters, pending, log);
      filterOffsets, result, filters := AppendFilter(filterOffsets, result, filters, filter);
      keys, start, pending := [], [], [];
    }

    method Finish() returns (contents: Bytes)
      requires Valid()
      modifies this
      ensures log == old(log) && Layout(contents, filters, filterOffsets) && FiltersOf(policy, filters, log)
      ensures forall e :: e in log ==> e.0 / FILTER_BASE < |filters|
    {
      if start != [] {
        GenerateFilter();
      }
      NoPending(policy, filters, pending, log);
      contents := PutOffsets(result, filterOffsets, |result|);
    }
  }

  method PutOffsets(result: Bytes, filterOffsets: seq<nat>, arrayOffset: nat) returns (contents: Bytes)
    ensures contents == result + (Words(filterOffsets) + EncodeFixed32(arrayOffset)) + [FILTER_BASE_LG]
  {
    contents := result;
    for i := 0 to |filterOffsets|
      invariant contents == result + Words(filterOffsets[..i])
    {
      assert filterOffsets[..i + 1][..i] == filterOffsets[..i];
      contents := contents + EncodeFixed32(filterOffsets[i]);
    }
    assert filterOffsets[..|filterOffsets|] == filterOffsets;
    contents := contents + EncodeFixed32(arrayOffset);
    contents := contents + [FILTER_BASE_LG];
  }

  /** Cut the flattened keys apart again. */
  method ListKeys(keys: Bytes, start: seq<nat>, ghost pending: seq<Bytes>) returns (tmpKeys: seq<Bytes>)
    requires Strings(keys, start, pending)
    ensures tmpKeys == pending
  {
    tmpKeys := [];
    var ends := start + [|keys|];
    for i := 0 to |start|
      invariant tmpKeys == pending[..i]
    {
      JoinSlice(pending, i);
      assert BeginsAt(start, pending, i) && (i + 1 < |start| ==> BeginsAt(start, pending, i + 1));
      assert ends[i + 1] == |Join(pending[..i + 1])| by {
        assert pending[..|pending|] == pending;
      }
      tmpKeys := tmpKeys + [keys[ends[i]..ends[i + 1]]];
    }
  }

  // ---------------------------------------------------------------------------
  // Reading
  // ---------------------------------------------------------------------------

  datatype FilterBlockReader = Reader(data: Bytes, offset: nat, num: nat, baseLg: nat)

  ghost predicate ReaderOk(r: FilterBlockReader) {
    r.num > 0 ==> r.offset + 4 * r.num + 4 <= |r.data|
  }

  function OpenFilter(contents: Bytes): (r: FilterBlockReader)
    ensures ReaderOk(r)
  {
    var n := |contents|;
    if n < 5 then Reader(contents, 0, 0, 0)
    else
      var lastWord := DecodeFixed32(contents[n - 5..]);
      if lastWord > n - 5 then Reader(contents, 0, 0, contents[n - 1])
      else Reader(contents, lastWord, (n - 5 - lastWord) / 4, contents[n - 1])
  }

  function WordAt(r: FilterBlockReader, i: nat): nat
    requires r.offset + 4 * i + 4 <= |r.data|
  {
    DecodeFixed32(r.data[r.offset + 4 * i..])
  }

  /** The filter between two words of the offset array. */
  predicate MatchBetween(p: Policy, r: FilterBlockReader, start: nat, limit: nat, key: Bytes)
    requires r.offset <= |r.data|
  {
    if start <= limit && limit <= r.offset then p.keyMayMatch(key, r.data[start..limit])
    else if start == limit then false
    else true
  }

  predicate MatchRange(p: Policy, r: FilterBlockReader, index: nat, key: Bytes)
    requires ReaderOk(r)
  {
    index < r.num ==> MatchBetween(p, r, WordAt(r, index), WordAt(r, index + 1), key)
  }

  predicate KeyMayMatch(p: Policy, r: FilterBlockReader, blockOffset: nat, key: Bytes)
    requires ReaderOk(r)
  {
    MatchRange(p, r, ShiftRight(blockOffset, r.baseLg), key)
  }

  lemma {:induction false} WordsLength(ws: seq<nat>)
    ensures |Words(ws)| == 4 * |ws|
  {
    if ws != [] {
      WordsLength(ws[..|ws| - 1]);
    }
  }

  lemma {:induction false} WordsAt(ws: seq<nat>, i: nat)
    requires i < |ws|
    ensures |Words(ws)| == 4 * |ws| && Words(ws)[4 * i..4 * i + 4] == EncodeFixed32(ws[i])
  {
    WordsLength(ws);
    WordsLength(ws[..|ws| - 1]);
    if i < |ws| - 1 {
      WordsAt(ws[..|ws| - 1], i);
    }
  }

  lemma ReadWord(b: Bytes, at: nat, v: nat)
    requires at + 4 <= |b| && b[at..at + 4] == EncodeFixed32(v) && v < TWO32
    ensures DecodeFixed32(b[at..]) == v
  {
    assert b[at..][..4] == b[at..at + 4];
    Fixed32RoundTrip(v, []);
    assert EncodeFixed32(v) + [] == EncodeFixed32(v);
    assert EncodeFixed32(v)[..4] == EncodeFixed32(v);
  }

  lemma SliceOfMiddle(a: Bytes, b: Bytes, c: Bytes, lo: nat, hi: nat)
    requires lo <= hi <= |b|
    ensures (a + b + c)[|a| + lo..|a| + hi] == b[lo..hi]
  {
  }

  lemma SliceOfFirst(a: Bytes, b: Bytes, c: Bytes, lo: nat, hi: nat)
    requires lo <= hi <= |a|
    ensures (a + b + c)[lo..hi] == a[lo..hi]
  {
  }

  /** Opening a finished block finds its filters. */
  lemma OpenFinished(contents: Bytes, filters: seq<Bytes>, offsets: seq<nat>)
    requires Layout(contents, filters, offsets) && |Join(filters)| < TWO32
    ensures OpenFilter(contents) == Reader(contents, |Join(filters)|, |filters|, FILTER_BASE_LG)
  {
    var n, a := |contents|, Join(filters);
    var words := offsets + [|a|];
    assert words[..|offsets|] == offsets;
    WordsAt(words, |offsets|);
    SliceOfMiddle(a, Words(words), [FILTER_BASE_LG], 4 * |offsets|, 4 * |offsets| + 4);
    assert n == |a| + 4 * |filters| + 5;
    ReadWord(contents, n - 5, |a|);
  }

  /** The i-th word of the offset array is where the i-th filter begins, and the word after the last is
      where the last one ends. */
  lemma OffsetWord(contents: Bytes, filters: seq<Bytes>, offsets: seq<nat>, i: nat)
    requires Layout(contents, filters, offsets) && |Join(filters)| < TWO32 && i <= |filters|
    ensures |contents| == |Join(filters)| + 4 * |filters| + 5
    ensures DecodeFixed32(contents[|Join(filters)| + 4 * i..]) == |Join(filters[..i])|
  {
    var a := Join(filters);
    var words := offsets + [|a|];
    assert words[..|offsets|] == offsets;
    WordsAt(words, i);
    SliceOfMiddle(a, Words(words), [FILTER_BASE_LG], 4 * i, 4 * i + 4);
    assert filters[..|filters|] == filters;
    assert i < |filters| ==> BeginsAt(offsets, filters, i);
    JoinPrefix(filters, i);
    ReadWord(contents, |a| + 4 * i, |Join(filters[..i])|);
  }

  /** Asking about a block is asking the policy about the filter of the block's range. */
  lemma AsksTheRange(p: Policy, contents: Bytes, filters: seq<Bytes>, offsets: seq<nat>, blockOffset: nat, key: Bytes)
    requires Layout(contents, filters, offsets) && |Join(filters)| < TWO32
    ensures var i := blockOffset / FILTER_BASE;
      KeyMayMatch(p, OpenFilter(contents), blockOffset, key)
          == if i < |filters| then p.keyMayMatch(key, filters[i]) else true
  {
    OpenFinished(contents, filters, offsets);
    ShiftIsRange(blockOffset);
    RangeFilter(p, contents, filters, offsets, blockOffset / FILTER_BASE, key);
  }

  lemma RangeFilter(p: Policy, contents: Bytes, filters: seq<Bytes>, offsets: seq<nat>, i: nat, key: Bytes)
    requires Layout(contents, filters, offsets) && |Join(filters)| < TWO32
    requires ReaderOk(Reader(contents, |Join(filters)|, |filters|, FILTER_BASE_LG))
    ensures MatchRange(p, Reader(contents, |Join(filters)|, |filters|, FILTER_BASE_LG), i, key)
         == if i < |filters| then p.keyMayMatch(key, filters[i]) else true
  {
    if i < |filters| {
      OffsetWord(contents, filters, offsets, i);
      OffsetWord(contents, filters, offsets, i + 1);
      FilterSlice(contents, filters, offsets, i);
    }
  }

  lemma FilterSlice(contents: Bytes, filters: seq<Bytes>, offsets: seq<nat>, i: nat)
    requires Layout(contents, filters, offsets) && i < |filters|
    ensures |Join(filters[..i])| <= |Join(filters[..i + 1])| <= |Join(filters)| <= |contents|
    ensures contents[|Join(filters[..i])|..|Join(filters[..i + 1])|] == filters[i]
  {
    JoinSlice(filters, i);
    SliceOfFirst(Join(filters), Words(offsets) + EncodeFixed32(|Join(filters)|), [FILTER_BASE_LG], |Join(filters[..i])|,
        |Join(filters[..i + 1])|);
  }

  lemma ShiftIsRange(n: nat)
    ensures ShiftRight(n, FILTER_BASE_LG) == n / FILTER_BASE
  {
    assert ShiftRight(n, 4) == n / 16;
    assert ShiftRight(n, 11) == ShiftRight(n / 16 / 16, 3);
  }

  /** A key added for a block always matches at that block's offset. */
  lemma FilterIsComplete(p: Policy, contents: Bytes, filters: seq<Bytes>, offsets: seq<nat>, log: seq<(nat, Bytes)>,
      n: nat)
    requires PolicyComplete(p) && Layout(contents, filters, offsets) && |Join(filters)| < TWO32
    requires FiltersOf(p, filters, log) && n < |log|
    ensures KeyMayMatch(p, OpenFilter(contents), log[n].0, log[n].1)
  {
    var i := log[n].0 / FILTER_BASE;
    AsksTheRange(p, contents, filters, offsets, log[n].0, log[n].1);
    if i < |filters| {
      KeyIsListed(log, n);
      assert FilterHolds(p, filters, log, i);
      assert p.keyMayMatch(log[n].1, p.create(KeysOf(log, i)));
    }
  }

  /** The filter block of a table, each of whose blocks had its user keys added at its offset, is one the
      table's point lookup may rely on. */
  lemma FilterForTable(p: Policy, contents: Bytes, filters: seq<Bytes>, offsets: seq<nat>, log: seq<(nat, Bytes)>,
      t: Table.Table, at: seq<nat>)
    requires PolicyComplete(p) && Layout(contents, filters, offsets) && |Join(filters)| < TWO32
        && FiltersOf(p, filters, log)
    requires |at| == |t.blocks|
    requires forall b, i :: 0 <= b < |t.blocks| && 0 <= i < |t.blocks[b]| ==> (at[b], t.blocks[b][i].key.user) in log
    ensures Table.FilterComplete(t, (b: nat, key) => b < |at| ==> KeyMayMatch(p, OpenFilter(contents), at[b], key))
  {
    forall b, i | 0 <= b < |t.blocks| && 0 <= i < |t.blocks[b]|
      ensures KeyMayMatch(p, OpenFilter(contents), at[b], t.blocks[b][i].key.user)
    {
      var n :| 0 <= n < |log| && log[n] == (at[b], t.blocks[b][i].key.user);
      FilterIsComplete(p, contents, filters, offsets, log, n);
    }
  }
}
