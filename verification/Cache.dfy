/** One shard of the LRU cache: reference-counted handles, two lists and the hash table, kept in step by
  every operation. */
module Cache {
  import opened DbFormat
  import opened HandleTable

  /** LRUHandle. */
  datatype Handle = Handle(key: Key, value: nat, charge: nat, refs: nat, inCache: bool)

  type Handles = map<Id, Handle>

  // ---------------------------------------------------------------------------
  // Lists
  // ---------------------------------------------------------------------------

  predicate NoDup(s: seq<Id>) {
    forall i, j :: 0 <= i < j < |s| ==> s[i] != s[j]
  }

  /** LRU_Remove: the list without `e`. */
  function Without(s: seq<Id>, e: Id): (r: seq<Id>)
    ensures forall x :: x in r <==> x in s && x != e
  {
    if s == [] then []
    else
      assert forall x :: x in s <==> x == s[0] || x in s[1..];
      if s[0] == e then Without(s[1..], e) else [s[0]] + Without(s[1..], e)
  }

  lemma {:induction false} WithoutNoDup(s: seq<Id>, e: Id)
    requires NoDup(s)
    ensures NoDup(Without(s, e)) && (e !in s ==> Without(s, e) == s)
    ensures s != [] && s[0] == e ==> Without(s, e) == s[1..]
  {
    if s != [] {
      WithoutNoDup(s[1..], e);
      assert s[0] !in s[1..];
    }
  }

  /** The list is in the order in which its entries were last released, all before `clock`. */
  ghost predicate Ascends(lru: seq<Id>, released: map<Id, nat>, clock: nat) {
    && (forall x :: x in lru ==> x in released) && (forall x :: x in released ==> released[x] < clock)
    && forall i, j :: 0 <= i < j < |lru| ==> released[lru[i]] < released[lru[j]]
  }

  lemma {:induction false} WithoutAscends(s: seq<Id>, e: Id, released: map<Id, nat>, clock: nat)
    requires Ascends(s, released, clock)
    ensures Ascends(Without(s, e), released, clock)
  {
    if s != [] {
      WithoutAscends(s[1..], e, released, clock);
      assert forall x :: x in s[1..] ==> released[s[0]] < released[x];
    }
  }

  /** Released again, an entry is the newest. */
  lemma ReleasedLast(lru: seq<Id>, e: Id, released: map<Id, nat>, clock: nat)
    requires Ascends(lru, released, clock)
    ensures Ascends(Without(lru, e), released[e := clock], clock + 1)
    ensures Ascends(Without(lru, e) + [e], released[e := clock], clock + 1)
  {
    WithoutAscends(lru, e, released, clock);
    assert forall x :: x in Without(lru, e) ==> x != e;
    assert forall i :: 0 <= i < |Without(lru, e)| ==> Without(lru, e)[i] in Without(lru, e);
  }

  function ChargeOf(handles: Handles, e: Id): nat {
    if e in handles then handles[e].charge else 0
  }

  function Total(handles: Handles, s: seq<Id>): nat {
    if s == [] then 0 else ChargeOf(handles, s[0]) + Total(handles, s[1..])
  }

  lemma {:induction false} TotalSame(handles: Handles, handles': Handles, s: seq<Id>)
    requires forall e :: e in s ==> ChargeOf(handles', e) == ChargeOf(handles, e)
    ensures Total(handles', s) == Total(handles, s)
  {
    if s != [] {
      TotalSame(handles, handles', s[1..]);
    }
  }

  lemma {:induction false} TotalWithout(handles: Handles, s: seq<Id>, e: Id)
    requires NoDup(s)
    ensures Total(handles, Without(s, e)) == Total(handles, s) - if e in s then ChargeOf(handles, e) else 0
  {
    if s != [] {
      TotalWithout(handles, s[1..], e);
      if s[0] == e {
        WithoutNoDup(s[1..], e);
      } else {
        assert e in s <==> e in s[1..];
        assert ([s[0]] + Without(s[1..], e))[1..] == Without(s[1..], e);
      }
    }
  }

  lemma {:induction false} TotalAppend(handles: Handles, s: seq<Id>, e: Id)
    ensures Total(handles, s + [e]) == Total(handles, s) + ChargeOf(handles, e)
    ensures e in handles ==> Total(handles, s + [e]) == Total(handles, s) + handles[e].charge
  {
    if s != [] {
      assert (s + [e])[1..] == s[1..] + [e];
      TotalAppend(handles, s[1..], e);
    } else {
      assert s + [e] == [e];
    }
  }

  // ---------------------------------------------------------------------------
  // State and invariant
  // ---------------------------------------------------------------------------

  /** `outstanding` counts the handles clients hold and `deleted` lists the entries passed to their
      deleters, in order; ids from `next` on have not been allocated. */
  datatype State = State(handles: Handles, lru: seq<Id>, inUse: seq<Id>, usage: int,
                         outstanding: map<Id, nat>, deleted: seq<Id>, next: Id)

  /** A handle's references are those of clients, and the cache's own. */
  predicate RefsOk(st: State, e: Id)
    requires e in st.handles
  {
    && e in st.outstanding && st.handles[e].refs > 0
    && st.handles[e].refs == st.outstanding[e] + if st.handles[e].inCache then 1 else 0
  }

  /** A cached entry is on the list its count says; any other is on neither. */
  predicate ListedOk(st: State, e: Id) {
    && (e in st.lru <==> e in st.handles && st.handles[e].inCache && st.handles[e].refs == 1)
    && (e in st.inUse <==> e in st.handles && st.handles[e].inCache && st.handles[e].refs >= 2)
  }

  /** Allocated and not yet deleted, or deleted once, or never allocated. */
  predicate LifeOk(st: State, e: Id) {
    && (e in st.handles <==> e < st.next && e !in st.deleted)
    && (e in st.deleted ==> e < st.next)
  }

  /** The table names exactly the cached entries, save one that has just left the table. */
  ghost predicate TableOk(st: State, table: map<Key, Id>, leaving: Option<Id>) {
    && (forall k :: k in table ==>
          table[k] in st.handles && st.handles[table[k]].inCache && st.handles[table[k]].key == k
              && leaving != Some(table[k]))
    && (forall e :: e in st.handles && st.handles[e].inCache && leaving != Some(e) ==>
          st.handles[e].key in table && table[st.handles[e].key] == e)
    && (leaving.Some? ==> leaving.value in st.handles && st.handles[leaving.value].inCache)
  }

  // ---------------------------------------------------------------------------
  // What the operations do
  // ---------------------------------------------------------------------------

  /** Another reference: an entry in the cache that nobody used goes to the in-use list. */
  function Refed(st: State, e: Id): State
    requires e in st.handles
  {
    var h := st.handles[e];
    var st' := if h.refs == 1 && h.inCache then
                 st.(lru := Without(st.lru, e), inUse := Without(st.inUse, e) + [e])
               else st;
    st'.(handles := st.handles[e := h.(refs := h.refs + 1)])
  }

  /** One reference less: the last one deletes the entry, and the last but the cache's own makes it the
      newest that may be evicted. */
  function Unrefed(st: State, e: Id): State
    requires e in st.handles && st.handles[e].refs > 0
  {
    var h := st.handles[e];
    if h.refs == 1 then
      st.(handles := st.handles - {e}, outstanding := st.outstanding - {e}, deleted := st.deleted + [e])
    else if h.inCache && h.refs == 2 then
      st.(handles := st.handles[e := h.(refs := 1)], lru := Without(st.lru, e) + [e], inUse := Without(st.inUse, e))
    else st.(handles := st.handles[e := h.(refs := h.refs - 1)])
  }

  function Uncached(st: State, e: Id): State
    requires e in st.handles
  {
    st.(lru := Without(st.lru, e), inUse := Without(st.inUse, e), usage := st.usage - st.handles[e].charge,
        handles := st.handles[e := st.handles[e].(inCache := false)])
  }

  function Count(st: State, e: Id, n: nat): State {
    st.(outstanding := st.outstanding[e := n])
  }

  // ----- a step touches one entry -----

  predicate SameAt(st: State, st': State, x: Id) {
    && (x in st'.handles <==> x in st.handles) && (x in st.handles ==> st'.handles[x] == st.handles[x])
    && (x in st'.outstanding <==> x in st.outstanding)
        && (x in st.outstanding ==> st'.outstanding[x] == st.outstanding[x])
    && (x in st'.lru <==> x in st.lru) && (x in st'.inUse <==> x in st.inUse) && (x in st'.deleted <==> x in st.deleted)
    && (x < st'.next <==> x < st.next)
  }

  predicate EntryOk(st: State, x: Id) {
    ListedOk(st, x) && LifeOk(st, x) && (x in st.handles <==> x in st.outstanding)
        && (x in st.handles ==> RefsOk(st, x))
  }

  /** The lists and the usage they add up to. */
  predicate ListsOk(st: State) {
    && NoDup(st.lru) && NoDup(st.inUse) && NoDup(st.deleted)
    && st.usage == Total(st.handles, st.lru) + Total(st.handles, st.inUse)
  }

  ghost predicate Inv(st: State, table: map<Key, Id>, leaving: Option<Id>) {
    (forall x {:trigger EntryOk(st, x)} :: EntryOk(st, x)) && ListsOk(st) && TableOk(st, table, leaving)
  }

  lemma OthersOk(st: State, st': State, e: Id)
    requires forall x {:trigger EntryOk(st, x)} :: EntryOk(st, x)
    requires forall x {:trigger SameAt(st, st', x)} :: x != e ==> SameAt(st, st', x)
    requires EntryOk(st', e)
    ensures forall x {:trigger EntryOk(st', x)} :: EntryOk(st', x)
  {
    forall x ensures EntryOk(st', x) {
      assert EntryOk(st, x);
      assert x != e ==> SameAt(st, st', x);
    }
  }

  /** Moving `e` between the lists keeps them free of duplicates and their charges. */
  lemma MovedLists(st: State, st': State, e: Id)
    requires ListsOk(st) && st'.usage == st.usage && st'.deleted == st.deleted
    requires forall x :: ChargeOf(st'.handles, x) == ChargeOf(st.handles, x)
    requires (st'.lru == st.lru && st'.inUse == st.inUse)
          || (e in st.lru && e !in st.inUse && st'.lru == Without(st.lru, e) && st'.inUse == Without(st.inUse, e) + [e])
          || (e in st.inUse && e !in st.lru && st'.lru == Without(st.lru, e) + [e] && st'.inUse == Without(st.inUse, e))
    ensures ListsOk(st')
  {
    WithoutNoDup(st.lru, e);
    WithoutNoDup(st.inUse, e);
    TotalWithout(st.handles, st.lru, e);
    TotalWithout(st.handles, st.inUse, e);
    TotalAppend(st.handles, Without(st.lru, e), e);
    TotalAppend(st.handles, Without(st.inUse, e), e);
    TotalSame(st.handles, st'.handles, st'.lru);
    TotalSame(st.handles, st'.handles, st'.inUse);
  }

  /** `e` off both lists, its charge returned, and perhaps deleted. */
  lemma LeftLists(st: State, st': State, e: Id)
    requires ListsOk(st) && e in st.handles && !(e in st.lru && e in st.inUse)
    requires forall x :: x != e ==> ChargeOf(st'.handles, x) == ChargeOf(st.handles, x)
    requires st'.lru == Without(st.lru, e) && st'.inUse == Without(st.inUse, e)
    requires st'.usage == st.usage - if e in st.lru || e in st.inUse then st.handles[e].charge else 0
    requires st'.deleted == st.deleted || (e !in st.deleted && st'.deleted == st.deleted + [e])
    ensures ListsOk(st')
  {
    WithoutNoDup(st.lru, e);
    WithoutNoDup(st.inUse, e);
    TotalWithout(st.handles, st.lru, e);
    TotalWithout(st.handles, st.inUse, e);
    TotalSame(st.handles, st'.handles, st'.lru);
    TotalSame(st.handles, st'.handles, st'.inUse);
  }

  lemma HitIsCached(st: State, table: map<Key, Id>, key: Key)
    requires Inv(st, table, None) && key in table
    ensures table[key] in st.handles && table[key] in st.outstanding && st.handles[table[key]].key == key
  {
    assert EntryOk(st, table[key]);
  }

  lemma LookupKeepsInv(st: State, table: map<Key, Id>, e: Id)
    requires Inv(st, table, None) && e in st.handles
    ensures e in st.outstanding && Inv(Count(Refed(st, e), e, st.outstanding[e] + 1), table, None)
  {
    assert EntryOk(st, e);
    var st' := Count(Refed(st, e), e, st.outstanding[e] + 1);
    MovedLists(st, st', e);
    OthersOk(st, st', e);
  }

  /** A hit: the handle is of the key, and the order of the unused entries that stay is kept. */
  lemma HitKeeps(st: State, table: map<Key, Id>, key: Key, released: map<Id, nat>, clock: nat)
    requires Inv(st, table, None) && key in table && Ascends(st.lru, released, clock)
    ensures table[key] in st.handles && table[key] in st.outstanding
    ensures var e := table[key];
            var st' := Count(Refed(st, e), e, st.outstanding[e] + 1);
            && Inv(st', table, None) && Ascends(st'.lru, released, clock)
            && st'.handles[e].key == key && st'.handles[e].value == st.handles[e].value
  {
    HitIsCached(st, table, key);
    LookupKeepsInv(st, table, table[key]);
    WithoutAscends(st.lru, table[key], released, clock);
  }

  /** A client gives a handle back. */
  lemma ReleaseKeepsInv(st: State, table: map<Key, Id>, e: Id)
    requires Inv(st, table, None) && e in st.outstanding && st.outstanding[e] > 0
    ensures e in st.handles && st.handles[e].refs > 0
        && Inv(Unrefed(Count(st, e, st.outstanding[e] - 1), e), table, None)
  {
    assert EntryOk(st, e);
    var st' := Unrefed(Count(st, e, st.outstanding[e] - 1), e);
    if st.handles[e].refs == 1 {
      LastReleaseKeepsInv(st, table, e);
    } else {
      MovedLists(st, st', e);
      OthersOk(st, st', e);
    }
  }

  lemma LastReleaseKeepsInv(st: State, table: map<Key, Id>, e: Id)
    requires Inv(st, table, None) && e in st.handles && e in st.outstanding && st.outstanding[e] == 1
        && st.handles[e].refs == 1
    ensures Inv(Unrefed(Count(st, e, 0), e), table, None)
  {
    assert EntryOk(st, e);
    var st' := Unrefed(Count(st, e, 0), e);
    WithoutNoDup(st.lru, e);
    WithoutNoDup(st.inUse, e);
    LeftLists(st, st', e);
    OthersOk(st, st', e);
  }

  /** FinishErase on an entry already out of the table. */
  lemma EraseKeepsInv(st: State, table: map<Key, Id>, e: Id)
    requires Inv(st, table, Some(e))
    ensures st.handles[e].refs > 0 && Inv(Unrefed(Uncached(st, e), e), table, None)
  {
    assert EntryOk(st, e);
    var st' := Unrefed(Uncached(st, e), e);
    LeftLists(st, st', e);
    OthersOk(st, st', e);
  }

  function Allocated(st: State, h: Handle): State {
    st.(handles := st.handles[st.next := h], outstanding := st.outstanding[st.next := 1], next := st.next + 1)
  }

  function Inserted(st: State, h: Handle): State {
    Allocated(st, h).(inUse := st.inUse + [st.next], usage := st.usage + h.charge)
  }

  lemma AllocateKeepsInv(st: State, table: map<Key, Id>, h: Handle)
    requires Inv(st, table, None) && h.refs == 1 && !h.inCache
    ensures Inv(Allocated(st, h), table, None)
  {
    var st' := Allocated(st, h);
    assert EntryOk(st, st.next);
    TotalSame(st.handles, st'.handles, st.lru);
    TotalSame(st.handles, st'.handles, st.inUse);
    OthersOk(st, st', st.next);
  }

  /** A new entry, filed in the table in place of what was there. */
  lemma InsertKeepsInv(st: State, table: map<Key, Id>, h: Handle)
    requires Inv(st, table, None) && h.refs == 2 && h.inCache
    ensures Inv(Inserted(st, h), table[h.key := st.next], if h.key in table then Some(table[h.key]) else None)
  {
    var st' := Inserted(st, h);
    assert EntryOk(st, st.next);
    TotalSame(st.handles, st'.handles, st.lru);
    TotalSame(st.handles, st'.handles, st.inUse);
    TotalAppend(st'.handles, st.inUse, st.next);
    OthersOk(st, st', st.next);
  }

  // ---------------------------------------------------------------------------
  // What clients and the table see
  // ---------------------------------------------------------------------------

  predicate SameEntry(h: Handle, h': Handle) {
    h'.key == h.key && h'.value == h.value && h'.charge == h.charge
  }

  /** No handle a client holds is deleted or changed. */
  ghost predicate ClientsKept(st: State, st': State) {
    forall x {:trigger x in st.outstanding} :: x in st.outstanding && st.outstanding[x] > 0 && x in st.handles ==>
      && x in st'.outstanding && st'.outstanding[x] == st.outstanding[x]
      && x in st'.handles && SameEntry(st.handles[x], st'.handles[x])
  }

  /** Taking a cached entry nobody uses out of the cache deletes it and shortens the LRU list at its front. */
  lemma EvictOldest(st: State, table: map<Key, Id>)
    requires Inv(st, table, None) && st.lru != []
    ensures var e := st.lru[0];
            && e in st.handles && st.handles[e].key in table && table[st.handles[e].key] == e
            && Inv(st, table - {st.handles[e].key}, Some(e))
            && st.handles[e].refs == 1
            && var st' := Unrefed(Uncached(st, e), e);
               && st'.lru == st.lru[1..] && st'.inUse == st.inUse && st'.usage == st.usage - st.handles[e].charge
               && st'.deleted == st.deleted + [e] && ClientsKept(st, st')
  {
    var e := st.lru[0];
    assert EntryOk(st, e);
    WithoutNoDup(st.lru, e);
    WithoutNoDup(st.inUse, e);
  }

  lemma EraseKeepsClients(st: State, table: map<Key, Id>, e: Id)
    requires Inv(st, table, Some(e)) && st.handles[e].refs > 0
    ensures ClientsKept(st, Unrefed(Uncached(st, e), e))
  {
    assert EntryOk(st, e);
  }

  /** From `st1` the `n` oldest unused entries went, and nothing else. */
  ghost predicate Gone(st1: State, st2: State, n: nat) {
    && n <= |st1.lru| && st2.lru == st1.lru[n..] && st2.inUse == st1.inUse
    && st2.deleted == st1.deleted + st1.lru[..n] && ClientsKept(st1, st2)
  }

  /** No more of them than it took. */
  ghost predicate Evicted(st1: State, st2: State, n: nat, capacity: nat) {
    && Gone(st1, st2, n)
    && (n > 0 ==> st2.usage + ChargeOf(st1.handles, st1.lru[n - 1]) > capacity)
    && (forall x :: x in st2.lru ==> ChargeOf(st2.handles, x) == ChargeOf(st1.handles, x))
  }

  lemma NoneGone(st: State)
    ensures Gone(st, st, 0)
  {
    assert st.lru[0..] == st.lru && st.deleted + st.lru[..0] == st.deleted;
  }

  lemma GoneOneMore(st1: State, st2: State, table: map<Key, Id>, n: nat, e: Id)
    requires Gone(st1, st2, n) && Inv(st2, table, None) && st2.lru != [] && e == st2.lru[0]
    ensures e in st2.handles && st2.handles[e].refs == 1 && Gone(st1, Unrefed(Uncached(st2, e), e), n + 1)
  {
    EvictOldest(st2, table);
    KeptTwice(st1, st2, Unrefed(Uncached(st2, e), e));
    assert st1.lru[n] == e && st1.lru[..n] + [e] == st1.lru[..n + 1];
    assert st1.deleted + st1.lru[..n] + [e] == st1.deleted + (st1.lru[..n] + [e]);
  }

  lemma InUseStays(st: State, table: map<Key, Id>, key: Key, e: Id)
    requires Inv(st, table, None) && st.lru != [] && e in st.inUse && key in table && table[key] == e
    ensures st.lru[0] in st.handles && st.handles[st.lru[0]].key != key
  {
    assert EntryOk(st, st.lru[0]) && EntryOk(st, e);
  }

  lemma EvictedOneMore(st1: State, st2: State, table: map<Key, Id>, n: nat, capacity: nat, e: Id)
    requires Evicted(st1, st2, n, capacity) && Inv(st2, table, None) && st2.lru != [] && e == st2.lru[0]
        && st2.usage > capacity
    ensures e in st2.handles && st2.handles[e].refs == 1 && Evicted(st1, Unrefed(Uncached(st2, e), e), n + 1, capacity)
  {
    GoneOneMore(st1, st2, table, n, e);
    EvictOldest(st2, table);
    var st3 := Unrefed(Uncached(st2, e), e);
    forall x | x in st3.lru ensures ChargeOf(st3.handles, x) == ChargeOf(st1.handles, x) {
      assert x in st2.lru && x != e;
    }
  }

  lemma LeavesOrder(st: State, e: Id)
    requires e in st.handles && st.handles[e].refs > 0
    ensures Unrefed(Uncached(st, e), e).lru == Without(st.lru, e)
  {
  }

  /** A handle given back: an entry it leaves unused is the newest of the list. */
  lemma ReleaseAscends(st: State, table: map<Key, Id>, e: Id, released: map<Id, nat>, clock: nat)
    requires Inv(st, table, None) && e in st.outstanding && st.outstanding[e] > 0 && Ascends(st.lru, released, clock)
    ensures e in st.handles && st.handles[e].refs > 0
    ensures var st' := Unrefed(Count(st, e, st.outstanding[e] - 1), e);
            && Ascends(st'.lru, released[e := clock], clock + 1)
            && (e in st'.lru <==> st.outstanding[e] == 1 && st.handles[e].inCache)
  {
    assert EntryOk(st, e);
    ReleasedLast(st.lru, e, released, clock);
    WithoutNoDup(st.lru, e);
  }

  /** The front of the list was released before the rest. */
  lemma OldestFirst(lru: seq<Id>, n: nat, released: map<Id, nat>, clock: nat)
    requires Ascends(lru, released, clock) && n <= |lru|
    ensures forall x, y :: x in lru[..n] && y in lru[n..] ==>
              x in released && y in released && released[x] < released[y]
  {
    forall x, y | x in lru[..n] && y in lru[n..] ensures x in released && y in released && released[x] < released[y] {
      var i :| 0 <= i < n && lru[i] == x;
      var j :| 0 <= j < |lru| - n && lru[n..][j] == y;
      assert lru[n + j] == y;
    }
  }

  // ---------------------------------------------------------------------------
  // The cache
  // ---------------------------------------------------------------------------

  class LRUCache {
    const table: HandleTable
    const capacity: nat
    var handles: Handles
    var lru: seq<Id>
    var inUse: seq<Id>
    var usage: int
    var next: Id
    ghost var outstanding: map<Id, nat>
    ghost var deleted: seq<Id>
    /** When a client last gave back a handle on the entry, on a clock that ticks at each release. */
    ghost var released: map<Id, nat>
    ghost var clock: nat

    ghost function St(): State
      reads this
    {
      State(handles, lru, inUse, usage, outstanding, deleted, next)
    }

    ghost predicate Valid()
      reads this, table
    {
      && table.Valid() && |table.contents| <= |table.list| && Inv(St(), table.contents, None)
      && Ascends(lru, released, clock)
    }

    constructor (capacity: nat)
      ensures Valid() && this.capacity == capacity && fresh(table)
      ensures handles == map[] && lru == [] && inUse == [] && usage == 0 && outstanding == map[] && deleted == []
      ensures released == map[] && clock == 0
    {
      this.capacity := capacity;
      table := new HandleTable();
      handles, outstanding, released := map[], map[], map[];
      lru, inUse, deleted := [], [], [];
      usage, next, clock := 0, 0, 0;
    }

    method Ref(e: Id)
      requires e in handles
      modifies `handles, `lru, `inUse
      ensures St() == Refed(old(St()), e)
    {
      var h := handles[e];
      if h.refs == 1 && h.inCache {
        lru := Without(lru, e);
        inUse := Without(inUse, e) + [e];
      }
      handles := handles[e := h.(refs := h.refs + 1)];
    }

    method Unref(e: Id)
      requires e in handles && handles[e].refs > 0
      modifies `handles, `lru, `inUse, `outstanding, `deleted
      ensures St() == Unrefed(old(St()), e)
    {
      var h := handles[e].(refs := handles[e].refs - 1);
      handles := handles[e := h];
      if h.refs == 0 {
        handles := handles - {e};
        outstanding, deleted := outstanding - {e}, deleted + [e];
        assert handles == old(handles) - {e};
      } else if h.inCache && h.refs == 1 {
        inUse := Without(inUse, e);
        lru := Without(lru, e) + [e];
      }
    }

    /** Finishes taking out an entry that has left the table. */
    method FinishErase(e: Option<Id>) returns (erased: bool)
      requires Inv(St(), table.contents, e)
      modifies `handles, `lru, `inUse, `usage, `outstanding, `deleted
      ensures erased == e.Some? && next == old(next) && Inv(St(), table.contents, None)
      ensures e.None? ==> St() == old(St())
      ensures e.Some? ==> e.value in old(handles) && old(handles)[e.value].refs > 0
                          && St() == Unrefed(Uncached(old(St()), e.value), e.value)
      ensures lru == if e.Some? then Without(old(lru), e.value) else old(lru)
    {
      erased := e.Some?;
      if e.Some? {
        EraseKeepsInv(St(), table.contents, e.value);
        LeavesOrder(St(), e.value);
        lru, inUse := Without(lru, e.value), Without(inUse, e.value);
        usage := usage - handles[e.value].charge;
        handles := handles[e.value := handles[e.value].(inCache := false)];
        assert St() == Uncached(old(St()), e.value);
        Unref(e.value);
        assert St() == Unrefed(Uncached(old(St()), e.value), e.value);
      }
    }

    /** One more reference, for a client. */
    method Hold(e: Id)
      requires e in handles && e in outstanding
      modifies `handles, `lru, `inUse, `outstanding
      ensures St() == Count(Refed(old(St()), e), e, old(outstanding)[e] + 1)
    {
      Ref(e);
      outstanding := outstanding[e := outstanding[e] + 1];
    }

    /** The entry cached under the key, with one more handle held on it. */
    method Lookup(key: Key) returns (r: Option<Id>)
      requires Valid()
      modifies `handles, `lru, `inUse, `outstanding
      ensures Valid() && table.contents == old(table.contents)
      ensures r == if key in table.contents then Some(table.contents[key]) else None
      ensures r.None? ==> St() == old(St())
      ensures r.Some? ==> r.value in old(handles) && r.value in old(outstanding) && r.value in handles
      ensures r.Some? ==>
          handles[r.value].key == key && handles[r.value].value == old(handles)[r.value].value
          && deleted == old(deleted)
                          && outstanding == old(outstanding)[r.value := old(outstanding)[r.value] + 1]
    {
      r := table.Lookup(key);
      if r.Some? {
        HitKeeps(St(), table.contents, key, released, clock);
        Hold(r.value);
      }
    }

    method GiveBack(e: Id)
      requires Inv(St(), table.contents, None) && e in outstanding && outstanding[e] > 0
      modifies `handles, `lru, `inUse, `outstanding, `deleted
      ensures Inv(St(), table.contents, None) && e in old(handles) && old(handles)[e].refs > 0
      ensures St() == Unrefed(Count(old(St()), e, old(outstanding)[e] - 1), e)
      ensures if old(outstanding)[e] == 1 && !old(handles)[e].inCache then
                deleted == old(deleted) + [e] && e !in handles
              else
                && deleted == old(deleted) && e in handles
                && outstanding == old(outstanding)[e := old(outstanding)[e] - 1]
    {
      ReleaseKeepsInv(St(), table.contents, e);
      assert EntryOk(St(), e);
      outstanding := outstanding[e := outstanding[e] - 1];
      Unref(e);
    }

    /** A client gives back one of its handles; the deleter runs if that was the last use of all. */
    method Release(e: Id)
      requires Valid() && e in outstanding && outstanding[e] > 0
      modifies this
      ensures Valid() && table.contents == old(table.contents) && e in old(handles)
      ensures if old(outstanding)[e] == 1 && !old(handles)[e].inCache then
                deleted == old(deleted) + [e] && e !in handles
              else
                && deleted == old(deleted) && e in handles
                && outstanding == old(outstanding)[e := old(outstanding)[e] - 1]
      ensures released == old(released)[e := old(clock)] && clock == old(clock) + 1
      ensures e in lru <==> old(outstanding)[e] == 1 && old(handles)[e].inCache
    {
      ReleaseAscends(St(), table.contents, e, released, clock);
      GiveBack(e);
      released, clock := released[e := clock], clock + 1;
    }

    /** The oldest unused entry goes. */
    method Evict()
      requires Valid() && lru != []
      modifies `handles, `lru, `inUse, `usage, `outstanding, `deleted, table
      ensures Valid() && next == old(next) && old(lru)[0] in old(handles)
      ensures old(handles)[old(lru)[0]].refs == 1 && St() == Unrefed(Uncached(old(St()), old(lru)[0]), old(lru)[0])
      ensures table.contents == old(table.contents) - {old(handles)[old(lru)[0]].key}
    {
      var e := lru[0];
      EvictOldest(St(), table.contents);
      WithoutAscends(lru, e, released, clock);
      var removed := table.Remove(handles[e].key);
      assert |table.contents| <= |old(table.contents)|;
      var erased := FinishErase(removed);
    }

    /** A new entry under the key, held once by the caller; what it displaces loses the cache's reference.
        Then unused entries go, oldest first, until the rest fit or all in the cache are in use. */
    method Insert(key: Key, value: nat, charge: nat) returns (e: Id, ghost st1: State, ghost n: nat)
      requires Valid()
      modifies `handles, `lru, `inUse, `usage, `outstanding, `deleted, `next, table
      ensures Valid() && e == old(next) && next == e + 1
      ensures e in handles && handles[e].key == key && handles[e].value == value && handles[e].charge == charge
      ensures e in outstanding && outstanding[e] == 1 && ClientsKept(old(St()), St())
      ensures if capacity > 0 then key in table.contents && table.contents[key] == e else !handles[e].inCache
      ensures usage <= capacity || lru == []
      ensures if capacity > 0 then Replaced(old(St()), old(table.contents), Handle(key, value, charge, 2, true), st1)
              else st1 == Allocated(old(St()), Handle(key, value, charge, 1, false))
      ensures Evicted(st1, St(), n, capacity)
      ensures forall x, y :: x in st1.lru[..n] && y in lru ==>
                x in released && y in released && released[x] < released[y]
    {
      e := Enter(key, value, charge);
      st1 := St();
      EnteredStays(old(St()), old(table.contents), Handle(key, value, charge, 2, true),
          Handle(key, value, charge, 1, false), st1, capacity > 0);
      ghost var order := lru;
      n := Shrink(key, e);
      OldestFirst(order, n, released, clock);
      KeptTwice(old(St()), st1, St());
      assert EntryOk(St(), e);
    }

    /** The new entry, before anything is evicted for it. */
    method Enter(key: Key, value: nat, charge: nat) returns (e: Id)
      requires Valid()
      modifies `handles, `lru, `inUse, `usage, `outstanding, `deleted, `next, table
      ensures Valid() && e == old(next) && next == e + 1
      ensures table.contents == if capacity > 0 then old(table.contents)[key := e] else old(table.contents)
      ensures if capacity > 0 then Replaced(old(St()), old(table.contents), Handle(key, value, charge, 2, true), St())
              else St() == Allocated(old(St()), Handle(key, value, charge, 1, false))
    {
      if capacity > 0 {
        e := EnterCached(Handle(key, value, charge, 2, true));
      } else {
        AllocateKeepsInv(St(), table.contents, Handle(key, value, charge, 1, false));
        e := Allocate(Handle(key, value, charge, 1, false));
      }
    }

    method Allocate(h: Handle) returns (e: Id)
      modifies `handles, `next, `outstanding
      ensures e == old(next) && St() == Allocated(old(St()), h)
    {
      e, next := next, next + 1;
      outstanding := outstanding[e := 1];
      handles := handles[e := h];
    }

    /** The new entry in use and in the table; what was under its key has left the table. */
    method FileEntry(h: Handle) returns (e: Id, was: Option<Id>)
      requires Valid() && h.refs == 2 && h.inCache
      modifies `handles, `inUse, `usage, `outstanding, `next, table
      ensures table.Valid() && |table.contents| <= |table.list| && Inv(St(), table.contents, was)
      ensures e == old(next) && St() == Inserted(old(St()), h) && table.contents == old(table.contents)[h.key := e]
      ensures was == if h.key in old(table.contents) then Some(old(table.contents)[h.key]) else None
    {
      ghost var st0 := St();
      InsertKeepsInv(st0, table.contents, h);
      e := Allocate(h);
      inUse := inUse + [e];
      usage := usage + h.charge;
      assert St() == Inserted(st0, h);
      was := table.Insert(h.key, e);
    }

    method EnterCached(h: Handle) returns (e: Id)
      requires Valid() && h.refs == 2 && h.inCache
      modifies `handles, `lru, `inUse, `usage, `outstanding, `deleted, `next, table
      ensures Valid() && e == old(next) && next == e + 1 && table.contents == old(table.contents)[h.key := e]
      ensures Replaced(old(St()), old(table.contents), h, St())
    {
      var was;
      e, was := FileEntry(h);
      if was.Some? {
        WithoutAscends(lru, was.value, released, clock);
      }
      var erased := FinishErase(was);
    }

    /** Evicts while there is too much; `e`, being in use, stays. */
    method Shrink(ghost key: Key, ghost e: Id) returns (ghost n: nat)
      requires Valid() && (e in inUse ==> key in table.contents && table.contents[key] == e)
      modifies `handles, `lru, `inUse, `usage, `outstanding, `deleted, table
      ensures Valid() && next == old(next) && Evicted(old(St()), St(), n, capacity) && (usage <= capacity || lru == [])
      ensures e in inUse ==> key in table.contents && table.contents[key] == e
    {
      n := 0;
      NoneGone(St());
      while usage > capacity && lru != []
        invariant Valid() && next == old(next) && Evicted(old(St()), St(), n, capacity)
        invariant e in inUse ==> key in table.contents && table.contents[key] == e
        decreases |lru|
      {
        EvictOneMore(old(St()), n, key, e);
        n := n + 1;
      }
    }

    method EvictOneMore(ghost st1: State, ghost n: nat, ghost key: Key, ghost e: Id)
      requires Valid() && lru != [] && usage > capacity && Evicted(st1, St(), n, capacity)
      requires e in inUse ==> key in table.contents && table.contents[key] == e
      modifies `handles, `lru, `inUse, `usage, `outstanding, `deleted, table
      ensures Valid() && next == old(next) && |lru| < |old(lru)| && Evicted(st1, St(), n + 1, capacity)
      ensures e in inUse ==> key in table.contents && table.contents[key] == e
    {
      if e in inUse {
        InUseStays(St(), table.contents, key, e);
      }
      EvictedOneMore(st1, St(), table.contents, n, capacity, lru[0]);
      Evict();
    }

    method Erase(key: Key)
      requires Valid()
      modifies `handles, `lru, `inUse, `usage, `outstanding, `deleted, table
      ensures Valid() && table.contents == old(table.contents) - {key} && ClientsKept(old(St()), St())
    {
      ghost var was := table.contents;
      var removed := table.Remove(key);
      if removed.Some? {
        LeavesTable(St(), was, key);
        EraseKeepsClients(St(), table.contents, removed.value);
        WithoutAscends(lru, removed.value, released, clock);
      }
      var erased := FinishErase(removed);
    }

    /** Drops every entry nobody uses. */
    method Prune()
      requires Valid()
      modifies `handles, `lru, `inUse, `usage, `outstanding, `deleted, table
      ensures Valid() && lru == [] && inUse == old(inUse) && ClientsKept(old(St()), St())
      ensures deleted == old(deleted) + old(lru)
    {
      ghost var st1, n := St(), 0;
      NoneGone(st1);
      while lru != []
        invariant Valid() && Gone(st1, St(), n)
        decreases |lru|
      {
        GoneOneMore(st1, St(), table.contents, n, lru[0]);
        Evict();
        n := n + 1;
      }
      assert st1.lru[..n] == st1.lru;
    }
  }

  /** The new entry is in; whatever the table had under its key is out of the cache. */
  ghost predicate Replaced(st: State, table: map<Key, Id>, h: Handle, st1: State) {
    if h.key in table then
      var (st', was) := (Inserted(st, h), table[h.key]);
      was in st'.handles && st'.handles[was].refs > 0 && st1 == Unrefed(Uncached(st', was), was)
    else st1 == Inserted(st, h)
  }

  lemma KeptTwice(st: State, st': State, st'': State)
    requires ClientsKept(st, st') && ClientsKept(st', st'')
    ensures ClientsKept(st, st'')
  {
    forall x | x in st.outstanding && st.outstanding[x] > 0 && x in st.handles
      ensures x in st''.outstanding && st''.outstanding[x] == st.outstanding[x]
      ensures x in st''.handles && SameEntry(st.handles[x], st''.handles[x])
    {
      assert x in st'.outstanding;
    }
  }

  lemma AllocateKeepsClients(st: State, table: map<Key, Id>, h: Handle)
    requires Inv(st, table, None)
    ensures ClientsKept(st, Allocated(st, h))
  {
    assert EntryOk(st, st.next);
  }

  lemma ReplacedKeepsClients(st: State, table: map<Key, Id>, h: Handle, st1: State)
    requires Inv(st, table, None) && h.refs == 2 && h.inCache && Replaced(st, table, h, st1)
    ensures ClientsKept(st, st1) && st.next in st1.inUse && st.next in st1.outstanding && st1.outstanding[st.next] == 1
    ensures st.next in st1.handles && st1.handles[st.next] == h
  {
    InsertKeepsInv(st, table, h);
    assert EntryOk(st, st.next);
    if h.key in table {
      var was := table[h.key];
      EraseKeepsClients(Inserted(st, h), table[h.key := st.next], was);
      KeptTwice(st, Inserted(st, h), st1);
    }
  }

  /** What an insertion leaves for the eviction loop. */
  lemma EnteredStays(st: State, table: map<Key, Id>, cached: Handle, uncached: Handle, st1: State, caching: bool)
    requires Inv(st, table, None) && cached.refs == 2 && cached.inCache && uncached.refs == 1 && !uncached.inCache
    requires if caching then Replaced(st, table, cached, st1) else st1 == Allocated(st, uncached)
    ensures ClientsKept(st, st1) && st.next in st1.outstanding && st1.outstanding[st.next] == 1
    ensures st.next in st1.handles && st1.handles[st.next] == (if caching then cached else uncached)
    ensures caching <==> st.next in st1.inUse
  {
    if caching {
      ReplacedKeepsClients(st, table, cached, st1);
    } else {
      AllocateKeepsClients(st, table, uncached);
      assert EntryOk(st, st.next);
    }
  }

  lemma LeavesTable(st: State, table: map<Key, Id>, key: Key)
    requires Inv(st, table, None) && key in table
    ensures Inv(st, table - {key}, Some(table[key])) && st.handles[table[key]].refs > 0
  {
    assert EntryOk(st, table[key]);
  }
}
