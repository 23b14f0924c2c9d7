/** The memtable's skip list: one writer linking nodes level by level while readers walk the lists.

  The links are the model's state. Level `l` of a list stands for the set of keys on it; the writer's
  half-done insertion and any number of readers in mid-search are then interleaved pointer by pointer.
 */
module SkipList {
  import opened DbFormat

  const MAX_HEIGHT := 12

  /** A node is known by its key; the head comes before every key. */
  datatype Node = Head | Item(key: UserKey)

  /** The next pointers of one level; `None` is the null pointer. */
  type Level = map<Node, Option<Node>>

  type Keys = set<UserKey>

  predicate IsAfter(k: UserKey, n: Node) {
    n.Head? || n.key < k
  }

  predicate OnLevel(s: Keys, n: Node) {
    n.Head? || n.key in s
  }

  /** `r` is the node after `n` among the keys `s`. */
  ghost predicate IsNext(s: Keys, n: Node, r: Option<Node>) {
    match r
    case None => forall k :: k in s ==> !IsAfter(k, n)
    case Some(Head) => false
    case Some(Item(k)) => k in s && IsAfter(k, n) && forall j :: j in s && IsAfter(j, n) ==> k <= j
  }

  /** `p` is the last node before `key`. */
  ghost predicate IsPrev(s: Keys, key: UserKey, p: Node) {
    OnLevel(s, p) && IsAfter(key, p) && forall j :: j in s && j < key ==> p.Item? && j <= p.key
  }

  /** `r` is the first node at or after `target`. */
  ghost predicate IsLowerBound(s: Keys, target: UserKey, r: Option<Node>) {
    match r
    case None => forall k :: k in s ==> k < target
    case Some(Head) => false
    case Some(Item(k)) => k in s && target <= k && forall j :: j in s && target <= j ==> k <= j
  }

  ghost predicate IsLast(s: Keys, p: Node) {
    OnLevel(s, p) && forall j :: j in s ==> p.Item? && j <= p.key
  }

  /** A level's pointers thread exactly the keys `s`, in order. */
  ghost predicate Threads(level: Level, s: Keys) {
    forall n :: OnLevel(s, n) ==> n in level && IsNext(s, n, level[n])
  }

  /** Every level is sorted, and a sub-list of the level below. */
  ghost predicate Stacked(next: seq<Level>, sets: seq<Keys>) {
    && |next| == |sets| == MAX_HEIGHT
    && (forall l :: 0 <= l < MAX_HEIGHT ==> Threads(next[l], sets[l]))
    && (forall l, m :: 0 <= l <= m < MAX_HEIGHT ==> sets[m] <= sets[l])
  }

  // ---------------------------------------------------------------------------
  // Linking one node into one level
  // ---------------------------------------------------------------------------

  /** x->NoBarrier_SetNext(i, prev->NoBarrier_Next(i)): not visible yet. */
  function Prepare(level: Level, key: UserKey, p: Node): Level
    requires p in level
  {
    level[Item(key) := level[p]]
  }

  /** prev->SetNext(i, x). */
  function Publish(level: Level, key: UserKey, p: Node): Level {
    level[p := Some(Item(key))]
  }

  lemma PrepareKeeps(level: Level, s: Keys, key: UserKey, p: Node)
    requires Threads(level, s) && key !in s && IsPrev(s, key, p)
    ensures Threads(Prepare(level, key, p), s) && IsNext(s, Item(key), Prepare(level, key, p)[Item(key)])
  {
  }

  lemma PublishThreads(level: Level, s: Keys, key: UserKey, p: Node)
    requires Threads(level, s) && key !in s && IsPrev(s, key, p)
    requires Item(key) in level && IsNext(s, Item(key), level[Item(key)])
    ensures Threads(Publish(level, key, p), s + {key})
  {
    var level', s' := Publish(level, key, p), s + {key};
    forall n | OnLevel(s', n) ensures n in level' && IsNext(s', n, level'[n]) {
      assert n == p || n == Item(key) || IsNext(s, n, level[n]);
    }
  }

  // ---------------------------------------------------------------------------
  // Searching
  // ---------------------------------------------------------------------------

  /** KeyIsAfterNode: a null pointer counts as infinity. */
  predicate KeyIsAfterNode(key: UserKey, n: Option<Node>) {
    n.Some? && n.value.Item? && n.value.key < key
  }

  /** Where a search for `target` may stand on a level. */
  predicate Standing(s: Keys, target: UserKey, x: Node) {
    OnLevel(s, x) && IsAfter(target, x)
  }

  lemma StepRight(level: Level, s: Keys, target: UserKey, x: Node)
    requires Threads(level, s) && Standing(s, target, x)
    ensures x in level
    ensures KeyIsAfterNode(target, level[x]) ==> Standing(s, target, level[x].value) && IsAfter(level[x].value.key, x)
    ensures !KeyIsAfterNode(target, level[x]) ==> IsPrev(s, target, x) && IsLowerBound(s, target, level[x])
  {
    assert IsNext(s, x, level[x]);
  }

  ghost function Beyond(s: Keys, x: Node): Keys {
    set k | k in s && IsAfter(k, x)
  }

  lemma BeyondShrinks(s: Keys, x: Node, k: UserKey)
    requires k in s && IsAfter(k, x)
    ensures Beyond(s, Item(k)) < Beyond(s, x)
  {
    assert k in Beyond(s, x) && k !in Beyond(s, Item(k));
  }

  class List {
    var next: seq<Level>
    var maxHeight: nat
    /** The keys on each level; level 0 holds them all. */
    ghost var sets: seq<Keys>

    ghost predicate Valid()
      reads this
    {
      && Stacked(next, sets) && 1 <= maxHeight <= MAX_HEIGHT
      && forall l :: maxHeight <= l < MAX_HEIGHT ==> sets[l] == {}
    }

    ghost function Contents(): Keys
      requires Valid()
      reads this
    {
      sets[0]
    }

    constructor ()
      ensures Valid() && Contents() == {}
    {
      next, maxHeight := seq(MAX_HEIGHT, _ => map[Head := None]), 1;
      sets := seq(MAX_HEIGHT, _ => {});
    }

    /** The first node at or after `target`; fills `prev`, if given, with the node before it on every
        level in use. */
    method FindGreaterOrEqual(target: UserKey, prev: array?<Node>) returns (r: Option<Node>)
      requires Valid() && (prev != null ==> prev.Length == MAX_HEIGHT)
      modifies if prev != null then {prev} else {}
      ensures IsLowerBound(Contents(), target, r)
      ensures prev != null ==> forall l :: 0 <= l < maxHeight ==> IsPrev(sets[l], target, prev[l])
    {
      var x := Head;
      var level := maxHeight - 1;
      while true
        invariant 0 <= level < maxHeight && Standing(sets[level], target, x)
        invariant prev != null ==> forall l :: level < l < maxHeight ==> IsPrev(sets[l], target, prev[l])
        decreases level, Beyond(sets[0], x)
      {
        StepRight(next[level], sets[level], target, x);
        var n := next[level][x];
        if KeyIsAfterNode(target, n) {
          BeyondShrinks(sets[0], x, n.value.key);
          x := n.value;
        } else {
          if prev != null {
            prev[level] := x;
          }
          if level == 0 {
            return n;
          }
          level := level - 1;
        }
      }
    }

    /** The last node before `target`, or the head. */
    method FindLessThan(target: UserKey) returns (x: Node)
      requires Valid()
      ensures IsPrev(Contents(), target, x)
    {
      x := Head;
      var level := maxHeight - 1;
      while true
        invariant 0 <= level < maxHeight && Standing(sets[level], target, x)
        decreases level, Beyond(sets[0], x)
      {
        StepRight(next[level], sets[level], target, x);
        var n := next[level][x];
        if !KeyIsAfterNode(target, n) {
          if level == 0 {
            return;
          }
          level := level - 1;
        } else {
          BeyondShrinks(sets[0], x, n.value.key);
          x := n.value;
        }
      }
    }

    method FindLast() returns (x: Node)
      requires Valid()
      ensures IsLast(Contents(), x)
    {
      x := Head;
      var level := maxHeight - 1;
      while true
        invariant 0 <= level < maxHeight && OnLevel(sets[level], x)
        decreases level, Beyond(sets[0], x)
      {
        var n := next[level][x];
        assert IsNext(sets[level], x, n);
        if n == None {
          if level == 0 {
            return;
          }
          level := level - 1;
        } else {
          BeyondShrinks(sets[0], x, n.value.key);
          x := n.value;
        }
      }
    }

    method Contains(key: UserKey) returns (found: bool)
      requires Valid()
      ensures found <==> key in Contents()
    {
      var x := FindGreaterOrEqual(key, null);
      found := x == Some(Item(key));
    }

    /** Adds `key` on the `height` lowest levels, from the bottom up. */
    method Insert(key: UserKey, height: nat)
      requires Valid() && key !in Contents() && 1 <= height <= MAX_HEIGHT
      modifies this
      ensures Valid() && Contents() == old(Contents()) + {key}
      ensures maxHeight == if height > old(maxHeight) then height else old(maxHeight)
      ensures forall l :: 0 <= l < MAX_HEIGHT ==> sets[l] == if l < height then old(sets[l]) + {key} else old(sets[l])
    {
      var prev := new Node[MAX_HEIGHT](_ => Head);
      var x := FindGreaterOrEqual(key, prev);
      if height > maxHeight {
        for i := maxHeight to height
          modifies prev
          invariant forall l :: 0 <= l < i ==> IsPrev(sets[l], key, prev[l])
        {
          prev[i] := Head;
        }
        maxHeight := height;
      }
      ghost var before := sets;
      assert forall l :: 0 <= l < height ==> IsPrev(before[l], key, prev[l]);
      for i := 0 to height
        modifies `next, `sets
        invariant Stacked(next, sets) && |before| == MAX_HEIGHT
        invariant forall l :: 0 <= l < i ==> sets[l] == before[l] + {key}
        invariant forall l :: i <= l < MAX_HEIGHT ==> sets[l] == before[l]
      {
        LinkLevel(next, sets, key, prev[i], i);
        next := next[i := Publish(Prepare(next[i], key, prev[i]), key, prev[i])];
        sets := sets[i := sets[i] + {key}];
      }
    }
  }

  /** Linking at level `i` once the levels below have the key keeps the lists stacked. */
  lemma LinkLevel(next: seq<Level>, sets: seq<Keys>, key: UserKey, p: Node, i: nat)
    requires Stacked(next, sets) && i < MAX_HEIGHT && key !in sets[i] && IsPrev(sets[i], key, p)
    requires forall l :: 0 <= l < i ==> key in sets[l]
    ensures Stacked(next[i := Publish(Prepare(next[i], key, p), key, p)], sets[i := sets[i] + {key}])
  {
    PrepareKeeps(next[i], sets[i], key, p);
    PublishThreads(Prepare(next[i], key, p), sets[i], key, p);
  }

  // ---------------------------------------------------------------------------
  // Readers interleaved with an insertion, pointer by pointer
  // ---------------------------------------------------------------------------

  /** The writer between two stores: `level` is next to be linked, and with `prepared` the new node's own
      pointer at that level has been set. */
  datatype Writer = Resting | Linking(key: UserKey, height: nat, prev: seq<Node>, level: nat, prepared: bool)

  /** A search that stands at `x` on a level, or has returned. */
  datatype Reader = Reading(target: UserKey, x: Node, level: nat) | Returned(result: Option<Node>)

  datatype State = State(next: seq<Level>, sets: seq<Keys>, writer: Writer, readers: map<nat, Reader>)

  datatype Event =
    | BeginInsert(key: UserKey, height: nat, prev: seq<Node>) | PrepareNode | PublishNode | EndInsert
    | BeginRead(id: nat, target: UserKey, level: nat) | ReadNext(id: nat)

  ghost predicate Step(s: State, ev: Event, t: State) {
    match ev
    case BeginInsert(key, height, prev) => BeginInsertStep(s, key, height, prev, t)
    case PrepareNode => PrepareStep(s, t)
    case PublishNode => PublishStep(s, t)
    case EndInsert =>
      s.writer.Linking? && s.writer.level == s.writer.height && t == s.(writer := Resting)
    case BeginRead(id, target, level) =>
      // The height is read without synchronisation: any value up to the maximum is allowed for.
      id !in s.readers && level < MAX_HEIGHT && t == s.(readers := s.readers[id := Reading(target, Head, level)])
    case ReadNext(id) => ReadStep(s, id, t)
  }

  /** The writer has found its place on every level; nobody else writes, so it stays right. */
  ghost predicate BeginInsertStep(s: State, key: UserKey, height: nat, prev: seq<Node>, t: State) {
    && s.writer.Resting? && |s.sets| == MAX_HEIGHT && key !in s.sets[0] && 1 <= height <= MAX_HEIGHT && |prev|
        == MAX_HEIGHT
    && (forall l :: 0 <= l < height ==> IsPrev(s.sets[l], key, prev[l]))
    && t == s.(writer := Linking(key, height, prev, 0, false))
  }

  ghost predicate PrepareStep(s: State, t: State) {
    && s.writer.Linking? && s.writer.level < s.writer.height && !s.writer.prepared
    && var (i, p) := (s.writer.level, s.writer.prev);
       && i < |s.next| && i < |p| && p[i] in s.next[i]
       && t == s.(next := s.next[i := Prepare(s.next[i], s.writer.key, p[i])], writer := s.writer.(prepared := true))
  }

  ghost predicate PublishStep(s: State, t: State) {
    && s.writer.Linking? && s.writer.level < s.writer.height && s.writer.prepared
    && var (i, p) := (s.writer.level, s.writer.prev);
       && i < |s.next| && i < |p| && i < |s.sets|
       && t == s.(next := s.next[i := Publish(s.next[i], s.writer.key, p[i])],
           sets := s.sets[i := s.sets[i] + {s.writer.key}],
                  writer := s.writer.(level := i + 1, prepared := false))
  }

  /** One pointer read of FindGreaterOrEqual. */
  ghost predicate ReadStep(s: State, id: nat, t: State) {
    && id in s.readers && s.readers[id].Reading?
    && var r := s.readers[id];
       && r.level < |s.next| && r.x in s.next[r.level]
       && t == s.(readers := s.readers[id := AfterRead(r, s.next[r.level][r.x])])
  }

  function AfterRead(r: Reader, n: Option<Node>): Reader
    requires r.Reading?
  {
    if KeyIsAfterNode(r.target, n) then r.(x := n.value)
    else if r.level == 0 then Returned(n)
    else r.(level := r.level - 1)
  }

  ghost predicate WriterOk(next: seq<Level>, sets: seq<Keys>, w: Writer)
    requires Stacked(next, sets)
  {
    w.Linking? ==>
      && w.level <= w.height <= MAX_HEIGHT && |w.prev| == MAX_HEIGHT
      && (forall l :: 0 <= l < w.level ==> w.key in sets[l])
      && (forall l :: w.level <= l < MAX_HEIGHT ==> w.key !in sets[l])
      && (forall l :: w.level <= l < w.height ==> IsPrev(sets[l], w.key, w.prev[l]))
      && (w.prepared ==> w.level < w.height && Item(w.key) in next[w.level]
                         && IsNext(sets[w.level], Item(w.key), next[w.level][Item(w.key)]))
  }

  ghost predicate ReadersOk(sets: seq<Keys>, readers: map<nat, Reader>)
    requires |sets| == MAX_HEIGHT
  {
    forall id :: id in readers && readers[id].Reading? ==>
      readers[id].level < MAX_HEIGHT && Standing(sets[readers[id].level], readers[id].target, readers[id].x)
  }

  ghost predicate Inv(s: State) {
    && Stacked(s.next, s.sets) && WriterOk(s.next, s.sets, s.writer) && ReadersOk(s.sets, s.readers)
  }

  lemma PrepareKeepsInv(s: State, t: State)
    requires Inv(s) && PrepareStep(s, t)
    ensures Inv(t)
  {
    var i := s.writer.level;
    PrepareKeeps(s.next[i], s.sets[i], s.writer.key, s.writer.prev[i]);
  }

  lemma PublishKeepsInv(s: State, t: State)
    requires Inv(s) && PublishStep(s, t)
    ensures Inv(t)
  {
    var i := s.writer.level;
    PublishThreads(s.next[i], s.sets[i], s.writer.key, s.writer.prev[i]);
    forall l, m | 0 <= l <= m < MAX_HEIGHT ensures t.sets[m] <= t.sets[l] {
    }
  }

  lemma ReadKeepsInv(s: State, id: nat, t: State)
    requires Inv(s) && ReadStep(s, id, t)
    ensures Inv(t)
  {
    var r := s.readers[id];
    StepRight(s.next[r.level], s.sets[r.level], r.target, r.x);
  }

  /** Every interleaving of stores and reads keeps each level sorted and a sub-list of the one below. */
  lemma StepKeepsInv(s: State, ev: Event, t: State)
    requires Inv(s) && Step(s, ev, t)
    ensures Inv(t)
  {
    match ev
    case BeginInsert(key, height, prev) =>
    case PrepareNode => PrepareKeepsInv(s, t);
    case PublishNode => PublishKeepsInv(s, t);
    case EndInsert =>
    case BeginRead(id, target, level) =>
    case ReadNext(id) => ReadKeepsInv(s, id, t);
  }

  /** A search that returns gives the exact lower bound of the keys present at its last pointer read. */
  lemma SearchIsExact(s: State, id: nat, t: State)
    requires Inv(s) && ReadStep(s, id, t) && t.readers[id].Returned?
    ensures IsLowerBound(s.sets[0], s.readers[id].target, t.readers[id].result)
  {
    var r := s.readers[id];
    StepRight(s.next[r.level], s.sets[r.level], r.target, r.x);
  }

  /** A reader can always take its next step: no pointer it may follow is missing. */
  lemma ReaderNeverStuck(s: State, id: nat) returns (t: State)
    requires Inv(s) && id in s.readers && s.readers[id].Reading?
    ensures Step(s, ReadNext(id), t)
  {
    var r := s.readers[id];
    StepRight(s.next[r.level], s.sets[r.level], r.target, r.x);
    t := s.(readers := s.readers[id := AfterRead(r, s.next[r.level][r.x])]);
  }

  ghost predicate Init(s: State) {
    && s.next == seq(MAX_HEIGHT, _ => map[Head := None]) && s.sets == seq(MAX_HEIGHT, _ => {})
    && s.writer == Resting && s.readers == map[]
  }

  ghost predicate Run(states: seq<State>, events: seq<Event>) {
    && |states| == |events| + 1 && Init(states[0])
    && forall i :: 0 <= i < |events| ==> Step(states[i], events[i], states[i + 1])
  }

  lemma {:induction false} RunKeepsInv(states: seq<State>, events: seq<Event>, i: nat)
    requires Run(states, events) && i < |states|
    ensures Inv(states[i])
  {
    if i > 0 {
      RunKeepsInv(states, events, i - 1);
      StepKeepsInv(states[i - 1], events[i - 1], states[i]);
    }
  }

  /** Keys are never lost: a key a reader could have seen stays on every level it was on. */
  lemma {:induction false} KeysStay(states: seq<State>, events: seq<Event>, i: nat, j: nat, l: nat)
    requires Run(states, events) && i <= j < |states| && l < MAX_HEIGHT
    ensures |states[i].sets| == |states[j].sets| == MAX_HEIGHT && states[i].sets[l] <= states[j].sets[l]
  {
    RunKeepsInv(states, events, i);
    if i < j {
      KeysStay(states, events, i, j - 1, l);
      assert Step(states[j - 1], events[j - 1], states[j]);
    }
  }

  /** Over every run: what any search returns at step `j` is the exact lower bound of the keys present
      then, and so is no later than that of the keys present when it began. */
  lemma SearchesInRuns(states: seq<State>, events: seq<Event>, i: nat, j: nat, id: nat)
    requires Run(states, events) && i <= j < |events| && events[j] == ReadNext(id)
    requires id in states[j].readers && states[j].readers[id].Reading? && states[j + 1].readers[id].Returned?
    ensures |states[i].sets| == |states[j].sets| == MAX_HEIGHT
    ensures var (target, r) := (states[j].readers[id].target, states[j + 1].readers[id].result);
            && IsLowerBound(states[j].sets[0], target, r)
            && forall k :: k in states[i].sets[0] && target <= k ==> r.Some? && r.value.Item? && r.value.key <= k
  {
    RunKeepsInv(states, events, j);
    SearchIsExact(states[j], id, states[j + 1]);
    KeysStay(states, events, i, j, 0);
  }
}
