/** MergingIterator: several sorted cursors driven as one cursor over their sorted union.

  The contracts of its operations are those of a cursor over the one merged run, whatever mixture of
  operations and directions came before.
 */
module Merger {
  import opened DbFormat

  // ---------------------------------------------------------------------------
  // The sorted union
  // ---------------------------------------------------------------------------

  /** `merged` is the sorted union of the children; `place[i][p]` says where entry `p` of child `i`
      went. No two entries, of one child or of several, share a place. */
  ghost predicate Merges(children: seq<seq<Entry>>, merged: seq<Entry>, place: seq<seq<nat>>) {
    && Sorted(merged) && |place| == |children|
    && (forall i :: 0 <= i < |children| ==> |place[i]| == |children[i]|)
    && (forall i, p :: 0 <= i < |children| && 0 <= p < |children[i]| ==>
          place[i][p] < |merged| && merged[place[i][p]] == children[i][p])
    && (forall i, p, q :: 0 <= i < |children| && 0 <= p < q < |children[i]| ==> place[i][p] < place[i][q])
    && (forall i, j, p, q ::
        0 <= i < j < |children| && 0 <= p < |children[i]| && 0 <= q < |children[j]| ==> place[i][p] != place[j][q])
    && (forall m :: 0 <= m < |merged| ==> Placed(place, m))
  }

  ghost predicate Placed(place: seq<seq<nat>>, m: nat) {
    exists i, p :: 0 <= i < |place| && 0 <= p < |place[i]| && place[i][p] == m
  }

  lemma LessIsEarlier(es: seq<Entry>, i: nat, j: nat)
    requires Sorted(es) && i < |es| && j < |es|
    ensures Less(es[i].key, es[j].key) <==> i < j
  {
    assert i < j ==> Less(es[i].key, es[j].key);
    assert j < i ==> Less(es[j].key, es[i].key);
  }

  /** Child `i`'s cursor is at its first entry placed at or after `m`. */
  ghost predicate After(place: seq<seq<nat>>, i: nat, at: nat, m: nat)
    requires i < |place|
  {
    at <= |place[i]| && forall p :: 0 <= p < |place[i]| ==> (p < at <==> place[i][p] < m)
  }

  /** Child `i`'s cursor is at its last entry placed at or before `m`, or off its front. */
  ghost predicate Before(place: seq<seq<nat>>, i: nat, at: nat, m: int)
    requires i < |place|
  {
    && at <= |place[i]|
    && forall p :: 0 <= p < |place[i]| ==> (place[i][p] <= m <==> at < |place[i]| && p <= at)
  }

  lemma SeekChild(children: seq<seq<Entry>>, merged: seq<Entry>, place: seq<seq<nat>>, i: nat, target: InternalKey)
    requires Merges(children, merged, place) && i < |children|
    ensures After(place, i, LowerBound(children[i], target), LowerBound(merged, target))
  {
    var c, m := LowerBound(children[i], target), LowerBound(merged, target);
    forall p | 0 <= p < |children[i]| ensures p < c <==> place[i][p] < m {
      var w := place[i][p];
      LowerBoundSplits(merged, target, w);
      LowerBoundSplits(children[i], target, p) by {
        forall q, r | 0 <= q < r < |children[i]| ensures Less(children[i][q].key, children[i][r].key) {
          LessIsEarlier(merged, place[i][q], place[i][r]);
        }
      }
    }
  }

  lemma LowerBoundSplits(es: seq<Entry>, target: InternalKey, p: nat)
    requires Sorted(es) && p < |es|
    ensures p < LowerBound(es, target) <==> Less(es[p].key, target)
  {
    var c := LowerBound(es, target);
    assert c < p ==> Less(es[c].key, es[p].key);
  }

  /** When the child placed at `m` moves on, every child is at or after the next place. */
  lemma AfterMoves(children: seq<seq<Entry>>, merged: seq<Entry>, place: seq<seq<nat>>, c: nat, ats: seq<nat>, m: nat)
    requires Merges(children, merged, place) && |ats| == |children| && c < |children| && ats[c] < |children[c]|
        && place[c][ats[c]] == m
    requires forall i :: 0 <= i < |children| ==> After(place, i, ats[i], m)
    ensures forall i :: 0 <= i < |children| ==> After(place, i, if i == c then ats[i] + 1 else ats[i], m + 1)
  {
    forall i | 0 <= i < |children| ensures After(place, i, if i == c then ats[i] + 1 else ats[i], m + 1) {
      assert After(place, i, ats[i], m);
      assert i != c ==> forall p :: 0 <= p < |place[i]| ==> place[i][p] != place[c][ats[c]];
    }
  }

  lemma SeekExisting(es: seq<Entry>, m: nat)
    requires Sorted(es) && m < |es|
    ensures LowerBound(es, es[m].key) == m
  {
    forall k | 0 <= k < |es| ensures Less(es[k].key, es[m].key) <==> k < m {
      LessIsEarlier(es, k, m);
    }
  }

  /** The position after `p` if the entry there has exactly `key`. */
  function PastEqual(es: seq<Entry>, p: nat, key: InternalKey): nat {
    if p < |es| && !Less(key, es[p].key) && !Less(es[p].key, key) then p + 1 else p
  }

  // ----- every family of sorted children with distinct keys has a union -----

  predicate SameKey(a: Entry, b: Entry) {
    !Less(a.key, b.key) && !Less(b.key, a.key)
  }

  ghost predicate DistinctKeys(children: seq<seq<Entry>>) {
    forall i, j, p, q :: 0 <= i < j < |children| && 0 <= p < |children[i]| && 0 <= q < |children[j]| ==>
      !SameKey(children[i][p], children[j][q])
  }

  ghost predicate HoldsAll(merged: seq<Entry>, children: seq<seq<Entry>>, n: nat, k: nat)
    requires n <= |children| && (n < |children| ==> k <= |children[n]|)
  {
    && (forall i, p ::
        0 <= i < |children| && 0 <= p < |children[i]| && Scanned(n, k, i, p) ==> children[i][p] in merged)
    && (forall e :: e in merged ==> FromChild(children, n, k, e))
  }

  predicate Scanned(n: nat, k: nat, i: nat, p: nat) {
    i < n || (i == n && p < k)
  }

  ghost predicate FromChild(children: seq<seq<Entry>>, n: nat, k: nat, e: Entry) {
    exists i, p :: 0 <= i < |children| && 0 <= p < |children[i]| && Scanned(n, k, i, p) && children[i][p] == e
  }

  /** The union of the first `n` children and the first `k` entries of the next. */
  lemma {:induction false} SortUnion(children: seq<seq<Entry>>, n: nat, k: nat) returns (merged: seq<Entry>)
    requires (forall i :: 0 <= i < |children| ==> Sorted(children[i])) && DistinctKeys(children)
    requires n <= |children| && (if n < |children| then k <= |children[n]| else k == 0)
    ensures Sorted(merged) && HoldsAll(merged, children, n, k)
    decreases n, k
  {
    if k > 0 {
      var rest := SortUnion(children, n, k - 1);
      var e := children[n][k - 1];
      forall f | f in rest ensures !SameKey(f, e) {
        var i, p :| 0 <= i < |children| && 0 <= p < |children[i]| && Scanned(n, k - 1, i, p) && children[i][p] == f;
        assert i == n ==> Less(children[n][p].key, e.key);
      }
      merged := Insert(rest, e);
      SortUnionStep(children, n, k, rest, merged);
    } else if n > 0 {
      merged := SortUnion(children, n - 1, |children[n - 1]|);
      forall f | f in merged ensures FromChild(children, n, 0, f) {
        var i, p :| 0 <= i < |children| && 0 <= p < |children[i]| && Scanned(n - 1, |children[n - 1]|, i, p)
            && children[i][p] == f;
        assert Scanned(n, 0, i, p);
      }
      forall i, p | 0 <= i < |children| && 0 <= p < |children[i]| && Scanned(n, 0, i, p)
          ensures children[i][p] in merged {
        assert Scanned(n - 1, |children[n - 1]|, i, p);
      }
    } else {
      merged := [];
    }
  }

  lemma SortUnionStep(children: seq<seq<Entry>>, n: nat, k: nat, rest: seq<Entry>, merged: seq<Entry>)
    requires n < |children| && 0 < k <= |children[n]| && HoldsAll(rest, children, n, k - 1)
    requires SetOf(merged) == SetOf(rest) + iset{children[n][k - 1]}
    ensures HoldsAll(merged, children, n, k)
  {
    assert forall f :: f in merged <==> f in SetOf(merged);
    assert forall f :: f in rest <==> f in SetOf(rest);
    forall f | f in merged ensures FromChild(children, n, k, f) {
      if f in rest {
        var i, p :| 0 <= i < |children| && 0 <= p < |children[i]| && Scanned(n, k - 1, i, p) && children[i][p] == f;
        assert Scanned(n, k, i, p);
      } else {
        assert Scanned(n, k, n, k - 1);
      }
    }
    forall i, p | 0 <= i < |children| && 0 <= p < |children[i]| && Scanned(n, k, i, p)
        ensures children[i][p] in merged {
      assert Scanned(n, k - 1, i, p) || (i == n && p == k - 1);
    }
  }

  /** Where an entry is in a run that holds it. */
  ghost function IndexIn(es: seq<Entry>, e: Entry): (m: nat)
    requires e in es
    ensures m < |es| && es[m] == e
  {
    var m :| 0 <= m < |es| && es[m] == e;
    m
  }

  ghost predicate AllIn(children: seq<seq<Entry>>, merged: seq<Entry>) {
    forall i, p :: 0 <= i < |children| && 0 <= p < |children[i]| ==> children[i][p] in merged
  }

  /** Where the entries of the children are in `merged`. */
  ghost function Places(children: seq<seq<Entry>>, merged: seq<Entry>): seq<seq<nat>>
    requires AllIn(children, merged)
  {
    seq(|children|, i requires 0 <= i < |children| => PlacesOf(children[i], merged))
  }

  ghost function PlacesOf(child: seq<Entry>, merged: seq<Entry>): (places: seq<nat>)
    requires forall p :: 0 <= p < |child| ==> child[p] in merged
    ensures |places| == |child| && forall p :: 0 <= p < |child| ==>
        places[p] < |merged| && merged[places[p]] == child[p]
  {
    seq(|child|, p requires 0 <= p < |child| => IndexIn(merged, child[p]))
  }

  lemma PlacesAscend(child: seq<Entry>, merged: seq<Entry>, p: nat, q: nat)
    requires Sorted(child) && Sorted(merged) && p < q < |child| && forall r :: 0 <= r < |child| ==> child[r] in merged
    ensures PlacesOf(child, merged)[p] < PlacesOf(child, merged)[q]
  {
    assert Less(child[p].key, child[q].key);
    LessIsEarlier(merged, PlacesOf(child, merged)[p], PlacesOf(child, merged)[q]);
  }

  lemma PlacesDiffer(children: seq<seq<Entry>>, merged: seq<Entry>, i: nat, j: nat, p: nat, q: nat)
    requires DistinctKeys(children) && AllIn(children, merged)
    requires i < j < |children| && p < |children[i]| && q < |children[j]|
    ensures Places(children, merged)[i][p] != Places(children, merged)[j][q]
  {
    assert !SameKey(children[i][p], children[j][q]);
  }

  lemma AllPlaced(children: seq<seq<Entry>>, merged: seq<Entry>, m: nat)
    requires Sorted(merged) && AllIn(children, merged) && m < |merged| && FromChild(children, |children|, 0, merged[m])
    ensures Placed(Places(children, merged), m)
  {
    var place := Places(children, merged);
    var i, p :| 0 <= i < |children| && 0 <= p < |children[i]| && children[i][p] == merged[m];
    LessIsEarlier(merged, place[i][p], m);
    LessIsEarlier(merged, m, place[i][p]);
    assert place[i][p] == m;
  }

  lemma PlacesMerge(children: seq<seq<Entry>>, merged: seq<Entry>)
    requires (forall i :: 0 <= i < |children| ==> Sorted(children[i])) && DistinctKeys(children)
    requires Sorted(merged) && AllIn(children, merged)
    requires forall e :: e in merged ==> FromChild(children, |children|, 0, e)
    ensures Merges(children, merged, Places(children, merged))
  {
    var place := Places(children, merged);
    forall i, p, q | 0 <= i < |children| && 0 <= p < q < |children[i]| ensures place[i][p] < place[i][q] {
      PlacesAscend(children[i], merged, p, q);
    }
    forall i, j, p, q | 0 <= i < j < |children| && 0 <= p < |children[i]| && 0 <= q < |children[j]|
      ensures place[i][p] != place[j][q]
    {
      PlacesDiffer(children, merged, i, j, p, q);
    }
    forall m | 0 <= m < |merged| ensures Placed(place, m) {
      AllPlaced(children, merged, m);
    }
  }

  lemma UnionExists(children: seq<seq<Entry>>) returns (merged: seq<Entry>, place: seq<seq<nat>>)
    requires (forall i :: 0 <= i < |children| ==> Sorted(children[i])) && DistinctKeys(children)
    ensures Merges(children, merged, place)
    ensures forall e :: e in merged <==> exists i :: 0 <= i < |children| && e in children[i]
  {
    merged := SortUnion(children, |children|, 0);
    forall i, p | 0 <= i < |children| && 0 <= p < |children[i]| ensures children[i][p] in merged {
      assert Scanned(|children|, 0, i, p);
    }
    place := Places(children, merged);
    PlacesMerge(children, merged);
    UnionMembers(children, merged);
  }

  lemma UnionMembers(children: seq<seq<Entry>>, merged: seq<Entry>)
    requires AllIn(children, merged) && forall e :: e in merged ==> FromChild(children, |children|, 0, e)
    ensures forall e :: e in merged <==> exists i :: 0 <= i < |children| && e in children[i]
  {
    forall e ensures e in merged <==> exists i :: 0 <= i < |children| && e in children[i] {
      if e in merged {
        assert FromChild(children, |children|, 0, e);
      }
    }
  }

  // ---------------------------------------------------------------------------
  // The iterator
  // ---------------------------------------------------------------------------

  class MergingIterator {
    const children: seq<seq<Entry>>
    /** Where each child's cursor is; past the end when that child is not valid. */
    const pos: array<nat>
    var current: Option<nat>
    var direction: Direction
    ghost const merged: seq<Entry>
    ghost const place: seq<seq<nat>>
    /** The position in the union; past the end when the iterator is not valid. */
    ghost var at: nat

    constructor (children: seq<seq<Entry>>, ghost merged: seq<Entry>, ghost place: seq<seq<nat>>)
      requires Merges(children, merged, place)
      ensures Valid() && this.merged == merged && this.children == children && at == |merged| && fresh(pos)
    {
      this.children, this.merged, this.place := children, merged, place;
      pos := new nat[|children|](_ => 0);
      current, direction, at := None, Forward, |merged|;
    }

    /** Forward, every other child is at its first key after the current one; in reverse, at its last
        key before it. */
    ghost predicate Valid()
      reads this, pos
    {
      && Merges(children, merged, place) && pos.Length == |children| && at <= |merged|
      && (current.None? <==> at == |merged|)
      && (current.Some? ==>
           && current.value < |children| && pos[current.value] < |children[current.value]|
           && place[current.value][pos[current.value]] == at
           && forall i :: 0 <= i < |children| ==>
                if direction == Forward then After(place, i, pos[i], at) else Before(place, i, pos[i], at))
    }

    function CurrentEntry(): (e: Entry)
      requires Valid() && current.Some?
      reads this, pos
      ensures e == merged[at]
    {
      children[current.value][pos[current.value]]
    }

    ghost predicate AllAfter(m: nat)
      requires pos.Length == |children| == |place|
      reads pos
    {
      forall i :: 0 <= i < |children| ==> After(place, i, pos[i], m)
    }

    ghost predicate AllBefore(m: int)
      requires pos.Length == |children| == |place|
      reads pos
    {
      forall i :: 0 <= i < |children| ==> Before(place, i, pos[i], m)
    }

    method FindSmallest(ghost m: nat)
      requires Merges(children, merged, place) && pos.Length == |children| && m <= |merged| && AllAfter(m)
      modifies `current, `at
      ensures at == m
      ensures current.None? <==> m == |merged|
      ensures current.Some? ==> current.value < |children| && pos[current.value] < |children[current.value]|
      ensures current.Some? ==> place[current.value][pos[current.value]] == m
    {
      var smallest: Option<nat> := None;
      for i := 0 to |children|
        invariant smallest.Some? ==> smallest.value < i && pos[smallest.value] < |children[smallest.value]|
        invariant forall j :: 0 <= j < i && pos[j] < |children[j]| ==>
                    smallest.Some? && place[smallest.value][pos[smallest.value]] <= place[j][pos[j]]
      {
        if pos[i] < |children[i]| {
          if smallest == None {
            smallest := Some(i);
          } else {
            var s := smallest.value;
            LessIsEarlier(merged, place[i][pos[i]], place[s][pos[s]]);
            if Less(children[i][pos[i]].key, children[s][pos[s]].key) {
              smallest := Some(i);
            }
          }
        }
      }
      if m < |merged| {
        assert Placed(place, m);
      }
      current, at := smallest, m;
    }

    method FindLargest(ghost m: int)
      requires Merges(children, merged, place) && pos.Length == |children| && -1 <= m < |merged| && AllBefore(m)
      modifies `current, `at
      ensures at == if m == -1 then |merged| else m
      ensures current.None? <==> m == -1
      ensures current.Some? ==> current.value < |children| && pos[current.value] < |children[current.value]|
      ensures current.Some? ==> place[current.value][pos[current.value]] == m
    {
      var largest: Option<nat> := None;
      for i := |children| downto 0
        invariant largest.Some? ==> i <= largest.value < |children| && pos[largest.value] < |children[largest.value]|
        invariant forall j :: i <= j < |children| && pos[j] < |children[j]| ==>
                    largest.Some? && place[j][pos[j]] <= place[largest.value][pos[largest.value]]
      {
        if pos[i] < |children[i]| {
          if largest == None {
            largest := Some(i);
          } else {
            var s := largest.value;
            LessIsEarlier(merged, place[s][pos[s]], place[i][pos[i]]);
            if Less(children[s][pos[s]].key, children[i][pos[i]].key) {
              largest := Some(i);
            }
          }
        }
      }
      if m >= 0 {
        assert Placed(place, m);
      }
      current, at := largest, if m == -1 then |merged| else m;
    }

    method SeekToFirst()
      requires Valid()
      modifies this, pos
      ensures Valid() && at == 0
    {
      for i := 0 to |children|
        invariant forall j :: 0 <= j < i ==> After(place, j, pos[j], 0)
      {
        pos[i] := 0;
      }
      FindSmallest(0);
      direction := Forward;
    }

    method SeekToLast()
      requires Valid()
      modifies this, pos
      ensures Valid() && at == if merged == [] then 0 else |merged| - 1
    {
      for i := 0 to |children|
        invariant forall j :: 0 <= j < i ==> Before(place, j, pos[j], |merged| - 1)
      {
        pos[i] := if children[i] == [] then 0 else |children[i]| - 1;
      }
      FindLargest(|merged| - 1);
      direction := Reverse;
    }

    method Seek(target: InternalKey)
      requires Valid()
      modifies this, pos
      ensures Valid() && at == LowerBound(merged, target)
    {
      ghost var m := LowerBound(merged, target);
      for i := 0 to |children|
        invariant forall j :: 0 <= j < i ==> After(place, j, pos[j], m)
      {
        SeekChild(children, merged, place, i, target);
        pos[i] := LowerBound(children[i], target);
      }
      FindSmallest(m);
      direction := Forward;
    }

    method Next()
      requires Valid() && current.Some?
      modifies this, pos
      ensures Valid() && at == old(at) + 1
    {
      var c := current.value;
      if direction != Forward {
        TurnForward(c);
        direction := Forward;
      }
      assert AllAfter(at);
      AfterMoves(children, merged, place, c, pos[..], at);
      pos[c] := pos[c] + 1;
      FindSmallest(at + 1);
    }

    /** Every child but the current one moves past the current key. */
    method TurnForward(c: nat)
      requires Valid() && current == Some(c) && direction == Reverse
      modifies pos
      ensures pos[c] == old(pos[c]) && AllAfter(at)
    {
      var key := children[c][pos[c]].key;
      SeekExisting(merged, at);
      for i := 0 to |children|
        invariant pos[c] == old(pos[c])
        invariant forall j :: 0 <= j < i ==> After(place, j, pos[j], at)
        invariant forall j :: i <= j < |children| ==> pos[j] == old(pos[j])
      {
        if i != c {
          SeekChild(children, merged, place, i, key);
          var p := LowerBound(children[i], key);
          assert p < |children[i]| ==> place[i][p] != place[c][pos[c]];
          LessIsEarlierIn(i, p, c);
          pos[i] := PastEqual(children[i], p, key);
        } else {
          assert Before(place, c, pos[c], at);
        }
      }
    }

    lemma LessIsEarlierIn(i: nat, p: nat, c: nat)
      requires Merges(children, merged, place) && pos.Length == |children| && i < |children| && c < |children|
          && pos[c] < |children[c]|
      ensures p < |children[i]| && place[i][p] != place[c][pos[c]] ==>
                Less(children[c][pos[c]].key, children[i][p].key) || Less(children[i][p].key, children[c][pos[c]].key)
    {
      if p < |children[i]| {
        LessIsEarlier(merged, place[c][pos[c]], place[i][p]);
        LessIsEarlier(merged, place[i][p], place[c][pos[c]]);
      }
    }

    method Prev()
      requires Valid() && current.Some?
      modifies this, pos
      ensures Valid() && at == if old(at) == 0 then |merged| else old(at) - 1
    {
      var c := current.value;
      if direction != Reverse {
        TurnReverse(c);
        direction := Reverse;
      } else {
        forall i | 0 <= i < |children| && i != c ensures Before(place, i, pos[i], at - 1) {
          assert Before(place, i, pos[i], at);
          assert forall p :: 0 <= p < |place[i]| ==> place[i][p] != place[c][pos[c]];
        }
      }
      pos[c] := if pos[c] == 0 then |children[c]| else pos[c] - 1;
      FindLargest(at as int - 1);
    }

    /** Every child but the current one moves to its last key before the current one. */
    method TurnReverse(c: nat)
      requires Valid() && current == Some(c) && direction == Forward
      modifies pos
      ensures pos[c] == old(pos[c])
      ensures forall i :: 0 <= i < |children| && i != c ==> Before(place, i, pos[i], at - 1)
    {
      var key := children[c][pos[c]].key;
      SeekExisting(merged, at);
      for i := 0 to |children|
        invariant pos[c] == old(pos[c])
        invariant forall j :: 0 <= j < i && j != c ==> Before(place, j, pos[j], at - 1)
        invariant forall j :: i <= j < |children| ==> pos[j] == old(pos[j])
      {
        if i != c {
          SeekChild(children, merged, place, i, key);
          var p := LowerBound(children[i], key);
          if p < |children[i]| {
            pos[i] := if p == 0 then |children[i]| else p - 1;
          } else {
            pos[i] := if children[i] == [] then 0 else |children[i]| - 1;
          }
        }
      }
    }
  }
}
