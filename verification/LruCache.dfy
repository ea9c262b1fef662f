/**
 The least-recently-used cache: a bounded table that forgets the key put longest ago.
 `Lru` and its functions say what the table holds after each operation; the class
 `LruCache` changes the table in place.
 */
module LruCaches {
  import opened Sequences

  /** `order` lists the keys from the one put longest ago to the one put last. */
  datatype Lru<K, V> = Lru(order: seq<K>, entries: map<K, V>)

  function Empty<K, V>(): Lru<K, V> {
    Lru([], map[])
  }

  /** The sequence without any occurrence of `k`. */
  function Without<K(==)>(s: seq<K>, k: K): seq<K>
  {
    if s == [] then []
    else if s[0] == k then Without(s[1..], k)
    else [s[0]] + Without(s[1..], k)
  }

  /** Putting a known key replaces its value and makes it newest; a new key evicts the oldest of a full table. */
  function AfterPut<K(==), V>(capacity: nat, c: Lru<K, V>, k: K, v: V): Lru<K, V>
  {
    if k in c.entries then
      Lru(Without(c.order, k) + [k], c.entries[k := v])
    else if |c.order| >= capacity && c.order != [] then
      Lru(c.order[1..] + [k], (c.entries - {c.order[0]})[k := v])
    else
      Lru(c.order + [k], c.entries[k := v])
  }

  /** The table after a history of puts, oldest first, starting empty. */
  function TableAfter<K(==), V>(capacity: nat, h: seq<(K, V)>): Lru<K, V>
  {
    if h == [] then Empty()
    else
      var (k, v) := h[|h| - 1];
      AfterPut(capacity, TableAfter(capacity, h[..|h| - 1]), k, v)
  }

  // ---------- what a history says, without any table ----------

  /** The position of the last put of `k`, or -1 when it was never put. */
  function LastPut<K(==), V>(h: seq<(K, V)>, k: K): (i: int)
    ensures -1 <= i < |h|
    ensures i >= 0 ==> h[i].0 == k
    ensures forall j :: i < j < |h| ==> h[j].0 != k
  {
    if h == [] then -1
    else if h[|h| - 1].0 == k then |h| - 1
    else LastPut(h[..|h| - 1], k)
  }

  /** The distinct keys put from position `i` on. */
  function KeysFrom<K, V>(h: seq<(K, V)>, i: nat): set<K>
  {
    set j | i <= j < |h| :: h[j].0
  }

  /** The distinct keys put after the last put of `k`; all keys when `k` was never put. */
  function Since<K(==), V>(h: seq<(K, V)>, k: K): set<K>
  {
    KeysFrom(h, LastPut(h, k) + 1)
  }

  /** `k` was put, and fewer than `capacity` distinct other keys have been put since. */
  predicate Recent<K(==), V>(capacity: nat, h: seq<(K, V)>, k: K)
  {
    LastPut(h, k) >= 0 && |Since(h, k)| < capacity
  }

  // ---------- the table holds exactly the recent keys ----------

  ghost function Elements<K>(s: seq<K>): set<K> {
    set x | x in s
  }

  /** The elements behind place `p`. */
  ghost function Behind<K>(s: seq<K>, p: int): set<K>
    requires p >= -1
  {
    set j | p < j < |s| :: s[j]
  }

  lemma {:induction false} ElementsCount<K>(s: seq<K>)
    requires Distinct(s)
    ensures |Elements(s)| == |s|
  {
    if s != [] {
      ElementsCount(s[1..]);
      assert Elements(s) == {s[0]} + Elements(s[1..]);
      assert s[0] !in s[1..];
    }
  }

  lemma {:induction false} WithoutDistinct<K>(s: seq<K>, q: nat)
    requires q < |s| && Distinct(s)
    ensures Without(s, s[q]) == s[..q] + s[q + 1..]
  {
    if q == 0 {
      WithoutAbsent(s[1..], s[0]);
    } else {
      WithoutDistinct(s[1..], q - 1);
      assert s[1..][..q - 1] == s[1..q] && s[1..][q..] == s[q + 1..];
      assert s[..q] == [s[0]] + s[1..q];
    }
  }

  lemma {:induction false} WithoutAbsent<K>(s: seq<K>, k: K)
    requires k !in s
    ensures Without(s, k) == s
  {
    if s != [] {
      WithoutAbsent(s[1..], k);
    }
  }

  /** How the table and the history correspond. */
  ghost predicate Tracks<K(!new), V>(capacity: nat, c: Lru<K, V>, h: seq<(K, V)>)
  {
    && |c.order| <= capacity
    && Distinct(c.order)
    && Elements(c.order) == c.entries.Keys
    && (forall p :: 0 <= p < |c.order| ==> Placed(c, h, p))
    && (forall k :: LastPut(h, k) >= 0 && k !in c.order ==> Forgotten(capacity, c, h, k))
  }

  /** The key at place `p` has its latest value, and the keys put since are those after it. */
  ghost predicate Placed<K, V>(c: Lru<K, V>, h: seq<(K, V)>, p: nat)
    requires p < |c.order|
  {
    var k := c.order[p];
    && LastPut(h, k) >= 0
    && k in c.entries && c.entries[k] == h[LastPut(h, k)].1
    && Since(h, k) == Behind(c.order, p)
  }

  /** A key that is gone: the table is full, and all it holds was put since. */
  ghost predicate Forgotten<K, V>(capacity: nat, c: Lru<K, V>, h: seq<(K, V)>, k: K)
  {
    |c.order| == capacity && Elements(c.order) <= Since(h, k)
  }

  /** One more put makes its key the last. */
  lemma LastPutStep<K, V>(h: seq<(K, V)>, k: K, v: V, other: K)
    ensures LastPut(h + [(k, v)], other) == if other == k then |h| else LastPut(h, other)
  {
    assert (h + [(k, v)])[..|h|] == h;
  }

  /** One more put is added to what was put since every other key. */
  lemma SinceStep<K, V>(h: seq<(K, V)>, k: K, v: V, other: K)
    ensures Since(h + [(k, v)], other) == if other == k then {} else Since(h, other) + {k}
  {
    var h' := h + [(k, v)];
    LastPutStep(h, k, v, other);
    if other != k {
      var from := LastPut(h, other) + 1;
      forall x
        ensures x in KeysFrom(h', from) <==> x in KeysFrom(h, from) + {k}
      {
        assert h'[|h|].0 == k;
        if x in KeysFrom(h, from) {
          var j :| from <= j < |h| && h[j].0 == x;
          assert h'[j].0 == x;
        }
      }
    }
  }

  /** The sequence with the element at `q` moved to the end. */
  ghost function Moved<K>(s: seq<K>, q: nat): (t: seq<K>)
    requires q < |s|
    ensures |t| == |s| && t[|s| - 1] == s[q]
    ensures forall j :: 0 <= j < q ==> t[j] == s[j]
    ensures forall j :: q <= j < |s| - 1 ==> t[j] == s[j + 1]
  {
    s[..q] + s[q + 1..] + [s[q]]
  }

  lemma MovedElements<K>(s: seq<K>, q: nat)
    requires q < |s|
    ensures Elements(Moved(s, q)) == Elements(s)
  {
    var t := Moved(s, q);
    forall x | x in s
      ensures x in t
    {
      var i :| 0 <= i < |s| && s[i] == x;
      assert t[if i < q then i else if i == q then |s| - 1 else i - 1] == x;
    }
  }

  lemma MovedBehind<K>(s: seq<K>, q: nat, p: nat)
    requires q < |s| && p < |s| - 1
    ensures Behind(Moved(s, q), p) == Behind(s, if p < q then p else p + 1) + {s[q]}
  {
    var t := Moved(s, q);
    var from := if p < q then p else p + 1;
    forall x | x in Behind(s, from) + {s[q]}
      ensures x in Behind(t, p)
    {
      if x == s[q] {
        assert t[|s| - 1] == x;
      } else {
        var i :| from < i < |s| && s[i] == x;
        assert t[if i < q then i else i - 1] == x;
      }
    }
    forall x | x in Behind(t, p)
      ensures x in Behind(s, from) + {s[q]}
    {
      var i :| p < i < |s| && t[i] == x;
      assert i < |s| - 1 ==> x == s[if i < q then i else i + 1];
    }
  }

  lemma PutKnown<K(!new), V>(capacity: nat, c: Lru<K, V>, h: seq<(K, V)>, k: K, v: V)
    requires Tracks(capacity, c, h) && k in c.entries
    ensures Tracks(capacity, AfterPut(capacity, c, k, v), h + [(k, v)])
  {
    assert k in Elements(c.order);
    var q :| 0 <= q < |c.order| && c.order[q] == k;
    var c', h' := AfterPut(capacity, c, k, v), h + [(k, v)];
    assert c'.order == Moved(c.order, q) by { WithoutDistinct(c.order, q); }
    MovedElements(c.order, q);
    forall p | 0 <= p < |c'.order|
      ensures Placed(c', h', p)
    {
      PlacedAfterMove(c, h, k, v, q, p);
    }
    forall x | LastPut(h', x) >= 0 && x !in c'.order
      ensures Forgotten(capacity, c', h', x)
    {
      assert x !in Elements(c'.order);
      LastPutStep(h, k, v, x);
      SinceStep(h, k, v, x);
      assert x !in c.order && x != k;
      assert Forgotten(capacity, c, h, x);
    }
  }

  lemma PlacedAfterMove<K, V>(c: Lru<K, V>, h: seq<(K, V)>, k: K, v: V, q: nat, p: nat)
    requires Distinct(c.order) && q < |c.order| && c.order[q] == k && p < |c.order|
    requires forall i :: 0 <= i < |c.order| ==> Placed(c, h, i)
    ensures Placed(Lru(Moved(c.order, q), c.entries[k := v]), h + [(k, v)], p)
  {
    var t := Moved(c.order, q);
    LastPutStep(h, k, v, t[p]);
    SinceStep(h, k, v, t[p]);
    if p < |t| - 1 {
      assert Placed(c, h, if p < q then p else p + 1);
      MovedBehind(c.order, q, p);
    } else {
      assert Behind(t, p) == {};
    }
  }

  /** The sequence with `k` added at the end, after its first `drop` elements are dropped. */
  ghost function Added<K>(s: seq<K>, drop: nat, k: K): (t: seq<K>)
    requires drop <= |s|
    ensures |t| == |s| - drop + 1 && t[|s| - drop] == k
    ensures forall j :: 0 <= j < |s| - drop ==> t[j] == s[j + drop]
    ensures forall j :: drop <= j < |s| ==> s[j] == t[j - drop]
  {
    s[drop..] + [k]
  }

  lemma AddedBehind<K>(s: seq<K>, drop: nat, k: K, p: int)
    requires drop <= |s| && -1 <= p < |s| - drop
    ensures Behind(Added(s, drop, k), p) == Behind(s, p + drop) + {k}
  {
    var t := Added(s, drop, k);
    forall x | x in Behind(s, p + drop) + {k}
      ensures x in Behind(t, p)
    {
      if x == k {
        assert t[|s| - drop] == x;
      } else {
        var i :| p + drop < i < |s| && s[i] == x;
        assert t[i - drop] == x;
      }
    }
  }

  lemma PlacedAfterAdd<K, V>(c: Lru<K, V>, entries: map<K, V>, h: seq<(K, V)>, drop: nat, k: K, v: V, p: nat)
    requires Distinct(c.order) && drop <= |c.order| && k !in c.order && p <= |c.order| - drop
    requires forall i :: 0 <= i < |c.order| ==> Placed(c, h, i)
    requires forall i :: drop <= i < |c.order| ==>
               c.order[i] in c.entries && c.order[i] in entries && entries[c.order[i]] == c.entries[c.order[i]]
    ensures Placed(Lru(Added(c.order, drop, k), entries[k := v]), h + [(k, v)], p)
  {
    var t := Added(c.order, drop, k);
    LastPutStep(h, k, v, t[p]);
    SinceStep(h, k, v, t[p]);
    if p < |t| - 1 {
      assert Placed(c, h, p + drop);
      AddedBehind(c.order, drop, k, p);
    } else {
      assert Behind(t, p) == {};
    }
  }

  /** The keys and the order of the table stay in step when a key is added. */
  lemma AddKeepsKeys<K, V>(c: Lru<K, V>, drop: nat, k: K, v: V)
    requires Distinct(c.order) && Elements(c.order) == c.entries.Keys && k !in c.entries
    requires drop <= 1 && drop <= |c.order|
    ensures var t, kept := Added(c.order, drop, k), c.entries - Elements(c.order[..drop]);
            && Distinct(t)
            && Elements(t) == kept[k := v].Keys
            && (forall i :: drop <= i < |c.order| ==>
                  c.order[i] in c.entries && c.order[i] in kept && kept[c.order[i]] == c.entries[c.order[i]])
  {
    var t, kept := Added(c.order, drop, k), c.entries - Elements(c.order[..drop]);
    forall i | 0 <= i < |c.order|
      ensures c.order[i] in c.entries && (i >= drop ==> c.order[i] in kept)
    {
      assert c.order[i] in Elements(c.order);
    }
    AddedBehind(c.order, drop, k, -1);
    assert Elements(t) == Behind(t, -1);
    assert Elements(c.order) == Behind(c.order, -1);
    assert kept.Keys == Behind(c.order, drop - 1);
  }

  /** Putting a new key, as one addition at the end after at most one drop at the front. */
  lemma PutNewAdds<K, V>(capacity: nat, c: Lru<K, V>, k: K, v: V, drop: nat)
    requires k !in c.entries && (|c.order| >= capacity ==> c.order != [])
    requires drop == if |c.order| >= capacity then 1 else 0
    ensures AfterPut(capacity, c, k, v) == Lru(Added(c.order, drop, k), (c.entries - Elements(c.order[..drop]))[k := v])
  {
    if drop == 1 {
      assert c.order[..1] == [c.order[0]];
      assert Elements(c.order[..1]) == {c.order[0]};
    } else {
      assert c.order[0..] == c.order;
      assert Elements(c.order[..0]) == {};
    }
  }

  lemma PutNew<K(!new), V>(capacity: nat, c: Lru<K, V>, h: seq<(K, V)>, k: K, v: V)
    requires capacity > 0 && Tracks(capacity, c, h) && k !in c.entries
    ensures Tracks(capacity, AfterPut(capacity, c, k, v), h + [(k, v)])
  {
    var c', h' := AfterPut(capacity, c, k, v), h + [(k, v)];
    var drop := if |c.order| >= capacity then 1 else 0;
    assert k !in Elements(c.order);
    PutNewAdds(capacity, c, k, v, drop);
    AddKeepsKeys(c, drop, k, v);
    forall p | 0 <= p < |c'.order|
      ensures Placed(c', h', p)
    {
      PlacedAfterAdd(c, c.entries - Elements(c.order[..drop]), h, drop, k, v, p);
    }
    forall x | LastPut(h', x) >= 0 && x !in c'.order
      ensures Forgotten(capacity, c', h', x)
    {
      ForgottenAfterAdd(capacity, c, h, drop, k, v, x);
    }
  }

  lemma ForgottenAfterAdd<K(!new), V>(capacity: nat, c: Lru<K, V>, h: seq<(K, V)>, drop: nat, k: K, v: V, x: K)
    requires capacity > 0 && Tracks(capacity, c, h) && k !in c.order
    requires drop == if |c.order| >= capacity then 1 else 0
    requires LastPut(h + [(k, v)], x) >= 0 && x !in Added(c.order, drop, k)
    ensures |Added(c.order, drop, k)| == capacity
    ensures Elements(Added(c.order, drop, k)) <= Since(h + [(k, v)], x)
  {
    var t := Added(c.order, drop, k);
    assert t[|t| - 1] == k;
    LastPutStep(h, k, v, x);
    SinceStep(h, k, v, x);
    AddedBehind(c.order, drop, k, -1);
    assert Elements(t) == Behind(t, -1);
    if x in c.order {
      var i :| 0 <= i < |c.order| && c.order[i] == x;
      assert i < drop;
      assert Placed(c, h, 0);
    } else {
      assert Forgotten(capacity, c, h, x);
      assert Behind(c.order, drop - 1) <= Elements(c.order);
    }
  }

  lemma {:induction false} TableTracks<K(!new), V>(capacity: nat, h: seq<(K, V)>)
    requires capacity > 0
    ensures Tracks(capacity, TableAfter(capacity, h), h)
  {
    if h != [] {
      var past := h[..|h| - 1];
      var (k, v) := h[|h| - 1];
      var c := TableAfter(capacity, past);
      TableTracks(capacity, past);
      assert h == past + [(k, v)];
      if k in c.entries {
        PutKnown(capacity, c, past, k, v);
      } else {
        PutNew(capacity, c, past, k, v);
      }
    }
  }

  /**
   The table refines its history: after any sequence of puts a key is held exactly when
   fewer than `capacity` distinct other keys were put since its last put, with the value
   of that last put; and never more than `capacity` keys are held.
   */
  lemma HoldsExactlyTheRecent<K(!new), V>(capacity: nat, h: seq<(K, V)>)
    requires capacity > 0
    ensures forall k :: k in TableAfter(capacity, h).entries <==> Recent(capacity, h, k)
    ensures forall k :: Recent(capacity, h, k) ==>
              TableAfter(capacity, h).entries[k] == h[LastPut(h, k)].1
    ensures |TableAfter(capacity, h).entries| <= capacity
  {
    TableTracks(capacity, h);
    var c := TableAfter(capacity, h);
    ElementsCount(c.order);
    assert |c.entries.Keys| == |c.order|;
    forall k
      ensures k in c.entries <==> Recent(capacity, h, k)
      ensures k in c.entries ==> c.entries[k] == h[LastPut(h, k)].1
    {
      TrackedKey(capacity, c, h, k);
    }
  }

  lemma TrackedKey<K(!new), V>(capacity: nat, c: Lru<K, V>, h: seq<(K, V)>, k: K)
    requires Tracks(capacity, c, h)
    ensures k in c.entries <==> Recent(capacity, h, k)
    ensures k in c.entries ==> c.entries[k] == h[LastPut(h, k)].1
  {
    if k in c.entries {
      assert k in Elements(c.order);
      var p :| 0 <= p < |c.order| && c.order[p] == k;
      assert Placed(c, h, p);
      assert Behind(c.order, p) == Elements(c.order[p + 1..]);
      ElementsCount(c.order[p + 1..]);
    } else if LastPut(h, k) >= 0 {
      assert k !in Elements(c.order);
      assert Forgotten(capacity, c, h, k);
      ElementsCount(c.order);
      SubsetCount(Elements(c.order), Since(h, k));
    }
  }

  /** The cache itself. The history is what has been put since it was created. */
  class LruCache<K(==, !new), V> {
    const capacity: nat
    var order: seq<K>
    var entries: map<K, V>
    ghost var history: seq<(K, V)>

    ghost function Table(): Lru<K, V>
      reads this
    {
      Lru(order, entries)
    }

    ghost predicate Valid()
      reads this
    {
      capacity > 0 && Table() == TableAfter(capacity, history)
    }

    /** The capacity is a `NonZeroUsize`. */
    constructor (capacity: nat)
      requires capacity > 0
      ensures Valid() && this.capacity == capacity && history == []
    {
      this.capacity := capacity;
      order := [];
      entries := map[];
      history := [];
    }

    method Put(k: K, v: V)
      requires Valid()
      modifies this
      ensures Valid() && history == old(history) + [(k, v)]
      ensures Table() == AfterPut(capacity, old(Table()), k, v)
    {
      TableTracks(capacity, history);
      assert (history + [(k, v)])[..|history|] == history;
      if k in entries {
        // promote
        order := Without(order, k);
      } else if |order| == capacity {
        // evict the oldest
        entries := entries - {order[0]};
        order := order[1..];
      }
      order := order + [k];
      entries := entries[k := v];
      history := history + [(k, v)];
    }

    /** Membership, without promoting the key. */
    method Contains(k: K) returns (present: bool)
      requires Valid()
      ensures present == Recent(capacity, history, k)
      ensures present == (k in Table().entries)
    {
      HoldsExactlyTheRecent(capacity, history);
      present := k in entries;
    }
  }
}
