/** The chained aggregate hash table.

    Entries live in a pool in creation order and are linked into buckets newest first; a
    resize relinks them all.  The table is proved to be a map from group keys to
    accumulators in first-appearance order, whatever the hash function. */
module AggTable {
  import opened Basics
  import opened Cells
  import opened Relational

  datatype AggEntry = AggEntry(key: Row, states: seq<AggState>, next: Option<nat>)

  const INITIAL_CAPACITY: nat := 256

  /** The bucket of a key.  The capacity is a power of two, so masking is the remainder. */
  function SlotOf(hash: Row -> nat, capacity: nat): Row -> nat
    requires capacity > 0
  {
    (key: Row) => hash(key) % capacity
  }

  method BucketOf(hash: Row -> nat, capacity: nat, key: Row) returns (h: nat)
    requires capacity > 0
    ensures h < capacity && SlotOf(hash, capacity)(key) == h
  {
    h := hash(key) % capacity;
  }

  /** The newest entry below n that belongs to bucket b. */
  function Newest(slot: Row -> nat, pool: seq<AggEntry>, b: nat, n: nat): Option<nat>
    requires n <= |pool|
  {
    if n == 0 then None
    else if slot(pool[n - 1].key) == b then Some(n - 1)
    else Newest(slot, pool, b, n - 1)
  }

  lemma {:induction false} NewestMeaning(slot: Row -> nat, pool: seq<AggEntry>, b: nat, n: nat)
    requires n <= |pool|
    ensures
      var r := Newest(slot, pool, b, n);
      && (r.Some? ==> r.value < n && slot(pool[r.value].key) == b)
      && forall i :: (if r.Some? then r.value + 1 else 0) <= i < n ==> slot(pool[i].key) != b
  {
    if n > 0 { NewestMeaning(slot, pool, b, n - 1); }
  }

  /** Newest depends only on the keys below n. */
  lemma {:induction false} NewestAgrees(slot: Row -> nat, p: seq<AggEntry>, q: seq<AggEntry>, b: nat, n: nat)
    requires n <= |p| && n <= |q| && forall i :: 0 <= i < n ==> p[i].key == q[i].key
    ensures Newest(slot, p, b, n) == Newest(slot, q, b, n)
  {
    if n > 0 { NewestAgrees(slot, p, q, b, n - 1); }
  }

  /** Every entry points at the next older one of its own bucket. */
  ghost predicate Linked(slot: Row -> nat, pool: seq<AggEntry>, n: nat)
    requires n <= |pool|
  {
    forall i: nat :: i < n ==> LinkOk(slot, pool, i)
  }

  predicate LinkOk(slot: Row -> nat, pool: seq<AggEntry>, i: nat)
    requires i < |pool|
  {
    pool[i].next == Newest(slot, pool, slot(pool[i].key), i)
  }

  /** Every bucket points at its newest entry. */
  ghost predicate Headed(slot: Row -> nat, pool: seq<AggEntry>, buckets: seq<Option<nat>>, n: nat)
    requires n <= |pool|
  {
    forall b :: 0 <= b < |buckets| ==> buckets[b] == Newest(slot, pool, b, n)
  }

  predicate DistinctKeys(pool: seq<AggEntry>) { forall i, j :: 0 <= i < j < |pool| ==> pool[i].key != pool[j].key }

  function EmptyStates(n: nat): seq<AggState> { seq(n, _ => EmptyState) }

  function GroupsOf(pool: seq<AggEntry>): seq<Group> {
    seq(|pool|, i requires 0 <= i < |pool| => Group(pool[i].key, pool[i].states))
  }

  // ----- Specification: a list of groups in first-appearance order -----

  predicate HasKey(gs: seq<Group>, key: Row) { exists i :: 0 <= i < |gs| && gs[i].key == key }

  function Touch(gs: seq<Group>, key: Row, n: nat): (r: seq<Group>)
    ensures HasKey(r, key)
  {
    if HasKey(gs, key) then gs
    else
      var r := gs + [Group(key, EmptyStates(n))];
      assert r[|gs|].key == key;
      r
  }

  class AggregateHashTable {
    const hash: Row -> nat
    const numAggregates: nat
    var pool: seq<AggEntry>
    var buckets: seq<Option<nat>>

    function Slot(): Row -> nat
      requires |buckets| > 0
      reads this
    {
      SlotOf(hash, |buckets|)
    }

    ghost predicate Valid()
      reads this
    {
      && |buckets| > 0 && DistinctKeys(pool)
      && Linked(Slot(), pool, |pool|) && Headed(Slot(), pool, buckets, |pool|)
      && forall i :: 0 <= i < |pool| ==> |pool[i].states| == numAggregates
    }

    function Groups(): seq<Group>
      reads this
    {
      GroupsOf(pool)
    }

    constructor (hash: Row -> nat, numAggregates: nat)
      ensures Valid() && Groups() == [] && this.hash == hash && this.numAggregates == numAggregates
    {
      this.hash, this.numAggregates := hash, numAggregates;
      pool, buckets := [], seq(INITIAL_CAPACITY, _ => None);
    }

    /** Walk one chain. */
    method Find(key: Row) returns (found: Option<nat>)
      requires Valid()
      ensures found.Some? ==> found.value < |pool| && pool[found.value].key == key
      ensures found.None? ==> forall i :: 0 <= i < |pool| ==> pool[i].key != key
    {
      var h := BucketOf(hash, |buckets|, key);
      found := Walk(Slot(), pool, buckets, h, key);
    }

    /** The entry of the key, created on first use; entries and their order are kept, even
        across a resize. */
    method FindOrCreate(key: Row) returns (idx: nat)
      requires Valid()
      modifies this
      ensures Valid() && Groups() == Touch(old(Groups()), key, numAggregates)
      ensures idx < |pool| && pool[idx].key == key
    {
      var found := Find(key);
      if found.Some? {
        assert Groups()[found.value].key == key;
        return found.value;
      }
      assert !HasKey(Groups(), key);
      idx := |pool|;
      Create(key);
      if |pool| > |buckets| * 3 / 4 {
        Resize();
      }
    }

    /** A new entry at the head of its chain. */
    method Create(key: Row)
      requires Valid() && forall i :: 0 <= i < |pool| ==> pool[i].key != key
      modifies this
      ensures Valid() && |pool| == old(|pool|) + 1 && pool[old(|pool|)].key == key && |buckets| == old(|buckets|)
      ensures Groups() == old(Groups()) + [Group(key, EmptyStates(numAggregates))]
    {
      var h := BucketOf(hash, |buckets|, key);
      var entry := AggEntry(key, EmptyStates(numAggregates), buckets[h]);
      Added(Slot(), pool, buckets, h, entry);
      MoreGroups(pool, entry);
      MoreKeys(pool, entry);
      pool, buckets := pool + [entry], buckets[h := Some(|pool|)];
    }

    method Resize()
      requires Valid()
      modifies this
      ensures Valid() && Groups() == old(Groups()) && |pool| == old(|pool|) && |buckets| == 2 * old(|buckets|)
      ensures forall i :: 0 <= i < |pool| ==> pool[i].key == old(pool)[i].key && pool[i].states == old(pool)[i].states
    {
      pool, buckets := Relink(hash, pool, 2 * |buckets|);
    }

    /** Set one accumulator of an entry. */
    method SetState(idx: nat, j: nat, s: AggState)
      requires Valid() && idx < |pool| && j < numAggregates
      modifies this`pool
      ensures Valid() && |pool| == old(|pool|)
      ensures Groups() == old(Groups())[idx := old(Groups()[idx].(states := Groups()[idx].states[j := s]))]
    {
      ghost var before := pool;
      pool := pool[idx := pool[idx].(states := pool[idx].states[j := s])];
      SameLinks(Slot(), before, pool, |pool|);
      SameHeads(Slot(), before, pool, buckets, |pool|);
      OneStateSet(before, idx, pool[idx].states);
    }
  }

  lemma MoreKeys(pool: seq<AggEntry>, entry: AggEntry)
    requires DistinctKeys(pool) && forall i :: 0 <= i < |pool| ==> pool[i].key != entry.key
    ensures DistinctKeys(pool + [entry])
  {
  }

  lemma OneStateSet(pool: seq<AggEntry>, idx: nat, states: seq<AggState>)
    requires idx < |pool|
    ensures GroupsOf(pool[idx := pool[idx].(states := states)]) ==
      GroupsOf(pool)[idx := GroupsOf(pool)[idx].(states := states)]
  {
  }

  lemma MoreGroups(pool: seq<AggEntry>, entry: AggEntry)
    ensures GroupsOf(pool + [entry]) == GroupsOf(pool) + [Group(entry.key, entry.states)]
  {
  }

  /** Walk one chain, newest entry first. */
  method Walk(slot: Row -> nat, pool: seq<AggEntry>, buckets: seq<Option<nat>>, h: nat, key: Row)
      returns (found: Option<nat>)
    requires h < |buckets| && slot(key) == h && Linked(slot, pool, |pool|) && Headed(slot, pool, buckets, |pool|)
    ensures found.Some? ==> found.value < |pool| && pool[found.value].key == key
    ensures found.None? ==> forall i :: 0 <= i < |pool| ==> pool[i].key != key
  {
    var e := buckets[h];
    NewestMeaning(slot, pool, h, |pool|);
    while e.Some?
      invariant e.Some? ==> e.value < |pool| && slot(pool[e.value].key) == h
      invariant forall i :: (if e.Some? then e.value + 1 else 0) <= i < |pool| ==> pool[i].key != key
      decreases if e.Some? then e.value + 1 else 0
    {
      if pool[e.value].key == key { return e; }
      assert LinkOk(slot, pool, e.value);
      NewestMeaning(slot, pool, h, e.value);
      e := pool[e.value].next;
    }
    return None;
  }

  /** Links below n depend only on the entries below n. */
  lemma SameLinks(slot: Row -> nat, p: seq<AggEntry>, q: seq<AggEntry>, n: nat)
    requires n <= |p| && n <= |q| && Linked(slot, p, n)
    requires forall i :: 0 <= i < n ==> p[i].key == q[i].key && p[i].next == q[i].next
    ensures Linked(slot, q, n)
  {
    forall i: nat | i < n ensures LinkOk(slot, q, i) {
      assert LinkOk(slot, p, i);
      NewestAgrees(slot, p, q, slot(p[i].key), i);
    }
  }

  lemma SameHeads(slot: Row -> nat, p: seq<AggEntry>, q: seq<AggEntry>, buckets: seq<Option<nat>>, n: nat)
    requires n <= |p| && n <= |q| && Headed(slot, p, buckets, n) && forall i :: 0 <= i < n ==> p[i].key == q[i].key
    ensures Headed(slot, q, buckets, n)
  {
    forall b | 0 <= b < |buckets| ensures buckets[b] == Newest(slot, q, b, n) {
      NewestAgrees(slot, p, q, b, n);
    }
  }

  /** Linking entry i in front of its chain. */
  lemma LinkOne(slot: Row -> nat, q: seq<AggEntry>, buckets: seq<Option<nat>>, h: nat, i: nat)
    requires i < |q| && h < |buckets| && Linked(slot, q, i) && Headed(slot, q, buckets, i)
    requires slot(q[i].key) == h && q[i].next == buckets[h]
    ensures Linked(slot, q, i + 1) && Headed(slot, q, buckets[h := Some(i)], i + 1)
  {
    assert buckets[h] == Newest(slot, q, h, i);
    assert LinkOk(slot, q, i);
    var buckets' := buckets[h := Some(i)];
    forall b: nat | b < |buckets'| ensures buckets'[b] == Newest(slot, q, b, i + 1) { NewestNext(slot, q, b, i); }
  }

  lemma NewestNext(slot: Row -> nat, pool: seq<AggEntry>, b: nat, i: nat)
    requires i < |pool|
    ensures Newest(slot, pool, b, i + 1) == if slot(pool[i].key) == b then Some(i) else Newest(slot, pool, b, i)
  {
  }

  lemma Added(slot: Row -> nat, pool: seq<AggEntry>, buckets: seq<Option<nat>>, h: nat, entry: AggEntry)
    requires h < |buckets| && Linked(slot, pool, |pool|) && Headed(slot, pool, buckets, |pool|)
    requires slot(entry.key) == h && entry.next == buckets[h]
    ensures Linked(slot, pool + [entry], |pool| + 1) &&
      Headed(slot, pool + [entry], buckets[h := Some(|pool|)], |pool| + 1)
  {
    SameLinks(slot, pool, pool + [entry], |pool|);
    SameHeads(slot, pool, pool + [entry], buckets, |pool|);
    LinkOne(slot, pool + [entry], buckets, h, |pool|);
  }

  lemma RelinkOne(slot: Row -> nat, pool: seq<AggEntry>, next: seq<AggEntry>, buckets: seq<Option<nat>>, h: nat, i: nat)
    requires i < |pool| && h < |buckets| && Linked(slot, pool, i) && Headed(slot, pool, buckets, i)
    requires slot(pool[i].key) == h && next == pool[i := pool[i].(next := buckets[h])]
    ensures Linked(slot, next, i + 1) && Headed(slot, next, buckets[h := Some(i)], i + 1)
  {
    SameLinks(slot, pool, next, i);
    SameHeads(slot, pool, next, buckets, i);
    LinkOne(slot, next, buckets, h, i);
  }

  /** Relink every entry, in pool order, into fresh buckets. */
  method Relink(hash: Row -> nat, entries: seq<AggEntry>, capacity: nat)
      returns (pool: seq<AggEntry>, buckets: seq<Option<nat>>)
    requires capacity > 0
    ensures |buckets| == capacity && |pool| == |entries|
    ensures forall i :: 0 <= i < |pool| ==> pool[i].key == entries[i].key && pool[i].states == entries[i].states
    ensures Linked(SlotOf(hash, capacity), pool, |pool|) && Headed(SlotOf(hash, capacity), pool, buckets, |pool|)
  {
    pool, buckets := entries, seq(capacity, _ => None);
    for i := 0 to |pool|
      invariant |buckets| == capacity && |pool| == |entries|
      invariant forall j :: 0 <= j < |pool| ==> pool[j].key == entries[j].key && pool[j].states == entries[j].states
      invariant Linked(SlotOf(hash, capacity), pool, i) && Headed(SlotOf(hash, capacity), pool, buckets, i)
    {
      var h := BucketOf(hash, capacity, pool[i].key);
      var next := pool[i := pool[i].(next := buckets[h])];
      RelinkOne(SlotOf(hash, capacity), pool, next, buckets, h, i);
      pool, buckets := next, buckets[h := Some(i)];
    }
  }
}
