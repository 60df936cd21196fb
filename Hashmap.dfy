/**
 * The table controller of src/hashmap.c: a Hashmap object owning one array
 * of slots and the size/capacity bookkeeping, with create, insert (and the
 * load-factor resize it triggers), get, remove, size and destroy.
 */
module Hashmap {
  import opened Wrappers
  import opened Hasher
  import opened Circular
  import opened Slots

  const INITIAL_CAPACITY: nat := 8

  /** The table grows before an insertion would make size exceed capacity / RECIPROCAL_LOAD_FACTOR. */
  const RECIPROCAL_LOAD_FACTOR: nat := 2

  class Hashmap<K(==), V> {
    var size: nat
    var capacity: nat
    /** The hash function of the hasher; key equality is ==. */
    const hash: K -> Hash
    /** The bucket array; capacity 0 stands for the NULL array. */
    var entries: array<Slot<K, V>>
    /** The key/value pairs the table holds. */
    ghost var Contents: map<K, V>

    /**
     * The representation invariant (validate_hashmap's checks and the load
     * bound that every public operation re-establishes).
     */
    ghost predicate Valid()
      reads this, entries
    {
      && entries.Length == capacity
      && size * RECIPROCAL_LOAD_FACTOR <= capacity
      && |Contents| == size
      && Holds(entries[..], hash, Contents, size)
      && AllReachable(entries[..])
    }

    /** The resize condition of increase_capacity_if_necessary. */
    predicate NeedsGrowth()
      reads this
    {
      (size + 1) * RECIPROCAL_LOAD_FACTOR > capacity
    }

    /** hashmap_init: an empty table of capacity 0. */
    constructor (hash: K -> Hash)
      ensures Valid() && fresh(entries)
      ensures this.hash == hash && size == 0 && capacity == 0 && Contents == map[]
    {
      this.hash := hash;
      size := 0;
      capacity := 0;
      entries := new Slot<K, V>[0](_ => Empty);
      Contents := map[];
    }

    /**
     * hashmap_init_with_capacity on an existing object: size 0 and an array
     * of newCapacity empty slots. Allocation can fail only for a positive
     * capacity; the object is then left inconsistent (no array).
     */
    method InitWithCapacity(newCapacity: nat, allocOk: bool) returns (success: bool)
      modifies this
      ensures size == 0 && capacity == newCapacity && Contents == map[]
      ensures success <==> newCapacity == 0 || allocOk
      ensures success ==> Valid() && fresh(entries)
    {
      size := 0;
      capacity := newCapacity;
      Contents := map[];
      if newCapacity != 0 && !allocOk {
        entries := new Slot<K, V>[0](_ => Empty);
        return false;
      }
      entries := new Slot<K, V>[newCapacity](_ => Empty);
      CountAllEmpty(entries[..]);
      success := true;
    }

    /**
     * hashmap_entry_find: the index of the slot holding key, walking
     * circularly from hash % capacity and giving up at the first empty slot
     * or after capacity steps.
     */
    method Find(key: K) returns (found: Option<nat>)
      requires Valid()
      ensures found == FindIndex(entries[..], key, hash(key))
      ensures found.Some? <==> key in Contents
      ensures found.Some? ==> found.value < capacity && entries[found.value].Occupied? && entries[found.value].key == key
    {
      FindAgreesWithContents(entries[..], hash, Contents, key);
      if capacity == 0 {
        return None;
      }
      var h := hash(key);
      var i: nat, k: nat := Home(h, capacity), 0;
      while k < capacity && entries[i].Occupied? && !(entries[i].hash == h && entries[i].key == key)
        invariant i < capacity && k <= capacity
        invariant FindIndex(entries[..], key, h) == Probe(entries[..], key, h, i, k)
        decreases capacity - k
      {
        i, k := Next(i, capacity), k + 1;
      }
      if k < capacity && entries[i].Occupied? {
        found := Some(i);
      } else {
        found := None;
      }
    }

    /** hashmap_get: the value stored under key, or None (NULL). */
    method Get(key: K) returns (value: Option<V>)
      requires Valid()
      ensures value == if key in Contents then Some(Contents[key]) else None
    {
      var found := Find(key);
      if found.None? {
        value := None;
      } else {
        value := Some(entries[found.value].value);
      }
    }

    /** hashmap_size. */
    function Size(): (n: nat)
      reads this, entries
      requires Valid()
      ensures n == |Contents|
    {
      size
    }

    /**
     * increase_capacity_if_necessary: when one more entry would break the
     * load bound, reallocate at 8 slots (from 0) or twice the capacity and
     * re-insert every entry; if allocation fails, restore the old table.
     */
    method IncreaseCapacity(allocOk: bool) returns (success: bool)
      requires Valid()
      modifies this
      decreases if NeedsGrowth() then 1 else 0, 0
      ensures Valid() && size == old(size) && Contents == old(Contents)
      ensures success <==> !old(NeedsGrowth()) || allocOk
      ensures success ==> !NeedsGrowth()
      ensures !old(NeedsGrowth()) || !success ==> capacity == old(capacity) && entries == old(entries)
      ensures old(NeedsGrowth()) && success ==>
        fresh(entries) && capacity == if old(capacity) == 0 then INITIAL_CAPACITY else 2 * old(capacity)
    {
      if NeedsGrowth() {
        var oldSize, oldCapacity, oldEntries := size, capacity, entries;
        ghost var oldContents := Contents;
        ghost var before := entries[..];
        var newCapacity := if oldCapacity == 0 then INITIAL_CAPACITY else 2 * oldCapacity;
        success := InitWithCapacity(newCapacity, allocOk);
        if !success {
          size, capacity, entries := oldSize, oldCapacity, oldEntries;
          Contents := oldContents;
          return;
        }
        var i := 0;
        while i < oldCapacity
          invariant i <= oldCapacity
          invariant Valid() && fresh(entries) && capacity == newCapacity
          invariant oldEntries[..] == before
          invariant size == Count(before[..i]) && Abstracts(before[..i], Contents)
        {
          PrefixStep(before, Contents, i);
          if oldEntries[i].Occupied? {
            var inserted, _ := Insert(oldEntries[i].key, oldEntries[i].value, true);
            assert inserted;
          }
          i := i + 1;
        }
        assert before[..oldCapacity] == before;
        AbstractsUnique(before, Contents, oldContents);
        assert size == oldSize;
      }
      success := true;
    }

    /**
     * The walk of hashmap_insert: starting at hash % capacity, the first
     * slot that is empty or already holds key; every slot passed over holds
     * another key.
     */
    method InsertionSlot(key: K, ghost e: nat) returns (i: nat)
      requires entries.Length == capacity && e < capacity && entries[e].Empty?
      requires Cached(entries[..], hash)
      ensures i < capacity && (entries[i].Empty? || entries[i].key == key)
      ensures PassedOver(entries[..], key, hash(key), i)
    {
      var h := hash(key);
      i := Home(h, capacity);
      ghost var p: nat := i;
      while entries[i].Occupied? && !(entries[i].hash == h && entries[i].key == key)
        invariant i < capacity && Dist(p, i, capacity) <= Dist(p, e, capacity)
        invariant forall x: nat :: x < capacity && Dist(p, x, capacity) < Dist(p, i, capacity) ==>
          entries[x].Occupied? && entries[x].key != key
        decreases Dist(p, e, capacity) - Dist(p, i, capacity)
      {
        StepTowards(p, i, e, capacity);
        i := Next(i, capacity);
      }
    }

    /**
     * hashmap_insert once the load bound leaves room: an empty slot met by
     * the walk receives the new entry; a slot with the same key reports the
     * stored value and nothing changes.
     */
    method ProbeAndPlace(key: K, value: V) returns (inserted: bool, entry: Option<V>)
      requires Valid() && !NeedsGrowth()
      modifies this, entries
      ensures Valid() && entries == old(entries) && capacity == old(capacity)
      ensures key !in old(Contents) ==>
        inserted && entry == Some(value) && Contents == old(Contents)[key := value] && size == old(size) + 1
      ensures key in old(Contents) ==>
        !inserted && entry == Some(old(Contents)[key]) && Contents == old(Contents) && size == old(size)
        && entries[..] == old(entries[..])
      ensures inserted ==> exists e: nat :: (e < capacity && old(entries[e]).Empty? && PassedOver(old(entries[..]), key, hash(key), e)
        && entries[..] == old(entries[..])[e := Occupied(key, value, hash(key))])
    {
      ghost var s := entries[..];
      ghost var e: nat := EmptySlotExists(s);
      var i := InsertionSlot(key, e);
      if entries[i].Empty? {
        PlaceNew(s, hash, Contents, size, i, key, value);
        entries[i] := Occupied(key, value, hash(key));
        size := size + 1;
        Contents := Contents[key := value];
        return true, Some(value);
      }
      return false, Some(entries[i].value);
    }

    /**
     * hashmap_insert: grow if needed (before looking for the key), then
     * insert. Three outcomes: inserted (true, the new value), key already
     * present (false, the stored value, nothing overwritten), or growth
     * failed (false, None, table untouched).
     */
    method Insert(key: K, value: V, allocOk: bool) returns (inserted: bool, entry: Option<V>)
      requires Valid()
      modifies this, entries
      decreases if NeedsGrowth() then 1 else 0, 1
      ensures Valid()
      ensures entries == old(entries) || fresh(entries)
      ensures !old(NeedsGrowth()) ==> capacity == old(capacity) && entries == old(entries)
      ensures old(NeedsGrowth()) && allocOk ==>
        capacity == if old(capacity) == 0 then INITIAL_CAPACITY else 2 * old(capacity)
      ensures old(NeedsGrowth()) && !allocOk ==>
        !inserted && entry == None && size == old(size) && Contents == old(Contents)
        && capacity == old(capacity) && entries == old(entries) && entries[..] == old(entries[..])
      ensures (!old(NeedsGrowth()) || allocOk) && key !in old(Contents) ==>
        inserted && entry == Some(value) && Contents == old(Contents)[key := value] && size == old(size) + 1
      ensures (!old(NeedsGrowth()) || allocOk) && key in old(Contents) ==>
        !inserted && entry == Some(old(Contents)[key]) && Contents == old(Contents) && size == old(size)
    {
      var success := IncreaseCapacity(allocOk);
      if !success {
        return false, None;
      }
      inserted, entry := ProbeAndPlace(key, value);
    }

    /**
     * hashmap_remove with backward-shift deletion: clear the key's slot and
     * walk on circularly, moving back into the open slot every entry whose
     * preferred index is not in (open slot, current slot], until an empty
     * slot is met.
     */
    method Remove(key: K) returns (removed: Option<HashmapEntry<K, V>>)
      requires Valid()
      modifies this, entries
      ensures Valid() && entries == old(entries) && capacity == old(capacity)
      ensures key !in old(Contents) ==>
        removed == None && size == old(size) && Contents == old(Contents) && entries[..] == old(entries[..])
      ensures key in old(Contents) ==>
        removed == Some(HashmapEntry(key, old(Contents)[key]))
        && size == old(size) - 1 && Contents == old(Contents) - {key}
    {
      var found := Find(key);
      if found.None? {
        return None;
      }
      var toRemove: nat := found.value;
      removed := Some(HashmapEntry(entries[toRemove].key, entries[toRemove].value));
      ghost var s := entries[..];
      ghost var e: nat := EmptySlotExists(s);
      ClearSlot(s, hash, Contents, size, toRemove);
      ShiftStart(s, toRemove);
      var _ := ShiftBack(toRemove, Contents - {key}, size - 1, e);
      size := size - 1;
      Contents := Contents - {key};
    }

    /**
     * The walk of hashmap_remove once the removed entry's slot (gap) is
     * given up: every later entry of the cluster whose preferred index is
     * not in (open slot, its slot] moves back into the open slot, which
     * then moves on to the slot it left; the last open slot is cleared.
     */
    method ShiftBack(gap: nat, ghost m: map<K, V>, ghost n: nat, ghost e: nat) returns (stop: nat)
      requires entries.Length == capacity && e < capacity && gap < capacity && e != gap && entries[e].Empty?
      requires ShiftInv(entries[..][gap := Empty], gap, Next(gap, capacity))
      requires Holds(entries[..][gap := Empty], hash, m, n)
      modifies entries
      ensures Holds(entries[..], hash, m, n) && AllReachable(entries[..])
      ensures stop < capacity && stop != gap && old(entries[stop]).Empty? && entries[stop].Empty?
      ensures OccupiedBetween(old(entries[..]), gap, stop)
      ensures SameFrom(entries[..], old(entries[..]), gap, stop)
    {
      ghost var s0 := entries[..];
      DistNext(gap, gap, capacity);
      var toReplace: nat := gap;
      var current: nat := Next(gap, capacity);
      while entries[current].Occupied?
        invariant toReplace < capacity && current < capacity && current != gap
        invariant Dist(gap, toReplace, capacity) < Dist(gap, current, capacity) <= Dist(gap, e, capacity)
        invariant ShiftInv(entries[..][toReplace := Empty], toReplace, current)
        invariant Holds(entries[..][toReplace := Empty], hash, m, n)
        invariant OccupiedBetween(s0, gap, current)
        invariant SameFrom(entries[..], s0, gap, current)
        decreases Dist(gap, e, capacity) - Dist(gap, current, capacity)
      {
        StepTowards(gap, current, e, capacity);
        ghost var before := entries[..];
        assert before[current] == s0[current];
        OccupiedBetweenStep(s0, gap, current);
        SameFromStep(before, s0, gap, toReplace, before[current], current, Next(current, capacity));
        toReplace := ShiftStep(toReplace, current, m, n);
        current := Next(current, capacity);
      }
      assert entries[..][current] == s0[current];
      ghost var v := entries[..][toReplace := Empty];
      ShiftEnd(v, toReplace, current);
      SameFromStep(entries[..], s0, gap, toReplace, Empty, current, current);
      entries[toReplace] := Empty;
      stop := current;
    }

    /**
     * One slot of hashmap_remove's walk: the entry at current moves back
     * into the open slot toReplace exactly when its preferred index is not
     * in (toReplace, current]; the open slot is then the one it left.
     */
    method ShiftStep(toReplace: nat, current: nat, ghost m: map<K, V>, ghost n: nat) returns (open: nat)
      requires entries.Length == capacity && toReplace < capacity && current < capacity
      requires entries[current].Occupied? && Next(current, capacity) != toReplace
      requires ShiftInv(entries[..][toReplace := Empty], toReplace, current)
      requires Holds(entries[..][toReplace := Empty], hash, m, n)
      modifies entries
      ensures open == current ==> entries[..] == old(entries[..])[toReplace := old(entries[current])]
      ensures open == toReplace ==> entries[..] == old(entries[..])
      ensures open == toReplace || open == current
      ensures open == current <==> !InOpenClosed(Home(old(entries[current]).hash, capacity), toReplace, current, capacity)
      ensures ShiftInv(entries[..][open := Empty], open, Next(current, capacity))
      ensures Holds(entries[..][open := Empty], hash, m, n)
    {
      ghost var v := entries[..][toReplace := Empty];
      var preferred: nat := Home(entries[current].hash, capacity);
      MovesBackIsCircular(toReplace, current, preferred, capacity);
      if MovesBack(toReplace, current, preferred) {
        ShiftMove(v, toReplace, current);
        MoveEntry(v, hash, m, n, current, toReplace);
        UpdateTwice(entries[..], toReplace, Empty, entries[current]);
        entries[toReplace] := entries[current];
        open := current;
      } else {
        ShiftKeep(v, toReplace, current);
        open := toReplace;
      }
    }

    /**
     * hashmap_destroy's cleanup pass: the (key, value) pairs handed to the
     * cleanup callbacks, in slot order; each stored pair exactly once.
     */
    method Destroy() returns (visited: seq<HashmapEntry<K, V>>)
      requires Valid()
      ensures |visited| == |Contents|
      ensures forall i :: 0 <= i < |visited| ==> visited[i].key in Contents && Contents[visited[i].key] == visited[i].value
      ensures forall i, j :: 0 <= i < j < |visited| ==> visited[i].key != visited[j].key
    {
      visited := [];
      var i := 0;
      while i < capacity
        invariant i <= capacity
        invariant visited == Live(entries[..i])
      {
        assert entries[..i + 1][..i] == entries[..i];
        if entries[i].Occupied? {
          visited := visited + [HashmapEntry(entries[i].key, entries[i].value)];
        }
        i := i + 1;
      }
      assert entries[..capacity] == entries[..];
      LiveIsContents(entries[..], hash, Contents);
    }
  }

  /** hashmap_create: a new empty table, or null when the object cannot be allocated. */
  method Create<K(==), V>(hash: K -> Hash, allocOk: bool) returns (m: Hashmap?<K, V>)
    ensures m != null <==> allocOk
    ensures m != null ==> fresh(m) && fresh(m.entries) && m.Valid() && m.hash == hash
    ensures m != null ==> m.size == 0 && m.capacity == 0 && m.Contents == map[]
  {
    if !allocOk {
      return null;
    }
    m := new Hashmap(hash);
  }
}
