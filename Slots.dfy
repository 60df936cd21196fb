/**
 * The bucket array seen as a sequence of slots, and the representation
 * invariant of the table (what validate_hashmap checks), stated over it.
 */
module Slots {
  import opened Wrappers
  import opened Hasher
  import opened Circular

  /** One bucket: empty (key and value NULL) or a live entry with its cached hash. */
  datatype Slot<K, V> = Empty | Occupied(key: K, value: V, hash: Hash)

  /** A (key, value) pair, as handed back by remove and to destroy's callbacks. */
  datatype HashmapEntry<K, V> = HashmapEntry(key: K, value: V)

  /** The preferred index of an entry with hash h: hash % capacity. */
  function Home(h: Hash, n: nat): (p: nat)
    requires n > 0
    ensures p < n
  {
    h % n
  }

  function Occupancy<K, V>(x: Slot<K, V>): nat
  {
    if x.Occupied? then 1 else 0
  }

  /** Number of occupied slots. */
  ghost function Count<K, V>(s: seq<Slot<K, V>>): (c: nat)
    ensures c <= |s|
  {
    if s == [] then 0 else Count(s[..|s| - 1]) + Occupancy(s[|s| - 1])
  }

  /** The live entries in index order. */
  ghost function Live<K, V>(s: seq<Slot<K, V>>): seq<HashmapEntry<K, V>>
  {
    if s == [] then []
    else
      var last := s[|s| - 1];
      Live(s[..|s| - 1]) + if last.Occupied? then [HashmapEntry(last.key, last.value)] else []
  }

  // ---------------------------------------------------------------------
  // The representation invariant

  /** Each occupied slot caches the hash of its key. */
  ghost predicate Cached<K, V>(s: seq<Slot<K, V>>, hash: K -> Hash)
  {
    forall i :: 0 <= i < |s| && s[i].Occupied? ==> s[i].hash == hash(s[i].key)
  }

  /** No key is stored twice. */
  ghost predicate Distinct<K, V>(s: seq<Slot<K, V>>)
  {
    forall i, j :: 0 <= i < |s| && 0 <= j < |s| && i != j && s[i].Occupied? && s[j].Occupied? ==>
      s[i].key != s[j].key
  }

  /** Every slot from the preferred index of slot j up to (not including) j is occupied. */
  ghost predicate Reachable<K, V>(s: seq<Slot<K, V>>, j: nat)
    requires j < |s| && s[j].Occupied?
  {
    var n, p := |s|, Home(s[j].hash, |s|);
    forall x: nat :: x < n && Dist(p, x, n) < Dist(p, j, n) ==> s[x].Occupied?
  }

  /** As Reachable, except that the slot at index gap need not be occupied. */
  ghost predicate ReachableExcept<K, V>(s: seq<Slot<K, V>>, j: nat, gap: nat)
    requires j < |s| && s[j].Occupied?
  {
    var n, p := |s|, Home(s[j].hash, |s|);
    forall x: nat :: x < n && x != gap && Dist(p, x, n) < Dist(p, j, n) ==> s[x].Occupied?
  }

  ghost predicate AllReachable<K, V>(s: seq<Slot<K, V>>)
  {
    forall j {:trigger Reachable(s, j)} :: 0 <= j < |s| && s[j].Occupied? ==> Reachable(s, j)
  }

  /** Cached hashes, no duplicate key, and probe reachability of every entry. */
  ghost predicate WellFormed<K, V>(s: seq<Slot<K, V>>, hash: K -> Hash)
  {
    Cached(s, hash) && Distinct(s) && AllReachable(s)
  }

  /** The slots hold exactly the n pairs of the map m, each under its cached hash and once. */
  ghost predicate Holds<K, V>(s: seq<Slot<K, V>>, hash: K -> Hash, m: map<K, V>, n: nat)
  {
    Cached(s, hash) && Distinct(s) && Abstracts(s, m) && Count(s) == n
  }

  /** The slots hold exactly the pairs of the map m. */
  ghost predicate Abstracts<K, V>(s: seq<Slot<K, V>>, m: map<K, V>)
  {
    && (forall i :: 0 <= i < |s| && s[i].Occupied? ==> s[i].key in m && m[s[i].key] == s[i].value)
    && (forall k :: k in m ==> exists i :: 0 <= i < |s| && s[i].Occupied? && s[i].key == k)
  }

  // ---------------------------------------------------------------------
  // Lookup (hashmap_entry_find) as a function

  /**
   * The probe loop of hashmap_entry_find from index i after k steps: stop
   * at an empty slot, at a slot whose cached hash is h and whose key is key,
   * or after |s| steps.
   */
  ghost function Probe<K, V>(s: seq<Slot<K, V>>, key: K, h: Hash, i: nat, k: nat): (r: Option<nat>)
    requires i < |s| && k <= |s|
    ensures r.Some? ==> r.value < |s| && s[r.value].Occupied? && s[r.value].key == key && s[r.value].hash == h
    decreases |s| - k
  {
    if k == |s| then None
    else if s[i].Empty? then None
    else if s[i].hash == h && s[i].key == key then Some(i)
    else Probe(s, key, h, Next(i, |s|), k + 1)
  }

  /** Every slot that the probe for key (hash h) visits before index i holds some other key. */
  ghost predicate PassedOver<K, V>(s: seq<Slot<K, V>>, key: K, h: Hash, i: nat)
    requires i < |s|
  {
    var n, p := |s|, Home(h, |s|);
    forall x: nat :: x < n && Dist(p, x, n) < Dist(p, i, n) ==> s[x].Occupied? && s[x].key != key
  }

  /** hashmap_entry_find: NULL for capacity 0, else the probe from hash % capacity. */
  ghost function FindIndex<K, V>(s: seq<Slot<K, V>>, key: K, h: Hash): (r: Option<nat>)
    ensures r.Some? ==> r.value < |s| && s[r.value].Occupied? && s[r.value].key == key && s[r.value].hash == h
  {
    if |s| == 0 then None else Probe(s, key, h, Home(h, |s|), 0)
  }

  /** The probe from p reaches slot j when every slot before j on the way is occupied by another key. */
  lemma {:induction false} ProbeReaches<K, V>(s: seq<Slot<K, V>>, key: K, h: Hash, i: nat, k: nat, j: nat)
    requires |s| > 0 && i < |s| && j < |s|
    requires s[j].Occupied? && s[j].key == key && s[j].hash == h
    requires Dist(Home(h, |s|), i, |s|) == k <= Dist(Home(h, |s|), j, |s|)
    requires forall x: nat :: x < |s| && Dist(Home(h, |s|), x, |s|) < Dist(Home(h, |s|), j, |s|) ==>
      s[x].Occupied? && s[x].key != key
    ensures Probe(s, key, h, i, k) == Some(j)
    decreases Dist(Home(h, |s|), j, |s|) - k
  {
    var n, p := |s|, Home(h, |s|);
    if i != j {
      DistNext(p, i, n);
      ProbeReaches(s, key, h, Next(i, n), k + 1, j);
    }
  }

  /** In a well-formed table every stored key is found, at its own slot. */
  lemma FindLocates<K, V>(s: seq<Slot<K, V>>, hash: K -> Hash, j: nat)
    requires WellFormed(s, hash)
    requires j < |s| && s[j].Occupied?
    ensures FindIndex(s, s[j].key, hash(s[j].key)) == Some(j)
  {
    var n, p := |s|, Home(s[j].hash, |s|);
    assert Reachable(s, j);
    ProbeReaches(s, s[j].key, s[j].hash, p, 0, j);
  }

  /** Lookup in a well-formed table agrees with the map it represents. */
  lemma FindAgreesWithContents<K, V>(s: seq<Slot<K, V>>, hash: K -> Hash, m: map<K, V>, key: K)
    requires WellFormed(s, hash) && Abstracts(s, m)
    ensures FindIndex(s, key, hash(key)).Some? <==> key in m
    ensures key in m ==> s[FindIndex(s, key, hash(key)).value].value == m[key]
  {
    if key in m {
      var j :| 0 <= j < |s| && s[j].Occupied? && s[j].key == key;
      FindLocates(s, hash, j);
    }
  }

  /**
   * A probe for key that meets an empty slot at index e, after passing only
   * occupied slots holding other keys, proves that key is absent.
   */
  lemma AbsentAtEmpty<K, V>(s: seq<Slot<K, V>>, hash: K -> Hash, key: K, e: nat)
    requires WellFormed(s, hash)
    requires e < |s| && s[e].Empty? && PassedOver(s, key, hash(key), e)
    ensures forall j :: 0 <= j < |s| && s[j].Occupied? ==> s[j].key != key
  {
    forall j | 0 <= j < |s| && s[j].Occupied?
      ensures s[j].key != key
    {
      assert Reachable(s, j);
    }
  }

  /**
   * validate_hashmap's checks hold of a well-formed table whose size is the
   * number of occupied slots: size <= capacity, every cached hash is right,
   * and every entry is retrievable by lookup.
   */
  lemma ConsistencyChecksHold<K, V>(s: seq<Slot<K, V>>, hash: K -> Hash, size: nat)
    requires WellFormed(s, hash) && Count(s) == size
    ensures size <= |s|
    ensures forall i :: 0 <= i < |s| && s[i].Occupied? ==>
      s[i].hash == hash(s[i].key) && FindIndex(s, s[i].key, hash(s[i].key)) == Some(i)
  {
    forall i | 0 <= i < |s| && s[i].Occupied?
      ensures FindIndex(s, s[i].key, hash(s[i].key)) == Some(i)
    {
      FindLocates(s, hash, i);
    }
  }

  // ---------------------------------------------------------------------
  // Counting

  lemma {:induction false} CountUpdate<K, V>(s: seq<Slot<K, V>>, i: nat, x: Slot<K, V>)
    requires i < |s|
    ensures Count(s[i := x]) == Count(s) - Occupancy(s[i]) + Occupancy(x)
  {
    var last := |s| - 1;
    if i == last {
      assert s[i := x][..last] == s[..last];
    } else {
      assert s[i := x][..last] == s[..last][i := x];
      CountUpdate(s[..last], i, x);
    }
  }

  lemma {:induction false} CountAllEmpty<K, V>(s: seq<Slot<K, V>>)
    requires forall i :: 0 <= i < |s| ==> s[i].Empty?
    ensures Count(s) == 0
  {
    if s != [] {
      CountAllEmpty(s[..|s| - 1]);
    }
  }

  /** Fewer occupied slots than slots: some slot is empty. */
  lemma {:induction false} EmptySlotExists<K, V>(s: seq<Slot<K, V>>) returns (e: nat)
    requires Count(s) < |s|
    ensures e < |s| && s[e].Empty?
  {
    var last := |s| - 1;
    if s[last].Empty? {
      e := last;
    } else {
      e := EmptySlotExists(s[..last]);
    }
  }

  /** A second update of the same index overrides the first. */
  lemma UpdateTwice<T>(s: seq<T>, i: nat, a: T, b: T)
    requires i < |s|
    ensures s[i := a][i := b] == s[i := b]
  {
  }

  /** Counting a prefix one slot further. */
  lemma CountPrefixStep<K, V>(s: seq<Slot<K, V>>, i: nat)
    requires i < |s|
    ensures Count(s[..i + 1]) == Count(s[..i]) + Occupancy(s[i])
  {
    assert s[..i + 1][..i] == s[..i];
  }

  /** A prefix never has more occupied slots than the whole. */
  lemma {:induction false} CountPrefixBound<K, V>(s: seq<Slot<K, V>>, i: nat)
    requires i <= |s|
    ensures Count(s[..i]) <= Count(s)
    decreases |s| - i
  {
    if i == |s| {
      assert s[..i] == s;
    } else {
      CountPrefixStep(s, i);
      CountPrefixBound(s, i + 1);
    }
  }

  // ---------------------------------------------------------------------
  // The live entries (what destroy visits)

  lemma {:induction false} LiveLength<K, V>(s: seq<Slot<K, V>>)
    ensures |Live(s)| == Count(s)
  {
    if s != [] {
      LiveLength(s[..|s| - 1]);
    }
  }

  lemma {:induction false} LiveFromSlots<K, V>(s: seq<Slot<K, V>>, i: nat)
    requires i < |Live(s)|
    ensures exists j :: 0 <= j < |s| && s[j].Occupied? && s[j].key == Live(s)[i].key && s[j].value == Live(s)[i].value
  {
    var last := |s| - 1;
    var prefix := s[..last];
    if i < |Live(prefix)| {
      LiveFromSlots(prefix, i);
      var j :| 0 <= j < |prefix| && prefix[j].Occupied? && prefix[j].key == Live(prefix)[i].key
        && prefix[j].value == Live(prefix)[i].value;
      assert s[j] == prefix[j];
    } else {
      assert s[last].Occupied?;
    }
  }

  lemma {:induction false} LiveDistinct<K, V>(s: seq<Slot<K, V>>)
    requires Distinct(s)
    ensures forall a, b :: 0 <= a < b < |Live(s)| ==> Live(s)[a].key != Live(s)[b].key
  {
    if s != [] {
      var last := |s| - 1;
      var prefix := s[..last];
      assert Distinct(prefix) by {
        forall a, b | 0 <= a < |prefix| && 0 <= b < |prefix| && a != b && prefix[a].Occupied? && prefix[b].Occupied?
          ensures prefix[a].key != prefix[b].key
        {
          assert prefix[a] == s[a] && prefix[b] == s[b];
        }
      }
      LiveDistinct(prefix);
      if s[last].Occupied? {
        forall a | 0 <= a < |Live(prefix)|
          ensures Live(prefix)[a].key != s[last].key
        {
          LiveFromSlots(prefix, a);
          var j :| 0 <= j < |prefix| && prefix[j].Occupied? && prefix[j].key == Live(prefix)[a].key
            && prefix[j].value == Live(prefix)[a].value;
          assert s[j] == prefix[j];
        }
      }
    }
  }

  /**
   * The live entries of a table that represents m are m's pairs, each key
   * once, and there are |m| of them.
   */
  lemma LiveIsContents<K, V>(s: seq<Slot<K, V>>, hash: K -> Hash, m: map<K, V>)
    requires WellFormed(s, hash) && Abstracts(s, m) && Count(s) == |m|
    ensures |Live(s)| == |m|
    ensures forall i :: 0 <= i < |Live(s)| ==> Live(s)[i].key in m && m[Live(s)[i].key] == Live(s)[i].value
    ensures forall a, b :: 0 <= a < b < |Live(s)| ==> Live(s)[a].key != Live(s)[b].key
  {
    LiveLength(s);
    LiveDistinct(s);
    forall i | 0 <= i < |Live(s)|
      ensures Live(s)[i].key in m && m[Live(s)[i].key] == Live(s)[i].value
    {
      LiveFromSlots(s, i);
    }
  }

  // ---------------------------------------------------------------------
  // The abstract map under slot updates

  /** Clearing the slot of key k removes k from the represented map. */
  lemma ClearSlot<K, V>(s: seq<Slot<K, V>>, hash: K -> Hash, m: map<K, V>, n: nat, t: nat)
    requires Holds(s, hash, m, n)
    requires t < |s| && s[t].Occupied?
    ensures n > 0 && Holds(s[t := Empty], hash, m - {s[t].key}, n - 1)
  {
    CountUpdate(s, t, Empty);
    var s', k := s[t := Empty], s[t].key;
    forall key | key in m - {k}
      ensures exists i :: 0 <= i < |s'| && s'[i].Occupied? && s'[i].key == key
    {
      var i :| 0 <= i < |s| && s[i].Occupied? && s[i].key == key;
      assert s'[i] == s[i];
    }
  }

  /** Filling an empty slot with a new key adds that pair to the represented map. */
  lemma FillSlot<K, V>(s: seq<Slot<K, V>>, m: map<K, V>, e: nat, key: K, value: V, h: Hash)
    requires Abstracts(s, m) && key !in m
    requires e < |s| && s[e].Empty?
    ensures Abstracts(s[e := Occupied(key, value, h)], m[key := value])
    ensures Count(s[e := Occupied(key, value, h)]) == Count(s) + 1
  {
    CountUpdate(s, e, Occupied(key, value, h));
    var s' := s[e := Occupied(key, value, h)];
    forall k | k in m || k == key
      ensures exists i :: 0 <= i < |s'| && s'[i].Occupied? && s'[i].key == k
    {
      if k == key {
        assert s'[e].key == k;
      } else {
        var i :| 0 <= i < |s| && s[i].Occupied? && s[i].key == k;
        assert s'[i] == s[i];
      }
    }
  }

  /** Moving an entry into an empty slot and clearing its old slot keeps the map and the count. */
  lemma MoveEntry<K, V>(v: seq<Slot<K, V>>, hash: K -> Hash, m: map<K, V>, n: nat, from: nat, to: nat)
    requires Holds(v, hash, m, n)
    requires from < |v| && to < |v| && v[from].Occupied? && v[to].Empty?
    ensures Holds(v[to := v[from]][from := Empty], hash, m, n)
  {
    var w := v[to := v[from]];
    var v' := w[from := Empty];
    CountUpdate(v, to, v[from]);
    CountUpdate(w, from, Empty);
    forall k | k in m
      ensures exists i :: 0 <= i < |v'| && v'[i].Occupied? && v'[i].key == k
    {
      var i :| 0 <= i < |v| && v[i].Occupied? && v[i].key == k;
      if i == from {
        assert v'[to] == v[from];
      } else {
        assert v'[i] == v[i];
      }
    }
    forall a, b | 0 <= a < |v'| && 0 <= b < |v'| && a != b && v'[a].Occupied? && v'[b].Occupied?
      ensures v'[a].key != v'[b].key
    {
      var a0 := if a == to then from else a;
      var b0 := if b == to then from else b;
      assert v'[a] == v[a0] && v'[b] == v[b0];
    }
  }

  /** Extending a prefix of s by slot i extends the represented map by that slot's pair. */
  lemma AbstractsExtend<K, V>(s: seq<Slot<K, V>>, m: map<K, V>, i: nat)
    requires i < |s| && Abstracts(s[..i], m)
    requires s[i].Occupied? ==> s[i].key !in m
    ensures Abstracts(s[..i + 1], if s[i].Occupied? then m[s[i].key := s[i].value] else m)
  {
    var p, p' := s[..i], s[..i + 1];
    var m' := if s[i].Occupied? then m[s[i].key := s[i].value] else m;
    forall j | 0 <= j < |p'| && p'[j].Occupied?
      ensures p'[j].key in m' && m'[p'[j].key] == p'[j].value
    {
      if j < i {
        assert p'[j] == p[j];
      }
    }
    forall k | k in m'
      ensures exists j :: 0 <= j < |p'| && p'[j].Occupied? && p'[j].key == k
    {
      if s[i].Occupied? && k == s[i].key {
        assert p'[i] == s[i];
      } else {
        var j :| 0 <= j < |p| && p[j].Occupied? && p[j].key == k;
        assert p'[j] == p[j];
      }
    }
  }

  /**
   * Re-inserting the entries of s in index order: after slot i the pairs of
   * the prefix up to i are the previous ones plus slot i's, and they never
   * outnumber the entries of s.
   */
  lemma PrefixStep<K, V>(s: seq<Slot<K, V>>, m: map<K, V>, i: nat)
    requires Distinct(s) && i < |s| && Abstracts(s[..i], m)
    ensures Count(s[..i + 1]) == Count(s[..i]) + Occupancy(s[i]) <= Count(s)
    ensures s[i].Occupied? ==> s[i].key !in m && Abstracts(s[..i + 1], m[s[i].key := s[i].value])
    ensures s[i].Empty? ==> Abstracts(s[..i + 1], m)
  {
    CountPrefixStep(s, i);
    CountPrefixBound(s, i + 1);
    if s[i].Occupied? {
      NotInPrefixMap(s, m, i);
    }
    AbstractsExtend(s, m, i);
  }

  /** A slot sequence represents at most one map. */
  lemma AbstractsUnique<K, V>(s: seq<Slot<K, V>>, m1: map<K, V>, m2: map<K, V>)
    requires Abstracts(s, m1) && Abstracts(s, m2)
    ensures m1 == m2
  {
    forall k | k in m1
      ensures k in m2 && m1[k] == m2[k]
    {
      var i :| 0 <= i < |s| && s[i].Occupied? && s[i].key == k;
    }
    forall k | k in m2
      ensures k in m1
    {
      var i :| 0 <= i < |s| && s[i].Occupied? && s[i].key == k;
    }
  }

  /** The key in slot i of a table without duplicates is not yet in a map built from the slots before i. */
  lemma NotInPrefixMap<K, V>(s: seq<Slot<K, V>>, m: map<K, V>, i: nat)
    requires Distinct(s) && i < |s| && s[i].Occupied?
    requires Abstracts(s[..i], m)
    ensures s[i].key !in m
  {
    forall j | 0 <= j < i && s[..i][j].Occupied?
      ensures s[..i][j].key != s[i].key
    {
      assert s[..i][j] == s[j];
    }
  }

  // ---------------------------------------------------------------------
  // Insertion

  /**
   * Placing a new key in the first empty slot of its probe sequence keeps
   * the table well formed.
   */
  lemma PlaceKeepsWellFormed<K, V>(s: seq<Slot<K, V>>, hash: K -> Hash, e: nat, key: K, value: V)
    requires WellFormed(s, hash)
    requires e < |s| && s[e].Empty?
    requires forall j :: 0 <= j < |s| && s[j].Occupied? ==> s[j].key != key
    requires forall x: nat :: x < |s| && Dist(Home(hash(key), |s|), x, |s|) < Dist(Home(hash(key), |s|), e, |s|) ==>
      s[x].Occupied?
    ensures WellFormed(s[e := Occupied(key, value, hash(key))], hash)
  {
    var s' := s[e := Occupied(key, value, hash(key))];
    forall j | 0 <= j < |s'| && s'[j].Occupied?
      ensures Reachable(s', j)
    {
      if j != e {
        assert Reachable(s, j);
      }
    }
  }

  /**
   * A key that its probe sequence does not meet before an empty slot is
   * absent, and storing it in that slot adds exactly that pair.
   */
  lemma PlaceNew<K, V>(s: seq<Slot<K, V>>, hash: K -> Hash, m: map<K, V>, n: nat, e: nat, key: K, value: V)
    requires Holds(s, hash, m, n) && AllReachable(s)
    requires e < |s| && s[e].Empty?
    requires PassedOver(s, key, hash(key), e)
    ensures key !in m
    ensures Holds(s[e := Occupied(key, value, hash(key))], hash, m[key := value], n + 1)
    ensures AllReachable(s[e := Occupied(key, value, hash(key))])
  {
    AbsentAtEmpty(s, hash, key, e);
    PlaceKeepsWellFormed(s, hash, e, key, value);
    FillSlot(s, m, e, key, value, hash(key));
  }

  // ---------------------------------------------------------------------
  // Backward-shift deletion

  /**
   * The state of hashmap_remove's walk, on the table with the open slot
   * gap shown empty: every entry is reachable if the gap is ignored, and
   * every entry passed over since the gap opened (the circular interval
   * (gap, cur)) has its preferred index in (gap, its own index], so does
   * not depend on the gap.
   */
  ghost predicate ShiftInv<K, V>(v: seq<Slot<K, V>>, gap: nat, cur: nat)
  {
    var n := |v|;
    && gap < n && cur < n && gap != cur && v[gap].Empty?
    && (forall j {:trigger ReachableExcept(v, j, gap)} :: 0 <= j < n && v[j].Occupied? ==> ReachableExcept(v, j, gap))
    && (forall x: nat {:trigger v[x]} :: x < n && 0 < Dist(gap, x, n) < Dist(gap, cur, n) ==>
          v[x].Occupied? && InOpenClosed(Home(v[x].hash, n), gap, x, n))
  }

  /** Opening the slot of the removed entry starts the walk at the next index. */
  lemma ShiftStart<K, V>(s: seq<Slot<K, V>>, t: nat)
    requires AllReachable(s)
    requires 1 < |s| && t < |s| && s[t].Occupied?
    ensures ShiftInv(s[t := Empty], t, Next(t, |s|))
  {
    var v := s[t := Empty];
    forall j | 0 <= j < |v| && v[j].Occupied?
      ensures ReachableExcept(v, j, t)
    {
      assert Reachable(s, j);
    }
  }

  /** An entry whose preferred index lies in (gap, cur] stays where it is. */
  lemma ShiftKeep<K, V>(v: seq<Slot<K, V>>, gap: nat, cur: nat)
    requires ShiftInv(v, gap, cur)
    requires v[cur].Occupied? && InOpenClosed(Home(v[cur].hash, |v|), gap, cur, |v|)
    requires Next(cur, |v|) != gap
    ensures ShiftInv(v, gap, Next(cur, |v|))
  {
    var n := |v|;
    DistNext(gap, cur, n);
  }

  /**
   * An entry whose preferred index lies outside (gap, cur] is copied into
   * the gap, and its own slot becomes the new gap.
   */
  lemma ShiftMove<K, V>(v: seq<Slot<K, V>>, gap: nat, cur: nat)
    requires ShiftInv(v, gap, cur)
    requires v[cur].Occupied? && !InOpenClosed(Home(v[cur].hash, |v|), gap, cur, |v|)
    ensures ShiftInv(v[gap := v[cur]][cur := Empty], cur, Next(cur, |v|))
  {
    var n := |v|;
    var v' := v[gap := v[cur]][cur := Empty];
    assert ReachableExcept(v, cur, gap);
    forall j | 0 <= j < n && v'[j].Occupied?
      ensures ReachableExcept(v', j, cur)
    {
      if j != gap {
        assert ReachableExcept(v, j, gap);
      }
    }
  }

  /** When the walk meets an empty slot, every entry is reachable again. */
  lemma ShiftEnd<K, V>(v: seq<Slot<K, V>>, gap: nat, cur: nat)
    requires ShiftInv(v, gap, cur) && v[cur].Empty?
    ensures AllReachable(v)
  {
    var n := |v|;
    forall j | 0 <= j < n && v[j].Occupied?
      ensures Reachable(v, j)
    {
      assert ReachableExcept(v, j, gap);
    }
  }

  /**
   * Every slot strictly between gap and stop on the circular walk from gap
   * is occupied: stop is the first empty slot that walk meets.
   */
  ghost predicate OccupiedBetween<K, V>(s: seq<Slot<K, V>>, gap: nat, stop: nat)
  {
    && gap < |s| && stop < |s|
    && forall x: nat {:trigger s[x]} :: x < |s| && 0 < Dist(gap, x, |s|) < Dist(gap, stop, |s|) ==> s[x].Occupied?
  }

  /** The walk passes one more occupied slot. */
  lemma OccupiedBetweenStep<K, V>(s: seq<Slot<K, V>>, gap: nat, cur: nat)
    requires OccupiedBetween(s, gap, cur) && s[cur].Occupied?
    requires Dist(gap, Next(cur, |s|), |s|) == Dist(gap, cur, |s|) + 1
    ensures OccupiedBetween(s, gap, Next(cur, |s|))
  {
  }

  /**
   * s and s0 have the same length and agree on every slot the circular
   * walk from gap reaches at or after from (gap itself excepted).
   */
  ghost predicate SameFrom<T>(s: seq<T>, s0: seq<T>, gap: nat, from: nat)
  {
    && |s| == |s0| && gap < |s| && from < |s|
    && forall x: nat {:trigger s[x]} :: x < |s| && Dist(gap, from, |s|) <= Dist(gap, x, |s|) ==> s[x] == s0[x]
  }

  /** Writing a slot the walk has passed, or none, and moving on keeps the agreement. */
  lemma SameFromStep<T>(s: seq<T>, s0: seq<T>, gap: nat, i: nat, y: T, from: nat, to: nat)
    requires SameFrom(s, s0, gap, from) && i < |s| && to < |s|
    requires Dist(gap, i, |s|) < Dist(gap, from, |s|) <= Dist(gap, to, |s|)
    ensures SameFrom(s, s0, gap, to) && SameFrom(s[i := y], s0, gap, to)
  {
  }
}
