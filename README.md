# A verified model of the hashmap table engine

This project models `src/hashmap.c` in Dafny. That file is a C hash map with open addressing and linear probing. The model has five modules:

- `Hasher`: the hash type. `hash_t` is a 32-bit unsigned integer, so `Hash` is an integer in `[0, 2^32)`. It also holds the default string hasher: djb2 `string_hash` and `string_equal`.
- `Circular`: the circular walk over `capacity` buckets.
  - The C code writes each walk as two consecutive loops, or two pointer loops. The model writes one walk, with `Next(i, n)`.
  - It has the two-branch move test of the deletion loop, proved equal to "the preferred index is not in the circular interval (open slot, current slot]".
- `Slots`: the bucket array as a sequence of `Slot`s.
  - A slot is `Empty`, meaning a NULL key and value, or `Occupied(key, value, hash)` with its cached hash.
  - The module states the representation invariant that `validate_hashmap` checks.
  - It defines lookup as a specification function, `Probe`/`FindIndex`.
  - It proves the lemmas behind insertion, rehashing and backward-shift deletion.
- `Hashmap`: the `Hashmap` object as a class. It has the fields `size`, `capacity`, `hash` and `entries`, plus a ghost `Contents` map.
  - Its methods follow the C functions: `hashmap_init_with_capacity`, `hashmap_entry_find`, `hashmap_get`, `hashmap_size`, `increase_capacity_if_necessary`, `hashmap_insert`, `hashmap_remove`, the cleanup pass of `hashmap_destroy`, and `hashmap_create`.
  - Each method updates the array in place and is proved against `Valid()`, the representation invariant, and against `Contents`.
- `Wrappers`: `Option`. It models a NULL result.

`Valid()` holds after every public operation. It states:
- the array has exactly `capacity` slots, so capacity 0 means there are no buckets;
- `2 * size <= capacity`;
- every occupied slot caches `hash(key)`;
- no key is stored twice;
- the number of occupied slots is `size`;
- the slots hold exactly the pairs of `Contents`;
- every entry is reachable: all slots from its preferred index `hash % capacity` up to its own slot are occupied.

The reachability clause is the property that the early stop at the first empty slot in lookup relies on. Backward-shift deletion re-establishes it without tombstones.

Allocation success is an input, `allocOk`. Keys are compared with `==`, and the hasher is a fixed function `hash: K -> Hash`. Because the hash is a function, equal keys have equal hashes, which the cached-hash fast path of `hashmap_entry_find` needs.

## Model

| member | source | states |
|---|---|---|
| Hasher.StringHash | src/hashmap.c:222-233 | string_hash returns the djb2 hash of the bytes before the NUL terminator: start at 5381, then h := h * 33 + c modulo 2^32 for each byte |
| Hasher.ShiftAddIsTimes33 | src/hashmap.c:229-231 | `(hash << 5) + hash + c` in uint32 arithmetic equals `hash * 33 + c` modulo 2^32 |
| Hasher.StringHasherConsistent | src/hashmap.c:222-237 | strings that string_equal calls equal (same bytes up to the NUL) get the same string_hash, which is the contract a hasher must meet |
| Circular.MovesBackIsCircular | src/hashmap.c:347-361 | the unwrapped test (`p <= r \|\| p > c`) and the wrapped test (`c < p <= r`) are together exactly "p is not in the circular interval (r, c]" |
| Circular.StepTowards | src/hashmap.c:297-303 | one step of the insert walk (and likewise of the remove walk at src/hashmap.c:363-371) from p that has not yet reached index e moves one step closer to e, without coming back to p |
| Slots.FindIndex | src/hashmap.c:133-166 | a lookup that returns a slot returns one whose cached hash is the key's hash and whose key is the key; capacity 0 gives NULL |
| Slots.ProbeReaches | src/hashmap.c:150-164 | the circular scan from hash % capacity reaches slot j when every slot before j on the way holds another key |
| Slots.FindLocates | src/hashmap.c:133-166 | in a table satisfying the invariant, looking up the key of any occupied slot returns exactly that slot |
| Slots.FindAgreesWithContents | src/hashmap.c:310-319 | lookup succeeds iff the key is in the represented map, and the slot found holds the key's value |
| Slots.AbsentAtEmpty | src/hashmap.c:267-285 | a probe that meets an empty slot after passing only other keys proves the key is stored nowhere |
| Slots.ConsistencyChecksHold | src/hashmap.c:69-93 | validate_hashmap's assertions hold under the invariant: size <= capacity, each cached hash is right, and each entry is found by lookup at its own slot |
| Slots.CountAllEmpty | src/hashmap.c:119-121 | an array of slots that are all marked uninitialized has no entries |
| Slots.CountUpdate | src/hashmap.c:274-277 | overwriting one slot changes the number of entries by the change in that slot's occupancy |
| Slots.EmptySlotExists | src/hashmap.c:304-307 | a table with fewer entries than slots has an empty slot, so the walks of insert and remove end and the UNREACHABLE branches are dead |
| Slots.LiveIsContents | src/hashmap.c:384-395 | the pairs visited by destroy's cleanup pass are exactly the stored pairs, each once |
| Slots.ClearSlot | src/hashmap.c:333-338 | giving up the removed key's slot leaves the map without that key and one entry fewer, with hashes cached and keys distinct |
| Slots.FillSlot | src/hashmap.c:272-277 | writing a new key into an empty slot adds exactly that pair and one entry |
| Slots.MoveEntry | src/hashmap.c:349-352 | copying an entry into the open slot and opening the slot it left keeps the same map and the same number of entries |
| Slots.PlaceKeepsWellFormed | src/hashmap.c:267-285 | placing a new key in the first empty slot of its probe keeps every entry reachable, hashes cached and keys distinct |
| Slots.PlaceNew | src/hashmap.c:265-285 | a key that its probe does not meet before an empty slot is absent, and storing it there adds exactly that pair and keeps the invariant |
| Slots.AbstractsExtend | src/hashmap.c:200-206 | re-inserting the next old slot extends the map rebuilt so far by that slot's pair |
| Slots.PrefixStep | src/hashmap.c:200-206 | during rehashing, an old entry's key is not yet in the rebuilt map, and the rebuilt count never exceeds the old size |
| Slots.NotInPrefixMap | src/hashmap.c:203-205 | re-inserting an old entry never finds a duplicate, which is why `assert(inserted)` holds |
| Slots.AbstractsUnique | src/hashmap.c:208-209 | the slots determine the map they represent, so after rehashing the contents are the old contents |
| Slots.ShiftStart | src/hashmap.c:321-343 | removing the found entry opens its slot, and the walk starts at the next index with every other entry reachable when the open slot is ignored |
| Slots.ShiftKeep | src/hashmap.c:347-361 | an entry whose preferred index lies in (open, current] stays put, and the walk invariant holds one slot further |
| Slots.ShiftMove | src/hashmap.c:349-359 | an entry whose preferred index lies outside (open, current] moves into the open slot, the slot it left becomes the open slot, and the walk invariant holds one slot further |
| Slots.ShiftEnd | src/hashmap.c:335-341 | when the walk meets an empty slot, clearing the open slot makes every entry reachable again |
| Hashmap.Hashmap.constructor | src/hashmap.c:128-131 | hashmap_init gives an empty valid table of capacity 0 with no buckets |
| Hashmap.Hashmap.InitWithCapacity | src/hashmap.c:105-126 | size 0 and the requested capacity; success iff the capacity is 0 or allocation succeeds, and then a valid table of empty slots |
| Hashmap.Hashmap.Find | src/hashmap.c:133-166 | hashmap_entry_find's circular scan computes the lookup function and returns a slot iff the key is stored, and that slot holds the key |
| Hashmap.Hashmap.Get | src/hashmap.c:310-319 | hashmap_get returns the stored value of a present key and NULL for an absent key |
| Hashmap.Hashmap.Size | src/hashmap.c:377-379 | hashmap_size is the number of stored pairs |
| Hashmap.Hashmap.IncreaseCapacity | src/hashmap.c:168-216 | when (size + 1) * 2 > capacity, capacity becomes 8 (from 0) or doubles, with the same size and contents and the invariant kept. When allocation fails, size, capacity and the entries array are restored exactly and false is returned. Otherwise nothing changes |
| Hashmap.Hashmap.InsertionSlot | src/hashmap.c:265-302 | the insert walk stops at the first slot from hash % capacity that is empty or holds the key, and every slot it passes holds another key |
| Hashmap.Hashmap.ProbeAndPlace | src/hashmap.c:265-307 | a new key goes into the first empty slot of its probe, adds exactly that pair and one to size, and returns the new value. An existing key returns its stored value and changes nothing |
| Hashmap.Hashmap.Insert | src/hashmap.c:250-308 | the three outcomes of hashmap_insert: inserted (true, the new value, size + 1); key already present (false, the stored value, not overwritten, size unchanged, though capacity may have grown); growth failed (false, NULL, table untouched) |
| Hashmap.Hashmap.Remove | src/hashmap.c:321-375 | hashmap_remove of a present key returns its (key, value), lowers size by one and leaves exactly the other pairs; an absent key returns false and changes nothing |
| Hashmap.Hashmap.ShiftBack | src/hashmap.c:343-374 | the backward-shift walk after the removed slot returns the slot where it stopped: the first slot after the removed one that was empty, with every slot in between occupied. Every slot from there on round to the removed slot is unchanged. The table keeps the same pairs and count, and every entry is reachable again |
| Hashmap.Hashmap.ShiftStep | src/hashmap.c:335-361 | one step of the remove walk copies the current entry into the open slot, and makes the current slot the open one, if and only if the entry's preferred index is not in (open, current]. Otherwise nothing changes. The walk invariant is kept |
| Hashmap.Hashmap.Destroy | src/hashmap.c:381-400 | the cleanup pass visits each stored pair exactly once and nothing else |
| Hashmap.Create | src/hashmap.c:239-248 | hashmap_create returns NULL iff allocation fails, and otherwise a fresh, valid, empty table |

## Left out

- malloc and free, and the heap-allocated `Hashmap` handle. Allocation success is the `allocOk` input of `Create`, `InitWithCapacity`, `IncreaseCapacity` and `Insert`, and freeing is not modelled. A failed `InitWithCapacity` leaves an empty array in `entries`, standing for the undefined state the C code leaves.
- The NULL `entries` pointer of a capacity-0 table is an array of length 0.
- The slots of a fresh array are created empty by the array initializer. This stands for the `mark_uninitialized` loop at src/hashmap.c:119-121.
- Raw `void *` keys and values, the NULL key as the empty marker, and pointer arithmetic. Slots are a datatype, and keys and values are generic.
- Function-pointer hashers. The hash is a fixed function `hash: K -> Hash`, and key equality is `==`. A caller's `equal` that disagrees with its `hash` cannot be expressed.
- `size_t` overflow of `(size + 1) * 2` and `2 * capacity`. Integers are unbounded.
- The `CONSISTENCY_CHECKS` macro and its static recursion guard. The checks are the invariant `Valid()`.
- The `assert`/`abort` of `UNREACHABLE`. It is proved unreachable: both walks stop at an empty slot.
- The cleanup callbacks of `hashmap_destroy`, and its frees. `Destroy` returns the sequence of pairs the callbacks would receive.
- Hashmap.Hashmap.InsertionSlot: the C walk is two bounded loops that end in `UNREACHABLE`. The model has one loop that ends at the first empty slot, and its termination is proved from the empty slot that the load bound guarantees.
- Hashmap.Hashmap.Remove: does not state the exact slot layout after deletion. It states the table it leaves: the invariant, size and contents. The step-by-step layout is stated by `ShiftStep` and `ShiftBack`.
- Hashmap.Hashmap.Remove: the returned key is equal under `==` to the argument, so the model cannot say that the C code hands back the stored key pointer, which is a different object from the argument and which the caller must free.
- include/hash.h is not part of this model: it declares an older, unimplemented API. tests/run_tests.c is not part of this model.
