# Progressive-rehash hash map

A model of the class template `hashmap<K, V>` in `hashmap.h`: a separately
chained hash map that grows by *incremental* rehashing. At the end of a `set`,
when no migration is under way and the entry counter reaches the table size
times the load factor, the live table becomes the *old* table and an empty
table of twice the counter's size becomes the *current* one. From then on every `get`, `set` and `remove` first performs one
migration step (`rehash_next_slot`): it moves the cursor past empty old chains,
then moves every entry of the next old chain into the current table, or it
ends the migration when no old chain is left. During a migration a key lives in
the old table exactly when its old chain is at or beyond the cursor
(`is_belongs_old`). `contain` takes no migration step.

The project has four modules, which follow the structure of the program:

- `Buckets` (`buckets.dfy`): a collision chain (`std::list<entry>`) as a
  sequence of entries, head first. It has the front-to-back scan the map's
  loops make (`IndexOf`), the overwrite-or-push-front of `move_into_slots`
  (`Upsert`) and the unlink of `remove_from_slots` (`Erase`), with their
  lookup laws.
- `Slots` (`slots.dfy`): a table (`slots_t`) as a sequence of chains indexed by
  `hash(k) % size`, with the table-level versions of these operations and the
  facts that they keep every key in its own chain without repeats.
- `Rehash` (`rehash.dfy`): the map's fields as a value (`State`); every
  operation as a function on it (`Step`, `ApplySet`, `ApplyGet`,
  `ApplyRemove`, `StartRehash`, `Finish`); and the invariant `Refines(hash,
  s, m)`, which ties a state to the key/value map `m` it represents. Lemmas show
  that every operation keeps `Refines` and changes `m` as a dictionary would.
  Further lemmas show that any sequence of calls agrees with a reference map,
  and that a migration cannot stay unfinished for more calls than it has old
  chains left.
- `Hashmap` (`hashmap.dfy`): the class itself. Two `array`s of chains, the
  counter, the flag and the cursor are fields updated in place, alongside a
  ghost `model` map. Each method is proved against its `Rehash` function, with
  a postcondition of the form `Snapshot() == F(old(Snapshot()))`. The public
  methods also keep `Valid()`, which is `Refines` on the snapshot, and state
  their effect on `model`.

The hasher is a parameter `hash: K -> nat` of the constructor, standing for
`std::hash<K>`. The load factor is the fraction `loadNum / loadDen` (3/4 by
default). At the end of a `set`, when no migration is under way and
`total * loadDen >= size * loadNum`, it starts a migration.
Where the source throws `std::logic_error` ("no entry for key"), `get`,
`remove` and the chain operations return `None`.

In two places the code does not do what one would expect of it. The model
follows the code in both:

- One would expect the entry counter to equal the number of keys at all times.
  The code over-counts once a migration has moved entries. Each moved
  entry goes through `move_into_slots`, which pushes it and increments
  `total_entries`, but `slot.clear()` on the drained old chain never
  decrements it. The model keeps this. `Rehash.StepRefines` states that a
  draining step grows the counter by exactly the chain's length, and the
  invariant bounds the counter only from below (`totalEntries >= |model|`).
- One would expect a new capacity of `max(2 × total, 1)`, so that the table
  is never empty. The code resizes to `total_entries * 2`. A migration starts
  only at the end of a `set`, when the counter is at least 1, so the two agree.
  `Rehash.SetRefines` states that the new table then has at least
  `2 * |model|` chains, and at least 2.

## Model

| member | source | states |
|---|---|---|
| Buckets.MapGet | main.cpp:31-33 | the reference map's answer for a key: `Some` exactly when the key is present, carrying its value |
| Buckets.IndexOf | hashmap.h:141-146 | the front-to-back scan stops at the first entry with the key; every earlier key differs; it stops before the end exactly when the key is in the chain |
| Buckets.IndexOfIs | hashmap.h:156-160 | a scan that stops at `i`, with every earlier key different, has found exactly the first match |
| Buckets.Find | hashmap.h:155-161 | the lookup in a chain succeeds exactly when the key is in the chain, and returns the value of an entry with that key |
| Buckets.Upsert | hashmap.h:141-147 | overwrite-or-push-front adds exactly the entry's key to the chain's keys, grows the chain only for a new key, and keeps the keys distinct |
| Buckets.Erase | hashmap.h:169-175 | unlinking leaves a chain without the key unchanged, shortens it by one otherwise, adds no key, and on distinct keys removes exactly that key |
| Buckets.FindAt | hashmap.h:156-160 | in a chain with distinct keys, a lookup of any entry's key finds that entry's value |
| Buckets.FindUpsert | hashmap.h:141-147 | after overwrite-or-push-front the entry's key maps to its new value and every other key to its old value |
| Buckets.FindErase | hashmap.h:169-175 | after unlinking from a chain with distinct keys the key is absent and every other key keeps its value |
| Buckets.FindSnoc | hashmap.h:191-193 | reading a chain one more entry further adds that entry's key and leaves the values of earlier keys alone |
| Slots.EmptyTable | hashmap.h:209 | a table of `n` chains, every one empty |
| Slots.FindIn | hashmap.h:153-161 | `get_from_slots` succeeds exactly when the key is in the chain its hash selects |
| Slots.IsNew | hashmap.h:141-148 | the scan of `move_into_slots` finds no entry with the key exactly when the key is absent from its chain, which is when the counter is incremented (`MoveIntoSlots`, `PlaceRefines`) |
| Slots.MoveInto | hashmap.h:138-147 | `move_into_slots` keeps the table size |
| Slots.RemoveFrom | hashmap.h:166-178 | `remove_from_slots` keeps the table size, and leaves the table unchanged where the key is not found (the throwing path) |
| Slots.HeldIffFound | hashmap.h:154-161 | in a well-placed table a key held in any chain is in the chain its hash selects and is found there |
| Slots.MoveIntoFacts | hashmap.h:138-149 | `move_into_slots` keeps placement and distinct keys, maps the entry's key to its value, keeps every other key's value and adds no other key |
| Slots.RemoveFromFacts | hashmap.h:166-178 | `remove_from_slots` keeps placement and distinct keys, makes the key absent, keeps every other key's value and adds no key |
| Rehash.BelongsOld | hashmap.h:131-134 | `is_belongs_old` holds only during a migration whose cursor is still inside the old table, and holds for every key while the cursor is 0; `Routing` states that it routes every key to the table that holds it |
| Rehash.RoutesOld | hashmap.h:131-134 | on a state: a key is routed to the old table exactly during a migration, when its old chain index is at or beyond the cursor; `Routing` is its partner lemma |
| Rehash.Lookup | hashmap.h:91-95 | the routed lookup of `get`, also made by `contain` at lines 73-77: outside a migration it is `get_from_slots` on the current table, and whatever it finds is held by some chain of one of the two tables; `Routing`, `ContainsAgrees` and `GetRefines` state that it gives the represented map's value |
| Rehash.Contains | hashmap.h:71-82 | outside a migration `contain` holds exactly when the key is in its current chain; `ContainsAgrees` states that it holds exactly for the keys of the represented map |
| Rehash.Place | hashmap.h:105-109 | `set`'s routed `move_into_slots` keeps the state well formed, never lowers the counter, and leaves flag, cursor and table sizes alone |
| Rehash.Take | hashmap.h:123-127 | `remove`'s routed `remove_from_slots` leaves flag, cursor and table sizes alone; where the key is not found (the throwing path) it changes nothing, otherwise the counter drops by one; `TakeRefines` states its effect on the map |
| Rehash.NextNonEmpty | hashmap.h:183-187 | the cursor loop stops at the first non-empty old chain at or after the cursor, or at the table's end, and every chain it skipped is empty |
| Rehash.MoveAll | hashmap.h:190-193 | draining a chain into the current table keeps its size and never lowers the counter |
| Rehash.Step | hashmap.h:182-200 | a migration step keeps the state well formed and never lowers the counter; either the cursor strictly advances, staying within the old table, or the migration ends with no old table and the cursor at 0 |
| Rehash.Advance | hashmap.h:87-89 | the opening migration step of `get`, `set` and `remove` keeps the state well formed |
| Rehash.MoveAllStep | hashmap.h:191-193 | draining one more entry of a chain is one more `move_into_slots`, and adds one to the counter exactly when the entry's key is new to its chain |
| Rehash.Finish | hashmap.h:214-218 | `finish_rehash` clears the flag, the old table and the cursor and leaves current table and counter alone; `FinishRefines` states that it keeps the represented map |
| Rehash.StartRehash | hashmap.h:204-210 | `start_rehash` sets the flag, makes the current table the old one, puts the cursor at 0 and allocates `2 * total_entries` empty chains, keeping the counter; `StartRefines` states that it keeps the represented map |
| Rehash.ShouldRehash | hashmap.h:111 | the growth test fires only when no migration is under way, and with a positive load factor and a non-empty table only when the counter is positive |
| Rehash.Doubling | hashmap.h:111 | once the counter has reached a load factor of at least one half, twice the counter is at least the table size, so the resize at line 209 never shrinks the table |
| Rehash.ApplySet | hashmap.h:100-114 | `set` starts no new migration while the one under way continues, and with a load factor of at least one half never shrinks the current table; `SetRefines` states its effect on the map |
| Rehash.ApplyGet | hashmap.h:86-96 | `get` keeps the state well formed and, outside a migration, changes nothing and returns `get_from_slots` on the current table; `GetRefines` states that it returns the map's value |
| Rehash.ApplyRemove | hashmap.h:118-128 | `remove` of a key that is not found changes the state only by the migration step; outside a migration a successful one drops the counter by one; `RemoveRefines` states its effect on the map |
| Rehash.Initial | hashmap.h:63-64 | the constructor gives `capacity` empty chains, a zero counter and no migration, well formed for a positive capacity; `InitialRefines` states that it represents the empty map |
| Rehash.InitialRefines | hashmap.h:63-64 | the constructed map represents the empty map |
| Rehash.Routing | hashmap.h:131-134 | `is_belongs_old` is exact: a key held in the old table is routed there, one held in the current table is routed there, and a key is in the map exactly when its routed chain holds it |
| Rehash.ContainsAgrees | hashmap.h:71-82 | `contain` is true exactly for the keys of the represented map |
| Rehash.MoveAllFacts | hashmap.h:190-193 | draining a chain of new keys grows the counter by its length, keeps placement, maps the moved keys to their chain values and keeps every other key's value |
| Rehash.StepRefines | hashmap.h:182-200 | a migration step keeps the invariant and the represented map; the counter grows by exactly the drained chain's length |
| Rehash.DrainRefines | hashmap.h:189-195 | the draining branch of a step keeps the invariant and the map, and grows the counter by the chain's length |
| Rehash.DrainedKeysNew | hashmap.h:189-193 | no key of the chain being drained is already in the current table |
| Rehash.DrainPlaced | hashmap.h:189-195 | after draining, both tables stay well placed, the drained chain and every chain before it are empty, and every current key hashes below the new cursor |
| Rehash.DrainLookups | hashmap.h:189-195 | after draining, every key is looked up to the value the map holds for it |
| Rehash.FinishRefines | hashmap.h:196-198 | finishing a migration with no old chain left keeps the invariant, the map and the counter |
| Rehash.AdvanceRefines | hashmap.h:87-89 | the opening migration step keeps the invariant and the represented map |
| Rehash.PlaceRefines | hashmap.h:105-109 | `set`'s routed insertion turns the map into `m[k := v]`; the counter grows by one exactly for a new key |
| Rehash.TakeRefines | hashmap.h:123-127 | `remove`'s routed removal returns the key's value, or `None` exactly when it is absent; it turns the map into `m - {k}`; the counter drops by one exactly for a present key; an absent key changes nothing |
| Rehash.TakeFromOld | hashmap.h:123-124 | removing a present key routed to the old table returns its value, keeps the invariant, removes exactly that key from the map and drops the counter by one |
| Rehash.TakeFromCurrent | hashmap.h:125-126 | removing a present key routed to the current table returns its value, keeps the invariant, removes exactly that key from the map and drops the counter by one |
| Rehash.StartRefines | hashmap.h:204-210 | starting a migration keeps the invariant and the map, and the new table has twice the counter's size, at least 2 |
| Rehash.SetRefines | hashmap.h:100-114 | `set(k, v)` turns the map into `m[k := v]`; the counter is then at least the number of keys, and positive; a migration it starts allocates at least `2 * |m[k := v]|` chains |
| Rehash.GetRefines | hashmap.h:86-96 | `get(k)` keeps the invariant and the map, returns the map's value for `k`, or `None` exactly when `k` is absent, and changes the state only by the migration step |
| Rehash.RemoveRefines | hashmap.h:118-128 | `remove(k)` returns the map's value for `k` (`None` when absent) and turns the map into `m - {k}`; on an absent key only the migration step happens |
| Rehash.SetThenGet | main.cpp:53-58 | after `set(k, v)`, `contain(k)` holds and `get(k)` returns `v` |
| Rehash.RemoveThenMiss | main.cpp:63-79 | `remove` of a present key returns its value; afterwards `contain` is false and `get` and `remove` both report the key missing |
| Rehash.ApplyRefines | hashmap.h:86-128 | each state-changing call keeps the invariant and changes the map as the reference map changes |
| Rehash.Run | main.cpp:26-87 | after any sequence of calls the state represents the reference map replayed over the same calls |
| Rehash.ShadowEquivalence | main.cpp:31-47 | after any sequence of calls, `contain` and `get` give what the reference map gives for every key |
| Rehash.ApplyKeepsCursor | hashmap.h:111 | during a migration that a call's step does not finish, the call leaves the cursor where that step put it and starts no new migration |
| Rehash.DrainBound | hashmap.h:183-199 | a migration stays unfinished for at most `|oldSlots| - remainOldIndex` calls, so it always ends |
| Hashmap.HashMap.constructor | hashmap.h:63-64 | a new map has `capacity` empty chains, a zero counter, no migration, and represents the empty map |
| Hashmap.HashMap.Contain | hashmap.h:71-82 | true exactly for the keys of `model`; no migration step is taken and nothing changes |
| Hashmap.HashMap.Get | hashmap.h:86-96 | keeps `Valid` and `model`, returns `model`'s value for the key or `None`, and leaves the fields as `ApplyGet` says |
| Hashmap.HashMap.Set | hashmap.h:100-114 | keeps `Valid`, sets `model[k := v]`, and leaves the fields as `ApplySet` says |
| Hashmap.HashMap.Remove | hashmap.h:118-128 | keeps `Valid`, removes the key from `model`, returns its old value or `None`, and leaves the fields as `ApplyRemove` says |
| Hashmap.HashMap.AdvanceMigration | hashmap.h:87-89 | performs exactly the one migration step `Advance` describes |
| Hashmap.HashMap.LookupRouted | hashmap.h:91-95 | the routed lookup returns what `Lookup` says for the current fields |
| Hashmap.HashMap.PlaceRouted | hashmap.h:105-109 | the routed `move_into_slots` leaves the fields as `Place` says |
| Hashmap.HashMap.TakeRouted | hashmap.h:123-127 | the routed `remove_from_slots` gives the value and leaves the fields as `Take` says |
| Hashmap.HashMap.MoveIntoSlots | hashmap.h:138-149 | the array becomes `MoveInto` of its old contents, and the counter grows by one exactly when the key was new to the table |
| Hashmap.HashMap.GetFromSlots | hashmap.h:153-162 | returns what `FindIn` finds in the array's contents, `None` where the source throws |
| Hashmap.HashMap.RemoveFromSlots | hashmap.h:166-178 | returns the key's value, or `None` with no change; the array becomes `RemoveFrom` of its old contents; the counter drops by one exactly on success |
| Hashmap.HashMap.RehashNextSlot | hashmap.h:182-200 | leaves the fields as `Step` of the old fields says |
| Hashmap.HashMap.SkipEmptyOldSlots | hashmap.h:183-187 | the cursor ends at `NextNonEmpty` of where it started |
| Hashmap.HashMap.DrainOldSlot | hashmap.h:190-193 | the current table and counter become `MoveAll` of their old values over the chain |
| Hashmap.HashMap.StartRehash | hashmap.h:204-210 | leaves the fields as `StartRehash` says: the old table is the previous current one, the cursor is 0 and the new current table has `2 * totalEntries` empty chains |
| Hashmap.HashMap.FinishRehash | hashmap.h:214-218 | leaves the fields as `Finish` says: no migration, an empty old table, the cursor at 0 |

## Left out

- The driver `main.cpp` draws keys and operations from a seeded random engine and checks `hashmap` against a `std::unordered_map`. The randomness and the fixed loop of 1000 calls are not modelled. `Rehash.Run` and `Rehash.ShadowEquivalence` state the check it makes, for every sequence of calls.
- `std::hash<K>` is not modelled. The hasher is an arbitrary deterministic function `hash: K -> nat` given to the constructor.
- The `double` load factor is not modelled as floating point. It is the exact fraction `loadNum / loadDen`, and the constructor requires `loadDen > 0`. A range such as `0 < load_factor <= 1` is not enforced, since the code does not enforce it either.
- Negative load factors are left out: `hashmap(int, double)` accepts them, but `loadNum` is a `nat`. With a negative factor the test at hashmap.h:111 fires on every `set` outside a migration, because the counter is never negative. A factor of 0 (`loadNum = 0`) gives exactly the same behaviour, and it is modelled.
- Machine integers are unbounded here. The overflow of the `int` fields `total_entries` and `remain_old_index`, of `total_entries * 2`, and of the `(int)` cast in `is_belongs_old` is not modelled.
- A capacity of 0 (or a negative one) is excluded by the constructor's precondition. In the source every later `% size` on such a table is undefined.
- `std::logic_error` is modelled as an `Option` result. `get` returns a copy of the value, not a `V&`, so writes through that reference are outside the model.
- `Hashmap.HashMap.StartRehash`: `std::move` of the current table followed by `resize` is modelled as the old array becoming the old table and a fresh array of `2 * totalEntries` empty chains becoming current. The state of a moved-from `std::vector` is not modelled.
- The destructor and memory management (`~hashmap`, deallocation of the old table in `finish_rehash`) are not modelled.
- The class is not thread-safe and nothing concurrent is modelled.
- `Rehash.Refines`: the counter is bounded only from below by the number of keys, because the code over-counts after a migration moves entries; the equality one would expect does not hold for the code.
