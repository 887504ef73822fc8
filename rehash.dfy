/** The progressive-rehashing state machine of `hashmap<K, V>` as pure
    functions on a snapshot of its fields, the invariant that ties a snapshot
    to the key/value map it represents, and the lemmas that every operation
    keeps that invariant. */
module Rehash {
  import opened Buckets
  import opened Slots

  /** The mutable fields of the map: the live table, the entry counter, the
      migration flag, the table being drained and the migration cursor. */
  datatype State<K, V> = State(
    currentSlots: Table<K, V>,
    totalEntries: int,
    isRehashing: bool,
    oldSlots: Table<K, V>,
    remainOldIndex: nat)

  /** What the operations need for their `%` to be defined. */
  predicate WellFormed<K, V>(s: State<K, V>)
  {
    |s.currentSlots| > 0 && s.totalEntries >= 0 && (s.isRehashing ==> |s.oldSlots| > 0)
  }

  /** `is_belongs_old`: a key is served by the old table exactly while
      migrating and while its old chain lies at or beyond the cursor. */
  function BelongsOld<K>(hash: K -> nat, isRehashing: bool, oldSize: nat, cursor: nat, k: K): (r: bool)
    requires isRehashing ==> oldSize > 0
    ensures r ==> isRehashing && cursor < oldSize
    ensures isRehashing && cursor == 0 ==> r
  {
    isRehashing && hash(k) % oldSize >= cursor
  }

  /** `is_belongs_old` on a snapshot: never while stable, and while migrating
      exactly for the keys whose old chain the cursor has not passed. */
  function RoutesOld<K, V>(hash: K -> nat, s: State<K, V>, k: K): (r: bool)
    requires WellFormed(s)
    ensures r ==> s.isRehashing
    ensures s.isRehashing ==> (r <==> hash(k) % |s.oldSlots| >= s.remainOldIndex)
  {
    BelongsOld(hash, s.isRehashing, |s.oldSlots|, s.remainOldIndex, k)
  }

  /** The value a lookup of `k` finds in the table `k` is routed to. */
  function Lookup<K(==), V>(hash: K -> nat, s: State<K, V>, k: K): (r: Option<V>)
    requires WellFormed(s)
    ensures !s.isRehashing ==> r == FindIn(hash, s.currentSlots, k)
    ensures r.Some? ==> (exists i :: 0 <= i < |s.currentSlots| && k in Keys(s.currentSlots[i]))
                        || (exists i :: 0 <= i < |s.oldSlots| && k in Keys(s.oldSlots[i]))
  {
    if RoutesOld(hash, s, k) then
      var r := FindIn(hash, s.oldSlots, k);
      assert r.Some? ==> k in Keys(s.oldSlots[hash(k) % |s.oldSlots|]);
      r
    else
      var r := FindIn(hash, s.currentSlots, k);
      assert r.Some? ==> k in Keys(s.currentSlots[hash(k) % |s.currentSlots|]);
      r
  }

  /** `contain`: routes without taking a migration step. */
  function Contains<K(==), V>(hash: K -> nat, s: State<K, V>, k: K): (r: bool)
    requires WellFormed(s)
    ensures !s.isRehashing ==> (r <==> k in Keys(s.currentSlots[hash(k) % |s.currentSlots|]))
  {
    Lookup(hash, s, k).Some?
  }

  /** `set` after its migration step: `move_into_slots` on the routed table. */
  function Place<K(==), V>(hash: K -> nat, s: State<K, V>, e: Entry<K, V>): (r: State<K, V>)
    requires WellFormed(s)
    ensures WellFormed(r) && r.totalEntries >= s.totalEntries
    ensures r.isRehashing == s.isRehashing && r.remainOldIndex == s.remainOldIndex
    ensures |r.oldSlots| == |s.oldSlots| && |r.currentSlots| == |s.currentSlots|
  {
    if RoutesOld(hash, s, e.key) then
      s.(oldSlots := MoveInto(hash, s.oldSlots, e),
         totalEntries := s.totalEntries + if IsNew(hash, s.oldSlots, e) then 1 else 0)
    else
      s.(currentSlots := MoveInto(hash, s.currentSlots, e),
         totalEntries := s.totalEntries + if IsNew(hash, s.currentSlots, e) then 1 else 0)
  }

  /** `remove` after its migration step: `remove_from_slots` on the routed
      table, giving the removed value, or `None` (and no change) where the
      source throws. */
  function Take<K(==), V>(hash: K -> nat, s: State<K, V>, k: K): (r: (State<K, V>, Option<V>))
    requires WellFormed(s)
    ensures r.0.isRehashing == s.isRehashing && r.0.remainOldIndex == s.remainOldIndex
    ensures |r.0.oldSlots| == |s.oldSlots| && |r.0.currentSlots| == |s.currentSlots|
    ensures r.1.None? ==> r.0 == s
    ensures r.1.Some? ==> r.0.totalEntries == s.totalEntries - 1
  {
    if RoutesOld(hash, s, k) then
      var found := FindIn(hash, s.oldSlots, k);
      if found.Some? then
        (s.(oldSlots := RemoveFrom(hash, s.oldSlots, k), totalEntries := s.totalEntries - 1), found)
      else (s, None)
    else
      var found := FindIn(hash, s.currentSlots, k);
      if found.Some? then
        (s.(currentSlots := RemoveFrom(hash, s.currentSlots, k), totalEntries := s.totalEntries - 1), found)
      else (s, None)
  }

  /** Where the cursor loop of `rehash_next_slot` stops: the first non-empty
      old chain at or after `c`, or the table size. */
  function NextNonEmpty<K, V>(t: Table<K, V>, c: nat): (r: nat)
    ensures c <= r && (c <= |t| ==> r <= |t|)
    ensures forall i :: c <= i < r ==> i < |t| && |t[i]| == 0
    ensures r < |t| ==> |t[r]| > 0
    decreases |t| - c
  {
    if c >= |t| then c
    else if |t[c]| > 0 then c
    else NextNonEmpty(t, c + 1)
  }

  /** The drain loop of `rehash_next_slot`: `move_into_slots` of every entry
      of chain `b`, front to back, into table `t`, with the counter `total`. */
  function MoveAll<K(==), V>(hash: K -> nat, t: Table<K, V>, total: int, b: Bucket<K, V>): (r: (Table<K, V>, int))
    requires |t| > 0
    ensures |r.0| == |t| && r.1 >= total
    decreases |b|
  {
    if |b| == 0 then (t, total)
    else
      var prefix := MoveAll(hash, t, total, b[..|b| - 1]);
      var e := b[|b| - 1];
      (MoveInto(hash, prefix.0, e), prefix.1 + if IsNew(hash, prefix.0, e) then 1 else 0)
  }

  /** Draining one entry further is one more `move_into_slots`. */
  lemma MoveAllStep<K, V>(hash: K -> nat, t: Table<K, V>, total: int, b: Bucket<K, V>, i: nat)
    requires |t| > 0 && i < |b|
    ensures var prefix := MoveAll(hash, t, total, b[..i]);
            MoveAll(hash, t, total, b[..i + 1]).0 == MoveInto(hash, prefix.0, b[i])
    ensures var prefix := MoveAll(hash, t, total, b[..i]);
            MoveAll(hash, t, total, b[..i + 1]).1 == prefix.1 + if IsNew(hash, prefix.0, b[i]) then 1 else 0
  {
    var c := b[..i + 1];
    assert c[..|c| - 1] == b[..i];
    assert c[|c| - 1] == b[i];
  }

  /** `finish_rehash`. */
  function Finish<K, V>(s: State<K, V>): (r: State<K, V>)
    ensures WellFormed(s) ==> WellFormed(r)
    ensures !r.isRehashing && r.oldSlots == [] && r.remainOldIndex == 0
    ensures r.currentSlots == s.currentSlots && r.totalEntries == s.totalEntries
  {
    s.(isRehashing := false, oldSlots := [], remainOldIndex := 0)
  }

  /** `rehash_next_slot`: skip empty old chains; then either drain the chain
      at the cursor into the current table and step past it, or, when none is
      left, finish the migration. */
  function Step<K(==), V>(hash: K -> nat, s: State<K, V>): (r: State<K, V>)
    requires WellFormed(s) && s.isRehashing
    ensures WellFormed(r) && r.totalEntries >= s.totalEntries
    ensures |r.currentSlots| == |s.currentSlots|
    ensures r.isRehashing ==> |r.oldSlots| == |s.oldSlots|
                              && s.remainOldIndex < r.remainOldIndex <= |s.oldSlots|
    ensures !r.isRehashing ==> r.oldSlots == [] && r.remainOldIndex == 0
  {
    var c := NextNonEmpty(s.oldSlots, s.remainOldIndex);
    if c < |s.oldSlots| then
      var drained := MoveAll(hash, s.currentSlots, s.totalEntries, s.oldSlots[c]);
      State(drained.0, drained.1, true, s.oldSlots[c := []], c + 1)
    else
      Finish(s)
  }

  /** The `if (is_rehashing) rehash_next_slot();` that opens `get`, `set` and `remove`. */
  function Advance<K(==), V>(hash: K -> nat, s: State<K, V>): (r: State<K, V>)
    requires WellFormed(s)
    ensures WellFormed(r) && |r.currentSlots| == |s.currentSlots|
  {
    if s.isRehashing then Step(hash, s) else s
  }

  /** `start_rehash`: the live table becomes the old one and a fresh empty
      table of twice the counter's size becomes the live one. */
  function StartRehash<K, V>(s: State<K, V>): (r: State<K, V>)
    requires s.totalEntries >= 0
    ensures WellFormed(s) && s.totalEntries > 0 ==> WellFormed(r)
    ensures r.isRehashing && r.remainOldIndex == 0 && r.oldSlots == s.currentSlots
    ensures |r.currentSlots| == 2 * s.totalEntries
    ensures forall i :: 0 <= i < |r.currentSlots| ==> r.currentSlots[i] == []
    ensures r.totalEntries == s.totalEntries
  {
    State(EmptyTable(2 * s.totalEntries), s.totalEntries, true, s.currentSlots, 0)
  }

  /** The growth test at the end of `set`, with the load factor given as the
      fraction `loadNum / loadDen`. */
  predicate ShouldRehash(loadNum: nat, loadDen: nat, isRehashing: bool, total: int, size: nat)
    ensures ShouldRehash(loadNum, loadDen, isRehashing, total, size) ==> !isRehashing
    ensures ShouldRehash(loadNum, loadDen, isRehashing, total, size) && loadNum > 0 && size > 0
            ==> total > 0
  {
    !isRehashing && total * loadDen >= size * loadNum
  }

  /** `set(k, v)`. */
  function ApplySet<K(==), V>(hash: K -> nat, loadNum: nat, loadDen: nat, s: State<K, V>, k: K, v: V): (r: State<K, V>)
    requires WellFormed(s)
    ensures Advance(hash, s).isRehashing ==> r == Place(hash, Advance(hash, s), Entry(k, v))
    ensures loadDen > 0 && 2 * loadNum >= loadDen ==> |r.currentSlots| >= |s.currentSlots|
  {
    var placed := Place(hash, Advance(hash, s), Entry(k, v));
    if ShouldRehash(loadNum, loadDen, placed.isRehashing, placed.totalEntries, |placed.currentSlots|) then
      Doubling(loadNum, loadDen, placed.totalEntries, |placed.currentSlots|);
      StartRehash(placed)
    else placed
  }

  /** A table whose counter has reached a load factor of at least one half
      is at most twice the counter's size. */
  lemma Doubling(loadNum: nat, loadDen: nat, total: int, size: nat)
    requires total * loadDen >= size * loadNum
    ensures loadDen > 0 && 2 * loadNum >= loadDen ==> 2 * total >= size
  {
    if loadDen > 0 && 2 * loadNum >= loadDen {
      assert 2 * total * loadDen >= size * (2 * loadNum) >= size * loadDen;
    }
  }

  /** `get(k)`: the state after the migration step and the value found. */
  function ApplyGet<K(==), V>(hash: K -> nat, s: State<K, V>, k: K): (r: (State<K, V>, Option<V>))
    requires WellFormed(s)
    ensures WellFormed(r.0)
    ensures !s.isRehashing ==> r == (s, FindIn(hash, s.currentSlots, k))
  {
    var stepped := Advance(hash, s);
    (stepped, Lookup(hash, stepped, k))
  }

  /** `remove(k)`: the state after the migration step and the removal, and the removed value. */
  function ApplyRemove<K(==), V>(hash: K -> nat, s: State<K, V>, k: K): (r: (State<K, V>, Option<V>))
    requires WellFormed(s)
    ensures r.1.None? ==> r.0 == Advance(hash, s)
    ensures !s.isRehashing && r.1.Some? ==> r.0.totalEntries == s.totalEntries - 1
  {
    Take(hash, Advance(hash, s), k)
  }

  /** The map as its constructor leaves it. */
  function Initial<K, V>(capacity: nat): (r: State<K, V>)
    ensures capacity > 0 ==> WellFormed(r)
    ensures |r.currentSlots| == capacity && forall i :: 0 <= i < capacity ==> r.currentSlots[i] == []
    ensures r.totalEntries == 0 && !r.isRehashing
  {
    State(EmptyTable(capacity), 0, false, [], 0)
  }

  // ---------------------------------------------------------------------
  // The invariant

  /** Both tables keep every key in its own chain, without repeats. */
  ghost predicate Placed<K, V>(hash: K -> nat, s: State<K, V>)
  {
    WellPlaced(hash, s.currentSlots) && Distinct(s.currentSlots)
    && WellPlaced(hash, s.oldSlots) && Distinct(s.oldSlots)
  }

  /** The migration invariant: while migrating, the old chains below the cursor
      are drained and every key of the live table has an old chain below the
      cursor (so no key is in both tables); otherwise there is no old table. */
  ghost predicate Migration<K, V>(hash: K -> nat, s: State<K, V>)
    requires WellFormed(s)
  {
    if s.isRehashing then
      s.remainOldIndex <= |s.oldSlots|
      && (forall i :: 0 <= i < s.remainOldIndex ==> s.oldSlots[i] == [])
      && (forall i, k :: 0 <= i < |s.currentSlots| && k in Keys(s.currentSlots[i])
                         ==> hash(k) % |s.oldSlots| < s.remainOldIndex)
    else
      s.oldSlots == [] && s.remainOldIndex == 0
  }

  /** The snapshot `s` holds the map `m`: lookups agree with `m` on every key,
      and the counter is at least the number of keys. */
  ghost predicate Refines<K(!new), V>(hash: K -> nat, s: State<K, V>, m: map<K, V>)
  {
    WellFormed(s) && Placed(hash, s) && Migration(hash, s)
    && (forall k :: Lookup(hash, s, k) == MapGet(m, k))
    && s.totalEntries >= |m|
  }

  // ---------------------------------------------------------------------
  // Lemmas

  /** The constructor's state holds the empty map. */
  lemma InitialRefines<K(!new), V>(hash: K -> nat, capacity: nat)
    requires capacity > 0
    ensures Refines(hash, Initial<K, V>(capacity), map[])
  {
    var s: State<K, V> := Initial(capacity);
    forall k ensures Lookup(hash, s, k) == MapGet(map[], k) {
      assert s.currentSlots[hash(k) % capacity] == [];
    }
  }

  /** Routing is exact: a key held by the old table is routed there and one
      held by the live table is routed there; so no key is in both. */
  lemma Routing<K(!new), V>(hash: K -> nat, s: State<K, V>, m: map<K, V>, k: K)
    requires Refines(hash, s, m)
    ensures forall i :: 0 <= i < |s.oldSlots| && k in Keys(s.oldSlots[i]) ==> RoutesOld(hash, s, k)
    ensures forall i :: 0 <= i < |s.currentSlots| && k in Keys(s.currentSlots[i]) ==> !RoutesOld(hash, s, k)
    ensures k in m <==> if RoutesOld(hash, s, k) then k in Keys(s.oldSlots[hash(k) % |s.oldSlots|])
                                                 else k in Keys(s.currentSlots[hash(k) % |s.currentSlots|])
  {
    assert Lookup(hash, s, k) == MapGet(m, k);
    forall i | 0 <= i < |s.oldSlots| && k in Keys(s.oldSlots[i]) ensures RoutesOld(hash, s, k) {
      assert i == hash(k) % |s.oldSlots|;
    }
  }

  /** `contain` agrees with the map. */
  lemma ContainsAgrees<K(!new), V>(hash: K -> nat, s: State<K, V>, m: map<K, V>, k: K)
    requires Refines(hash, s, m)
    ensures Contains(hash, s, k) <==> k in m
  {
    assert Lookup(hash, s, k) == MapGet(m, k);
  }

  /** The drain loop moves a chain whose keys are new to the table: every
      entry is pushed (the counter grows by the chain length), the moved keys
      map to their chain values, other keys keep theirs, and placement holds. */
  lemma {:induction false} MoveAllFacts<K(!new), V>(hash: K -> nat, t: Table<K, V>, total: int, b: Bucket<K, V>)
    requires |t| > 0 && WellPlaced(hash, t) && Distinct(t) && DistinctKeys(b)
    requires forall k :: k in Keys(b) ==> FindIn(hash, t, k) == None
    ensures MoveAll(hash, t, total, b).1 == total + |b|
    ensures WellPlaced(hash, MoveAll(hash, t, total, b).0) && Distinct(MoveAll(hash, t, total, b).0)
    ensures forall k :: FindIn(hash, MoveAll(hash, t, total, b).0, k)
                        == if k in Keys(b) then Find(b, k) else FindIn(hash, t, k)
    ensures forall i, k :: 0 <= i < |t| && k in Keys(MoveAll(hash, t, total, b).0[i])
                           ==> k in Keys(t[i]) || k in Keys(b)
    decreases |b|
  {
    if |b| > 0 {
      var front := b[..|b| - 1];
      var e := b[|b| - 1];
      assert b == front + [e];
      assert forall j :: 0 <= j < |front| ==> front[j] == b[j];
      FindSnoc(front, e, e.key);
      assert e.key !in Keys(front);
      forall k | k in Keys(front) ensures FindIn(hash, t, k) == None {
        FindSnoc(front, e, k);
      }
      MoveAllFacts(hash, t, total, front);
      var prefix := MoveAll(hash, t, total, front);
      MoveIntoFacts(hash, prefix.0, e);
      forall k ensures FindIn(hash, MoveAll(hash, t, total, b).0, k)
                       == if k in Keys(b) then Find(b, k) else FindIn(hash, t, k) {
        FindSnoc(front, e, k);
      }
    }
  }

  /** One `rehash_next_slot` step keeps the invariant and the represented map;
      the counter grows by the size of the drained chain, which is how it comes
      to over-count the keys. */
  lemma StepRefines<K(!new), V>(hash: K -> nat, s: State<K, V>, m: map<K, V>)
    requires Refines(hash, s, m) && s.isRehashing
    ensures Refines(hash, Step(hash, s), m)
    ensures var c := NextNonEmpty(s.oldSlots, s.remainOldIndex);
            Step(hash, s).totalEntries == s.totalEntries + if c < |s.oldSlots| then |s.oldSlots[c]| else 0
  {
    if NextNonEmpty(s.oldSlots, s.remainOldIndex) < |s.oldSlots| {
      DrainRefines(hash, s, m);
    } else {
      FinishRefines(hash, s, m);
    }
  }

  /** The step that drains the next non-empty old chain into the live table. */
  lemma DrainRefines<K(!new), V>(hash: K -> nat, s: State<K, V>, m: map<K, V>)
    requires Refines(hash, s, m) && s.isRehashing
    requires NextNonEmpty(s.oldSlots, s.remainOldIndex) < |s.oldSlots|
    ensures Refines(hash, Step(hash, s), m)
    ensures Step(hash, s).totalEntries
            == s.totalEntries + |s.oldSlots[NextNonEmpty(s.oldSlots, s.remainOldIndex)]|
  {
    DrainPlaced(hash, s, m);
    DrainLookups(hash, s, m);
  }

  /** The drained chain's keys were absent from the live table: they all hash
      to the cursor chain, which no live key does. */
  lemma DrainedKeysNew<K(!new), V>(hash: K -> nat, s: State<K, V>, m: map<K, V>)
    requires Refines(hash, s, m) && s.isRehashing
    requires NextNonEmpty(s.oldSlots, s.remainOldIndex) < |s.oldSlots|
    ensures var b := s.oldSlots[NextNonEmpty(s.oldSlots, s.remainOldIndex)];
            forall k :: k in Keys(b) ==> FindIn(hash, s.currentSlots, k) == None
  {
    var c := NextNonEmpty(s.oldSlots, s.remainOldIndex);
    forall k | k in Keys(s.oldSlots[c]) ensures FindIn(hash, s.currentSlots, k) == None {
      assert hash(k) % |s.oldSlots| == c;
    }
  }

  /** After a draining step both tables are still well placed, the cursor has
      passed the drained chain, and the counter grew by the chain's length. */
  lemma DrainPlaced<K(!new), V>(hash: K -> nat, s: State<K, V>, m: map<K, V>)
    requires Refines(hash, s, m) && s.isRehashing
    requires NextNonEmpty(s.oldSlots, s.remainOldIndex) < |s.oldSlots|
    ensures WellFormed(Step(hash, s)) && Placed(hash, Step(hash, s)) && Migration(hash, Step(hash, s))
    ensures Step(hash, s).totalEntries
            == s.totalEntries + |s.oldSlots[NextNonEmpty(s.oldSlots, s.remainOldIndex)]|
  {
    var o, cur, n := s.oldSlots, s.currentSlots, |s.oldSlots|;
    var c := NextNonEmpty(o, s.remainOldIndex);
    var b := o[c];
    DrainedKeysNew(hash, s, m);
    MoveAllFacts(hash, cur, s.totalEntries, b);
    var o' := o[c := []];
    forall i, k | 0 <= i < n && k in Keys(o'[i]) ensures hash(k) % n == i {
      assert o'[i] == o[i];
    }
    forall i | 0 <= i < n ensures DistinctKeys(o'[i]) {
      if i != c { assert o'[i] == o[i]; }
    }
    forall i | 0 <= i < c + 1 ensures o'[i] == [] {
      if i < c { assert o[i] == []; }
    }
  }

  /** After a draining step every key is still looked up to its value in the map. */
  lemma DrainLookups<K(!new), V>(hash: K -> nat, s: State<K, V>, m: map<K, V>)
    requires Refines(hash, s, m) && s.isRehashing
    requires NextNonEmpty(s.oldSlots, s.remainOldIndex) < |s.oldSlots|
    ensures forall k :: Lookup(hash, Step(hash, s), k) == MapGet(m, k)
  {
    var o, cur, n := s.oldSlots, s.currentSlots, |s.oldSlots|;
    var c := NextNonEmpty(o, s.remainOldIndex);
    var r := Step(hash, s);
    var b := o[c];
    DrainedKeysNew(hash, s, m);
    MoveAllFacts(hash, cur, s.totalEntries, b);
    var o' := o[c := []];
    forall k ensures Lookup(hash, r, k) == MapGet(m, k) {
      assert Lookup(hash, s, k) == MapGet(m, k);
      var h := hash(k) % n;
      if h > c {
        assert o'[h] == o[h];
      } else if h < c {
        assert o[h] == [];
        if h >= s.remainOldIndex && FindIn(hash, cur, k).Some? {
          assert false;
        }
      }
    }
  }

  /** The step that finds no non-empty old chain left and finishes. */
  lemma FinishRefines<K(!new), V>(hash: K -> nat, s: State<K, V>, m: map<K, V>)
    requires Refines(hash, s, m) && s.isRehashing
    requires NextNonEmpty(s.oldSlots, s.remainOldIndex) >= |s.oldSlots|
    ensures Refines(hash, Step(hash, s), m)
    ensures Step(hash, s).totalEntries == s.totalEntries
  {
    var o, cur, n := s.oldSlots, s.currentSlots, |s.oldSlots|;
    var r := Step(hash, s);
    forall k ensures Lookup(hash, r, k) == MapGet(m, k) {
      assert Lookup(hash, s, k) == MapGet(m, k);
      var h := hash(k) % n;
      assert o[h] == [];
      if h >= s.remainOldIndex && FindIn(hash, cur, k).Some? {
        assert false;
      }
    }
  }

  /** The opening migration step of `get`, `set` and `remove` keeps the map. */
  lemma AdvanceRefines<K(!new), V>(hash: K -> nat, s: State<K, V>, m: map<K, V>)
    requires Refines(hash, s, m)
    ensures Refines(hash, Advance(hash, s), m)
  {
    if s.isRehashing { StepRefines(hash, s, m); }
  }

  /** `move_into_slots` on the routed table is an update of the map; the
      counter grows by one exactly for a key not yet present. */
  lemma PlaceRefines<K(!new), V>(hash: K -> nat, s: State<K, V>, m: map<K, V>, e: Entry<K, V>)
    requires Refines(hash, s, m)
    ensures Refines(hash, Place(hash, s, e), m[e.key := e.value])
    ensures Place(hash, s, e).totalEntries == s.totalEntries + if e.key in m then 0 else 1
  {
    var r := Place(hash, s, e);
    var m' := m[e.key := e.value];
    assert Lookup(hash, s, e.key) == MapGet(m, e.key);
    if RoutesOld(hash, s, e.key) {
      MoveIntoFacts(hash, s.oldSlots, e);
      if s.isRehashing {
        forall i | 0 <= i < s.remainOldIndex ensures r.oldSlots[i] == [] {
          assert i != hash(e.key) % |s.oldSlots|;
          assert r.oldSlots[i] == s.oldSlots[i];
        }
      }
    } else {
      MoveIntoFacts(hash, s.currentSlots, e);
    }
    forall k ensures Lookup(hash, r, k) == MapGet(m', k) {
      assert Lookup(hash, s, k) == MapGet(m, k);
    }
  }

  /** `remove_from_slots` on the routed table returns the key's value and
      removes the key; on an absent key it changes nothing. */
  lemma TakeRefines<K(!new), V>(hash: K -> nat, s: State<K, V>, m: map<K, V>, k: K)
    requires Refines(hash, s, m)
    ensures Take(hash, s, k).1 == MapGet(m, k)
    ensures Refines(hash, Take(hash, s, k).0, m - {k})
    ensures Take(hash, s, k).0.totalEntries == s.totalEntries - if k in m then 1 else 0
    ensures k !in m ==> Take(hash, s, k).0 == s
  {
    assert Lookup(hash, s, k) == MapGet(m, k);
    if k in m {
      if RoutesOld(hash, s, k) {
        TakeFromOld(hash, s, m, k);
      } else {
        TakeFromCurrent(hash, s, m, k);
      }
    } else {
      assert m - {k} == m;
    }
  }

  /** Removing a present key that is routed to the old table. */
  lemma TakeFromOld<K(!new), V>(hash: K -> nat, s: State<K, V>, m: map<K, V>, k: K)
    requires Refines(hash, s, m) && k in m && RoutesOld(hash, s, k)
    ensures Take(hash, s, k).1 == Some(m[k])
    ensures Refines(hash, Take(hash, s, k).0, m - {k})
    ensures Take(hash, s, k).0.totalEntries == s.totalEntries - 1
  {
    var r := Take(hash, s, k).0;
    var m' := m - {k};
    assert Lookup(hash, s, k) == MapGet(m, k);
    assert |m'| == |m| - 1;
    RemoveFromFacts(hash, s.oldSlots, k);
    forall i | 0 <= i < s.remainOldIndex ensures r.oldSlots[i] == [] {
      assert i != hash(k) % |s.oldSlots|;
      assert r.oldSlots[i] == s.oldSlots[i];
    }
    forall x ensures Lookup(hash, r, x) == MapGet(m', x) {
      assert Lookup(hash, s, x) == MapGet(m, x);
    }
  }

  /** Removing a present key that is routed to the current table. */
  lemma TakeFromCurrent<K(!new), V>(hash: K -> nat, s: State<K, V>, m: map<K, V>, k: K)
    requires Refines(hash, s, m) && k in m && !RoutesOld(hash, s, k)
    ensures Take(hash, s, k).1 == Some(m[k])
    ensures Refines(hash, Take(hash, s, k).0, m - {k})
    ensures Take(hash, s, k).0.totalEntries == s.totalEntries - 1
  {
    var r := Take(hash, s, k).0;
    var m' := m - {k};
    assert Lookup(hash, s, k) == MapGet(m, k);
    assert |m'| == |m| - 1;
    RemoveFromFacts(hash, s.currentSlots, k);
    forall x ensures Lookup(hash, r, x) == MapGet(m', x) {
      assert Lookup(hash, s, x) == MapGet(m, x);
    }
  }

  /** `start_rehash` on a counter of at least one keeps the map, drains
      nothing yet and allocates at least two chains. */
  lemma StartRefines<K(!new), V>(hash: K -> nat, s: State<K, V>, m: map<K, V>)
    requires Refines(hash, s, m) && !s.isRehashing && s.totalEntries >= 1
    ensures Refines(hash, StartRehash(s), m)
    ensures |StartRehash(s).currentSlots| == 2 * s.totalEntries >= 2
  {
    var r := StartRehash(s);
    forall k ensures Lookup(hash, r, k) == MapGet(m, k) {
      assert Lookup(hash, s, k) == MapGet(m, k);
    }
  }

  /** `set(k, v)` turns the map into `m[k := v]`; when it starts a migration,
      the new table has at least twice as many chains as there are keys. */
  lemma SetRefines<K(!new), V>(hash: K -> nat, loadNum: nat, loadDen: nat, s: State<K, V>, m: map<K, V>, k: K, v: V)
    requires Refines(hash, s, m)
    ensures Refines(hash, ApplySet(hash, loadNum, loadDen, s, k, v), m[k := v])
    ensures Place(hash, Advance(hash, s), Entry(k, v)).totalEntries >= |m[k := v]| > 0
    ensures var placed := Place(hash, Advance(hash, s), Entry(k, v));
            ShouldRehash(loadNum, loadDen, placed.isRehashing, placed.totalEntries, |placed.currentSlots|)
            ==> |ApplySet(hash, loadNum, loadDen, s, k, v).currentSlots| >= 2 * |m[k := v]| >= 2
  {
    AdvanceRefines(hash, s, m);
    var stepped := Advance(hash, s);
    PlaceRefines(hash, stepped, m, Entry(k, v));
    var placed := Place(hash, stepped, Entry(k, v));
    if ShouldRehash(loadNum, loadDen, placed.isRehashing, placed.totalEntries, |placed.currentSlots|) {
      StartRefines(hash, placed, m[k := v]);
    }
  }

  /** `get(k)` takes one migration step, keeps the map and returns the key's value. */
  lemma GetRefines<K(!new), V>(hash: K -> nat, s: State<K, V>, m: map<K, V>, k: K)
    requires Refines(hash, s, m)
    ensures Refines(hash, ApplyGet(hash, s, k).0, m)
    ensures ApplyGet(hash, s, k) == (Advance(hash, s), MapGet(m, k))
  {
    AdvanceRefines(hash, s, m);
  }

  /** `remove(k)` takes one migration step, returns the key's value and removes
      it; on an absent key the migration step is all that happens. */
  lemma RemoveRefines<K(!new), V>(hash: K -> nat, s: State<K, V>, m: map<K, V>, k: K)
    requires Refines(hash, s, m)
    ensures Refines(hash, ApplyRemove(hash, s, k).0, m - {k})
    ensures ApplyRemove(hash, s, k).1 == MapGet(m, k)
    ensures k !in m ==> ApplyRemove(hash, s, k).0 == Advance(hash, s)
  {
    AdvanceRefines(hash, s, m);
    TakeRefines(hash, Advance(hash, s), m, k);
  }

  /** After `set(k, v)`, `contain(k)` holds and `get(k)` returns `v`. */
  lemma SetThenGet<K(!new), V>(hash: K -> nat, loadNum: nat, loadDen: nat, s: State<K, V>, m: map<K, V>, k: K, v: V)
    requires Refines(hash, s, m)
    ensures var s' := ApplySet(hash, loadNum, loadDen, s, k, v);
            WellFormed(s') && Contains(hash, s', k) && ApplyGet(hash, s', k).1 == Some(v)
  {
    SetRefines(hash, loadNum, loadDen, s, m, k, v);
    var s' := ApplySet(hash, loadNum, loadDen, s, k, v);
    ContainsAgrees(hash, s', m[k := v], k);
    GetRefines(hash, s', m[k := v], k);
  }

  /** `remove(k)` on a present key returns its value; afterwards `contain(k)`
      is false and both `get(k)` and `remove(k)` report it missing. */
  lemma RemoveThenMiss<K(!new), V>(hash: K -> nat, s: State<K, V>, m: map<K, V>, k: K)
    requires Refines(hash, s, m) && k in m
    ensures var (s', r) := ApplyRemove(hash, s, k);
            r == Some(m[k]) && WellFormed(s') && !Contains(hash, s', k)
            && ApplyGet(hash, s', k).1 == None && ApplyRemove(hash, s', k).1 == None
  {
    RemoveRefines(hash, s, m, k);
    var s' := ApplyRemove(hash, s, k).0;
    ContainsAgrees(hash, s', m - {k}, k);
    GetRefines(hash, s', m - {k}, k);
    RemoveRefines(hash, s', m - {k}, k);
  }

  // ---------------------------------------------------------------------
  // Sequences of operations

  /** One call of the public interface that changes state. */
  datatype Op<K, V> = SetOp(k: K, v: V) | GetOp(k: K) | RemoveOp(k: K)

  function Apply<K(==), V>(hash: K -> nat, loadNum: nat, loadDen: nat, s: State<K, V>, op: Op<K, V>): State<K, V>
    requires WellFormed(s)
  {
    match op
    case SetOp(k, v) => ApplySet(hash, loadNum, loadDen, s, k, v)
    case GetOp(k) => ApplyGet(hash, s, k).0
    case RemoveOp(k) => ApplyRemove(hash, s, k).0
  }

  /** The same call on a reference map. */
  function Reference<K, V>(m: map<K, V>, op: Op<K, V>): map<K, V>
  {
    match op
    case SetOp(k, v) => m[k := v]
    case GetOp(_) => m
    case RemoveOp(k) => m - {k}
  }

  function Replay<K, V>(m: map<K, V>, ops: seq<Op<K, V>>): map<K, V>
    decreases |ops|
  {
    if ops == [] then m else Replay(Reference(m, ops[0]), ops[1..])
  }

  lemma ApplyRefines<K(!new), V>(hash: K -> nat, loadNum: nat, loadDen: nat, s: State<K, V>, m: map<K, V>, op: Op<K, V>)
    requires Refines(hash, s, m)
    ensures Refines(hash, Apply(hash, loadNum, loadDen, s, op), Reference(m, op))
  {
    match op
    case SetOp(k, v) => SetRefines(hash, loadNum, loadDen, s, m, k, v);
    case GetOp(k) => GetRefines(hash, s, m, k);
    case RemoveOp(k) => RemoveRefines(hash, s, m, k);
  }

  /** Running a sequence of calls from a state that holds `m` ends in a state
      that holds the reference map replayed over the same calls. */
  ghost function Run<K(!new), V>(hash: K -> nat, loadNum: nat, loadDen: nat, s: State<K, V>, m: map<K, V>, ops: seq<Op<K, V>>): (r: (State<K, V>, map<K, V>))
    requires Refines(hash, s, m)
    ensures r.1 == Replay(m, ops) && Refines(hash, r.0, r.1)
    decreases |ops|
  {
    if ops == [] then (s, m)
    else
      ApplyRefines(hash, loadNum, loadDen, s, m, ops[0]);
      Run(hash, loadNum, loadDen, Apply(hash, loadNum, loadDen, s, ops[0]), Reference(m, ops[0]), ops[1..])
  }

  /** Shadow-map equivalence: after any sequence of calls, `contain` and `get`
      give what the reference map gives. */
  lemma ShadowEquivalence<K(!new), V>(hash: K -> nat, loadNum: nat, loadDen: nat, s: State<K, V>, m: map<K, V>, ops: seq<Op<K, V>>, k: K)
    requires Refines(hash, s, m)
    ensures var s' := Run(hash, loadNum, loadDen, s, m, ops).0;
            WellFormed(s')
            && (Contains(hash, s', k) <==> k in Replay(m, ops))
            && ApplyGet(hash, s', k).1 == MapGet(Replay(m, ops), k)
  {
    var s' := Run(hash, loadNum, loadDen, s, m, ops).0;
    ContainsAgrees(hash, s', Replay(m, ops), k);
    GetRefines(hash, s', Replay(m, ops), k);
  }

  /** The migration under way in `s` has not finished within the calls `ops`:
      every one of them took a migration step that did not finish it. */
  ghost predicate Unfinished<K(!new), V>(hash: K -> nat, loadNum: nat, loadDen: nat, s: State<K, V>, m: map<K, V>, ops: seq<Op<K, V>>)
    decreases |ops|
  {
    Refines(hash, s, m) && s.isRehashing
    && (ops != [] ==>
          Step(hash, s).isRehashing
          && Unfinished(hash, loadNum, loadDen, Apply(hash, loadNum, loadDen, s, ops[0]), Reference(m, ops[0]), ops[1..]))
  }

  /** While migrating, a call moves the cursor exactly as its migration step does. */
  lemma ApplyKeepsCursor<K(!new), V>(hash: K -> nat, loadNum: nat, loadDen: nat, s: State<K, V>, op: Op<K, V>)
    requires WellFormed(s) && s.isRehashing && Step(hash, s).isRehashing
    ensures var r := Apply(hash, loadNum, loadDen, s, op);
            r.isRehashing && r.remainOldIndex == Step(hash, s).remainOldIndex && |r.oldSlots| == |s.oldSlots|
  {
  }

  /** Migration ends: at most `|oldSlots| - remainOldIndex` calls can pass
      without finishing it, so the next call after those finishes it. */
  lemma {:induction false} DrainBound<K(!new), V>(hash: K -> nat, loadNum: nat, loadDen: nat, s: State<K, V>, m: map<K, V>, ops: seq<Op<K, V>>)
    requires Unfinished(hash, loadNum, loadDen, s, m, ops)
    ensures |ops| <= |s.oldSlots| - s.remainOldIndex
    decreases |ops|
  {
    if ops != [] {
      ApplyKeepsCursor(hash, loadNum, loadDen, s, ops[0]);
      DrainBound(hash, loadNum, loadDen, Apply(hash, loadNum, loadDen, s, ops[0]), Reference(m, ops[0]), ops[1..]);
    }
  }
}
