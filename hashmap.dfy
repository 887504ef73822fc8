/** The class `hashmap<K, V>`: two bucket tables held in arrays, the entry
    counter, the migration flag and the migration cursor, updated in place.
    Every method is specified by the `Rehash` function of the same operation
    applied to the snapshot of the fields, and by its effect on the ghost map
    `model` that the fields represent. */
module Hashmap {
  import opened Buckets
  import opened Slots
  import opened Rehash

  class HashMap<K(==, !new), V> {
    /** The hasher: any deterministic function of the key. */
    const hash: K -> nat
    /** The load factor, as the fraction `loadNum / loadDen`. */
    const loadNum: nat
    const loadDen: nat

    var currentSlots: array<Bucket<K, V>>
    var totalEntries: int
    var isRehashing: bool
    var oldSlots: array<Bucket<K, V>>
    var remainOldIndex: nat

    /** The key/value map the two tables represent together. */
    ghost var model: map<K, V>
    ghost var Repr: set<object>

    ghost function Snapshot(): State<K, V>
      reads this, currentSlots, oldSlots
    {
      State(currentSlots[..], totalEntries, isRehashing, oldSlots[..], remainOldIndex)
    }

    /** The frame of the object and what the operations need for their `%`
        to be defined; the internal operations keep this much. */
    ghost predicate Shape()
      reads this, Repr
      ensures Shape() ==> this in Repr
    {
      Repr == {this, currentSlots, oldSlots}
      && currentSlots != oldSlots
      && WellFormed(Snapshot())
    }

    /** `Shape` and the invariant tying the fields to `model`. */
    ghost predicate Valid()
      reads this, Repr
      ensures Valid() ==> this in Repr
    {
      Shape() && Refines(hash, Snapshot(), model)
    }

    /** `hashmap(capacity, load_factor = 0.75)`. */
    constructor (capacity: nat, hash: K -> nat, loadNum: nat := 3, loadDen: nat := 4)
      requires capacity > 0 && loadDen > 0
      ensures Valid() && fresh(Repr) && model == map[]
      ensures Snapshot() == Initial(capacity)
      ensures this.hash == hash && this.loadNum == loadNum && this.loadDen == loadDen
    {
      this.hash := hash;
      this.loadNum := loadNum;
      this.loadDen := loadDen;
      currentSlots := new Bucket<K, V>[capacity](_ => []);
      totalEntries := 0;
      isRehashing := false;
      oldSlots := new Bucket<K, V>[0];
      remainOldIndex := 0;
      model := map[];
      new;
      Repr := {this, currentSlots, oldSlots};
      assert currentSlots[..] == EmptyTable(capacity);
      assert oldSlots[..] == [];
      InitialRefines<K, V>(hash, capacity);
    }

    /** `contain`: no migration step, no change; true exactly for the keys of the map. */
    method Contain(k: K) returns (found: bool)
      requires Valid()
      ensures found == (k in model)
      ensures found == Contains(hash, Snapshot(), k)
    {
      var r := LookupRouted(k);
      found := r.Some?;
      ContainsAgrees(hash, Snapshot(), model, k);
    }

    /** `get`: one migration step, then the key's value, or `None` where the
        source throws `logic_error`. */
    method Get(k: K) returns (r: Option<V>)
      requires Valid()
      modifies Repr
      ensures Valid() && fresh(Repr - old(Repr)) && model == old(model)
      ensures r == MapGet(model, k)
      ensures (Snapshot(), r) == ApplyGet(hash, old(Snapshot()), k)
    {
      ghost var s0 := Snapshot();
      AdvanceMigration();
      r := LookupRouted(k);
      GetRefines(hash, s0, model, k);
    }

    /** `set`: one migration step, then overwrite or push on the routed table,
        then start a migration when the counter reaches the load factor. */
    method Set(k: K, v: V)
      requires Valid()
      modifies Repr
      ensures Valid() && fresh(Repr - old(Repr))
      ensures model == old(model)[k := v]
      ensures Snapshot() == ApplySet(hash, loadNum, loadDen, old(Snapshot()), k, v)
    {
      ghost var s0 := Snapshot();
      AdvanceMigration();
      PlaceRouted(Entry(k, v));
      SetRefines(hash, loadNum, loadDen, s0, model, k, v);
      ghost var placed := Snapshot();
      if ShouldRehash(loadNum, loadDen, isRehashing, totalEntries, currentSlots.Length) {
        StartRehash();
        assert Snapshot() == Rehash.StartRehash(placed);
      }
      model := model[k := v];
    }

    /** `remove`: one migration step, then unlink the key from the routed table
        and give back its value, or `None` where the source throws. */
    method Remove(k: K) returns (r: Option<V>)
      requires Valid()
      modifies Repr
      ensures Valid() && fresh(Repr - old(Repr))
      ensures model == old(model) - {k}
      ensures r == MapGet(old(model), k)
      ensures (Snapshot(), r) == ApplyRemove(hash, old(Snapshot()), k)
    {
      ghost var s0 := Snapshot();
      AdvanceMigration();
      r := TakeRouted(k);
      RemoveRefines(hash, s0, model, k);
      model := model - {k};
    }

    /** The `if (is_rehashing) rehash_next_slot();` that opens `get`, `set` and `remove`. */
    method AdvanceMigration()
      requires Shape()
      modifies Repr
      ensures Shape() && fresh(Repr - old(Repr)) && model == old(model)
      ensures Snapshot() == Advance(hash, old(Snapshot()))
    {
      if isRehashing {
        RehashNextSlot();
      }
    }

    /** The lookup `get` and `contain` make once routed by `is_belongs_old`. */
    method LookupRouted(k: K) returns (r: Option<V>)
      requires Shape()
      ensures r == Lookup(hash, Snapshot(), k)
    {
      if BelongsOld(hash, isRehashing, oldSlots.Length, remainOldIndex, k) {
        r := GetFromSlots(oldSlots, k);
      } else {
        r := GetFromSlots(currentSlots, k);
      }
    }

    /** The `move_into_slots` that `set` makes on the table `is_belongs_old` picks. */
    method PlaceRouted(e: Entry<K, V>)
      requires Shape()
      modifies currentSlots, oldSlots, this`totalEntries
      ensures Shape()
      ensures Snapshot() == Place(hash, old(Snapshot()), e)
    {
      if BelongsOld(hash, isRehashing, oldSlots.Length, remainOldIndex, e.key) {
        MoveIntoSlots(oldSlots, e);
      } else {
        MoveIntoSlots(currentSlots, e);
      }
    }

    /** The `remove_from_slots` that `remove` makes on the table `is_belongs_old` picks. */
    method TakeRouted(k: K) returns (r: Option<V>)
      requires Shape()
      modifies currentSlots, oldSlots, this`totalEntries
      ensures (Snapshot(), r) == Take(hash, old(Snapshot()), k)
    {
      if BelongsOld(hash, isRehashing, oldSlots.Length, remainOldIndex, k) {
        r := RemoveFromSlots(oldSlots, k);
      } else {
        r := RemoveFromSlots(currentSlots, k);
      }
    }

    /** `move_into_slots`: overwrite the value of the entry with the same key in
        its chain, or push the entry to the chain's front and count it. */
    method MoveIntoSlots(slots: array<Bucket<K, V>>, e: Entry<K, V>)
      requires slots.Length > 0
      modifies slots, this`totalEntries
      ensures slots[..] == MoveInto(hash, old(slots[..]), e)
      ensures totalEntries == old(totalEntries) + if IsNew(hash, old(slots[..]), e) then 1 else 0
    {
      var index := hash(e.key) % slots.Length;
      var slot := slots[index];
      var i := 0;
      while i < |slot|
        invariant 0 <= i <= |slot|
        invariant forall j :: 0 <= j < i ==> slot[j].key != e.key
      {
        if slot[i].key == e.key {
          IndexOfIs(slot, e.key, i);
          slots[index] := slot[i := slot[i].(value := e.value)];
          return;
        }
        i := i + 1;
      }
      IndexOfIs(slot, e.key, i);
      slots[index] := [e] + slot;
      totalEntries := totalEntries + 1;
    }

    /** `get_from_slots`: scan the key's chain; `None` where the source throws. */
    method GetFromSlots(slots: array<Bucket<K, V>>, k: K) returns (r: Option<V>)
      requires slots.Length > 0
      ensures r == FindIn(hash, slots[..], k)
    {
      var slot := slots[hash(k) % slots.Length];
      var i := 0;
      while i < |slot|
        invariant 0 <= i <= |slot|
        invariant forall j :: 0 <= j < i ==> slot[j].key != k
      {
        if k == slot[i].key {
          IndexOfIs(slot, k, i);
          return Some(slot[i].value);
        }
        i := i + 1;
      }
      IndexOfIs(slot, k, i);
      return None;
    }

    /** `remove_from_slots`: unlink the key's entry from its chain, uncount it
        and give back its value; `None` and no change where the source throws. */
    method RemoveFromSlots(slots: array<Bucket<K, V>>, k: K) returns (r: Option<V>)
      requires slots.Length > 0
      modifies slots, this`totalEntries
      ensures r == FindIn(hash, old(slots[..]), k)
      ensures slots[..] == RemoveFrom(hash, old(slots[..]), k)
      ensures totalEntries == old(totalEntries) - if r.Some? then 1 else 0
    {
      var index := hash(k) % slots.Length;
      var slot := slots[index];
      var i := 0;
      while i < |slot|
        invariant 0 <= i <= |slot|
        invariant forall j :: 0 <= j < i ==> slot[j].key != k
      {
        if k == slot[i].key {
          IndexOfIs(slot, k, i);
          var entry := slot[i];
          slots[index] := slot[..i] + slot[i + 1..];
          totalEntries := totalEntries - 1;
          return Some(entry.value);
        }
        i := i + 1;
      }
      IndexOfIs(slot, k, i);
      assert slots[..] == old(slots[..])[index := slot];
      return None;
    }

    /** `rehash_next_slot`: advance the cursor past empty old chains, then
        drain the chain at the cursor into the current table, or finish. */
    method RehashNextSlot()
      requires Shape() && isRehashing
      modifies Repr
      ensures Shape() && fresh(Repr - old(Repr)) && model == old(model)
      ensures Snapshot() == Step(hash, old(Snapshot()))
    {
      ghost var s0 := Snapshot();
      SkipEmptyOldSlots();
      if remainOldIndex < oldSlots.Length {
        ghost var c := remainOldIndex;
        DrainOldSlot(oldSlots[remainOldIndex]);
        oldSlots[remainOldIndex] := [];
        remainOldIndex := remainOldIndex + 1;
        assert oldSlots[..] == s0.oldSlots[c := []];
      } else {
        FinishRehash();
      }
    }

    /** The first loop of `rehash_next_slot`: the cursor moves to the next
        non-empty old chain, or to the end of the old table. */
    method SkipEmptyOldSlots()
      modifies this`remainOldIndex
      ensures remainOldIndex == NextNonEmpty(oldSlots[..], old(remainOldIndex))
    {
      ghost var c := NextNonEmpty(oldSlots[..], remainOldIndex);
      while remainOldIndex < oldSlots.Length
        invariant NextNonEmpty(oldSlots[..], remainOldIndex) == c
        decreases oldSlots.Length - remainOldIndex
      {
        if |oldSlots[remainOldIndex]| != 0 {
          break;
        }
        remainOldIndex := remainOldIndex + 1;
      }
    }

    /** The second loop of `rehash_next_slot`: `move_into_slots` of every entry
        of an old chain, front to back, into the current table. */
    method DrainOldSlot(slot: Bucket<K, V>)
      requires currentSlots.Length > 0
      modifies currentSlots, this`totalEntries
      ensures currentSlots[..] == MoveAll(hash, old(currentSlots[..]), old(totalEntries), slot).0
      ensures totalEntries == MoveAll(hash, old(currentSlots[..]), old(totalEntries), slot).1
    {
      var i := 0;
      assert slot[..0] == [];
      while i < |slot|
        invariant 0 <= i <= |slot|
        invariant currentSlots[..] == MoveAll(hash, old(currentSlots[..]), old(totalEntries), slot[..i]).0
        invariant totalEntries == MoveAll(hash, old(currentSlots[..]), old(totalEntries), slot[..i]).1
      {
        MoveAllStep(hash, old(currentSlots[..]), old(totalEntries), slot, i);
        MoveIntoSlots(currentSlots, slot[i]);
        i := i + 1;
      }
      assert slot[..i] == slot;
    }

    /** `start_rehash`: the current table becomes the old one, the cursor goes
        back to 0 and an empty table of twice the counter becomes current. */
    method StartRehash()
      requires Shape() && !isRehashing && totalEntries >= 1
      modifies this
      ensures Shape() && fresh(Repr - old(Repr)) && model == old(model)
      ensures Snapshot() == Rehash.StartRehash(old(Snapshot()))
    {
      ghost var s0 := Snapshot();
      isRehashing := true;
      oldSlots := currentSlots;
      remainOldIndex := 0;
      currentSlots := new Bucket<K, V>[totalEntries * 2](_ => []);
      Repr := {this, currentSlots, oldSlots};
      assert currentSlots[..] == EmptyTable(2 * s0.totalEntries);
    }

    /** `finish_rehash`: leave the migrating state with an empty old table. */
    method FinishRehash()
      modifies this
      ensures Snapshot() == Finish(old(Snapshot()))
      ensures fresh(oldSlots) && currentSlots == old(currentSlots) && model == old(model)
      ensures Repr == {this, currentSlots, oldSlots}
    {
      isRehashing := false;
      oldSlots := new Bucket<K, V>[0];
      remainOldIndex := 0;
      Repr := {this, currentSlots, oldSlots};
      assert oldSlots[..] == [];
    }
  }
}
