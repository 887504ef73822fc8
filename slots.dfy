/** Bucket tables of the hash map: the `slots_t` vector of collision chains,
    indexed by the key's hash modulo the table size. */
module Slots {
  import opened Buckets

  type Table<K, V> = seq<Bucket<K, V>>

  /** A table of `n` empty chains, as a freshly sized `slots_t`. */
  function EmptyTable<K, V>(n: nat): (t: Table<K, V>)
    ensures |t| == n
    ensures forall i :: 0 <= i < n ==> t[i] == []
  {
    seq(n, _ => [])
  }

  /** Placement: every key sits in the chain its hash selects. */
  ghost predicate WellPlaced<K, V>(hash: K -> nat, t: Table<K, V>)
  {
    forall i, k :: 0 <= i < |t| && k in Keys(t[i]) ==> hash(k) % |t| == i
  }

  /** No chain holds a key twice. */
  ghost predicate Distinct<K, V>(t: Table<K, V>)
  {
    forall i :: 0 <= i < |t| ==> DistinctKeys(t[i])
  }

  /** The value `get_from_slots` finds for `k`, or `None` where it throws. */
  function FindIn<K(==), V>(hash: K -> nat, t: Table<K, V>, k: K): (r: Option<V>)
    requires |t| > 0
    ensures r.Some? <==> k in Keys(t[hash(k) % |t|])
  {
    Find(t[hash(k) % |t|], k)
  }

  /** Whether `move_into_slots` pushes `e` as a new entry (and so counts it). */
  function IsNew<K(==), V>(hash: K -> nat, t: Table<K, V>, e: Entry<K, V>): (r: bool)
    requires |t| > 0
    ensures r <==> e.key !in Keys(t[hash(e.key) % |t|])
  {
    FindIn(hash, t, e.key).None?
  }

  /** The table after `move_into_slots(t, e)`. */
  function MoveInto<K(==), V>(hash: K -> nat, t: Table<K, V>, e: Entry<K, V>): (r: Table<K, V>)
    requires |t| > 0
    ensures |r| == |t|
  {
    var h := hash(e.key) % |t|;
    t[h := Upsert(t[h], e)]
  }

  /** The table after `remove_from_slots(t, k)` (unchanged where it throws). */
  function RemoveFrom<K(==), V>(hash: K -> nat, t: Table<K, V>, k: K): (r: Table<K, V>)
    requires |t| > 0
    ensures |r| == |t|
    ensures FindIn(hash, t, k).None? ==> r == t
  {
    var h := hash(k) % |t|;
    var r := t[h := Erase(t[h], k)];
    assert FindIn(hash, t, k).None? ==> r == t by {
      if FindIn(hash, t, k).None? {
        assert forall i :: 0 <= i < |t| ==> r[i] == t[i];
      }
    }
    r
  }

  /** In a well-placed table a key is held somewhere exactly when a lookup
      finds it. */
  lemma HeldIffFound<K, V>(hash: K -> nat, t: Table<K, V>, k: K, i: nat)
    requires |t| > 0 && WellPlaced(hash, t) && i < |t| && k in Keys(t[i])
    ensures i == hash(k) % |t| && FindIn(hash, t, k).Some?
  {
  }

  /** `move_into_slots` keeps placement and distinctness, makes `e.key` map to
      `e.value`, leaves every other key's value alone and adds no key but `e.key`. */
  lemma MoveIntoFacts<K, V>(hash: K -> nat, t: Table<K, V>, e: Entry<K, V>)
    requires |t| > 0 && WellPlaced(hash, t) && Distinct(t)
    ensures WellPlaced(hash, MoveInto(hash, t, e)) && Distinct(MoveInto(hash, t, e))
    ensures forall k :: FindIn(hash, MoveInto(hash, t, e), k)
                        == if k == e.key then Some(e.value) else FindIn(hash, t, k)
    ensures forall i, k :: 0 <= i < |t| && k in Keys(MoveInto(hash, t, e)[i])
                           ==> k == e.key || k in Keys(t[i])
  {
    var h := hash(e.key) % |t|;
    var r := MoveInto(hash, t, e);
    forall k ensures FindIn(hash, r, k) == if k == e.key then Some(e.value) else FindIn(hash, t, k) {
      if hash(k) % |t| == h {
        FindUpsert(t[h], e, k);
      }
    }
  }

  /** `remove_from_slots` keeps placement and distinctness, makes `k` absent,
      leaves every other key's value alone and adds no key. */
  lemma RemoveFromFacts<K, V>(hash: K -> nat, t: Table<K, V>, k: K)
    requires |t| > 0 && WellPlaced(hash, t) && Distinct(t)
    ensures WellPlaced(hash, RemoveFrom(hash, t, k)) && Distinct(RemoveFrom(hash, t, k))
    ensures forall x :: FindIn(hash, RemoveFrom(hash, t, k), x)
                        == if x == k then None else FindIn(hash, t, x)
    ensures forall i, x :: 0 <= i < |t| && x in Keys(RemoveFrom(hash, t, k)[i]) ==> x in Keys(t[i])
  {
    var h := hash(k) % |t|;
    var r := RemoveFrom(hash, t, k);
    forall x ensures FindIn(hash, r, x) == if x == k then None else FindIn(hash, t, x) {
      if hash(x) % |t| == h {
        FindErase(t[h], k, x);
      }
    }
  }
}
