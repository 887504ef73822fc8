/** Collision chains of the hash map: the `std::list<entry>` of one slot,
    modelled as a sequence whose head is the front of the list. */
module Buckets {

  datatype Option<T> = None | Some(value: T)

  /** The `entry` record of the map: one key and its value. */
  datatype Entry<K, V> = Entry(key: K, value: V)

  type Bucket<K, V> = seq<Entry<K, V>>

  /** The keys held by a chain. */
  ghost function Keys<K, V>(b: Bucket<K, V>): set<K>
  {
    set j | 0 <= j < |b| :: b[j].key
  }

  /** No key occurs twice in a chain. */
  ghost predicate DistinctKeys<K, V>(b: Bucket<K, V>)
  {
    forall i, j :: 0 <= i < j < |b| ==> b[i].key != b[j].key
  }

  /** What a reference map holds for `k`. */
  function MapGet<K, V>(m: map<K, V>, k: K): (r: Option<V>)
    ensures r.Some? <==> k in m
    ensures r.Some? ==> r.value == m[k]
  {
    if k in m then Some(m[k]) else None
  }

  /** Position of the first entry with key `k`, scanning from the front as the
      range-for loops of the map do; `|b|` when the key is absent. */
  function IndexOf<K(==), V>(b: Bucket<K, V>, k: K): (i: nat)
    ensures i <= |b|
    ensures i < |b| ==> b[i].key == k
    ensures forall j :: 0 <= j < i ==> b[j].key != k
    ensures i < |b| <==> k in Keys(b)
    decreases |b|
  {
    if |b| == 0 then 0
    else if b[0].key == k then 0
    else
      var i := IndexOf(b[1..], k);
      assert forall j :: 1 <= j < |b| ==> b[j] == b[1..][j - 1];
      1 + i
  }

  /** A scan that stops at `i` with every earlier key different from `k` has
      found exactly what `IndexOf` finds. */
  lemma IndexOfIs<K, V>(b: Bucket<K, V>, k: K, i: nat)
    requires i <= |b|
    requires i < |b| ==> b[i].key == k
    requires forall j :: 0 <= j < i ==> b[j].key != k
    ensures IndexOf(b, k) == i
  {
  }

  /** The value stored under `k` in a chain (the first match). */
  function Find<K(==), V>(b: Bucket<K, V>, k: K): (r: Option<V>)
    ensures r.Some? <==> k in Keys(b)
    ensures r.Some? ==> exists j :: 0 <= j < |b| && b[j].key == k && b[j].value == r.value
  {
    var i := IndexOf(b, k);
    if i < |b| then Some(b[i].value) else None
  }

  /** The chain after `move_into_slots` puts `e` into it: the value of an entry
      with the same key is overwritten in place, otherwise `e` is pushed to the front. */
  function Upsert<K(==), V>(b: Bucket<K, V>, e: Entry<K, V>): (r: Bucket<K, V>)
    ensures Keys(r) == Keys(b) + {e.key}
    ensures |r| == if e.key in Keys(b) then |b| else |b| + 1
    ensures DistinctKeys(b) ==> DistinctKeys(r)
  {
    var i := IndexOf(b, e.key);
    if i < |b| then
      var r := b[i := e];
      assert forall j :: 0 <= j < |b| ==> r[j].key == b[j].key;
      assert Keys(r) == Keys(b);
      r
    else
      var r := [e] + b;
      assert forall j :: 1 <= j < |r| ==> r[j] == b[j - 1];
      assert Keys(r) == Keys(b) + {e.key} by {
        forall k | k in Keys(r) ensures k in Keys(b) + {e.key} {
          var j :| 0 <= j < |r| && r[j].key == k;
          if j > 0 { assert b[j - 1].key == k; }
        }
        forall k | k in Keys(b) ensures k in Keys(r) {
          var j :| 0 <= j < |b| && b[j].key == k;
          assert r[j + 1].key == k;
        }
        assert r[0].key == e.key;
      }
      r
  }

  /** The chain after `remove_from_slots` unlinks the first entry with key `k`;
      unchanged when there is none. */
  function Erase<K(==), V>(b: Bucket<K, V>, k: K): (r: Bucket<K, V>)
    ensures k !in Keys(b) ==> r == b
    ensures k in Keys(b) ==> |r| == |b| - 1
    ensures Keys(r) <= Keys(b)
    ensures DistinctKeys(b) ==> DistinctKeys(r) && Keys(r) == Keys(b) - {k}
  {
    var i := IndexOf(b, k);
    if i < |b| then
      var r := b[..i] + b[i + 1..];
      assert forall j :: 0 <= j < i ==> r[j] == b[j];
      assert forall j :: i <= j < |r| ==> r[j] == b[j + 1];
      assert Keys(r) <= Keys(b) by {
        forall x | x in Keys(r) ensures x in Keys(b) {
          var j :| 0 <= j < |r| && r[j].key == x;
          if j < i { assert b[j].key == x; } else { assert b[j + 1].key == x; }
        }
      }
      assert DistinctKeys(b) ==> Keys(r) == Keys(b) - {k} by {
        if DistinctKeys(b) {
          forall x | x in Keys(b) - {k} ensures x in Keys(r) {
            var j :| 0 <= j < |b| && b[j].key == x;
            if j < i { assert r[j].key == x; } else { assert j != i; assert r[j - 1].key == x; }
          }
          forall x | x in Keys(r) ensures x != k {
            var j :| 0 <= j < |r| && r[j].key == x;
            if j < i { assert b[j].key == x; } else { assert b[j + 1].key == x; }
          }
        }
      }
      r
    else
      b
  }

  /** Distinct keys: the entry at position `j` is what a lookup of its key finds. */
  lemma FindAt<K, V>(b: Bucket<K, V>, j: nat)
    requires DistinctKeys(b) && j < |b|
    ensures Find(b, b[j].key) == Some(b[j].value)
  {
    IndexOfIs(b, b[j].key, j);
  }

  /** After an upsert, the upserted key maps to its new value and every other
      key to what it mapped to before. */
  lemma {:induction false} FindUpsert<K, V>(b: Bucket<K, V>, e: Entry<K, V>, k: K)
    ensures Find(Upsert(b, e), k) == if k == e.key then Some(e.value) else Find(b, k)
  {
    var i := IndexOf(b, e.key);
    var r := Upsert(b, e);
    if i < |b| {
      if k == e.key {
        IndexOfIs(r, k, i);
      } else {
        var n := IndexOf(b, k);
        IndexOfIs(r, k, n);
      }
    } else {
      if k == e.key {
        IndexOfIs(r, k, 0);
      } else {
        var n := IndexOf(b, k);
        assert forall j :: 1 <= j < |r| ==> r[j] == b[j - 1];
        IndexOfIs(r, k, n + 1);
      }
    }
  }

  /** After an erase in a chain with distinct keys, the erased key is absent
      and every other key maps to what it mapped to before. */
  lemma {:induction false} FindErase<K, V>(b: Bucket<K, V>, k: K, x: K)
    requires DistinctKeys(b)
    ensures Find(Erase(b, k), x) == if x == k then None else Find(b, x)
  {
    var i := IndexOf(b, k);
    var r := Erase(b, k);
    if i < |b| && x != k {
      assert forall j :: 0 <= j < i ==> r[j] == b[j];
      assert forall j :: i <= j < |r| ==> r[j] == b[j + 1];
      var n := IndexOf(b, x);
      if n < i {
        IndexOfIs(r, x, n);
      } else {
        assert n != i;
        IndexOfIs(r, x, n - 1);
      }
    }
  }

  /** Appending one entry at the back of a chain (the drain loop reads a chain
      from front to back) leaves earlier keys as they were. */
  lemma {:induction false} FindSnoc<K, V>(b: Bucket<K, V>, e: Entry<K, V>, k: K)
    ensures Keys(b + [e]) == Keys(b) + {e.key}
    ensures Find(b + [e], k) == if k in Keys(b) then Find(b, k)
                                else if k == e.key then Some(e.value) else None
  {
    var r := b + [e];
    assert forall j :: 0 <= j < |b| ==> r[j] == b[j];
    assert r[|b|] == e;
    assert Keys(r) == Keys(b) + {e.key} by {
      forall x | x in Keys(r) ensures x in Keys(b) + {e.key} {
        var j :| 0 <= j < |r| && r[j].key == x;
        if j < |b| { assert b[j].key == x; }
      }
    }
    var n := IndexOf(b, k);
    if n < |b| {
      IndexOfIs(r, k, n);
    } else if k == e.key {
      IndexOfIs(r, k, |b|);
    }
  }
}
