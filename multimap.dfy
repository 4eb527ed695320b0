/**
 * The hashtable of Hashtable/pb2.c, a multimap: `ht_put` always appends a
 * new entry to the tail of the key's bucket, even when the key is there
 * already, and a lookup answers with the first entry of the bucket whose
 * key compares equal.
 */
module MultiMaps {
  import opened Options
  import opened ListSpec
  import opened Comparators
  import opened Buckets

  class HashTable<K(!new), V> {
    var buckets: array<seq<Info<K, V>>>
    /** The number of entries over all buckets. */
    var size: nat
    var hmax: nat
    var hash: K -> nat
    var cmp: (K, K) -> int

    ghost predicate Valid()
      reads this, buckets
    {
      && hmax > 0
      && buckets.Length == hmax
      && size == Total(buckets[..])
      && forall i, j :: 0 <= i < hmax && 0 <= j < |buckets[i]| ==> hash(buckets[i][j].key) % hmax == i
    }

    /**
     * ht_create: `hmax` empty buckets. With hmax = 0 every later bucket
     * index divides by zero, so a table needs at least one bucket.
     */
    constructor (hmax: nat, hash: K -> nat, cmp: (K, K) -> int)
      requires hmax > 0
      ensures Valid() && fresh(buckets)
      ensures this.hmax == hmax && this.hash == hash && this.cmp == cmp
      ensures size == 0 && forall i :: 0 <= i < hmax ==> buckets[i] == []
    {
      var a := new seq<Info<K, V>>[hmax];
      for i := 0 to hmax
        invariant forall j :: 0 <= j < i ==> a[j] == []
      {
        a[i] := [];
      }
      TotalEmpty(a[..]);
      buckets := a;
      size := 0;
      this.hmax := hmax;
      this.hash := hash;
      this.cmp := cmp;
    }

    /** ht_get_bucket_index: the key's bucket, as `Slot` gives it. */
    function BucketIndex(key: K): nat
      reads this
      requires hmax > 0
    {
      Slot(hash(key), hmax)
    }

    /** The values stored under `key`, oldest first. */
    ghost function Values(key: K): seq<V>
      reads this, buckets
      requires Valid()
    {
      Matching(buckets[BucketIndex(key)], key, cmp)
    }

    /** ht_has_key: true exactly when the key's bucket holds a matching key. */
    method HasKey(key: K) returns (r: bool)
      requires Valid()
      ensures r <==> exists j :: 0 <= j < |buckets[BucketIndex(key)]| && cmp(buckets[BucketIndex(key)][j].key, key) == 0
    {
      var b := buckets[BucketIndex(key)];
      var i := 0;
      while i < |b|
        invariant 0 <= i <= |b|
        invariant NoMatchBefore(b, key, cmp, i)
      {
        if cmp(b[i].key, key) == 0 {
          return true;
        }
        i := i + 1;
      }
      return false;
    }

    /**
     * ht_get_entry_node: the position of the first match in the key's
     * bucket. The source means to count the skipped nodes in
     * `*nodeOrder`, but `*node_order++` moves the pointer instead, so
     * the caller's counter comes back as it went in.
     */
    method GetEntryNode(key: K, nodeOrder: int) returns (pos: Option<nat>, nodeOrder': int)
      requires Valid()
      ensures nodeOrder' == nodeOrder
      ensures pos.None? <==> Find(buckets[BucketIndex(key)], key, cmp).None?
      ensures pos.Some? ==> pos.value < |buckets[BucketIndex(key)]|
      ensures pos.Some? ==> Find(buckets[BucketIndex(key)], key, cmp) == Some(buckets[BucketIndex(key)][pos.value].value)
    {
      var b := buckets[BucketIndex(key)];
      nodeOrder' := nodeOrder;
      var i := 0;
      while i < |b|
        invariant 0 <= i <= |b|
        invariant NoMatchBefore(b, key, cmp, i)
      {
        if cmp(b[i].key, key) == 0 {
          FindAt(b, key, cmp, i);
          return Some(i), nodeOrder';
        }
        i := i + 1;
      }
      FindNone(b, key, cmp);
      return None, nodeOrder';
    }

    /** ht_get: the oldest value stored under `key`, or NULL for none. */
    method Get(key: K) returns (r: Option<V>)
      requires Valid()
      ensures r == if Values(key) == [] then None else Some(Values(key)[0])
    {
      var pos, order := GetEntryNode(key, -1);
      FindFirstMatching(buckets[BucketIndex(key)], key, cmp);
      if pos.Some? {
        return Some(buckets[BucketIndex(key)][pos.value].value);
      }
      return None;
    }

    /**
     * ht_put: a new entry at the tail of the key's bucket and one more in
     * `size`; an existing entry for the key stays where it is.
     */
    method Put(key: K, value: V)
      requires Valid()
      modifies this, buckets
      ensures Valid()
      ensures hmax == old(hmax) && hash == old(hash) && cmp == old(cmp) && buckets == old(buckets)
      ensures size == old(size) + 1
      ensures buckets[BucketIndex(key)] == old(buckets[BucketIndex(key)]) + [Info(key, value)]
      ensures forall i :: 0 <= i < hmax && i != BucketIndex(key) ==> buckets[i] == old(buckets[i])
      ensures IsEquality(cmp) ==> forall k :: Values(k) == old(Values(k)) + (if k == key then [value] else [])
    {
      var index := BucketIndex(key);
      var b := buckets[index];
      var updated := InsertAt(b, |b|, Info(key, value));
      TotalUpdate(buckets[..], index, updated);
      buckets[index] := updated;
      assert buckets[..] == old(buckets[..])[index := updated];
      size := size + 1;
      forall k | IsEquality(cmp)
        ensures Values(k) == old(Values(k)) + (if k == key then [value] else [])
      {
        if BucketIndex(k) == index {
          MatchingAppend(b, Info(key, value), k, cmp);
        }
      }
    }

    /**
     * print_all_key_matching_entries, without the printing: the values
     * of every entry of the key's bucket whose key matches, in bucket order.
     */
    method MatchingValues(key: K) returns (vals: seq<V>)
      requires Valid()
      ensures vals == Values(key)
    {
      var b := buckets[BucketIndex(key)];
      vals := [];
      var i := 0;
      while i < |b|
        invariant 0 <= i <= |b|
        invariant vals + Matching(b[i..], key, cmp) == Matching(b, key, cmp)
      {
        assert b[i..][1..] == b[i + 1..];
        ghost var here := if cmp(b[i].key, key) == 0 then [b[i].value] else [];
        assert Matching(b[i..], key, cmp) == here + Matching(b[i + 1..], key, cmp);
        assert vals + here + Matching(b[i + 1..], key, cmp) == Matching(b, key, cmp);
        if cmp(b[i].key, key) == 0 {
          vals := vals + [b[i].value];
        }
        i := i + 1;
      }
      assert vals + Matching([], key, cmp) == vals;
    }

    /** ht_get_size: the number of entries. */
    function GetSize(): (r: nat)
      reads this, buckets
      requires Valid()
      ensures r == Total(buckets[..])
    {
      size
    }

    /** ht_get_hmax: the number of buckets. */
    function GetHmax(): (r: nat)
      reads this, buckets
      requires Valid()
      ensures r == buckets.Length
    {
      hmax
    }
  }
}
