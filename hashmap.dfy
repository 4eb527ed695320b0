/**
 * The hashtable of Hashtable/party_live.c, a map: `ht_put` overwrites the
 * value of a key that is present and otherwise adds the key at the head
 * of its bucket, so under a comparison that means equality no key is
 * stored twice. Every operation accepts a NULL table or a NULL key (and
 * `ht_put` a NULL value) and then does nothing.
 */
module HashMaps {
  import opened Options
  import opened ListSpec
  import opened Comparators
  import opened Buckets

  class HashMap<K(!new), V> {
    var buckets: array<seq<Info<K, V>>>
    var size: nat
    var hmax: nat
    var hash: K -> nat
    var cmp: (K, K) -> int

    ghost predicate Valid()
      reads this, buckets
    {
      && hmax > 0
      && buckets.Length == hmax
      && size == Total(buckets[..])
      && forall i, j :: 0 <= i < hmax && 0 <= j < |buckets[i]| ==> hash(buckets[i][j].key) % hmax == i
    }

    /** No bucket holds two keys that match each other. */
    ghost predicate KeysUnique()
      reads this, buckets
    {
      forall i :: 0 <= i < buckets.Length ==> Unique(buckets[i], cmp)
    }

    constructor (hmax: nat, hash: K -> nat, cmp: (K, K) -> int)
      requires hmax > 0
      ensures Valid() && KeysUnique() && fresh(buckets)
      ensures this.hmax == hmax && this.hash == hash && this.cmp == cmp
      ensures size == 0 && forall i :: 0 <= i < hmax ==> buckets[i] == []
    {
      var a := new seq<Info<K, V>>[hmax];
      for i := 0 to hmax
        invariant forall j :: 0 <= j < i ==> a[j] == []
      {
        a[i] := [];
      }
      TotalEmpty(a[..]);
      buckets := a;
      size := 0;
      this.hmax := hmax;
      this.hash := hash;
      this.cmp := cmp;
    }

    /** `hash(key) % hmax`: the key's bucket, as `Slot` gives it. */
    function BucketIndex(key: K): nat
      reads this`hash, this`hmax
      requires hmax > 0
    {
      Slot(hash(key), hmax)
    }

    /** What a search of the key's bucket from the head finds. */
    ghost function Lookup(key: K): Option<V>
      reads this`buckets, this`hash, this`hmax, this`cmp, buckets
      requires hmax > 0 && buckets.Length == hmax
    {
      Find(buckets[BucketIndex(key)], key, cmp)
    }
  }

  /**
   * ht_create: NULL unless both callbacks are given; otherwise `hmax`
   * empty buckets. With hmax = 0 every later bucket index divides by
   * zero, so a table needs at least one bucket.
   */
  method Create<K(!new), V>(hmax: nat, hash: Option<K -> nat>, cmp: Option<(K, K) -> int>)
    returns (ht: HashMap?<K, V>)
    requires hmax > 0
    ensures ht == null <==> hash.None? || cmp.None?
    ensures ht != null ==> fresh(ht) && fresh(ht.buckets) && ht.Valid() && ht.KeysUnique()
    ensures ht != null ==> ht.hmax == hmax && ht.hash == hash.value && ht.cmp == cmp.value
    ensures ht != null ==> ht.size == 0 && forall i :: 0 <= i < hmax ==> ht.buckets[i] == []
  {
    if hash.None? || cmp.None? {
      return null;
    }
    ht := new HashMap(hmax, hash.value, cmp.value);
  }

  /** ht_has_key: -1 for a NULL table or key, else 1 or 0 as the key is present or not. */
  method HasKey<K(!new), V>(ht: HashMap?<K, V>, key: Option<K>) returns (r: int)
    requires ht != null ==> ht.Valid()
    ensures ht == null || key.None? ==> r == -1
    ensures ht != null && key.Some? ==> (r == 1 <==> ht.Lookup(key.value).Some?)
    ensures ht != null && key.Some? ==> (r == 0 <==> ht.Lookup(key.value).None?)
  {
    if ht == null || key.None? {
      return -1;
    }
    var b := ht.buckets[ht.BucketIndex(key.value)];
    var i := 0;
    while i < |b|
      invariant 0 <= i <= |b|
      invariant NoMatchBefore(b, key.value, ht.cmp, i)
    {
      if ht.cmp(b[i].key, key.value) == 0 {
        FindAt(b, key.value, ht.cmp, i);
        return 1;
      }
      i := i + 1;
    }
    FindNone(b, key.value, ht.cmp);
    return 0;
  }

  /** ht_get: the value of the first matching entry, or NULL. */
  method Get<K(!new), V>(ht: HashMap?<K, V>, key: Option<K>) returns (r: Option<V>)
    requires ht != null ==> ht.Valid()
    ensures r == if ht == null || key.None? then None else ht.Lookup(key.value)
  {
    if ht == null || key.None? {
      return None;
    }
    var has := HasKey(ht, key);
    if has != 1 {
      return None;
    }
    var b := ht.buckets[ht.BucketIndex(key.value)];
    var i := 0;
    while i < |b|
      invariant 0 <= i <= |b|
      invariant NoMatchBefore(b, key.value, ht.cmp, i)
    {
      if ht.cmp(b[i].key, key.value) == 0 {
        FindAt(b, key.value, ht.cmp, i);
        return Some(b[i].value);
      }
      i := i + 1;
    }
    FindNone(b, key.value, ht.cmp);
    return None;
  }

  /**
   * The walk ht_put and ht_remove_entry make once ht_has_key has said
   * the key is present: from the head to the first matching entry.
   */
  method SeekFirstMatch<K, V>(b: seq<Info<K, V>>, key: K, cmp: (K, K) -> int) returns (p: nat)
    requires Find(b, key, cmp).Some?
    ensures FirstMatchAt(b, key, cmp, p)
  {
    p := 0;
    while cmp(b[p].key, key) != 0
      invariant p < |b| && NoMatchBefore(b, key, cmp, p)
      invariant Find(b[p..], key, cmp).Some?
      decreases |b| - p
    {
      assert b[p..][1..] == b[p + 1..];
      p := p + 1;
    }
  }

  /**
   * ht_put: nothing for a NULL table, key or value. A key already present
   * has the value of its first matching entry overwritten, the entry
   * keeping its place and the size unchanged; a new key is added at the
   * head of its bucket and the size grows by one. No other bucket changes.
   */
  method Put<K(!new), V>(ht: HashMap?<K, V>, key: Option<K>, value: Option<V>)
    requires ht != null ==> ht.Valid()
    modifies if ht != null then {ht, ht.buckets} else {}
    ensures ht != null ==> ht.Valid()
    ensures ht != null ==> ht.buckets == old(ht.buckets) && ht.hmax == old(ht.hmax)
    ensures ht != null ==> ht.hash == old(ht.hash) && ht.cmp == old(ht.cmp)
    ensures ht != null && (key.None? || value.None?) ==>
              ht.size == old(ht.size) && ht.buckets[..] == old(ht.buckets[..])
    ensures ht != null && key.Some? && value.Some? ==>
              var k, v := key.value, value.value;
              var i := ht.BucketIndex(k);
              var b := old(ht.buckets[i]);
              && (forall j :: 0 <= j < ht.hmax && j != i ==> ht.buckets[j] == old(ht.buckets[j]))
              && (old(ht.Lookup(k)).Some? ==>
                    && ht.size == old(ht.size)
                    && exists p :: FirstMatchAt(b, k, ht.cmp, p) && ht.buckets[i] == b[p := Info(b[p].key, v)])
              && (old(ht.Lookup(k)).None? ==>
                    ht.size == old(ht.size) + 1 && ht.buckets[i] == [Info(k, v)] + b)
    ensures ht != null && key.Some? && value.Some? && (old(ht.Lookup(key.value)).Some? || ht.cmp(key.value, key.value) == 0) ==>
              ht.Lookup(key.value) == value
    ensures ht != null && key.Some? && value.Some? && IsEquality(ht.cmp) ==>
              forall k :: k != key.value ==> ht.Lookup(k) == old(ht.Lookup(k))
    ensures ht != null && key.Some? && value.Some? && IsEquality(ht.cmp) && old(ht.KeysUnique()) ==>
              ht.KeysUnique()
  {
    if ht == null || key.None? || value.None? {
      return;
    }
    PutEntry(ht, key.value, value.value);
  }

  /** ht_put past its checks: overwrite the first match, or add the entry at the head of its bucket. */
  method PutEntry<K(!new), V>(ht: HashMap<K, V>, k: K, v: V)
    requires ht.Valid()
    modifies ht, ht.buckets
    ensures ht.Valid()
    ensures ht.buckets == old(ht.buckets) && ht.hmax == old(ht.hmax)
    ensures ht.hash == old(ht.hash) && ht.cmp == old(ht.cmp)
    ensures var i := ht.BucketIndex(k);
            var b := old(ht.buckets[i]);
            && (forall j :: 0 <= j < ht.hmax && j != i ==> ht.buckets[j] == old(ht.buckets[j]))
            && (old(ht.Lookup(k)).Some? ==>
                  && ht.size == old(ht.size)
                  && exists p :: FirstMatchAt(b, k, ht.cmp, p) && ht.buckets[i] == b[p := Info(b[p].key, v)])
            && (old(ht.Lookup(k)).None? ==>
                  ht.size == old(ht.size) + 1 && ht.buckets[i] == [Info(k, v)] + b)
    ensures old(ht.Lookup(k)).Some? || ht.cmp(k, k) == 0 ==> ht.Lookup(k) == Some(v)
    ensures IsEquality(ht.cmp) ==> forall k' :: k' != k ==> ht.Lookup(k') == old(ht.Lookup(k'))
    ensures IsEquality(ht.cmp) && old(ht.KeysUnique()) ==> ht.KeysUnique()
  {
    var i := ht.BucketIndex(k);
    var b := ht.buckets[i];
    var has := HasKey(ht, Some(k));
    if has == 1 {
      var p := SeekFirstMatch(b, k, ht.cmp);
      FindAt(b, k, ht.cmp, p);
      ReplaceValue(ht, i, p, k, v);
      return;
    }
    InsertHead(ht, i, k, v);
    ht.size := ht.size + 1;
  }

  /** The overwrite branch of ht_put: entry `p` of bucket `i` gets value `v`. */
  method ReplaceValue<K(!new), V>(ht: HashMap<K, V>, i: nat, p: nat, k: K, v: V)
    requires ht.Valid() && i == ht.BucketIndex(k) && FirstMatchAt(ht.buckets[i], k, ht.cmp, p)
    modifies ht.buckets
    ensures ht.Valid() && ht.buckets[i] == old(ht.buckets[i][p := Info(ht.buckets[i][p].key, v)])
    ensures forall j :: 0 <= j < ht.hmax && j != i ==> ht.buckets[j] == old(ht.buckets[j])
    ensures ht.Lookup(k) == Some(v)
    ensures IsEquality(ht.cmp) ==> forall k' :: k' != k ==> ht.Lookup(k') == old(ht.Lookup(k'))
    ensures old(ht.KeysUnique()) ==> ht.KeysUnique()
  {
    var b := ht.buckets[i];
    var b' := b[p := Info(b[p].key, v)];
    TotalUpdate(ht.buckets[..], i, b');
    ht.buckets[i] := b';
    assert ht.buckets[..] == old(ht.buckets[..])[i := b'];
    FindAt(b', k, ht.cmp, p);
    forall k' | IsEquality(ht.cmp) && k' != k
      ensures ht.Lookup(k') == old(ht.Lookup(k'))
    {
      if ht.BucketIndex(k') == i {
        FindReplace(b, p, v, k', ht.cmp);
      }
    }
  }

  /** The insert branch of ht_put: a new entry at the head of bucket `i`, the size not yet counted. */
  method InsertHead<K(!new), V>(ht: HashMap<K, V>, i: nat, k: K, v: V)
    requires ht.Valid() && i == ht.BucketIndex(k) && ht.Lookup(k) == None
    modifies ht.buckets
    ensures ht.buckets[i] == [Info(k, v)] + old(ht.buckets[i])
    ensures forall j :: 0 <= j < ht.hmax && j != i ==> ht.buckets[j] == old(ht.buckets[j])
    ensures ht.size + 1 == Total(ht.buckets[..])
    ensures forall a, j :: 0 <= a < ht.hmax && 0 <= j < |ht.buckets[a]| ==> ht.hash(ht.buckets[a][j].key) % ht.hmax == a
    ensures ht.cmp(k, k) == 0 ==> Find(ht.buckets[i], k, ht.cmp) == Some(v)
    ensures IsEquality(ht.cmp) ==> forall k' :: k' != k ==>
              Find(ht.buckets[ht.BucketIndex(k')], k', ht.cmp) == old(ht.Lookup(k'))
    ensures IsEquality(ht.cmp) && old(ht.KeysUnique()) ==> forall a :: 0 <= a < ht.hmax ==> Unique(ht.buckets[a], ht.cmp)
  {
    var b := ht.buckets[i];
    var b' := [Info(k, v)] + b;
    TotalUpdate(ht.buckets[..], i, b');
    ht.buckets[i] := b';
    assert ht.buckets[..] == old(ht.buckets[..])[i := b'];
    FindHead(b, Info(k, v), k, ht.cmp);
    NoneNoMatch(b, k, ht.cmp);
    forall k' | IsEquality(ht.cmp) && k' != k
      ensures Find(ht.buckets[ht.BucketIndex(k')], k', ht.cmp) == old(ht.Lookup(k'))
    {
      FindHead(b, Info(k, v), k', ht.cmp);
    }
    if IsEquality(ht.cmp) && old(ht.KeysUnique()) {
      assert Unique(b', ht.cmp) by {
        forall x, y | 0 <= x < |b'| && 0 <= y < |b'| && x != y
          ensures ht.cmp(b'[x].key, b'[y].key) != 0
        {
          if x == 0 {
            assert b'[y] == b[y - 1];
          } else if y == 0 {
            assert b'[x] == b[x - 1];
          } else {
            assert b'[x] == b[x - 1] && b'[y] == b[y - 1];
          }
        }
      }
    }
  }

  /**
   * ht_remove_entry: nothing for a NULL table or key, or a key that is not
   * present; otherwise the first matching entry leaves its bucket, the
   * other entries keep their order, and the size drops by one.
   */
  method RemoveEntry<K(!new), V>(ht: HashMap?<K, V>, key: Option<K>)
    requires ht != null ==> ht.Valid()
    modifies if ht != null then {ht, ht.buckets} else {}
    ensures ht != null ==> ht.Valid()
    ensures ht != null ==> ht.buckets == old(ht.buckets) && ht.hmax == old(ht.hmax)
    ensures ht != null ==> ht.hash == old(ht.hash) && ht.cmp == old(ht.cmp)
    ensures ht != null && (key.None? || old(ht.Lookup(key.value)).None?) ==>
              ht.size == old(ht.size) && ht.buckets[..] == old(ht.buckets[..])
    ensures ht != null && key.Some? && old(ht.Lookup(key.value)).Some? ==>
              var k := key.value;
              var i := ht.BucketIndex(k);
              var b := old(ht.buckets[i]);
              && ht.size == old(ht.size) - 1
              && (forall j :: 0 <= j < ht.hmax && j != i ==> ht.buckets[j] == old(ht.buckets[j]))
              && exists p :: FirstMatchAt(b, k, ht.cmp, p) && ht.buckets[i] == RemoveAt(b, p)
    ensures ht != null && key.Some? && IsEquality(ht.cmp) ==>
              forall k :: k != key.value ==> ht.Lookup(k) == old(ht.Lookup(k))
    ensures ht != null && key.Some? && old(ht.KeysUnique()) ==> ht.KeysUnique()
    ensures ht != null && key.Some? && IsEquality(ht.cmp) && old(ht.KeysUnique()) ==>
              ht.Lookup(key.value) == None
  {
    if ht == null || key.None? {
      return;
    }
    var has := HasKey(ht, key);
    if has != 1 {
      return;
    }
    RemovePresent(ht, key.value);
  }

  /** ht_remove_entry past its checks: the key is present. */
  method RemovePresent<K(!new), V>(ht: HashMap<K, V>, k: K)
    requires ht.Valid() && ht.Lookup(k).Some?
    modifies ht, ht.buckets
    ensures ht.Valid()
    ensures ht.buckets == old(ht.buckets) && ht.hmax == old(ht.hmax)
    ensures ht.hash == old(ht.hash) && ht.cmp == old(ht.cmp)
    ensures var i := ht.BucketIndex(k);
            var b := old(ht.buckets[i]);
            && ht.size == old(ht.size) - 1
            && (forall j :: 0 <= j < ht.hmax && j != i ==> ht.buckets[j] == old(ht.buckets[j]))
            && exists p :: FirstMatchAt(b, k, ht.cmp, p) && ht.buckets[i] == RemoveAt(b, p)
    ensures IsEquality(ht.cmp) ==> forall k' :: k' != k ==> ht.Lookup(k') == old(ht.Lookup(k'))
    ensures old(ht.KeysUnique()) ==> ht.KeysUnique()
    ensures IsEquality(ht.cmp) && old(ht.KeysUnique()) ==> ht.Lookup(k) == None
  {
    var i := ht.BucketIndex(k);
    ghost var b := ht.buckets[i];
    var nodeNr := SeekFirstMatch(ht.buckets[i], k, ht.cmp);
    RemoveAtBucket(ht, i, nodeNr, k);
    ht.size := ht.size - 1;
    assert FirstMatchAt(b, k, ht.cmp, nodeNr) && ht.buckets[i] == RemoveAt(b, nodeNr);
    forall k' | IsEquality(ht.cmp) && k' != k
      ensures ht.Lookup(k') == old(ht.Lookup(k'))
    {
      assert ht.Lookup(k') == Find(ht.buckets[ht.BucketIndex(k')], k', ht.cmp);
    }
  }

  /** The unlinking step of ht_remove_entry: entry `p` leaves bucket `i`, the size not yet counted. */
  method RemoveAtBucket<K(!new), V>(ht: HashMap<K, V>, i: nat, p: nat, k: K)
    requires ht.Valid() && i == ht.BucketIndex(k) && FirstMatchAt(ht.buckets[i], k, ht.cmp, p)
    modifies ht.buckets
    ensures ht.buckets[i] == RemoveAt(old(ht.buckets[i]), p)
    ensures forall j :: 0 <= j < ht.hmax && j != i ==> ht.buckets[j] == old(ht.buckets[j])
    ensures ht.size == Total(ht.buckets[..]) + 1
    ensures forall a, j :: 0 <= a < ht.hmax && 0 <= j < |ht.buckets[a]| ==> ht.hash(ht.buckets[a][j].key) % ht.hmax == a
    ensures IsEquality(ht.cmp) ==> forall k' :: k' != k ==>
              Find(ht.buckets[ht.BucketIndex(k')], k', ht.cmp) == old(ht.Lookup(k'))
    ensures old(ht.KeysUnique()) ==> forall a :: 0 <= a < ht.hmax ==> Unique(ht.buckets[a], ht.cmp)
    ensures IsEquality(ht.cmp) && old(ht.KeysUnique()) ==> Find(ht.buckets[i], k, ht.cmp) == None
  {
    var b := ht.buckets[i];
    var b' := RemoveAt(b, p);
    assert b' == b[..p] + b[p + 1..];
    TotalUpdate(ht.buckets[..], i, b');
    ht.buckets[i] := b';
    assert ht.buckets[..] == old(ht.buckets[..])[i := b'];
    forall k' | IsEquality(ht.cmp) && k' != k
      ensures Find(ht.buckets[ht.BucketIndex(k')], k', ht.cmp) == old(ht.Lookup(k'))
    {
      if ht.BucketIndex(k') == i {
        FindRemove(b, p, k', ht.cmp);
      }
    }
    if old(ht.KeysUnique()) {
      UniqueRemove(b, p, ht.cmp);
    }
    if IsEquality(ht.cmp) && old(ht.KeysUnique()) {
      assert Unique(b, ht.cmp);
      assert NoMatchBefore(b', k, ht.cmp, |b'|) by {
        forall j | 0 <= j < |b'|
          ensures ht.cmp(b'[j].key, k) != 0
        {
          var x := if j < p then j else j + 1;
          assert b'[j] == b[x] && x != p;
        }
      }
      FindNone(b', k, ht.cmp);
    }
  }

  /** ht_get_size: the number of entries, or 0 for a NULL table. */
  function GetSize<K(!new), V>(ht: HashMap?<K, V>): (r: nat)
    reads ht, if ht != null then {ht.buckets} else {}
    requires ht != null ==> ht.Valid()
    ensures ht == null ==> r == 0
    ensures ht != null ==> r == Total(ht.buckets[..])
  {
    if ht == null then 0 else ht.size
  }

  /** ht_get_hmax: the number of buckets, or 0 for a NULL table. */
  function GetHmax<K(!new), V>(ht: HashMap?<K, V>): (r: nat)
    reads ht, if ht != null then {ht.buckets} else {}
    requires ht != null ==> ht.Valid()
    ensures ht == null ==> r == 0
    ensures ht != null ==> r == ht.buckets.Length && r > 0
  {
    if ht == null then 0 else ht.hmax
  }
}
