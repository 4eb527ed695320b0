/**
 * One hashtable bucket of Hashtable/pb2.c and Hashtable/party_live.c: a
 * list of `info` records searched from the head with the table's
 * comparison, a key matching where the comparison returns 0.
 */
module Buckets {
  import opened Options

  /**
   * `hash % hmax`, the bucket of a hash in both tables: always a valid
   * bucket, the hash itself when it is already below `hmax`.
   */
  function Slot(h: nat, hmax: nat): (r: nat)
    requires hmax > 0
    ensures r < hmax
    ensures h < hmax ==> r == h
  {
    h % hmax
  }

  /** `struct info`: one key and its value. */
  datatype Info<K, V> = Info(key: K, value: V)

  /** No entry before position `i` matches `key`. */
  ghost predicate NoMatchBefore<K, V>(b: seq<Info<K, V>>, key: K, cmp: (K, K) -> int, i: int)
    requires 0 <= i <= |b|
  {
    forall j :: 0 <= j < i ==> cmp(b[j].key, key) != 0
  }

  /** The value of the first entry matching `key`, as a search from the head meets it. */
  ghost function Find<K, V>(b: seq<Info<K, V>>, key: K, cmp: (K, K) -> int): Option<V>
  {
    if b == [] then None
    else if cmp(b[0].key, key) == 0 then Some(b[0].value)
    else Find(b[1..], key, cmp)
  }

  /** The values of every entry matching `key`, in bucket order. */
  ghost function Matching<K, V>(b: seq<Info<K, V>>, key: K, cmp: (K, K) -> int): seq<V>
  {
    if b == [] then []
    else (if cmp(b[0].key, key) == 0 then [b[0].value] else []) + Matching(b[1..], key, cmp)
  }

  /** No two entries of the bucket match each other. */
  ghost predicate Unique<K, V>(b: seq<Info<K, V>>, cmp: (K, K) -> int)
  {
    forall i, j :: 0 <= i < |b| && 0 <= j < |b| && i != j ==> cmp(b[i].key, b[j].key) != 0
  }

  /** A search that has passed `i` non-matching entries and meets a match returns its value. */
  lemma {:induction false} FindAt<K, V>(b: seq<Info<K, V>>, key: K, cmp: (K, K) -> int, i: nat)
    requires i < |b| && NoMatchBefore(b, key, cmp, i) && cmp(b[i].key, key) == 0
    ensures Find(b, key, cmp) == Some(b[i].value)
  {
    if i > 0 {
      FindAt(b[1..], key, cmp, i - 1);
    }
  }

  /** A search that meets no match returns nothing. */
  lemma {:induction false} FindNone<K, V>(b: seq<Info<K, V>>, key: K, cmp: (K, K) -> int)
    requires NoMatchBefore(b, key, cmp, |b|)
    ensures Find(b, key, cmp) == None
  {
    if b != [] {
      FindNone(b[1..], key, cmp);
    }
  }

  /** Entry `p` is the first one matching `key`. */
  ghost predicate FirstMatchAt<K, V>(b: seq<Info<K, V>>, key: K, cmp: (K, K) -> int, p: int)
  {
    0 <= p < |b| && NoMatchBefore(b, key, cmp, p) && cmp(b[p].key, key) == 0
  }

  /** A search that returns nothing met no match. */
  lemma {:induction false} NoneNoMatch<K, V>(b: seq<Info<K, V>>, key: K, cmp: (K, K) -> int)
    requires Find(b, key, cmp) == None
    ensures NoMatchBefore(b, key, cmp, |b|)
  {
    if b != [] {
      NoneNoMatch(b[1..], key, cmp);
      assert forall j :: 1 <= j < |b| ==> b[j] == b[1..][j - 1];
    }
  }

  /** The first match is the head of all the matches. */
  lemma {:induction false} FindFirstMatching<K, V>(b: seq<Info<K, V>>, key: K, cmp: (K, K) -> int)
    ensures Find(b, key, cmp) == if Matching(b, key, cmp) == [] then None else Some(Matching(b, key, cmp)[0])
  {
    if b != [] {
      FindFirstMatching(b[1..], key, cmp);
    }
  }

  /** An entry appended at the tail adds its value last among the matches. */
  lemma {:induction false} MatchingAppend<K, V>(b: seq<Info<K, V>>, e: Info<K, V>, key: K, cmp: (K, K) -> int)
    ensures Matching(b + [e], key, cmp) == Matching(b, key, cmp) + (if cmp(e.key, key) == 0 then [e.value] else [])
  {
    if b == [] {
      assert [e][1..] == [];
    } else {
      var h := if cmp(b[0].key, key) == 0 then [b[0].value] else [];
      var t := if cmp(e.key, key) == 0 then [e.value] else [];
      assert (b + [e])[0] == b[0] && (b + [e])[1..] == b[1..] + [e];
      assert Matching(b + [e], key, cmp) == h + Matching(b[1..] + [e], key, cmp);
      MatchingAppend(b[1..], e, key, cmp);
      assert h + (Matching(b[1..], key, cmp) + t) == (h + Matching(b[1..], key, cmp)) + t;
    }
  }

  /** Taking an entry out of a bucket keeps its keys apart. */
  lemma UniqueRemove<K, V>(b: seq<Info<K, V>>, p: nat, cmp: (K, K) -> int)
    requires p < |b| && Unique(b, cmp)
    ensures Unique(b[..p] + b[p + 1..], cmp)
  {
    var b' := b[..p] + b[p + 1..];
    forall i, j | 0 <= i < |b'| && 0 <= j < |b'| && i != j
      ensures cmp(b'[i].key, b'[j].key) != 0
    {
      var x := if i < p then i else i + 1;
      var y := if j < p then j else j + 1;
      assert b'[i] == b[x] && b'[j] == b[y] && x != y;
    }
  }

  /** An entry put at the head is met first. */
  lemma FindHead<K, V>(b: seq<Info<K, V>>, e: Info<K, V>, key: K, cmp: (K, K) -> int)
    ensures Find([e] + b, key, cmp) == if cmp(e.key, key) == 0 then Some(e.value) else Find(b, key, cmp)
  {
    assert ([e] + b)[1..] == b;
  }

  /** Changing the value of entry `p` leaves every search for a key it does not match alone. */
  lemma {:induction false} FindReplace<K, V>(b: seq<Info<K, V>>, p: nat, v: V, key: K, cmp: (K, K) -> int)
    requires p < |b| && cmp(b[p].key, key) != 0
    ensures Find(b[p := Info(b[p].key, v)], key, cmp) == Find(b, key, cmp)
  {
    var b' := b[p := Info(b[p].key, v)];
    if p > 0 {
      assert b'[1..] == b[1..][p - 1 := Info(b[p].key, v)];
      FindReplace(b[1..], p - 1, v, key, cmp);
    } else {
      assert b'[1..] == b[1..];
    }
  }

  /** Taking out entry `p` leaves every search for a key it does not match alone. */
  lemma {:induction false} FindRemove<K, V>(b: seq<Info<K, V>>, p: nat, key: K, cmp: (K, K) -> int)
    requires p < |b| && cmp(b[p].key, key) != 0
    ensures Find(b[..p] + b[p + 1..], key, cmp) == Find(b, key, cmp)
  {
    if p > 0 {
      assert (b[..p] + b[p + 1..])[1..] == b[1..][..p - 1] + b[1..][p..];
      FindRemove(b[1..], p - 1, key, cmp);
    } else {
      assert b[..p] + b[p + 1..] == b[1..];
    }
  }

  /** The number of entries over all buckets. */
  ghost function Total<K, V>(bs: seq<seq<Info<K, V>>>): nat
  {
    if bs == [] then 0 else Total(bs[..|bs| - 1]) + |bs[|bs| - 1]|
  }

  /** Replacing one bucket changes the count by the change in its length. */
  lemma {:induction false} TotalUpdate<K, V>(bs: seq<seq<Info<K, V>>>, i: nat, b: seq<Info<K, V>>)
    requires i < |bs|
    ensures Total(bs[i := b]) + |bs[i]| == Total(bs) + |b|
  {
    var n := |bs| - 1;
    if i < n {
      assert bs[i := b][..n] == bs[..n][i := b];
      TotalUpdate(bs[..n], i, b);
    } else {
      assert bs[i := b][..n] == bs[..n];
    }
  }

  /** Empty buckets hold no entries. */
  lemma {:induction false} TotalEmpty<K, V>(bs: seq<seq<Info<K, V>>>)
    requires forall i :: 0 <= i < |bs| ==> bs[i] == []
    ensures Total(bs) == 0
  {
    if bs != [] {
      TotalEmpty(bs[..|bs| - 1]);
    }
  }
}
