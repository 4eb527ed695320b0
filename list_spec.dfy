/**
 * The value semantics of the positional list operations shared by every
 * linked-list copy in the repository: an insert index is clamped to the
 * current length (so a large index appends) and a remove index is clamped
 * to the last position.
 */
module ListSpec {

  function Min(a: nat, b: nat): nat
  {
    if a < b then a else b
  }

  /** The list after inserting `x` so that it lands at position min(n, |s|). */
  function InsertAt<T>(s: seq<T>, n: nat, x: T): (r: seq<T>)
    ensures |r| == |s| + 1
    ensures r[Min(n, |s|)] == x
    ensures n == 0 ==> r == [x] + s
    ensures n >= |s| ==> r == s + [x]
    ensures forall i :: 0 <= i < |s| ==> r[if i < Min(n, |s|) then i else i + 1] == s[i]
  {
    s[..Min(n, |s|)] + [x] + s[Min(n, |s|)..]
  }

  /** The position a clamped remove takes out of a non-empty list. */
  function ClampedIndex(len: nat, n: nat): (k: nat)
    requires len > 0
    ensures k < len
    ensures n >= len - 1 ==> k == len - 1
    ensures n < len ==> k == n
  {
    Min(n, len - 1)
  }

  /** The list without the element at position `k`. */
  function RemoveAt<T>(s: seq<T>, k: nat): (r: seq<T>)
    requires k < |s|
    ensures |r| == |s| - 1
    ensures forall i :: 0 <= i < |r| ==> r[i] == s[if i < k then i else i + 1]
    ensures multiset(r) + multiset{s[k]} == multiset(s)
  {
    assert s == s[..k] + [s[k]] + s[k + 1..];
    s[..k] + s[k + 1..]
  }

  /** Removing position 0 drops the head. */
  lemma RemoveHead<T>(s: seq<T>)
    requires |s| > 0
    ensures RemoveAt(s, 0) == s[1..]
  {
    assert s[..0] + s[1..] == s[1..];
  }

  /** Removing at the position an insert used gives the list back. */
  lemma {:induction false} RemoveInsert<T>(s: seq<T>, n: nat, x: T)
    ensures RemoveAt(InsertAt(s, n, x), Min(n, |s|)) == s
  {
    var k := Min(n, |s|);
    var t := InsertAt(s, n, x);
    assert t[..k] == s[..k];
    assert t[k + 1..] == s[k..];
  }

  /**
   * The clamped remove undoes the clamped insert for every index: an index
   * past the end appends, and the same index then removes the new tail.
   */
  lemma {:induction false} ClampedRemoveInsert<T>(s: seq<T>, n: nat, x: T)
    ensures RemoveAt(InsertAt(s, n, x), ClampedIndex(|s| + 1, n)) == s
  {
    RemoveInsert(s, n, x);
  }

  /** The list without the first occurrence of `x`, if there is one. */
  function RemoveFirst<T(==)>(s: seq<T>, x: T): (r: seq<T>)
    ensures x !in s ==> r == s
    ensures x in s ==> |r| == |s| - 1
    ensures multiset(r) == multiset(s) - multiset{x}
  {
    if s == [] then []
    else
      assert s == [s[0]] + s[1..];
      if s[0] == x then s[1..]
      else [s[0]] + RemoveFirst(s[1..], x)
  }

  /** Removing the first occurrence is removing at its position. */
  lemma {:induction false} RemoveFirstAt<T>(s: seq<T>, x: T, p: nat)
    requires p < |s| && s[p] == x && x !in s[..p]
    ensures RemoveFirst(s, x) == RemoveAt(s, p)
  {
    if p == 0 {
      RemoveHead(s);
    } else {
      var t := s[1..];
      assert s[0] != x by {
        assert s[0] == s[..p][0];
      }
      assert t[..p - 1] == s[..p][1..];
      RemoveFirstAt(t, x, p - 1);
      RemoveAtCons(s, p);
    }
  }

  /** Removing past the head keeps the head. */
  lemma RemoveAtCons<T>(s: seq<T>, p: nat)
    requires 0 < p < |s|
    ensures RemoveAt(s, p) == [s[0]] + RemoveAt(s[1..], p - 1)
  {
    var t := s[1..];
    assert RemoveAt(t, p - 1) == t[..p - 1] + t[p..];
    assert t[p..] == s[p + 1..];
    assert s[..p] == [s[0]] + t[..p - 1];
    assert RemoveAt(s, p) == s[..p] + s[p + 1..];
  }

  /** Appending in two steps is appending the two parts at once. */
  lemma AppendAssoc<T>(a: seq<T>, b: seq<T>, c: seq<T>)
    ensures (a + b) + c == a + (b + c)
  {
  }
}
