/**
 * The key callbacks the hashtables of Hashtable/pb2.c and
 * Hashtable/party_live.c are built with: three-way comparisons that the
 * tables test against 0.
 */
module Comparators {

  /** A comparison whose 0 means exactly "the same key". */
  ghost predicate IsEquality<K(!new)>(cmp: (K, K) -> int)
  {
    forall a, b :: cmp(a, b) == 0 <==> a == b
  }

  /** compare_function_ints: -1, 0 or 1 as `a` is below, equal to or above `b`. */
  function CompareInts(a: int, b: int): (r: int)
    ensures -1 <= r <= 1
    ensures r == 0 <==> a == b
    ensures r < 0 <==> a < b
  {
    if a == b then 0 else if a < b then -1 else 1
  }

  lemma CompareIntsIsEquality()
    ensures IsEquality(CompareInts)
  {
  }

  /**
   * compare_function_strings (strcmp): negative, zero or positive as `a`
   * sorts before, equal to or after `b`, character by character, a
   * proper prefix first. C fixes only the sign; this model returns
   * -1 or 1.
   */
  function CompareStrings(a: string, b: string): (r: int)
    ensures -1 <= r <= 1
    ensures r == 0 <==> a == b
  {
    if a == [] && b == [] then 0
    else if a == [] then -1
    else if b == [] then 1
    else if a[0] < b[0] then -1
    else if a[0] > b[0] then 1
    else
      assert a == [a[0]] + a[1..] && b == [b[0]] + b[1..];
      CompareStrings(a[1..], b[1..])
  }

  lemma CompareStringsIsEquality()
    ensures IsEquality(CompareStrings)
  {
  }

  /** Swapping the arguments flips the sign, as strcmp's ordering requires. */
  lemma {:induction false} CompareStringsAntisymmetric(a: string, b: string)
    ensures CompareStrings(b, a) == -CompareStrings(a, b)
  {
    if a != [] && b != [] && a[0] == b[0] {
      CompareStringsAntisymmetric(a[1..], b[1..]);
    }
  }
}
