/**
 * The two hash callbacks of the hashtables: hash_function_int of
 * Hashtable/pb2.c (an integer mixer on 32 bits) and hash_function_string
 * of Hashtable/party_live.c (djb2 on an unsigned long, returned as an
 * unsigned int).
 */
module Hashes {
  const Pow32: nat := 0x1_0000_0000
  const Pow64: nat := 0x1_0000_0000_0000_0000

  /** One mixing round: the high half folded into the low half. */
  function Fold(x: bv32): bv32
  {
    (x >> 16) ^ x
  }

  /**
   * hash_function_int: the key read as an unsigned int, then two rounds of
   * fold-and-multiply by 0x45d9f3b and a last fold, with every product
   * wrapping around at 2^32.
   */
  function HashInt(key: int): (r: nat)
    ensures r < Pow32
  {
    var x := (key % Pow32) as bv32;
    var y := Fold(x) * 0x45d9f3b;
    var z := Fold(y) * 0x45d9f3b;
    Fold(z) as nat
  }

  /** The byte `c` stands for: its low eight bits, as `unsigned char` reads it. */
  function Byte(c: char): (r: nat)
    ensures r < 256
    ensures c as int < 256 ==> r == c as int
  {
    (c as int) % 256
  }

  /** djb2 on the first `|s|` bytes: start at 5381, then hash * 33 + c modulo 2^64. */
  function Djb2(s: string): (r: nat)
    ensures r < Pow64
  {
    if s == [] then 5381
    else (Djb2(s[..|s| - 1]) * 33 + Byte(s[|s| - 1])) % Pow64
  }

  /** What hash_function_string returns: djb2 truncated to 32 bits. */
  function StringHash(s: string): (r: nat)
    ensures r < Pow32
    ensures r == Djb2(s) % Pow32
  {
    Djb2(s) % Pow32
  }

  /** hash_function_string: the djb2 loop over the bytes of `s`. */
  method HashString(s: string) returns (r: nat)
    ensures r == StringHash(s)
    ensures r < Pow32
  {
    var hash: nat := 5381;
    for i := 0 to |s|
      invariant hash == Djb2(s[..i])
    {
      assert s[..i + 1][..i] == s[..i];
      hash := (hash * 33 + Byte(s[i])) % Pow64;
    }
    assert s[..|s|] == s;
    r := hash % Pow32;
  }
}
