/** Bytes, the unit in which the dictionary stores keys and values and
    in which queries are matched. */
module Bytes {

  /** Rust's `u8`. */
  newtype u8 = x: int | 0 <= x < 256

  /** The ASCII bytes that the load format gives a meaning to. */
  const NL: u8 := 10
  const CR: u8 := 13
  const Space: u8 := 32

  /** The index of the first occurrence of `x` in `s`, or `|s|` when `x`
      does not occur: the search behind `splitn` and `lines`. */
  function IndexOf(s: seq<u8>, x: u8): (i: nat)
    ensures i <= |s|
    ensures x !in s[..i]
    ensures i < |s| ==> s[i] == x
    ensures i == |s| <==> x !in s
  {
    if s == [] then 0
    else if s[0] == x then 0
    else
      var j := IndexOf(s[1..], x);
      assert s[1..][..j] == s[1..j + 1];
      assert s[..j + 1] == [s[0]] + s[1..j + 1];
      1 + j
  }

  /** The first occurrence is the only index that has the byte and no
      earlier copy of it. */
  lemma IndexOfUnique(s: seq<u8>, x: u8, j: nat)
    requires j <= |s|
    requires x !in s[..j]
    requires j < |s| ==> s[j] == x
    ensures IndexOf(s, x) == j
  {
  }
}
