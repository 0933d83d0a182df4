/**
 * JavaScript's `String.prototype.length`: the number of UTF-16 code units.
 * A Dafny `char` is a Unicode scalar value; one outside the Basic
 * Multilingual Plane is a surrogate pair, so it counts twice.
 */
module Utf16 {
  predicate InBmp(c: char) {
    (c as int) < 0x1_0000
  }

  function CodeUnits(c: char): (n: nat)
    ensures n == 1 <==> InBmp(c)
    ensures 1 <= n <= 2
  {
    if InBmp(c) then 1 else 2
  }

  /** The length JavaScript reports for `s`. */
  function Length(s: string): (n: nat)
    ensures |s| <= n <= 2 * |s|
    ensures n == 0 <==> s == []
    decreases |s|
  {
    if s == [] then 0 else CodeUnits(s[0]) + Length(s[1..])
  }

  /** Lengths add up over concatenation. */
  lemma {:induction false} LengthAppend(a: string, b: string)
    ensures Length(a + b) == Length(a) + Length(b)
    decreases |a|
  {
    if a == [] {
      assert a + b == b;
    } else {
      assert (a + b)[0] == a[0];
      assert (a + b)[1..] == a[1..] + b;
      LengthAppend(a[1..], b);
    }
  }

  /** For text in the Basic Multilingual Plane, code units and characters agree. */
  lemma {:induction false} BmpLength(s: string)
    requires forall i :: 0 <= i < |s| ==> InBmp(s[i])
    ensures Length(s) == |s|
    decreases |s|
  {
    if s != [] {
      BmpLength(s[1..]);
    }
  }

  /** A character outside the Basic Multilingual Plane, such as an emoji, has length 2. */
  lemma AstralLength(c: char)
    requires !InBmp(c)
    ensures Length([c]) == 2
  {
    assert [c][1..] == [];
  }
}
