/**
 Bytes as numbers, and texts inside texts.
 */
module Bytes {

  type Byte = b: nat | b < 256

  const NUL: Byte := 0

  // The bytes of text stand in s from off.
  predicate At(s: seq<Byte>, off: nat, text: seq<Byte>) {
    off + |text| <= |s| && s[off..off+|text|] == text
  }

  lemma AtConcat(s: seq<Byte>, off: nat, a: seq<Byte>, b: seq<Byte>)
    ensures At(s, off, a + b) <==> At(s, off, a) && At(s, off + |a|, b)
  {
    if At(s, off, a + b) {
      assert s[off..off+|a|] == (a + b)[..|a|] && s[off+|a|..off+|a|+|b|] == (a + b)[|a|..];
    }
    if At(s, off, a) && At(s, off + |a|, b) {
      assert s[off..off+|a+b|] == s[off..off+|a|] + s[off+|a|..off+|a|+|b|];
    }
  }

  lemma AtByte(s: seq<Byte>, off: nat, text: seq<Byte>, k: nat)
    requires At(s, off, text) && k < |text|
    ensures off + k < |s| && s[off + k] == text[k]
  {
    assert s[off + k] == s[off..off+|text|][k];
  }

  lemma SliceOfSlice(s: seq<Byte>, a: nat, b: nat, i: nat, j: nat)
    requires a <= b <= |s| && i <= j <= b - a
    ensures s[a..b][i..j] == s[a+i..a+j]
  {
    assert forall k :: i <= k < j ==> s[a..b][k] == s[a+k];
  }
}
