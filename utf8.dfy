/** The length in bytes of a string's UTF-8 encoding, which is what Rust's `str::len` returns. */
module Utf8 {

  /** Number of bytes UTF-8 uses for one Unicode scalar value. */
  function Width(c: char): (w: nat)
    ensures 1 <= w <= 4
    ensures w == 1 <==> (c as int) < 0x80
  {
    if (c as int) < 0x80 then 1
    else if (c as int) < 0x800 then 2
    else if (c as int) < 0x1_0000 then 3
    else 4
  }

  /** Byte length of the UTF-8 encoding of `s`. */
  function Len(s: string): nat
  {
    if s == [] then 0 else Width(s[0]) + Len(s[1..])
  }

  /** The byte length of a concatenation is the sum of the byte lengths. */
  lemma {:induction false} LenAppend(a: string, b: string)
    ensures Len(a + b) == Len(a) + Len(b)
  {
    if a != [] {
      assert (a + b)[0] == a[0];
      assert (a + b)[1..] == a[1..] + b;
      LenAppend(a[1..], b);
    } else {
      assert a + b == b;
    }
  }

  /** Every character takes between one and four bytes. */
  lemma {:induction false} LenBounds(s: string)
    ensures |s| <= Len(s) <= 4 * |s|
  {
    if s != [] {
      LenBounds(s[1..]);
    }
  }

  /** The byte length equals the character count exactly when every character is ASCII. */
  lemma {:induction false} LenIsCountIffAscii(s: string)
    ensures Len(s) == |s| <==> forall i :: 0 <= i < |s| ==> (s[i] as int) < 0x80
  {
    if s != [] {
      LenIsCountIffAscii(s[1..]);
      LenBounds(s[1..]);
      assert forall i :: 1 <= i < |s| ==> s[i] == s[1..][i - 1];
    }
  }
}
