/**
 * Byte lengths of strings as Rust measures them.
 *
 * A Rust `&str` is UTF-8, and `str::len` counts bytes, not characters.
 * A Dafny `string` is a sequence of Unicode scalar values, so the byte
 * length is the sum of the UTF-8 widths of its characters.
 */
module Utf8 {

  /** A character that UTF-8 encodes in a single byte. */
  predicate IsAscii(c: char) {
    c as int < 0x80
  }

  predicate AllAscii(s: string) {
    forall i | 0 <= i < |s| :: IsAscii(s[i])
  }

  /** Number of bytes UTF-8 uses for `c`: one byte exactly for ASCII. */
  function CharWidth(c: char): (w: nat)
    ensures 1 <= w <= 4
    ensures w == 1 <==> IsAscii(c)
  {
    if IsAscii(c) then 1
    else if c as int < 0x800 then 2
    else if c as int < 0x1_0000 then 3
    else 4
  }

  /** The value of Rust's `str::len` for `s`. */
  function ByteLength(s: string): (n: nat)
    ensures |s| <= n <= 4 * |s|
  {
    if s == [] then 0 else CharWidth(s[0]) + ByteLength(s[1..])
  }

  /** On ASCII text, bytes and characters coincide. */
  lemma {:induction false} AsciiByteLength(s: string)
    requires AllAscii(s)
    ensures ByteLength(s) == |s|
  {
    if s != [] {
      assert AllAscii(s[1..]) by {
        forall i | 0 <= i < |s[1..]| ensures IsAscii(s[1..][i]) {
          assert s[1..][i] == s[i + 1];
        }
      }
      AsciiByteLength(s[1..]);
    }
  }

  /** Byte lengths add up under concatenation. */
  lemma {:induction false} ByteLengthAppend(s: string, t: string)
    ensures ByteLength(s + t) == ByteLength(s) + ByteLength(t)
  {
    if s == [] {
      assert s + t == t;
    } else {
      assert (s + t)[0] == s[0] && (s + t)[1..] == s[1..] + t;
      ByteLengthAppend(s[1..], t);
    }
  }

  /** A character outside ASCII adds bytes beyond the character count. */
  lemma {:induction false} NonAsciiByteLength(s: string, i: nat)
    requires i < |s| && !IsAscii(s[i])
    ensures ByteLength(s) > |s|
  {
    if i > 0 {
      NonAsciiByteLength(s[1..], i - 1);
    }
  }
}
