/**
 * Rust strings as the model sees them: a `str` is a sequence of Unicode scalar
 * values (`seq<char>`), stored as UTF-8. `str::len` and every highlight range
 * are measured in bytes, so the byte offset of character `i` is the sum of the
 * UTF-8 widths of the characters before it.
 */
module Utf8 {
  newtype byte = x: int | 0 <= x < 256

  /** Number of bytes UTF-8 spends on one scalar value. */
  function Width(c: char): (w: nat)
    ensures 1 <= w <= 4
    ensures w == 1 <==> c as int < 0x80
  {
    if c as int < 0x80 then 1
    else if c as int < 0x800 then 2
    else if c as int < 0x10000 then 3
    else 4
  }

  /** `str::len`: the length in bytes of the UTF-8 encoding. */
  function ByteLen(s: seq<char>): (n: nat)
    ensures |s| <= n <= 4 * |s|
  {
    if s == [] then 0 else ByteLen(s[..|s| - 1]) + Width(s[|s| - 1])
  }

  /** Byte offset at which character `i` starts (`char_indices`), or the length for `i == |s|`. */
  function ByteOffset(s: seq<char>, i: nat): (n: nat)
    requires i <= |s|
    ensures i <= n <= ByteLen(s)
  {
    assert s == s[..i] + s[i..];
    ByteLenAppend(s[..i], s[i..]);
    ByteLen(s[..i])
  }

  /** The UTF-8 encoding of one scalar value. */
  function EncodeChar(c: char): (bs: seq<byte>)
    ensures |bs| == Width(c)
    ensures !(0x80 <= bs[0] as int < 0xC0)
  {
    var n := c as int;
    if n < 0x80 then [n as byte]
    else if n < 0x800 then [(0xC0 + n / 64) as byte, (0x80 + n % 64) as byte]
    else if n < 0x10000 then
      [(0xE0 + n / 4096) as byte, (0x80 + (n / 64) % 64) as byte, (0x80 + n % 64) as byte]
    else
      [(0xF0 + n / 262144) as byte, (0x80 + (n / 4096) % 64) as byte,
       (0x80 + (n / 64) % 64) as byte, (0x80 + n % 64) as byte]
  }

  /** The UTF-8 encoding of a string: the bytes a Rust `str` holds. */
  function Encode(s: seq<char>): (bs: seq<byte>)
    ensures |bs| == ByteLen(s)
  {
    EncodeLength(s);
    EncodeWith(EncodeChar, s)
  }

  lemma {:induction false} EncodeLength(s: seq<char>)
    ensures |EncodeWith(EncodeChar, s)| == ByteLen(s)
  {
    if s != [] {
      EncodeLength(s[..|s| - 1]);
    }
  }

  /** Concatenates the per-character encodings `enc` gives. */
  function EncodeWith(enc: char -> seq<byte>, s: seq<char>): (bs: seq<byte>)
  {
    if s == [] then [] else EncodeWith(enc, s[..|s| - 1]) + enc(s[|s| - 1])
  }

  /** Rust's `str::is_char_boundary`: the start, the end, or a byte that is not a continuation byte. */
  predicate IsCharBoundary(bs: seq<byte>, k: nat)
  {
    k == 0 || k == |bs| || (k < |bs| && !(0x80 <= bs[k] as int < 0xC0))
  }

  lemma {:induction false} ByteLenAppend(a: seq<char>, b: seq<char>)
    ensures ByteLen(a + b) == ByteLen(a) + ByteLen(b)
    decreases |b|
  {
    if b == [] {
      assert a + b == a;
    } else {
      var b' := b[..|b| - 1];
      assert (a + b)[..|a + b| - 1] == a + b';
      assert (a + b)[|a + b| - 1] == b[|b| - 1];
      ByteLenAppend(a, b');
    }
  }

  lemma {:induction false} EncodeWithAppend(enc: char -> seq<byte>, a: seq<char>, b: seq<char>)
    ensures EncodeWith(enc, a + b) == EncodeWith(enc, a) + EncodeWith(enc, b)
    decreases |b|
  {
    if b == [] {
      assert a + b == a;
    } else {
      var b' := b[..|b| - 1];
      assert (a + b)[..|a + b| - 1] == a + b';
      assert (a + b)[|a + b| - 1] == b[|b| - 1];
      EncodeWithAppend(enc, a, b');
      assert EncodeWith(enc, a + b) == EncodeWith(enc, a + b') + enc(b[|b| - 1]);
    }
  }

  lemma EncodeAppend(a: seq<char>, b: seq<char>)
    ensures Encode(a + b) == Encode(a) + Encode(b)
    ensures ByteLen(a + b) == ByteLen(a) + ByteLen(b)
  {
    ByteLenAppend(a, b);
    EncodeWithAppend(EncodeChar, a, b);
  }

  /** Character offsets grow strictly: every character takes at least one byte. */
  lemma {:induction false} ByteOffsetStrictlyMonotone(s: seq<char>, i: nat, j: nat)
    requires i < j <= |s|
    ensures ByteOffset(s, i) + (j - i) <= ByteOffset(s, j)
    ensures ByteOffset(s, i + 1) == ByteOffset(s, i) + Width(s[i])
  {
    assert s[..j] == s[..i] + s[i..j];
    EncodeAppend(s[..i], s[i..j]);
    assert s[..i + 1][..i] == s[..i];
  }

  lemma ByteOffsetAtEnd(s: seq<char>)
    ensures ByteOffset(s, |s|) == ByteLen(s)
  {
    assert s[..|s|] == s;
  }

  /** Slicing the bytes between two character offsets gives the encoding of the characters between them. */
  lemma {:induction false} EncodeSlice(s: seq<char>, i: nat, j: nat)
    requires i <= j <= |s|
    ensures ByteOffset(s, i) <= ByteOffset(s, j)
    ensures Encode(s)[ByteOffset(s, i)..ByteOffset(s, j)] == Encode(s[i..j])
  {
    assert s == s[..i] + s[i..j] + s[j..];
    assert s[..j] == s[..i] + s[i..j];
    ByteLenAppend(s[..i], s[i..j]);
    EncodeAppend(s[..i], s[i..j]);
    EncodeAppend(s[..i] + s[i..j], s[j..]);
  }

  /** Every character offset is a char boundary of the encoded string. */
  lemma {:induction false} ByteOffsetIsCharBoundary(s: seq<char>, i: nat)
    requires i <= |s|
    ensures IsCharBoundary(Encode(s), ByteOffset(s, i))
  {
    ByteOffsetAtEnd(s);
    if i < |s| {
      EncodeSlice(s, i, i + 1);
      ByteOffsetStrictlyMonotone(s, i, i + 1);
      assert s[i..i + 1] == [s[i]];
      assert EncodeWith(EncodeChar, [s[i]]) == EncodeWith(EncodeChar, []) + EncodeChar(s[i]);
      assert Encode(s)[ByteOffset(s, i)] == EncodeChar(s[i])[0];
    }
  }
}
