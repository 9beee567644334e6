/**
 * UTF-8, the encoding Node uses for `Buffer.from(string)` and for the string
 * key and message handed to an HMAC. A `char` here is a Unicode scalar value.
 */
module Utf8 {

  /** An octet. */
  type byte = b: int | 0 <= b < 256

  /** The UTF-8 encoding of one scalar value: one to four bytes. */
  function EncodeChar(c: char): (bs: seq<byte>)
    ensures 1 <= |bs| <= 4
    ensures |bs| == 1 <==> c as int < 0x80
    ensures |bs| == LengthFromLead(bs[0])
    ensures forall i :: 1 <= i < |bs| ==> 0x80 <= bs[i] < 0xC0
  {
    var n := c as int;
    if n < 0x80 then [n]
    else if n < 0x800 then [0xC0 + n / 64, 0x80 + n % 64]
    else if n < 0x10000 then [0xE0 + n / 4096, 0x80 + (n / 64) % 64, 0x80 + n % 64]
    else [0xF0 + n / 262144, 0x80 + (n / 4096) % 64, 0x80 + (n / 64) % 64, 0x80 + n % 64]
  }

  /** How many bytes a sequence starting with lead byte `b` occupies (0 when `b` cannot lead). */
  function LengthFromLead(b: byte): nat
  {
    if b < 0x80 then 1
    else if 0xC0 <= b < 0xE0 then 2
    else if 0xE0 <= b < 0xF0 then 3
    else if 0xF0 <= b < 0xF8 then 4
    else 0
  }

  /** The scalar value a one- to four-byte sequence spells (the partner of `EncodeChar`). */
  function DecodeChar(bs: seq<byte>): int
    requires 1 <= |bs| <= 4
  {
    var lead: int := bs[0];
    var tail := seq(|bs| - 1, i requires 0 <= i < |bs| - 1 => bs[i + 1] as int - 0x80);
    if |bs| == 1 then lead
    else if |bs| == 2 then (lead - 0xC0) * 64 + tail[0]
    else if |bs| == 3 then ((lead - 0xE0) * 64 + tail[0]) * 64 + tail[1]
    else (((lead - 0xF0) * 64 + tail[0]) * 64 + tail[1]) * 64 + tail[2]
  }

  /** Decoding the bytes of one character gives its scalar value back. */
  lemma DecodeEncodeChar(c: char)
    ensures DecodeChar(EncodeChar(c)) == c as int
  {
    var n := c as int;
    if n >= 0x800 {
      assert n / 64 == (n / 4096) * 64 + (n / 64) % 64;
      if n >= 0x10000 {
        assert n / 4096 == (n / 262144) * 64 + (n / 4096) % 64;
      }
    }
  }

  /**
   * No character's encoding is a proper prefix of another's: whatever follows
   * an encoded character, the character and the rest are determined.
   */
  lemma EncodeCharPrefixFree(x: char, y: char, u: seq<byte>, w: seq<byte>)
    requires EncodeChar(x) + u == EncodeChar(y) + w
    ensures x == y && u == w
  {
    var ex, ey := EncodeChar(x), EncodeChar(y);
    assert (ex + u)[0] == ex[0] && (ey + w)[0] == ey[0];
    assert ex == (ex + u)[..|ex|] == (ey + w)[..|ey|] == ey;
    DecodeEncodeChar(x);
    DecodeEncodeChar(y);
    assert u == (ex + u)[|ex|..] == (ey + w)[|ey|..] == w;
  }

  /** The UTF-8 encoding of a string, character by character. */
  function Encode(s: string): (bs: seq<byte>)
    ensures |s| <= |bs| <= 4 * |s|
  {
    if s == [] then [] else EncodeChar(s[0]) + Encode(s[1..])
  }

  /** Every character is ASCII (below U+0080). */
  predicate IsAscii(s: string)
  {
    forall i :: 0 <= i < |s| ==> s[i] as int < 0x80
  }

  /** An ASCII string encodes to its own character codes, one byte each. */
  lemma {:induction false} EncodeAscii(s: string)
    requires IsAscii(s)
    ensures |Encode(s)| == |s|
    ensures forall i :: 0 <= i < |s| ==> Encode(s)[i] == s[i] as int
  {
    if s != [] {
      EncodeAscii(s[1..]);
    }
  }

  /** Distinct strings have distinct UTF-8 encodings. */
  lemma {:induction false} EncodeInjective(a: string, b: string)
    requires Encode(a) == Encode(b)
    ensures a == b
    decreases |a|
  {
    if a != [] && b != [] {
      EncodeCharPrefixFree(a[0], b[0], Encode(a[1..]), Encode(b[1..]));
      EncodeInjective(a[1..], b[1..]);
      assert a == [a[0]] + a[1..] && b == [b[0]] + b[1..];
    }
  }
}
