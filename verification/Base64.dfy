/**
 * Base64 as Node's `Buffer.prototype.toString` produces it: `'base64'` is the
 * encoding of RFC 4648 section 4 with `=` padding, `'base64url'` the
 * URL- and filename-safe alphabet of RFC 4648 section 5 with the padding omitted (as
 * RFC 4648 section 3.2 permits). Both spell the same 6-bit groups; only the alphabet
 * and the padding differ. A decoder for the unpadded form is the partner that
 * shows the encoding loses nothing.
 */
module Base64 {
  import opened Wrappers
  import Utf8

  type byte = Utf8.byte

  /** A 6-bit group, the value one output character spells. */
  type sextet = v: int | 0 <= v < 64

  /** The character for `v` in the alphabet of RFC 4648 section 4 (Table 1). */
  function StdChar(v: sextet): char
  {
    if v < 26 then ('A' as int + v) as char
    else if v < 52 then ('a' as int + (v - 26)) as char
    else if v < 62 then ('0' as int + (v - 52)) as char
    else if v == 62 then '+'
    else '/'
  }

  /** The character for `v` in the alphabet of RFC 4648 section 5 (Table 2). */
  function UrlChar(v: sextet): (c: char)
    ensures c != '+' && c != '/' && c != '=' && c != '.'
  {
    if v < 62 then StdChar(v) else if v == 62 then '-' else '_'
  }

  /** The value a character of the RFC 4648 section 5 alphabet spells, `None` for any other character. */
  function UrlValue(c: char): (r: Option<sextet>)
    ensures r.Some? ==> UrlChar(r.value) == c
  {
    if 'A' <= c <= 'Z' then Some(c as int - 'A' as int)
    else if 'a' <= c <= 'z' then Some(c as int - 'a' as int + 26)
    else if '0' <= c <= '9' then Some(c as int - '0' as int + 52)
    else if c == '-' then Some(62)
    else if c == '_' then Some(63)
    else None
  }

  /** Every character of the RFC 4648 section 5 alphabet is read back as the value it spells. */
  lemma UrlValueOfChar(v: sextet)
    ensures UrlValue(UrlChar(v)) == Some(v)
  {
  }

  /** Three bytes as four sextets, most significant bits first. */
  function Split3(b0: byte, b1: byte, b2: byte): seq<sextet>
  {
    [b0 / 4, (b0 % 4) * 16 + b1 / 16, (b1 % 16) * 4 + b2 / 64, b2 % 64]
  }

  /** A final pair of bytes as three sextets, the last one zero-filled. */
  function Split2(b0: byte, b1: byte): seq<sextet>
  {
    [b0 / 4, (b0 % 4) * 16 + b1 / 16, (b1 % 16) * 4]
  }

  /** A final single byte as two sextets, the last one zero-filled. */
  function Split1(b0: byte): seq<sextet>
  {
    [b0 / 4, (b0 % 4) * 16]
  }

  /** The 6-bit groups of `b`: ⌈4n/3⌉ of them for n bytes. */
  function Sextets(b: seq<byte>): (v: seq<sextet>)
    ensures |v| == (4 * |b| + 2) / 3
    decreases |b|
  {
    if |b| == 0 then []
    else if |b| == 1 then Split1(b[0])
    else if |b| == 2 then Split2(b[0], b[1])
    else Split3(b[0], b[1], b[2]) + Sextets(b[3..])
  }

  /** The characters spelling `v` in the RFC 4648 section 4 alphabet. */
  function StdSpell(v: seq<sextet>): (s: string)
    ensures |s| == |v|
  {
    if v == [] then [] else [StdChar(v[0])] + StdSpell(v[1..])
  }

  /** The characters spelling `v` in the RFC 4648 section 5 alphabet. */
  function UrlSpell(v: seq<sextet>): (s: string)
    ensures |s| == |v|
    ensures forall i :: 0 <= i < |s| ==> s[i] != '+' && s[i] != '/' && s[i] != '=' && s[i] != '.'
  {
    if v == [] then [] else [UrlChar(v[0])] + UrlSpell(v[1..])
  }

  /** The `=` characters that complete the last quantum of n bytes to four characters. */
  function Padding(n: nat): (p: string)
    ensures |p| == (if n % 3 == 0 then 0 else 3 - n % 3)
    ensures forall i :: 0 <= i < |p| ==> p[i] == '='
  {
    if n % 3 == 1 then "==" else if n % 3 == 2 then "=" else ""
  }

  /** `buf.toString('base64')`: RFC 4648 section 4 alphabet, padded to a multiple of four characters. */
  function StdEncode(b: seq<byte>): (s: string)
    ensures |s| % 4 == 0
    ensures |s| == 4 * ((|b| + 2) / 3)
  {
    StdSpell(Sextets(b)) + Padding(|b|)
  }

  /** `buf.toString('base64url')`: RFC 4648 section 5 alphabet, no padding. */
  function UrlEncode(b: seq<byte>): (s: string)
    ensures |s| == (4 * |b| + 2) / 3
    ensures forall i :: 0 <= i < |s| ==> s[i] != '+' && s[i] != '/' && s[i] != '=' && s[i] != '.'
  {
    UrlSpell(Sextets(b))
  }

  /** Reads a string of the RFC 4648 section 5 alphabet back into its sextets. */
  function UrlValues(s: string): Option<seq<sextet>>
  {
    if s == [] then Some([])
    else match UrlValue(s[0])
      case None => None
      case Some(v) =>
        match UrlValues(s[1..])
        case None => None
        case Some(rest) => Some([v] + rest)
  }

  /** Four sextets back into the three bytes they spell. */
  function Merge4(v0: sextet, v1: sextet, v2: sextet, v3: sextet): seq<byte>
  {
    [v0 * 4 + v1 / 16, (v1 % 16) * 16 + v2 / 4, (v2 % 4) * 64 + v3]
  }

  /** Three final sextets back into two bytes; the low bits of the last are fill. */
  function Merge3(v0: sextet, v1: sextet, v2: sextet): seq<byte>
  {
    [v0 * 4 + v1 / 16, (v1 % 16) * 16 + v2 / 4]
  }

  /** Two final sextets back into one byte; the low bits of the last are fill. */
  function Merge2(v0: sextet, v1: sextet): seq<byte>
  {
    [v0 * 4 + v1 / 16]
  }

  /** Regroups sextets into bytes; a lone trailing sextet is not a valid encoding. */
  function Join(v: seq<sextet>): Option<seq<byte>>
    decreases |v|
  {
    if |v| == 0 then Some([])
    else if |v| == 1 then None
    else if |v| == 2 then Some(Merge2(v[0], v[1]))
    else if |v| == 3 then Some(Merge3(v[0], v[1], v[2]))
    else
      match Join(v[4..])
      case None => None
      case Some(rest) => Some(Merge4(v[0], v[1], v[2], v[3]) + rest)
  }

  /** Division by a constant divisor recovers quotient and remainder. */
  lemma DivMod(q: int, r: int, d: int)
    requires d == 4 || d == 16 || d == 64
    requires 0 <= r < d
    ensures (q * d + r) / d == q && (q * d + r) % d == r
  {
  }

  /** Merging four sextets undoes splitting three bytes. */
  lemma MergeSplit3(b0: byte, b1: byte, b2: byte)
    ensures var v := Split3(b0, b1, b2); Merge4(v[0], v[1], v[2], v[3]) == [b0, b1, b2]
  {
    var v := Split3(b0, b1, b2);
    DivMod(b0 % 4, b1 / 16, 16);
    DivMod(b1 % 16, b2 / 64, 4);
    assert v[1] / 16 == b0 % 4 && v[1] % 16 == b1 / 16;
    assert v[2] / 4 == b1 % 16 && v[2] % 4 == b2 / 64;
  }

  /** Merging three sextets undoes splitting a final pair of bytes. */
  lemma MergeSplit2(b0: byte, b1: byte)
    ensures var v := Split2(b0, b1); Merge3(v[0], v[1], v[2]) == [b0, b1]
  {
    var v := Split2(b0, b1);
    DivMod(b0 % 4, b1 / 16, 16);
    DivMod(b1 % 16, 0, 4);
    assert v[1] / 16 == b0 % 4 && v[1] % 16 == b1 / 16;
    assert v[2] / 4 == b1 % 16;
  }

  /** Merging two sextets undoes splitting a final byte. */
  lemma MergeSplit1(b0: byte)
    ensures var v := Split1(b0); Merge2(v[0], v[1]) == [b0]
  {
    DivMod(b0 % 4, 0, 16);
  }

  /** Decodes unpadded base64url text; `None` when it is not such text. */
  function UrlDecode(s: string): Option<seq<byte>>
  {
    match UrlValues(s)
    case None => None
    case Some(v) => Join(v)
  }

  /** Spelling sextets in the RFC 4648 section 5 alphabet and reading them back is the identity. */
  lemma {:induction false} UrlValuesOfSpell(v: seq<sextet>)
    ensures UrlValues(UrlSpell(v)) == Some(v)
  {
    if v != [] {
      var s := UrlSpell(v);
      assert s[0] == UrlChar(v[0]) && s[1..] == UrlSpell(v[1..]);
      UrlValueOfChar(v[0]);
      UrlValuesOfSpell(v[1..]);
      assert [v[0]] + v[1..] == v;
    }
  }

  /** Regrouping the sextets of `b` gives `b` back. */
  lemma {:induction false} JoinSextets(b: seq<byte>)
    ensures Join(Sextets(b)) == Some(b)
    decreases |b|
  {
    if |b| == 1 {
      MergeSplit1(b[0]);
      assert b == [b[0]];
    } else if |b| == 2 {
      MergeSplit2(b[0], b[1]);
      assert b == [b[0], b[1]];
    } else if |b| >= 3 {
      var v := Sextets(b);
      var head := Split3(b[0], b[1], b[2]);
      assert v[4..] == Sextets(b[3..]);
      assert v[..4] == head;
      MergeSplit3(b[0], b[1], b[2]);
      JoinSextets(b[3..]);
      assert [b[0], b[1], b[2]] + b[3..] == b;
    }
  }

  /** Decoding inverts `buf.toString('base64url')`. */
  lemma UrlRoundTrip(b: seq<byte>)
    ensures UrlDecode(UrlEncode(b)) == Some(b)
  {
    UrlValuesOfSpell(Sextets(b));
    JoinSextets(b);
  }

  /** Distinct byte strings have distinct base64url encodings. */
  lemma UrlEncodeInjective(a: seq<byte>, b: seq<byte>)
    requires UrlEncode(a) == UrlEncode(b)
    ensures a == b
  {
    UrlRoundTrip(a);
    UrlRoundTrip(b);
  }
}
