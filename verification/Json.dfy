/**
 * How `JSON.stringify` writes a string value: between double quotes, with `"`
 * and `\` escaped, the five control characters that have short escapes written
 * as `\b \f \n \r \t`, and every other control character below U+0020 written
 * as `\u00` followed by two lower-case hexadecimal digits. Lone surrogates,
 * which it also escapes, are not `char` values here.
 */
module Json {

  /** A lower-case hexadecimal digit. */
  function HexDigit(d: int): (c: char)
    requires 0 <= d < 16
  {
    if d < 10 then ('0' as int + d) as char else ('a' as int + (d - 10)) as char
  }

  /** A character that `JSON.stringify` copies unchanged. */
  predicate IsPlain(c: char)
  {
    c != '"' && c != '\\' && c as int >= 0x20
  }

  /** The text `JSON.stringify` writes for one character inside a string. */
  function EscapeChar(c: char): (e: string)
    ensures IsPlain(c) <==> e == [c]
    ensures !IsPlain(c) ==> (|e| == 2 || |e| == 6) && e[0] == '\\' && (|e| == 6 <==> e[1] == 'u')
    ensures e[0] != '"'
  {
    var n := c as int;
    if c == '"' then ['\\', '"']
    else if c == '\\' then ['\\', '\\']
    else if n == 8 then ['\\', 'b']
    else if n == 12 then ['\\', 'f']
    else if c == '\n' then ['\\', 'n']
    else if c == '\r' then ['\\', 'r']
    else if c == '\t' then ['\\', 't']
    else if n < 0x20 then ['\\', 'u', '0', '0', HexDigit(n / 16), HexDigit(n % 16)]
    else [c]
  }

  /** The escaped body of a string literal. */
  function Escape(s: string): string
  {
    if s == [] then [] else EscapeChar(s[0]) + Escape(s[1..])
  }

  /** `JSON.stringify(s)` for a string `s`. */
  function Quote(s: string): string
  {
    "\"" + Escape(s) + "\""
  }

  /** A string made only of plain characters is written as it is. */
  lemma {:induction false} QuotePlain(s: string)
    requires forall i :: 0 <= i < |s| ==> IsPlain(s[i])
    ensures Quote(s) == "\"" + s + "\""
  {
    EscapePlain(s);
  }

  lemma {:induction false} EscapePlain(s: string)
    requires forall i :: 0 <= i < |s| ==> IsPlain(s[i])
    ensures Escape(s) == s
  {
    if s != [] {
      EscapePlain(s[1..]);
      assert [s[0]] + s[1..] == s;
    }
  }

  /** Different characters are written differently. */
  lemma EscapeCharInjective(x: char, y: char)
    requires EscapeChar(x) == EscapeChar(y)
    ensures x == y
  {
    var n, m := x as int, y as int;
    if !IsPlain(x) && n < 0x20 && EscapeChar(x)[1] == 'u' {
      assert EscapeChar(x)[4] == HexDigit(n / 16) && EscapeChar(x)[5] == HexDigit(n % 16);
      assert EscapeChar(y)[4] == HexDigit(m / 16) && EscapeChar(y)[5] == HexDigit(m % 16);
      assert n / 16 == m / 16 && n % 16 == m % 16;
    }
  }

  /**
   * No character's escape is a proper prefix of another's: whatever follows an
   * escaped character in a longer text, the character and the rest are
   * determined.
   */
  lemma EscapeCharPrefixFree(x: char, y: char, u: string, w: string)
    requires EscapeChar(x) + u == EscapeChar(y) + w
    ensures x == y && u == w
  {
    var ex, ey := EscapeChar(x), EscapeChar(y);
    assert (ex + u)[0] == ex[0] && (ey + w)[0] == ey[0];
    if !IsPlain(x) && !IsPlain(y) {
      assert (ex + u)[1] == ex[1] && (ey + w)[1] == ey[1];
    }
    assert |ex| == |ey|;
    assert ex == (ex + u)[..|ex|] == (ey + w)[..|ey|] == ey;
    EscapeCharInjective(x, y);
    assert u == (ex + u)[|ex|..] == (ey + w)[|ey|..] == w;
  }

  /** Escaping the first character and then the rest, before a closing quote and more text. */
  lemma EscapeCons(a: string, r: string)
    requires a != []
    ensures Escape(a) + "\"" + r == EscapeChar(a[0]) + (Escape(a[1..]) + "\"" + r)
  {
  }

  /** An escaped string followed by a quote begins with that quote only when it is empty. */
  lemma EscapeThenQuoteHead(a: string, r: string)
    ensures (Escape(a) + "\"" + r)[0] == '"' <==> a == []
  {
    if a != [] {
      EscapeCons(a, r);
    }
  }

  /**
   * An escaped string is closed by the first unescaped `"`: the text before it
   * determines the string, and what follows is left intact.
   */
  lemma {:induction false} EscapeDelimited(a: string, b: string, r1: string, r2: string)
    requires Escape(a) + "\"" + r1 == Escape(b) + "\"" + r2
    ensures a == b && r1 == r2
    decreases |a|
  {
    EscapeThenQuoteHead(a, r1);
    EscapeThenQuoteHead(b, r2);
    if a == [] {
      assert b == [];
      assert Escape(a) == [] && Escape(b) == [];
      assert r1 == (Escape(a) + "\"" + r1)[1..];
      assert r2 == (Escape(b) + "\"" + r2)[1..];
    } else {
      assert b != [];
      EscapeCons(a, r1);
      EscapeCons(b, r2);
      EscapeCharPrefixFree(a[0], b[0], Escape(a[1..]) + "\"" + r1, Escape(b[1..]) + "\"" + r2);
      EscapeDelimited(a[1..], b[1..], r1, r2);
      assert a == [a[0]] + a[1..];
      assert b == [b[0]] + b[1..];
    }
  }

  /** A quoted string followed by more text determines both the string and the text. */
  lemma QuoteDelimited(a: string, b: string, r1: string, r2: string)
    requires Quote(a) + r1 == Quote(b) + r2
    ensures a == b && r1 == r2
  {
    assert Quote(a) + r1 == "\"" + (Escape(a) + "\"" + r1);
    assert Quote(b) + r2 == "\"" + (Escape(b) + "\"" + r2);
    assert Escape(a) + "\"" + r1 == (Quote(a) + r1)[1..];
    EscapeDelimited(a, b, r1, r2);
  }
}
