/**
 * The slice of JavaScript semantics the handlers rely on: the values a parsed
 * request can carry, their truthiness, `String(v)`, property lookup on a
 * request body, the regular expression `/^\d{17}$/`, string length in UTF-16
 * code units, and how an integral number is printed.
 */
module Js {
  import opened Wrappers

  /**
   * A JavaScript value as it arrives in a parsed request (query string, JSON
   * body, headers). A number is carried as the text `Number.prototype.toString`
   * prints for it, so that the model never has to round a double.
   */
  datatype Value =
    | Undefined
    | Null
    | Bool(b: bool)
    | Num(repr: string)
    | Str(s: string)
    | Arr(items: seq<Value>)
    | Obj(fields: map<string, Value>)

  /** JavaScript truthiness: `undefined`, `null`, `false`, `0`, `NaN` and `""` are falsy. */
  predicate Truthy(v: Value)
  {
    match v
    case Undefined => false
    case Null => false
    case Bool(b) => b
    case Num(r) => r != "0" && r != "NaN"
    case Str(s) => s != ""
    case Arr(_) => true
    case Obj(_) => true
  }

  /**
   * `String(v)` for a value of a parsed request, `None` when it throws. A plain
   * object prints as `[object Object]` unless it has an own `toString` key: a
   * parsed value there is never callable, `valueOf` gives the object back, and
   * the conversion ends in a `TypeError`. An array prints as its elements
   * joined by commas, and throws when one of them does.
   */
  function ToString(v: Value): Option<string>
    decreases v, 1
  {
    match v
    case Undefined => Some("undefined")
    case Null => Some("null")
    case Bool(b) => Some(if b then "true" else "false")
    case Num(r) => Some(r)
    case Str(s) => Some(s)
    case Arr(items) => JoinItems(v, items)
    case Obj(fields) => if "toString" in fields then None else Some("[object Object]")
  }

  /** `Array.prototype.join(",")` over the elements of `parent`; `null` and `undefined` print as "". */
  function JoinItems(ghost parent: Value, items: seq<Value>): Option<string>
    requires forall i :: 0 <= i < |items| ==> items[i] < parent
    decreases parent, 0, |items|
  {
    if |items| == 0 then Some("")
    else
      var head := if items[0].Undefined? || items[0].Null? then Some("") else ToString(items[0]);
      if head.None? then None
      else if |items| == 1 then head
      else match JoinItems(parent, items[1..])
        case None => None
        case Some(tail) => Some(head.value + "," + tail)
  }

  /**
   * `String(v)` completes: `v` holds no object with an own `toString` key,
   * either itself or as an element of an array at any depth.
   */
  predicate Printable(v: Value)
  {
    match v
    case Obj(fields) => "toString" !in fields
    case Arr(items) => forall i :: 0 <= i < |items| ==> Printable(items[i])
    case _ => true
  }

  /** `String(v)` throws exactly when `v` is not printable. */
  lemma {:induction false} ToStringDefined(v: Value)
    ensures ToString(v).Some? <==> Printable(v)
    decreases v, 1
  {
    match v
    case Arr(items) => JoinItemsDefined(v, items);
    case _ =>
  }

  /** Joining the elements of an array throws exactly when one of them is not printable. */
  lemma {:induction false} JoinItemsDefined(parent: Value, items: seq<Value>)
    requires forall i :: 0 <= i < |items| ==> items[i] < parent
    ensures JoinItems(parent, items).Some? <==> forall i :: 0 <= i < |items| ==> Printable(items[i])
    decreases parent, 0, |items|
  {
    if |items| > 0 {
      ToStringDefined(items[0]);
      JoinItemsDefined(parent, items[1..]);
      assert forall i :: 1 <= i < |items| ==> items[i] == items[1..][i - 1];
    }
  }

  /** `String(v || '')`: the string form of a truthy value, and "" for a falsy one. */
  function StringOrEmpty(v: Value): Option<string>
  {
    if Truthy(v) then ToString(v) else Some("")
  }

  /**
   * `(v || {}).name`: a property of a plain object, `undefined` when the object
   * lacks it or when `v` is not a plain object (a destructured primitive or
   * array has no such own property; inherited prototype members are not modelled).
   */
  function Field(v: Value, name: string): Value
  {
    match v
    case Obj(fields) => if name in fields then fields[name] else Undefined
    case _ => Undefined
  }

  /** The `\d` character class: an ASCII decimal digit. */
  predicate IsDigit(c: char)
  {
    '0' <= c <= '9'
  }

  /** Every character is an ASCII decimal digit. */
  predicate AllDigits(s: string)
  {
    forall i :: 0 <= i < |s| ==> IsDigit(s[i])
  }

  /** `/^\d{17}$/.test(s)`: exactly seventeen ASCII digits and nothing else. */
  predicate Matches17Digits(s: string)
  {
    |s| == 17 && AllDigits(s)
  }

  /** `s.length`: the number of UTF-16 code units, two for a character above U+FFFF. */
  function Utf16Length(s: string): (n: nat)
    ensures |s| <= n <= 2 * |s|
  {
    if s == [] then 0
    else (if s[0] as int > 0xFFFF then 2 else 1) + Utf16Length(s[1..])
  }

  /** The digit character for `d`. */
  function DigitChar(d: int): (c: char)
    requires 0 <= d < 10
    ensures IsDigit(c)
  {
    ('0' as int + d) as char
  }

  /** The value of a digit character. */
  function DigitValue(c: char): (d: int)
    requires IsDigit(c)
    ensures 0 <= d < 10 && DigitChar(d) == c
  {
    c as int - '0' as int
  }

  /** Decimal digits of `n`, most significant first, without leading zeros. */
  function NatText(n: nat): (s: string)
    ensures 1 <= |s| && AllDigits(s)
    ensures |s| > 1 ==> s[0] != '0'
    decreases n
  {
    if n < 10 then [DigitChar(n)] else NatText(n / 10) + [DigitChar(n % 10)]
  }

  /**
   * What `Number.prototype.toString` and `JSON.stringify` print for an integral
   * number of magnitude below 10^21: its decimal digits, with a leading `-` when
   * it is negative.
   */
  function IntegerText(n: int): string
  {
    if n < 0 then "-" + NatText(-n) else NatText(n)
  }

  /** Reads back a string of decimal digits. */
  function ParseDigits(s: string): nat
    requires AllDigits(s)
  {
    if s == [] then 0 else 10 * ParseDigits(s[..|s| - 1]) + DigitValue(s[|s| - 1])
  }

  /** Reads back an optionally negative decimal integer; `None` when `s` is not one. */
  function ParseInteger(s: string): Option<int>
  {
    if |s| > 0 && s[0] == '-' then
      (if 1 < |s| && AllDigits(s[1..]) then Some(0 - ParseDigits(s[1..]) as int) else None)
    else if 0 < |s| && AllDigits(s) then Some(ParseDigits(s))
    else None
  }

  /** Reading the digits of `n` back gives `n`. */
  lemma {:induction false} NatTextRoundTrip(n: nat)
    ensures ParseDigits(NatText(n)) == n
    decreases n
  {
    if n >= 10 {
      var s := NatText(n);
      assert s[..|s| - 1] == NatText(n / 10);
      NatTextRoundTrip(n / 10);
    }
  }

  /** `IntegerText` loses nothing: reading it back gives the number printed. */
  lemma IntegerTextRoundTrip(n: int)
    ensures ParseInteger(IntegerText(n)) == Some(n)
  {
    var digits := NatText(if n < 0 then -n else n);
    NatTextRoundTrip(if n < 0 then -n else n);
    if n < 0 {
      var s := "-" + digits;
      assert s[1..] == digits;
      assert ParseInteger(s) == Some(0 - ParseDigits(digits) as int);
    } else {
      assert digits[0] != '-';
      assert ParseInteger(digits) == Some(ParseDigits(digits));
    }
  }

  /** Distinct integers print differently. */
  lemma IntegerTextInjective(a: int, b: int)
    requires IntegerText(a) == IntegerText(b)
    ensures a == b
  {
    IntegerTextRoundTrip(a);
    IntegerTextRoundTrip(b);
  }

  /**
   * The range of an ECMAScript time value (`Date.now()`): at most 8.64e15
   * milliseconds either side of the epoch, well inside the safe integers, so
   * such a number and anything a handler derives from it print as plain digits.
   */
  predicate IsTimeValue(t: int)
  {
    -8_640_000_000_000_000 <= t <= 8_640_000_000_000_000
  }

  /** The parts of an incoming request that the handlers read. */
  datatype Request = Request(
    verb: string,                  // `req.method`
    headers: map<string, string>,  // lower-cased header names, as Node delivers them
    query: Value,                  // `req.query`
    body: Value)                   // `req.body` after JSON parsing

  /** `req.headers[name]`, `None` when the header is absent. */
  function Header(req: Request, name: string): Option<string>
  {
    if name in req.headers then Some(req.headers[name]) else None
  }

  /** `process.env`: the deployment's environment variables. */
  type Env = map<string, string>

  /** `process.env[name]`, `None` when the variable is unset. */
  function EnvVar(env: Env, name: string): Option<string>
  {
    if name in env then Some(env[name]) else None
  }
}
