/**
 * The `pair-status` handler: a process-wide table from pairing code to claim
 * record (`CLAIMS`), queried by code. The query code is upper-cased and trimmed;
 * a missing record reads as unclaimed, a record older than five minutes is
 * deleted on the spot and also reads as unclaimed, and any other record is
 * reported as stored. Nothing in this handler ever inserts a record. A code
 * whose `String` conversion throws ends the handler with an uncaught exception.
 */
module PairStatus {
  import opened Wrappers
  import opened Js

  /** `TTL_MS`: five minutes in milliseconds. */
  const TtlMs: int := 5 * 60 * 1000

  /** A claim record, through the fields the handler reads. */
  datatype Claim = Claim(createdAt: int, claimed: Value, user: Value)

  /** The JSON body of an answer. */
  datatype Body =
    | Failed(error: string)              // { error }
    | Unclaimed                          // { claimed: false }
    | Report(claimed: bool, user: Value) // { claimed, user }
    | Threw                              // `String(code)` threw; nothing catches it, so the platform answers 500 itself

  datatype Response = Response(status: int, body: Body)

  /** `toUpperCase` on one character, for the ASCII letters. */
  function UpperChar(c: char): (u: char)
    ensures !('a' <= u <= 'z')
  {
    if 'a' <= c <= 'z' then (c as int - 32) as char else c
  }

  /** `s.toUpperCase()`, for the ASCII letters. */
  function ToUpper(s: string): (r: string)
    ensures |r| == |s|
    ensures forall i :: 0 <= i < |s| ==> r[i] == UpperChar(s[i])
  {
    if s == [] then [] else [UpperChar(s[0])] + ToUpper(s[1..])
  }

  /** The characters `String.prototype.trim` removes: ECMAScript's WhiteSpace and LineTerminator. */
  predicate IsSpace(c: char)
  {
    var n := c as int;
    n == 0x09 || n == 0x0A || n == 0x0B || n == 0x0C || n == 0x0D || n == 0x20
    || n == 0xA0 || n == 0x1680 || (0x2000 <= n <= 0x200A) || n == 0x2028 || n == 0x2029
    || n == 0x202F || n == 0x205F || n == 0x3000 || n == 0xFEFF
  }

  /** Drops the leading run of white space. */
  function TrimStart(s: string): (r: string)
    ensures r == [] || !IsSpace(r[0])
    ensures |r| <= |s| && r == s[|s| - |r|..]
    ensures forall i :: 0 <= i < |s| - |r| ==> IsSpace(s[i])
  {
    if s != [] && IsSpace(s[0]) then TrimStart(s[1..]) else s
  }

  /** Drops the trailing run of white space. */
  function TrimEnd(s: string): (r: string)
    ensures r == [] || !IsSpace(r[|r| - 1])
    ensures r <= s
    ensures forall i :: |r| <= i < |s| ==> IsSpace(s[i])
    decreases |s|
  {
    if s != [] && IsSpace(s[|s| - 1]) then TrimEnd(s[..|s| - 1]) else s
  }

  /** `s.trim()` */
  function Trim(s: string): string
  {
    TrimEnd(TrimStart(s))
  }

  /** `s.toUpperCase().trim()`: the key a query code is looked up under. */
  function NormalizeCode(s: string): string
  {
    Trim(ToUpper(s))
  }

  /** `String(code || '').toUpperCase().trim()`, `None` when `String` throws. */
  function KeyOf(code: Value): Option<string>
  {
    match StringOrEmpty(code)
    case None => None
    case Some(s) => Some(NormalizeCode(s))
  }

  /** A key has no lower-case ASCII letter and neither begins nor ends with white space. */
  predicate IsNormalKey(k: string)
  {
    && NoLower(k)
    && (k == [] || (!IsSpace(k[0]) && !IsSpace(k[|k| - 1])))
  }

  /** `trim` keeps a contiguous slice of its input. */
  lemma TrimSlice(s: string)
    ensures exists i, j :: 0 <= i <= j <= |s| && Trim(s) == s[i..j]
  {
    var t := TrimStart(s);
    var i := |s| - |t|;
    var r := TrimEnd(t);
    assert t == s[i..];
    assert r == t[..|r|];
    assert t[..|r|] == s[i..i + |r|];
    assert 0 <= i <= i + |r| <= |s| && Trim(s) == s[i..i + |r|];
  }

  /** No lower-case ASCII letter occurs in `s`. */
  predicate NoLower(s: string)
  {
    forall i :: 0 <= i < |s| ==> !('a' <= s[i] <= 'z')
  }

  /** Trimming the start keeps a string free of lower-case letters. */
  lemma {:induction false} TrimStartNoLower(s: string)
    requires NoLower(s)
    ensures NoLower(TrimStart(s))
  {
    if s != [] && IsSpace(s[0]) {
      assert NoLower(s[1..]);
      TrimStartNoLower(s[1..]);
    }
  }

  /** Trimming the end keeps a string free of lower-case letters. */
  lemma {:induction false} TrimEndNoLower(s: string)
    requires NoLower(s)
    ensures NoLower(TrimEnd(s))
    decreases |s|
  {
    if s != [] && IsSpace(s[|s| - 1]) {
      assert NoLower(s[..|s| - 1]);
      TrimEndNoLower(s[..|s| - 1]);
    }
  }

  /** Trimming leaves no white space at either end. */
  lemma TrimEnds(u: string)
    ensures Trim(u) == [] || (!IsSpace(Trim(u)[0]) && !IsSpace(Trim(u)[|Trim(u)| - 1]))
  {
    var t := TrimStart(u);
    var k := TrimEnd(t);
    if k != [] {
      assert k[0] == t[0];
    }
  }

  /** Every key a query can look up is in normal form. */
  lemma NormalizeCodeIsNormal(s: string)
    ensures IsNormalKey(NormalizeCode(s))
  {
    var u := ToUpper(s);
    assert NoLower(u);
    TrimStartNoLower(u);
    TrimEndNoLower(TrimStart(u));
    TrimEnds(u);
  }

  /** Upper-casing and trimming a key in normal form changes nothing. */
  lemma NormalKeyFixed(k: string)
    requires IsNormalKey(k)
    ensures Trim(ToUpper(k)) == k
  {
    var u := ToUpper(k);
    assert forall i :: 0 <= i < |k| ==> u[i] == k[i];
    assert u == k;
    assert TrimStart(k) == k;
    assert TrimEnd(k) == k;
  }

  /** Normalising twice is normalising once. */
  lemma NormalizeIdempotent(s: string)
    ensures NormalizeCode(NormalizeCode(s)) == NormalizeCode(s)
  {
    NormalizeCodeIsNormal(s);
    NormalKeyFixed(NormalizeCode(s));
  }

  /** A key in normal form, sent back as the query code, is looked up under itself. */
  lemma NormalKeyFindsItself(k: string)
    requires IsNormalKey(k)
    ensures KeyOf(Str(k)) == Some(k)
  {
    NormalKeyFixed(k);
    KeyOfString(k);
  }

  /** A string code is looked up under its normalised form. */
  lemma KeyOfString(s: string)
    ensures KeyOf(Str(s)) == Some(NormalizeCode(s))
  {
    assert StringOrEmpty(Str(s)) == Some(s);
  }

  /** Two codes that differ only in the case of ASCII letters look up the same key. */
  lemma CaseInsensitive(a: string, b: string)
    requires |a| == |b| && forall i :: 0 <= i < |a| ==> UpperChar(a[i]) == UpperChar(b[i])
    ensures KeyOf(Str(a)) == KeyOf(Str(b))
  {
    assert ToUpper(a) == ToUpper(b);
    KeyOfString(a);
    KeyOfString(b);
  }

  /** An absent, empty or all-white-space code normalises to the empty key. */
  lemma BlankCode(code: Value)
    requires !Truthy(code) || (ToString(code).Some? && forall i :: 0 <= i < |ToString(code).value| ==> IsSpace(ToString(code).value[i]))
    ensures KeyOf(code) == Some("")
  {
    var s := StringOrEmpty(code).value;
    if Truthy(code) {
      assert s == ToString(code).value;
    }
    BlankKey(s);
  }

  /** A string of white space only normalises to the empty key. */
  lemma BlankKey(s: string)
    requires forall i :: 0 <= i < |s| ==> IsSpace(s[i])
    ensures NormalizeCode(s) == ""
  {
    var u := ToUpper(s);
    assert forall i :: 0 <= i < |u| ==> u[i] == s[i];
    assert TrimStart(u) == [];
  }

  /** A record is stale once strictly more than `TTL_MS` has passed since it was made. */
  predicate Expired(c: Claim, now: int)
  {
    now - c.createdAt > TtlMs
  }

  /** What the handler answers for a stored record that has not expired. */
  function Reported(c: Claim): Body
  {
    Report(Truthy(c.claimed), if Truthy(c.user) then c.user else Null)
  }

  /** The answer and the new table for a query of `key` at time `now`. */
  function Query(claims: map<string, Claim>, key: string, now: int): (Response, map<string, Claim>)
  {
    if key == "" then (Response(400, Failed("Missing code")), claims)
    else if key !in claims then (Response(200, Unclaimed), claims)
    else if Expired(claims[key], now) then (Response(200, Unclaimed), claims - {key})
    else (Response(200, Reported(claims[key])), claims)
  }

  /** An empty key is refused with 400 `Missing code` and the table is left as it was. */
  lemma MissingCodeRule(claims: map<string, Claim>, now: int)
    ensures Query(claims, "", now) == (Response(400, Failed("Missing code")), claims)
  {
  }

  /**
   * The outcome of a query of a non-empty key, case by case: unclaimed and
   * unchanged without a record; unclaimed and the record deleted once it is
   * more than five minutes old; otherwise, up to and including exactly five
   * minutes, the stored claim flag and user (or `null`), the record kept.
   */
  lemma QueryOutcome(claims: map<string, Claim>, key: string, now: int)
    requires key != ""
    ensures key !in claims ==> Query(claims, key, now) == (Response(200, Unclaimed), claims)
    ensures key in claims && now - claims[key].createdAt > 300_000
            ==> Query(claims, key, now) == (Response(200, Unclaimed), claims - {key})
    ensures key in claims && now - claims[key].createdAt <= 300_000
            ==> (&& Query(claims, key, now).1 == claims
                 && Query(claims, key, now).0 == Response(200, Report(Truthy(claims[key].claimed),
                                                                      if Truthy(claims[key].user) then claims[key].user else Null)))
  {
  }

  /**
   * A query removes at most the queried key: every other record stays as it
   * was, the queried one is either kept unchanged or gone, and nothing is
   * ever added.
   */
  lemma QueryFrame(claims: map<string, Claim>, key: string, now: int)
    ensures var after := Query(claims, key, now).1;
            && after.Keys <= claims.Keys
            && claims.Keys - after.Keys <= {key}
            && forall k :: k in after ==> after[k] == claims[k]
  {
  }

  /**
   * Asking again for the same key at the same time gives the same answer and
   * leaves the table as the first query left it.
   */
  lemma QueryIdempotent(claims: map<string, Claim>, key: string, now: int)
    ensures var (r1, after) := Query(claims, key, now);
            Query(after, key, now) == (r1, after)
  {
  }

  /** Once a record has been found stale, every further query of its key reads unclaimed, at any time. */
  lemma StaleStaysUnclaimed(claims: map<string, Claim>, key: string, now: int, later: int)
    requires key != "" && key in claims && Expired(claims[key], now)
    ensures Query(Query(claims, key, now).1, key, later).0 == Response(200, Unclaimed)
  {
  }

  /**
   * The answer and the new table for a request whose query carries `code`:
   * an uncaught exception when `String(code)` throws, otherwise the query of
   * its normalised key.
   */
  function Serve(claims: map<string, Claim>, code: Value, now: int): (Response, map<string, Claim>)
  {
    match KeyOf(code)
    case None => (Response(500, Threw), claims)
    case Some(key) => Query(claims, key, now)
  }

  /**
   * A code that is truthy and not printable (an object with an own `toString`
   * key, or an array holding one) ends in an uncaught exception with the table
   * untouched, and only such a code does.
   */
  lemma ServeThrows(claims: map<string, Claim>, code: Value, now: int)
    ensures Serve(claims, code, now) == (Response(500, Threw), claims) <==> Truthy(code) && !Printable(code)
  {
    assert StringOrEmpty(code).None? <==> Truthy(code) && !Printable(code) by {
      ToStringDefined(code);
    }
    if KeyOf(code).Some? {
      QueryAnswers(claims, KeyOf(code).value, now);
    }
  }

  /** A query of a key always completes: it never ends in an exception. */
  lemma QueryAnswers(claims: map<string, Claim>, key: string, now: int)
    ensures !Query(claims, key, now).0.body.Threw?
  {
  }

  /** Any other code is looked up under its normalised key. */
  lemma ServeLooksUp(claims: map<string, Claim>, code: Value, now: int)
    requires !Truthy(code) || Printable(code)
    ensures KeyOf(code).Some?
    ensures Serve(claims, code, now) == Query(claims, KeyOf(code).value, now)
  {
    ToStringDefined(code);
  }

  /** `CLAIMS`: the process-wide table the handler reads and evicts from. */
  class ClaimStore {
    var claims: map<string, Claim>

    /** `global.CLAIMS || new Map()`: the table already in the process, or a fresh empty one. */
    constructor (existing: Option<map<string, Claim>>)
      ensures claims == existing.GetOr(map[])
    {
      claims := existing.GetOr(map[]);
    }

    /** One request: convert and normalise the query code, look it up, evict it if stale, answer. */
    method Handle(req: Request, now: int) returns (r: Response)
      modifies this
      ensures (r, claims) == Serve(old(claims), Field(req.query, "code"), now)
      ensures claims.Keys <= old(claims).Keys
      ensures forall k :: k in claims ==> claims[k] == old(claims)[k]
    {
      var text := StringOrEmpty(Field(req.query, "code"));
      if text.None? {
        return Response(500, Threw);
      }
      var code := NormalizeCode(text.value);
      if code == "" {
        return Response(400, Failed("Missing code"));
      }
      if code !in claims {
        return Response(200, Unclaimed);
      }
      var rec := claims[code];
      if now - rec.createdAt > TtlMs {
        claims := claims - {code};
        return Response(200, Unclaimed);
      }
      r := Response(200, Report(Truthy(rec.claimed), if Truthy(rec.user) then rec.user else Null));
    }
  }
}
