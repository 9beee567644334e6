/**
 * The `sign` handler: validates a 17-digit account id and a session token of
 * at least sixteen UTF-16 code units, requires the signing secret, and returns
 * the code `base64url(payload) + "." + base64url(HMAC-SHA256(secret, base64url(payload)))`
 * for the payload `{"steamId":…,"token":…,"ts":…}`. Node's own `'base64url'`
 * encoder is used for both parts. Every exception inside its `try` block (a
 * `String` conversion that throws, a failed `import`) is answered with a
 * generic 500.
 */
module Sign {
  import opened Wrappers
  import opened Js
  import Utf8
  import Base64
  import Json
  import opened SignedCode

  /** `JSON.stringify({ steamId, token, ts })`, keys in that order. */
  function PayloadJson(steamId: string, token: string, ts: int): string
  {
    "{\"steamId\":" + (Json.Quote(steamId) + (",\"token\":" + (Json.Quote(token) + (",\"ts\":" + (IntegerText(ts) + "}")))))
  }

  /** The code for an accepted request: the payload and the HMAC over its encoded form, both `'base64url'`. */
  function SignCode(steamId: string, token: string, secret: string, now: int, hmac: Hmac): string
  {
    var p := Base64.UrlEncode(Utf8.Encode(PayloadJson(steamId, token, now)));
    var sig := Base64.UrlEncode(hmac(Utf8.Encode(secret), Utf8.Encode(p)));
    Assemble(p, sig)
  }

  /** What the handler answers: a status and the JSON body. */
  datatype Reply =
    | Refused(error: string)   // { error }
    | Signed(code: string)     // { code }

  datatype Response = Response(status: int, reply: Reply)

  /** `String(steamId || '')`, `None` when it throws. */
  function SteamIdText(req: Request): Option<string>
  {
    StringOrEmpty(Field(req.body, "steamId"))
  }

  /** `String(token)`, `None` when it throws; evaluated only for a truthy token. */
  function TokenText(req: Request): Option<string>
  {
    ToString(Field(req.body, "token"))
  }

  /** The account id reads as seventeen ASCII digits. */
  predicate IdAccepted(req: Request)
  {
    SteamIdText(req).Some? && Matches17Digits(SteamIdText(req).value)
  }

  /** `!token || String(token).length < 16` is false without throwing. */
  predicate TokenAccepted(req: Request)
  {
    Truthy(Field(req.body, "token")) && TokenText(req).Some? && Utf16Length(TokenText(req).value) >= 16
  }

  /**
   * A `String` conversion in the `try` block throws: the one of `steamId || ''`,
   * or, once the id has passed, the one of a truthy `token`.
   */
  predicate ConversionThrows(req: Request)
  {
    || SteamIdText(req).None?
    || (IdAccepted(req) && Truthy(Field(req.body, "token")) && TokenText(req).None?)
  }

  /**
   * The handler. `cryptoLoads` says whether `await import('node:crypto')`
   * succeeds. A failed import and a throwing `String` conversion both land in
   * the `catch`, which answers 500 `Server error`.
   */
  function Handle(req: Request, env: Env, now: int, cryptoLoads: bool, hmac: Hmac): (r: Response)
    requires IsTimeValue(now)
    ensures r.status == 200 <==> r.reply.Signed?
  {
    if req.verb != "POST" then Response(405, Refused("Method not allowed"))
    else if SteamIdText(req).None? then Response(500, Refused("Server error"))
    else if !Matches17Digits(SteamIdText(req).value) then Response(400, Refused("Invalid SteamID64"))
    else if !Truthy(Field(req.body, "token")) then Response(400, Refused("Invalid token"))
    else if TokenText(req).None? then Response(500, Refused("Server error"))
    else if Utf16Length(TokenText(req).value) < 16 then Response(400, Refused("Invalid token"))
    else if !HasLinkSecret(env) then Response(500, Refused("LINK_SECRET not set"))
    else if !cryptoLoads then Response(500, Refused("Server error"))
    else
      var steamId, token := ToString(Field(req.body, "steamId")).value, TokenText(req).value;
      Response(200, Signed(SignCode(steamId, token, env["LINK_SECRET"], now, hmac)))
  }

  /** Anything but POST is answered 405 before any other check. */
  lemma MethodRule(req: Request, env: Env, now: int, cryptoLoads: bool, hmac: Hmac)
    requires IsTimeValue(now)
    ensures req.verb != "POST" <==> Handle(req, env, now, cryptoLoads, hmac) == Response(405, Refused("Method not allowed"))
  {
  }

  /**
   * A POST is refused with 400 `Invalid SteamID64` exactly when `String(steamId || '')`
   * completes and is not seventeen digits, whatever else it carries.
   */
  lemma SteamIdRule(req: Request, env: Env, now: int, cryptoLoads: bool, hmac: Hmac)
    requires IsTimeValue(now) && req.verb == "POST"
    ensures Handle(req, env, now, cryptoLoads, hmac) == Response(400, Refused("Invalid SteamID64"))
        <==> SteamIdText(req).Some? && !Matches17Digits(SteamIdText(req).value)
  {
  }

  /**
   * Once the account id passes, the token is refused with 400 `Invalid token`
   * exactly when it is absent, falsy, or prints shorter than sixteen code
   * units, before the secret is looked at.
   */
  lemma TokenRule(req: Request, env: Env, now: int, cryptoLoads: bool, hmac: Hmac)
    requires IsTimeValue(now) && req.verb == "POST" && IdAccepted(req)
    ensures Handle(req, env, now, cryptoLoads, hmac) == Response(400, Refused("Invalid token"))
        <==> (!Truthy(Field(req.body, "token")) || (TokenText(req).Some? && Utf16Length(TokenText(req).value) < 16))
  {
  }

  /** A string token of exactly sixteen code units is long enough; one of fifteen is not. */
  lemma TokenLengthBoundary(req: Request, env: Env, now: int, cryptoLoads: bool, hmac: Hmac, s: string)
    requires IsTimeValue(now) && req.verb == "POST" && IdAccepted(req)
    requires Field(req.body, "token") == Str(s)
    ensures Utf16Length(s) == 16 ==> Handle(req, env, now, cryptoLoads, hmac).reply != Refused("Invalid token")
    ensures Utf16Length(s) == 15 ==> Handle(req, env, now, cryptoLoads, hmac).reply == Refused("Invalid token")
  {
  }

  /** With both inputs valid, an unset or empty secret is answered 500 `LINK_SECRET not set`, whether or not crypto would load. */
  lemma SecretRule(req: Request, env: Env, now: int, cryptoLoads: bool, hmac: Hmac)
    requires IsTimeValue(now) && req.verb == "POST" && IdAccepted(req) && TokenAccepted(req)
    ensures !HasLinkSecret(env) <==> Handle(req, env, now, cryptoLoads, hmac) == Response(500, Refused("LINK_SECRET not set"))
  {
  }

  /**
   * A POST is answered 500 `Server error` exactly when the `catch` runs: a
   * `String` conversion throws, or every check passes and crypto fails to load.
   * A conversion throws exactly when the value it converts is not printable.
   */
  lemma ServerErrorRule(req: Request, env: Env, now: int, cryptoLoads: bool, hmac: Hmac)
    requires IsTimeValue(now) && req.verb == "POST"
    ensures Handle(req, env, now, cryptoLoads, hmac) == Response(500, Refused("Server error"))
        <==> (ConversionThrows(req) || (IdAccepted(req) && TokenAccepted(req) && HasLinkSecret(env) && !cryptoLoads))
    ensures SteamIdText(req).None? <==> Truthy(Field(req.body, "steamId")) && !Printable(Field(req.body, "steamId"))
    ensures TokenText(req).None? <==> !Printable(Field(req.body, "token"))
  {
    ToStringDefined(Field(req.body, "steamId"));
    ToStringDefined(Field(req.body, "token"));
  }

  /**
   * A valid account id with the token `{"toString": …}` is answered 500
   * `Server error`: `String(token)` throws inside the `try`.
   */
  lemma ObjectTokenThrows(id: string, v: Value, env: Env, now: int, cryptoLoads: bool, hmac: Hmac)
    requires IsTimeValue(now) && Matches17Digits(id)
    ensures var body := Obj(map["steamId" := Str(id), "token" := Obj(map["toString" := v])]);
            Handle(Request("POST", map[], Undefined, body), env, now, cryptoLoads, hmac) == Response(500, Refused("Server error"))
  {
    var body := Obj(map["steamId" := Str(id), "token" := Obj(map["toString" := v])]);
    assert Field(body, "steamId") == Str(id);
  }

  /** With everything valid, a failure to load crypto is answered 500 `Server error`, and a success with a code. */
  lemma FailureRule(req: Request, env: Env, now: int, cryptoLoads: bool, hmac: Hmac)
    requires IsTimeValue(now) && req.verb == "POST" && IdAccepted(req) && TokenAccepted(req)
    requires HasLinkSecret(env)
    ensures !cryptoLoads <==> Handle(req, env, now, cryptoLoads, hmac) == Response(500, Refused("Server error"))
    ensures cryptoLoads <==>
      Handle(req, env, now, cryptoLoads, hmac)
        == Response(200, Signed(SignCode(SteamIdText(req).value, TokenText(req).value, env["LINK_SECRET"], now, hmac)))
  {
  }

  /**
   * A code is `payloadB64 + "." + sig`: `payloadB64` decodes back to the UTF-8
   * payload JSON, `sig` is the 43-character base64url HMAC over exactly the
   * text `payloadB64` (not the JSON, not the dot), the code holds exactly one
   * `.`, and splitting there gives both parts back.
   */
  lemma SignCodeShape(steamId: string, token: string, secret: string, now: int, hmac: Hmac)
    ensures var p := Base64.UrlEncode(Utf8.Encode(PayloadJson(steamId, token, now)));
            var sig := Base64.UrlEncode(hmac(Utf8.Encode(secret), Utf8.Encode(p)));
            && SignCode(steamId, token, secret, now, hmac) == p + "." + sig
            && Base64.UrlDecode(p) == Some(Utf8.Encode(PayloadJson(steamId, token, now)))
            && |sig| == 43
            && DotCount(p + "." + sig) == 1
            && SplitAtDot(p + "." + sig) == Some((p, sig))
  {
    var p := Base64.UrlEncode(Utf8.Encode(PayloadJson(steamId, token, now)));
    Base64.UrlRoundTrip(Utf8.Encode(PayloadJson(steamId, token, now)));
    var sig := Base64.UrlEncode(hmac(Utf8.Encode(secret), Utf8.Encode(p)));
    NoDotChars(p);
    NoDotChars(sig);
    AssembleSplit(p, sig);
  }

  /** Equal texts with a common prefix agree after it. */
  lemma CancelPrefix(k: string, a: string, b: string)
    requires k + a == k + b
    ensures a == b
  {
    assert a == (k + a)[|k|..];
  }

  /** The payload JSON determines the account id, the token and the time it was made from. */
  lemma PayloadJsonInjective(s1: string, t1: string, n1: int, s2: string, t2: string, n2: int)
    requires PayloadJson(s1, t1, n1) == PayloadJson(s2, t2, n2)
    ensures s1 == s2 && t1 == t2 && n1 == n2
  {
    var tail1, tail2 := IntegerText(n1) + "}", IntegerText(n2) + "}";
    var rest1, rest2 := ",\"token\":" + (Json.Quote(t1) + (",\"ts\":" + tail1)), ",\"token\":" + (Json.Quote(t2) + (",\"ts\":" + tail2));
    CancelPrefix("{\"steamId\":", Json.Quote(s1) + rest1, Json.Quote(s2) + rest2);
    Json.QuoteDelimited(s1, s2, rest1, rest2);
    CancelPrefix(",\"token\":", Json.Quote(t1) + (",\"ts\":" + tail1), Json.Quote(t2) + (",\"ts\":" + tail2));
    Json.QuoteDelimited(t1, t2, ",\"ts\":" + tail1, ",\"ts\":" + tail2);
    CancelPrefix(",\"ts\":", tail1, tail2);
    assert IntegerText(n1) == tail1[..|tail1| - 1];
    Js.IntegerTextInjective(n1, n2);
  }

  /**
   * A code binds what was signed: two codes that are equal carry the same
   * account id, token and time, since the payload part decodes to the exact
   * JSON and the JSON determines its fields.
   */
  lemma SignCodeBindsPayload(s1: string, t1: string, n1: int, s2: string, t2: string, n2: int, secret: string, hmac: Hmac)
    requires SignCode(s1, t1, secret, n1, hmac) == SignCode(s2, t2, secret, n2, hmac)
    ensures s1 == s2 && t1 == t2 && n1 == n2
  {
    SignCodeShape(s1, t1, secret, n1, hmac);
    SignCodeShape(s2, t2, secret, n2, hmac);
    var j1, j2 := Utf8.Encode(PayloadJson(s1, t1, n1)), Utf8.Encode(PayloadJson(s2, t2, n2));
    Base64.UrlEncodeInjective(j1, j2);
    Utf8.EncodeInjective(PayloadJson(s1, t1, n1), PayloadJson(s2, t2, n2));
    PayloadJsonInjective(s1, t1, n1, s2, t2, n2);
  }
}
