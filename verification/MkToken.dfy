/**
 * The `mktoken` handler: validates a 17-digit account id, requires a signing
 * secret, and returns `b64url(payload) + "." + b64url(HMAC-SHA256(secret, b64url(payload)))`
 * for the payload `{"steamid":…,"exp":…}`, where `exp` is one hour after the
 * request in whole seconds. Its `b64url` turns Node's padded standard base64
 * into unpadded base64url by three string replacements.
 */
module MkToken {
  import opened Wrappers
  import opened Js
  import Utf8
  import Base64
  import Json
  import opened SignedCode

  /** `s.replace(/x/g, y)` for a one-character pattern: every `x` becomes `y`. */
  function ReplaceAll(s: string, x: char, y: char): (r: string)
    ensures |r| == |s|
    ensures forall i :: 0 <= i < |s| ==> r[i] == (if s[i] == x then y else s[i])
  {
    if s == [] then [] else [if s[0] == x then y else s[0]] + ReplaceAll(s[1..], x, y)
  }

  /** `s.replace(/=+$/, '')`: the whole run of `=` at the end of `s` is dropped. */
  function StripPadding(s: string): (r: string)
    ensures r <= s
    ensures r == [] || r[|r| - 1] != '='
    ensures forall i :: |r| <= i < |s| ==> s[i] == '='
    decreases |s|
  {
    if s != [] && s[|s| - 1] == '=' then StripPadding(s[..|s| - 1]) else s
  }

  /**
   * The replacement chain of `b64url` (and of the signature): `+` becomes `-`,
   * `/` becomes `_`, trailing `=` go. Whatever the input, the output has no
   * `+`, no `/` and does not end in `=`.
   */
  function UrlSafe(b64: string): (r: string)
    ensures forall i :: 0 <= i < |r| ==> r[i] != '+' && r[i] != '/'
    ensures r == [] || r[|r| - 1] != '='
  {
    StripPadding(ReplaceAll(ReplaceAll(b64, '+', '-'), '/', '_'))
  }

  /** `b64url(s)`: the UTF-8 bytes of `s` in padded base64, made URL-safe. */
  function B64Url(s: string): string
  {
    UrlSafe(Base64.StdEncode(Utf8.Encode(s)))
  }

  /** Stripping a run of `=` from text whose own last character is not `=` gives that text. */
  lemma {:induction false} StripPaddingOf(t: string, pad: string)
    requires t == [] || t[|t| - 1] != '='
    requires forall i :: 0 <= i < |pad| ==> pad[i] == '='
    ensures StripPadding(t + pad) == t
    decreases |pad|
  {
    if pad == [] {
      assert t + pad == t;
    } else {
      var shorter := pad[..|pad| - 1];
      assert (t + pad)[..|t + pad| - 1] == t + shorter;
      StripPaddingOf(t, shorter);
    }
  }

  /** Each standard-alphabet character, after the two replacements, is the URL-alphabet one. */
  lemma {:induction false} ReplaceStdSpell(v: seq<Base64.sextet>)
    ensures ReplaceAll(ReplaceAll(Base64.StdSpell(v), '+', '-'), '/', '_') == Base64.UrlSpell(v)
  {
    if v != [] {
      ReplaceStdSpell(v[1..]);
      var s := Base64.StdSpell(v);
      var a := ReplaceAll(ReplaceAll(s, '+', '-'), '/', '_');
      var b := ReplaceAll(ReplaceAll(s[1..], '+', '-'), '/', '_');
      assert s[1..] == Base64.StdSpell(v[1..]);
      assert a == a[..1] + a[1..];
      assert a[1..] == b;
    }
  }

  /** The replacements leave the `=` padding alone. */
  lemma ReplacePadding(n: nat)
    ensures ReplaceAll(ReplaceAll(Base64.Padding(n), '+', '-'), '/', '_') == Base64.Padding(n)
  {
  }

  /** Both replacements distribute over concatenation. */
  lemma ReplaceAppend(a: string, b: string, x: char, y: char)
    ensures ReplaceAll(a + b, x, y) == ReplaceAll(a, x, y) + ReplaceAll(b, x, y)
  {
    var l, r := ReplaceAll(a + b, x, y), ReplaceAll(a, x, y) + ReplaceAll(b, x, y);
    assert |l| == |r|;
    forall i | 0 <= i < |l| ensures l[i] == r[i] {
      if i >= |a| {
        assert (a + b)[i] == b[i - |a|];
      }
    }
  }

  /**
   * The replacement chain turns RFC 4648 section 4 base64 into exactly the unpadded
   * RFC 4648 section 5 encoding: `b64url` computes `toString('base64url')`.
   */
  lemma UrlSafeOfStdEncode(b: seq<Base64.byte>)
    ensures UrlSafe(Base64.StdEncode(b)) == Base64.UrlEncode(b)
  {
    var v := Base64.Sextets(b);
    var spell, pad := Base64.StdSpell(v), Base64.Padding(|b|);
    ReplaceAppend(spell, pad, '+', '-');
    ReplaceAppend(ReplaceAll(spell, '+', '-'), ReplaceAll(pad, '+', '-'), '/', '_');
    ReplaceStdSpell(v);
    ReplacePadding(|b|);
    StripPaddingOf(Base64.UrlSpell(v), pad);
  }

  /** `b64url(s)` is the unpadded base64url encoding of the UTF-8 bytes of `s`, ⌈4n/3⌉ characters for n bytes. */
  lemma B64UrlIsBase64Url(s: string)
    ensures B64Url(s) == Base64.UrlEncode(Utf8.Encode(s))
    ensures |B64Url(s)| == (4 * |Utf8.Encode(s)| + 2) / 3
    ensures DotCount(B64Url(s)) == 0
  {
    UrlSafeOfStdEncode(Utf8.Encode(s));
    NoDotChars(B64Url(s));
  }

  /** `Math.floor(Date.now() / 1000) + 3600`: one hour on, in whole seconds. */
  function Expiry(now: int): int
  {
    now / 1000 + 3600  // `/` on int floors for a positive divisor, as Math.floor does
  }

  /** The expiry lies between 3599 and 3600 seconds after the request, the upper bound included. */
  lemma ExpiryWindow(now: int)
    ensures 3_599_000 < Expiry(now) * 1000 - now <= 3_600_000
  {
  }

  /** `JSON.stringify({ steamid, exp })`, keys in that order. */
  function PayloadJson(steamid: string, exp: int): string
  {
    "{\"steamid\":" + (Json.Quote(steamid) + (",\"exp\":" + (IntegerText(exp) + "}")))
  }

  /** For an accepted account id the payload is `{"steamid":"<17 digits>","exp":<decimal>}`. */
  lemma PayloadForm(steamid: string, exp: int)
    requires Matches17Digits(steamid)
    ensures PayloadJson(steamid, exp) == "{\"steamid\":\"" + steamid + "\",\"exp\":" + IntegerText(exp) + "}"
  {
    Json.QuotePlain(steamid);
  }

  /**
   * For an accepted account id the payload is all ASCII, one UTF-8 byte per
   * character, so its encoded part `p` has ⌈4n/3⌉ characters for a payload of
   * n characters.
   */
  lemma PayloadLength(steamid: string, exp: int)
    requires Matches17Digits(steamid)
    ensures Utf8.IsAscii(PayloadJson(steamid, exp))
    ensures |B64Url(PayloadJson(steamid, exp))| == (4 * |PayloadJson(steamid, exp)| + 2) / 3
  {
    var json := PayloadJson(steamid, exp);
    PayloadForm(steamid, exp);
    var digits := NatText(if exp < 0 then -exp else exp);
    assert IntegerText(exp) == (if exp < 0 then "-" else "") + digits;
    assert Utf8.IsAscii(json);
    Utf8.EncodeAscii(json);
    B64UrlIsBase64Url(json);
  }

  /** What the handler answers: a status, the `Allow` header when it sets one, and the JSON body. */
  datatype Reply =
    | Refused(error: string)   // { ok: false, error }
    | Issued(token: string)    // { ok: true, token }
    | Threw                    // `String(steamid || '')` threw; nothing catches it, so the platform answers 500 itself

  datatype Response = Response(status: int, allow: Option<string>, reply: Reply)

  /** The account id as the handler reads it: `String(steamid || '')`, `None` when that throws. */
  function SteamIdText(req: Request): Option<string>
  {
    StringOrEmpty(Field(req.body, "steamid"))
  }

  /** The account id reads as seventeen ASCII digits. */
  predicate IdAccepted(req: Request)
  {
    SteamIdText(req).Some? && Matches17Digits(SteamIdText(req).value)
  }

  /** The token for an accepted request: `${p}.${sig}`. */
  function MintToken(steamid: string, secret: string, now: int, hmac: Hmac): string
  {
    var p := B64Url(PayloadJson(steamid, Expiry(now)));
    var sig := UrlSafe(Base64.StdEncode(hmac(Utf8.Encode(secret), Utf8.Encode(p))));
    Assemble(p, sig)
  }

  /**
   * The handler: method check, account-id check (where `String` can throw),
   * secret check, then the token over `String(steamid)`.
   */
  function Handle(req: Request, env: Env, now: int, hmac: Hmac): (r: Response)
    requires IsTimeValue(now)
    ensures r.status == 200 <==> r.reply.Issued?
    ensures r.allow.Some? <==> r.status == 405
  {
    if req.verb != "POST" then Response(405, Some("POST"), Refused("method_not_allowed"))
    else if SteamIdText(req).None? then Response(500, None, Threw)
    else if !Matches17Digits(SteamIdText(req).value) then Response(400, None, Refused("bad_steamid"))
    else if !HasLinkSecret(env) then Response(500, None, Refused("no_secret"))
    else Response(200, None, Issued(MintToken(ToString(Field(req.body, "steamid")).value, env["LINK_SECRET"], now, hmac)))
  }

  /** Anything but POST is answered 405 with `Allow: POST`, before any other check. */
  lemma MethodRule(req: Request, env: Env, now: int, hmac: Hmac)
    requires IsTimeValue(now)
    ensures req.verb != "POST" <==> Handle(req, env, now, hmac) == Response(405, Some("POST"), Refused("method_not_allowed"))
  {
  }

  /**
   * A POST ends in an uncaught exception exactly when `steamid` is truthy and
   * not printable (an object with an own `toString` key, or an array holding
   * one), whatever the secret.
   */
  lemma ThrowRule(req: Request, env: Env, now: int, hmac: Hmac)
    requires IsTimeValue(now) && req.verb == "POST"
    ensures Handle(req, env, now, hmac) == Response(500, None, Threw)
        <==> Truthy(Field(req.body, "steamid")) && !Printable(Field(req.body, "steamid"))
  {
    ToStringDefined(Field(req.body, "steamid"));
  }

  /**
   * A POST is refused with 400 `bad_steamid` exactly when `String(steamid || '')`
   * completes and is not seventeen ASCII digits, whatever the secret: the
   * account id is checked before the secret is looked at.
   */
  lemma SteamIdRule(req: Request, env: Env, now: int, hmac: Hmac)
    requires IsTimeValue(now) && req.verb == "POST"
    ensures Handle(req, env, now, hmac) == Response(400, None, Refused("bad_steamid"))
        <==> SteamIdText(req).Some? && !Matches17Digits(SteamIdText(req).value)
  {
  }

  /** A missing or empty account id is refused. */
  lemma MissingSteamId(req: Request, env: Env, now: int, hmac: Hmac)
    requires IsTimeValue(now) && req.verb == "POST" && !Truthy(Field(req.body, "steamid"))
    ensures Handle(req, env, now, hmac) == Response(400, None, Refused("bad_steamid"))
  {
  }

  /**
   * For a POST with a valid account id, an unset or empty `LINK_SECRET` gives
   * 500 `no_secret` and no token; a set one gives a token.
   */
  lemma SecretRule(req: Request, env: Env, now: int, hmac: Hmac)
    requires IsTimeValue(now) && req.verb == "POST" && IdAccepted(req)
    ensures !HasLinkSecret(env) <==> Handle(req, env, now, hmac) == Response(500, None, Refused("no_secret"))
    ensures HasLinkSecret(env) <==> Handle(req, env, now, hmac).reply.Issued?
  {
  }

  /**
   * A minted token is `p + "." + sig`: `p` is the unpadded base64url of the
   * payload JSON and decodes back to it, `sig` is the 43-character unpadded
   * base64url of the HMAC over exactly `p`, the token holds exactly one `.`,
   * and splitting there gives `p` and `sig` back.
   */
  lemma MintTokenShape(steamid: string, secret: string, now: int, hmac: Hmac)
    ensures var p := Base64.UrlEncode(Utf8.Encode(PayloadJson(steamid, Expiry(now))));
            var sig := Base64.UrlEncode(hmac(Utf8.Encode(secret), Utf8.Encode(p)));
            && MintToken(steamid, secret, now, hmac) == p + "." + sig
            && Base64.UrlDecode(p) == Some(Utf8.Encode(PayloadJson(steamid, Expiry(now))))
            && |sig| == 43
            && DotCount(p + "." + sig) == 1
            && SplitAtDot(p + "." + sig) == Some((p, sig))
  {
    var json := PayloadJson(steamid, Expiry(now));
    B64UrlIsBase64Url(json);
    Base64.UrlRoundTrip(Utf8.Encode(json));
    var p := B64Url(json);
    var digest := hmac(Utf8.Encode(secret), Utf8.Encode(p));
    UrlSafeOfStdEncode(digest);
    var sig := Base64.UrlEncode(digest);
    NoDotChars(sig);
    AssembleSplit(p, sig);
  }

  /**
   * A POST with a valid account id and a set secret is answered 200 with the
   * token minted from `String(steamid)` (the same text the check read), the
   * secret and the request time.
   */
  lemma IssuedToken(req: Request, env: Env, now: int, hmac: Hmac)
    requires IsTimeValue(now) && req.verb == "POST" && IdAccepted(req) && HasLinkSecret(env)
    ensures ToString(Field(req.body, "steamid")) == SteamIdText(req)
    ensures Handle(req, env, now, hmac)
         == Response(200, None, Issued(MintToken(SteamIdText(req).value, env["LINK_SECRET"], now, hmac)))
  {
  }

  /** The payload JSON determines the account id and the expiry it was made from. */
  lemma PayloadJsonInjective(s1: string, e1: int, s2: string, e2: int)
    requires PayloadJson(s1, e1) == PayloadJson(s2, e2)
    ensures s1 == s2 && e1 == e2
  {
    var key1, key2 := "{\"steamid\":", ",\"exp\":";
    var tail1, tail2 := IntegerText(e1) + "}", IntegerText(e2) + "}";
    assert Json.Quote(s1) + (key2 + tail1) == PayloadJson(s1, e1)[|key1|..];
    assert Json.Quote(s2) + (key2 + tail2) == PayloadJson(s2, e2)[|key1|..];
    Json.QuoteDelimited(s1, s2, key2 + tail1, key2 + tail2);
    assert tail1 == (key2 + tail1)[|key2|..];
    assert IntegerText(e1) == tail1[..|tail1| - 1];
    IntegerTextInjective(e1, e2);
  }

  /**
   * A token binds what was signed: two equal tokens carry the same account id
   * and expiry, since the part before the dot decodes to the exact JSON.
   */
  lemma MintTokenBindsPayload(s1: string, s2: string, secret: string, now1: int, now2: int, hmac: Hmac)
    requires MintToken(s1, secret, now1, hmac) == MintToken(s2, secret, now2, hmac)
    ensures s1 == s2 && Expiry(now1) == Expiry(now2)
  {
    MintTokenShape(s1, secret, now1, hmac);
    MintTokenShape(s2, secret, now2, hmac);
    var j1, j2 := PayloadJson(s1, Expiry(now1)), PayloadJson(s2, Expiry(now2));
    Base64.UrlEncodeInjective(Utf8.Encode(j1), Utf8.Encode(j2));
    Utf8.EncodeInjective(j1, j2);
    PayloadJsonInjective(s1, Expiry(now1), s2, Expiry(now2));
  }
}
