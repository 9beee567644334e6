/**
 * The `pair-claimed` callback: the bot reports a claimed pairing here. Only
 * POST is accepted; when `PAIR_CALLBACK_AUTH` is configured the caller must
 * present `Authorization: Bearer <that value>`. An accepted call is answered
 * `{ ok: true }` whatever its body, which is neither checked nor stored.
 */
module PairClaimed {
  import opened Wrappers
  import opened Js

  /** The JSON body of an answer. */
  datatype Body =
    | Failed(error: string)  // { ok: false, error }
    | Acknowledged           // { ok: true }

  datatype Response = Response(status: int, body: Body)

  /** `process.env.PAIR_CALLBACK_AUTH || ''` */
  function ExpectedSecret(env: Env): string
  {
    EnvVar(env, "PAIR_CALLBACK_AUTH").GetOr("")
  }

  /** `req.headers.authorization || ''` */
  function AuthorizationText(req: Request): string
  {
    Header(req, "authorization").GetOr("")
  }

  /** The callback handler: the method check, then the optional bearer check. */
  function Handle(req: Request, env: Env): (r: Response)
    ensures r.status == 200 <==> r.body == Acknowledged
  {
    if req.verb != "POST" then Response(405, Failed("method_not_allowed"))
    else
      var expected := ExpectedSecret(env);
      var auth := AuthorizationText(req);
      if expected != "" && auth != "Bearer " + expected then Response(401, Failed("unauthorized"))
      else Response(200, Acknowledged)
  }

  /** Anything but POST is answered 405, whatever the configuration and the headers. */
  lemma MethodRule(req: Request, env: Env)
    ensures req.verb != "POST" <==> Handle(req, env) == Response(405, Failed("method_not_allowed"))
  {
  }

  /** With `PAIR_CALLBACK_AUTH` unset or empty, every POST is accepted, whatever its headers. */
  lemma OpenWhenUnconfigured(req: Request, env: Env)
    requires req.verb == "POST"
    requires "PAIR_CALLBACK_AUTH" !in env || env["PAIR_CALLBACK_AUTH"] == ""
    ensures Handle(req, env) == Response(200, Acknowledged)
  {
  }

  /**
   * With `PAIR_CALLBACK_AUTH` set to a non-empty value, a POST is accepted
   * exactly when its `Authorization` header is present and equals
   * `"Bearer " + value`; every other POST is answered 401 `unauthorized`.
   */
  lemma BearerRule(req: Request, env: Env)
    requires req.verb == "POST"
    requires "PAIR_CALLBACK_AUTH" in env && env["PAIR_CALLBACK_AUTH"] != ""
    ensures Handle(req, env) == Response(200, Acknowledged)
        <==> "authorization" in req.headers && req.headers["authorization"] == "Bearer " + env["PAIR_CALLBACK_AUTH"]
    ensures Handle(req, env) == Response(200, Acknowledged) || Handle(req, env) == Response(401, Failed("unauthorized"))
  {
  }

  /** A POST without an `Authorization` header is refused whenever a secret is configured. */
  lemma MissingHeaderRefused(req: Request, env: Env)
    requires req.verb == "POST" && "authorization" !in req.headers
    requires "PAIR_CALLBACK_AUTH" in env && env["PAIR_CALLBACK_AUTH"] != ""
    ensures Handle(req, env) == Response(401, Failed("unauthorized"))
  {
  }

  /** The decision never looks at the body: any two bodies get the same answer. */
  lemma BodyIgnored(req: Request, env: Env, other: Value)
    ensures Handle(req.(body := other), env) == Handle(req, env)
  {
  }
}
