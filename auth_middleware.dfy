/**
 * The `beforeHandle` guard of the REST routes: let the two auth routes
 * through, read the bearer access token, validate it, and on expiry renew
 * the pair once from the `x-refresh-token` header. The branch tree is the
 * pure function `Decide`; `BeforeHandle` applies its decision to the
 * response state.
 */
module AuthMiddleware {
  import opened Wrappers

  /** Request and response headers, by lower-case name. */
  type Headers = map<string, string>

  /** What awaiting `Token.validate(token, "access")` gives: a payload, a falsy value, or an exception. */
  datatype Validation = Payload(userId: string) | Falsy | Threw(isError: bool, name: string)

  /** What awaiting `Token.renewTokens(refreshToken, headers)` gives. */
  datatype Renewal = Renewed(accessToken: string, refreshToken: string) | RenewFalsy | RenewThrew

  datatype Outcome = Proceed | Deny(message: string)

  /**
   * The guard's decision: whether the handler runs or a 401 body is returned,
   * the response headers written, and the refresh token `renewTokens` was
   * called with, if it was called.
   */
  datatype Decision = Decision(outcome: Outcome, writes: Headers, renewedWith: Option<string>)

  /** The routes the guard lets through unchecked. */
  predicate IsAuthRoute(path: string) {
    path == "/v1/auth/login" || path == "/v1/auth/register"
  }

  /** A header value JavaScript reads as truthy: present and not empty. */
  predicate HasValue(headers: Headers, name: string) {
    name in headers && headers[name] != ""
  }

  /** `s.split(" ")[0]`: the text before the first space. */
  function UpToSpace(s: string): (r: string)
    ensures |r| <= |s| && r == s[..|r|]
    ensures forall i | 0 <= i < |r| :: r[i] != ' '
    ensures |r| < |s| ==> s[|r|] == ' '
  {
    if |s| == 0 || s[0] == ' ' then ""
    else [s[0]] + UpToSpace(s[1..])
  }

  predicate StartsWith(s: string, prefix: string) {
    |prefix| <= |s| && s[..|prefix|] == prefix
  }

  /**
   * `authHeader?.startsWith("Bearer ") ? authHeader.split(" ")[1] : null`,
   * with the empty string, which is falsy, read as no token.
   */
  function BearerToken(headers: Headers): (t: Option<string>)
    ensures t.Some? ==>
              && t.value != "" && "authorization" in headers
              && StartsWith(headers["authorization"], "Bearer ")
              && StartsWith(headers["authorization"][7..], t.value)
  {
    if "authorization" in headers && StartsWith(headers["authorization"], "Bearer ") then
      var field := UpToSpace(headers["authorization"][7..]);
      if field == "" then None else Some(field)
    else None
  }

  /** The guard's branch tree. */
  function Decide(path: string, headers: Headers, validate: string -> Validation, renew: (string, Headers) -> Renewal)
    : (d: Decision)
    ensures d.outcome.Deny? ==> d.writes == map[]
    ensures d.renewedWith.Some? ==>
              HasValue(headers, "x-refresh-token") && d.renewedWith.value == headers["x-refresh-token"]
  {
    if IsAuthRoute(path) then Decision(Proceed, map[], None)
    else match BearerToken(headers)
      case None => Decision(Deny("Missing access token"), map[], None)
      case Some(accessToken) =>
        match validate(accessToken)
        case Payload(_) => Decision(Proceed, map[], None)
        case Falsy => Decision(Deny("Invalid access token"), map[], None)
        case Threw(isError, name) =>
          if isError && name == "JWTExpired" then
            if !HasValue(headers, "x-refresh-token") then Decision(Deny("Access token expired"), map[], None)
            else
              var refreshToken := headers["x-refresh-token"];
              match renew(refreshToken, headers)
              case RenewFalsy => Decision(Deny("Invalid refresh token"), map[], Some(refreshToken))
              case RenewThrew => Decision(Deny("Failed to refresh tokens"), map[], Some(refreshToken))
              case Renewed(access, refresh) =>
                Decision(Proceed, map["authorization" := "Bearer " + access, "x-refresh-token" := refresh],
                         Some(refreshToken))
          else Decision(Deny("Invalid token"), map[], None)
  }

  /** An access token the validator reports as expired, by an `Error` named "JWTExpired". */
  predicate Expired(v: Validation) {
    v.Threw? && v.isError && v.name == "JWTExpired"
  }

  /** The context's `set`: the response status and headers. */
  class ResponseSet {
    var status: Option<int>
    var headers: Headers

    constructor ()
      ensures status.None? && headers == map[]
    {
      status := None;
      headers := map[];
    }
  }

  /** The `{status: "error", message}` body a denied request gets. */
  datatype ErrorBody = ErrorBody(status: string, message: string)

  /**
   * `beforeHandle`: `None` lets the handler run; `Some(body)` answers with
   * that body.
   */
  method BeforeHandle(path: string, headers: Headers, response: ResponseSet,
                      validate: string -> Validation, renew: (string, Headers) -> Renewal)
    returns (r: Option<ErrorBody>)
    modifies response
    ensures var d := Decide(path, headers, validate, renew);
      && (d.outcome.Proceed? ==> r.None? && response.status == old(response.status))
      && (d.outcome.Deny? ==> r == Some(ErrorBody("error", d.outcome.message)) && response.status == Some(401))
      && response.headers == old(response.headers) + d.writes
  {
    if IsAuthRoute(path) {
      return None;
    }
    var accessToken := BearerToken(headers);
    if accessToken.None? {
      response.status := Some(401);
      return Some(ErrorBody("error", "Missing access token"));
    }
    var payload := validate(accessToken.value);
    if payload.Payload? {
      return None;
    }
    if payload.Falsy? {
      response.status := Some(401);
      return Some(ErrorBody("error", "Invalid access token"));
    }
    if payload.isError && payload.name == "JWTExpired" {
      if !HasValue(headers, "x-refresh-token") {
        response.status := Some(401);
        return Some(ErrorBody("error", "Access token expired"));
      }
      var newTokens := renew(headers["x-refresh-token"], headers);
      if newTokens.RenewThrew? {
        response.status := Some(401);
        return Some(ErrorBody("error", "Failed to refresh tokens"));
      }
      if newTokens.RenewFalsy? {
        response.status := Some(401);
        return Some(ErrorBody("error", "Invalid refresh token"));
      }
      response.headers := response.headers["authorization" := "Bearer " + newTokens.accessToken];
      response.headers := response.headers["x-refresh-token" := newTokens.refreshToken];
      return None;
    }
    response.status := Some(401);
    r := Some(ErrorBody("error", "Invalid token"));
  }

  /** The two auth routes pass whatever the headers and whatever the token service would say. */
  lemma AuthRoutesPass(path: string, headers: Headers, validate: string -> Validation,
                       renew: (string, Headers) -> Renewal)
    requires IsAuthRoute(path)
    ensures Decide(path, headers, validate, renew) == Decision(Proceed, map[], None)
  {
  }

  /** The token is the text after "Bearer " up to the next space. */
  lemma BearerTokenOf(headers: Headers, token: string, rest: string)
    requires token != "" && forall i | 0 <= i < |token| :: token[i] != ' '
    requires "authorization" in headers && headers["authorization"] == "Bearer " + token + rest
    requires rest == "" || rest[0] == ' '
    ensures BearerToken(headers) == Some(token)
  {
    var h := headers["authorization"];
    assert h[..7] == "Bearer ";
    assert h[7..] == token + rest;
    UpToSpaceOf(token, rest);
  }

  lemma {:induction false} UpToSpaceOf(token: string, rest: string)
    requires forall i | 0 <= i < |token| :: token[i] != ' '
    requires rest == "" || rest[0] == ' '
    ensures UpToSpace(token + rest) == token
  {
    if |token| > 0 {
      assert (token + rest)[1..] == token[1..] + rest;
      UpToSpaceOf(token[1..], rest);
    }
  }

  /** Without an "authorization" header starting with "Bearer ", a guarded route is refused. */
  lemma NoBearerIsMissingToken(path: string, headers: Headers, validate: string -> Validation,
                               renew: (string, Headers) -> Renewal)
    requires !IsAuthRoute(path)
    requires "authorization" !in headers || !StartsWith(headers["authorization"], "Bearer ")
    ensures Decide(path, headers, validate, renew) == Decision(Deny("Missing access token"), map[], None)
  {
  }

  /**
   * The outcome of a guarded route by what the validator says: a payload
   * proceeds untouched, a falsy value is an invalid token, any other
   * exception than expiry is an invalid token, and none of these renews.
   */
  lemma ValidationOutcomes(path: string, headers: Headers, validate: string -> Validation,
                           renew: (string, Headers) -> Renewal)
    requires !IsAuthRoute(path) && BearerToken(headers).Some?
    ensures var d := Decide(path, headers, validate, renew);
      var v := validate(BearerToken(headers).value);
      && (v.Payload? ==> d == Decision(Proceed, map[], None))
      && (v.Falsy? ==> d == Decision(Deny("Invalid access token"), map[], None))
      && (v.Threw? && !Expired(v) ==> d == Decision(Deny("Invalid token"), map[], None))
  {
  }

  /**
   * On an expired token: no refresh header is "Access token expired" with no
   * renewal; otherwise exactly one renewal with that header, and its result
   * decides.
   */
  lemma ExpiryOutcomes(path: string, headers: Headers, validate: string -> Validation,
                       renew: (string, Headers) -> Renewal)
    requires !IsAuthRoute(path) && BearerToken(headers).Some?
    requires Expired(validate(BearerToken(headers).value))
    ensures var d := Decide(path, headers, validate, renew);
      && (!HasValue(headers, "x-refresh-token") ==> d == Decision(Deny("Access token expired"), map[], None))
      && (HasValue(headers, "x-refresh-token") ==>
            var refreshToken := headers["x-refresh-token"];
            var n := renew(refreshToken, headers);
            && d.renewedWith == Some(refreshToken)
            && (n.RenewFalsy? ==> d.outcome == Deny("Invalid refresh token") && d.writes == map[])
            && (n.RenewThrew? ==> d.outcome == Deny("Failed to refresh tokens") && d.writes == map[])
            && (n.Renewed? ==>
                  && d.outcome == Proceed
                  && d.writes == map["authorization" := "Bearer " + n.accessToken,
                                     "x-refresh-token" := n.refreshToken]))
  {
  }

  /** Response headers are written exactly when a renewal succeeded. */
  lemma WritesOnlyOnRenewal(path: string, headers: Headers, validate: string -> Validation,
                            renew: (string, Headers) -> Renewal)
    ensures var d := Decide(path, headers, validate, renew);
      d.writes != map[] <==> d.renewedWith.Some? && renew(d.renewedWith.value, headers).Renewed?
  {
    var d := Decide(path, headers, validate, renew);
    if d.writes != map[] {
      assert "authorization" in d.writes;
    }
    if d.renewedWith.Some? && renew(d.renewedWith.value, headers).Renewed? {
      assert "authorization" in d.writes;
    }
  }

  /** A renewal is attempted exactly for an expired token that came with a refresh token. */
  lemma RenewalOnlyOnExpiry(path: string, headers: Headers, validate: string -> Validation,
                            renew: (string, Headers) -> Renewal)
    ensures Decide(path, headers, validate, renew).renewedWith.Some? <==>
      && !IsAuthRoute(path) && BearerToken(headers).Some?
      && Expired(validate(BearerToken(headers).value)) && HasValue(headers, "x-refresh-token")
  {
  }
}
