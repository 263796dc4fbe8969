/**
 * `authenticateUser`: bind the user of the `access_token` cookie to the
 * socket, or close the socket with policy-violation code 1008.
 */
module WsAuth {
  import opened Wrappers
  import opened Schema
  import opened Sockets
  import opened AuthMiddleware

  const PolicyViolation: int := 1008

  /** The cookie value JavaScript reads as truthy, if any. */
  function AccessTokenCookie(cookies: map<string, string>): (t: Option<string>)
    ensures t.Some? <==> "access_token" in cookies && cookies["access_token"] != ""
    ensures t.Some? ==> t.value == cookies["access_token"]
  {
    if "access_token" in cookies && cookies["access_token"] != "" then Some(cookies["access_token"]) else None
  }

  /**
   * `validate` stands for `Token.validate(token, "access")`; when it throws,
   * the exception escapes to the caller (`threw`) and the socket is untouched.
   */
  method AuthenticateUser(ws: Socket, validate: string -> Validation) returns (threw: bool)
    modifies ws`user, ws`closed
    ensures var token := AccessTokenCookie(ws.cookies);
      && (token.None? ==>
            !threw && ws.closed == Some((PolicyViolation, "Failed to authenticate")) && ws.user == old(ws.user))
      && (token.Some? && validate(token.value).Falsy? ==>
            !threw && ws.closed == Some((PolicyViolation, "Failed to authenticate")) && ws.user == old(ws.user))
      && (token.Some? && validate(token.value).Payload? ==>
            !threw && ws.user == Some(validate(token.value).userId) && ws.closed == old(ws.closed))
      && (token.Some? && validate(token.value).Threw? ==>
            threw && ws.user == old(ws.user) && ws.closed == old(ws.closed))
    ensures ws.user != old(ws.user) ==> ws.closed == old(ws.closed)
  {
    threw := false;
    var token := AccessTokenCookie(ws.cookies);
    if token.None? {
      ws.closed := Some((PolicyViolation, "Failed to authenticate"));
      return;
    }
    var valid := validate(token.value);
    if valid.Threw? {
      return true;
    }
    if valid.Falsy? {
      ws.closed := Some((PolicyViolation, "Failed to authenticate"));
      return;
    }
    ws.user := Some(valid.userId);
  }
}
