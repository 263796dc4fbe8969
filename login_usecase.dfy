/**
 * `loginUseCase`: check the credentials, then issue a token pair and set the
 * `refresh_token` and `access_token` cookies.
 */
module LoginUseCase {
  import opened Wrappers
  import opened Schema
  import opened UserRepository

  datatype LoginUserRequest = LoginUserRequest(email: string, password: string)
  datatype LoginUserResponse = LoginUserResponse(id: Id, username: string)

  /** What `Token.generate` returns. */
  datatype TokenPair = TokenPair(accessToken: string, refreshToken: string)

  /** A cookie as `cookie[name].set` receives it; `maxAge` is absent for a session cookie. */
  datatype Cookie = Cookie(
    value: string, path: string, httpOnly: bool, sameSite: string, secure: bool, maxAge: Option<int>)

  /** The options both cookies share. */
  predicate CommonOptions(c: Cookie) {
    c.path == "/" && c.httpOnly && c.sameSite == "none" && c.secure
  }

  function RefreshCookie(token: string, maxAge: int): (c: Cookie)
    ensures CommonOptions(c) && c.value == token && c.maxAge == Some(maxAge)
  {
    Cookie(token, "/", true, "none", true, Some(maxAge))
  }

  function AccessCookie(token: string): (c: Cookie)
    ensures CommonOptions(c) && c.value == token && c.maxAge.None?
  {
    Cookie(token, "/", true, "none", true, None)
  }

  /** The response's cookie jar. */
  class CookieJar {
    var cookies: map<string, Cookie>

    constructor ()
      ensures cookies == map[]
    {
      cookies := map[];
    }
  }

  /** The two guards: a user with this email exists, and `verify` accepts the password against its hash. */
  function CheckCredentials(us: seq<User>, req: LoginUserRequest, verify: (string, string) -> bool)
    : (r: Result<User, Error>)
    ensures r.Err? ==> r.error == Thrown("Invalid credentials")
    ensures r.Ok? ==> r.value in us && r.value.email == req.email && verify(req.password, r.value.passwordHash)
  {
    match GetByEmail(us, req.email)
    case None => Err(Thrown("Invalid credentials"))
    case Some(user) =>
      if verify(req.password, user.passwordHash) then Ok(user) else Err(Thrown("Invalid credentials"))
  }

  /**
   * With unique emails, login is refused exactly when no stored user has this
   * email with a hash that `verify` accepts for this password; an unknown
   * email and a wrong password are indistinguishable.
   */
  lemma CheckCredentialsFailsIff(us: seq<User>, req: LoginUserRequest, verify: (string, string) -> bool)
    requires UsersValid(us)
    ensures CheckCredentials(us, req, verify).Err?
        <==> forall u | u in us && u.email == req.email :: !verify(req.password, u.passwordHash)
  {
    var found := GetByEmail(us, req.email);
    if found.Some? {
      forall u | u in us && u.email == req.email ensures u == found.value {
        GetByEmailUnique(us, u);
      }
    }
  }

  /**
   * `verify` stands for `Bun.password.verify`, `generate` for `Token.generate`
   * and `refreshMaxAge` for `Token.getExpiryInMs(Token.REFRESH_EXPIRY)`.
   */
  method Login(db: Database, loginData: LoginUserRequest, jar: CookieJar,
               verify: (string, string) -> bool, generate: Id -> TokenPair, refreshMaxAge: int)
    returns (r: Result<LoginUserResponse, Error>)
    modifies jar
    ensures r.Err? <==> CheckCredentials(db.users, loginData, verify).Err?
    ensures r.Err? ==> r.error == Thrown("Invalid credentials") && jar.cookies == old(jar.cookies)
    ensures r.Ok? ==>
      var user := CheckCredentials(db.users, loginData, verify).value;
      var tokens := generate(user.id);
      && r.value == LoginUserResponse(user.id, user.username)
      && jar.cookies == old(jar.cookies)["refresh_token" := RefreshCookie(tokens.refreshToken, refreshMaxAge)]
                                        ["access_token" := AccessCookie(tokens.accessToken)]
  {
    var user := GetByEmail(db.users, loginData.email);
    if user.None? {
      return Err(Thrown("Invalid credentials"));
    }
    var isPasswordValid := verify(loginData.password, user.value.passwordHash);
    if !isPasswordValid {
      return Err(Thrown("Invalid credentials"));
    }
    var id, username := user.value.id, user.value.username;
    var token := generate(id);
    jar.cookies := jar.cookies["refresh_token" := RefreshCookie(token.refreshToken, refreshMaxAge)];
    jar.cookies := jar.cookies["access_token" := AccessCookie(token.accessToken)];
    r := Ok(LoginUserResponse(id, username));
  }

  /**
   * Register then log in: the user that registration appends is found by its
   * email, and its stored hash is what `verify` is checked against.
   */
  lemma RegisteredUserCanLogIn(us: seq<User>, id: Id, params: CreateUserParams, now: nat,
                               hash: string -> string, verify: (string, string) -> bool, password: string)
    requires params.password == hash(password)
    requires UsersValid(us + [NewUser(id, params, now)])
    requires verify(password, hash(password))
    ensures CheckCredentials(us + [NewUser(id, params, now)], LoginUserRequest(params.email, password), verify)
         == Ok(NewUser(id, params, now))
  {
    var row := NewUser(id, params, now);
    assert row in us + [row];
    GetByEmailUnique(us + [row], row);
  }
}
