/**
 * `registerUseCase`: refuse an email that is already registered, replace the
 * request's password by its hash in place, and create the user.
 */
module RegisterUseCase {
  import opened Wrappers
  import opened Schema
  import opened UserRepository

  /** The request body; the use case overwrites its `password` field. */
  class RegisterUserRequest {
    var username: string
    var email: string
    var password: string

    constructor (username: string, email: string, password: string)
      ensures this.username == username && this.email == email && this.password == password
    {
      this.username, this.email, this.password := username, email, password;
    }
  }

  datatype RegisterUserResponse = RegisterUserResponse(id: Id, username: string)

  /**
   * `hash` stands for `Bun.password.hash`; `now` for the clock the column
   * defaults read.
   */
  method Register(db: Database, userData: RegisterUserRequest, hash: string -> string, now: nat)
    returns (r: Result<RegisterUserResponse, Error>)
    requires db.Valid()
    modifies db, db.snowflake, userData`password
    ensures db.Valid()
    ensures unchanged(db`rooms, db`userRooms, db`messages)
    ensures GetByEmail(old(db.users), userData.email).Some? ==>
      r == Err(Thrown("Account already exists")) && db.users == old(db.users)
      && userData.password == old(userData.password)
    ensures GetByEmail(old(db.users), userData.email).None? ==>
      userData.password == hash(old(userData.password))
      && (r.Err? <==> Taken(old(db.users), userData.username, userData.email))
    ensures r.Err? ==> unchanged(db`users)
    ensures r.Ok? ==> r.value.username == userData.username && r.value.id !in UserIds(old(db.users))
    ensures r.Ok? ==> db.users == old(db.users) + [NewUser(r.value.id,
      CreateUserParams(userData.username, userData.email, hash(old(userData.password))), now)]
  {
    var existing := GetByEmail(db.users, userData.email);
    if existing.Some? {
      return Err(Thrown("Account already exists"));
    }
    userData.password := hash(userData.password);
    var created := Create(db, CreateUserParams(userData.username, userData.email, userData.password), now);
    if created.Err? {
      return Err(created.error);
    }
    r := Ok(RegisterUserResponse(created.value.id, created.value.username));
  }

  /**
   * A taken username makes the request `Taken` whatever its email, so even
   * when the email check passes; the refusal itself is `UserRepository.Create`'s
   * ensures, which `Register` passes on.
   */
  lemma DuplicateUsernameRefused(us: seq<User>, username: string, email: string)
    requires exists u | u in us :: u.username == username
    ensures Taken(us, username, email)
  {
  }
}
