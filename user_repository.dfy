/**
 * `UserRepository`: inserting users, looking them up by email, username and
 * id, writing a changed user back, and projecting a user to its profile.
 */
module UserRepository {
  import opened Wrappers
  import opened Schema
  import opened Tables

  datatype CreateUserParams = CreateUserParams(username: string, email: string, password: string)

  /** What `create` returns: the columns named in its `returning` clause. */
  datatype CreatedUser = CreatedUser(id: Id, username: string)

  /** The public view of a user. */
  datatype Profile = Profile(
    username: string, id: Id, avatar: Option<string>, createdAt: nat, isActive: bool, role: string)

  /** Some stored user already has this username or this email. */
  predicate Taken(us: seq<User>, username: string, email: string) {
    exists u | u in us :: u.username == username || u.email == email
  }

  /** The row `create` inserts, with the column defaults the schema supplies. */
  function NewUser(id: Id, params: CreateUserParams, now: nat): User {
    User(id, params.username, params.email, None, params.password, Some(now), Some(true), Some("user"))
  }

  method Create(db: Database, user: CreateUserParams, now: nat) returns (r: Result<CreatedUser, Error>)
    requires db.Valid()
    modifies db, db.snowflake
    ensures db.Valid()
    ensures unchanged(db`rooms, db`userRooms, db`messages)
    ensures r.Err? <==> Taken(old(db.users), user.username, user.email)
    ensures r.Err? ==> r.error == Thrown("Username or email is already in use") && db.users == old(db.users)
    ensures r.Ok? ==> r.value.username == user.username && r.value.id !in UserIds(old(db.users))
    ensures r.Ok? ==> db.users == old(db.users) + [NewUser(r.value.id, user, now)]
  {
    if Taken(db.users, user.username, user.email) {
      return Err(Thrown("Username or email is already in use"));
    }
    ghost var issued := db.snowflake.issued;
    var id := db.snowflake.Generate();
    var row := NewUser(id, user, now);
    InsertUserKeepsTables(db.users, db.rooms, db.userRooms, db.messages, issued, row);
    db.SetUsers(db.users + [row]);
    r := Ok(CreatedUser(id, user.username));
  }

  lemma InsertUserKeepsTables(us: seq<User>, rs: seq<Room>, urs: seq<UserRoom>, ms: seq<Message>,
                              issued: set<Id>, u: User)
    requires TablesValid(us, rs, urs, ms, issued) && u.id !in issued && !Taken(us, u.username, u.email)
    ensures TablesValid(us + [u], rs, urs, ms, issued + {u.id})
  {
    AppendUserValid(us, u);
    ReferencesGrow(urs, ms, us, rs, us + [u], rs);
  }

  lemma AppendUserValid(us: seq<User>, u: User)
    requires UsersValid(us) && u.id !in UserIds(us) && !Taken(us, u.username, u.email)
    ensures UsersValid(us + [u])
    ensures UserIds(us + [u]) == UserIds(us) + {u.id}
  {
    var r := us + [u];
    forall i, j | 0 <= i < j < |r|
      ensures r[i].id != r[j].id && r[i].username != r[j].username && r[i].email != r[j].email
    {
      if j == |us| { assert r[i] in us; }
    }
  }

  function GetByEmail(us: seq<User>, email: string): (r: Option<User>)
    ensures r.Some? ==> r.value in us && r.value.email == email
    ensures r.None? <==> forall u | u in us :: u.email != email
  {
    First(us, (u: User) => u.email == email)
  }

  function GetByUsername(us: seq<User>, username: string): (r: seq<User>)
    ensures forall u | u in r :: u in us && u.username == username
    ensures forall u | u in us && u.username == username :: u in r
  {
    Where(us, (u: User) => u.username == username)
  }

  function GetById(us: seq<User>, id: Id): (r: Option<User>)
    ensures r.Some? ==> r.value in us && r.value.id == id
    ensures r.None? <==> id !in UserIds(us)
  {
    First(us, (u: User) => u.id == id)
  }

  /** With unique emails there is at most one match, so "the first" is "the" user with that email. */
  lemma GetByEmailUnique(us: seq<User>, u: User)
    requires UsersValid(us) && u in us
    ensures GetByEmail(us, u.email) == Some(u)
  {
    var r := GetByEmail(us, u.email);
    var i :| 0 <= i < |us| && us[i] == u;
    var j :| 0 <= j < |us| && us[j] == r.value;
  }

  /** With unique ids, `getById` finds exactly the row with that id. */
  lemma GetByIdUnique(us: seq<User>, u: User)
    requires UsersValid(us) && u in us
    ensures GetById(us, u.id) == Some(u)
  {
    var r := GetById(us, u.id);
    var i :| 0 <= i < |us| && us[i] == u;
    var j :| 0 <= j < |us| && us[j] == r.value;
  }

  /** `update ... set(user) where id = user.id`: every row with that id becomes `user`. */
  function ReplaceById(us: seq<User>, user: User): (r: seq<User>)
    ensures |r| == |us| && forall i | 0 <= i < |us| :: r[i].id == us[i].id
    ensures user.id in UserIds(us) <==> user in r
  {
    var r := seq(|us|, i requires 0 <= i < |us| => if us[i].id == user.id then user else us[i]);
    assert user.id in UserIds(us) ==> user in r by {
      if user.id in UserIds(us) {
        var i :| 0 <= i < |us| && us[i].id == user.id;
        assert r[i] == user;
      }
    }
    assert user in r ==> user.id in UserIds(us) by {
      if user in r {
        var i :| 0 <= i < |r| && r[i] == user;
        assert us[i].id == user.id;
      }
    }
    r
  }

  /** Only the row with the given id changes, and it becomes the given user. */
  lemma ReplaceByIdRows(us: seq<User>, user: User, i: nat)
    requires i < |us|
    ensures |ReplaceById(us, user)| == |us|
    ensures us[i].id == user.id ==> ReplaceById(us, user)[i] == user
    ensures us[i].id != user.id ==> ReplaceById(us, user)[i] == us[i]
  {
  }

  lemma ReplaceByIdKeepsIds(us: seq<User>, user: User)
    ensures UserIds(ReplaceById(us, user)) == UserIds(us)
  {
    var r := ReplaceById(us, user);
    forall id | id in UserIds(r) ensures id in UserIds(us) {
      var i :| 0 <= i < |r| && r[i].id == id;
    }
    forall id | id in UserIds(us) ensures id in UserIds(r) {
      var i :| 0 <= i < |us| && us[i].id == id;
      assert r[i].id == id;
    }
  }

  /** The update would give `user` the username or email of a different stored user. */
  predicate Conflicts(us: seq<User>, user: User) {
    exists u | u in us :: u.id != user.id && (u.username == user.username || u.email == user.email)
  }

  lemma ReplaceByIdValid(us: seq<User>, user: User)
    requires UsersValid(us) && !Conflicts(us, user)
    ensures UsersValid(ReplaceById(us, user))
  {
    var r := ReplaceById(us, user);
    forall i, j | 0 <= i < j < |r|
      ensures r[i].id != r[j].id && r[i].username != r[j].username && r[i].email != r[j].email
    {
      assert us[i] in us && us[j] in us;
    }
  }

  method Update(db: Database, user: User) returns (r: Result<(), Error>)
    requires db.Valid()
    modifies db
    ensures db.Valid()
    ensures unchanged(db`rooms, db`userRooms, db`messages)
    ensures r.Err? <==> user.id in UserIds(old(db.users)) && Conflicts(old(db.users), user)
    ensures r.Err? ==> unchanged(db`users)
    ensures r.Ok? ==> db.users == ReplaceById(old(db.users), user)
  {
    if user.id in UserIds(db.users) && Conflicts(db.users, user) {
      var clash :| clash in db.users && clash.id != user.id
                  && (clash.username == user.username || clash.email == user.email);
      if clash.username == user.username {
        return Err(Violation(UniqueUsername));
      }
      return Err(Violation(UniqueEmail));
    }
    if user.id !in UserIds(db.users) {
      assert ReplaceById(db.users, user) == db.users;
    } else {
      ReplaceByIdValid(db.users, user);
    }
    ReplaceByIdKeepsIds(db.users, user);
    db.users := ReplaceById(db.users, user);
    r := Ok(());
  }

  /** `toProfile`: copies username, id and avatar; `??` defaults for the nullable columns. */
  function ToProfile(user: User, now: nat): (p: Profile)
    ensures p.username == user.username && p.id == user.id && p.avatar == user.avatar
    ensures p.createdAt == (if user.createdAt.Some? then user.createdAt.value else now)
    ensures p.isActive == (user.isActive != Some(false))
    ensures p.role == (if user.role.Some? then user.role.value else "user")
  {
    Profile(
      user.username, user.id, user.avatar,
      user.createdAt.GetOr(now), user.isActive.GetOr(true), user.role.GetOr("user"))
  }

  /** A freshly created user is active, has role "user", no avatar, and was created now. */
  lemma NewUserProfile(id: Id, params: CreateUserParams, now: nat, later: nat)
    ensures ToProfile(NewUser(id, params, now), later)
         == Profile(params.username, id, None, now, true, "user")
  {
  }
}
