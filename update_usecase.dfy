/**
 * `updateProfileUseCase`: fetch the user, overwrite the supplied fields one by
 * one, write the user back and return its profile.
 */
module UpdateProfileUseCase {
  import opened Wrappers
  import opened Schema
  import opened UserRepository

  /** `None` in a field means the request left it out. */
  datatype UpdateProfileRequest = UpdateProfileRequest(
    userId: Id, username: Option<string>, avatar: Option<string>, role: Option<string>)

  /** The fetched user with every supplied field overwritten. */
  function ApplyUpdates(user: User, req: UpdateProfileRequest): (u: User)
    ensures u.id == user.id && u.email == user.email && u.passwordHash == user.passwordHash
    ensures u.createdAt == user.createdAt && u.isActive == user.isActive
    ensures req.username.Some? ==> u.username == req.username.value
    ensures req.username.None? ==> u.username == user.username
    ensures req.avatar.Some? ==> u.avatar == req.avatar
    ensures req.avatar.None? ==> u.avatar == user.avatar
    ensures req.role.Some? ==> u.role == req.role
    ensures req.role.None? ==> u.role == user.role
  {
    user.(
      username := req.username.GetOr(user.username),
      avatar := if req.avatar.Some? then req.avatar else user.avatar,
      role := if req.role.Some? then req.role else user.role)
  }

  /** The `user` table after the use case ran: unchanged when it throws. */
  function StoredAfter(us: seq<User>, req: UpdateProfileRequest): (after: seq<User>)
    ensures |after| == |us| && UserIds(after) == UserIds(us)
    ensures req.userId !in UserIds(us) ==> after == us
    ensures forall i | 0 <= i < |us| && us[i].id != req.userId :: after[i] == us[i]
  {
    match GetById(us, req.userId)
    case None => us
    case Some(user) =>
      var updated := ApplyUpdates(user, req);
      if Conflicts(us, updated) then us
      else
        ReplaceByIdKeepsIds(us, updated);
        ReplaceById(us, updated)
  }

  method UpdateProfile(db: Database, req: UpdateProfileRequest, now: nat) returns (r: Result<Profile, Error>)
    requires db.Valid()
    modifies db
    ensures db.Valid()
    ensures unchanged(db`rooms, db`userRooms, db`messages)
    ensures db.users == StoredAfter(old(db.users), req)
    ensures req.userId !in UserIds(old(db.users)) ==> r == Err(Thrown("User not found"))
    ensures req.userId in UserIds(old(db.users)) ==>
      var updated := ApplyUpdates(GetById(old(db.users), req.userId).value, req);
      (r.Err? <==> Conflicts(old(db.users), updated)) &&
      (r.Ok? ==> r.value == ToProfile(updated, now))
  {
    var found := GetById(db.users, req.userId);
    if found.None? {
      return Err(Thrown("User not found"));
    }
    var user := found.value;
    if req.username.Some? {
      user := user.(username := req.username.value);
    }
    if req.avatar.Some? {
      user := user.(avatar := req.avatar);
    }
    if req.role.Some? {
      user := user.(role := req.role);
    }
    assert user == ApplyUpdates(found.value, req);
    var written := Update(db, user);
    if written.Err? {
      return Err(written.error);
    }
    r := Ok(ToProfile(user, now));
  }

  /** No row another user holds conflicts after the update, because none did before. */
  lemma NoConflictAfterReplace(us: seq<User>, updated: User)
    requires !Conflicts(us, updated)
    ensures !Conflicts(ReplaceById(us, updated), updated)
  {
    var after := ReplaceById(us, updated);
    forall u | u in after && u.id != updated.id
      ensures u.username != updated.username && u.email != updated.email
    {
      var i :| 0 <= i < |after| && after[i] == u;
      assert us[i] in us;
    }
  }

  lemma ReplaceByIdIdempotent(us: seq<User>, user: User)
    ensures ReplaceById(ReplaceById(us, user), user) == ReplaceById(us, user)
  {
  }

  /** Sending the same update twice leaves the same stored state as sending it once. */
  lemma {:induction false} UpdateTwiceIsOnce(us: seq<User>, req: UpdateProfileRequest)
    requires UsersValid(us)
    ensures StoredAfter(StoredAfter(us, req), req) == StoredAfter(us, req)
  {
    var found := GetById(us, req.userId);
    if found.Some? {
      var updated := ApplyUpdates(found.value, req);
      if !Conflicts(us, updated) {
        var after := ReplaceById(us, updated);
        ReplaceByIdValid(us, updated);
        var i :| 0 <= i < |us| && us[i] == found.value;
        assert after[i] == updated;
        GetByIdUnique(after, updated);
        assert ApplyUpdates(updated, req) == updated;
        NoConflictAfterReplace(us, updated);
        ReplaceByIdIdempotent(us, updated);
      }
    }
  }
}
