/** `getProfileUseCase`: look a user up by id and project it to its profile. */
module ProfileUseCase {
  import opened Wrappers
  import opened Schema
  import opened UserRepository

  /** `now` is the `new Date()` used when `createdAt` is null. */
  function GetProfile(us: seq<User>, userId: Id, now: nat): (r: Result<Profile, Error>)
    ensures r.Err? <==> userId !in UserIds(us)
    ensures r.Err? ==> r.error == Thrown("User not found")
    ensures r.Ok? ==> r.value.id == userId
  {
    match GetById(us, userId)
    case None => Err(Thrown("User not found"))
    case Some(user) =>
      Ok(Profile(
        user.username, user.id, user.avatar,
        user.createdAt.GetOr(now), user.isActive.GetOr(true), user.role.GetOr("user")))
  }

  /** The use case builds, field for field, the same profile as `UserRepository.toProfile`. */
  lemma GetProfileAgreesWithToProfile(us: seq<User>, user: User, now: nat)
    requires UsersValid(us) && user in us
    ensures GetProfile(us, user.id, now) == Ok(ToProfile(user, now))
  {
    GetByIdUnique(us, user);
  }
}
