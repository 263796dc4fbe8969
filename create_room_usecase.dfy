/**
 * `createRoom`: reuse the existing private chat of two users, or create a
 * room and add every listed user to it, one insert after another.
 */
module CreateRoomUseCase {
  import opened Wrappers
  import opened Schema
  import opened RoomRepository

  datatype CreateRoomRequest = CreateRoomRequest(name: Option<string>, userIds: seq<Id>, isPrivate: Option<bool>)

  /** A JavaScript property read: missing (`undefined`), `null`, or a value. */
  datatype Field<T> = Undefined | Null | Value(value: T)

  function FromNullable<T>(x: Option<T>): (f: Field<T>)
    ensures f != Undefined
  {
    if x.Some? then Value(x.value) else Null
  }

  /** The `room` object of the response. */
  datatype RoomView = RoomView(id: Id, name: Field<string>, createdAt: Field<nat>, updatedAt: Field<nat>)

  datatype CreateRoomResult = Success(room: RoomView) | Failure(error: Error)

  /** The response built from a stored room row. */
  function ViewOf(row: Room): (v: RoomView)
    ensures v.id == row.id && v.name == FromNullable(row.name)
    ensures v.createdAt == Value(row.createdAt) && v.updatedAt == Value(row.updatedAt)
  {
    RoomView(row.id, FromNullable(row.name), Value(row.createdAt), Value(row.updatedAt))
  }

  /**
   * The response built, as written, from what `RoomRepository.create`
   * returns: that object has only `id` and `username`, so `name`,
   * `createdAt` and `updatedAt` read as `undefined`.
   */
  function NewRoomView(inserted: InsertedRoom): (v: RoomView)
    ensures v.id == inserted.id
    ensures forall row: Room :: v != ViewOf(row)
  {
    RoomView(inserted.id, Undefined, Undefined, Undefined)
  }

  /**
   * As written, whatever name the room was created with, the response has no
   * name and no dates, so it differs from the response built from the stored row.
   */
  lemma NewRoomViewLosesName(id: Id, name: Option<string>, now: nat)
    ensures NewRoomView(InsertedRoom(id, name)).name == Undefined
    ensures NewRoomView(InsertedRoom(id, name)).createdAt == Undefined
    ensures NewRoomView(InsertedRoom(id, name)) != ViewOf(Room(id, name, now, now))
  {
    assert NewRoomView(InsertedRoom(id, name)).createdAt != ViewOf(Room(id, name, now, now)).createdAt;
  }

  /** Built from the inserted row, a new room's response carries the requested name (or null) and the dates. */
  lemma CreatedRoomViewCarriesRow(id: Id, name: Option<string>, now: nat)
    ensures ViewOf(Room(id, name, now, now)) == RoomView(id, FromNullable(name), Value(now), Value(now))
    ensures name.Some? ==> ViewOf(Room(id, name, now, now)).name == Value(name.value)
  {
  }

  /** The early return: private, exactly two users, and a room both already belong to. */
  predicate ReusesPrivateChat(req: CreateRoomRequest, rs: seq<Room>, urs: seq<UserRoom>) {
    req.isPrivate == Some(true) && |req.userIds| == 2
    && GetPrivateChat(rs, urs, req.userIds[0], req.userIds[1]).Some?
  }

  /**
   * `isPrivate` with any other number of users than two never meets
   * `ReusesPrivateChat`; that such a request then creates a new room is
   * `CreateRoom`'s ensures.
   */
  lemma PrivateNeedsTwoUsers(req: CreateRoomRequest, rs: seq<Room>, urs: seq<UserRoom>)
    requires |req.userIds| != 2
    ensures !ReusesPrivateChat(req, rs, urs)
  {
  }

  /** The k-th listed user can be added to the new room: it exists and was not listed before. */
  predicate Addable(userIds: seq<Id>, us: seq<User>, k: nat)
    requires k < |userIds|
  {
    userIds[k] in UserIds(us) && userIds[k] !in userIds[..k]
  }

  /** `added` are memberships of `userIds`, in list order, in room `roomId`. */
  predicate AddedInOrder(added: seq<UserRoom>, userIds: seq<Id>, roomId: Id, now: nat) {
    |added| == |userIds|
    && forall k | 0 <= k < |added| :: added[k] == Membership(added[k].id, userIds[k], roomId, now)
  }

  lemma AddedInOrderSnoc(added: seq<UserRoom>, userIds: seq<Id>, i: nat, roomId: Id, now: nat, row: UserRoom)
    requires i < |userIds| && AddedInOrder(added, userIds[..i], roomId, now)
    requires row == Membership(row.id, userIds[i], roomId, now)
    ensures AddedInOrder(added + [row], userIds[..i + 1], roomId, now)
  {
  }

  /** Every one of the first `n` listed users is addable. */
  predicate AllAddable(userIds: seq<Id>, us: seq<User>, n: nat)
    requires n <= |userIds|
  {
    forall j | 0 <= j < n :: Addable(userIds, us, j)
  }

  lemma AllAddableSnoc(userIds: seq<Id>, us: seq<User>, n: nat)
    requires n < |userIds| && AllAddable(userIds, us, n) && Addable(userIds, us, n)
    ensures AllAddable(userIds, us, n + 1)
  {
  }

  lemma SnocAssociates(base: seq<UserRoom>, added: seq<UserRoom>, row: UserRoom)
    ensures (base + added) + [row] == base + (added + [row])
  {
  }

  lemma SuffixAfterBase(base: seq<UserRoom>, added: seq<UserRoom>)
    ensures (base + added)[..|base|] == base && (base + added)[|base|..] == added
  {
  }

  lemma NewRoomMembers(base: seq<UserRoom>, added: seq<UserRoom>, userIds: seq<Id>, roomId: Id, now: nat, u: Id)
    requires forall m | m in base :: m.roomId != roomId
    requires AddedInOrder(added, userIds, roomId, now)
    ensures IsMember(base + added, roomId, u) <==> u in userIds
  {
    if u in userIds {
      var k :| 0 <= k < |userIds| && userIds[k] == u;
      assert (base + added)[|base| + k] == added[k];
    }
    if IsMember(base + added, roomId, u) {
      var m :| m in base + added && m.roomId == roomId && m.userId == u;
      var k :| 0 <= k < |added| && added[k] == m;
    }
  }

  /** The loop of `createRoom`: add every listed user, in order, stopping at the first insert that throws. */
  method AddMembers(db: Database, userIds: seq<Id>, roomId: Id, now: nat) returns (r: Result<(), Error>)
    requires db.Valid()
    requires roomId in RoomIds(db.rooms)
    requires forall m | m in db.userRooms :: m.roomId != roomId
    modifies db, db.snowflake
    ensures db.Valid()
    ensures unchanged(db`users, db`rooms, db`messages)
    ensures |db.userRooms| >= |old(db.userRooms)|
    ensures db.userRooms[..|old(db.userRooms)|] == old(db.userRooms)
    ensures r.Ok? <==> forall k | 0 <= k < |userIds| :: Addable(userIds, old(db.users), k)
    ensures r.Ok? ==> AddedInOrder(db.userRooms[|old(db.userRooms)|..], userIds, roomId, now)
    ensures r.Err? ==> exists k | 0 <= k < |userIds| ::
      && !Addable(userIds, old(db.users), k)
      && (forall j | 0 <= j < k :: Addable(userIds, old(db.users), j))
      && AddedInOrder(db.userRooms[|old(db.userRooms)|..], userIds[..k], roomId, now)
  {
    ghost var base := db.userRooms;
    ghost var us := db.users;
    ghost var added: seq<UserRoom> := [];
    var i := 0;
    while i < |userIds|
      invariant 0 <= i <= |userIds|
      invariant db.Valid()
      invariant unchanged(db`users, db`rooms, db`messages)
      invariant db.userRooms == base + added
      invariant AddedInOrder(added, userIds[..i], roomId, now)
      invariant AllAddable(userIds, us, i)
    {
      NewRoomMembers(base, added, userIds[..i], roomId, now, userIds[i]);
      var inserted := AddUserToRoom(db, userIds[i], roomId, now);
      if inserted.Err? {
        assert !Addable(userIds, us, i);
        SuffixAfterBase(base, added);
        return Err(inserted.error);
      }
      assert Addable(userIds, us, i);
      AllAddableSnoc(userIds, us, i);
      ghost var row := db.userRooms[|base + added|];
      AddedInOrderSnoc(added, userIds, i, roomId, now, row);
      SnocAssociates(base, added, row);
      added := added + [row];
      i := i + 1;
    }
    assert userIds[..i] == userIds;
    SuffixAfterBase(base, added);
    r := Ok(());
  }

  /**
   * `createRoom`. The response for a reused chat is built from its row; the
   * response for a new room from what `RoomRepository.create` returned.
   */
  method CreateRoom(db: Database, room: CreateRoomRequest, now: nat) returns (r: CreateRoomResult)
    requires db.Valid()
    modifies db, db.snowflake
    ensures db.Valid()
    ensures unchanged(db`users, db`messages)
    ensures ReusesPrivateChat(room, old(db.rooms), old(db.userRooms)) ==>
      && r == Success(ViewOf(GetPrivateChat(old(db.rooms), old(db.userRooms), room.userIds[0], room.userIds[1]).value))
      && db.rooms == old(db.rooms) && db.userRooms == old(db.userRooms)
    ensures !ReusesPrivateChat(room, old(db.rooms), old(db.userRooms)) ==>
      && |db.rooms| == |old(db.rooms)| + 1
      && var newId := db.rooms[|old(db.rooms)|].id;
      && newId !in RoomIds(old(db.rooms))
      && db.rooms == old(db.rooms) + [Room(newId, room.name, now, now)]
      && |db.userRooms| >= |old(db.userRooms)|
      && db.userRooms[..|old(db.userRooms)|] == old(db.userRooms)
      && var added := db.userRooms[|old(db.userRooms)|..];
      && (r.Success? <==> forall k | 0 <= k < |room.userIds| :: Addable(room.userIds, old(db.users), k))
      && (r.Success? ==> r.room == NewRoomView(InsertedRoom(newId, room.name))
                         && AddedInOrder(added, room.userIds, newId, now))
      && (r.Failure? ==> exists k | 0 <= k < |room.userIds| ::
            && !Addable(room.userIds, old(db.users), k)
            && (forall j | 0 <= j < k :: Addable(room.userIds, old(db.users), j))
            && AddedInOrder(added, room.userIds[..k], newId, now))
  {
    if room.isPrivate == Some(true) && |room.userIds| == 2 {
      var existingRoom := GetPrivateChat(db.rooms, db.userRooms, room.userIds[0], room.userIds[1]);
      if existingRoom.Some? {
        return Success(ViewOf(existingRoom.value));
      }
    }
    var newRoom := Create(db, room.name, now);
    assert forall m | m in db.userRooms :: m.roomId != newRoom.id;
    assert newRoom.id in RoomIds(db.rooms) by {
      assert db.rooms[|db.rooms| - 1].id == newRoom.id;
    }
    var added := AddMembers(db, room.userIds, newRoom.id, now);
    if added.Err? {
      return Failure(added.error);
    }
    r := Success(NewRoomView(newRoom));
  }
}
