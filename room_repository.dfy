/**
 * `RoomRepository`: inserting rooms and memberships, looking rooms up, and
 * finding the private chat two users share.
 */
module RoomRepository {
  import opened Wrappers
  import opened Schema
  import opened Tables
  import Strings

  /**
   * What `create` returns: its `returning` clause asks for the id, and for the
   * name under the key `username`.
   */
  datatype InsertedRoom = InsertedRoom(id: Id, username: Option<string>)

  method Create(db: Database, name: Option<string>, now: nat) returns (r: InsertedRoom)
    requires db.Valid()
    modifies db, db.snowflake
    ensures db.Valid()
    ensures unchanged(db`users, db`userRooms, db`messages)
    ensures r.id !in old(db.snowflake.issued) && r.id !in RoomIds(old(db.rooms))
    ensures db.rooms == old(db.rooms) + [Room(r.id, name, now, now)]
    ensures r.username == name
  {
    ghost var issued := db.snowflake.issued;
    var id := db.snowflake.Generate();
    var row := Room(id, name, now, now);
    InsertRoomKeepsTables(db.users, db.rooms, db.userRooms, db.messages, issued, row);
    db.SetRooms(db.rooms + [row]);
    r := InsertedRoom(id, name);
  }

  lemma InsertRoomKeepsTables(us: seq<User>, rs: seq<Room>, urs: seq<UserRoom>, ms: seq<Message>,
                              issued: set<Id>, x: Room)
    requires TablesValid(us, rs, urs, ms, issued) && x.id !in issued
    ensures TablesValid(us, rs + [x], urs, ms, issued + {x.id}) && RoomIds(rs + [x]) == RoomIds(rs) + {x.id}
  {
    AppendRoomValid(rs, x);
    ReferencesGrow(urs, ms, us, rs, us, rs + [x]);
  }

  lemma AppendRoomValid(rs: seq<Room>, x: Room)
    requires RoomsValid(rs) && x.id !in RoomIds(rs)
    ensures RoomsValid(rs + [x]) && RoomIds(rs + [x]) == RoomIds(rs) + {x.id}
  {
    var r := rs + [x];
    forall i, j | 0 <= i < j < |r| ensures r[i].id != r[j].id {
      if j == |rs| { assert r[i] in rs; }
    }
  }

  function GetByName(rs: seq<Room>, name: string): (r: seq<Room>)
    ensures forall x | x in r :: x in rs && x.name == Some(name)
    ensures forall x | x in rs && x.name == Some(name) :: x in r
  {
    Where(rs, (x: Room) => x.name == Some(name))
  }

  function GetById(rs: seq<Room>, id: Id): (r: Option<Room>)
    ensures r.Some? ==> r.value in rs && r.value.id == id
    ensures r.None? <==> id !in RoomIds(rs)
  {
    First(rs, (x: Room) => x.id == id)
  }

  /** `user_room` holds a row putting `userId` in room `roomId`. */
  predicate IsMember(urs: seq<UserRoom>, roomId: Id, userId: Id) {
    exists m | m in urs :: m.roomId == roomId && m.userId == userId
  }

  /**
   * `getPrivateChat`: sort the two ids, then one room (limit 1, no order)
   * with a membership row for the smaller id and, by the `exists` sub-query,
   * one for the larger id. Which of several such rooms the database returns
   * is its choice; the model takes the first in table order, and the
   * contract promises only some such room.
   */
  function GetPrivateChat(rs: seq<Room>, urs: seq<UserRoom>, userId1: Id, userId2: Id): (r: Option<Room>)
    ensures r.Some? ==> r.value in rs && IsMember(urs, r.value.id, userId1) && IsMember(urs, r.value.id, userId2)
    ensures r.None? <==> forall x | x in rs :: !(IsMember(urs, x.id, userId1) && IsMember(urs, x.id, userId2))
  {
    var (smallerId, largerId) := Strings.Sort2(userId1, userId2);
    First(rs, (x: Room) => IsMember(urs, x.id, smallerId) && IsMember(urs, x.id, largerId))
  }

  /** The order the two users are given in does not matter. */
  lemma GetPrivateChatSymmetric(rs: seq<Room>, urs: seq<UserRoom>, a: Id, b: Id)
    ensures GetPrivateChat(rs, urs, a, b) == GetPrivateChat(rs, urs, b, a)
  {
    Strings.Sort2Symmetric(a, b);
  }

  /** The row `addUserToRoom` inserts. */
  function Membership(id: Id, userId: Id, roomId: Id, now: nat): UserRoom {
    UserRoom(id, userId, roomId, Some("member"), now)
  }

  /**
   * `addUserToRoom`: one membership with role "member". The database refuses
   * a second row for the same (userId, roomId) and rows naming a user or a
   * room that does not exist.
   */
  method AddUserToRoom(db: Database, userId: Id, roomId: Id, now: nat) returns (r: Result<(), Error>)
    requires db.Valid()
    modifies db, db.snowflake
    ensures db.Valid()
    ensures unchanged(db`users, db`rooms, db`messages)
    ensures r.Ok? <==> !IsMember(old(db.userRooms), roomId, userId)
                       && userId in UserIds(old(db.users)) && roomId in RoomIds(old(db.rooms))
    ensures IsMember(old(db.userRooms), roomId, userId) ==> r == Err(Violation(UniqueUserRoom))
    ensures r.Err? ==> unchanged(db`userRooms)
    ensures r.Ok? ==> |db.userRooms| == |old(db.userRooms)| + 1
    ensures r.Ok? ==> var id := db.userRooms[|old(db.userRooms)|].id;
      id !in UserRoomIds(old(db.userRooms))
      && db.userRooms == old(db.userRooms) + [Membership(id, userId, roomId, now)]
  {
    ghost var issued := db.snowflake.issued;
    var id := db.snowflake.Generate();
    if IsMember(db.userRooms, roomId, userId) {
      return Err(Violation(UniqueUserRoom));
    }
    if userId !in UserIds(db.users) {
      return Err(Violation(ForeignKey("user_room", "user_id")));
    }
    if roomId !in RoomIds(db.rooms) {
      return Err(Violation(ForeignKey("user_room", "room_id")));
    }
    var row := Membership(id, userId, roomId, now);
    InsertMembershipKeepsTables(db.users, db.rooms, db.userRooms, db.messages, issued, row);
    db.SetUserRooms(db.userRooms + [row]);
    r := Ok(());
  }

  lemma InsertMembershipKeepsTables(us: seq<User>, rs: seq<Room>, urs: seq<UserRoom>, ms: seq<Message>,
                                    issued: set<Id>, m: UserRoom)
    requires TablesValid(us, rs, urs, ms, issued) && m.id !in issued && !IsMember(urs, m.roomId, m.userId)
    requires m.userId in UserIds(us) && m.roomId in RoomIds(rs)
    ensures TablesValid(us, rs, urs + [m], ms, issued + {m.id})
    ensures UserRoomIds(urs + [m]) == UserRoomIds(urs) + {m.id}
  {
    AppendMembershipValid(urs, us, rs, m);
  }

  lemma AppendMembershipValid(urs: seq<UserRoom>, us: seq<User>, rs: seq<Room>, m: UserRoom)
    requires UserRoomsValid(urs, us, rs)
    requires m.id !in UserRoomIds(urs) && !IsMember(urs, m.roomId, m.userId)
    requires m.userId in UserIds(us) && m.roomId in RoomIds(rs)
    ensures UserRoomsValid(urs + [m], us, rs)
    ensures UserRoomIds(urs + [m]) == UserRoomIds(urs) + {m.id}
  {
    var r := urs + [m];
    forall i, j | 0 <= i < j < |r|
      ensures r[i].id != r[j].id && (r[i].userId, r[i].roomId) != (r[j].userId, r[j].roomId)
    {
      if j == |urs| { assert r[i] in urs; }
    }
  }

  /**
   * After a membership is inserted, its pair is a member; `AddUserToRoom`'s
   * ensures refuses an insert for a pair that is already a member, so a
   * second insert of the same membership is always refused.
   */
  lemma SecondMembershipRefused(urs: seq<UserRoom>, m: UserRoom)
    ensures IsMember(urs + [m], m.roomId, m.userId)
  {
    assert m in urs + [m];
  }
}
