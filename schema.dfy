/**
 * Rows of the tables `user`, `room`, `user_room` and `message`, the
 * constraints the schema declares on them, and the errors the application
 * and the database raise.
 */
module Schema {
  import opened Wrappers

  /** Primary keys and foreign keys are text columns. */
  type Id = string

  /** A row of `user`. `createdAt`, `isActive` and `role` are nullable columns with defaults. */
  datatype User = User(
    id: Id,
    username: string,
    email: string,
    avatar: Option<string>,
    passwordHash: string,
    createdAt: Option<nat>,
    isActive: Option<bool>,
    role: Option<string>)

  /**
   * A row of `room`. The two date columns are nullable in the schema; the
   * model keeps them as `nat`, since every insert of the code sets both.
   */
  datatype Room = Room(id: Id, name: Option<string>, createdAt: nat, updatedAt: nat)

  /** A row of `user_room`: membership of a user in a room. */
  datatype UserRoom = UserRoom(id: Id, userId: Id, roomId: Id, role: Option<string>, joinedAt: nat)

  /**
   * A row of `message`; `channelId` is the room the message belongs to. The
   * two date columns are nullable in the schema; the model keeps them as
   * `nat`, since every insert of the code sets both.
   */
  datatype Message = Message(
    id: Id,
    content: string,
    authorId: Id,
    channelId: Id,
    createdAt: nat,
    updatedAt: nat,
    edited: bool)

  /** The constraint a rejected insert or update violated. */
  datatype Constraint =
    | UniqueUsername
    | UniqueEmail
    | UniqueUserRoom
    | NotNull(table: string, column: string)
    | ForeignKey(table: string, column: string)

  /** An exception: one the application throws with a message, or one the database raises. */
  datatype Error = Thrown(message: string) | Violation(constraint: Constraint)

  function UserIds(us: seq<User>): set<Id> { set u | u in us :: u.id }
  function RoomIds(rs: seq<Room>): set<Id> { set r | r in rs :: r.id }
  function UserRoomIds(urs: seq<UserRoom>): set<Id> { set m | m in urs :: m.id }
  function MessageIds(ms: seq<Message>): set<Id> { set m | m in ms :: m.id }

  /** Primary key, and `username` and `email` declared unique. */
  ghost predicate UsersValid(us: seq<User>) {
    forall i, j | 0 <= i < j < |us| ::
      us[i].id != us[j].id && us[i].username != us[j].username && us[i].email != us[j].email
  }

  ghost predicate RoomsValid(rs: seq<Room>) {
    forall i, j | 0 <= i < j < |rs| :: rs[i].id != rs[j].id
  }

  /** Primary key, the unique index on (userId, roomId), and both foreign keys. */
  ghost predicate UserRoomsValid(urs: seq<UserRoom>, us: seq<User>, rs: seq<Room>) {
    && (forall i, j | 0 <= i < j < |urs| ::
          urs[i].id != urs[j].id && (urs[i].userId, urs[i].roomId) != (urs[j].userId, urs[j].roomId))
    && (forall m | m in urs :: m.userId in UserIds(us) && m.roomId in RoomIds(rs))
  }

  /** The primary key of `message`. */
  predicate DistinctMessageIds(ms: seq<Message>) {
    forall i, j | 0 <= i < j < |ms| :: ms[i].id != ms[j].id
  }

  /** Primary key and the foreign keys on author and room. */
  ghost predicate MessagesValid(ms: seq<Message>, us: seq<User>, rs: seq<Room>) {
    && DistinctMessageIds(ms)
    && (forall m | m in ms :: m.authorId in UserIds(us) && m.channelId in RoomIds(rs))
  }

  /** Every declared constraint holds, and every row id is one of `issued`. */
  ghost predicate TablesValid(us: seq<User>, rs: seq<Room>, urs: seq<UserRoom>, ms: seq<Message>, issued: set<Id>) {
    && UsersValid(us)
    && RoomsValid(rs)
    && UserRoomsValid(urs, us, rs)
    && MessagesValid(ms, us, rs)
    && UserIds(us) + RoomIds(rs) + UserRoomIds(urs) + MessageIds(ms) <= issued
  }

  /** Foreign keys into `user` and `room` stay satisfied when those tables only gain ids. */
  lemma ReferencesGrow(urs: seq<UserRoom>, ms: seq<Message>, us: seq<User>, rs: seq<Room>,
                       us2: seq<User>, rs2: seq<Room>)
    requires UserIds(us) <= UserIds(us2) && RoomIds(rs) <= RoomIds(rs2)
    requires UserRoomsValid(urs, us, rs) && MessagesValid(ms, us, rs)
    ensures UserRoomsValid(urs, us2, rs2) && MessagesValid(ms, us2, rs2)
  {
  }

  /**
   * The Snowflake id generator, as an oracle: each call hands out an id that
   * was never handed out before. Nothing is assumed about the order of ids.
   */
  class Snowflake {
    var serial: nat
    ghost var issued: set<Id>

    ghost predicate Valid()
      reads this
    {
      forall id | id in issued :: |id| <= serial
    }

    constructor ()
      ensures Valid() && issued == {}
    {
      serial := 0;
      issued := {};
    }

    method Generate() returns (id: Id)
      requires Valid()
      modifies this
      ensures Valid()
      ensures id !in old(issued) && issued == old(issued) + {id}
    {
      id := seq(serial + 1, _ => '0');
      serial := serial + 1;
      issued := issued + {id};
    }
  }

  /** The tables, changed in place by the repositories' inserts and updates. */
  class Database {
    var users: seq<User>
    var rooms: seq<Room>
    var userRooms: seq<UserRoom>
    var messages: seq<Message>
    const snowflake: Snowflake

    /** Every declared constraint holds, and every row id came from the generator. */
    ghost predicate Valid()
      reads this, snowflake
    {
      snowflake.Valid() && TablesValid(users, rooms, userRooms, messages, snowflake.issued)
    }

    /** Replace one table with contents that keep every constraint. */
    method SetUsers(us: seq<User>)
      requires snowflake.Valid() && TablesValid(us, rooms, userRooms, messages, snowflake.issued)
      modifies this`users
      ensures Valid() && users == us
    {
      users := us;
    }

    method SetRooms(rs: seq<Room>)
      requires snowflake.Valid() && TablesValid(users, rs, userRooms, messages, snowflake.issued)
      modifies this`rooms
      ensures Valid() && rooms == rs
    {
      rooms := rs;
    }

    method SetUserRooms(urs: seq<UserRoom>)
      requires snowflake.Valid() && TablesValid(users, rooms, urs, messages, snowflake.issued)
      modifies this`userRooms
      ensures Valid() && userRooms == urs
    {
      userRooms := urs;
    }

    method SetMessages(ms: seq<Message>)
      requires snowflake.Valid() && TablesValid(users, rooms, userRooms, ms, snowflake.issued)
      modifies this`messages
      ensures Valid() && messages == ms
    {
      messages := ms;
    }

    constructor ()
      ensures Valid() && fresh(snowflake)
      ensures users == [] && rooms == [] && userRooms == [] && messages == []
    {
      users, rooms, userRooms, messages := [], [], [], [];
      snowflake := new Snowflake();
    }
  }
}
