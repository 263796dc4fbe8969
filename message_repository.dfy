/**
 * `MessageRepository`: inserting a message into an existing room, and the
 * listing query of a room's messages (room filter, cursor filter, clamped
 * limit, newest first).
 */
module MessageRepository {
  import opened Wrappers
  import opened Schema
  import opened Tables
  import Strings

  /**
   * The fields `create` inserts from. `authorId` is `None` when the caller
   * passes `undefined` (a socket with no bound user); the insert then omits
   * the column.
   */
  datatype CreateMessageRequest = CreateMessageRequest(content: string, authorId: Option<Id>)

  /** The row `create` inserts. */
  function NewMessage(id: Id, content: string, authorId: Id, roomId: Id, now: nat): Message {
    Message(id, content, authorId, roomId, now, now, false)
  }

  /** The message `create` throws for a room that does not exist. */
  function NoSuchRoom(roomId: Id): string {
    "Room with ID " + roomId + " does not exist."
  }

  /**
   * `create`: look the room up first, then take an id and insert. The database
   * refuses a missing author (NOT NULL) and an unknown one (foreign key).
   */
  method Create(db: Database, roomId: Id, message: CreateMessageRequest, now: nat)
    returns (r: Result<Message, Error>)
    requires db.Valid()
    modifies db, db.snowflake
    ensures db.Valid()
    ensures unchanged(db`users, db`rooms, db`userRooms)
    ensures roomId !in RoomIds(old(db.rooms)) ==>
      r == Err(Thrown(NoSuchRoom(roomId))) && db.snowflake.issued == old(db.snowflake.issued)
    ensures roomId in RoomIds(old(db.rooms)) && message.authorId.None? ==>
      r == Err(Violation(NotNull("message", "author_id")))
    ensures roomId in RoomIds(old(db.rooms)) && message.authorId.Some?
            && message.authorId.value !in UserIds(old(db.users)) ==>
      r == Err(Violation(ForeignKey("message", "author_id")))
    ensures r.Ok? <==> roomId in RoomIds(old(db.rooms))
                       && message.authorId.Some? && message.authorId.value in UserIds(old(db.users))
    ensures r.Err? ==> unchanged(db`messages)
    ensures r.Ok? ==>
      && r.value == NewMessage(r.value.id, message.content, message.authorId.value, roomId, now)
      && r.value.id !in old(db.snowflake.issued)
      && db.messages == old(db.messages) + [r.value]
  {
    if !RoomExists(db.rooms, roomId) {
      r := Err(Thrown(NoSuchRoom(roomId)));
    } else {
      r := InsertIntoRoom(db, roomId, message, now);
    }
  }

  /** The part of `create` after the room check: take an id, then insert. */
  method InsertIntoRoom(db: Database, roomId: Id, message: CreateMessageRequest, now: nat)
    returns (r: Result<Message, Error>)
    requires db.Valid() && roomId in RoomIds(db.rooms)
    modifies db, db.snowflake
    ensures db.Valid()
    ensures unchanged(db`users, db`rooms, db`userRooms)
    ensures message.authorId.None? ==> r == Err(Violation(NotNull("message", "author_id")))
    ensures message.authorId.Some? && message.authorId.value !in UserIds(old(db.users)) ==>
      r == Err(Violation(ForeignKey("message", "author_id")))
    ensures r.Ok? <==> message.authorId.Some? && message.authorId.value in UserIds(old(db.users))
    ensures r.Err? ==> unchanged(db`messages)
    ensures r.Ok? ==>
      && r.value == NewMessage(r.value.id, message.content, message.authorId.value, roomId, now)
      && r.value.id !in old(db.snowflake.issued)
      && db.messages == old(db.messages) + [r.value]
  {
    var id := db.snowflake.Generate();
    if message.authorId.None? {
      r := Err(Violation(NotNull("message", "author_id")));
    } else if message.authorId.value !in UserIds(db.users) {
      r := Err(Violation(ForeignKey("message", "author_id")));
    } else {
      var row := NewMessage(id, message.content, message.authorId.value, roomId, now);
      InsertRow(db, row);
      r := Ok(row);
    }
  }

  /** The `insert`, once the database's checks have passed. */
  method InsertRow(db: Database, row: Message)
    requires db.Valid()
    requires row.id in db.snowflake.issued && row.id !in MessageIds(db.messages)
    requires row.authorId in UserIds(db.users) && row.channelId in RoomIds(db.rooms)
    modifies db`messages
    ensures db.Valid()
    ensures db.messages == old(db.messages) + [row]
  {
    AppendMessageValid(db.messages, db.users, db.rooms, row);
    db.SetMessages(db.messages + [row]);
  }

  /** The `select ... limit 1` on `room`: some row has this id. */
  function RoomExists(rs: seq<Room>, roomId: Id): (b: bool)
    ensures b <==> roomId in RoomIds(rs)
  {
    First(rs, (x: Room) => x.id == roomId).Some?
  }

  lemma AppendMessageValid(ms: seq<Message>, us: seq<User>, rs: seq<Room>, m: Message)
    requires MessagesValid(ms, us, rs)
    requires m.id !in MessageIds(ms) && m.authorId in UserIds(us) && m.channelId in RoomIds(rs)
    ensures MessagesValid(ms + [m], us, rs)
    ensures MessageIds(ms + [m]) == MessageIds(ms) + {m.id}
  {
    var r := ms + [m];
    forall i, j | 0 <= i < j < |r| ensures r[i].id != r[j].id {
      if j == |ms| { assert r[i] in ms; }
    }
  }

  // ---------------------------------------------------------------- listing

  /**
   * One entry of the `conditions` array: `eq(channelId, roomId)` and
   * `gt(id, cursor)`. `IdBefore` is `lt(id, cursor)`, used by the corrected
   * query only.
   */
  datatype Condition = ChannelIs(roomId: Id) | IdAfter(cursor: string) | IdBefore(bound: string)

  predicate Holds(c: Condition, m: Message) {
    match c
    case ChannelIs(roomId) => m.channelId == roomId
    case IdAfter(cursor) => Strings.Less(cursor, m.id)
    case IdBefore(bound) => Strings.Less(m.id, bound)
  }

  /** `and(...conditions)`. */
  predicate HoldsAll(cs: seq<Condition>, m: Message) {
    forall c | c in cs :: Holds(c, m)
  }

  /** The sort key of an `orderBy(desc(...))`. */
  datatype Order = CreatedAtDesc | IdDesc

  /** `a` comes strictly before `b` in order `o`. */
  predicate Before(o: Order, a: Message, b: Message) {
    match o
    case CreatedAtDesc => a.createdAt > b.createdAt
    case IdDesc => Strings.Less(b.id, a.id)
  }

  lemma BeforeAsymmetric(o: Order, a: Message, b: Message)
    requires Before(o, a, b)
    ensures !Before(o, b, a)
  {
    if o.IdDesc? { Strings.LessAsymmetric(b.id, a.id); }
  }

  /** Not being strictly before is transitive: both keys are total orders. */
  lemma NotBeforeTransitive(o: Order, a: Message, b: Message, c: Message)
    requires !Before(o, a, b) && !Before(o, b, c)
    ensures !Before(o, a, c)
  {
    if o.IdDesc? {
      if a.id == b.id {
        if b.id == c.id {
          Strings.LessIrreflexive(c.id);
        } else {
          Strings.LessTotal(b.id, c.id);
          Strings.LessAsymmetric(b.id, c.id);
        }
      } else {
        Strings.LessTotal(a.id, b.id);
        if b.id == c.id {
          Strings.LessAsymmetric(a.id, b.id);
        } else {
          Strings.LessTotal(b.id, c.id);
          Strings.LessTransitive(a.id, b.id, c.id);
          Strings.LessAsymmetric(a.id, c.id);
        }
      }
    }
  }

  /** No message comes strictly before an earlier one. */
  predicate Sorted(o: Order, s: seq<Message>) {
    forall i, j | 0 <= i < j < |s| :: !Before(o, s[j], s[i])
  }

  /** Insert `x` in front of the first message that does not come strictly before it. */
  function Insert(o: Order, x: Message, s: seq<Message>): (r: seq<Message>)
    requires Sorted(o, s)
    ensures Sorted(o, r)
    ensures multiset(r) == multiset(s) + multiset{x}
  {
    if |s| == 0 then [x]
    else if !Before(o, s[0], x) then
      PrependSorted(o, x, s);
      [x] + s
    else
      assert s == [s[0]] + s[1..];
      var rest := Insert(o, x, s[1..]);
      ConsSorted(o, x, s, rest);
      [s[0]] + rest
  }

  lemma PrependSorted(o: Order, x: Message, s: seq<Message>)
    requires Sorted(o, s) && |s| > 0 && !Before(o, s[0], x)
    ensures Sorted(o, [x] + s)
  {
    var r := [x] + s;
    forall i, j | 0 <= i < j < |r| ensures !Before(o, r[j], r[i]) {
      assert r[j] == s[j - 1];
      if i == 0 {
        if j > 1 { NotBeforeTransitive(o, s[j - 1], s[0], x); }
      } else {
        assert r[i] == s[i - 1];
      }
    }
  }

  lemma ConsSorted(o: Order, x: Message, s: seq<Message>, rest: seq<Message>)
    requires Sorted(o, s) && |s| > 0 && Before(o, s[0], x)
    requires Sorted(o, rest) && multiset(rest) == multiset(s[1..]) + multiset{x}
    ensures Sorted(o, [s[0]] + rest)
  {
    var r := [s[0]] + rest;
    forall i, j | 0 <= i < j < |r| ensures !Before(o, r[j], r[i]) {
      assert r[j] == rest[j - 1];
      if i == 0 {
        assert rest[j - 1] in multiset(s[1..]) + multiset{x};
        if rest[j - 1] == x {
          BeforeAsymmetric(o, s[0], x);
        } else {
          assert rest[j - 1] in s[1..];
          var k :| 0 <= k < |s[1..]| && s[1..][k] == rest[j - 1];
          assert s[k + 1] == rest[j - 1];
        }
      } else {
        assert r[i] == rest[i - 1];
      }
    }
  }

  /** `orderBy(desc(...))`: a sorted permutation; the order of ties is the database's choice. */
  function Sort(o: Order, s: seq<Message>): (r: seq<Message>)
    ensures Sorted(o, r)
    ensures |r| == |s| && multiset(r) == multiset(s)
  {
    if |s| == 0 then []
    else
      assert s == [s[0]] + s[1..];
      var r := Insert(o, s[0], Sort(o, s[1..]));
      assert |r| == |multiset(r)| == |multiset(s)| == |s|;
      r
  }

  /** The rows the query selects, before ordering and limit. */
  function Matching(ms: seq<Message>, cs: seq<Condition>): (r: seq<Message>)
    ensures forall m | m in r :: m in ms && HoldsAll(cs, m)
    ensures forall m | m in ms && HoldsAll(cs, m) :: m in r
  {
    Where(ms, (m: Message) => HoldsAll(cs, m))
  }

  /** `Matching` row by row: the first row is kept exactly when it satisfies every condition. */
  lemma MatchingCons(x: Message, rest: seq<Message>, cs: seq<Condition>)
    ensures Matching([x] + rest, cs) == (if HoldsAll(cs, x) then [x] else []) + Matching(rest, cs)
    ensures Matching([], cs) == []
  {
    assert ([x] + rest)[1..] == rest;
  }

  /**
   * The query: filter by every condition, order, then keep at most `bound`
   * rows. `None` is a query without `limit`.
   */
  function Query(ms: seq<Message>, cs: seq<Condition>, o: Order, bound: Option<nat>): (r: seq<Message>)
    ensures forall m | m in r :: m in ms && HoldsAll(cs, m)
    ensures Sorted(o, r)
    ensures |r| <= |Matching(ms, cs)| && r == Sort(o, Matching(ms, cs))[..|r|]
    ensures bound.Some? ==> |r| == if bound.value < |Matching(ms, cs)| then bound.value else |Matching(ms, cs)|
    ensures bound.None? ==> multiset(r) == multiset(Matching(ms, cs))
  {
    var matching := Matching(ms, cs);
    var sorted := Sort(o, matching);
    SortKeepsMembers(o, matching);
    if bound.Some? && bound.value < |sorted| then
      SortedPrefix(o, sorted, bound.value);
      sorted[..bound.value]
    else
      assert sorted[..|sorted|] == sorted;
      sorted
  }

  lemma SortKeepsMembers(o: Order, s: seq<Message>)
    ensures forall m | m in Sort(o, s) :: m in s
  {
    forall m | m in Sort(o, s) ensures m in s {
      assert m in multiset(Sort(o, s));
    }
  }

  lemma SortedPrefix(o: Order, s: seq<Message>, n: nat)
    requires Sorted(o, s) && n <= |s|
    ensures Sorted(o, s[..n]) && forall m | m in s[..n] :: m in s
  {
  }

  /** `params` of `getMessages`: the use case's request object, whose `limit` the query clamps in place. */
  class GetMessagesRequest {
    var limit: Option<int>
    var cursor: Option<string>

    constructor (limit: Option<int>, cursor: Option<string>)
      ensures this.limit == limit && this.cursor == cursor
    {
      this.limit, this.cursor := limit, cursor;
    }
  }

  /** `if (params.cursor)`: present and not the empty string. */
  predicate CursorGiven(cursor: Option<string>) {
    cursor.Some? && cursor.value != ""
  }

  /** `if (params.limit)`: present and not zero. */
  predicate LimitGiven(limit: Option<int>) {
    limit.Some? && limit.value != 0
  }

  /** The conditions of the query as written: the room, and `id > cursor` when a cursor is given. */
  function Conditions(roomId: Id, cursor: Option<string>): (cs: seq<Condition>)
    ensures forall m: Message :: HoldsAll(cs, m) <==>
      m.channelId == roomId && (CursorGiven(cursor) ==> Strings.Less(cursor.value, m.id))
  {
    var cs := [ChannelIs(roomId)] + if CursorGiven(cursor) then [IdAfter(cursor.value)] else [];
    assert forall m: Message :: HoldsAll(cs, m) <==>
      m.channelId == roomId && (CursorGiven(cursor) ==> Strings.Less(cursor.value, m.id)) by {
      forall m: Message ensures HoldsAll(cs, m) <==>
        m.channelId == roomId && (CursorGiven(cursor) ==> Strings.Less(cursor.value, m.id)) {
        assert Holds(cs[0], m) <==> m.channelId == roomId;
        if CursorGiven(cursor) {
          assert Holds(cs[1], m) <==> Strings.Less(cursor.value, m.id);
        }
      }
    }
    cs
  }

  /** The corrected conditions: the room, and `id < cursor` when a cursor is given. */
  function OlderConditions(roomId: Id, cursor: Option<string>): (cs: seq<Condition>)
    ensures forall m: Message :: HoldsAll(cs, m) <==>
      m.channelId == roomId && (CursorGiven(cursor) ==> Strings.Less(m.id, cursor.value))
  {
    var cs := [ChannelIs(roomId)] + if CursorGiven(cursor) then [IdBefore(cursor.value)] else [];
    assert forall m: Message :: HoldsAll(cs, m) <==>
      m.channelId == roomId && (CursorGiven(cursor) ==> Strings.Less(m.id, cursor.value)) by {
      forall m: Message ensures HoldsAll(cs, m) <==>
        m.channelId == roomId && (CursorGiven(cursor) ==> Strings.Less(m.id, cursor.value)) {
        assert Holds(cs[0], m) <==> m.channelId == roomId;
        if CursorGiven(cursor) {
          assert Holds(cs[1], m) <==> Strings.Less(m.id, cursor.value);
        }
      }
    }
    cs
  }

  /** `params.limit` after the query: a given limit clamped into [0, 100], anything else untouched. */
  function ClampedLimit(limit: Option<int>): (r: Option<int>)
    ensures !LimitGiven(limit) ==> r == limit
    ensures LimitGiven(limit) ==> r.Some? && 0 <= r.value <= 100
    ensures LimitGiven(limit) && 0 <= limit.value <= 100 ==> r == limit
    ensures LimitGiven(limit) && limit.value > 100 ==> r == Some(100)
    ensures LimitGiven(limit) && limit.value < 0 ==> r == Some(0)
  {
    if !LimitGiven(limit) then limit
    else if limit.value > 100 then Some(100)
    else if limit.value < 0 then Some(0)
    else limit
  }

  /** The `limit` the query carries, if any. */
  function LimitBound(limit: Option<int>): (b: Option<nat>)
    ensures b.None? <==> !LimitGiven(limit)
    ensures b.Some? ==> b.value <= 100 && Some(b.value as int) == ClampedLimit(limit)
  {
    if LimitGiven(limit) then
      var n := ClampedLimit(limit).value;
      Some(n as nat)
    else None
  }

  /** The page the query returns as written: `id > cursor`, newest `createdAt` first. */
  function NewestFirstPage(ms: seq<Message>, roomId: Id, cursor: Option<string>, limit: Option<int>): (r: seq<Message>)
    ensures forall m | m in r :: m in ms && HoldsAll(Conditions(roomId, cursor), m)
    ensures Sorted(CreatedAtDesc, r)
    ensures LimitGiven(limit) ==> |r| <= 100
  {
    Query(ms, Conditions(roomId, cursor), CreatedAtDesc, LimitBound(limit))
  }

  /** The corrected page: `id < cursor`, largest id first, so that each page continues the previous one. */
  function OlderPage(ms: seq<Message>, roomId: Id, cursor: Option<string>, limit: Option<int>): (r: seq<Message>)
    ensures forall m | m in r :: m in ms && HoldsAll(OlderConditions(roomId, cursor), m)
    ensures Sorted(IdDesc, r)
    ensures LimitGiven(limit) ==> |r| <= 100
  {
    Query(ms, OlderConditions(roomId, cursor), IdDesc, LimitBound(limit))
  }

  /** As written, every listed message is in the room, after the cursor when one is given, and newest first. */
  lemma NewestFirstPageContents(ms: seq<Message>, roomId: Id, cursor: Option<string>, limit: Option<int>)
    ensures var r := NewestFirstPage(ms, roomId, cursor, limit);
      && (forall m | m in r :: m in ms && m.channelId == roomId)
      && (CursorGiven(cursor) ==> forall m | m in r :: Strings.Less(cursor.value, m.id))
      && (forall i, j | 0 <= i < j < |r| :: r[i].createdAt >= r[j].createdAt)
  {
    var r := NewestFirstPage(ms, roomId, cursor, limit);
    forall m | m in r ensures m in ms && HoldsAll(Conditions(roomId, cursor), m) { }
    forall i, j | 0 <= i < j < |r| ensures r[i].createdAt >= r[j].createdAt {
      assert !Before(CreatedAtDesc, r[j], r[i]);
    }
  }

  /**
   * `getMessages`: build the conditions, clamp `params.limit` in place when it
   * is given, then run the query, newest `createdAt` first.
   */
  method GetMessages(db: Database, roomId: Id, params: GetMessagesRequest) returns (r: seq<Message>)
    modifies params`limit
    ensures params.limit == ClampedLimit(old(params.limit))
    ensures r == NewestFirstPage(db.messages, roomId, params.cursor, old(params.limit))
  {
    var conditions := [ChannelIs(roomId)];
    if CursorGiven(params.cursor) {
      conditions := conditions + [IdAfter(params.cursor.value)];
    }
    var bound: Option<nat> := None;
    if LimitGiven(params.limit) {
      if params.limit.value > 100 {
        params.limit := Some(100);
      }
      if params.limit.value < 0 {
        params.limit := Some(0);
      }
      bound := Some(params.limit.value as nat);
    }
    assert conditions == Conditions(roomId, params.cursor);
    assert bound == LimitBound(old(params.limit));
    r := Query(db.messages, conditions, CreatedAtDesc, bound);
  }

  /** Every listed message is in the room, before the cursor when one is given, and in descending id order. */
  lemma OlderPageContents(ms: seq<Message>, roomId: Id, cursor: Option<string>, limit: Option<int>)
    ensures var r := OlderPage(ms, roomId, cursor, limit);
      && (forall m | m in r :: m in ms && m.channelId == roomId)
      && (CursorGiven(cursor) ==> forall m | m in r :: Strings.Less(m.id, cursor.value))
      && (forall i, j | 0 <= i < j < |r| :: !Strings.Less(r[i].id, r[j].id))
  {
    var r := OlderPage(ms, roomId, cursor, limit);
    forall m | m in r ensures m in ms && HoldsAll(OlderConditions(roomId, cursor), m) { }
    forall i, j | 0 <= i < j < |r| ensures !Strings.Less(r[i].id, r[j].id) {
      assert !Before(IdDesc, r[j], r[i]);
    }
  }

  /** A limit in [1, 100] bounds the page by itself, a larger one by 100. */
  lemma PageBounded(ms: seq<Message>, roomId: Id, cursor: Option<string>, n: int)
    requires n != 0
    ensures n > 0 ==> |NewestFirstPage(ms, roomId, cursor, Some(n))| <= n
    ensures |NewestFirstPage(ms, roomId, cursor, Some(n))| <= 100
  {
  }

  /** A negative limit is clamped to 0, and `limit 0` lists nothing. */
  lemma NegativeLimitListsNothing(ms: seq<Message>, roomId: Id, cursor: Option<string>, n: int)
    requires n < 0
    ensures NewestFirstPage(ms, roomId, cursor, Some(n)) == []
  {
  }

  /** No limit, or a limit of 0, lists every matching message. */
  lemma UnboundedPageIsComplete(ms: seq<Message>, roomId: Id, cursor: Option<string>, limit: Option<int>, m: Message)
    requires !LimitGiven(limit)
    requires m in ms && m.channelId == roomId && (CursorGiven(cursor) ==> Strings.Less(cursor.value, m.id))
    ensures m in NewestFirstPage(ms, roomId, cursor, limit)
  {
    var cs := Conditions(roomId, cursor);
    assert m in Matching(ms, cs);
    assert m in multiset(NewestFirstPage(ms, roomId, cursor, limit));
  }
}
