/**
 * The `/ws/` route: accept every upgrade, dispatch each inbound frame (join
 * first, then by `type`), and on close drop the socket from every room in
 * the `roomSubscriptions` record.
 */
module WebSocketController {
  import opened Wrappers
  import opened Schema
  import opened Sockets
  import opened WsRooms

  /** The validated body of an inbound frame. */
  datatype InboundFrame = InboundFrame(kind: string, room: Id, content: string, domain: string)

  /** The frame a failed dispatch answers with. */
  const ProcessingError: Frame := Status("error", "Error al procesar el mensaje")

  type RoomSubscriptions = map<Id, set<Socket>>

  /** Every room's set, with `ws` removed. */
  function WithoutSocket(m: RoomSubscriptions, ws: Socket): (r: RoomSubscriptions)
    ensures r.Keys == m.Keys
    ensures forall room | room in r :: ws !in r[room]
    ensures forall room, s | room in m && s in m[room] && s != ws :: s in r[room]
    ensures forall room | room in r :: r[room] <= m[room]
  {
    map room | room in m :: m[room] - {ws}
  }

  /** Dropping a socket that is in no set changes nothing, so `close` twice is `close` once. */
  lemma WithoutSocketIdempotent(m: RoomSubscriptions, ws: Socket)
    ensures WithoutSocket(WithoutSocket(m, ws), ws) == WithoutSocket(m, ws)
  {
    var once := WithoutSocket(m, ws);
    assert forall room | room in once :: once[room] - {ws} == once[room];
  }

  /**
   * The effect of a frame from a socket subscribed to its room: only a
   * "message" frame has one, that of `sendMessage`.
   */
  predicate Dispatched(rs: seq<Room>, us: seq<User>, before: seq<Message>, after: seq<Message>,
                       publishedBefore: seq<(Id, Frame)>, publishedAfter: seq<(Id, Frame)>,
                       user: Option<Id>, data: InboundFrame, now: nat)
  {
    if data.kind == "message" then
      Published(rs, us, before, after, publishedBefore, publishedAfter, user, data.room, data.content, data.domain, now)
    else after == before && publishedAfter == publishedBefore
  }

  /** `ws.subscribe` throws: the socket is not yet subscribed and the library fails. */
  predicate JoinThrows(subscriptions: set<Id>, room: Id, subscribeFails: bool) {
    room !in subscriptions && subscribeFails
  }

  /** The answer to a frame whose handling threw. */
  method ReportError(ws: Socket)
    modifies ws`sent
    ensures ws.sent == old(ws.sent) + [ProcessingError]
  {
    ws.sent := ws.sent + [ProcessingError];
  }

  /** The dispatch by `type` once the first join succeeded; the second join of "join" then changes nothing. */
  method Dispatch(db: Database, ws: Socket, data: InboundFrame, now: nat, subscribeFails: bool)
    requires db.Valid() && data.room in ws.subscriptions
    modifies db, db.snowflake, ws`subscriptions, ws`published
    ensures db.Valid()
    ensures ws.subscriptions == old(ws.subscriptions)
    ensures Dispatched(old(db.rooms), old(db.users), old(db.messages), db.messages,
                       old(ws.published), ws.published, ws.user, data, now)
  {
    if data.kind == "join" {
      var threw := JoinRoom(ws, data.room, subscribeFails);
    }
    if data.kind == "message" {
      SendMessage(db, ws, data.room, data.content, data.domain, now);
    }
  }

  /** What follows the first join: the error frame if it threw, the dispatch by `type` otherwise. */
  method Respond(db: Database, ws: Socket, data: InboundFrame, now: nat, subscribeFails: bool, threw: bool)
    requires db.Valid() && (!threw ==> data.room in ws.subscriptions)
    modifies db, db.snowflake, ws`subscriptions, ws`published, ws`sent
    ensures db.Valid()
    ensures threw ==> ws.sent == old(ws.sent) + [ProcessingError] && unchanged(ws`subscriptions, ws`published, db)
    ensures !threw ==> unchanged(ws`sent, ws`subscriptions)
    ensures !threw ==> Dispatched(old(db.rooms), old(db.users), old(db.messages), db.messages,
                                  old(ws.published), ws.published, ws.user, data, now)
  {
    if threw {
      ReportError(ws);
    } else {
      Dispatch(db, ws, data, now, subscribeFails);
    }
  }

  class WsController {
    /** The module-level `roomSubscriptions` record. */
    var roomSubscriptions: RoomSubscriptions

    constructor ()
      ensures roomSubscriptions == map[]
    {
      roomSubscriptions := map[];
    }

    /** `beforeHandle`: the upgrade is always accepted. */
    function BeforeHandle(): (allow: bool)
      ensures allow
    {
      true
    }

    /**
     * `message`: join the frame's room, then for "join" join again and for
     * "message" send it. `subscribeFails` stands for `ws.subscribe` throwing;
     * that exception is answered with one error frame and the socket stays
     * open.
     */
    method Message(db: Database, ws: Socket, data: InboundFrame, now: nat, subscribeFails: bool)
      requires db.Valid()
      modifies db, db.snowflake, ws`subscriptions, ws`published, ws`sent
      ensures db.Valid()
      ensures JoinThrows(old(ws.subscriptions), data.room, subscribeFails) ==>
        && ws.sent == old(ws.sent) + [ProcessingError]
        && ws.subscriptions == old(ws.subscriptions)
        && unchanged(ws`published, db)
      ensures !JoinThrows(old(ws.subscriptions), data.room, subscribeFails) ==>
        unchanged(ws`sent) && ws.subscriptions == old(ws.subscriptions) + {data.room}
      ensures !JoinThrows(old(ws.subscriptions), data.room, subscribeFails) ==>
        Dispatched(old(db.rooms), old(db.users), old(db.messages), db.messages,
                   old(ws.published), ws.published, ws.user, data, now)
    {
      var threw := JoinRoom(ws, data.room, subscribeFails);
      Respond(db, ws, data, now, subscribeFails, threw);
    }

    /** `close`: delete the socket from the set of every room key. */
    method Close(ws: Socket)
      modifies this
      ensures roomSubscriptions == WithoutSocket(old(roomSubscriptions), ws)
    {
      ghost var before := roomSubscriptions;
      var keys := roomSubscriptions.Keys;
      while keys != {}
        invariant keys <= before.Keys && roomSubscriptions.Keys == before.Keys
        invariant forall room | room in before ::
          roomSubscriptions[room] == if room in keys then before[room] else before[room] - {ws}
        decreases |keys|
      {
        var room :| room in keys;
        roomSubscriptions := roomSubscriptions[room := roomSubscriptions[room] - {ws}];
        keys := keys - {room};
      }
    }
  }
}
