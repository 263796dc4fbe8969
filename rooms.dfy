/**
 * `joinRoom` and `sendMessage` of the realtime layer: subscribe a socket to a
 * room once, and persist then publish a message from a subscribed socket.
 */
module WsRooms {
  import opened Wrappers
  import opened Schema
  import opened Sockets
  import MessageRepository
  import opened MessageUseCase

  /**
   * `joinRoom`: subscribe only when not subscribed yet. `subscribeFails`
   * stands for `ws.subscribe` throwing; the exception escapes to the caller
   * (`threw`) and nothing changes.
   */
  method JoinRoom(ws: Socket, room: Id, subscribeFails: bool) returns (threw: bool)
    modifies ws`subscriptions
    ensures threw <==> room !in old(ws.subscriptions) && subscribeFails
    ensures threw ==> ws.subscriptions == old(ws.subscriptions)
    ensures !threw ==> ws.subscriptions == old(ws.subscriptions) + {room}
  {
    threw := false;
    if room !in ws.subscriptions {
      if subscribeFails {
        return true;
      }
      ws.subscriptions := ws.subscriptions + {room};
    }
  }

  /** The frame published for a persisted message. */
  function MessageEnvelope(content: string, domain: string, user: Option<Id>, room: Id): (f: Frame)
    ensures f.Envelope? && f.kind == "message" && f.room == room && f.authorId == user
    ensures f.content == content && f.domain == domain
  {
    Envelope("message", content, domain, user, room)
  }

  /**
   * The effect of `sendMessage` from a subscribed socket: exactly when the room
   * and the socket's user exist, one message row authored by that user is
   * appended and its envelope is published to the room; otherwise nothing
   * changes.
   */
  predicate Published(rs: seq<Room>, us: seq<User>, before: seq<Message>, after: seq<Message>,
                      publishedBefore: seq<(Id, Frame)>, publishedAfter: seq<(Id, Frame)>,
                      user: Option<Id>, room: Id, content: string, domain: string, now: nat)
  {
    if room in RoomIds(rs) && user.Some? && user.value in UserIds(us) then
      && |after| == |before| + 1
      && after[..|before|] == before
      && after[|before|] == MessageRepository.NewMessage(after[|before|].id, content, user.value, room, now)
      && publishedAfter == publishedBefore + [(room, MessageEnvelope(content, domain, user, room))]
    else after == before && publishedAfter == publishedBefore
  }

  /**
   * `sendMessage`: a socket not subscribed to the room does nothing. Otherwise
   * the message is persisted with the socket's user as author, and published
   * to the room only when that succeeded. Nothing is sent, and nothing throws.
   */
  method SendMessage(db: Database, ws: Socket, room: Id, content: string, domain: string, now: nat)
    requires db.Valid()
    modifies db, db.snowflake, ws`published
    ensures db.Valid()
    ensures unchanged(db`users, db`rooms, db`userRooms)
    ensures room !in ws.subscriptions ==>
      db.messages == old(db.messages) && ws.published == old(ws.published)
    ensures room in ws.subscriptions ==>
      Published(old(db.rooms), old(db.users), old(db.messages), db.messages, old(ws.published), ws.published,
                ws.user, room, content, domain, now)
  {
    if room !in ws.subscriptions {
      return;
    }
    var messageRequest := MessageRepository.CreateMessageRequest(content, ws.user);
    var result := CreateMessage(db, room, messageRequest, now);
    if result.Created? {
      ws.published := ws.published + [(room, MessageEnvelope(content, domain, ws.user, room))];
    }
  }
}
