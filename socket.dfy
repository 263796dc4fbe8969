/**
 * A WebSocket connection as the realtime layer sees it: the cookies of the
 * upgrade request, the user bound to it, the rooms the library has it
 * subscribed to, and the frames sent to it and published from it.
 */
module Sockets {
  import opened Wrappers
  import opened Schema

  /** A frame: a room message envelope, or a status report. JSON encoding is left opaque. */
  datatype Frame =
    | Envelope(kind: string, content: string, domain: string, authorId: Option<Id>, room: Id)
    | Status(status: string, message: string)

  class Socket {
    /** `ws.data.cookie`, by name. */
    const cookies: map<string, string>
    /** `ws.body.user`: `None` while no user is bound. */
    var user: Option<Id>
    /** The topics `ws.subscribe` added, as `ws.isSubscribed` reports them. */
    var subscriptions: set<Id>
    /** Every `ws.send`, in order. */
    var sent: seq<Frame>
    /** Every `ws.publish(room, frame)`, in order; who receives them is the library's business. */
    var published: seq<(Id, Frame)>
    /** The code and reason of `ws.close`, once called. */
    var closed: Option<(int, string)>

    constructor (cookies: map<string, string>)
      ensures this.cookies == cookies && user.None? && subscriptions == {}
      ensures sent == [] && published == [] && closed.None?
    {
      this.cookies := cookies;
      user, subscriptions, sent, published, closed := None, {}, [], [], None;
    }
  }
}
