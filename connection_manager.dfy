/**
 * `connectionManager`: the sockets of each user, kept in a map from user id
 * to a non-empty set, and a send to every socket of one user.
 */
module Connections {
  import opened Wrappers
  import opened Schema
  import opened Sockets

  type Registry = map<Id, set<Socket>>

  /** No user maps to an empty set. */
  predicate NoEmptyEntry(m: Registry) {
    forall u | u in m :: m[u] != {}
  }

  /** The registry after `add`. */
  function Added(m: Registry, userId: Id, socket: Socket): (r: Registry)
    ensures r.Keys == m.Keys + {userId}
    ensures socket in r[userId]
    ensures r[userId] == (if userId in m then m[userId] else {}) + {socket}
    ensures forall u | u in m && u != userId :: r[u] == m[u]
  {
    var current := if userId in m then m[userId] else {};
    m[userId := current + {socket}]
  }

  /** The registry after `remove`: a falsy user id or an unknown user changes nothing. */
  function Removed(m: Registry, userId: Id, socket: Socket): (r: Registry)
    ensures userId == "" || userId !in m ==> r == m
    ensures r.Keys <= m.Keys
    ensures forall u | u in m && u != userId :: u in r && r[u] == m[u]
    ensures userId != "" && userId in m ==>
              (userId in r <==> m[userId] - {socket} != {})
              && (userId in r ==> r[userId] == m[userId] - {socket})
  {
    if userId == "" || userId !in m then m
    else
      var rest := m[userId] - {socket};
      if rest == {} then m - {userId} else m[userId := rest]
  }

  lemma AddedKeepsInvariant(m: Registry, userId: Id, socket: Socket)
    requires NoEmptyEntry(m)
    ensures NoEmptyEntry(Added(m, userId, socket))
  {
  }

  lemma RemovedKeepsInvariant(m: Registry, userId: Id, socket: Socket)
    requires NoEmptyEntry(m)
    ensures NoEmptyEntry(Removed(m, userId, socket))
  {
  }

  /** Adding the same socket twice is adding it once. */
  lemma AddIdempotent(m: Registry, userId: Id, socket: Socket)
    ensures Added(Added(m, userId, socket), userId, socket) == Added(m, userId, socket)
  {
  }

  /** After a removal the socket is no longer registered for that user. */
  lemma RemovedSocketGone(m: Registry, userId: Id, socket: Socket)
    requires userId != ""
    ensures userId in Removed(m, userId, socket) ==> socket !in Removed(m, userId, socket)[userId]
  {
  }

  /** Adding a socket that was not registered and removing it again restores the registry. */
  lemma RemoveUndoesAdd(m: Registry, userId: Id, socket: Socket)
    requires NoEmptyEntry(m) && userId != ""
    requires userId in m ==> socket !in m[userId]
    ensures Removed(Added(m, userId, socket), userId, socket) == m
  {
    var a := Added(m, userId, socket);
    if userId in m {
      assert a[userId] - {socket} == m[userId];
      assert Removed(a, userId, socket) == a[userId := m[userId]];
    } else {
      assert a[userId] - {socket} == {};
      assert Removed(a, userId, socket) == a - {userId};
    }
  }

  class ConnectionManager {
    /** The module-level `userSockets` map. */
    var userSockets: Registry

    ghost predicate Valid()
      reads this
    {
      NoEmptyEntry(userSockets)
    }

    constructor ()
      ensures Valid() && userSockets == map[]
    {
      userSockets := map[];
    }

    /** `add`: create the user's entry if it is absent, then add the socket to it. */
    method Add(userId: Id, socket: Socket)
      requires Valid()
      modifies this
      ensures Valid()
      ensures userSockets == Added(old(userSockets), userId, socket)
    {
      if userId !in userSockets {
        userSockets := userSockets[userId := {}];
      }
      userSockets := userSockets[userId := userSockets[userId] + {socket}];
    }

    /** `remove`: delete the socket, and the user's entry once it is empty. */
    method Remove(userId: Id, socket: Socket)
      requires Valid()
      modifies this
      ensures Valid()
      ensures userSockets == Removed(old(userSockets), userId, socket)
    {
      if userId == "" {
        return;
      }
      if userId !in userSockets {
        return;
      }
      var remaining := userSockets[userId] - {socket};
      userSockets := userSockets[userId := remaining];
      if remaining == {} {
        userSockets := userSockets - {userId};
      }
    }

    /** `get`: the stored set, or `undefined` when the user has no entry. */
    function Get(userId: Id): (r: Option<set<Socket>>)
      reads this
      ensures r.None? <==> userId !in userSockets
      ensures r.Some? ==> r.value == userSockets[userId]
      ensures Valid() && r.Some? ==> r.value != {}
    {
      if userId in userSockets then Some(userSockets[userId]) else None
    }

    /** The sockets `broadcastTo` sends to. */
    function Targets(userId: Id): set<Socket>
      reads this
    {
      if userId in userSockets then userSockets[userId] else {}
    }

    /**
     * `broadcastTo`: send the same payload once to each socket of the user; a
     * user with no entry is a no-op.
     */
    method BroadcastTo(userId: Id, message: Frame)
      modifies Targets(userId)`sent
      ensures userSockets == old(userSockets)
      ensures forall s | s in old(Targets(userId)) :: s.sent == old(s.sent) + [message]
    {
      var sockets := Get(userId);
      if sockets.None? {
        return;
      }
      var remaining := sockets.value;
      while remaining != {}
        invariant remaining <= sockets.value
        invariant userSockets == old(userSockets)
        invariant forall s | s in sockets.value && s !in remaining :: s.sent == old(s.sent) + [message]
        invariant forall s | s in remaining :: s.sent == old(s.sent)
        decreases |remaining|
      {
        var socket :| socket in remaining;
        socket.sent := socket.sent + [message];
        remaining := remaining - {socket};
      }
    }
  }
}
