/** The presence registry: the socket server's module-level `userSocketMap`
    from user id to the id of that user's live socket. */
module Presence {
  import opened Domain

  class UserSocketMap {
    var sockets: map<UserId, SocketId>

    /** socket.io never hands out an empty id, so every stored id is truthy. */
    ghost predicate Valid()
      reads this
    {
      forall u | u in sockets :: sockets[u] != ""
    }

    constructor ()
      ensures Valid() && sockets == map[]
    {
      sockets := map[];
    }

    /** `getReceiverSocketId(userId)`: the user's socket id, or absent. */
    function GetReceiverSocketId(userId: UserId): (r: Option<SocketId>)
      reads this
      ensures r.Some? <==> userId in sockets
      ensures r.Some? ==> r.value == sockets[userId]
      ensures Valid() && r.Some? ==> r.value != ""
    {
      if userId in sockets then Some(sockets[userId]) else None
    }
  }

  /** The handshake's `if (userId)` test: the query parameter is present and non-empty. */
  predicate Truthy(userId: Option<UserId>)
  {
    userId.Some? && userId.value != ""
  }
}
