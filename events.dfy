/** Server-to-client emissions of the delivery core, recorded in the order
    they are sent. Each event names the socket it is addressed to. */
module Events {
  import opened Domain

  datatype Event =
    /** `newMessage`: the full record, to the receiver. */
    | NewMessage(to: SocketId, message: Message)
      /** `updateLastMessage`: a sidebar refresh; `lastMessage` is absent when the
          payload spreads a null record, `unreadCount` when it carries none. */
    | UpdateLastMessage(to: SocketId, lastMessage: Option<Message>, unreadCount: Option<nat>)
      /** `messageDelivered`: the id of a record that went sent -> delivered. */
    | MessageDelivered(to: SocketId, messageId: nat)
      /** `messagesSeen`: the pair whose records were seen and the latest record. */
    | MessagesSeen(to: SocketId, senderId: UserId, receiverId: UserId,
                   lastMessage: Option<Message>, unreadCount: Option<nat>)

  /** The socket.io server seen as a log of what it emitted. */
  class EventLog {
    var events: seq<Event>

    constructor ()
      ensures events == []
    {
      events := [];
    }

    /** `io.to(e.to).emit(...)`. */
    method Emit(e: Event)
      modifies this
      ensures events == old(events) + [e]
    {
      events := events + [e];
    }
  }
}
