/** The socket server's handlers: a connection (presence write and the
    sent -> delivered sweep with its notifications), the socket
    "mark as seen", and a disconnection (presence removal). */
module SocketServer {
  import opened Domain
  import opened Store
  import opened Presence
  import opened Events

  // ------------------------------------------------------------ connection

  /** What one iteration of the sweep loop emits for the swept record `m`
      (a snapshot taken before the update); counts are taken on the updated
      store `ms`. */
  function DeliveryEvents(m: Message, sockets: map<UserId, SocketId>, ms: seq<Message>): (r: seq<Event>)
    ensures |r| == (if m.senderId in sockets then 2 else 0) + (if m.receiverId in sockets then 1 else 0)
    ensures forall e | e in r && e.MessageDelivered? :: m.senderId in sockets && e == MessageDelivered(sockets[m.senderId], m.id)
    ensures m.receiverId in sockets ==>
              r[|r| - 1] == UpdateLastMessage(sockets[m.receiverId], Some(m.(status := Delivered)),
                                              Some(CountUnread(ms, m.senderId, m.receiverId)))
    ensures m.senderId in sockets ==>
              && |r| >= 2
              && r[0] == MessageDelivered(sockets[m.senderId], m.id)
              && r[1] == UpdateLastMessage(sockets[m.senderId], Some(m.(status := Delivered)), Some(0))
    ensures forall e | e in r :: e.MessageDelivered? || e.UpdateLastMessage?
    ensures forall e | e in r && e.UpdateLastMessage? :: e.lastMessage == Some(m.(status := Delivered))
    ensures forall e | e in r ::
              || (m.senderId in sockets && e.to == sockets[m.senderId])
              || (m.receiverId in sockets && e.to == sockets[m.receiverId])
  {
    var delivered := m.(status := Delivered);
    var toSender :=
      if m.senderId in sockets then
        [MessageDelivered(sockets[m.senderId], m.id),
         UpdateLastMessage(sockets[m.senderId], Some(delivered), Some(0))]
      else [];
    var toReceiver :=
      if m.receiverId in sockets then
        [UpdateLastMessage(sockets[m.receiverId], Some(delivered), Some(CountUnread(ms, m.senderId, m.receiverId)))]
      else [];
    toSender + toReceiver
  }

  /** Everything the sweep loop emits for `pending`, in loop order. */
  function SweepEvents(pending: seq<Message>, sockets: map<UserId, SocketId>, ms: seq<Message>): (r: seq<Event>)
    ensures |r| <= 3 * |pending|
  {
    if pending == [] then []
    else SweepEvents(pending[..|pending| - 1], sockets, ms) + DeliveryEvents(pending[|pending| - 1], sockets, ms)
  }

  /** The `messageDelivered` events of `es`, in order. */
  function Notices(es: seq<Event>): (r: seq<Event>)
    ensures forall k | 0 <= k < |r| :: r[k].MessageDelivered? && r[k] in es
  {
    if es == [] then []
    else
      var init := Notices(es[..|es| - 1]);
      if es[|es| - 1].MessageDelivered? then init + [es[|es| - 1]] else init
  }

  lemma {:induction false} NoticesAppend(a: seq<Event>, b: seq<Event>)
    ensures Notices(a + b) == Notices(a) + Notices(b)
  {
    if b == [] {
      assert a + b == a;
    } else {
      assert (a + b)[..|a + b| - 1] == a + b[..|b| - 1];
      NoticesAppend(a, b[..|b| - 1]);
    }
  }

  /** The notices the sweep owes: one per swept record whose sender is online,
      addressed to that sender's socket, in sweep order. */
  function OwedNotices(pending: seq<Message>, sockets: map<UserId, SocketId>): (r: seq<Event>)
    ensures |r| <= |pending|
  {
    if pending == [] then []
    else
      var m := pending[|pending| - 1];
      OwedNotices(pending[..|pending| - 1], sockets)
        + (if m.senderId in sockets then [MessageDelivered(sockets[m.senderId], m.id)] else [])
  }

  /** The sweep emits exactly the owed `messageDelivered` notices: once per
      swept record, to its sender only, and only when the sender is online. */
  lemma {:induction false} SweepNotifiesSenders(pending: seq<Message>, sockets: map<UserId, SocketId>, ms: seq<Message>)
    ensures Notices(SweepEvents(pending, sockets, ms)) == OwedNotices(pending, sockets)
  {
    if pending != [] {
      var init := pending[..|pending| - 1];
      var m := pending[|pending| - 1];
      SweepNotifiesSenders(init, sockets, ms);
      NoticesAppend(SweepEvents(init, sockets, ms), DeliveryEvents(m, sockets, ms));
      NoticesOfDelivery(m, sockets, ms);
    }
  }

  /** One sweep iteration notifies the sender once when online, else not at all. */
  lemma NoticesOfDelivery(m: Message, sockets: map<UserId, SocketId>, ms: seq<Message>)
    ensures Notices(DeliveryEvents(m, sockets, ms))
            == if m.senderId in sockets then [MessageDelivered(sockets[m.senderId], m.id)] else []
  {
    var d := DeliveryEvents(m, sockets, ms);
    if m.senderId in sockets {
      var head := d[..2];
      assert d == head + d[2..];
      NoticesAppend(head, d[2..]);
      NoneDelivered(d[2..]);
      assert head[..1] == [d[0]] && [d[0]][..0] == [];
    } else {
      NoneDelivered(d);
    }
  }

  lemma {:induction false} NoneDelivered(es: seq<Event>)
    requires forall k | 0 <= k < |es| :: !es[k].MessageDelivered?
    ensures Notices(es) == []
  {
    if es != [] {
      NoneDelivered(es[..|es| - 1]);
    }
  }

  lemma SweepEventsStep(start: seq<Event>, pending: seq<Message>, i: nat, sockets: map<UserId, SocketId>, ms: seq<Message>)
    requires i < |pending|
    ensures start + SweepEvents(pending[..i + 1], sockets, ms)
            == (start + SweepEvents(pending[..i], sockets, ms)) + DeliveryEvents(pending[i], sockets, ms)
  {
    assert pending[..i + 1][..i] == pending[..i];
  }


  /** One iteration of the sweep loop for the swept record `msg`. */
  method NotifyDelivered(presence: UserSocketMap, io: EventLog, msg: Message, ms: seq<Message>)
    requires presence.Valid()
    modifies io
    ensures io.events == old(io.events) + DeliveryEvents(msg, presence.sockets, ms)
  {
    var senderSocketId := presence.GetReceiverSocketId(msg.senderId);
    var receiverSocketId := presence.GetReceiverSocketId(msg.receiverId);
    if senderSocketId.Some? {
      io.Emit(MessageDelivered(senderSocketId.value, msg.id));
      io.Emit(UpdateLastMessage(senderSocketId.value, Some(msg.(status := Delivered)), Some(0)));
    }
    if receiverSocketId.Some? {
      var unreadCountForReceiver := CountUnread(ms, msg.senderId, msg.receiverId);
      io.Emit(UpdateLastMessage(receiverSocketId.value, Some(msg.(status := Delivered)), Some(unreadCountForReceiver)));
    }
  }

  /** Iteration `i` of the sweep loop extends the sweep's events by one record's. */
  method NotifyNext(presence: UserSocketMap, io: EventLog, undelivered: seq<Message>, i: nat, ms: seq<Message>,
                    ghost start: seq<Event>)
    requires presence.Valid() && i < |undelivered|
    requires io.events == start + SweepEvents(undelivered[..i], presence.sockets, ms)
    modifies io
    ensures io.events == start + SweepEvents(undelivered[..i + 1], presence.sockets, ms)
  {
    NotifyDelivered(presence, io, undelivered[i], ms);
    SweepEventsStep(start, undelivered, i, presence.sockets, ms);
  }

  /** The loop over the swept records: per record, `messageDelivered` and a
      sidebar refresh to the sender if online, and a sidebar refresh with the
      receiver's true unread count to the receiver if online. */
  method NotifySwept(presence: UserSocketMap, io: EventLog, undelivered: seq<Message>, ms: seq<Message>)
    requires presence.Valid()
    modifies io
    ensures io.events == old(io.events) + SweepEvents(undelivered, presence.sockets, ms)
  {
    ghost var start := io.events;
    ghost var sockets := presence.sockets;
    var i := 0;
    while i < |undelivered|
      invariant 0 <= i <= |undelivered|
      invariant presence.sockets == sockets
      invariant io.events == start + SweepEvents(undelivered[..i], sockets, ms)
    {
      NotifyNext(presence, io, undelivered, i, ms, start);
      i := i + 1;
    }
    assert undelivered[..i] == undelivered;
  }

  /** The connection handler. With a truthy handshake user id it maps the user
      to this socket (replacing any earlier socket), moves every sent record
      addressed to the user to delivered, and notifies per swept record. */
  method OnConnection(presence: UserSocketMap, store: MessageStore, io: EventLog,
                      handshakeUserId: Option<UserId>, socketId: SocketId)
    requires presence.Valid() && store.Valid() && socketId != ""
    modifies presence, store, io
    ensures presence.Valid() && store.Valid()
    ensures !Truthy(handshakeUserId) ==>
              && presence.sockets == old(presence.sockets)
              && store.messages == old(store.messages)
              && io.events == old(io.events)
    ensures Truthy(handshakeUserId) ==>
              var u := handshakeUserId.value;
              var pending := Undelivered(old(store.messages), u);
              && presence.sockets == old(presence.sockets)[u := socketId]
              && store.messages == DeliverPending(old(store.messages), u)
              && io.events == old(io.events) + SweepEvents(pending, presence.sockets, store.messages)
              && Notices(io.events[|old(io.events)|..]) == OwedNotices(pending, presence.sockets)
    ensures Evolves(old(store.messages), store.messages) && |store.messages| == |old(store.messages)|
    ensures AllLockstep(old(store.messages)) ==> AllLockstep(store.messages)
  {
    if Truthy(handshakeUserId) {
      var userId := handshakeUserId.value;
      presence.sockets := presence.sockets[userId := socketId];
      ghost var logged := io.events;
      ghost var pending := Undelivered(store.messages, userId);
      DeliverAndNotify(presence, store, io, userId);
      SweepNotices(logged, pending, presence.sockets, store.messages);
    }
  }

  /** The sweep of `OnConnection` once the user is registered: the store update
      (skipped when nothing is pending) and the loop over the swept records. */
  method DeliverAndNotify(presence: UserSocketMap, store: MessageStore, io: EventLog, userId: UserId)
    requires presence.Valid() && store.Valid()
    modifies store, io
    ensures store.Valid()
    ensures store.messages == DeliverPending(old(store.messages), userId)
    ensures io.events == old(io.events) + SweepEvents(Undelivered(old(store.messages), userId), presence.sockets, store.messages)
    ensures Evolves(old(store.messages), store.messages) && |store.messages| == |old(store.messages)|
    ensures AllLockstep(old(store.messages)) ==> AllLockstep(store.messages)
  {
    var undelivered := Undelivered(store.messages, userId);
    if |undelivered| > 0 {
      ghost var before := store.messages;
      store.messages := DeliverPending(store.messages, userId);
      EvolvesKeepsIds(before, store.messages);
      if AllLockstep(before) {
        EvolvesKeepsLockstep(before, store.messages);
      }
      NotifySwept(presence, io, undelivered, store.messages);
    } else {
      SweepOfNothing(store.messages, userId);
    }
  }

  /** The notices the sweep appends to a log are exactly the owed ones. */
  lemma SweepNotices(logged: seq<Event>, pending: seq<Message>, sockets: map<UserId, SocketId>, ms: seq<Message>)
    ensures Notices((logged + SweepEvents(pending, sockets, ms))[|logged|..]) == OwedNotices(pending, sockets)
  {
    assert (logged + SweepEvents(pending, sockets, ms))[|logged|..] == SweepEvents(pending, sockets, ms);
    SweepNotifiesSenders(pending, sockets, ms);
  }


  // ------------------------------------------------------------ socket seen

  /** The emissions of the socket "mark as seen", taken on the updated store
      `ms`; nothing is emitted when the pair has no message at all. */
  function SocketSeenEvents(senderId: UserId, receiverId: UserId, sockets: map<UserId, SocketId>, ms: seq<Message>): (r: seq<Event>)
    ensures forall e | e in r ::
              (e.MessagesSeen? || e.UpdateLastMessage?) && e.lastMessage == LatestBetween(ms, senderId, receiverId)
    ensures forall e | e in r :: e.lastMessage.Some?
    ensures forall e | e in r && e.MessagesSeen? ::
              senderId in sockets && e.to == sockets[senderId] && e.senderId == senderId && e.receiverId == receiverId
    ensures (senderId in sockets && LatestBetween(ms, senderId, receiverId).Some?) <==> exists e | e in r :: e.MessagesSeen?
    ensures forall e | e in r && e.UpdateLastMessage? && e.unreadCount.Some? ::
              receiverId in sockets && e.to == sockets[receiverId] && e.unreadCount == Some(0)
    ensures var last := LatestBetween(ms, senderId, receiverId);
            && |r| == (if last.Some? then (if senderId in sockets then 2 else 0) + (if receiverId in sockets then 1 else 0) else 0)
            && (senderId in sockets && last.Some? ==>
                  && r[0] == MessagesSeen(sockets[senderId], senderId, receiverId, last, None)
                  && r[1] == UpdateLastMessage(sockets[senderId], last, None))
            && (receiverId in sockets && last.Some? ==> r[|r| - 1] == UpdateLastMessage(sockets[receiverId], last, Some(0)))
  {
    var lastMessage := LatestBetween(ms, senderId, receiverId);
    var toSender :=
      if senderId in sockets && lastMessage.Some? then
        [MessagesSeen(sockets[senderId], senderId, receiverId, lastMessage, None),
         UpdateLastMessage(sockets[senderId], lastMessage, None)]
      else [];
    var toReceiver :=
      if receiverId in sockets && lastMessage.Some? then
        [UpdateLastMessage(sockets[receiverId], lastMessage, Some(0))]
      else [];
    assert |toSender| > 0 ==> (toSender + toReceiver)[0] == toSender[0];
    toSender + toReceiver
  }

  /** The socket `markMessagesAsSeen` handler: every not-yet-seen
      sender -> receiver record becomes seen and read; nothing else changes.
      The badge it clears to 0 for the receiver is the true count whenever the
      lockstep invariant held. */
  method OnMarkMessagesAsSeen(presence: UserSocketMap, store: MessageStore, io: EventLog,
                              senderId: UserId, receiverId: UserId)
    requires presence.Valid() && store.Valid()
    modifies store, io
    ensures store.Valid()
    ensures store.messages == MarkSeenWhereUnseen(old(store.messages), senderId, receiverId)
    ensures io.events == old(io.events) + SocketSeenEvents(senderId, receiverId, presence.sockets, store.messages)
    ensures Evolves(old(store.messages), store.messages)
    ensures AllLockstep(old(store.messages)) ==> AllLockstep(store.messages)
    ensures AllLockstep(old(store.messages)) ==> CountUnread(store.messages, senderId, receiverId) == 0
  {
    ghost var before := store.messages;
    store.messages := MarkSeenWhereUnseen(store.messages, senderId, receiverId);
    EvolvesKeepsIds(before, store.messages);
    if AllLockstep(before) {
      EvolvesKeepsLockstep(before, store.messages);
      SocketSeenClearsUnread(before, senderId, receiverId);
    }
    NotifySeen(presence, io, senderId, receiverId, store.messages);
  }

  /** The emissions of the socket seen handler, after the store update. */
  method NotifySeen(presence: UserSocketMap, io: EventLog, senderId: UserId, receiverId: UserId, ms: seq<Message>)
    requires presence.Valid()
    modifies io
    ensures io.events == old(io.events) + SocketSeenEvents(senderId, receiverId, presence.sockets, ms)
  {
    var lastMessage := LatestBetween(ms, senderId, receiverId);
    var senderSocketId := presence.GetReceiverSocketId(senderId);
    if senderSocketId.Some? && lastMessage.Some? {
      io.Emit(MessagesSeen(senderSocketId.value, senderId, receiverId, lastMessage, None));
      io.Emit(UpdateLastMessage(senderSocketId.value, lastMessage, None));
    }
    var receiverSocketId := presence.GetReceiverSocketId(receiverId);
    if receiverSocketId.Some? && lastMessage.Some? {
      io.Emit(UpdateLastMessage(receiverSocketId.value, lastMessage, Some(0)));
    }
  }

  // ---------------------------------------------------------- disconnection

  /** The disconnect handler: deletes the map entry of the user this socket was
      opened for, whether or not a later connection of the same user has
      since replaced the socket id stored there. */
  method OnDisconnect(presence: UserSocketMap, handshakeUserId: Option<UserId>)
    modifies presence
    ensures old(presence.Valid()) ==> presence.Valid()
    ensures handshakeUserId.Some? ==> presence.sockets == old(presence.sockets) - {handshakeUserId.value}
    ensures handshakeUserId.None? ==> presence.sockets == old(presence.sockets)
  {
    if handshakeUserId.Some? {
      presence.sockets := presence.sockets - {handshakeUserId.value};
    }
  }
}
