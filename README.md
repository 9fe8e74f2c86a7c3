# Message delivery and status core of a real-time chat backend

This Dafny project models the part of the chat backend that decides and tracks
the status of direct messages. It covers:

- the presence registry, `userSocketMap`, which maps a user id to the id of the
  user's live socket;
- the delivery state machine. A message's `status` moves sent → delivered → seen,
  and its `unread` flag moves with it;
- the socket handlers: connect (presence write plus the sent → delivered sweep),
  "mark as seen", and disconnect (presence removal);
- the HTTP controller operations: the sidebar (last message and unread count per
  peer), backward pagination of a conversation, sending a message, and the HTTP
  "mark as seen";
- what each handler emits to which socket (`newMessage`, `updateLastMessage`,
  `messageDelivered`, `messagesSeen`), recorded as an append-only event log.

Each handler is modelled as one atomic step over three objects:

- `Presence.UserSocketMap` holds the presence map;
- `Store.MessageStore` holds the message collection as a sequence in insertion
  order;
- `Events.EventLog` holds the emitted events.

The store's `updateMany` calls become single assignments of a sequence function,
because the source performs each of them as one store call. The sweep's `for`
loop over the undelivered messages is a `while` loop with invariants
(`SocketServer.NotifySwept`).

The central invariant is `Domain.Lockstep`: a message is unread exactly when its
status is not seen. Every handler preserves it. Under it, the HTTP seen update
(which filters on `unread: true`) and the socket seen update (which filters on
`status != seen`) have the same effect. Without it they differ
(`Store.SeenVariantsDifferWithoutLockstep`).

Modelling notes:

- The source does not validate the body of a send: text and image may both be
  absent, and the receiver id is not looked up. The model follows the code.
- Socket ids from socket.io are never empty. The model requires a non-empty id
  on connection and keeps "every stored socket id is non-empty"
  (`Presence.UserSocketMap.Valid`). Every handler that tests a looked-up socket
  id requires this invariant, and the constructor, the connection handler and
  the disconnect handler keep it, so "the socket id is truthy" is "the user is
  in the map".
- Record ids are store positions (`Store.MessageStore.Valid`). Every handler
  keeps this, and it is what makes records distinct: the sweep visits each
  pending record once and no page shows a record twice.
- The disconnect handler deletes the entry of the user its socket was opened for.
  It does not check whether a later connection of the same user has replaced the
  socket id in the map. The model keeps this: after any disconnect of user `u`,
  `u` has no entry (`Scenarios.StaleDisconnect` shows it).
- The HTTP "mark as seen" emits `messagesSeen` and `updateLastMessage` whenever
  the parties are online, even if nothing changed. The socket variant emits
  nothing when the pair has no message at all.

Files: `domain.dfy` (records, the state machine, lockstep),
`store.dfy` (store queries, bulk updates, sort), `presence.dfy`, `events.dfy`,
`message_controller.dfy`, `socket_server.dfy`, `scenarios.dfy` (a client).

## Model

| member | source | states |
|---|---|---|
| `Domain.TransitionIsMonotone` | src/lib/socket.js:47-50 | a state-machine step never lowers status in sent < delivered < seen and never changes id, parties, text, image or timestamp |
| `Domain.SeenIsTerminal` | src/lib/socket.js:88-91 | a seen, read message stays seen and read under every step |
| `Domain.TransitionKeepsLockstep` | src/controllers/message-controller.js:146-149 | every step (no change, sweep, either seen update) keeps unread == false ⇔ status == seen |
| `Domain.TransitionTransitive` | src/lib/socket.js:47-50 | a sweep followed by a seen update is again one allowed step, so whole histories are allowed steps |
| `Domain.EvolvesTransitive` | src/lib/socket.js:47-50 | evolution of a store by allowed steps composes across handlers |
| `Domain.EvolvesKeepsLockstep` | src/lib/socket.js:88-91 | a store evolved by allowed steps keeps the lockstep invariant for every record |
| `Store.CountUnreadIsCardinality` | src/controllers/message-controller.js:25-29 | the unread count equals the number of stored peer → viewer records with unread set; no other record, in particular none the viewer sent, is counted |
| `Store.CountUnreadZero` | src/controllers/message-controller.js:170-174 | the count is 0 exactly when no peer → viewer record is unread |
| `Store.LatestBetween` | src/controllers/message-controller.js:16-23 | the result is a record of the pair, in either direction, whose createdAt is maximal; it is null exactly when the pair has no record |
| `Store.LatestBetweenSymmetric` | src/lib/socket.js:93-100 | the latest-record query gives the same answer for (a, b) and (b, a) |
| `Store.Undelivered` | src/lib/socket.js:41-44 | every record in the result is a stored record addressed to the user with status sent, and every such stored record is in the result |
| `Store.UndeliveredCounts` | src/lib/socket.js:41-44 | the query returns each pending record exactly as often as the store holds it, and no other record |
| `Store.UndeliveredDistinct` | src/lib/socket.js:41-52 | in a store whose ids are its positions the swept list holds no record twice, so the sweep loop visits each pending record once |
| `Store.IdsAreDistinct` | src/lib/socket.js:41-44 | a store whose ids are its positions holds no record twice |
| `Store.DeliverPending` | src/lib/socket.js:46-50 | the sweep turns every sent record addressed to the user into delivered; every other record is unchanged; unread is never touched; no sent record for the user remains |
| `Store.MarkSeenWhereUnread` | src/controllers/message-controller.js:146-149 | every unread sender → receiver record becomes seen and read; all other records, the opposite direction included, are unchanged |
| `Store.MarkSeenWhereUnseen` | src/lib/socket.js:88-91 | every sender → receiver record ends up seen; those not yet seen become seen and read; records already seen are unchanged, their unread flag included; all records of other pairs and of the opposite direction are unchanged |
| `Store.SeenVariantsAgree` | src/lib/socket.js:88-91 | under the lockstep invariant the socket update (status != seen) equals the HTTP update (unread == true) |
| `Store.SeenVariantsDifferWithoutLockstep` | src/controllers/message-controller.js:146-149 | a delivered record already marked read makes the two seen updates differ, so the invariant is needed |
| `Store.HttpSeenClearsUnread` | src/controllers/message-controller.js:146-149 | after the HTTP seen update the sender → receiver unread count is 0 |
| `Store.SocketSeenClearsUnread` | src/lib/socket.js:123-129 | after the socket seen update the sender → receiver count is 0 when the invariant held, so the badge the handler clears to 0 is the true count |
| `Store.SocketSeenIdempotent` | src/lib/socket.js:88-91 | applying the socket seen update twice changes nothing further |
| `Store.SeenKeepsOtherCounts` | src/controllers/message-controller.js:146-149 | both seen updates leave the unread count of every other ordered pair unchanged, the opposite direction included |
| `Store.SweepKeepsCounts` | src/lib/socket.js:47-50 | the sweep changes no unread count |
| `Store.SweepOfNothing` | src/lib/socket.js:46-50 | when nothing is pending, skipping the update leaves the same store as performing it |
| `Store.SortNewestFirst` | src/controllers/message-controller.js:61 | the sort returns a permutation of its input ordered by createdAt, newest first |
| `Presence.UserSocketMap.GetReceiverSocketId` | src/lib/socket.js:16-19 | the lookup returns the user's socket id when the map has an entry for the user, and absent otherwise; under the presence invariant a returned id is non-empty, so it is truthy |
| `MessageController.GetUsersForSidebar` | src/controllers/message-controller.js:10-35 | the entries' users, as a multiset, are the listed users with every copy of the viewer removed; each entry carries the pair's latest record and the peer → viewer unread count |
| `MessageController.SidebarListsPeers` | src/controllers/message-controller.js:10-15 | every entry is a listed user other than the viewer, and every listed user other than the viewer has an entry |
| `MessageController.Conversation` | src/controllers/message-controller.js:52-59 | every record in the result is a stored record of the pair, in either direction, older than `before` when it is given, and every such stored record is in the result |
| `MessageController.ConversationCounts` | src/controllers/message-controller.js:52-61 | the query returns each matching record exactly as often as the store holds it, and no other record |
| `MessageController.Reverse` | src/controllers/message-controller.js:62 | the reversal keeps the length and puts element k at position n-1-k |
| `MessageController.NewestPage` | src/controllers/message-controller.js:61-62 | the page has min(30, n) candidate records in ascending createdAt order; every candidate left out is no newer than every record on the page |
| `MessageController.NewestPageDrawn` | src/controllers/message-controller.js:61-62 | the page holds each candidate at most as often as the candidates do, so it repeats none |
| `MessageController.GetMessages` | src/controllers/message-controller.js:52-66 | the page has at most 30 records, all from the pair and older than `before`; they are the newest such records, returned oldest first; `hasMore` holds exactly when the page has 30 records |
| `MessageController.PageDrawn` | src/controllers/message-controller.js:61-62 | a page holds each record at most as often as the query returns it |
| `MessageController.PageFromStore` | src/controllers/message-controller.js:52-62 | a page holds each record at most as often as the store does |
| `MessageController.PageIsDistinct` | src/controllers/message-controller.js:52-62 | in a store whose ids are its positions, no page shows a record twice |
| `MessageController.NextPageContinues` | src/controllers/message-controller.js:59-62 | when timestamps are distinct, using the oldest returned record as the next cursor skips no record and repeats none |
| `MessageController.TiedCursorSkips` | src/controllers/message-controller.js:59-66 | in any 31-record conversation whose two oldest records (at any store positions) share a timestamp, the first page is full and one record left off it fails the next page's `$lt` filter on the oldest shown timestamp, so backward paging never returns it |
| `MessageController.TiedConversationSkips` | src/controllers/message-controller.js:59-66 | a concrete conversation (`TiedConversation`, ids 0 to 30, records 0 and 1 both created at 1) on which the skip happens |
| `MessageController.SendEvents` | src/controllers/message-controller.js:99-132 | the receiver, if online, gets exactly one `newMessage`, first, then a refresh with the receiver's own unread count; the sender, if online, gets a refresh with the sender's own unread count, last; there are two events per online receiver plus one per online sender and nobody else is addressed |
| `MessageController.SendMessage` | src/controllers/message-controller.js:86-132 | exactly one record is appended, unread, and delivered exactly when the receiver is in the map (else sent); no existing record changes; the receiver's unread count rises by one; the invariant is kept; the events are those of `SendEvents` |
| `MessageController.AppendUnread` | src/controllers/message-controller.js:88-97 | storing a new unread, not-yet-seen record is an allowed evolution, keeps the invariant, and raises that sender → receiver unread count by exactly one |
| `MessageController.NotifySent` | src/controllers/message-controller.js:99-132 | the send handler's emissions, with counts taken after the save, are exactly the events of `SendEvents` |
| `MessageController.HttpSeenEvents` | src/controllers/message-controller.js:151-193 | one `messagesSeen` goes to the sender exactly when the sender is online, carrying the pair's latest record and, when there is one, the sender's unread count; one `updateLastMessage` goes to the receiver exactly when the receiver is online, carrying the latest record and the receiver's recomputed count; the sender's event comes first; nothing else is emitted |
| `MessageController.MarkMessagesAsSeen` | src/controllers/message-controller.js:146-193 | the store becomes the HTTP seen update of the old store; the sender → receiver count is 0; every `updateLastMessage` emitted carries 0; the invariant is kept |
| `MessageController.NotifyHttpSeen` | src/controllers/message-controller.js:151-193 | the HTTP seen handler's emissions, taken on the updated store, are exactly the events of `HttpSeenEvents` |
| `Events.EventLog.Emit` | src/lib/socket.js:58 | an emission appends exactly one event to the log |
| `SocketServer.DeliveryEvents` | src/lib/socket.js:53-79 | for one swept record, `messageDelivered` and then a refresh with unreadCount 0 go to its sender exactly when online, and a refresh with the receiver's true unread count goes to the receiver, last, exactly when online; every refresh shows the record as delivered; nobody else is addressed |
| `SocketServer.NoticesOfDelivery` | src/lib/socket.js:56-64 | one sweep iteration emits one `messageDelivered` when the sender is online and none otherwise |
| `SocketServer.SweepNotifiesSenders` | src/lib/socket.js:52-64 | the sweep emits exactly one `messageDelivered` per swept record whose sender is online, to that sender's socket, in sweep order |
| `SocketServer.NotifyDelivered` | src/lib/socket.js:53-79 | one loop iteration appends exactly the events of `DeliveryEvents` |
| `SocketServer.NotifyNext` | src/lib/socket.js:52-80 | after iteration i the log holds the events of the first i + 1 swept records, appended to the log as it was before the loop |
| `SocketServer.NotifySwept` | src/lib/socket.js:52-80 | the loop appends the events of every swept record, in order |
| `SocketServer.OnConnection` | src/lib/socket.js:22-81 | with a truthy user id, the map entry becomes this (non-empty) socket id and other entries are unchanged; exactly the user's sent records become delivered; the notices owed are emitted; the store and presence invariants are kept. Without a user id nothing changes |
| `SocketServer.DeliverAndNotify` | src/lib/socket.js:40-80 | the store becomes the sweep of the old store, whether or not anything was pending, and the log gains the loop's events for the old store's pending records |
| `SocketServer.SweepNotices` | src/lib/socket.js:52-64 | the `messageDelivered` notices the sweep appends to any log are exactly the owed ones |
| `SocketServer.SocketSeenEvents` | src/lib/socket.js:93-130 | nothing is emitted when the pair has no record; otherwise exactly one `messagesSeen` and then a refresh without a count go to the sender's socket, first, exactly when the sender is online, and a refresh with unreadCount 0 goes to the receiver, last, exactly when online; every event carries the pair's latest record |
| `SocketServer.OnMarkMessagesAsSeen` | src/lib/socket.js:85-134 | the store becomes the socket seen update of the old store; the invariant is kept, and under it the sender → receiver count is 0 |
| `SocketServer.NotifySeen` | src/lib/socket.js:93-130 | the socket seen handler's emissions, taken on the updated store, are exactly the events of `SocketSeenEvents` |
| `SocketServer.OnDisconnect` | src/lib/socket.js:137-138 | the user the socket was opened for has no entry afterwards, even if a newer socket had replaced it; other entries are unchanged; the presence invariant is kept |

## Left out

- Authentication, password hashing, cookies and user lookups (`src/controllers/auth-controller.js`): foreign library calls with no delivery logic. The identity of a request or socket is a parameter.
- The database connection, the Express wiring and the server start (`src/lib/db.js`, `src/index.js`), and the socket.io server and CORS setup (src/lib/socket.js:7-14): plumbing.
- Image upload: `SendMessage` takes the URL the upload service returned. Upload failure is not modelled, because the upload service is external.
- `userStatusChanged` broadcasts and the `isOnline`/`lastSeen` writes on connect and disconnect: database and clock I/O outside the delivery state.
- MessageController.SendEvents: the `updateLastMessage` emits to a party with no socket (`io.to(undefined)?.emit`, src/controllers/message-controller.js:123 and 129) are left out. What socket.io does with an absent room is outside this model. The model emits them only to parties who are online.
- Concurrency: every handler is one atomic step. The interleavings that `await` allows are not modelled. For example, a `countDocuments` inside the sweep loop could observe a write made by another handler.
- Store and network failures, the `try/catch` blocks, HTTP status codes and JSON response shaping, and logging.
- MessageController.GetMessages: `before` arrives as a string parsed with `new Date`. The model takes the parsed timestamp and does not model invalid dates.
- Store.LatestBetween: among records with equal `createdAt` the store's order is unspecified. The model returns the earliest stored one. The sort keeps store order on ties.
- Mongo ObjectIds are modelled as store positions (`Store.MessageStore.Valid`). Timestamps are naturals that the caller supplies.
- SocketServer.OnDisconnect: with no user id in the handshake, the source deletes the key "undefined". The model leaves the map unchanged, which differs only if some user's id is that literal string.
- Sidebar entries carry only the peer's id. The other user fields spread into the entry are left out.
- MessageController.NextPageContinues: it is stated only for distinct timestamps. With equal timestamps the `$lt` cursor (src/controllers/message-controller.js:59) skips records: when a record left off a full page shares the oldest shown timestamp, no later page returns it (`MessageController.TiedCursorSkips`). The model follows the code.
- SocketServer.NotifySwept: the spread `{...msg.toObject(), status: "delivered"}` is modelled as the swept record with its status set to delivered. It is not read back from the store.
