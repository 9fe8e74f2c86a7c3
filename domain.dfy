/** Records shared by the delivery core of the chat backend: identities,
    the delivery status of a message, the message record itself, and the
    state machine that a stored message may move through. */
module Domain {

  datatype Option<+T> = None | Some(value: T)

  /** User ids as the handshake query and the store carry them. */
  type UserId = string

  /** A socket.io connection id; socket.io never hands out an empty one, so a
      looked-up id is truthy exactly when it is present. */
  type SocketId = string

  /** The delivery status of a message, ordered sent < delivered < seen. */
  datatype Status = Sent | Delivered | Seen

  function Rank(s: Status): (r: nat)
    ensures r <= 2
  {
    match s
    case Sent => 0
    case Delivered => 1
    case Seen => 2
  }

  /** A stored message. `image` is the URL the upload service returned, if any;
      `createdAt` is the store's creation timestamp. */
  datatype Message = Message(
    id: nat,
    senderId: UserId,
    receiverId: UserId,
    text: Option<string>,
    image: Option<string>,
    createdAt: nat,
    status: Status,
    unread: bool)

  /** The lockstep invariant: a message is unread exactly while it is not seen. */
  predicate Lockstep(m: Message)
  {
    !m.unread <==> m.status == Seen
  }

  predicate AllLockstep(ms: seq<Message>)
  {
    forall i | 0 <= i < |ms| :: Lockstep(ms[i])
  }

  /** The changes the delivery state machine may make to one stored record:
      none, the sweep's sent -> delivered, or a "mark as seen" that writes
      status and unread together. Nothing else of a record ever changes. */
  predicate Transition(a: Message, b: Message)
  {
    || b == a
    || (a.status == Sent && b == a.(status := Delivered))
    || b == a.(status := Seen, unread := false)
  }

  /** `after` is `before` with records possibly appended and every existing
      record moved by one state-machine transition. */
  predicate Evolves(before: seq<Message>, after: seq<Message>)
  {
    && |before| <= |after|
    && forall i | 0 <= i < |before| :: Transition(before[i], after[i])
  }

  /** Status never decreases along a transition, and identity fields never change. */
  lemma TransitionIsMonotone(a: Message, b: Message)
    requires Transition(a, b)
    ensures Rank(a.status) <= Rank(b.status)
    ensures b.id == a.id && b.senderId == a.senderId && b.receiverId == a.receiverId
    ensures b.createdAt == a.createdAt && b.text == a.text && b.image == a.image
  {
  }

  /** Seen is terminal: a seen record stays seen and read. */
  lemma SeenIsTerminal(a: Message, b: Message)
    requires Transition(a, b) && a.status == Seen && Lockstep(a)
    ensures b.status == Seen && !b.unread
  {
  }

  /** Every transition keeps the lockstep invariant. */
  lemma TransitionKeepsLockstep(a: Message, b: Message)
    requires Transition(a, b) && Lockstep(a)
    ensures Lockstep(b)
  {
  }

  /** Two transitions in a row are again one transition, so `Evolves` composes. */
  lemma TransitionTransitive(a: Message, b: Message, c: Message)
    requires Transition(a, b) && Transition(b, c)
    ensures Transition(a, c)
  {
  }

  lemma {:induction false} EvolvesTransitive(x: seq<Message>, y: seq<Message>, z: seq<Message>)
    requires Evolves(x, y) && Evolves(y, z)
    ensures Evolves(x, z)
  {
    forall i | 0 <= i < |x|
      ensures Transition(x[i], z[i])
    {
      TransitionTransitive(x[i], y[i], z[i]);
    }
  }

  /** Pointwise transitions carry the lockstep invariant over a whole store. */
  lemma {:induction false} EvolvesKeepsLockstep(before: seq<Message>, after: seq<Message>)
    requires Evolves(before, after) && |after| == |before| && AllLockstep(before)
    ensures AllLockstep(after)
  {
    forall i | 0 <= i < |after|
      ensures Lockstep(after[i])
    {
      TransitionKeepsLockstep(before[i], after[i]);
    }
  }
}
