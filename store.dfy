/** The message collection as the delivery core uses it: one in-memory
    sequence of records in insertion (natural) order, the filters, counts,
    "latest" lookups and sort that the handlers ask of the store, and the
    three bulk updates (`updateMany`) of the delivery state machine. */
module Store {
  import opened Domain

  /** The durable message collection. Records keep their insertion order and
      the store hands out ids in that order. */
  class MessageStore {
    var messages: seq<Message>

    ghost predicate Valid()
      reads this
    {
      IdsAreIndices(messages)
    }

    constructor ()
      ensures Valid() && messages == []
    {
      messages := [];
    }
  }

  predicate IdsAreIndices(ms: seq<Message>)
  {
    forall i | 0 <= i < |ms| :: ms[i].id == i
  }

  /** A store that evolves by transitions keeps its ids. */
  lemma EvolvesKeepsIds(before: seq<Message>, after: seq<Message>)
    requires Evolves(before, after) && |after| == |before| && IdsAreIndices(before)
    ensures IdsAreIndices(after)
  {
    forall i | 0 <= i < |after|
      ensures after[i].id == i
    {
      TransitionIsMonotone(before[i], after[i]);
    }
  }

  // ---------------------------------------------------------------- filters

  /** The filter `$or: [{senderId: a, receiverId: b}, {senderId: b, receiverId: a}]`. */
  predicate Between(m: Message, a: UserId, b: UserId)
  {
    (m.senderId == a && m.receiverId == b) || (m.senderId == b && m.receiverId == a)
  }

  /** The filter `{senderId: peer, receiverId: viewer, unread: true}`. */
  predicate UnreadFrom(m: Message, peer: UserId, viewer: UserId)
  {
    m.senderId == peer && m.receiverId == viewer && m.unread
  }

  /** The filter `{receiverId: user, status: "sent"}`. */
  predicate PendingFor(m: Message, user: UserId)
  {
    m.receiverId == user && m.status == Sent
  }

  // ---------------------------------------------------------------- queries

  /** `countDocuments({senderId: peer, receiverId: viewer, unread: true})`. */
  function CountUnread(ms: seq<Message>, peer: UserId, viewer: UserId): (n: nat)
    ensures n <= |ms|
  {
    if ms == [] then 0
    else CountUnread(ms[..|ms| - 1], peer, viewer) + (if UnreadFrom(ms[|ms| - 1], peer, viewer) then 1 else 0)
  }

  /** The count is the number of stored peer -> viewer records with unread set;
      no other record (in particular none the viewer sent) is counted. */
  lemma {:induction false} CountUnreadIsCardinality(ms: seq<Message>, peer: UserId, viewer: UserId)
    ensures CountUnread(ms, peer, viewer) == |set i | 0 <= i < |ms| && UnreadFrom(ms[i], peer, viewer)|
  {
    if ms != [] {
      var n := |ms| - 1;
      var init := ms[..n];
      CountUnreadIsCardinality(init, peer, viewer);
      var prior := set i | 0 <= i < n && UnreadFrom(init[i], peer, viewer);
      var all := set i | 0 <= i < |ms| && UnreadFrom(ms[i], peer, viewer);
      if UnreadFrom(ms[n], peer, viewer) {
        assert all == prior + {n};
        assert n !in prior;
      } else {
        assert all == prior;
      }
    }
  }

  /** Records whose unread flags agree on one pair have the same count for that pair. */
  lemma {:induction false} CountUnreadPointwise(a: seq<Message>, b: seq<Message>, peer: UserId, viewer: UserId)
    requires |a| == |b|
    requires forall i | 0 <= i < |a| :: UnreadFrom(a[i], peer, viewer) == UnreadFrom(b[i], peer, viewer)
    ensures CountUnread(a, peer, viewer) == CountUnread(b, peer, viewer)
  {
    if a != [] {
      CountUnreadPointwise(a[..|a| - 1], b[..|b| - 1], peer, viewer);
    }
  }

  /** No record of the pair is unread exactly when the count is zero. */
  lemma {:induction false} CountUnreadZero(ms: seq<Message>, peer: UserId, viewer: UserId)
    ensures CountUnread(ms, peer, viewer) == 0 <==> forall i | 0 <= i < |ms| :: !UnreadFrom(ms[i], peer, viewer)
  {
    if ms != [] {
      CountUnreadZero(ms[..|ms| - 1], peer, viewer);
      assert forall i | 0 <= i < |ms| - 1 :: ms[..|ms| - 1][i] == ms[i];
    }
  }

  /** `findOne($or of the pair).sort({createdAt: -1})`: the pair's most recent
      record, or None. Among records with equal timestamps the earliest stored
      one is returned. */
  function LatestBetween(ms: seq<Message>, a: UserId, b: UserId): (r: Option<Message>)
    ensures r.None? <==> forall i | 0 <= i < |ms| :: !Between(ms[i], a, b)
    ensures r.Some? ==> r.value in ms && Between(r.value, a, b)
    ensures r.Some? ==> forall i | 0 <= i < |ms| && Between(ms[i], a, b) :: ms[i].createdAt <= r.value.createdAt
  {
    if ms == [] then None
    else
      var m := ms[|ms| - 1];
      var rest := LatestBetween(ms[..|ms| - 1], a, b);
      assert forall i | 0 <= i < |ms| - 1 :: ms[..|ms| - 1][i] == ms[i];
      if Between(m, a, b) && (rest.None? || rest.value.createdAt < m.createdAt) then Some(m) else rest
  }

  /** A conversation is an unordered pair: asking for (a, b) or (b, a) gives the same record. */
  lemma {:induction false} LatestBetweenSymmetric(ms: seq<Message>, a: UserId, b: UserId)
    ensures LatestBetween(ms, a, b) == LatestBetween(ms, b, a)
  {
    if ms != [] {
      LatestBetweenSymmetric(ms[..|ms| - 1], a, b);
    }
  }

  /** `find({receiverId: user, status: "sent"})`, in store order: each pending
      record as often as the store holds it, and nothing else. */
  function Undelivered(ms: seq<Message>, user: UserId): (r: seq<Message>)
    ensures |r| <= |ms|
    ensures forall k | 0 <= k < |r| :: r[k] in ms && PendingFor(r[k], user)
    ensures forall i | 0 <= i < |ms| && PendingFor(ms[i], user) :: ms[i] in r
  {
    if ms == [] then []
    else
      var init := Undelivered(ms[..|ms| - 1], user);
      assert forall i | 0 <= i < |ms| - 1 :: ms[..|ms| - 1][i] == ms[i];
      if PendingFor(ms[|ms| - 1], user) then init + [ms[|ms| - 1]] else init
  }

  /** The sweep's query returns each pending record exactly as often as the
      store holds it, and no other record. */
  lemma {:induction false} UndeliveredCounts(ms: seq<Message>, user: UserId)
    ensures forall x :: multiset(Undelivered(ms, user))[x] == if PendingFor(x, user) then multiset(ms)[x] else 0
  {
    if ms != [] {
      UndeliveredCounts(ms[..|ms| - 1], user);
      assert ms == ms[..|ms| - 1] + [ms[|ms| - 1]];
    }
  }

  /** A store whose ids are its positions holds no record twice. */
  lemma {:induction false} IdsAreDistinct(ms: seq<Message>)
    requires IdsAreIndices(ms)
    ensures forall x :: multiset(ms)[x] <= 1
  {
    if ms != [] {
      var n := |ms| - 1;
      IdsAreDistinct(ms[..n]);
      assert ms == ms[..n] + [ms[n]];
      assert ms[n] !in ms[..n] by {
        forall i | 0 <= i < n
          ensures ms[..n][i] != ms[n]
        {
          assert ms[..n][i].id == i;
        }
      }
    }
  }

  /** The sweep visits each pending record of a valid store once. */
  lemma UndeliveredDistinct(ms: seq<Message>, user: UserId)
    requires IdsAreIndices(ms)
    ensures var r := Undelivered(ms, user);
            forall k, l | 0 <= k < l < |r| :: r[k] != r[l]
  {
    var r := Undelivered(ms, user);
    IdsAreDistinct(ms);
    UndeliveredCounts(ms, user);
    forall k, l | 0 <= k < l < |r|
      ensures r[k] != r[l]
    {
      if r[k] == r[l] {
        TwiceCounted(r, k, l);
        assert false;
      }
    }
  }

  /** An element at two positions occurs at least twice. */
  lemma TwiceCounted<T>(s: seq<T>, k: nat, l: nat)
    requires k < l < |s| && s[k] == s[l]
    ensures multiset(s)[s[k]] >= 2
  {
    assert s == s[..k] + [s[k]] + s[k + 1..l] + [s[l]] + s[l + 1..];
  }

  // ---------------------------------------------------------- bulk updates

  /** The connect sweep `updateMany({receiverId: user, status: "sent"},
      {$set: {status: "delivered"}})`. */
  function DeliverPending(ms: seq<Message>, user: UserId): (r: seq<Message>)
    ensures |r| == |ms| && Evolves(ms, r)
    ensures forall i | 0 <= i < |ms| && PendingFor(ms[i], user) :: r[i] == ms[i].(status := Delivered)
    ensures forall i | 0 <= i < |ms| && !PendingFor(ms[i], user) :: r[i] == ms[i]
    ensures forall i | 0 <= i < |r| :: !PendingFor(r[i], user) && r[i].unread == ms[i].unread
  {
    seq(|ms|, i requires 0 <= i < |ms| => if PendingFor(ms[i], user) then ms[i].(status := Delivered) else ms[i])
  }

  /** The HTTP seen update `updateMany({senderId, receiverId, unread: true},
      {$set: {unread: false, status: "seen"}})`. */
  function MarkSeenWhereUnread(ms: seq<Message>, senderId: UserId, receiverId: UserId): (r: seq<Message>)
    ensures |r| == |ms| && Evolves(ms, r)
    ensures forall i | 0 <= i < |ms| && UnreadFrom(ms[i], senderId, receiverId) :: r[i] == ms[i].(status := Seen, unread := false)
    ensures forall i | 0 <= i < |ms| && !UnreadFrom(ms[i], senderId, receiverId) :: r[i] == ms[i]
  {
    seq(|ms|, i requires 0 <= i < |ms| =>
      if UnreadFrom(ms[i], senderId, receiverId) then ms[i].(status := Seen, unread := false) else ms[i])
  }

  /** The socket seen update `updateMany({senderId, receiverId, status: {$ne: "seen"}},
      {$set: {status: "seen", unread: false}})`. */
  function MarkSeenWhereUnseen(ms: seq<Message>, senderId: UserId, receiverId: UserId): (r: seq<Message>)
    ensures |r| == |ms| && Evolves(ms, r)
    ensures forall i | 0 <= i < |ms| :: r[i].senderId == senderId && r[i].receiverId == receiverId ==> r[i].status == Seen
    ensures forall i | 0 <= i < |ms| && ms[i].senderId == senderId && ms[i].receiverId == receiverId && ms[i].status != Seen ::
              r[i] == ms[i].(status := Seen, unread := false)
    ensures forall i | 0 <= i < |ms| && !(ms[i].senderId == senderId && ms[i].receiverId == receiverId) :: r[i] == ms[i]
    ensures forall i | 0 <= i < |ms| && ms[i].status == Seen :: r[i] == ms[i]
  {
    seq(|ms|, i requires 0 <= i < |ms| =>
      if ms[i].senderId == senderId && ms[i].receiverId == receiverId && ms[i].status != Seen
      then ms[i].(status := Seen, unread := false) else ms[i])
  }

  /** Under the lockstep invariant the HTTP and socket seen updates do the same thing. */
  lemma SeenVariantsAgree(ms: seq<Message>, senderId: UserId, receiverId: UserId)
    requires AllLockstep(ms)
    ensures MarkSeenWhereUnread(ms, senderId, receiverId) == MarkSeenWhereUnseen(ms, senderId, receiverId)
  {
    var h := MarkSeenWhereUnread(ms, senderId, receiverId);
    var s := MarkSeenWhereUnseen(ms, senderId, receiverId);
    forall i | 0 <= i < |ms|
      ensures h[i] == s[i]
    {
      assert Lockstep(ms[i]);
    }
  }

  /** Without the invariant the variants can differ: a read but undelivered record. */
  lemma SeenVariantsDifferWithoutLockstep()
    ensures exists ms: seq<Message> :: MarkSeenWhereUnread(ms, "a", "b") != MarkSeenWhereUnseen(ms, "a", "b")
  {
    var m := Message(0, "a", "b", None, None, 0, Delivered, false);
    assert MarkSeenWhereUnread([m], "a", "b")[0] == m;
    assert MarkSeenWhereUnseen([m], "a", "b")[0].status == Seen;
  }

  /** After the HTTP seen update the sender -> receiver unread count is zero. */
  lemma HttpSeenClearsUnread(ms: seq<Message>, senderId: UserId, receiverId: UserId)
    ensures CountUnread(MarkSeenWhereUnread(ms, senderId, receiverId), senderId, receiverId) == 0
  {
    var r := MarkSeenWhereUnread(ms, senderId, receiverId);
    assert forall i | 0 <= i < |r| :: !UnreadFrom(r[i], senderId, receiverId);
    CountUnreadZero(r, senderId, receiverId);
  }

  /** After the socket seen update the count is zero too, but only because of the lockstep invariant. */
  lemma SocketSeenClearsUnread(ms: seq<Message>, senderId: UserId, receiverId: UserId)
    requires AllLockstep(ms)
    ensures CountUnread(MarkSeenWhereUnseen(ms, senderId, receiverId), senderId, receiverId) == 0
  {
    SeenVariantsAgree(ms, senderId, receiverId);
    HttpSeenClearsUnread(ms, senderId, receiverId);
  }

  /** A second socket seen update changes nothing further. */
  lemma SocketSeenIdempotent(ms: seq<Message>, senderId: UserId, receiverId: UserId)
    ensures var once := MarkSeenWhereUnseen(ms, senderId, receiverId);
            MarkSeenWhereUnseen(once, senderId, receiverId) == once
  {
  }

  /** Seen updates leave every other pair's unread count alone, the opposite direction included. */
  lemma SeenKeepsOtherCounts(ms: seq<Message>, senderId: UserId, receiverId: UserId, peer: UserId, viewer: UserId)
    requires peer != senderId || viewer != receiverId
    ensures CountUnread(MarkSeenWhereUnread(ms, senderId, receiverId), peer, viewer) == CountUnread(ms, peer, viewer)
    ensures CountUnread(MarkSeenWhereUnseen(ms, senderId, receiverId), peer, viewer) == CountUnread(ms, peer, viewer)
  {
    CountUnreadPointwise(MarkSeenWhereUnread(ms, senderId, receiverId), ms, peer, viewer);
    CountUnreadPointwise(MarkSeenWhereUnseen(ms, senderId, receiverId), ms, peer, viewer);
  }

  /** The connect sweep never changes any unread count. */
  lemma SweepKeepsCounts(ms: seq<Message>, user: UserId, peer: UserId, viewer: UserId)
    ensures CountUnread(DeliverPending(ms, user), peer, viewer) == CountUnread(ms, peer, viewer)
  {
    CountUnreadPointwise(DeliverPending(ms, user), ms, peer, viewer);
  }

  /** A sweep with nothing pending leaves the store as it was. */
  lemma SweepOfNothing(ms: seq<Message>, user: UserId)
    requires Undelivered(ms, user) == []
    ensures DeliverPending(ms, user) == ms
  {
  }

  // ------------------------------------------------------------------ sort

  predicate NewestFirst(s: seq<Message>)
  {
    forall i, j | 0 <= i < j < |s| :: s[i].createdAt >= s[j].createdAt
  }

  function InsertByNewest(m: Message, s: seq<Message>): (r: seq<Message>)
    requires NewestFirst(s)
    ensures NewestFirst(r) && multiset(r) == multiset(s) + multiset{m}
  {
    if s == [] || m.createdAt >= s[0].createdAt then
      ConsNewest(m, s);
      [m] + s
    else
      var tail := InsertByNewest(m, s[1..]);
      InsertBelowHead(m, s, tail);
      [s[0]] + tail
  }

  /** A record older than the head of `s`, inserted into the rest of `s`,
      leaves the head in front. */
  lemma InsertBelowHead(m: Message, s: seq<Message>, tail: seq<Message>)
    requires NewestFirst(s) && s != [] && m.createdAt < s[0].createdAt
    requires NewestFirst(tail) && multiset(tail) == multiset(s[1..]) + multiset{m}
    ensures NewestFirst([s[0]] + tail) && multiset([s[0]] + tail) == multiset(s) + multiset{m}
  {
    assert s == [s[0]] + s[1..];
    forall k | 0 <= k < |tail|
      ensures tail[k].createdAt <= s[0].createdAt
    {
      assert tail[k] in multiset(tail);
      if tail[k] != m {
        assert tail[k] in s[1..];
        var j :| 0 <= j < |s| - 1 && s[1..][j] == tail[k];
        assert s[j + 1] == tail[k];
      }
    }
    ConsNewest(s[0], tail);
  }

  /** A record no older than every record of a newest-first sequence can lead it. */
  lemma ConsNewest(h: Message, t: seq<Message>)
    requires NewestFirst(t)
    requires forall k | 0 <= k < |t| :: t[k].createdAt <= h.createdAt
    ensures NewestFirst([h] + t)
  {
    var r := [h] + t;
    forall i, j | 0 <= i < j < |r|
      ensures r[i].createdAt >= r[j].createdAt
    {
      if i > 0 {
        assert r[i] == t[i - 1] && r[j] == t[j - 1];
      } else {
        assert r[j] == t[j - 1];
      }
    }
  }

  /** `sort({createdAt: -1})`: the same records, newest first (stable on ties). */
  function SortNewestFirst(s: seq<Message>): (r: seq<Message>)
    ensures NewestFirst(r) && multiset(r) == multiset(s)
  {
    if s == [] then []
    else
      assert s == [s[0]] + s[1..];
      InsertByNewest(s[0], SortNewestFirst(s[1..]))
  }
}
