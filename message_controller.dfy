/** The HTTP message controller: the sidebar query, backward pagination of a
    conversation, sending a message, and the HTTP "mark as seen". */
module MessageController {
  import opened Domain
  import opened Store
  import opened Presence
  import opened Events

  // ---------------------------------------------------------------- sidebar

  /** One sidebar row: a peer, the pair's latest message (null when the pair
      has none) and how many of the peer's messages the viewer has not read. */
  datatype SidebarEntry = SidebarEntry(user: UserId, lastMessage: Option<Message>, unreadCount: nat)

  function UsersOf(r: seq<SidebarEntry>): (us: seq<UserId>)
    ensures |us| == |r| && forall k | 0 <= k < |r| :: us[k] == r[k].user
  {
    seq(|r|, k requires 0 <= k < |r| => r[k].user)
  }

  /** `getUsersForSidebar`: one entry per user other than the viewer, in the
      order the user collection lists them. */
  function GetUsersForSidebar(users: seq<UserId>, ms: seq<Message>, loggedInUserId: UserId): (r: seq<SidebarEntry>)
    ensures multiset(UsersOf(r)) == multiset(users)[loggedInUserId := 0]
    ensures forall k | 0 <= k < |r| ::
              && r[k].unreadCount == CountUnread(ms, r[k].user, loggedInUserId)
              && r[k].lastMessage == LatestBetween(ms, loggedInUserId, r[k].user)
  {
    if users == [] then []
    else
      var init := users[..|users| - 1];
      var u := users[|users| - 1];
      var rest := GetUsersForSidebar(init, ms, loggedInUserId);
      assert users == init + [u];
      DropViewer(init, u, loggedInUserId);
      if u == loggedInUserId then rest
      else
        var r := rest + [SidebarEntry(u, LatestBetween(ms, loggedInUserId, u), CountUnread(ms, u, loggedInUserId))];
        assert UsersOf(r) == UsersOf(rest) + [u];
        r
  }

  /** Every user other than the viewer has an entry, and every entry is such a user. */
  lemma SidebarListsPeers(users: seq<UserId>, ms: seq<Message>, loggedInUserId: UserId)
    ensures var r := GetUsersForSidebar(users, ms, loggedInUserId);
            && (forall k | 0 <= k < |r| :: r[k].user in users && r[k].user != loggedInUserId)
            && (forall j | 0 <= j < |users| && users[j] != loggedInUserId :: users[j] in UsersOf(r))
  {
    var r := GetUsersForSidebar(users, ms, loggedInUserId);
    var entries := UsersOf(r);
    forall k | 0 <= k < |r|
      ensures r[k].user in users && r[k].user != loggedInUserId
    {
      assert entries[k] in multiset(entries);
    }
    forall j | 0 <= j < |users| && users[j] != loggedInUserId
      ensures users[j] in entries
    {
      assert users[j] in multiset(users);
      assert users[j] in multiset(entries);
    }
  }

  lemma DropViewer(init: seq<UserId>, u: UserId, viewer: UserId)
    ensures multiset(init + [u])[viewer := 0]
            == if u == viewer then multiset(init)[viewer := 0] else multiset(init)[viewer := 0] + multiset{u}
  {
    assert multiset(init + [u]) == multiset(init) + multiset{u};
  }

  // ------------------------------------------------------------- pagination

  const PageSize: nat := 30

  /** One page of a conversation, oldest first, and whether the page was full. */
  datatype MessagePage = MessagePage(messages: seq<Message>, hasMore: bool)

  /** The query filter of `getMessages`: the pair in either direction and, when
      a cursor is given, strictly older than it. */
  predicate InQuery(m: Message, myId: UserId, userToChatId: UserId, before: Option<nat>)
  {
    Between(m, myId, userToChatId) && (before.None? || m.createdAt < before.value)
  }

  /** `find(filter)` in store order: each matching record as often as the store
      holds it, and nothing else. */
  function Conversation(ms: seq<Message>, myId: UserId, userToChatId: UserId, before: Option<nat>): (r: seq<Message>)
    ensures forall k | 0 <= k < |r| :: r[k] in ms && InQuery(r[k], myId, userToChatId, before)
    ensures forall i | 0 <= i < |ms| && InQuery(ms[i], myId, userToChatId, before) :: ms[i] in r
  {
    if ms == [] then []
    else
      var init := Conversation(ms[..|ms| - 1], myId, userToChatId, before);
      assert forall i | 0 <= i < |ms| - 1 :: ms[..|ms| - 1][i] == ms[i];
      if InQuery(ms[|ms| - 1], myId, userToChatId, before) then init + [ms[|ms| - 1]] else init
  }

  /** The query returns each matching record exactly as often as the store
      holds it, and no other record. */
  lemma {:induction false} ConversationCounts(ms: seq<Message>, myId: UserId, userToChatId: UserId, before: Option<nat>)
    ensures forall x :: multiset(Conversation(ms, myId, userToChatId, before))[x]
                        == if InQuery(x, myId, userToChatId, before) then multiset(ms)[x] else 0
  {
    if ms != [] {
      ConversationCounts(ms[..|ms| - 1], myId, userToChatId, before);
      assert ms == ms[..|ms| - 1] + [ms[|ms| - 1]];
    }
  }

  /** Array `reverse()`. */
  function Reverse(s: seq<Message>): (r: seq<Message>)
    ensures |r| == |s| && forall k | 0 <= k < |s| :: r[k] == s[|s| - 1 - k]
  {
    if s == [] then [] else Reverse(s[1..]) + [s[0]]
  }

  /** In a newest-first sequence, a record outside the first `n` is no newer
      than any record inside them. */
  lemma NewestKept(sorted: seq<Message>, n: nat, x: Message)
    requires NewestFirst(sorted) && n <= |sorted|
    requires x in sorted && x !in sorted[..n]
    ensures forall k | 0 <= k < n :: x.createdAt <= sorted[k].createdAt
  {
    var j :| 0 <= j < |sorted| && sorted[j] == x;
    assert j >= n;
  }

  /** `sort({createdAt: -1}).limit(30)` followed by `reverse()`. */
  function NewestPage(candidates: seq<Message>): (page: seq<Message>)
    ensures |page| == if |candidates| < PageSize then |candidates| else PageSize
    ensures forall k | 0 <= k < |page| :: page[k] in candidates
    ensures forall k, l | 0 <= k < l < |page| :: page[k].createdAt <= page[l].createdAt
    ensures forall x | x in candidates && x !in page :: forall k | 0 <= k < |page| :: x.createdAt <= page[k].createdAt
  {
    var sorted := SortNewestFirst(candidates);
    var newest := if |sorted| <= PageSize then sorted else sorted[..PageSize];
    var page := Reverse(newest);
    NewestPageFacts(candidates, sorted, newest, page);
    page
  }

  lemma NewestPageFacts(candidates: seq<Message>, sorted: seq<Message>, newest: seq<Message>, page: seq<Message>)
    requires NewestFirst(sorted) && multiset(sorted) == multiset(candidates)
    requires newest == if |sorted| <= PageSize then sorted else sorted[..PageSize]
    requires |page| == |newest| && forall k | 0 <= k < |newest| :: page[k] == newest[|newest| - 1 - k]
    ensures |page| == if |candidates| < PageSize then |candidates| else PageSize
    ensures forall k | 0 <= k < |page| :: page[k] in candidates
    ensures forall k, l | 0 <= k < l < |page| :: page[k].createdAt <= page[l].createdAt
    ensures forall x | x in candidates && x !in page :: forall k | 0 <= k < |page| :: x.createdAt <= page[k].createdAt
  {
    SortedLength(candidates, sorted);
    assert newest == sorted[..|newest|];
    PrefixNewestFirst(sorted, |newest|);
    NewestInCandidates(candidates, sorted, newest);
    forall k | 0 <= k < |page|
      ensures page[k] in candidates
    {
      assert page[k] == newest[|newest| - 1 - k];
    }
    NewestOnPage(newest, page);
    ReversedAscending(newest, page);
    OlderThanPage(candidates, sorted, newest, page);
  }

  /** The page repeats no candidate: it holds each at most as often as the
      candidates do. */
  lemma NewestPageDrawn(candidates: seq<Message>)
    ensures multiset(NewestPage(candidates)) <= multiset(candidates)
  {
    var sorted := SortNewestFirst(candidates);
    var newest := if |sorted| <= PageSize then sorted else sorted[..PageSize];
    ReverseKeepsMultiset(newest);
    assert sorted == newest + sorted[|newest|..];
  }

  lemma {:induction false} ReverseKeepsMultiset(s: seq<Message>)
    ensures multiset(Reverse(s)) == multiset(s)
  {
    if s != [] {
      ReverseKeepsMultiset(s[1..]);
      assert s == [s[0]] + s[1..];
    }
  }

  lemma PrefixNewestFirst(sorted: seq<Message>, n: nat)
    requires NewestFirst(sorted) && n <= |sorted|
    ensures NewestFirst(sorted[..n])
  {
    var p := sorted[..n];
    forall i, j | 0 <= i < j < |p|
      ensures p[i].createdAt >= p[j].createdAt
    {
      assert p[i] == sorted[i] && p[j] == sorted[j];
    }
  }

  lemma ReversedAscending(newest: seq<Message>, page: seq<Message>)
    requires NewestFirst(newest)
    requires |page| == |newest| && forall k | 0 <= k < |newest| :: page[k] == newest[|newest| - 1 - k]
    ensures forall k, l | 0 <= k < l < |page| :: page[k].createdAt <= page[l].createdAt
  {
    forall k, l | 0 <= k < l < |page|
      ensures page[k].createdAt <= page[l].createdAt
    {
      assert page[k] == newest[|newest| - 1 - k] && page[l] == newest[|newest| - 1 - l];
    }
  }

  lemma OlderThanPage(candidates: seq<Message>, sorted: seq<Message>, newest: seq<Message>, page: seq<Message>)
    requires NewestFirst(sorted) && multiset(sorted) == multiset(candidates)
    requires |newest| <= |sorted| && newest == sorted[..|newest|]
    requires |page| == |newest| && forall k | 0 <= k < |newest| :: page[k] == newest[|newest| - 1 - k]
    requires forall x | x in newest :: x in page
    ensures forall x | x in candidates && x !in page :: forall k | 0 <= k < |page| :: x.createdAt <= page[k].createdAt
  {
    forall x, k | x in candidates && x !in page && 0 <= k < |page|
      ensures x.createdAt <= page[k].createdAt
    {
      assert x in multiset(sorted);
      NewestKept(sorted, |newest|, x);
      assert page[k] == sorted[|newest| - 1 - k];
    }
  }

  lemma SortedLength(candidates: seq<Message>, sorted: seq<Message>)
    requires multiset(sorted) == multiset(candidates)
    ensures |sorted| == |candidates|
  {
    assert |sorted| == |multiset(sorted)|;
    assert |candidates| == |multiset(candidates)|;
  }

  lemma NewestInCandidates(candidates: seq<Message>, sorted: seq<Message>, newest: seq<Message>)
    requires multiset(sorted) == multiset(candidates)
    requires |newest| <= |sorted| && newest == sorted[..|newest|]
    ensures forall k | 0 <= k < |newest| :: newest[k] in candidates
  {
    forall k | 0 <= k < |newest|
      ensures newest[k] in candidates
    {
      assert newest[k] == sorted[k];
      assert sorted[k] in multiset(sorted);
    }
  }

  lemma NewestOnPage(newest: seq<Message>, page: seq<Message>)
    requires |page| == |newest| && forall k | 0 <= k < |newest| :: page[k] == newest[|newest| - 1 - k]
    ensures forall x | x in newest :: x in page
  {
    forall x | x in newest
      ensures x in page
    {
      var j :| 0 <= j < |newest| && newest[j] == x;
      assert page[|newest| - 1 - j] == x;
    }
  }

  /** `getMessages`: the newest page of the conversation older than `before`,
      returned oldest first, with `hasMore` set when the page is full. */
  function GetMessages(ms: seq<Message>, myId: UserId, userToChatId: UserId, before: Option<nat>): (r: MessagePage)
    ensures var n := |Conversation(ms, myId, userToChatId, before)|;
            |r.messages| == if n < PageSize then n else PageSize
    ensures r.hasMore <==> |r.messages| == PageSize
    ensures forall k | 0 <= k < |r.messages| :: r.messages[k] in ms && InQuery(r.messages[k], myId, userToChatId, before)
    ensures forall k, l | 0 <= k < l < |r.messages| :: r.messages[k].createdAt <= r.messages[l].createdAt
    ensures forall i | 0 <= i < |ms| && InQuery(ms[i], myId, userToChatId, before) && ms[i] !in r.messages ::
              forall k | 0 <= k < |r.messages| :: ms[i].createdAt <= r.messages[k].createdAt
  {
    var page := NewestPage(Conversation(ms, myId, userToChatId, before));
    MessagePage(page, |page| == PageSize)
  }

  /** A page repeats no record of the conversation: it holds each at most as
      often as the query returns it. */
  lemma PageDrawn(ms: seq<Message>, myId: UserId, userToChatId: UserId, before: Option<nat>)
    ensures multiset(GetMessages(ms, myId, userToChatId, before).messages)
            <= multiset(Conversation(ms, myId, userToChatId, before))
  {
    NewestPageDrawn(Conversation(ms, myId, userToChatId, before));
  }

  /** A page shows no record more often than the store holds it. */
  lemma PageFromStore(ms: seq<Message>, myId: UserId, userToChatId: UserId, before: Option<nat>)
    ensures multiset(GetMessages(ms, myId, userToChatId, before).messages) <= multiset(ms)
  {
    var conv := Conversation(ms, myId, userToChatId, before);
    PageDrawn(ms, myId, userToChatId, before);
    ConversationCounts(ms, myId, userToChatId, before);
    assert multiset(conv) <= multiset(ms);
  }

  /** In a store whose ids are its positions, a page never shows a record twice. */
  lemma PageIsDistinct(ms: seq<Message>, myId: UserId, userToChatId: UserId, before: Option<nat>)
    requires IdsAreIndices(ms)
    ensures var page := GetMessages(ms, myId, userToChatId, before).messages;
            forall k, l | 0 <= k < l < |page| :: page[k] != page[l]
  {
    var page := GetMessages(ms, myId, userToChatId, before).messages;
    PageFromStore(ms, myId, userToChatId, before);
    IdsAreDistinct(ms);
    forall k, l | 0 <= k < l < |page|
      ensures page[k] != page[l]
    {
      if page[k] == page[l] {
        TwiceCounted(page, k, l);
        assert false;
      }
    }
  }

  /** Paging backward with the oldest returned record as the next cursor skips
      nothing and repeats nothing when timestamps are distinct: every record of
      the conversation not on this page qualifies for the next one, and every
      record that qualifies is older than the whole page. */
  lemma NextPageContinues(ms: seq<Message>, myId: UserId, userToChatId: UserId, before: Option<nat>)
    requires forall i, j | 0 <= i < |ms| && 0 <= j < |ms| && ms[i] != ms[j] :: ms[i].createdAt != ms[j].createdAt
    requires GetMessages(ms, myId, userToChatId, before).messages != []
    ensures var page := GetMessages(ms, myId, userToChatId, before).messages;
            var cursor := Some(page[0].createdAt);
            && (forall i | 0 <= i < |ms| && InQuery(ms[i], myId, userToChatId, before) && ms[i] !in page ::
                  InQuery(ms[i], myId, userToChatId, cursor))
            && (forall i | 0 <= i < |ms| && InQuery(ms[i], myId, userToChatId, cursor) ::
                  ms[i] !in page && forall k | 0 <= k < |page| :: ms[i].createdAt < page[k].createdAt)
  {
    var page := GetMessages(ms, myId, userToChatId, before).messages;
    assert page[0] in ms;
    forall i | 0 <= i < |ms| && InQuery(ms[i], myId, userToChatId, before) && ms[i] !in page
      ensures ms[i].createdAt < page[0].createdAt
    {
      assert ms[i] != page[0];
    }
  }

  /** A page drawn from a store of distinct records that is shorter than the
      store leaves some stored record out. */
  lemma SomeMissing(ms: seq<Message>, p: seq<Message>) returns (i: nat)
    requires IdsAreIndices(ms) && multiset(p) <= multiset(ms) && |p| < |ms|
    ensures i < |ms| && ms[i] !in p
  {
    IdsAreDistinct(ms);
    var all, shown := multiset(ms), multiset(p);
    assert all == shown + (all - shown);
    assert |all| == |ms| && |shown| == |p|;
    assert |all - shown| > 0;
    var x :| x in all - shown;
    i :| 0 <= i < |ms| && ms[i] == x;
  }

  /** A page drawn from a store of distinct records that leaves out two of them
      is at least two records shorter than the store. */
  lemma TwoMissing(ms: seq<Message>, p: seq<Message>, a: nat, b: nat)
    requires IdsAreIndices(ms) && multiset(p) <= multiset(ms)
    requires a < |ms| && b < |ms| && a != b
    ensures ms[a] !in p && ms[b] !in p ==> |p| + 2 <= |ms|
  {
    if ms[a] !in p && ms[b] !in p {
      var all, shown, left := multiset(ms), multiset(p), multiset{ms[a], ms[b]};
      assert ms[a].id == a && ms[b].id == b;
      assert ms[a] in all && ms[b] in all;
      assert left <= all;
      assert shown <= all - left;
      assert all == (all - left) + left;
      assert all - left == shown + ((all - left) - shown);
    }
  }

  /** A conversation of 31 records from "a" to "b" whose two oldest records
      were created at the same instant 1; record i > 1 was created at i. */
  function TiedConversation(): (ms: seq<Message>)
    ensures |ms| == PageSize + 1 && IdsAreIndices(ms)
    ensures forall i | 0 <= i < |ms| :: InQuery(ms[i], "a", "b", None) && ms[i].createdAt >= 1
    ensures ms[0].createdAt == 1 && ms[1].createdAt == 1
  {
    seq(PageSize + 1, i requires 0 <= i <= PageSize => Message(i, "a", "b", None, None, if i == 0 then 1 else i, Sent, true))
  }

  /** With tied timestamps the `$lt` cursor skips records. Take any 31-record
      conversation (such as `TiedConversation`) whose two oldest records `a`
      and `b` were created at the same instant: the first page is full, and record `i` is
      left off it although the next page's filter `createdAt < page[0].createdAt`
      excludes it too, as does every later page's, whose cursors are older. */
  lemma TiedCursorSkips(ms: seq<Message>, myId: UserId, userToChatId: UserId, a: nat, b: nat) returns (i: nat)
    requires |ms| == PageSize + 1 && IdsAreIndices(ms)
    requires a < |ms| && b < |ms| && a != b && ms[a].createdAt == ms[b].createdAt
    requires forall i | 0 <= i < |ms| :: InQuery(ms[i], myId, userToChatId, None) && ms[a].createdAt <= ms[i].createdAt
    ensures var page := GetMessages(ms, myId, userToChatId, None).messages;
            && |page| == PageSize
            && i < |ms| && ms[i] !in page
            && !InQuery(ms[i], myId, userToChatId, Some(page[0].createdAt))
  {
    var page := GetMessages(ms, myId, userToChatId, None).messages;
    FirstPageFacts(ms, myId, userToChatId);
    FullFirstPage(ms, myId, userToChatId);
    PageFromStore(ms, myId, userToChatId, None);
    i := TieLeftOff(ms, myId, userToChatId, a, b, page);
  }

  /** The first page's records come from the store, oldest first, and no
      record left off is newer than one shown. */
  lemma FirstPageFacts(ms: seq<Message>, myId: UserId, userToChatId: UserId)
    ensures var page := GetMessages(ms, myId, userToChatId, None).messages;
            && (forall k | 0 <= k < |page| :: page[k] in ms)
            && (forall k, l | 0 <= k < l < |page| :: page[k].createdAt <= page[l].createdAt)
            && (forall i | 0 <= i < |ms| && InQuery(ms[i], myId, userToChatId, None) && ms[i] !in page ::
                  forall k | 0 <= k < |page| :: ms[i].createdAt <= page[k].createdAt)
  {
  }

  /** A full page of 30 out of 31 distinct records, oldest first, that keeps
      the newest ones, leaves off a record as old as its own oldest record
      when the two oldest stored records `a` and `b` tie. */
  lemma TieLeftOff(ms: seq<Message>, myId: UserId, userToChatId: UserId, a: nat, b: nat, page: seq<Message>)
    returns (i: nat)
    requires |ms| == PageSize + 1 && IdsAreIndices(ms)
    requires a < |ms| && b < |ms| && a != b && ms[a].createdAt == ms[b].createdAt
    requires forall i | 0 <= i < |ms| :: InQuery(ms[i], myId, userToChatId, None) && ms[a].createdAt <= ms[i].createdAt
    requires forall k | 0 <= k < |page| :: page[k] in ms
    requires forall k, l | 0 <= k < l < |page| :: page[k].createdAt <= page[l].createdAt
    requires forall i | 0 <= i < |ms| && InQuery(ms[i], myId, userToChatId, None) && ms[i] !in page ::
               forall k | 0 <= k < |page| :: ms[i].createdAt <= page[k].createdAt
    requires |page| == PageSize && multiset(page) <= multiset(ms)
    ensures i < |ms| && ms[i] !in page && ms[i].createdAt == page[0].createdAt
  {
    i := SomeMissing(ms, page);
    TwoMissing(ms, page, a, b);
    var z := if ms[a] in page then ms[a] else ms[b];
    var k :| 0 <= k < |page| && page[k] == z;
    assert ms[i].createdAt <= z.createdAt;
    var j :| 0 <= j < |ms| && ms[j] == page[0];
  }

  /** The skip happens on `TiedConversation`: record `i` of it is never paged. */
  lemma TiedConversationSkips() returns (i: nat)
    ensures var ms := TiedConversation();
            var page := GetMessages(ms, "a", "b", None).messages;
            i < |ms| && ms[i] !in page && !InQuery(ms[i], "a", "b", Some(page[0].createdAt))
  {
    i := TiedCursorSkips(TiedConversation(), "a", "b", 0, 1);
  }

  /** A conversation of more than 30 records fills its first page. */
  lemma FullFirstPage(ms: seq<Message>, myId: UserId, userToChatId: UserId)
    requires |ms| >= PageSize
    requires forall i | 0 <= i < |ms| :: InQuery(ms[i], myId, userToChatId, None)
    ensures |GetMessages(ms, myId, userToChatId, None).messages| == PageSize
  {
    WholeConversation(ms, myId, userToChatId);
  }

  /** When every stored record is in the query, the query returns all of them. */
  lemma WholeConversation(ms: seq<Message>, myId: UserId, userToChatId: UserId)
    requires forall i | 0 <= i < |ms| :: InQuery(ms[i], myId, userToChatId, None)
    ensures |Conversation(ms, myId, userToChatId, None)| == |ms|
    ensures multiset(Conversation(ms, myId, userToChatId, None)) == multiset(ms)
  {
    var conv := Conversation(ms, myId, userToChatId, None);
    ConversationCounts(ms, myId, userToChatId, None);
    forall x
      ensures multiset(conv)[x] == multiset(ms)[x]
    {
      if !InQuery(x, myId, userToChatId, None) {
        assert x !in ms;
      }
    }
    assert multiset(conv) == multiset(ms);
    assert |conv| == |multiset(conv)| == |multiset(ms)| == |ms|;
  }

  // ------------------------------------------------------------------- send

  /** The emissions of `sendMessage` for the saved record `m`, counts taken on
      the store `ms` after the save. */
  function SendEvents(m: Message, sockets: map<UserId, SocketId>, ms: seq<Message>): (r: seq<Event>)
    ensures |r| == (if m.receiverId in sockets then 2 else 0) + (if m.senderId in sockets then 1 else 0)
    ensures forall e | e in r && e.NewMessage? :: m.receiverId in sockets && e == NewMessage(sockets[m.receiverId], m)
    ensures forall k | 0 <= k < |r| && r[k].NewMessage? :: k == 0
    ensures m.receiverId in sockets ==> r[0] == NewMessage(sockets[m.receiverId], m)
    ensures forall e | e in r && e.UpdateLastMessage? :: e.lastMessage == Some(m)
    ensures m.receiverId in sockets ==>
              r[1] == UpdateLastMessage(sockets[m.receiverId], Some(m), Some(CountUnread(ms, m.senderId, m.receiverId)))
    ensures m.senderId in sockets ==>
              r[|r| - 1] == UpdateLastMessage(sockets[m.senderId], Some(m), Some(CountUnread(ms, m.receiverId, m.senderId)))
    ensures forall e | e in r :: e.NewMessage? || e.UpdateLastMessage?
    ensures forall e | e in r ::
              || (m.receiverId in sockets && e.to == sockets[m.receiverId])
              || (m.senderId in sockets && e.to == sockets[m.senderId])
  {
    var toReceiver :=
      if m.receiverId in sockets then
        [NewMessage(sockets[m.receiverId], m),
         UpdateLastMessage(sockets[m.receiverId], Some(m), Some(CountUnread(ms, m.senderId, m.receiverId)))]
      else [];
    var toSender :=
      if m.senderId in sockets then
        [UpdateLastMessage(sockets[m.senderId], Some(m), Some(CountUnread(ms, m.receiverId, m.senderId)))]
      else [];
    toReceiver + toSender
  }

  /** `sendMessage`: saves one new record, unread, delivered exactly when the
      receiver has a live socket, and notifies both parties. `imageUrl` is what
      the upload service returned for an attached image. */
  method SendMessage(presence: UserSocketMap, store: MessageStore, io: EventLog,
                     senderId: UserId, receiverId: UserId, text: Option<string>, imageUrl: Option<string>, now: nat)
    returns (newMessage: Message)
    requires presence.Valid() && store.Valid()
    modifies store, io
    ensures store.Valid()
    ensures store.messages == old(store.messages) + [newMessage]
    ensures newMessage.id == |old(store.messages)| && newMessage.createdAt == now
    ensures newMessage.senderId == senderId && newMessage.receiverId == receiverId
    ensures newMessage.text == text && newMessage.image == imageUrl
    ensures newMessage.unread
    ensures newMessage.status == if receiverId in presence.sockets then Delivered else Sent
    ensures io.events == old(io.events) + SendEvents(newMessage, presence.sockets, store.messages)
    ensures Evolves(old(store.messages), store.messages)
    ensures AllLockstep(old(store.messages)) ==> AllLockstep(store.messages)
    ensures CountUnread(store.messages, senderId, receiverId) == CountUnread(old(store.messages), senderId, receiverId) + 1
  {
    var receiverSocketId := presence.GetReceiverSocketId(receiverId);
    newMessage := Message(|store.messages|, senderId, receiverId, text, imageUrl, now,
                          if receiverSocketId.Some? then Delivered else Sent, true);
    ghost var before := store.messages;
    store.messages := store.messages + [newMessage];
    AppendUnread(before, newMessage);
    NotifySent(presence, io, newMessage, store.messages);
  }

  /** Appending an unread, not-yet-seen record is an allowed evolution that keeps
      the invariant and adds one to its own pair's unread count. */
  lemma AppendUnread(before: seq<Message>, m: Message)
    requires m.unread && m.status != Seen
    ensures Evolves(before, before + [m])
    ensures AllLockstep(before) ==> AllLockstep(before + [m])
    ensures CountUnread(before + [m], m.senderId, m.receiverId) == CountUnread(before, m.senderId, m.receiverId) + 1
  {
    assert (before + [m])[..|before|] == before;
  }

  /** The emissions of `sendMessage`, after the record is stored. */
  method NotifySent(presence: UserSocketMap, io: EventLog, newMessage: Message, ms: seq<Message>)
    requires presence.Valid()
    modifies io
    ensures io.events == old(io.events) + SendEvents(newMessage, presence.sockets, ms)
  {
    var receiverSocketId := presence.GetReceiverSocketId(newMessage.receiverId);
    if receiverSocketId.Some? {
      io.Emit(NewMessage(receiverSocketId.value, newMessage));
    }

    var senderSocketId := presence.GetReceiverSocketId(newMessage.senderId);
    var unreadCountForReceiver := CountUnread(ms, newMessage.senderId, newMessage.receiverId);
    var unreadCountForSender := CountUnread(ms, newMessage.receiverId, newMessage.senderId);

    if receiverSocketId.Some? {
      io.Emit(UpdateLastMessage(receiverSocketId.value, Some(newMessage), Some(unreadCountForReceiver)));
    }
    if senderSocketId.Some? {
      io.Emit(UpdateLastMessage(senderSocketId.value, Some(newMessage), Some(unreadCountForSender)));
    }
  }

  // ------------------------------------------------------------- HTTP seen

  /** The emissions of the HTTP "mark as seen", taken on the updated store `ms`. */
  function HttpSeenEvents(senderId: UserId, receiverId: UserId, sockets: map<UserId, SocketId>, ms: seq<Message>): (r: seq<Event>)
    ensures |r| == (if senderId in sockets then 1 else 0) + (if receiverId in sockets then 1 else 0)
    ensures forall e | e in r && e.MessagesSeen? ::
              senderId in sockets && e.to == sockets[senderId] && e.senderId == senderId && e.receiverId == receiverId
    ensures forall e | e in r && e.MessagesSeen? ::
              && e.lastMessage == LatestBetween(ms, senderId, receiverId)
              && e.unreadCount == if e.lastMessage.Some? then Some(CountUnread(ms, receiverId, senderId)) else None
    ensures senderId in sockets <==> exists e | e in r :: e.MessagesSeen?
    ensures forall e | e in r && e.UpdateLastMessage? ::
              && receiverId in sockets && e.to == sockets[receiverId]
              && e.lastMessage == LatestBetween(ms, senderId, receiverId)
              && e.unreadCount == Some(CountUnread(ms, senderId, receiverId))
    ensures receiverId in sockets <==> exists e | e in r :: e.UpdateLastMessage?
    ensures senderId in sockets ==> r[0].MessagesSeen?
    ensures forall e | e in r :: e.MessagesSeen? || e.UpdateLastMessage?
  {
    var lastMessage := LatestBetween(ms, senderId, receiverId);
    var toSender :=
      if senderId in sockets then
        [MessagesSeen(sockets[senderId], senderId, receiverId, lastMessage,
                      if lastMessage.Some? then Some(CountUnread(ms, receiverId, senderId)) else None)]
      else [];
    var toReceiver :=
      if receiverId in sockets then
        [UpdateLastMessage(sockets[receiverId], lastMessage, Some(CountUnread(ms, senderId, receiverId)))]
      else [];
    assert senderId in sockets ==> (toSender + toReceiver)[0] == toSender[0];
    assert receiverId in sockets ==> (toSender + toReceiver)[|toSender|] == toReceiver[0];
    toSender + toReceiver
  }

  /** The HTTP `markMessagesAsSeen`: every unread sender -> receiver record
      becomes seen and read; nothing else changes; both parties are told. */
  method MarkMessagesAsSeen(presence: UserSocketMap, store: MessageStore, io: EventLog,
                            senderId: UserId, receiverId: UserId)
    requires presence.Valid() && store.Valid()
    modifies store, io
    ensures store.Valid()
    ensures store.messages == MarkSeenWhereUnread(old(store.messages), senderId, receiverId)
    ensures io.events == old(io.events) + HttpSeenEvents(senderId, receiverId, presence.sockets, store.messages)
    ensures Evolves(old(store.messages), store.messages)
    ensures AllLockstep(old(store.messages)) ==> AllLockstep(store.messages)
    ensures CountUnread(store.messages, senderId, receiverId) == 0
    ensures forall e | e in io.events[|old(io.events)|..] && e.UpdateLastMessage? :: e.unreadCount == Some(0)
  {
    ghost var before := store.messages;
    store.messages := MarkSeenWhereUnread(store.messages, senderId, receiverId);
    EvolvesKeepsIds(before, store.messages);
    if AllLockstep(before) {
      EvolvesKeepsLockstep(before, store.messages);
    }
    HttpSeenClearsUnread(before, senderId, receiverId);
    NotifyHttpSeen(presence, io, senderId, receiverId, store.messages);
  }

  /** The emissions of the HTTP "mark as seen", after the store update. */
  method NotifyHttpSeen(presence: UserSocketMap, io: EventLog, senderId: UserId, receiverId: UserId, ms: seq<Message>)
    requires presence.Valid()
    modifies io
    ensures io.events == old(io.events) + HttpSeenEvents(senderId, receiverId, presence.sockets, ms)
  {
    var lastMessage := LatestBetween(ms, senderId, receiverId);
    var senderSocketId := presence.GetReceiverSocketId(senderId);
    var receiverSocketId := presence.GetReceiverSocketId(receiverId);
    var unreadCountForSender := CountUnread(ms, receiverId, senderId);
    var unreadCountForReceiver := CountUnread(ms, senderId, receiverId);

    if senderSocketId.Some? {
      io.Emit(MessagesSeen(senderSocketId.value, senderId, receiverId, lastMessage,
                           if lastMessage.Some? then Some(unreadCountForSender) else None));
    }
    if receiverSocketId.Some? {
      io.Emit(UpdateLastMessage(receiverSocketId.value, lastMessage, Some(unreadCountForReceiver)));
    }
  }
}
