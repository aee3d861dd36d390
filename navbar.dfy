/** The badge counts of the navigation bar: unread messages summed over the conversation list,
    unread notifications, and pending connection requests. */
module Navbar {
  import opened Wrappers
  import opened Sequences
  import opened Messages
  import opened Conversations

  /** The conversation query: nothing while no user is signed in (the query is disabled), the
      list when the request succeeds, and an empty list when it fails. */
  function ConversationsData(signedIn: bool, response: Result<seq<Conversation>, Status>): (r: Option<seq<Conversation>>)
    ensures r.None? <==> !signedIn
    ensures signedIn && response.Success? ==> r == Some(response.value)
    ensures signedIn && response.Failure? ==> r == Some([])
  {
    if !signedIn then None
    else if response.Success? then Some(response.value)
    else Some([])
  }

  /** The unread counts of the rows, added up. */
  function SumUnread(convs: seq<Conversation>): (n: nat)
    ensures n == 0 <==> forall i :: 0 <= i < |convs| ==> convs[i].unreadCount == 0
    ensures forall i :: 0 <= i < |convs| ==> convs[i].unreadCount <= n
    decreases |convs|
  {
    if convs == [] then 0 else convs[0].unreadCount + SumUnread(convs[1..])
  }

  /** `conversations?.reduce((count, conv) => count + (conv.unreadCount || 0), 0) || 0`. */
  function UnreadMessagesCount(conversations: Option<seq<Conversation>>): (n: nat)
    ensures conversations.None? ==> n == 0
    ensures conversations.Some? ==> n == SumUnread(conversations.value)
  {
    if conversations.None? then 0 else SumUnread(conversations.value)
  }

  /** A notification as the bar reads it; a missing `read` flag reads as false. */
  datatype Notification = Notification(read: bool)

  /** `notifications?.data.filter((notif) => !notif.read).length`. */
  function UnreadNotificationCount(notifications: Option<seq<Notification>>): (r: Option<nat>)
    ensures r.None? <==> notifications.None?
    ensures r.Some? ==> r.value <= |notifications.value|
    ensures r.Some? ==> r.value == multiset(notifications.value)[Notification(false)]
    ensures r.Some? ==> (r.value == 0 <==> forall n :: n in notifications.value ==> n.read)
  {
    if notifications.None? then None
    else
      var unread := Filter(notifications.value, (n: Notification) => !n.read);
      FilterMultiplicity(notifications.value, (n: Notification) => !n.read);
      OnlyUnread(unread);
      Some(|unread|)
  }

  /** A list of unread notifications is as long as its number of unread notifications. */
  lemma {:induction false} OnlyUnread(ns: seq<Notification>)
    requires forall n :: n in ns ==> !n.read
    ensures |ns| == multiset(ns)[Notification(false)]
    decreases |ns|
  {
    if ns != [] {
      assert ns == [ns[0]] + ns[1..];
      assert ns[0] == Notification(false);
      OnlyUnread(ns[1..]);
    }
  }

  /** Reading one unread notification lowers the badge count by exactly one. */
  lemma ReadingNotificationLowersCount(ns: seq<Notification>, i: nat)
    requires i < |ns| && !ns[i].read
    ensures UnreadNotificationCount(Some(ns[i := Notification(true)])).value + 1 == UnreadNotificationCount(Some(ns)).value
  {
    var ms := ns[i := Notification(true)];
    assert ns == ns[..i] + [ns[i]] + ns[i + 1..];
    assert ms == ns[..i] + [Notification(true)] + ns[i + 1..];
  }

  /** A badge is drawn when its count is a number above zero (`count > 0`; a missing count is
      never above zero). */
  predicate ShowBadge(count: Option<int>) {
    count.Some? && count.value > 0
  }

  lemma {:induction false} SumUnreadInsert(x: Conversation, s: seq<Conversation>)
    ensures SumUnread(InsertByRecency(x, s)) == x.unreadCount + SumUnread(s)
    decreases |s|
  {
    if s != [] && !Precedes(x, s[0]) {
      SumUnreadInsert(x, s[1..]);
      assert InsertByRecency(x, s)[1..] == InsertByRecency(x, s[1..]);
    } else {
      assert ([x] + s)[1..] == s;
    }
  }

  /** Reordering the rows does not change the total. */
  lemma {:induction false} SumUnreadSort(s: seq<Conversation>)
    ensures SumUnread(SortByRecency(s)) == SumUnread(s)
    decreases |s|
  {
    if s != [] {
      SumUnreadSort(s[1..]);
      SumUnreadInsert(s[0], SortByRecency(s[1..]));
    }
  }

  lemma {:induction false} SumUnreadEntries(msgs: seq<Message>, dir: Directory, u: UserId, cs: seq<UserId>)
    ensures SumUnread(Entries(msgs, dir, u, cs)) == SumUnreadFrom(msgs, cs, u)
    decreases |cs|
  {
    if cs != [] {
      SumUnreadEntries(msgs, dir, u, cs[1..]);
      assert Entries(msgs, dir, u, cs)[1..] == Entries(msgs, dir, u, cs[1..]);
    }
  }

  /** The messages badge counts every unread message addressed to the user exactly once: the
      per-counterpart unread counts of the conversation list add up to the user's unread total. */
  lemma BadgeCountsEveryUnreadMessage(msgs: seq<Message>, dir: Directory, u: UserId)
    ensures UnreadMessagesCount(Some(ListConversations(msgs, dir, u))) == UnreadTo(msgs, u)
  {
    var cs := CounterpartIds(msgs, u);
    SumUnreadSort(Entries(msgs, dir, u, cs));
    SumUnreadEntries(msgs, dir, u, cs);
    forall m | m in msgs && m.receiver == u && !m.read
      ensures m.sender in cs
    {
      assert Between(m, u, m.sender);
    }
    SumUnreadFromIsUnreadTo(msgs, cs, u);
  }

  lemma {:induction false} UnreadToPositive(msgs: seq<Message>, u: UserId)
    ensures UnreadTo(msgs, u) > 0 <==> exists m :: m in msgs && m.receiver == u && !m.read
    decreases |msgs|
  {
    if msgs != [] {
      var init, m := msgs[..|msgs| - 1], msgs[|msgs| - 1];
      assert msgs == init + [m];
      UnreadToPositive(init, u);
    }
  }

  /** For a signed-in user whose list loads, the messages badge shows exactly when someone sent
      the user a message that is still unread. */
  lemma MessagesBadgeIffUnread(msgs: seq<Message>, dir: Directory, u: UserId)
    ensures ShowBadge(Some(UnreadMessagesCount(ConversationsData(true, Success(ListConversations(msgs, dir, u))))))
        <==> exists m :: m in msgs && m.receiver == u && !m.read
  {
    BadgeCountsEveryUnreadMessage(msgs, dir, u);
    UnreadToPositive(msgs, u);
  }

  /** When the server answers the conversation list with an error, the bar swallows it and the
      messages badge disappears, whatever is unread. With the listing as written, a conversation
      whose newest message comes from a deleted account is such an error. */
  lemma FailedListingHidesBadge()
    ensures var msgs := [Message(0, "c", "u", "hi", false, 1)];
            var dir := map["u" := UserRecord(Profile("u", "U", "", "u", ""), [])];
            && UnreadTo(msgs, "u") == 1
            && !ShowBadge(Some(UnreadMessagesCount(ConversationsData(true, GetConversations(msgs, dir, "u")))))
            && ShowBadge(Some(UnreadMessagesCount(ConversationsData(true, Success(ListConversations(msgs, dir, "u"))))))
  {
    var msgs := [Message(0, "c", "u", "hi", false, 1)];
    var dir := map["u" := UserRecord(Profile("u", "U", "", "u", ""), [])];
    DeletedSenderFailsListing();
    BadgeCountsEveryUnreadMessage(msgs, dir, "u");
    assert msgs[..0] == [];
  }
}
