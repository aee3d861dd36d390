/** The conversation list of `getConversations` (backend/controllers/message.controller.js:5-62):
    a read-only projection of the message store that gives, per counterpart, the directory
    profile, a summary of the newest message and the number of unread messages sent to the
    user, newest conversation first. */
module Conversations {
  import opened Wrappers
  import opened Sequences
  import opened Messages

  /** What the list shows of the newest message. */
  datatype Summary = Summary(content: string, createdAt: Timestamp, senderId: UserId)

  /** One row of the list. `otherId` is the counterpart the row was built for (the source
      exposes it as `user._id` whenever the profile exists); `user` is None when the
      directory no longer has that user. */
  datatype Conversation = Conversation(
    otherId: UserId,
    user: Option<Profile>,
    lastMessage: Option<Summary>,
    unreadCount: nat)

  /** Every directory entry is stored under its own profile's id. */
  ghost predicate KeyedById(dir: Directory) {
    forall id :: id in dir ==> dir[id].profile.id == id
  }

  /** Receivers of the messages u sent, with repetitions. */
  function Receivers(msgs: seq<Message>, u: UserId): (r: seq<UserId>)
    ensures forall x :: x in r <==> exists m :: m in msgs && m.sender == u && m.receiver == x
    decreases |msgs|
  {
    if msgs == [] then []
    else
      assert msgs == [msgs[0]] + msgs[1..];
      (if msgs[0].sender == u then [msgs[0].receiver] else []) + Receivers(msgs[1..], u)
  }

  /** Senders of the messages u received, with repetitions. */
  function Senders(msgs: seq<Message>, u: UserId): (r: seq<UserId>)
    ensures forall x :: x in r <==> exists m :: m in msgs && m.receiver == u && m.sender == x
    decreases |msgs|
  {
    if msgs == [] then []
    else
      assert msgs == [msgs[0]] + msgs[1..];
      (if msgs[0].receiver == u then [msgs[0].sender] else []) + Senders(msgs[1..], u)
  }

  /** The counterparts of u: the two `distinct` queries, concatenated and passed through a `Set`. */
  function CounterpartIds(msgs: seq<Message>, u: UserId): (r: seq<UserId>)
    ensures Distinct(r)
    ensures forall x :: x in r <==> exists m :: m in msgs && Between(m, u, x)
  {
    Dedup(Dedup(Receivers(msgs, u)) + Dedup(Senders(msgs, u)))
  }

  /** `User.findById(id)`: the profile, or None when the directory has no such user. */
  function Lookup(dir: Directory, id: UserId): (p: Option<Profile>)
  {
    if id in dir then Some(dir[id].profile) else None
  }

  /** The row for counterpart c, with the sender id of the newest message taken from the
      message itself. */
  function Entry(msgs: seq<Message>, dir: Directory, u: UserId, c: UserId): (e: Conversation)
  {
    var latest := LatestBetween(msgs, u, c);
    Conversation(
      c,
      Lookup(dir, c),
      if latest.Some? then Some(Summary(latest.value.content, latest.value.createdAt, latest.value.sender)) else None,
      CountUnread(msgs, c, u))
  }

  /** The rows for the counterparts cs, in that order (the `map` over `allUserIds`). */
  function Entries(msgs: seq<Message>, dir: Directory, u: UserId, cs: seq<UserId>): (r: seq<Conversation>)
    ensures |r| == |cs|
    ensures forall i :: 0 <= i < |cs| ==> r[i] == Entry(msgs, dir, u, cs[i])
    decreases |cs|
  {
    if cs == [] then [] else [Entry(msgs, dir, u, cs[0])] + Entries(msgs, dir, u, cs[1..])
  }

  /** The source's comparator says a may stay ahead of b (it returns a value <= 0). */
  predicate Precedes(a: Conversation, b: Conversation) {
    a.lastMessage.Some? && (b.lastMessage.None? || b.lastMessage.value.createdAt <= a.lastMessage.value.createdAt)
  }

  /** The order the list is meant to have: a row without a last message comes after every
      row, and otherwise newer last messages come first. */
  predicate RankedBefore(a: Conversation, b: Conversation) {
    b.lastMessage.None? || (a.lastMessage.Some? && b.lastMessage.value.createdAt <= a.lastMessage.value.createdAt)
  }

  ghost predicate SortedByRecency(s: seq<Conversation>) {
    forall i, j :: 0 <= i < j < |s| ==> RankedBefore(s[i], s[j])
  }

  /** Insert x in front of the first row it may precede. */
  function InsertByRecency(x: Conversation, s: seq<Conversation>): (r: seq<Conversation>)
    decreases |s|
  {
    if s == [] || Precedes(x, s[0]) then [x] + s else [s[0]] + InsertByRecency(x, s[1..])
  }

  /** A stable sort with the source's comparator. */
  function SortByRecency(s: seq<Conversation>): (r: seq<Conversation>)
    decreases |s|
  {
    if s == [] then [] else InsertByRecency(s[0], SortByRecency(s[1..]))
  }

  lemma {:induction false} InsertByRecencyCorrect(x: Conversation, s: seq<Conversation>)
    requires SortedByRecency(s)
    ensures SortedByRecency(InsertByRecency(x, s))
    ensures multiset(InsertByRecency(x, s)) == multiset(s) + multiset{x}
    decreases |s|
  {
    if s != [] && !Precedes(x, s[0]) {
      var t := InsertByRecency(x, s[1..]);
      assert SortedByRecency(s[1..]);
      InsertByRecencyCorrect(x, s[1..]);
      assert s == [s[0]] + s[1..];
      forall k | 0 <= k < |t| ensures RankedBefore(s[0], t[k]) {
        assert t[k] in multiset(t);
        if t[k] != x {
          assert t[k] in s[1..];
        }
      }
    }
  }

  /** The sort orders the rows and is a rearrangement of them. */
  lemma {:induction false} SortByRecencyCorrect(s: seq<Conversation>)
    ensures SortedByRecency(SortByRecency(s))
    ensures multiset(SortByRecency(s)) == multiset(s)
    decreases |s|
  {
    if s != [] {
      SortByRecencyCorrect(s[1..]);
      InsertByRecencyCorrect(s[0], SortByRecency(s[1..]));
      assert s == [s[0]] + s[1..];
    }
  }

  /** The list the source is evidently meant to produce (see GetConversations for the one it
      produces): one row per counterpart, sorted by the recency of the newest message. */
  function ListConversations(msgs: seq<Message>, dir: Directory, u: UserId): seq<Conversation> {
    SortByRecency(Entries(msgs, dir, u, CounterpartIds(msgs, u)))
  }

  /** The list is sorted newest first. */
  lemma ListConversationsSorted(msgs: seq<Message>, dir: Directory, u: UserId)
    ensures SortedByRecency(ListConversations(msgs, dir, u))
  {
    SortByRecencyCorrect(Entries(msgs, dir, u, CounterpartIds(msgs, u)));
  }

  /** The row for c as the source builds it: the sender id comes from the populated sender,
      and a sender that is missing from the directory populates as null, so reading its
      `_id` throws and the whole request fails with 500. */
  function EntryAsWritten(msgs: seq<Message>, dir: Directory, u: UserId, c: UserId): (r: Result<Conversation, Status>)
  {
    var latest := LatestBetween(msgs, u, c);
    if latest.Some? && latest.value.sender !in dir then Failure(ServerError)
    else
      Success(Conversation(
        c,
        Lookup(dir, c),
        if latest.Some? then Some(Summary(latest.value.content, latest.value.createdAt, dir[latest.value.sender].profile.id)) else None,
        CountUnread(msgs, c, u)))
  }

  /** `Promise.all` over the rows: the first failure fails the whole batch. */
  function EntriesAsWritten(msgs: seq<Message>, dir: Directory, u: UserId, cs: seq<UserId>): (r: Result<seq<Conversation>, Status>)
    decreases |cs|
  {
    if cs == [] then Success([])
    else
      match EntryAsWritten(msgs, dir, u, cs[0])
      case Failure(e) => Failure(e)
      case Success(e) =>
        match EntriesAsWritten(msgs, dir, u, cs[1..])
        case Failure(f) => Failure(f)
        case Success(es) => Success([e] + es)
  }

  /** `getConversations` as written: the JSON list, or the 500 of the `catch`. */
  function GetConversations(msgs: seq<Message>, dir: Directory, u: UserId): (r: Result<seq<Conversation>, Status>)
  {
    match EntriesAsWritten(msgs, dir, u, CounterpartIds(msgs, u))
    case Failure(e) => Failure(e)
    case Success(es) => Success(SortByRecency(es))
  }

  /** Every counterpart's newest message was sent by someone the directory still knows. */
  ghost predicate LatestSendersKnown(msgs: seq<Message>, dir: Directory, u: UserId) {
    forall c :: c in CounterpartIds(msgs, u) ==>
      LatestBetween(msgs, u, c).None? || LatestBetween(msgs, u, c).value.sender in dir
  }

  lemma {:induction false} EntriesAsWrittenAgree(msgs: seq<Message>, dir: Directory, u: UserId, cs: seq<UserId>)
    requires KeyedById(dir)
    ensures (forall c :: c in cs ==> LatestBetween(msgs, u, c).None? || LatestBetween(msgs, u, c).value.sender in dir)
      ==> EntriesAsWritten(msgs, dir, u, cs) == Success(Entries(msgs, dir, u, cs))
    ensures (exists c :: c in cs && LatestBetween(msgs, u, c).Some? && LatestBetween(msgs, u, c).value.sender !in dir)
      ==> EntriesAsWritten(msgs, dir, u, cs) == Failure(ServerError)
    decreases |cs|
  {
    if cs != [] {
      EntriesAsWrittenAgree(msgs, dir, u, cs[1..]);
      assert cs == [cs[0]] + cs[1..];
    }
  }

  /** The list as written agrees with the intended one exactly when every counterpart's newest
      message has a sender the directory still knows; otherwise the whole request fails with 500. */
  lemma GetConversationsAgrees(msgs: seq<Message>, dir: Directory, u: UserId)
    requires KeyedById(dir)
    ensures GetConversations(msgs, dir, u)
      == if LatestSendersKnown(msgs, dir, u) then Success(ListConversations(msgs, dir, u)) else Failure(ServerError)
  {
    EntriesAsWrittenAgree(msgs, dir, u, CounterpartIds(msgs, u));
  }

  /** A counterpart deleted from the directory after sending the user a message: the source
      fails the whole listing with 500 instead of showing a row with no profile. */
  lemma DeletedSenderFailsListing()
    ensures var msgs := [Message(0, "c", "u", "hi", false, 1)];
      var dir := map["u" := UserRecord(Profile("u", "U", "", "u", ""), [])];
      && GetConversations(msgs, dir, "u") == Failure(ServerError)
      && ListConversations(msgs, dir, "u") == [Conversation("c", None, Some(Summary("hi", 1, "c")), 1)]
  {
    var msgs := [Message(0, "c", "u", "hi", false, 1)];
    var dir := map["u" := UserRecord(Profile("u", "U", "", "u", ""), [])];
    assert msgs[..0] == [];
    assert Receivers(msgs, "u") == [];
    assert Senders(msgs, "u") == ["c"];
    assert ["c"][..0] == [];
    assert CounterpartIds(msgs, "u") == ["c"];
    assert LatestBetween(msgs, "u", "c") == Some(msgs[0]);
    assert EntryAsWritten(msgs, dir, "u", "c") == Failure(ServerError);
    assert CountUnread(msgs, "c", "u") == 1;
    assert Entries(msgs, dir, "u", ["c"]) == [Conversation("c", None, Some(Summary("hi", 1, "c")), 1)];
  }

  /** The row identifiers of a list. */
  function OtherIds(convs: seq<Conversation>): (r: seq<UserId>)
    ensures |r| == |convs|
  {
    seq(|convs|, i requires 0 <= i < |convs| => convs[i].otherId)
  }

  lemma EntriesDistinct(msgs: seq<Message>, dir: Directory, u: UserId, cs: seq<UserId>)
    requires Distinct(cs)
    ensures Distinct(Entries(msgs, dir, u, cs))
  {
    var es := Entries(msgs, dir, u, cs);
    forall i, j | 0 <= i < j < |es| ensures es[i] != es[j] {
      assert es[i].otherId == cs[i] && es[j].otherId == cs[j];
    }
  }

  /** Each row of the list was built for its own counterpart. */
  lemma RowsAreEntries(msgs: seq<Message>, dir: Directory, u: UserId)
    ensures var r := ListConversations(msgs, dir, u);
      forall i :: 0 <= i < |r| ==> r[i] == Entry(msgs, dir, u, r[i].otherId) && r[i].otherId in CounterpartIds(msgs, u)
  {
    var cs := CounterpartIds(msgs, u);
    var es := Entries(msgs, dir, u, cs);
    var r := ListConversations(msgs, dir, u);
    SortByRecencyCorrect(es);
    forall i | 0 <= i < |r| ensures r[i] == Entry(msgs, dir, u, r[i].otherId) && r[i].otherId in cs {
      assert r[i] in multiset(es);
      var k :| 0 <= k < |es| && es[k] == r[i];
    }
  }

  /** Exactly one row per counterpart: the rows' ids are distinct, and an id has a row exactly
      when some message was exchanged between it and the user, in either direction. A
      counterpart unknown to the directory still has its row, with no profile. */
  lemma ListConversationsOnePerCounterpart(msgs: seq<Message>, dir: Directory, u: UserId)
    ensures var r := ListConversations(msgs, dir, u);
      && |r| == |CounterpartIds(msgs, u)|
      && Distinct(OtherIds(r))
      && (forall c :: c in OtherIds(r) <==> exists m :: m in msgs && Between(m, u, c))
      && (forall i :: 0 <= i < |r| ==> (r[i].user.None? <==> r[i].otherId !in dir))
  {
    ListConversationsIdsDistinct(msgs, dir, u);
    ListConversationsIdsAreCounterparts(msgs, dir, u);
    RowsAreEntries(msgs, dir, u);
  }

  lemma ListConversationsIdsDistinct(msgs: seq<Message>, dir: Directory, u: UserId)
    ensures |ListConversations(msgs, dir, u)| == |CounterpartIds(msgs, u)|
    ensures Distinct(OtherIds(ListConversations(msgs, dir, u)))
  {
    var cs := CounterpartIds(msgs, u);
    var es := Entries(msgs, dir, u, cs);
    var r := ListConversations(msgs, dir, u);
    SortByRecencyCorrect(es);
    assert |r| == |multiset(r)| == |multiset(es)| == |es|;
    EntriesDistinct(msgs, dir, u, cs);
    DistinctPermutation(r, es);
    RowsAreEntries(msgs, dir, u);
    var ids := OtherIds(r);
    forall i, j | 0 <= i < j < |ids| ensures ids[i] != ids[j] {
      assert r[i] != r[j];
    }
  }

  lemma ListConversationsIdsAreCounterparts(msgs: seq<Message>, dir: Directory, u: UserId)
    ensures forall c :: c in OtherIds(ListConversations(msgs, dir, u)) <==> c in CounterpartIds(msgs, u)
  {
    var r := ListConversations(msgs, dir, u);
    RowsAreEntries(msgs, dir, u);
    forall c | c in CounterpartIds(msgs, u) ensures c in OtherIds(r) {
      CounterpartHasRow(msgs, dir, u, c);
    }
  }

  lemma CounterpartHasRow(msgs: seq<Message>, dir: Directory, u: UserId, c: UserId)
    requires c in CounterpartIds(msgs, u)
    ensures c in OtherIds(ListConversations(msgs, dir, u))
  {
    var cs := CounterpartIds(msgs, u);
    var es := Entries(msgs, dir, u, cs);
    var r := ListConversations(msgs, dir, u);
    SortByRecencyCorrect(es);
    var k :| 0 <= k < |cs| && cs[k] == c;
    assert es[k] in multiset(r);
    var i :| 0 <= i < |r| && r[i] == es[k];
    assert OtherIds(r)[i] == c;
  }

  /** What each row says: the unread count is the number of unread messages the counterpart
      sent to the user (the user's own messages never count), the profile is the directory's,
      and the preview is present and summarises a newest message between the two. */
  lemma ListConversationsRows(msgs: seq<Message>, dir: Directory, u: UserId)
    ensures var r := ListConversations(msgs, dir, u);
      forall i :: 0 <= i < |r| ==>
        var c := r[i].otherId;
        && r[i].unreadCount == CountUnread(msgs, c, u)
        && r[i].user == Lookup(dir, c)
        && r[i].lastMessage.Some?
        && LatestBetween(msgs, u, c).Some?
        && r[i].lastMessage.value == Summary(LatestBetween(msgs, u, c).value.content,
             LatestBetween(msgs, u, c).value.createdAt, LatestBetween(msgs, u, c).value.sender)
  {
    RowsAreEntries(msgs, dir, u);
  }

  /** After the user opens the conversation with s (or marks it read), the row for s shows no
      unread messages. */
  lemma MarkReadZeroesRow(msgs: seq<Message>, dir: Directory, u: UserId, s: UserId)
    ensures var r := ListConversations(MarkRead(msgs, s, u), dir, u);
      forall i :: 0 <= i < |r| && r[i].otherId == s ==> r[i].unreadCount == 0
  {
    ListConversationsRows(MarkRead(msgs, s, u), dir, u);
    MarkReadClears(msgs, s, u);
  }
}
