/** The state-changing handlers of backend/controllers/message.controller.js over an in-memory
    message store: `sendMessage` appends, `getMessages` and `markAsRead` bulk-update `read`. */
module MessageController {
  import opened Wrappers
  import opened Text
  import opened Messages

  /** What `getMessages` answers: the pair's messages and the counterpart's profile. */
  datatype Thread = Thread(messages: seq<Message>, otherUser: Profile)

  /** The acting user's request lacks a receiver id (missing or empty) or any non-blank content. */
  predicate MissingFields(receiverId: Option<UserId>, content: Option<string>) {
    receiverId.None? || receiverId.value == [] || content.None? || content.value == [] || Trim(content.value) == []
  }

  /** The checks of `sendMessage`, in the source's order: 400, then 404, then 403. On success it
      gives the receiver and the trimmed content to store. A sender missing from the directory
      makes `sender.connections` throw, which the handler answers with 500. */
  function SendGate(dir: Directory, userId: UserId, receiverId: Option<UserId>, content: Option<string>)
    : (r: Result<(UserId, string), Status>)
    ensures r == Failure(BadRequest) <==> MissingFields(receiverId, content)
    ensures r == Failure(NotFound) <==> !MissingFields(receiverId, content) && receiverId.value !in dir
    ensures r == Failure(ServerError) <==>
      !MissingFields(receiverId, content) && receiverId.value in dir && userId !in dir
    ensures r == Failure(Forbidden) <==>
      && !MissingFields(receiverId, content) && receiverId.value in dir && userId in dir
      && receiverId.value !in dir[userId].connections
    ensures r.Success? ==>
      && r.value.0 == receiverId.value && r.value.0 in dir
      && r.value.0 in dir[userId].connections
      && r.value.1 == Trim(content.value)
      && r.value.1 != []
      && !IsWhitespace(r.value.1[0]) && !IsWhitespace(r.value.1[|r.value.1| - 1])
  {
    if MissingFields(receiverId, content) then Failure(BadRequest)
    else if receiverId.value !in dir then Failure(NotFound)
    else if userId !in dir then Failure(ServerError)
    else if receiverId.value !in dir[userId].connections then Failure(Forbidden)
    else
      TrimIsCore(content.value);
      Success((receiverId.value, Trim(content.value)))
  }

  /** Blank content is refused with 400 whatever else is wrong with the request. */
  lemma BlankContentIsBadRequest(dir: Directory, userId: UserId, receiverId: Option<UserId>, content: string)
    requires IsBlank(content)
    ensures SendGate(dir, userId, receiverId, Some(content)) == Failure(BadRequest)
  {
    TrimEmptyIffBlank(content);
  }

  class MessageStore {
    /** The message collection, in insertion order. */
    var messages: seq<Message>

    /** Ids are the insertion positions (so they are unique) and creation times never decrease. */
    ghost predicate Valid()
      reads this
    {
      && Chronological(messages)
      && forall i :: 0 <= i < |messages| ==> messages[i].id == i
    }

    /** The store's clock has not run backwards past `now`. */
    ghost predicate ClockAt(now: Timestamp)
      reads this
    {
      forall m :: m in messages ==> m.createdAt <= now
    }

    constructor ()
      ensures Valid() && messages == []
    {
      messages := [];
    }

    /** `sendMessage`: a rejection leaves the store as it was; an accepted request appends exactly
        one unread message from the acting user to the receiver, with the trimmed content, a
        fresh id and the current time. */
    method SendMessage(dir: Directory, userId: UserId, receiverId: Option<UserId>, content: Option<string>, now: Timestamp)
      returns (r: Result<Message, Status>)
      requires Valid() && ClockAt(now)
      modifies this
      ensures Valid()
      ensures r.Failure? <==> SendGate(dir, userId, receiverId, content).Failure?
      ensures r.Failure? ==> r.error == SendGate(dir, userId, receiverId, content).error && messages == old(messages)
      ensures r.Success? ==>
        && r.value == Message(|old(messages)|, userId, receiverId.value, Trim(content.value), false, now)
        && messages == old(messages) + [r.value]
    {
      var gate := SendGate(dir, userId, receiverId, content);
      if gate.Failure? {
        return Failure(gate.error);
      }
      var m := Message(|messages|, userId, gate.value.0, gate.value.1, false, now);
      messages := messages + [m];
      r := Success(m);
    }

    /** `getMessages`: 404 for an unknown counterpart (nothing changes); otherwise the pair's
        messages oldest-first with their flags as they were, after which every message the
        counterpart sent the user is marked read. */
    method GetMessages(dir: Directory, userId: UserId, otherUserId: UserId) returns (r: Result<Thread, Status>)
      requires Valid()
      modifies this
      ensures Valid()
      ensures otherUserId !in dir ==> r == Failure(NotFound) && messages == old(messages)
      ensures otherUserId in dir ==>
        && r == Success(Thread(History(old(messages), userId, otherUserId), dir[otherUserId].profile))
        && messages == MarkRead(old(messages), otherUserId, userId)
      ensures r.Success? ==> Chronological(r.value.messages)
      ensures r.Success? ==> CountUnread(messages, otherUserId, userId) == 0
    {
      if otherUserId !in dir {
        return Failure(NotFound);
      }
      var history := History(messages, userId, otherUserId);
      HistoryChronological(messages, userId, otherUserId);
      MarkReadChronological(messages, otherUserId, userId);
      MarkReadClears(messages, otherUserId, userId);
      messages := MarkRead(messages, otherUserId, userId);
      r := Success(Thread(history, dir[otherUserId].profile));
    }

    /** `markAsRead`: always acknowledged; marks read every unread message from `senderId` to the user. */
    method MarkAsRead(userId: UserId, senderId: UserId)
      requires Valid()
      modifies this
      ensures Valid()
      ensures messages == MarkRead(old(messages), senderId, userId)
      ensures CountUnread(messages, senderId, userId) == 0
    {
      MarkReadChronological(messages, senderId, userId);
      MarkReadClears(messages, senderId, userId);
      messages := MarkRead(messages, senderId, userId);
    }
  }

  /** Sending and then opening the conversation: the new message ends the pair's history, seen
      from either side, and it is the pair's newest message. */
  lemma SendThenHistory(msgs: seq<Message>, m: Message)
    requires forall x :: x in msgs ==> x.createdAt <= m.createdAt
    ensures History(msgs + [m], m.sender, m.receiver) == History(msgs, m.sender, m.receiver) + [m]
    ensures History(msgs + [m], m.receiver, m.sender) == History(msgs, m.receiver, m.sender) + [m]
    ensures LatestBetween(msgs + [m], m.sender, m.receiver) == Some(m)
  {
    HistoryAppend(msgs, m, m.sender, m.receiver);
    HistoryAppend(msgs, m, m.receiver, m.sender);
    NewestMessageIsLatest(msgs, m, m.sender, m.receiver);
  }

  /** A message u sends to someone else never adds to u's unread counts, and it adds one to the
      receiver's unread count from u. */
  lemma SentMessageCountsForReceiverOnly(msgs: seq<Message>, m: Message, c: UserId)
    requires m.sender != m.receiver && !m.read
    ensures CountUnread(msgs + [m], c, m.sender) == CountUnread(msgs, c, m.sender)
    ensures CountUnread(msgs + [m], m.sender, m.receiver) == CountUnread(msgs, m.sender, m.receiver) + 1
  {
    assert (msgs + [m])[..|msgs|] == msgs;
  }
}
