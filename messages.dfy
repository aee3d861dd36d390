/** The message collection of the direct-messaging controller
    (backend/controllers/message.controller.js) and the queries the controller runs on it:
    the pair history, the unread count and the bulk `read` update. The collection is an
    in-memory sequence in insertion order. */
module Messages {
  import opened Wrappers
  import opened Sequences

  type UserId = string

  /** Creation times are integer timestamps. */
  type Timestamp = int

  /** A stored message. `read` starts false; `createdAt` is assigned when it is saved. */
  datatype Message = Message(
    id: nat,
    sender: UserId,
    receiver: UserId,
    content: string,
    read: bool,
    createdAt: Timestamp)

  /** The directory attributes of a user that the controller hands out. */
  datatype Profile = Profile(id: UserId, name: string, profilePicture: string, username: string, headline: string)

  /** A directory entry: the profile and the ids of the user's connections. */
  datatype UserRecord = UserRecord(profile: Profile, connections: seq<UserId>)

  /** The user directory, keyed by user id. */
  type Directory = map<UserId, UserRecord>

  /** The HTTP outcomes the controller answers with on failure. */
  datatype Status = BadRequest | NotFound | Forbidden | ServerError
  {
    function Code(): int {
      match this
      case BadRequest => 400
      case NotFound => 404
      case Forbidden => 403
      case ServerError => 500
    }
  }

  /** m was exchanged between a and b, in either direction (the `$or` filter). */
  predicate Between(m: Message, a: UserId, b: UserId) {
    (m.sender == a && m.receiver == b) || (m.sender == b && m.receiver == a)
  }

  /** m was sent by `from` to `to` and is still unread. */
  predicate UnreadFromTo(m: Message, from: UserId, to: UserId) {
    m.sender == from && m.receiver == to && !m.read
  }

  /** Creation times never decrease along the store. */
  ghost predicate Chronological(msgs: seq<Message>) {
    forall i, j :: 0 <= i < j < |msgs| ==> msgs[i].createdAt <= msgs[j].createdAt
  }

  /** `countDocuments({sender: from, receiver: to, read: false})`. */
  function CountUnread(msgs: seq<Message>, from: UserId, to: UserId): (n: nat)
    ensures n <= |msgs|
    decreases |msgs|
  {
    if msgs == [] then 0
    else
      CountUnread(msgs[..|msgs| - 1], from, to)
      + (if UnreadFromTo(msgs[|msgs| - 1], from, to) then 1 else 0)
  }

  /** Number of unread messages addressed to u, whoever sent them. */
  function UnreadTo(msgs: seq<Message>, u: UserId): (n: nat)
    decreases |msgs|
  {
    if msgs == [] then 0
    else
      var m := msgs[|msgs| - 1];
      UnreadTo(msgs[..|msgs| - 1], u) + (if m.receiver == u && !m.read then 1 else 0)
  }

  /** The messages between a and b in store order (the `find` of `getMessages`). */
  function History(msgs: seq<Message>, a: UserId, b: UserId): (r: seq<Message>)
  {
    Filter(msgs, m => Between(m, a, b))
  }

  /** The bulk update `updateMany({sender: from, receiver: to, read: false}, {$set: {read: true}})`. */
  function MarkRead(msgs: seq<Message>, from: UserId, to: UserId): (r: seq<Message>)
    ensures |r| == |msgs|
  {
    seq(|msgs|, i requires 0 <= i < |msgs| =>
      if UnreadFromTo(msgs[i], from, to) then msgs[i].(read := true) else msgs[i])
  }

  /** The newest message between a and b (`findOne(...).sort({createdAt: -1})`); among
      messages with the same timestamp the one stored last is taken. */
  function LatestBetween(msgs: seq<Message>, a: UserId, b: UserId): (r: Option<Message>)
    ensures r.None? <==> forall m :: m in msgs ==> !Between(m, a, b)
    ensures r.Some? ==> r.value in msgs && Between(r.value, a, b)
    ensures r.Some? ==> forall m :: m in msgs && Between(m, a, b) ==> m.createdAt <= r.value.createdAt
    decreases |msgs|
  {
    if msgs == [] then None
    else
      var init, m := msgs[..|msgs| - 1], msgs[|msgs| - 1];
      assert msgs == init + [m];
      var prev := LatestBetween(init, a, b);
      if !Between(m, a, b) then prev
      else if prev.Some? && prev.value.createdAt > m.createdAt then prev
      else Some(m)
  }

  /** After the bulk update no message from `from` to `to` is unread. */
  lemma {:induction false} MarkReadClears(msgs: seq<Message>, from: UserId, to: UserId)
    ensures CountUnread(MarkRead(msgs, from, to), from, to) == 0
    decreases |msgs|
  {
    if msgs != [] {
      var init := msgs[..|msgs| - 1];
      assert MarkRead(msgs, from, to)[..|msgs| - 1] == MarkRead(init, from, to);
      MarkReadClears(init, from, to);
    }
  }

  /** The bulk update leaves the unread count of every other directed pair as it was. */
  lemma {:induction false} MarkReadKeepsOtherCounts(msgs: seq<Message>, from: UserId, to: UserId, a: UserId, b: UserId)
    requires a != from || b != to
    ensures CountUnread(MarkRead(msgs, from, to), a, b) == CountUnread(msgs, a, b)
    decreases |msgs|
  {
    if msgs != [] {
      var init := msgs[..|msgs| - 1];
      assert MarkRead(msgs, from, to)[..|msgs| - 1] == MarkRead(init, from, to);
      MarkReadKeepsOtherCounts(init, from, to, a, b);
    }
  }

  /** The update only sets `read`, only false -> true, and only on messages from `from` to `to`;
      every other field of every message is unchanged. */
  lemma MarkReadOnlySetsRead(msgs: seq<Message>, from: UserId, to: UserId)
    ensures forall i :: 0 <= i < |msgs| ==>
      && MarkRead(msgs, from, to)[i].(read := msgs[i].read) == msgs[i]
      && (msgs[i].read ==> MarkRead(msgs, from, to)[i].read)
      && (MarkRead(msgs, from, to)[i] != msgs[i] ==> msgs[i].sender == from && msgs[i].receiver == to)
  {
  }

  /** Running the update again changes nothing. */
  lemma MarkReadIdempotent(msgs: seq<Message>, from: UserId, to: UserId)
    ensures MarkRead(MarkRead(msgs, from, to), from, to) == MarkRead(msgs, from, to)
  {
  }

  /** The update keeps the store's chronological order. */
  lemma MarkReadChronological(msgs: seq<Message>, from: UserId, to: UserId)
    requires Chronological(msgs)
    ensures Chronological(MarkRead(msgs, from, to))
  {
  }

  /** The history of a chronological store is oldest-first. */
  lemma {:induction false} HistoryChronological(msgs: seq<Message>, a: UserId, b: UserId)
    requires Chronological(msgs)
    ensures Chronological(History(msgs, a, b))
    decreases |msgs|
  {
    if msgs != [] {
      var rest := History(msgs[1..], a, b);
      assert Chronological(msgs[1..]);
      HistoryChronological(msgs[1..], a, b);
      assert History(msgs, a, b) == if Between(msgs[0], a, b) then [msgs[0]] + rest else rest;
      forall m | m in rest ensures msgs[0].createdAt <= m.createdAt {
        var k :| 0 <= k < |msgs[1..]| && msgs[1..][k] == m;
        assert msgs[k + 1] == m;
      }
    }
  }

  /** The history holds every message between the pair and nothing else, in store order. */
  lemma HistoryExact(msgs: seq<Message>, a: UserId, b: UserId)
    ensures forall m :: m in History(msgs, a, b) <==> m in msgs && Between(m, a, b)
    ensures IsSubsequence(History(msgs, a, b), msgs)
  {
  }

  /** The history is the same whichever of the two asks. */
  lemma {:induction false} HistorySymmetric(msgs: seq<Message>, a: UserId, b: UserId)
    ensures History(msgs, a, b) == History(msgs, b, a)
    decreases |msgs|
  {
    if msgs != [] {
      HistorySymmetric(msgs[1..], a, b);
    }
  }

  /** A message stored after the others, between a and b, ends their history. */
  lemma {:induction false} HistoryAppend(msgs: seq<Message>, m: Message, a: UserId, b: UserId)
    ensures History(msgs + [m], a, b) == History(msgs, a, b) + (if Between(m, a, b) then [m] else [])
    decreases |msgs|
  {
    if msgs == [] {
      assert [m][1..] == [];
    } else {
      assert (msgs + [m])[1..] == msgs[1..] + [m];
      HistoryAppend(msgs[1..], m, a, b);
    }
  }

  /** A message between a and b that is at least as new as everything stored becomes their
      newest message once it is appended. */
  lemma NewestMessageIsLatest(msgs: seq<Message>, m: Message, a: UserId, b: UserId)
    requires Between(m, a, b)
    requires forall x :: x in msgs ==> x.createdAt <= m.createdAt
    ensures LatestBetween(msgs + [m], a, b) == Some(m)
  {
    assert (msgs + [m])[..|msgs|] == msgs;
  }

  /** The unread total addressed to u adds up the unread counts of any distinct list of senders
      that covers everyone who sent u an unread message. */
  function SumUnreadFrom(msgs: seq<Message>, senders: seq<UserId>, u: UserId): nat
    decreases |senders|
  {
    if senders == [] then 0 else CountUnread(msgs, senders[0], u) + SumUnreadFrom(msgs, senders[1..], u)
  }

  lemma {:induction false} SumUnreadFromSnoc(msgs: seq<Message>, m: Message, senders: seq<UserId>, u: UserId)
    requires Distinct(senders)
    ensures SumUnreadFrom(msgs + [m], senders, u)
         == SumUnreadFrom(msgs, senders, u) + (if m.receiver == u && !m.read && m.sender in senders then 1 else 0)
    decreases |senders|
  {
    var msgs' := msgs + [m];
    assert msgs'[..|msgs'| - 1] == msgs;
    if senders != [] {
      assert Distinct(senders[1..]);
      SumUnreadFromSnoc(msgs, m, senders[1..], u);
      assert senders == [senders[0]] + senders[1..];
      if m.sender == senders[0] {
        assert m.sender !in senders[1..];
      }
    }
  }

  lemma {:induction false} SumUnreadFromIsUnreadTo(msgs: seq<Message>, senders: seq<UserId>, u: UserId)
    requires Distinct(senders)
    requires forall m :: m in msgs && m.receiver == u && !m.read ==> m.sender in senders
    ensures SumUnreadFrom(msgs, senders, u) == UnreadTo(msgs, u)
    decreases |msgs|
  {
    if msgs == [] {
      SumZero(senders, u);
    } else {
      var init, m := msgs[..|msgs| - 1], msgs[|msgs| - 1];
      assert msgs == init + [m];
      SumUnreadFromIsUnreadTo(init, senders, u);
      SumUnreadFromSnoc(init, m, senders, u);
    }
  }

  lemma {:induction false} SumZero(senders: seq<UserId>, u: UserId)
    ensures SumUnreadFrom([], senders, u) == 0
    decreases |senders|
  {
    if senders != [] {
      SumZero(senders[1..], u);
    }
  }
}
