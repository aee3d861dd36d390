/** The messages page: the "New Message" menu, which offers the connections the user has no
    conversation with yet, and the selected conversation, which is kept in the `userId` query
    parameter of the address. */
module MessagesPage {
  import opened Wrappers
  import opened Sequences
  import opened Messages
  import opened Conversations

  /** `conv.user._id === id`. A row whose user is null makes the property read throw, which
      aborts the render: None. */
  function RowIsFor(conv: Conversation, id: UserId): (r: Option<bool>)
    ensures r.None? <==> conv.user.None?
    ensures r.Some? ==> (r.value <==> conv.user.value.id == id)
  {
    if conv.user.None? then None else Some(conv.user.value.id == id)
  }

  /** Every row carries a user. */
  predicate AllRowsHaveUsers(convs: seq<Conversation>) {
    forall c :: c in convs ==> c.user.Some?
  }

  /** `convs.some((conv) => conv.user._id === id)`, scanning from the left and stopping at the
      first match, so a row without a user throws only if it is reached. */
  function AnyRowFor(convs: seq<Conversation>, id: UserId): (r: Option<bool>)
    ensures AllRowsHaveUsers(convs) ==> r == Some(exists c :: c in convs && c.user.Some? && c.user.value.id == id)
    ensures r.None? ==> exists c :: c in convs && c.user.None?
    decreases |convs|
  {
    if convs == [] then Some(false)
    else
      assert convs == [convs[0]] + convs[1..];
      match RowIsFor(convs[0], id)
      case None => None
      case Some(true) => Some(true)
      case Some(false) => AnyRowFor(convs[1..], id)
  }

  /** The profiles p in connections that no row is for. */
  ghost predicate NoRowFor(convs: seq<Conversation>, p: Profile) {
    forall c :: c in convs && c.user.Some? ==> c.user.value.id != p.id
  }

  /** `connections.filter((conn) => !conversations?.some((conv) => conv.user._id === conn._id))`:
      the candidates for a new conversation, or None when the render throws. Without a loaded
      conversation list every connection is a candidate. */
  function NewMessageCandidates(connections: seq<Profile>, conversations: Option<seq<Conversation>>): (r: Option<seq<Profile>>)
    ensures conversations.None? ==> r == Some(connections)
    ensures conversations.Some? && AllRowsHaveUsers(conversations.value) ==>
              && r.Some?
              && IsSubsequence(r.value, connections)
              && (forall p :: p in r.value <==> p in connections && NoRowFor(conversations.value, p))
              && (forall p :: multiset(r.value)[p] == if NoRowFor(conversations.value, p) then multiset(connections)[p] else 0)
    ensures r.None? ==> connections != [] && exists c :: c in conversations.value && c.user.None?
    decreases |connections|
  {
    if conversations.None? then Some(connections)
    else if connections == [] then Some([])
    else
      var p := connections[0];
      assert connections == [p] + connections[1..];
      assert multiset(connections) == multiset{p} + multiset(connections[1..]);
      match AnyRowFor(conversations.value, p.id)
      case None => None
      case Some(taken) =>
        match NewMessageCandidates(connections[1..], conversations)
        case None => None
        case Some(rest) =>
          if taken then Some(rest)
          else
            var r := [p] + rest;
            assert r[1..] == rest;
            assert multiset(r) == multiset{p} + multiset(rest);
            Some(r)
  }

  /** With no conversation at all, every connection is offered. */
  lemma NoConversationsOffersAll(connections: seq<Profile>)
    ensures NewMessageCandidates(connections, Some([])) == Some(connections)
    decreases |connections|
  {
    if connections != [] {
      NoConversationsOffersAll(connections[1..]);
      assert connections == [connections[0]] + connections[1..];
    }
  }

  /** A row whose counterpart was deleted from the directory makes the menu throw, once some
      connection has to be compared against it. */
  lemma RowWithoutUserBreaksMenu(p: Profile)
    ensures NewMessageCandidates([p], Some([Conversation("gone", None, None, 0)])).None?
  {
  }

  /** When every counterpart is still in the directory, every row of the server's list has a user. */
  lemma RowsHaveUsers(msgs: seq<Message>, dir: Directory, u: UserId)
    requires forall c :: c in CounterpartIds(msgs, u) ==> c in dir
    ensures AllRowsHaveUsers(ListConversations(msgs, dir, u))
  {
    var rows := ListConversations(msgs, dir, u);
    RowsAreEntries(msgs, dir, u);
    forall c | c in rows ensures c.user.Some? {
      var i :| 0 <= i < |rows| && rows[i] == c;
    }
  }

  /** In a directory keyed by id that still holds every counterpart, a row of the server's list
      is for p exactly when p has exchanged a message with the user. */
  lemma NoRowForIffUncontacted(msgs: seq<Message>, dir: Directory, u: UserId, p: Profile)
    requires KeyedById(dir)
    requires forall c :: c in CounterpartIds(msgs, u) ==> c in dir
    ensures NoRowFor(ListConversations(msgs, dir, u), p) <==> !exists m :: m in msgs && Between(m, u, p.id)
  {
    var rows := ListConversations(msgs, dir, u);
    ListConversationsIdsAreCounterparts(msgs, dir, u);
    RowsAreEntries(msgs, dir, u);
    if exists m :: m in msgs && Between(m, u, p.id) {
      assert p.id in OtherIds(rows);
      var i :| 0 <= i < |rows| && OtherIds(rows)[i] == p.id;
      assert p.id in CounterpartIds(msgs, u);
      assert rows[i].user.value.id == p.id;
    }
    if !NoRowFor(rows, p) {
      var c :| c in rows && c.user.Some? && c.user.value.id == p.id;
      var i :| 0 <= i < |rows| && rows[i] == c;
      assert OtherIds(rows)[i] == p.id;
    }
  }

  /** Over the list the server builds, when every counterpart is still in a directory keyed by
      id, the menu offers exactly the connections with whom no message was ever exchanged, in
      connection order. */
  lemma CandidatesAreUncontactedConnections(msgs: seq<Message>, dir: Directory, u: UserId, connections: seq<Profile>)
    requires KeyedById(dir)
    requires forall c :: c in CounterpartIds(msgs, u) ==> c in dir
    ensures var r := NewMessageCandidates(connections, Some(ListConversations(msgs, dir, u)));
      && r.Some?
      && IsSubsequence(r.value, connections)
      && (forall p :: p in r.value <==> p in connections && !exists m :: m in msgs && Between(m, u, p.id))
  {
    RowsHaveUsers(msgs, dir, u);
    forall p ensures NoRowFor(ListConversations(msgs, dir, u), p) <==> !exists m :: m in msgs && Between(m, u, p.id) {
      NoRowForIffUncontacted(msgs, dir, u, p);
    }
  }

  /** `searchParams.get("userId") || null`: the selection a page load starts with. */
  function InitialSelection(params: map<string, string>): (r: Option<UserId>)
    ensures r.Some? <==> "userId" in params && params["userId"] != []
    ensures r.Some? ==> r.value == params["userId"]
  {
    if "userId" in params && params["userId"] != [] then Some(params["userId"]) else None
  }

  /** The page's selection state and its address. */
  class Selection {
    var selectedUserId: Option<UserId>
    var searchParams: map<string, string>

    /** The selection is the one written in the address. The page reads the address only for
        its initial state, so a navigation that changes the address without a click would break
        this; the model has no such step, only mounting and the click handlers. */
    ghost predicate Valid()
      reads this
    {
      selectedUserId.Some? ==> "userId" in searchParams && searchParams["userId"] == selectedUserId.value
    }

    /** The page mounts with the address it was loaded from. */
    constructor (params: map<string, string>)
      ensures Valid()
      ensures selectedUserId == InitialSelection(params)
      ensures searchParams == params
    {
      selectedUserId := InitialSelection(params);
      searchParams := params;
    }

    /** A click on a conversation row or on a "New Message" candidate: both the selection and
        the query string become that id. */
    method Select(id: UserId)
      modifies this
      ensures Valid()
      ensures selectedUserId == Some(id)
      ensures searchParams == map["userId" := id]
      ensures id != [] ==> InitialSelection(searchParams) == selectedUserId
    {
      selectedUserId := Some(id);
      searchParams := map["userId" := id];
    }
  }
}
