/** The chat store behind `getChats`, `createOrGetChat`, `sendMessage` and
    `getMessages` (Backend/controllers/chatController.js).

    No handler removes a chat, so the collection is the sequence of chats in
    insertion order and a chat's id is its position; `findOne` is modelled as
    returning the first matching chat in that order. The clock read by `new Date()` is the
    parameter `now`. */
module Chats {
  import opened Http
  import opened Sorting

  type ChatId = nat

  datatype Message = Message(sender: UserId, content: string, timestamp: nat)

  datatype Chat = Chat(participants: seq<UserId>, messages: seq<Message>, lastMessage: nat)

  type ChatStore = seq<Chat>

  /** One element of a reply: the chat with its id. */
  datatype ChatEntry = ChatEntry(id: ChatId, chat: Chat)

  const NotFound := "Chat not found"
  const NotAuthorized := "Not authorized"

  /** `{ participants: { $all: [a, b] } }`: the chat has both users among its
      participants. */
  predicate Between(c: Chat, a: UserId, b: UserId) {
    a in c.participants && b in c.participants
  }

  predicate HasChatBetween(s: ChatStore, a: UserId, b: UserId) {
    exists i :: 0 <= i < |s| && Between(s[i], a, b)
  }

  /** The users a chat is between, without order. */
  function Members(c: Chat): set<UserId> {
    set u | u in c.participants
  }

  /** Every chat is between two participant slots, and every message in it
      was sent by one of its participants. */
  predicate WellFormed(s: ChatStore) {
    forall i :: 0 <= i < |s| ==>
      && |s[i].participants| == 2
      && forall m :: m in s[i].messages ==> m.sender in s[i].participants
  }

  /** At most one chat per unordered pair of users. */
  predicate UniquePairs(s: ChatStore) {
    forall i, j :: 0 <= i < j < |s| ==> Members(s[i]) != Members(s[j])
  }

  /** `Chat.findOne({ participants: { $all: [a, b] } })`: the first chat, from
      position `from` on, that is between `a` and `b`. */
  function FindBetween(s: ChatStore, a: UserId, b: UserId, from: nat): (r: Option<ChatId>)
    requires from <= |s|
    ensures r.Some? ==> from <= r.value < |s| && Between(s[r.value], a, b)
    ensures r.Some? ==> forall j :: from <= j < r.value ==> !Between(s[j], a, b)
    ensures r.None? ==> forall j :: from <= j < |s| ==> !Between(s[j], a, b)
    decreases |s| - from
  {
    if from == |s| then None
    else if Between(s[from], a, b) then Some(from)
    else FindBetween(s, a, b, from + 1)
  }

  /** The chats with id below `bound` that `caller` takes part in, in id order. */
  function Involving(s: ChatStore, caller: UserId, bound: nat): (r: seq<ChatEntry>)
    requires bound <= |s|
    ensures forall e :: e in r <==> e.id < bound && s[e.id] == e.chat && caller in e.chat.participants
    ensures forall i, j :: 0 <= i < j < |r| ==> r[i].id < r[j].id
  {
    if bound == 0 then []
    else
      var rest := Involving(s, caller, bound - 1);
      var id := bound - 1;
      if caller in s[id].participants then rest + [ChatEntry(id, s[id])] else rest
  }

  /** `.sort({ lastMessage: -1 })`: most recent activity first. */
  predicate MoreRecent(x: ChatEntry, y: ChatEntry) {
    x.chat.lastMessage >= y.chat.lastMessage
  }

  /** `getChats`: every chat the caller takes part in, each once, most recent
      activity first. */
  function List(s: ChatStore, caller: UserId): (r: seq<ChatEntry>)
    ensures forall e :: e in r <==> e.id < |s| && s[e.id] == e.chat && caller in e.chat.participants
    ensures forall i, j :: 0 <= i < j < |r| ==> r[i].id != r[j].id
    ensures forall i :: 0 < i < |r| ==> r[i - 1].chat.lastMessage >= r[i].chat.lastMessage
  {
    var found := Involving(s, caller, |s|);
    assert Total(MoreRecent);
    var r := SortBy(found, MoreRecent);
    SameElements(found, r);
    r
  }

  /** `createOrGetChat`: the first chat already between the caller and the
      other user, untouched; otherwise a new chat between exactly the two,
      with no messages, whose last activity is its creation. */
  function GetOrCreate(s: ChatStore, caller: UserId, other: UserId, now: nat): (out: Handled<ChatEntry, ChatStore>)
    ensures HasChatBetween(s, caller, other) ==>
              && out.next == s
              && out.reply.Ok? && out.reply.status == 200
              && out.reply.body.id < |s| && out.reply.body.chat == s[out.reply.body.id]
              && Between(out.reply.body.chat, caller, other)
              && (forall j :: 0 <= j < out.reply.body.id ==> !Between(s[j], caller, other))
    ensures !HasChatBetween(s, caller, other) ==>
              && out.reply == Ok(201, ChatEntry(|s|, Chat([caller, other], [], now)))
              && out.next == s + [Chat([caller, other], [], now)]
  {
    match FindBetween(s, caller, other, 0)
    case Some(id) => Handled(Ok(200, ChatEntry(id, s[id])), s)
    case None =>
      var c := Chat([caller, other], [], now);
      Handled(Ok(201, ChatEntry(|s|, c)), s + [c])
  }

  /** `sendMessage`: not found, then not a participant, then one message
      appended to that chat's log and its last activity set to `now`. */
  function SendMessage(s: ChatStore, caller: UserId, id: ChatId, content: string, now: nat): (out: Handled<ChatEntry, ChatStore>)
    ensures id >= |s| ==> out == Handled(Fail(404, NotFound), s)
    ensures id < |s| && caller !in s[id].participants ==> out == Handled(Fail(401, NotAuthorized), s)
    ensures id < |s| && caller in s[id].participants ==>
              && |out.next| == |s|
              && out.next[id].participants == s[id].participants
              && out.next[id].messages == s[id].messages + [Message(caller, content, now)]
              && out.next[id].lastMessage == now
              && (forall j :: 0 <= j < |s| && j != id ==> out.next[j] == s[j])
              && out.reply == Ok(201, ChatEntry(id, out.next[id]))
  {
    if id >= |s| then Handled(Fail(404, NotFound), s)
    else if caller !in s[id].participants then Handled(Fail(401, NotAuthorized), s)
    else
      var c := s[id];
      var c' := c.(messages := c.messages + [Message(caller, content, now)], lastMessage := now);
      Handled(Ok(201, ChatEntry(id, c')), s[id := c'])
  }

  /** `getMessages`: not found, then not a participant, then the chat's log in
      the order it was appended. The store is only read. */
  function GetMessages(s: ChatStore, caller: UserId, id: ChatId): (r: Reply<seq<Message>>)
    ensures id >= |s| ==> r == Fail(404, NotFound)
    ensures id < |s| && caller !in s[id].participants ==> r == Fail(401, NotAuthorized)
    ensures id < |s| && caller in s[id].participants ==> r == Ok(200, s[id].messages)
  {
    if id >= |s| then Fail(404, NotFound)
    else if caller !in s[id].participants then Fail(401, NotAuthorized)
    else Ok(200, s[id].messages)
  }

  /** `s'` grows `s` only by appending: no chat disappears or changes its
      participants, and every message log keeps its old messages as a prefix. */
  predicate AppendOnly(s: ChatStore, s': ChatStore) {
    && |s| <= |s'|
    && forall i :: 0 <= i < |s| ==>
         && s'[i].participants == s[i].participants
         && s[i].messages <= s'[i].messages
  }

  lemma GetOrCreateAppendOnly(s: ChatStore, caller: UserId, other: UserId, now: nat)
    ensures AppendOnly(s, GetOrCreate(s, caller, other, now).next)
  {
  }

  lemma SendMessageAppendOnly(s: ChatStore, caller: UserId, id: ChatId, content: string, now: nat)
    ensures AppendOnly(s, SendMessage(s, caller, id, content, now).next)
  {
  }

  /** Right after a successful send, the sender reads back the old log with
      exactly the sent message at its end. */
  lemma SendThenGetMessages(s: ChatStore, caller: UserId, id: ChatId, content: string, now: nat)
    requires SendMessage(s, caller, id, content, now).reply.Ok?
    ensures var r := GetMessages(SendMessage(s, caller, id, content, now).next, caller, id);
            && r.Ok? && |r.body| == |s[id].messages| + 1
            && r.body[..|s[id].messages|] == s[id].messages
            && r.body[|r.body| - 1] == Message(caller, content, now)
  {
  }

  /** Asking again for the chat between the same two users, in either order,
      returns the chat the first call returned and creates nothing. */
  lemma GetOrCreateIdempotent(s: ChatStore, a: UserId, b: UserId, now1: nat, now2: nat)
    ensures var first := GetOrCreate(s, a, b, now1);
            && GetOrCreate(first.next, a, b, now2) == Handled(Ok(200, first.reply.body), first.next)
            && GetOrCreate(first.next, b, a, now2) == Handled(Ok(200, first.reply.body), first.next)
  {
    var first := GetOrCreate(s, a, b, now1);
    var s1 := first.next;
    var id := first.reply.body.id;
    assert id < |s1| && s1[id] == first.reply.body.chat && Between(s1[id], a, b);
    assert forall j :: 0 <= j < id ==> !Between(s1[j], a, b) && !Between(s1[j], b, a);
    assert FindBetween(s1, a, b, 0) == Some(id);
    assert FindBetween(s1, b, a, 0) == Some(id);
  }

  /** In a well-formed store, the chat found for two distinct users is between
      exactly those two. */
  lemma FoundChatIsThePair(s: ChatStore, caller: UserId, other: UserId, now: nat)
    requires WellFormed(s)
    requires caller != other
    ensures Members(GetOrCreate(s, caller, other, now).reply.body.chat) == {caller, other}
  {
    var c := GetOrCreate(s, caller, other, now).reply.body.chat;
    assert |c.participants| == 2 && caller in c.participants && other in c.participants;
    assert c.participants == [caller, other] || c.participants == [other, caller];
  }

  /** `createOrGetChat` keeps the store well formed and never creates a second
      chat for a pair of users. */
  lemma GetOrCreateKeepsInvariants(s: ChatStore, caller: UserId, other: UserId, now: nat)
    requires WellFormed(s) && UniquePairs(s)
    ensures var s' := GetOrCreate(s, caller, other, now).next;
            WellFormed(s') && UniquePairs(s')
  {
    if !HasChatBetween(s, caller, other) {
      var s' := GetOrCreate(s, caller, other, now).next;
      var c := s'[|s|];
      assert Members(c) == {caller, other};
      forall i | 0 <= i < |s| ensures Members(s'[i]) != Members(c) {
        assert s'[i] == s[i] && !Between(s[i], caller, other);
      }
    }
  }

  /** `sendMessage` keeps the store well formed: the sender is a participant. */
  lemma SendMessageKeepsInvariants(s: ChatStore, caller: UserId, id: ChatId, content: string, now: nat)
    requires WellFormed(s) && UniquePairs(s)
    ensures var s' := SendMessage(s, caller, id, content, now).next;
            WellFormed(s') && UniquePairs(s')
  {
    var s' := SendMessage(s, caller, id, content, now).next;
    if s' != s {
      assert forall i :: 0 <= i < |s| ==> Members(s'[i]) == Members(s[i]);
    }
  }

  /** The chat listing is ordered pairwise: no chat comes after a chat with
      older activity. */
  lemma ListMostRecentFirst(s: ChatStore, caller: UserId)
    ensures var r := List(s, caller);
            forall i, j :: 0 <= i < j < |r| ==> r[i].chat.lastMessage >= r[j].chat.lastMessage
  {
    var r := List(s, caller);
    assert Transitive(MoreRecent);
    assert Sorted(r, MoreRecent);
    SortedPairwise(r, MoreRecent);
  }

  /** With the same user on both sides, `$all` asks only that the caller take
      part, so any chat of the caller is returned instead of a chat with
      themselves. */
  lemma SelfChatJoinsAnyChat(s: ChatStore, caller: UserId, i: ChatId, now: nat)
    requires i < |s| && caller in s[i].participants
    requires forall j :: 0 <= j < i ==> caller !in s[j].participants
    ensures GetOrCreate(s, caller, caller, now) == Handled(Ok(200, ChatEntry(i, s[i])), s)
  {
    assert Between(s[i], caller, caller);
  }
}
