/** The socket handlers of the in-memory server `server/gg.js`: the registry
    of connected users (`onlineUsers`) and the per-pair message histories
    (`messages`), both kept only in memory. Emits are returned as an outbox;
    the clock is a parameter. */
module MemoryChatServer {
  import opened Protocol
  import opened JsCollections
  import opened ChatKeys

  /** The separator this server joins the two sorted names with: `'_'`. */
  const KeySeparator: JsString := [0x5F]

  /** `[a, b].sort().join('_')`. */
  function ChatKey(a: JsString, b: JsString): (key: JsString)
    ensures (key == a + KeySeparator + b && !Less(b, a)) || (key == b + KeySeparator + a && !Less(a, b))
    ensures key == SortedJoin(b, a, KeySeparator)
  {
    SortedJoinSmallerFirst(a, b, KeySeparator);
    SortedJoinSymmetric(a, b, KeySeparator);
    SortedJoin(a, b, KeySeparator)
  }

  /** A registered user: the registration payload spread into a new object,
      with `socketId` set to the socket it came from. */
  datatype Member = Member(info: Draft, socketId: SocketId)

  /** A stored message; `reactions` maps a reaction symbol to its count. */
  datatype Message = Message(
    sender: JsString,
    recipient: JsString,
    message: JsString,
    timestamp: JsString,
    reactions: map<JsString, nat>)

  /** The events this server emits. */
  datatype Event =
    | UserList(users: seq<Member>)
    | PrivateMessage(record: Message)
    | ChatHistory(withUsername: JsString, history: seq<Message>)
    | ReactionAdded(messageId: JsString, reaction: JsString, sender: JsString)

  datatype Emit = Emit(target: Target, event: Event)

  type Roster = JsMap<SocketId, Member>

  /** Every member records the socket it is filed under. */
  ghost predicate SocketIdsMatch(users: Roster) {
    forall k :: k in users.vals ==> users.vals[k].socketId == k
  }

  /** No two entries share a username. */
  ghost predicate NamesUnique(users: Roster) {
    forall a, b :: a in users.vals && b in users.vals && users.vals[a].info.username == users.vals[b].info.username ==> a == b
  }

  /** `u => u.socketId === id`. */
  function SocketIdIs(id: SocketId): (f: Member -> bool)
    ensures forall u :: f(u) <==> u.socketId == id
  {
    (u: Member) => u.socketId == id
  }

  /** `m => m.timestamp === id`. */
  function TimestampIs(id: JsString): (f: Message -> bool)
    ensures forall m :: f(m) <==> m.timestamp == id
  {
    (m: Message) => m.timestamp == id
  }

  /** The roster after `register`: the socket's earlier entry, if any, is
      deleted and the new member is set, so this socket goes last in
      iteration order; every other entry stays as it was. */
  function Registered(users: Roster, sid: SocketId, d: Draft): (r: Roster)
    requires users.Valid()
    ensures r.Valid()
    ensures r.vals == users.vals[sid := Member(d, sid)]
    ensures r.keys == Remove(users.keys, sid) + [sid]
  {
    users.Delete(sid).Set(sid, Member(d, sid))
  }

  /** `register` keeps every member filed under its own socket. */
  lemma RegisteredKeepsSocketIds(users: Roster, sid: SocketId, d: Draft)
    requires users.Valid() && SocketIdsMatch(users)
    ensures SocketIdsMatch(Registered(users, sid, d))
    ensures Registered(users, sid, d).vals[sid].socketId == sid
  {
  }

  /** `register` does not look at other entries: a name another socket
      already holds is accepted, and the two entries then share it. */
  lemma RegisterAdmitsDuplicateName(users: Roster, sid: SocketId, d: Draft, other: SocketId)
    requires users.Valid() && other in users.vals && other != sid
    requires users.vals[other].info.username == d.username
    ensures !NamesUnique(Registered(users, sid, d))
  {
    var after := Registered(users, sid, d);
    assert after.vals[other].info.username == after.vals[sid].info.username;
  }

  /** Looking a member up with `find(u => u.socketId === id)` over the
      values gives what `get(id)` gives, because every member is filed under
      its own socket. */
  lemma LookupAgreesWithGet(users: Roster, id: SocketId)
    requires users.Valid() && SocketIdsMatch(users)
    ensures Find(users.Values(), SocketIdIs(id)) == (if id in users.vals then Some(users.vals[id]) else None)
  {
    if id in users.vals {
      FindOnlyMatch(users, SocketIdIs(id), id);
    } else {
      FindNoMatch(users, SocketIdIs(id));
    }
  }

  /** `Array.from(onlineUsers.values()).find(u => u.socketId === id)`,
      which finds the member `get(id)` would give. */
  function FindBySocketId(users: Roster, id: SocketId): (r: Option<Member>)
    requires users.Valid() && SocketIdsMatch(users)
    ensures r == if id in users.vals then Some(users.vals[id]) else None
  {
    LookupAgreesWithGet(users, id);
    Find(users.Values(), SocketIdIs(id))
  }

  /** The store after `private_message` files `record` under `key`: an
      absent history starts out empty, the record goes at its end, and no
      other history changes. */
  function Appended(store: map<JsString, seq<Message>>, key: JsString, record: Message): (r: map<JsString, seq<Message>>)
    ensures r.Keys == store.Keys + {key}
    ensures |r[key]| == |Conversation(store, key)| + 1
    ensures r[key][..|r[key]| - 1] == Conversation(store, key) && r[key][|r[key]| - 1] == record
    ensures forall k :: k in store && k != key ==> r[k] == store[k]
  {
    store[key := Conversation(store, key) + [record]]
  }

  /** Both parties see the same history: a record filed by one of them is
      at the end of the history the other one asks for. */
  lemma AppendedSeenByBoth(store: map<JsString, seq<Message>>, a: JsString, b: JsString, record: Message)
    ensures Conversation(Appended(store, ChatKey(a, b), record), ChatKey(b, a)) == Conversation(store, ChatKey(b, a)) + [record]
  {
    SortedJoinSymmetric(a, b, KeySeparator);
  }

  /** The history one user asks for is the one the other user asks for. */
  lemma HistorySharedByPair(store: map<JsString, seq<Message>>, a: JsString, b: JsString)
    ensures Conversation(store, ChatKey(a, b)) == Conversation(store, ChatKey(b, a))
  {
    SortedJoinSymmetric(a, b, KeySeparator);
  }

  /** `reactions[r] = (reactions[r] || 0) + 1`: the count for `r` goes up by
      one, starting from one; every other count stays. */
  function Bump(counts: map<JsString, nat>, reaction: JsString): (c: map<JsString, nat>)
    ensures c.Keys == counts.Keys + {reaction}
    ensures reaction in counts ==> c[reaction] == counts[reaction] + 1
    ensures reaction !in counts ==> c[reaction] == 1
    ensures forall s :: s in counts && s != reaction ==> c[s] == counts[s]
  {
    counts[reaction := (if reaction in counts then counts[reaction] else 0) + 1]
  }

  /** Position `j` holds the first message stamped `id`. */
  predicate FirstStamped(history: seq<Message>, j: int, id: JsString) {
    0 <= j < |history| && history[j].timestamp == id &&
    forall k :: 0 <= k < j ==> history[k].timestamp != id
  }

  /** Some message is stamped `id`. */
  predicate Stamped(history: seq<Message>, id: JsString) {
    exists j :: 0 <= j < |history| && history[j].timestamp == id
  }

  /** The history after `add_reaction`: the first message stamped
      `messageId` gets its count for `reaction` bumped; every other message,
      and the length, stay; without such a message nothing changes. */
  function Reacted(history: seq<Message>, messageId: JsString, reaction: JsString): (h: seq<Message>)
    ensures |h| == |history|
    ensures forall j :: 0 <= j < |h| && !FirstStamped(history, j, messageId) ==> h[j] == history[j]
    ensures forall j :: FirstStamped(history, j, messageId) ==>
      h[j] == history[j].(reactions := Bump(history[j].reactions, reaction))
    ensures !Stamped(history, messageId) ==> h == history
  {
    var i := FindIndex(history, TimestampIs(messageId));
    if i == -1 then history
    else history[i := history[i].(reactions := Bump(history[i].reactions, reaction))]
  }

  /** A stamped history has a first stamped message. */
  lemma FirstStampedExists(history: seq<Message>, id: JsString)
    requires Stamped(history, id)
    ensures exists j :: FirstStamped(history, j, id)
  {
    var i := FindIndex(history, TimestampIs(id));
    assert FirstStamped(history, i, id);
  }

  /** No reaction count ever goes down, and exactly one goes up when the
      message is found. */
  lemma ReactionsNeverDecrease(history: seq<Message>, messageId: JsString, reaction: JsString)
    ensures var h := Reacted(history, messageId, reaction);
      forall j, s :: 0 <= j < |history| && s in history[j].reactions ==>
        s in h[j].reactions && h[j].reactions[s] >= history[j].reactions[s]
    ensures Stamped(history, messageId) ==>
      exists j :: FirstStamped(history, j, messageId) &&
        var h := Reacted(history, messageId, reaction);
        reaction in h[j].reactions &&
        h[j].reactions[reaction] == (if reaction in history[j].reactions then history[j].reactions[reaction] else 0) + 1
  {
    if Stamped(history, messageId) {
      FirstStampedExists(history, messageId);
    }
  }

  /** Reacting twice with a new symbol to the same message counts it twice. */
  lemma ReactTwiceCountsTwo(history: seq<Message>, j: int, messageId: JsString, reaction: JsString)
    requires FirstStamped(history, j, messageId) && reaction !in history[j].reactions
    ensures var once := Reacted(history, messageId, reaction);
      && once[j].reactions[reaction] == 1
      && Reacted(once, messageId, reaction)[j].reactions[reaction] == 2
  {
    var once := Reacted(history, messageId, reaction);
    forall k | 0 <= k < |once| ensures once[k].timestamp == history[k].timestamp {
      if FirstStamped(history, k, messageId) {
        assert once[k] == history[k].(reactions := Bump(history[k].reactions, reaction));
      }
    }
    assert FirstStamped(once, j, messageId);
  }

  /** The store after `add_reaction` on the pair's key: the stored history,
      if there is one, with the reaction applied; an absent history stays
      absent. */
  function ReactedStore(store: map<JsString, seq<Message>>, key: JsString, messageId: JsString, reaction: JsString)
    : (r: map<JsString, seq<Message>>)
    ensures r.Keys == store.Keys
    ensures key in store ==> r[key] == Reacted(store[key], messageId, reaction)
    ensures forall k :: k in store && k != key ==> r[k] == store[k]
    ensures !Stamped(Conversation(store, key), messageId) ==> r == store
  {
    if key in store then store[key := Reacted(store[key], messageId, reaction)] else store
  }

  class Server {
    var onlineUsers: Roster
    var messages: map<JsString, seq<Message>>

    ghost predicate Valid()
      reads this
    {
      onlineUsers.Valid() && SocketIdsMatch(onlineUsers)
    }

    constructor ()
      ensures Valid()
      ensures onlineUsers == EmptyMap() && messages == map[]
    {
      onlineUsers := EmptyMap();
      messages := map[];
    }

    /** socket.on('register'): the new member replaces any earlier entry of
        this socket, and every connection gets the new list of members. */
    method OnRegister(sid: SocketId, d: Draft) returns (outbox: seq<Emit>)
      requires Valid()
      modifies this
      ensures Valid()
      ensures onlineUsers == Registered(old(onlineUsers), sid, d)
      ensures outbox == [Emit(ToEveryone, UserList(onlineUsers.Values()))]
      ensures messages == old(messages)
    {
      Enroll(sid, d);
      outbox := BroadcastUserList();
      assert outbox[0].event.users == onlineUsers.Values();
    }

    /** The roster update of socket.on('register'): any entry under `sid`
        goes, and the new member is filed last under `sid`. */
    method Enroll(sid: SocketId, d: Draft)
      requires Valid()
      modifies this
      ensures Valid()
      ensures onlineUsers == Registered(old(onlineUsers), sid, d)
      ensures messages == old(messages)
    {
      ghost var start := onlineUsers;
      if onlineUsers.Has(sid) {
        onlineUsers := onlineUsers.Delete(sid);
      }
      assert onlineUsers == start.Delete(sid);
      onlineUsers := onlineUsers.Set(sid, Member(d, sid));
      assert onlineUsers == Registered(start, sid, d);
      RegisteredKeepsSocketIds(start, sid, d);
    }

    /** `broadcastUserList()`: every member, in registration order (the order
        `Values` lists them in), to every connection. */
    method BroadcastUserList() returns (outbox: seq<Emit>)
      requires Valid()
      ensures |outbox| == 1 && outbox[0].target == ToEveryone && outbox[0].event.UserList?
      ensures var users := outbox[0].event.users;
        && |users| == |onlineUsers.vals| && |users| == |onlineUsers.keys|
        && forall i :: 0 <= i < |users| ==> users[i] == onlineUsers.vals[onlineUsers.keys[i]]
    {
      KeyCount(onlineUsers);
      outbox := [Emit(ToEveryone, UserList(onlineUsers.Values()))];
    }

    /** socket.on('private_message'): with both parties registered, the
        record is filed at the end of the pair's history and goes to the
        recipient and back to the sender; otherwise nothing happens. */
    method OnPrivateMessage(sid: SocketId, recipientId: SocketId, message: JsString, timestamp: JsString)
      returns (outbox: seq<Emit>)
      requires Valid()
      modifies this
      ensures Valid()
      ensures onlineUsers == old(onlineUsers)
      ensures sid !in onlineUsers.vals || recipientId !in onlineUsers.vals ==> messages == old(messages) && outbox == []
      ensures sid in onlineUsers.vals && recipientId in onlineUsers.vals ==>
        var sender, recipient := onlineUsers.vals[sid].info.username, onlineUsers.vals[recipientId].info.username;
        var record := Message(sender, recipient, message, timestamp, map[]);
        && messages == Appended(old(messages), ChatKey(sender, recipient), record)
        && outbox == [Emit(ToSocket(recipientId), PrivateMessage(record)), Emit(ToSocket(sid), PrivateMessage(record))]
    {
      var sender := if onlineUsers.Has(sid) then Some(onlineUsers.vals[sid]) else None;
      var recipient := FindBySocketId(onlineUsers, recipientId);
      if sender.None? || recipient.None? {
        return [];
      }
      assert sender.value == onlineUsers.vals[sid] && recipient.value == onlineUsers.vals[recipientId];
      var messageData := Message(sender.value.info.username, recipient.value.info.username, message, timestamp, map[]);
      var chatKey := ChatKey(sender.value.info.username, recipient.value.info.username);
      FileRecord(chatKey, messageData);
      outbox := [Emit(ToSocket(recipientId), PrivateMessage(messageData)), Emit(ToSocket(sid), PrivateMessage(messageData))];
    }

    /** Storing a message: an absent history is created empty, then the
        record is pushed onto it. */
    method FileRecord(chatKey: JsString, record: Message)
      modifies this
      ensures messages == Appended(old(messages), chatKey, record)
      ensures onlineUsers == old(onlineUsers)
    {
      if chatKey !in messages {
        messages := messages[chatKey := []];
      }
      assert messages[chatKey] == Conversation(old(messages), chatKey);
      messages := messages[chatKey := messages[chatKey] + [record]];
      assert messages == old(messages)[chatKey := Conversation(old(messages), chatKey) + [record]];
    }

    /** socket.on('get_chat_history'): the pair's stored history, or none,
        to a registered socket; nothing to an unregistered one. */
    method OnGetChatHistory(sid: SocketId, withUsername: JsString) returns (outbox: seq<Emit>)
      requires Valid()
      ensures sid !in onlineUsers.vals ==> outbox == []
      ensures sid in onlineUsers.vals ==>
        var me := onlineUsers.vals[sid].info.username;
        outbox == [Emit(ToSocket(sid), ChatHistory(withUsername, Conversation(messages, ChatKey(me, withUsername))))]
    {
      if !onlineUsers.Has(sid) {
        return [];
      }
      var sender := onlineUsers.vals[sid];
      var chatKey := ChatKey(sender.info.username, withUsername);
      var history := if chatKey in messages then messages[chatKey] else [];
      outbox := [Emit(ToSocket(sid), ChatHistory(withUsername, history))];
    }

    /** socket.on('add_reaction'): with both parties registered and a message
        of their history stamped `messageId`, the first such message gets the
        reaction counted and both parties are told; otherwise nothing
        happens. */
    method OnAddReaction(sid: SocketId, recipientId: SocketId, messageId: JsString, reaction: JsString)
      returns (outbox: seq<Emit>)
      requires Valid()
      modifies this
      ensures Valid()
      ensures onlineUsers == old(onlineUsers)
      ensures sid !in onlineUsers.vals || recipientId !in onlineUsers.vals ==> messages == old(messages) && outbox == []
      ensures sid in onlineUsers.vals && recipientId in onlineUsers.vals ==>
        var sender, recipient := onlineUsers.vals[sid].info.username, onlineUsers.vals[recipientId].info.username;
        var key := ChatKey(sender, recipient);
        && messages == ReactedStore(old(messages), key, messageId, reaction)
        && outbox ==
           if Stamped(Conversation(old(messages), key), messageId)
           then [Emit(ToSocket(recipientId), ReactionAdded(messageId, reaction, sender)),
                 Emit(ToSocket(sid), ReactionAdded(messageId, reaction, sender))]
           else []
    {
      var sender := if onlineUsers.Has(sid) then Some(onlineUsers.vals[sid]) else None;
      var recipient := FindBySocketId(onlineUsers, recipientId);
      if sender.None? || recipient.None? {
        return [];
      }
      assert sender.value == onlineUsers.vals[sid] && recipient.value == onlineUsers.vals[recipientId];
      var chatKey := ChatKey(sender.value.info.username, recipient.value.info.username);
      var stamped := CountReaction(chatKey, messageId, reaction);
      if !stamped {
        return [];
      }
      outbox := [Emit(ToSocket(recipientId), ReactionAdded(messageId, reaction, sender.value.info.username)),
                 Emit(ToSocket(sid), ReactionAdded(messageId, reaction, sender.value.info.username))];
    }

    /** The reaction update of socket.on('add_reaction'): the first message of
        the pair's history stamped `messageId`, if there is one, gets the
        reaction counted; `stamped` says whether there was one. */
    method CountReaction(chatKey: JsString, messageId: JsString, reaction: JsString) returns (stamped: bool)
      modifies this
      ensures stamped == Stamped(Conversation(old(messages), chatKey), messageId)
      ensures messages == ReactedStore(old(messages), chatKey, messageId, reaction)
      ensures onlineUsers == old(onlineUsers)
    {
      var chatMessages := if chatKey in messages then messages[chatKey] else [];
      var messageIndex := FindIndex(chatMessages, TimestampIs(messageId));
      if messageIndex == -1 {
        assert !Stamped(chatMessages, messageId);
        return false;
      }
      assert chatKey in messages && Stamped(chatMessages, messageId);
      ghost var found := chatMessages;
      var target := chatMessages[messageIndex];
      chatMessages := chatMessages[messageIndex := target.(reactions := Bump(target.reactions, reaction))];
      assert chatMessages == Reacted(found, messageId, reaction);
      messages := messages[chatKey := chatMessages];
      stamped := true;
    }

    /** socket.on('disconnect'): a registered socket's entry goes and every
        connection gets the new list; an unknown socket changes nothing. */
    method OnDisconnect(sid: SocketId) returns (outbox: seq<Emit>)
      requires Valid()
      modifies this
      ensures Valid()
      ensures onlineUsers.vals == old(onlineUsers).vals - {sid}
      ensures onlineUsers.keys == Remove(old(onlineUsers).keys, sid)
      ensures sid in old(onlineUsers).vals ==> outbox == [Emit(ToEveryone, UserList(onlineUsers.Values()))]
      ensures sid !in old(onlineUsers).vals ==> onlineUsers == old(onlineUsers) && outbox == []
      ensures messages == old(messages)
    {
      if !onlineUsers.Has(sid) {
        assert onlineUsers.Delete(sid) == onlineUsers;
        return [];
      }
      onlineUsers := onlineUsers.Delete(sid);
      outbox := BroadcastUserList();
      assert outbox[0].event.users == onlineUsers.Values();
    }
  }
}
