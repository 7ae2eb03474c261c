/** The socket handlers of `server.js`: the registry of connected users
    (`onlineUsers`), the per-pair histories (`chatHistories`) and the unread
    counters (`unreadCounts`). Liveness of a socket is the `connected` set the
    transport reports; emits are returned as an outbox; database writes are
    no-ops. */
module ChatServer {
  import opened Protocol
  import opened JsCollections
  import opened ChatKeys

  /** The separator `getChatKey` joins the two names with: `'::'`. */
  const KeySeparator: JsString := [0x3A, 0x3A]

  /** `getChatKey(userA, userB)`. */
  function ChatKey(a: JsString, b: JsString): (key: JsString)
    ensures (key == a + KeySeparator + b && !Less(b, a)) || (key == b + KeySeparator + a && !Less(a, b))
    ensures key == SortedJoin(b, a, KeySeparator)
  {
    SortedJoinSmallerFirst(a, b, KeySeparator);
    SortedJoinSymmetric(a, b, KeySeparator);
    SortedJoin(a, b, KeySeparator)
  }

  /** A registered user, as stored in `onlineUsers`. */
  datatype Profile = Profile(
    username: JsString,
    age: Option<JsString>,
    gender: Option<JsString>,
    country: JsString,
    state: JsString,
    socketId: SocketId,
    latitude: Option<real>,
    longitude: Option<real>)

  /** A message record as delivered to both parties. */
  datatype Message = Message(
    sender: JsString,
    recipient: JsString,
    message: JsString,
    isImage: bool,
    timestamp: JsString,
    reactions: map<JsString, nat>)

  /** The events this server emits. */
  datatype Event =
    | RegistrationError(message: JsString)
    | RegistrationSuccess(socketId: SocketId)
    | ChatHistory(withUsername: JsString, history: seq<Message>)
    | UnreadCounts(counts: map<JsString, nat>)
    | ChatCleared(withUsername: JsString)
    | PrivateMessage(record: Message)
    | UserList(users: seq<Profile>)

  datatype Emit = Emit(target: Target, event: Event)

  /** The text of the `registration_error` reply. */
  const TakenMessage: JsString := FromAscii("Username is already taken")

  /** The profile `register` stores: the payload's fields, a missing country
      or state replaced by the empty string, and the socket's own id. */
  function NewProfile(sid: SocketId, d: Draft): (p: Profile)
    ensures p.socketId == sid && p.username == d.username
    ensures p.age == d.age && p.gender == d.gender && p.latitude == d.latitude && p.longitude == d.longitude
    ensures d.country.None? ==> p.country == []
    ensures d.country.Some? ==> p.country == d.country.value
    ensures d.state.None? ==> p.state == []
    ensures d.state.Some? ==> p.state == d.state.value
  {
    Profile(d.username, d.age, d.gender, OrEmpty(d.country), OrEmpty(d.state), sid, d.latitude, d.longitude)
  }

  type Registry = JsMap<SocketId, Profile>

  /** Every profile records the socket it is filed under. */
  ghost predicate SocketIdsMatch(users: Registry) {
    forall k :: k in users.vals ==> users.vals[k].socketId == k
  }

  /** No two entries share a username. */
  ghost predicate NamesUnique(users: Registry) {
    forall a, b :: a in users.vals && b in users.vals && users.vals[a].username == users.vals[b].username ==> a == b
  }

  /** No two entries of connected sockets share a username. */
  ghost predicate LiveNamesUnique(users: Registry, connected: set<SocketId>) {
    forall a, b ::
      (a in users.vals && b in users.vals && a in connected && b in connected &&
       users.vals[a].username == users.vals[b].username) ==> a == b
  }

  /** Some connected socket other than `sid` is registered as `name`. */
  ghost predicate NameHeldElsewhere(users: Registry, sid: SocketId, name: JsString, connected: set<SocketId>) {
    exists k :: k in users.vals && k != sid && k in connected && users.vals[k].username == name
  }

  /** The registry after `register`: stale entries purged, then, unless the
      name is taken, this socket's entry replaced by the new profile. */
  ghost function RegisteredUsers(users: Registry, sid: SocketId, d: Draft, connected: set<SocketId>): (r: Registry)
    requires users.Valid()
    ensures r.Valid()
    ensures forall k :: k in r.vals ==> k == sid || (k in connected && k in users.vals && r.vals[k] == users.vals[k])
    ensures forall k :: k in users.vals && k in connected && k != sid ==> k in r.vals
    ensures NameHeldElsewhere(users.KeepOnly(connected), sid, d.username, connected) ==>
      r.keys == Keep(users.keys, connected)
    ensures !NameHeldElsewhere(users.KeepOnly(connected), sid, d.username, connected) ==>
      r.keys == Remove(Keep(users.keys, connected), sid) + [sid]
  {
    var purged := users.KeepOnly(connected);
    if NameHeldElsewhere(purged, sid, d.username, connected) then purged
    else
      assert sid !in purged.Delete(sid).vals;
      purged.Delete(sid).Set(sid, NewProfile(sid, d))
  }

  /** What `register` emits to the registering socket. */
  ghost function RegisterReply(users: Registry, sid: SocketId, d: Draft, connected: set<SocketId>): (reply: seq<Emit>)
    requires users.Valid()
    ensures |reply| == 1 && reply[0].target == ToSocket(sid)
    ensures reply[0].event.RegistrationError? <==> NameHeldElsewhere(users.KeepOnly(connected), sid, d.username, connected)
    ensures reply[0].event.RegistrationError? || reply[0].event == RegistrationSuccess(sid)
  {
    if NameHeldElsewhere(users.KeepOnly(connected), sid, d.username, connected)
    then [Emit(ToSocket(sid), RegistrationError(TakenMessage))]
    else [Emit(ToSocket(sid), RegistrationSuccess(sid))]
  }

  /** The outcome of `register` in terms of the registry it started from: a
      name held by another connected socket is refused and only the purge
      happens; otherwise the connected entries stay as they were and this
      socket's new profile is added, last in iteration order. */
  lemma RegisterOutcome(users: Registry, sid: SocketId, d: Draft, connected: set<SocketId>)
    requires users.Valid()
    ensures var after, reply := RegisteredUsers(users, sid, d, connected), RegisterReply(users, sid, d, connected);
      && after.Valid()
      && (forall k :: k in after.vals && k != sid ==> k in connected && k in users.vals && after.vals[k] == users.vals[k])
      && (forall k :: k in users.vals && k in connected && k != sid ==> k in after.vals)
      && if exists k :: k in users.vals && k != sid && k in connected && users.vals[k].username == d.username
         then
           && reply == [Emit(ToSocket(sid), RegistrationError(TakenMessage))]
           && after == users.KeepOnly(connected)
         else
           && reply == [Emit(ToSocket(sid), RegistrationSuccess(sid))]
           && sid in after.vals && after.vals[sid] == NewProfile(sid, d)
           && after.keys[|after.keys| - 1] == sid
  {
    var purged := users.KeepOnly(connected);
    if exists k :: k in users.vals && k != sid && k in connected && users.vals[k].username == d.username {
      var k :| k in users.vals && k != sid && k in connected && users.vals[k].username == d.username;
      assert k in purged.vals;
    } else {
      var removed := purged.Delete(sid);
      assert sid !in removed.vals;
    }
  }

  /** `register` leaves no two entries with the same username, provided no
      two connected entries shared one before; every stored profile still
      records its own socket. */
  lemma RegisterKeepsNamesUnique(users: Registry, sid: SocketId, d: Draft, connected: set<SocketId>)
    requires users.Valid() && SocketIdsMatch(users) && LiveNamesUnique(users, connected)
    ensures NamesUnique(RegisteredUsers(users, sid, d, connected))
    ensures LiveNamesUnique(RegisteredUsers(users, sid, d, connected), connected)
    ensures SocketIdsMatch(RegisteredUsers(users, sid, d, connected))
  {
    var purged := users.KeepOnly(connected);
    assert NamesUnique(purged);
    if !NameHeldElsewhere(purged, sid, d.username, connected) {
      var after := purged.Delete(sid).Set(sid, NewProfile(sid, d));
      forall a, b | a in after.vals && b in after.vals && after.vals[a].username == after.vals[b].username
        ensures a == b
      {
        if a != sid && b != sid {
          assert after.vals[a] == purged.vals[a] && after.vals[b] == purged.vals[b];
        }
      }
    }
  }

  /** A name held by a live socket is refused to another socket, which
      changes nothing; once the holder's entry is gone, the same attempt
      succeeds and leaves the newcomer as the only entry. */
  lemma ConflictThenRetry(a: SocketId, b: SocketId, alice: Draft, bob: Draft)
    requires a != b && bob.username == alice.username
    ensures var live, empty := {a, b}, EmptyMap<SocketId, Profile>();
      var first := RegisteredUsers(empty, a, alice, live);
      && RegisterReply(empty, a, alice, live) == [Emit(ToSocket(a), RegistrationSuccess(a))]
      && RegisterReply(first, b, bob, live) == [Emit(ToSocket(b), RegistrationError(TakenMessage))]
      && RegisteredUsers(first, b, bob, live).vals == first.vals
      && RegisterReply(first.Delete(a), b, bob, {b}) == [Emit(ToSocket(b), RegistrationSuccess(b))]
      && RegisteredUsers(first.Delete(a), b, bob, {b}).vals == map[b := NewProfile(b, bob)]
  {
    var live, empty := {a, b}, EmptyMap<SocketId, Profile>();
    var first := RegisteredUsers(empty, a, alice, live);
    assert RegisterReply(empty, a, alice, live) == [Emit(ToSocket(a), RegistrationSuccess(a))]
      && first.vals == map[a := NewProfile(a, alice)] by {
      RegisterOutcome(empty, a, alice, live);
    }
    assert RegisterReply(first, b, bob, live) == [Emit(ToSocket(b), RegistrationError(TakenMessage))]
      && RegisteredUsers(first, b, bob, live).vals == first.vals by {
      RegisterOutcome(first, b, bob, live);
    }
    var left := first.Delete(a);
    assert left.vals == map[];
    RegisterOutcome(left, b, bob, {b});
  }

  /** The registry after the purge loop, standing at `m`, has visited the
      keys `ks` in order, deleting each one whose socket is not connected. */
  function PurgeVisit(m: Registry, ks: seq<SocketId>, connected: set<SocketId>): (r: Registry)
    requires m.Valid()
    ensures r.Valid()
    ensures forall k :: k in r.vals ==> k in m.vals && r.vals[k] == m.vals[k]
    ensures forall k :: k in m.vals && (k in connected || k !in ks) ==> k in r.vals
    ensures forall k :: k in ks && k !in connected ==> k !in r.vals
    decreases |ks|
  {
    if ks == [] then m
    else PurgeVisit(if ks[0] in connected then m else m.Delete(ks[0]), ks[1..], connected)
  }

  /** Visiting the keys after those already kept leaves the connected keys
      in their order. */
  lemma {:induction false} PurgeVisitKeys(m: Registry, done: seq<SocketId>, ks: seq<SocketId>, connected: set<SocketId>)
    requires m.Valid() && m.keys == done + ks
    requires forall x :: x in done ==> x in connected
    ensures PurgeVisit(m, ks, connected).keys == done + Keep(ks, connected)
    decreases |ks|
  {
    if ks == [] {
      assert m.keys == done;
    } else {
      var k := ks[0];
      var next := if k in connected then m else m.Delete(k);
      var kept := if k in connected then done + [k] else done;
      PurgeVisitStep(m, ks, connected);
      VisitedKeys(m, done, ks, connected);
      PurgeVisitKeys(next, kept, ks[1..], connected);
      KeepStep(done, ks, connected);
    }
  }

  /** One step of the purge loop: the first key is kept or deleted, then the
      rest are visited. */
  lemma PurgeVisitStep(m: Registry, ks: seq<SocketId>, connected: set<SocketId>)
    requires m.Valid() && ks != []
    ensures PurgeVisit(m, ks, connected)
      == PurgeVisit(if ks[0] in connected then m else m.Delete(ks[0]), ks[1..], connected)
  {
  }

  /** After one step, the keys are those kept so far followed by those not
      yet visited. */
  lemma VisitedKeys(m: Registry, done: seq<SocketId>, ks: seq<SocketId>, connected: set<SocketId>)
    requires m.Valid() && m.keys == done + ks && ks != []
    requires forall x :: x in done ==> x in connected
    ensures var next := if ks[0] in connected then m else m.Delete(ks[0]);
      var kept := if ks[0] in connected then done + [ks[0]] else done;
      && next.Valid() && next.keys == kept + ks[1..]
      && forall x :: x in kept ==> x in connected
  {
    if ks[0] in connected {
      assert m.keys == (done + [ks[0]]) + ks[1..];
    } else {
      DeleteVisited(m, done, ks);
    }
  }

  /** The kept keys grow by the visited key exactly when it is connected. */
  lemma KeepStep(done: seq<SocketId>, ks: seq<SocketId>, connected: set<SocketId>)
    requires ks != []
    ensures (if ks[0] in connected then done + [ks[0]] else done) + Keep(ks[1..], connected)
      == done + Keep(ks, connected)
  {
    if ks[0] in connected {
      assert Keep(ks, connected) == [ks[0]] + Keep(ks[1..], connected);
    } else {
      assert Keep(ks, connected) == Keep(ks[1..], connected);
    }
  }

  /** Deleting the visited key leaves the kept keys followed by those not
      yet visited. */
  lemma DeleteVisited(m: Registry, done: seq<SocketId>, ks: seq<SocketId>)
    requires m.Valid() && m.keys == done + ks && ks != []
    ensures m.Delete(ks[0]).keys == done + ks[1..]
  {
    var k, rest := ks[0], ks[1..];
    assert m.keys == done + [k] + rest;
    DistinctMiddle(done, k, rest);
    RemoveAfter(done, k, rest);
    RemoveFacts(rest, k);
  }

  /** Visiting keys deletes exactly the visited entries whose sockets are not
      connected. */
  lemma {:induction false} PurgeVisitVals(m: Registry, ks: seq<SocketId>, connected: set<SocketId>)
    requires m.Valid()
    ensures PurgeVisit(m, ks, connected).vals == map j | j in m.vals && (j in connected || j !in ks) :: m.vals[j]
    decreases |ks|
  {
    if ks != [] {
      var k, rest := ks[0], ks[1..];
      assert forall j :: j in ks <==> j == k || j in rest;
      var next := if k in connected then m else m.Delete(k);
      PurgeVisitVals(next, rest, connected);
    }
  }

  /** Visiting every key of the registry in order is `KeepOnly`. */
  lemma PurgeVisitAll(m: Registry, connected: set<SocketId>)
    requires m.Valid()
    ensures PurgeVisit(m, m.keys, connected) == m.KeepOnly(connected)
  {
    assert m.keys == [] + m.keys;
    PurgeVisitKeys(m, [], m.keys, connected);
    PurgeVisitVals(m, m.keys, connected);
    assert PurgeVisit(m, m.keys, connected).vals == m.KeepOnly(connected).vals;
  }

  /** `unreadCounts.get(user)[other] = 0` when `user` has a bucket; nothing
      otherwise. */
  function ResetUnread(unread: map<JsString, map<JsString, nat>>, user: JsString, other: JsString): (r: map<JsString, map<JsString, nat>>)
    ensures r.Keys == unread.Keys
    ensures user in r ==> other in r[user] && r[user][other] == 0
    ensures user in r ==> forall s :: s in unread[user] && s != other ==> s in r[user] && r[user][s] == unread[user][s]
    ensures user in r ==> r[user].Keys == unread[user].Keys + {other}
    ensures forall u :: u in unread && u != user ==> r[u] == unread[u]
  {
    if user in unread then unread[user := unread[user][other := 0]] else unread
  }

  /** `user => user.username === name`. */
  function NameIs(name: JsString): (f: Profile -> bool)
    ensures forall p :: f(p) <==> p.username == name
  {
    (p: Profile) => p.username == name
  }

  /** The `for` loop of `register` that looks for another connected socket
      holding the username. */
  method UsernameTaken(users: Registry, sid: SocketId, name: JsString, connected: set<SocketId>) returns (taken: bool)
    requires users.Valid()
    ensures taken == NameHeldElsewhere(users, sid, name, connected)
  {
    taken := false;
    var entries := users.keys;
    var i := 0;
    while i < |entries|
      invariant 0 <= i <= |entries|
      invariant forall j :: 0 <= j < i ==> !(entries[j] != sid && entries[j] in connected && users.vals[entries[j]].username == name)
    {
      var sockId := entries[i];
      if users.vals[sockId].username == name && sockId != sid {
        if sockId in connected {
          taken := true;
          break;
        }
      }
      i := i + 1;
    }
    if !taken {
      forall k | k in users.vals ensures !(k != sid && k in connected && users.vals[k].username == name) {
        var j :| 0 <= j < |entries| && entries[j] == k;
      }
    }
  }

  class Server {
    var onlineUsers: Registry
    var chatHistories: map<JsString, seq<Message>>
    var unreadCounts: map<JsString, map<JsString, nat>>

    ghost predicate Valid()
      reads this
    {
      onlineUsers.Valid() && SocketIdsMatch(onlineUsers) && NamesUnique(onlineUsers)
    }

    constructor ()
      ensures Valid()
      ensures onlineUsers == EmptyMap() && chatHistories == map[] && unreadCounts == map[]
    {
      onlineUsers := EmptyMap();
      chatHistories := map[];
      unreadCounts := map[];
    }

    /** The first loop of `register`: delete every entry whose socket is no
        longer connected. */
    method PurgeDisconnected(connected: set<SocketId>)
      requires Valid()
      modifies this
      ensures Valid()
      ensures onlineUsers == old(onlineUsers).KeepOnly(connected)
      ensures chatHistories == old(chatHistories) && unreadCounts == old(unreadCounts)
    {
      ghost var start := onlineUsers;
      var entries := onlineUsers.keys;
      var i := 0;
      while i < |entries|
        invariant 0 <= i <= |entries|
        invariant onlineUsers.Valid()
        invariant PurgeVisit(onlineUsers, entries[i..], connected) == PurgeVisit(start, entries, connected)
        invariant chatHistories == old(chatHistories) && unreadCounts == old(unreadCounts)
      {
        var sockId := entries[i];
        assert entries[i..][1..] == entries[i + 1..];
        if sockId !in connected {
          onlineUsers := onlineUsers.Delete(sockId);
        }
        i := i + 1;
      }
      PurgeVisitAll(start, connected);
    }

    /** socket.on('register'). */
    method OnRegister(sid: SocketId, d: Draft, connected: set<SocketId>) returns (outbox: seq<Emit>)
      requires Valid()
      modifies this
      ensures Valid()
      ensures onlineUsers == RegisteredUsers(old(onlineUsers), sid, d, connected)
      ensures outbox == RegisterReply(old(onlineUsers), sid, d, connected)
      ensures chatHistories == old(chatHistories) && unreadCounts == old(unreadCounts)
    {
      RegisterKeepsNamesUnique(onlineUsers, sid, d, connected);
      PurgeDisconnected(connected);
      var taken := UsernameTaken(onlineUsers, sid, d.username, connected);
      if taken {
        outbox := [Emit(ToSocket(sid), RegistrationError(TakenMessage))];
        return;
      }
      if onlineUsers.Has(sid) {
        onlineUsers := onlineUsers.Delete(sid);
      }
      onlineUsers := onlineUsers.Set(sid, NewProfile(sid, d));
      outbox := [Emit(ToSocket(sid), RegistrationSuccess(sid))];
    }

    /** socket.on('get_chat_history'): the stored history for the pair, and
        the reset unread bucket when the user has one. */
    method OnGetChatHistory(sid: SocketId, withUsername: JsString) returns (outbox: seq<Emit>)
      requires Valid()
      modifies this
      ensures Valid()
      ensures onlineUsers == old(onlineUsers) && chatHistories == old(chatHistories)
      ensures sid !in onlineUsers.vals ==> outbox == [] && unreadCounts == old(unreadCounts)
      ensures sid in onlineUsers.vals ==>
        var me := onlineUsers.vals[sid].username;
        && unreadCounts == ResetUnread(old(unreadCounts), me, withUsername)
        && outbox ==
           [Emit(ToSocket(sid), ChatHistory(withUsername, Conversation(chatHistories, ChatKey(me, withUsername))))] +
           (if me in unreadCounts then [Emit(ToSocket(sid), UnreadCounts(unreadCounts[me]))] else [])
    {
      if sid !in onlineUsers.vals {
        return [];
      }
      var user := onlineUsers.vals[sid];
      var chatKey := ChatKey(user.username, withUsername);
      var history := if chatKey in chatHistories then chatHistories[chatKey] else [];
      outbox := [Emit(ToSocket(sid), ChatHistory(withUsername, history))];
      if user.username in unreadCounts {
        unreadCounts := unreadCounts[user.username := unreadCounts[user.username][withUsername := 0]];
        outbox := outbox + [Emit(ToSocket(sid), UnreadCounts(unreadCounts[user.username]))];
      }
    }

    /** socket.on('clear_chat'): both parties are told; the stored history is
        not touched. */
    method OnClearChat(sid: SocketId, withUsername: JsString) returns (outbox: seq<Emit>)
      requires Valid()
      ensures sid !in onlineUsers.vals ==> outbox == []
      ensures sid in onlineUsers.vals ==>
        var me := onlineUsers.vals[sid].username;
        && 1 <= |outbox| <= 2
        && outbox[|outbox| - 1] == Emit(ToSocket(sid), ChatCleared(withUsername))
        && (|outbox| == 2 <==> exists k :: k in onlineUsers.vals && onlineUsers.vals[k].username == withUsername)
        && forall k :: k in onlineUsers.vals && onlineUsers.vals[k].username == withUsername ==>
             outbox[0] == Emit(ToSocket(k), ChatCleared(me))
    {
      if sid !in onlineUsers.vals {
        return [];
      }
      var sender := onlineUsers.vals[sid];
      var recipient := Find(onlineUsers.Values(), NameIs(withUsername));
      if exists k :: k in onlineUsers.vals && onlineUsers.vals[k].username == withUsername {
        var k :| k in onlineUsers.vals && onlineUsers.vals[k].username == withUsername;
        FindOnlyMatch(onlineUsers, NameIs(withUsername), k);
      } else {
        FindNoMatch(onlineUsers, NameIs(withUsername));
      }
      outbox := [];
      if recipient.Some? {
        outbox := [Emit(ToSocket(recipient.value.socketId), ChatCleared(sender.username))];
      }
      outbox := outbox + [Emit(ToSocket(sid), ChatCleared(withUsername))];
    }

    /** socket.on('private_message'): the recipient is named by socket id;
        the record goes to the recipient and back to the sender. */
    method OnPrivateMessage(sid: SocketId, recipientId: SocketId, message: JsString, isImage: bool, timestamp: JsString)
      returns (outbox: seq<Emit>)
      requires Valid()
      ensures sid !in onlineUsers.vals || recipientId !in onlineUsers.vals ==> outbox == []
      ensures sid in onlineUsers.vals && recipientId in onlineUsers.vals ==>
        && |outbox| == 2
        && outbox[0].target == ToSocket(recipientId) && outbox[1].target == ToSocket(sid)
        && outbox[0].event == outbox[1].event && outbox[0].event.PrivateMessage?
        && var record := outbox[0].event.record;
           && record.sender == onlineUsers.vals[sid].username
           && record.recipient == onlineUsers.vals[recipientId].username
           && record.message == message && record.isImage == isImage
           && record.timestamp == timestamp && record.reactions == map[]
    {
      if sid !in onlineUsers.vals {
        return [];
      }
      var sender := onlineUsers.vals[sid];
      if recipientId !in onlineUsers.vals {
        return [];
      }
      var recipient := onlineUsers.vals[recipientId];
      var messageData := Message(sender.username, recipient.username, message, isImage, timestamp, map[]);
      outbox := [Emit(ToSocket(recipientId), PrivateMessage(messageData)), Emit(ToSocket(sid), PrivateMessage(messageData))];
    }

    /** socket.on('disconnect'): the socket's entry and its user's unread
        bucket go; nothing is emitted. */
    method OnDisconnect(sid: SocketId)
      requires Valid()
      modifies this
      ensures Valid()
      ensures onlineUsers == old(onlineUsers).Delete(sid)
      ensures onlineUsers.vals == old(onlineUsers).vals - {sid}
      ensures sid in old(onlineUsers).vals ==> unreadCounts == old(unreadCounts) - {old(onlineUsers).vals[sid].username}
      ensures sid !in old(onlineUsers).vals ==> unreadCounts == old(unreadCounts) && onlineUsers == old(onlineUsers)
      ensures chatHistories == old(chatHistories)
    {
      var user := if sid in onlineUsers.vals then Some(onlineUsers.vals[sid]) else None;
      onlineUsers := onlineUsers.Delete(sid);
      if user.Some? {
        unreadCounts := unreadCounts - {user.value.username};
      }
    }

    /** The body of the two-second timer: every registered profile, in
        registration order, to every connection. */
    method BroadcastUserList() returns (outbox: seq<Emit>)
      requires Valid()
      ensures |outbox| == 1 && outbox[0].target == ToEveryone && outbox[0].event.UserList?
      ensures var users := outbox[0].event.users;
        && |users| == |onlineUsers.vals| && |users| == |onlineUsers.keys|
        && forall i :: 0 <= i < |users| ==> users[i] == onlineUsers.vals[onlineUsers.keys[i]]
    {
      KeyCount(onlineUsers);
      outbox := [Emit(ToEveryone, UserList(onlineUsers.Values()))];
    }
  }
}
