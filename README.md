# ChatApp server state, in Dafny

The chat server keeps, per process, a registry of the users currently
connected (socket id → profile) and the conversations between pairs of
users (pair key → sequence of message records). `server.js` also keeps
per-user unread counters (username → sender → count). Each socket.io
handler is modelled as one atomic update of these maps, followed by its
emits. The repository
holds two versions of the server, and both are modelled:

- `server.js` (module `ChatServer`). `register` purges registrations whose
  sockets are gone, refuses a username held by another connected socket,
  and stores a normalised profile. `get_chat_history` returns the stored
  history and resets an existing unread counter. `clear_chat` notifies both
  parties. `private_message` delivers a record to both parties. `disconnect`
  drops the entry and the user's unread bucket. The 2-second timer
  broadcasts the list of users.
- `server/gg.js` (module `MemoryChatServer`). `register` has no uniqueness
  check. `private_message` appends to an in-memory per-pair history.
  `get_chat_history` reads it. `add_reaction` counts a reaction symbol on
  the first message with a given timestamp. `disconnect` re-broadcasts
  the user list.

Shared pieces:

- `Protocol`: JavaScript strings as UTF-16 code units, the registration
  payload (`Draft`) and emit targets.
- `JsCollections`: a JavaScript `Map` as a value that remembers insertion
  order (`JsMap`), and `Array.prototype.find` / `findIndex`.
- `ChatKeys`: the pair key `[a, b].sort().join(sep)` and JavaScript's
  string order.

How the environment is modelled:

- Each server is a `class` whose fields are its module-level `Map`s. Each
  handler is a `method` that updates those fields and returns the emits it
  makes as an outbox (`seq<Emit>`, addressed to one socket or to everyone).
- Whether a socket is still connected (`io.sockets.sockets.get(id)?.connected`)
  is the parameter `connected: set<SocketId>`.
- The clock (`new Date().toISOString()`) is the parameter `timestamp`.
- Every database call is a no-op.

Each handler method is specified by a function on values (`RegisteredUsers`,
`Registered`, `Appended`, `ReactedStore`, `ResetUnread`, `KeepOnly`, ...), and
the properties are proved about those functions as lemmas. Properties that
are invariants of the server are kept in the class's `Valid()`:

- every entry's `socketId` equals its key;
- in `server.js`, usernames are unique.

**Key collisions.** The pair key joins the two sorted names with a
separator: `::` in `server.js`, `_` in `server/gg.js`. Usernames are never
checked for that separator, so two different pairs can share a key.
`ChatKeys.SortedJoinCollides` exhibits
the pairs ("x" + sep + "y", "z") and ("x", "y" + sep + "z") for any
separator. With `_` this takes only ordinary usernames: "a_b" with "c" and
"a" with "b_c" share the key "a_b_c". `server/gg.js` files and serves
histories under that key, so such pairs there read each other's
conversation. In `server.js` no history is ever stored (see below), so the
shared key has no visible effect there. The model keeps the key exactly as
the source computes it. `ChatKeys.SortedJoinInjective` states a condition
under which the key does identify the pair: no name contains the
separator's first character.

**Divergences kept as in the source.**

- `server.js` never appends to `chatHistories` and never creates an
  `unreadCounts` bucket. Every handler leaves `chatHistories` unchanged and
  only resets or removes buckets. Starting from the constructor's empty
  maps, `get_chat_history` therefore always returns `[]`.
- `server.js` `clear_chat` does not touch the stored histories.

## Model

| member | source | states |
|---|---|---|
| Protocol.OrEmpty | server.js:94-95 | `x \|\| ''` on an optional string: a missing value becomes the empty string, a present one is kept |
| JsCollections.JsMap.Set | server.js:90-99 | `map.set`: the entry is stored; an existing key keeps its place, a new key goes last; the map stays well formed |
| JsCollections.JsMap.Delete | server.js:60 | `map.delete`: exactly that entry goes, the other keys keep their order, a missing key leaves the map as it was |
| JsCollections.RemoveFacts | server.js:60 | deleting a key from the key order takes out exactly that key, keeps the order free of repetitions, and changes nothing when the key is absent |
| JsCollections.RemoveAfter | server.js:56-62 | deleting the key at the visiting position leaves the keys before it in place, in their order |
| JsCollections.JsMap.Has | server.js:84 | `map.has(k)` (also at server/gg.js:28 and 113): on a well-formed map, true exactly for the keys iteration visits |
| JsCollections.JsMap.Values | server.js:210 | `Array.from(map.values())`: one value per key, in key order |
| JsCollections.JsMap.KeepOnly | server.js:56-62 | after deleting every key outside `c`, the key order is `Keep(keys, c)` and the stored keys are exactly the old keys in `c`, with their values |
| JsCollections.KeepConcat | server.js:56-62 | the filter keeps relative order: the kept elements of `a + b` are those of `a`, then those of `b` |
| JsCollections.EmptyMap | server.js:23-27 | `new Map()`: a well-formed map with no entries |
| JsCollections.KeyCount | server.js:210 | the number of stored entries equals the number of keys iteration visits |
| JsCollections.FindIndex | server/gg.js:90 | `findIndex`: -1 exactly when no element matches; otherwise the index holds a match and no earlier element matches |
| JsCollections.Find | server.js:145 | `find`: nothing exactly when no element matches; otherwise the first matching element |
| JsCollections.FindOnlyMatch | server.js:145 | when only one entry of a map matches, `find` over its values returns that entry, whatever the key order |
| JsCollections.FindNoMatch | server.js:145 | when no entry matches, `find` over the values returns nothing |
| ChatKeys.Less | server.js:36 | JavaScript's `<` on strings, which the default `sort()` uses: `a` comes first exactly when, at the first position where the two differ, `a`'s UTF-16 code unit is the smaller, or when `a` is a proper prefix of `b` |
| ChatKeys.LessIrreflexive | server.js:36 | the string order of `sort()` is irreflexive |
| ChatKeys.LessAsymmetric | server.js:36 | the string order of `sort()` is asymmetric |
| ChatKeys.LessTotal | server.js:36 | any two different strings are ordered one way or the other |
| ChatKeys.LessTransitive | server.js:36 | the string order of `sort()` is transitive |
| ChatKeys.SortedJoin | server.js:34-37 | the key is one of the two names, the separator, then the other name |
| ChatKeys.SortedJoinSymmetric | server.js:34-37 | the key does not depend on the order of the two names |
| ChatKeys.SortedJoinSmallerFirst | server.js:36 | the key is the smaller name, the separator, then the larger name |
| ChatKeys.SplitAtSeparator | server.js:36 | two joins with the same key split the same way when the left parts avoid the separator's first character |
| ChatKeys.SortedJoinInjective | server.js:35-36 | names without the separator's first character give each unordered pair its own key |
| ChatKeys.SortedJoinCollides | server.js:35-36 | names that contain the separator can give two different pairs the same key |
| ChatServer.ChatKey | server.js:34-37 | `getChatKey`: the smaller name, `::`, then the larger, and the same key for both orders of the names |
| MemoryChatServer.ChatKey | server/gg.js:56 | the inline key (also at lines 73 and 87): the smaller name, `_`, then the larger, and the same key for both orders of the names |
| ChatKeys.Conversation | server.js:124 | `store.get(key) \|\| []`: the stored history, or the empty one when none is stored |
| ChatServer.NewProfile | server.js:90-99 | the stored profile has the payload's username, age, gender and coordinates, this socket's id, and country and state defaulted to `''` when missing |
| ChatServer.RegisteredUsers | server.js:51-99 | the registry after `register` is well formed; every entry other than this socket's is a connected entry of the old registry, unchanged, and every such connected entry stays; the iteration order is the connected keys in their old order, with this socket's key moved last on success |
| ChatServer.RegisterReply | server.js:66-116 | exactly one reply, to this socket: `registration_error` exactly when another connected socket holds the name after the purge, `registration_success` with this socket's id otherwise |
| ChatServer.PurgeVisit | server.js:56-62 | the registry after visiting some keys: entries only disappear, never change; every visited key that is not connected is gone; every connected or unvisited entry stays |
| ChatServer.RegisterOutcome | server.js:66-99 | a name held by another connected socket gets `registration_error`, and the registry is exactly the purged one; otherwise `registration_success`, the new profile for this socket goes last, and every other connected entry is unchanged |
| ChatServer.RegisterKeepsNamesUnique | server.js:56-99 | when connected entries share no username before `register`, no two entries share one after it, and every profile still records its own socket |
| ChatServer.ConflictThenRetry | server.js:51-117 | a second socket registering a live user's name is refused and changes nothing; once the holder's entry is gone, the same attempt succeeds |
| ChatServer.PurgeVisitKeys | server.js:56-62 | visiting the keys in order and deleting the disconnected ones leaves the connected keys in their order |
| ChatServer.PurgeVisitVals | server.js:56-62 | that visit deletes exactly the visited entries whose sockets are not connected |
| ChatServer.PurgeVisitAll | server.js:56-62 | visiting every key of the registry is `KeepOnly(connected)` |
| ChatServer.NameIs | server.js:145 | the callback `user => user.username === withUsername`: true exactly for the profiles with that username |
| ChatServer.ResetUnread | server.js:127-128 | an existing bucket gets `[withUsername] = 0` with its other counts kept; no bucket is created; other users' buckets are unchanged |
| ChatServer.UsernameTaken | server.js:65-75 | the loop reports true exactly when another connected socket holds the username |
| ChatServer.Server.constructor | server.js:23-27 | the three maps start empty |
| ChatServer.Server.PurgeDisconnected | server.js:56-62 | the loop that deletes inside the iteration leaves exactly the connected entries, in their order |
| ChatServer.Server.OnRegister | server.js:51-117 | the registry and the reply are those of `RegisteredUsers` / `RegisterReply`; usernames stay unique; histories and unread counts are unchanged |
| ChatServer.Server.OnGetChatHistory | server.js:120-131 | nothing for an unregistered socket; otherwise the pair's history, or `[]`, then the reset bucket when one exists; no bucket is created |
| ChatServer.Server.OnClearChat | server.js:134-150 | nothing for an unregistered socket; otherwise the holder of `withUsername`, if any, is told first, then the sender; no state changes |
| ChatServer.Server.OnPrivateMessage | server.js:153-190 | dropped unless both sender and `recipientId` are registered; otherwise one identical record, with both usernames and no reactions, goes to the recipient and then to the sender; no state changes |
| ChatServer.Server.OnDisconnect | server.js:193-205 | the socket's entry and its user's unread bucket go, and nothing else changes; an unknown socket changes nothing |
| ChatServer.Server.BroadcastUserList | server.js:209-211 | one emit to everyone with every profile, in registration order |
| MemoryChatServer.Registered | server/gg.js:27-35 | the socket's entry becomes the payload plus its socket id and moves last; every other entry is unchanged |
| MemoryChatServer.RegisteredKeepsSocketIds | server/gg.js:35 | after `register` every member is still filed under its own socket id |
| MemoryChatServer.RegisterAdmitsDuplicateName | server/gg.js:24-40 | registering a name another socket holds is accepted, and the two entries then share the name |
| MemoryChatServer.SocketIdIs | server/gg.js:44 | the callback `u => u.socketId === data.recipientId` (also at line 84): true exactly for the members filed with that socket id |
| MemoryChatServer.LookupAgreesWithGet | server/gg.js:44 | `find(u => u.socketId === id)` over the values agrees with `get(id)` |
| MemoryChatServer.FindBySocketId | server/gg.js:44 | the recipient lookup finds the member filed under the id, and nothing when no member is |
| MemoryChatServer.Appended | server/gg.js:56-60 | the record goes at the end of the pair's history, which starts empty when absent; the earlier records and every other history are unchanged |
| MemoryChatServer.AppendedSeenByBoth | server/gg.js:56-60 | a record filed by one party ends the history that the other party's key selects |
| MemoryChatServer.HistorySharedByPair | server/gg.js:73-74 | both parties of a pair read the same history |
| MemoryChatServer.Bump | server/gg.js:94 | the symbol's count goes up by one, starting at one; every other count stays |
| MemoryChatServer.TimestampIs | server/gg.js:90 | the callback `m => m.timestamp === data.messageId`: true exactly for the messages with that timestamp |
| MemoryChatServer.Reacted | server/gg.js:88-94 | only the first message with the timestamp gets the reaction counted; the length and every other message are unchanged; without a match nothing changes |
| MemoryChatServer.FirstStampedExists | server/gg.js:90 | when some message has the timestamp, a first one exists |
| MemoryChatServer.ReactionsNeverDecrease | server/gg.js:94 | no reaction count decreases; on a match, the symbol's count on the first matching message is one more than before |
| MemoryChatServer.ReactTwiceCountsTwo | server/gg.js:90-94 | reacting twice with a new symbol to the same message gives it a count of two |
| MemoryChatServer.ReactedStore | server/gg.js:87-94 | only the pair's stored history changes, by `Reacted`; an absent history stays absent |
| MemoryChatServer.Server.constructor | server/gg.js:18-19 | both maps start empty |
| MemoryChatServer.Server.OnRegister | server/gg.js:24-40 | the roster becomes `Registered`, the messages are unchanged, and the new member list goes to everyone |
| MemoryChatServer.Server.Enroll | server/gg.js:28-35 | the roster becomes `Registered`, still filing every member under its own socket id; the messages are unchanged |
| MemoryChatServer.Server.BroadcastUserList | server/gg.js:122-129 | one emit to everyone with every member, in registration order |
| MemoryChatServer.Server.OnPrivateMessage | server/gg.js:42-68 | with both parties registered, the store becomes `Appended` under the pair key, and the record goes to the recipient, then to the sender; otherwise nothing changes and nothing is emitted |
| MemoryChatServer.Server.FileRecord | server/gg.js:57-60 | the store becomes `Appended` under the key; the roster is unchanged |
| MemoryChatServer.Server.OnGetChatHistory | server/gg.js:70-80 | nothing for an unregistered socket; otherwise the pair's history, or `[]`; no state changes |
| MemoryChatServer.Server.OnAddReaction | server/gg.js:82-109 | with both parties registered, the store becomes `ReactedStore`; both parties are told exactly when a message with the timestamp exists; otherwise nothing changes and nothing is emitted |
| MemoryChatServer.Server.CountReaction | server/gg.js:88-94 | the store becomes `ReactedStore` under the key, and the result says whether the history held a message with the timestamp; the roster is unchanged |
| MemoryChatServer.Server.OnDisconnect | server/gg.js:111-119 | a registered socket's entry goes, the other keys keep their order, and the new list goes to everyone; an unknown socket changes nothing and nothing is emitted |

## Left out

- Express setup, static files, the catch-all route and `server.listen`
  (server.js:9-20, server.js:213-220; server/gg.js:6-15, server/gg.js:131-134):
  I/O plumbing.
- Every Postgres `pool.query` call and its `try`/`catch` (server.js:105-112,
  server.js:139-142, server.js:169-184): a foreign call, modelled as a no-op.
  `Pool` is never imported in `server.js` (server.js:29), so as written that
  module would throw a `ReferenceError` when it loads. The model describes
  the handlers as if it had loaded.
- `console.log` and `logOnlineUsers` (server.js:40-45), and the logging in
  `broadcastUserList` (server/gg.js:124-127): output only.
- The `setInterval` timer (server.js:209-211): only its body is modelled,
  as `BroadcastUserList`.
- Concurrency between handlers: each handler is one atomic step. For the
  maps this matches Node's single thread, because every `await` comes after
  the map updates.
- The order of emits across handlers in `server.js`: `registration_success`
  (server.js:116) and both `private_message` emits (server.js:187-189) are
  made only after an awaited database call (server.js:106, server.js:170).
  Other handlers can run meanwhile, so two messages from one sender can
  reach the recipient in the order their queries complete. The model emits
  at the end of the handler's single step and does not capture that
  interleaving.
- Payload fields beyond the ones the servers read: `Draft` holds the fields
  `server.js` destructures. In `server/gg.js` the spread
  `{ ...userData, socketId }` would also copy any further field the client
  sends.
- `latitude` and `longitude` are JavaScript numbers. They are modelled as
  `real` in an `Option`, because the servers only copy them.
- Socket identifiers, usernames, message text and timestamps are strings.
  The model does not interpret them, and the timestamp is a parameter.
- MemoryChatServer.Bump: treats `reactions` as a plain dictionary. In
  JavaScript, a symbol named like an `Object.prototype` member (for example
  `constructor`) reads an inherited function instead of `undefined`, and
  `+ 1` then concatenates strings. Counts are modelled as unbounded `nat`,
  not 64-bit floats.
- MemoryChatServer.Reacted: `message.reactions = message.reactions || {}`
  (server/gg.js:93) is left out. Every stored record starts with an empty,
  truthy `reactions` object, so that line never replaces it.
- Object identity: pushing onto the stored array and mutating the found
  message in place are modelled as replacing the value stored under the
  key. No other live reference to those objects is observable, because
  emits serialise their payload.
- `messages` in `server/gg.js`, and `chatHistories` and `unreadCounts` in
  `server.js`, are JavaScript `Map`s. They are modelled as plain `map`s
  because they are never iterated, so their key order is never observed.
  `messages` is only read with `get`/`has` and written with `set`; the two
  `server.js` maps are only read with `get`/`has`, or changed with
  `delete` and the counter reset (server.js:124, server.js:127-129,
  server.js:202).
- Client files (client/src/App.js, client/src/components/*.js): React
  state, sessionStorage and display-side bookkeeping are not part of this
  model.
- Events the clients send or expect that these servers do not handle or
  do not emit (`get_online_users`, `mark_messages_read`, `update_users`):
  wiring between client and server, not server state. Two mismatches
  matter in practice. The shipped client sends `private_message` with a
  `recipientUsername` field (client/src/components/ChatInterface.js:105-109
  and 199-203), while both servers read `recipientId` (server.js:153 and
  156, server/gg.js:44). With that client every private message is
  therefore dropped, at server.js:157 and server/gg.js:46. And
  `server/gg.js` never emits the `registration_success` the client waits
  for (client/src/App.js:54). The model takes the server's `recipientId`
  as given.
