# Room chat hub: session registry and presence broadcasts

This project models the server side of a small Socket.IO chat (`index.js`):
the in-memory `users` registry that maps a socket id to `{nickname, room}`,
and the three handlers that read and change it — `join room`, `chat message`
and `disconnect` — together with the `updateUserList` helper that scans the
registry for a room's members and broadcasts the list.

- `wrappers.dfy` — `Option`.
- `registry.dfy` (module `Registry`) — the registry as an insertion-ordered
  association list of `Entry(id, nickname, room)`, following JavaScript's
  own-property order for non-index string keys (ECMA-262, section 10.1.11.1,
  OrdinaryOwnPropertyKeys): assignment to an existing key keeps its position,
  `delete` removes the key, a new key goes to the end. `Lookup`, `Put`,
  `Delete` model `users[id]`, `users[id] = …` and `delete users[id]`;
  `MembersOf` is the room scan, with lemmas relating it to `Put` and `Delete`.
- `events.dfy` (module `Events`) — each handler as a function from the
  registry before the event to the registry after it plus the broadcasts it
  emitted in order. A broadcast is `Emit(room, excluding, event, payload)`:
  the target room, the socket left out (`Some(id)` for `socket.to(room)`,
  `None` for `io.to(room)`), the event name and the payload. `Run` handles a
  sequence of events one after another. Lemmas state what each handler
  promises and replay the four-event scenario Alice/Bob in room "general".
- `hub.dfy` (module `ChatServer`) — class `Hub` with the fields `users` and
  `log` (every broadcast so far). Its methods are the handlers, each proved
  to leave exactly the state the `Events` functions describe; `ScanRoom` is
  the `for…in` loop of `updateUserList`, proved equal to `MembersOf`.

Behaviour of `index.js` that the model keeps as written:
- the join announcement is sent with `socket.to(room)`, so it leaves out the
  joining socket, while the user list that follows goes to the whole room;
- the texts are `"<nickname> has joined the event."` and
  `"<nickname> has left the event."`;
- a room's user list keeps duplicate nicknames (two sessions with the same
  nickname are listed twice), so after a disconnect the list loses one
  occurrence of the departed nickname, not necessarily every one.

## Model

| member | source | states |
|---|---|---|
| Registry.Lookup | index.js:47 | `users[id]` finds a record exactly when `id` is a key, and the record found is the one stored under `id` |
| Registry.IndexOf | index.js:31 | the position of key `id` is the first entry holding it, or the end when no entry does |
| Registry.Put | index.js:31 | after `users[id] = {nickname, room}` the lookup of `id` gives exactly that record; size unchanged for an existing key, one more for a new key |
| Registry.PutLeavesOthers | index.js:31 | every other id keeps its record and its position; an existing key is overwritten in place, a new key is appended at the end; key uniqueness is kept |
| Registry.Delete | index.js:68 | `delete users[id]` of an absent key changes nothing; of a present key removes one entry |
| Registry.DeleteShifts | index.js:68 | deleting a present key keeps the entries before it in place and moves every entry after it up by one, so the remaining keys keep their relative order |
| Registry.DeleteLeavesOthers | index.js:68 | deleting `id` leaves the record of every other id as it was |
| Registry.DeleteKeepsUniqueIds | index.js:68 | with unique keys, after `delete users[id]` the keys are still unique and `id` has no record |
| Registry.MembersOf | index.js:84-88 | the room scan's list is never longer than the registry; its content, order and multiplicity are stated by MembersOfAt, MembersOfContains and MembersOfConcat, and its change under `Put`/`Delete` by PutMembers, DeleteMembers and DeleteMembersInOrder |
| Registry.RoomPositions | index.js:84-85 | the positions of the entries of a room: strictly increasing, each in that room, and every entry of the room among them |
| Registry.MembersOfAt | index.js:82-93 | the user list has one nickname per entry of the room, in registry order: its j-th element is the nickname of the j-th such entry, duplicates kept |
| Registry.MembersOfContains | index.js:84-88 | a nickname is in a room's list exactly when some entry of that room carries it |
| Registry.MembersOfConcat | index.js:84-88 | scanning two consecutive parts of the registry yields their two lists one after the other |
| Registry.DeleteMembers | index.js:68-74 | after removing a key, the list of its room has one element fewer and loses exactly one occurrence of its nickname; every other room's list is unchanged |
| Registry.DeleteMembersInOrder | index.js:68-74 | the list after removal is the old list with the departed entry's nickname taken out at its place, everything else in order |
| Registry.PutMembers | index.js:31-42 | storing `{nickname, room}` under `id` removes the id's old entry from every list and adds `nickname` once to the list of `room` |
| Events.UserListEmit | index.js:91-94 | the 'update user list' broadcast carries `{roomName, userList}` with `roomName` equal to its target room and a list no longer than the registry; ListsAreCurrent ties it to the handlers |
| Events.JoinRoom | index.js:29-43 | after a join the id's record is exactly `{nickname, room}`, and two broadcasts are emitted, the first leaving out the joiner and the second to the whole room; the full content is in JoinAnnouncesThenLists and RejoinIsSilentForOldRoom |
| Events.ChatMessage | index.js:46-55 | a chat never changes the registry and emits one broadcast for a registered id, none otherwise; the content is in ChatEchoesToWholeRoom and UnjoinedIsSilent |
| Events.Disconnect | index.js:58-76 | a disconnect of an unknown id changes nothing and emits nothing; of a known id it removes one entry and emits two broadcasts, whose content is in DisconnectListsWithoutDeparted and DisconnectIsFinal |
| Events.Step | index.js:25-76 | each event is handled by its handler: at most two broadcasts, and a chat leaves the registry unchanged; StepKeepsUniqueIds and ListsAreCurrent state what every handler keeps |
| Events.Run | index.js:25-96 | handling events one after another emits at most two broadcasts per event, and a run of chats only leaves the registry unchanged; RunKeepsUniqueIds states key uniqueness over any run |
| Events.JoinAnnouncesThenLists | index.js:29-43 | a join stores the record under the id, and emits exactly two broadcasts in order: "has joined the event." to the room leaving out the joiner, then the room's user list (whole room) scanned from the new registry, which contains the joiner's nickname |
| Events.RejoinIsSilentForOldRoom | index.js:31-42 | a join from an id already in another room emits nothing to the old room, although the old room's list loses that id's nickname |
| Events.ChatEchoesToWholeRoom | index.js:46-55 | a chat from a registered id emits exactly one 'chat message' `{nickname, message}` to the sender's whole room, sender included, and leaves the registry unchanged |
| Events.UnjoinedIsSilent | index.js:47-64 | a chat or a disconnect from an id with no record emits nothing and leaves the registry unchanged |
| Events.DisconnectListsWithoutDeparted | index.js:61-74 | a disconnect deletes the id and emits "has left the event." then the 'update user list' broadcast of the old room scanned from the registry after removal: one element shorter, one occurrence of the nickname removed, both to the whole room |
| Events.DisconnectIsFinal | index.js:58-76 | after a disconnect the id has no record, a later chat from it emits nothing, and a repeated disconnect is a no-op |
| Events.ListsAreCurrent | index.js:82-94 | every user list a handler emits equals the scan of the registry that handler leaves behind |
| Events.StepKeepsUniqueIds | index.js:29-76 | each handler keeps registry keys unique |
| Events.RunKeepsUniqueIds | index.js:25-96 | keys stay unique over any sequence of events |
| Events.GeneralRoomScenario | index.js:29-95 | Alice joins, Bob joins, Alice says "hi", Bob leaves: the exact seven broadcasts in order and the final registry holding only Alice |
| ChatServer.Hub.constructor | index.js:17 | the registry starts empty, and so does the broadcast log |
| ChatServer.Hub.ScanRoom | index.js:83-88 | the `for…in` loop collects exactly the room's member list `MembersOf(users, room)` |
| ChatServer.Hub.UpdateUserList | index.js:82-95 | appends one 'update user list' broadcast `{roomName: room, userList}` to the whole room with the current scan; the registry is unchanged |
| ChatServer.Hub.JoinRoom | index.js:29-43 | the registry becomes the join's registry and the log grows by exactly the join's two broadcasts; keys stay unique |
| ChatServer.Hub.ChatMessage | index.js:46-55 | the registry is unchanged and the log grows by exactly the chat's broadcasts (none for an unjoined id) |
| ChatServer.Hub.Disconnect | index.js:58-76 | the registry becomes the disconnect's registry and the log grows by exactly its broadcasts (none for an unjoined id) |

## Left out

- Express setup, the `GET /` static file, `server.listen` and the `PORT`
  environment lookup (index.js:2-14, 20-22, 99-101): I/O outside the core.
- Socket.IO delivery: `socket.join(room)` and which sockets receive a
  `to(room).emit` (index.js:34, 39, 54, 71, 91). Membership of Socket.IO
  rooms lives in the library; a broadcast is recorded only by its target
  room and the excluded socket.
- `console.log` calls (index.js:26, 36, 59, 100): logging only.
- Concurrency: Node runs one event handler to completion before the next, so
  each handler is one atomic step and no interleaving is modelled.
- The socket id is a parameter of each handler rather than the captured
  `socket` of the `connection` callback; a disconnected socket sends no
  further events; the model has no separate "terminated" state, so a later
  chat or disconnect from that id would be a no-op, while a later join would
  register it again.
- Keys that are array indices (JavaScript lists those first, in numeric
  order) and keys that collide with `Object.prototype` properties
  (`users["toString"]` would find an inherited value, assigning
  `users["__proto__"]` would not create a key): socket ids are random
  non-numeric strings, so the registry is modelled as a plain ordered map.
- Malformed payloads: a missing join payload makes the destructuring throw,
  and a non-string nickname is converted to text by the template literal;
  the chat `msg` can be any serialisable value and is forwarded unchanged.
  The nickname, the room and the chat message are modelled as strings.
