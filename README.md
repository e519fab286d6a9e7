# Real-time connection hub of the collaborative drawing app, in Dafny

This project models the WebSocket server in `apps/ws-backend/src/index.ts`. The server
admits a connection only when its token verifies. It keeps a process-wide list `users`
of entries (socket, user id, joined rooms). It dispatches each inbound JSON frame on its
`type`: `join_room`, `leave_room`, `chat`, or anything else. A successful chat is
persisted and fanned out to every open socket whose entry has joined the room, the
sender included. On `close` the socket's entry is removed.

Modules, one per layer:

- `Wrappers` (wrappers.dfy): `Option`.
- `Text` (text.dfy): `String.prototype.trim` over ECMAScript's WhiteSpace and
  LineTerminator characters, with its characterisation, emptiness test and idempotence.
- `Protocol` (protocol.dfy): socket handles, the connection request, inbound frames as
  `JSON.parse` leaves them, outbound frames, error reasons (one per error text the
  server sends), and the observable actions: a send, or a close with a code.
- `Registry` (registry.dfy): the `User` entry, the first-match lookup, the
  `rooms.filter` used by `leave_room`, the removal done on close, and the sends a
  broadcast produces, with lemmas about each.
- `Dispatch` (dispatch.dfy): each event handler as one atomic function of the registry
  before the event. It returns the new registry, the actions in order and the chat row
  persisted, if any. The lemmas state the properties the handlers promise.
- `Hub` (hub.dfy): the imperative server. `Server` is a class whose `users: seq<User>`
  field the methods `Connect`, `OnMessage` and `OnClose` update in place. `Store`
  stands for the database (the room ids and the chat table with its id counter).
  `FindIndex` is the linear scan `users.find`/`findIndex` and `FanOut` is the
  `forEach` broadcast loop. Each `Server` method is proved to produce exactly the
  registry, actions and store writes that the matching `Dispatch` function gives.

External collaborators become parameters:

- the token check (`checkUser`, wrapping `jwt.verify`) is a function
  `verify: string -> Option<UserId>`;
- `ws.readyState === WebSocket.OPEN` is a set `open` of the sockets open while the
  handler runs;
- `room.findUnique` is membership in `Store.roomIds`;
- `chat.create` is `Store.CreateChat`, which hands out ids from a counter.

Behaviour of the code worth knowing:

- `chat` checks that the sender has joined the room before it asks the store whether
  the room exists, so a chat to a room that is neither joined nor stored gets
  "Join the room first".
- A room id is only checked with `isNaN(Number(...))`, so any number that is not NaN
  is accepted as a room id.
- Room membership lives only in each entry's `rooms` list. A broadcast finds a room's
  members by scanning the whole registry.
- The server never checks whether a socket already has an entry. Every `connection`
  event brings a new socket, so `Server.Connect` requires that `h` has no entry, and
  `Server.Valid` keeps one entry per socket (`UniqueHandles`) in every state. The
  registry lemmas state what they need of this as a precondition.
- A frame that is not JSON is answered with a "Server error" frame.
- A frame of unknown type is ignored without any reply.

## Model

| member | source | states |
|---|---|---|
| `Text.TrimStart` | apps/ws-backend/src/index.ts:160 | the result is the suffix of the input left after removing the longest prefix of trimmable characters |
| `Text.TrimEnd` | apps/ws-backend/src/index.ts:160 | the result is the prefix of the input left after removing the longest suffix of trimmable characters |
| `Text.TrimIsCore` | apps/ws-backend/src/index.ts:186 | `message.trim()` is a slice of the message with only trimmable characters before and after it |
| `Text.TrimEnds` | apps/ws-backend/src/index.ts:186 | a non-empty `message.trim()` neither starts nor ends with a trimmable character |
| `Text.TrimEmptyIff` | apps/ws-backend/src/index.ts:160 | `message.trim() === ""` holds exactly when every character of the message is trimmable |
| `Text.TrimIdempotent` | apps/ws-backend/src/index.ts:186 | trimming the saved text again changes nothing |
| `Protocol.Reply` | apps/ws-backend/src/index.ts:112-113 | a reply is exactly one send to the requester when its socket is open, and nothing otherwise |
| `Registry.IndexOf` | apps/ws-backend/src/index.ts:242 | the lookup yields the first entry whose socket is `h`, or -1 when no entry has socket `h` |
| `Registry.Without` | apps/ws-backend/src/index.ts:150 | the filtered list holds exactly the rooms of the old list other than `id` |
| `Registry.WithoutAbsent` | apps/ws-backend/src/index.ts:150 | filtering out a room that was never joined leaves the list unchanged |
| `Registry.WithoutAt` | apps/ws-backend/src/index.ts:150 | on a duplicate-free list, the filter removes exactly the one position holding the id and keeps every other room in its order |
| `Registry.WithoutDistinct` | apps/ws-backend/src/index.ts:150 | the filter keeps a room list duplicate-free |
| `Registry.DeregisterAbsent` | apps/ws-backend/src/index.ts:246-251 | closing a socket that has no entry leaves the registry unchanged |
| `Registry.DeregisterKeepsOthers` | apps/ws-backend/src/index.ts:241-251 | with one entry per socket, close leaves exactly the other entries in their original order |
| `Registry.DeregisterInvariants` | apps/ws-backend/src/index.ts:246-249 | close removes at most one entry and keeps room lists duplicate-free; with one entry per socket it keeps handles unique and leaves no entry for the closed socket |
| `Registry.DeregisterIdempotent` | apps/ws-backend/src/index.ts:241-251 | a second close of the same socket changes nothing |
| `Registry.DeliveriesRecipients` | apps/ws-backend/src/index.ts:196-209 | every broadcast send carries the chat frame and goes to an open socket whose entry has joined the room |
| `Registry.DeliveriesUnregistered` | apps/ws-backend/src/index.ts:196-209 | a socket with no entry receives nothing from a broadcast |
| `Registry.DeliveriesExactlyOnce` | apps/ws-backend/src/index.ts:196-209 | with one entry per socket, a broadcast sends exactly one frame to each open socket that joined the room and none to any other socket |
| `Dispatch.Admit` | apps/ws-backend/src/index.ts:65-80 | a connection is admitted exactly when it has a URL and its token verifies to a non-empty user id, and it is admitted under that id |
| `Dispatch.RejectedNeverRegistered` | apps/ws-backend/src/index.ts:65-80 | a rejected connection is closed with code 1008 ("URL required" or "Invalid token") and the registry is unchanged |
| `Dispatch.AcceptedAppendedOnce` | apps/ws-backend/src/index.ts:82-85 | an admitted connection is appended once at the end with no rooms and is sent `connected` with its user id when open; a new socket becomes the only entry of its socket |
| `Dispatch.ConnectKeepsRoomsDistinct` | apps/ws-backend/src/index.ts:84-85 | connecting keeps every room list duplicate-free |
| `Dispatch.OnlyChatPersists` | apps/ws-backend/src/index.ts:107-153 | a frame other than a chat from a registered socket persists nothing and only ever sends to the requester |
| `Dispatch.OnMessageTouchesOnlyRequester` | apps/ws-backend/src/index.ts:125-150 | a frame changes at most the requester's room list: no entry is added or removed, and no socket or user id changes |
| `Dispatch.OnMessageKeepsInvariants` | apps/ws-backend/src/index.ts:125-150 | every frame keeps room lists duplicate-free and handles unique |
| `Dispatch.UnknownKindIgnored` | apps/ws-backend/src/index.ts:222-224 | an unknown frame type changes no state, persists nothing and sends nothing |
| `Dispatch.UnregisteredSocketRejected` | apps/ws-backend/src/index.ts:93-103 | a frame on a socket without an entry only draws "User lost", or "Server error" if it is not JSON |
| `Dispatch.JoinInvalidRejected` | apps/ws-backend/src/index.ts:109-123 | `join_room` with a non-numeric id or an unknown room sends only the matching error frame and changes no state |
| `Dispatch.JoinAdds` | apps/ws-backend/src/index.ts:125-130 | `join_room` for a stored room appends the id only if it is absent, leaves the room joined, and replies `joined_room` in both cases |
| `Dispatch.JoinIdempotent` | apps/ws-backend/src/index.ts:125-130 | a second identical `join_room` leaves the registry as the first left it and gives the same reply |
| `Dispatch.LeaveRemoves` | apps/ws-backend/src/index.ts:144-152 | `leave_room` removes the id from the requester's rooms, keeps the other rooms in order, changes nothing for a room never joined, touches no other entry, and replies `left_room` |
| `Dispatch.LeaveInvalidRejected` | apps/ws-backend/src/index.ts:145-149 | `leave_room` with a non-numeric id only draws "Invalid room ID for leave" |
| `Dispatch.ChatRejected` | apps/ws-backend/src/index.ts:156-184 | a chat with a missing, non-string or blank message, a non-numeric id, a room not joined or a room not stored draws the first matching error, in the code's order, and persists and broadcasts nothing |
| `Dispatch.ChatDelivered` | apps/ws-backend/src/index.ts:186-209 | a successful chat persists the trimmed, non-blank text once under the store's next id; with one entry per socket, every open member (the sender included) gets exactly one identical `chat` frame and every other socket gets none |
| `Dispatch.JoinLeaveThenChatRefused` | apps/ws-backend/src/index.ts:108-176 | after `join_room` (successful or not) then `leave_room` of a room, a non-blank chat there is refused with "Join the room first" |
| `Dispatch.UnregisteredReceivesNothing` | apps/ws-backend/src/index.ts:196-209 | a socket with no entry receives nothing from any frame sent on another socket |
| `Dispatch.ChatReachesNoOutsider` | apps/ws-backend/src/index.ts:156-209 | a chat, accepted or refused, sends nothing to a socket without an entry |
| `Dispatch.ClosedSocketUnreachable` | apps/ws-backend/src/index.ts:241-251 | after a close, no frame from another socket reaches the closed socket, and a frame on it only draws an error frame |
| `Hub.FindIndex` | apps/ws-backend/src/index.ts:96 | the scan returns the first entry of the socket, or -1 exactly when the socket has no entry |
| `Hub.FanOut` | apps/ws-backend/src/index.ts:196-209 | the broadcast loop produces, in registry order, the sends described by `Deliveries` |
| `Hub.Store.FindRoom` | apps/ws-backend/src/index.ts:118 | the room lookup succeeds exactly for stored room ids |
| `Hub.Store.CreateChat` | apps/ws-backend/src/index.ts:188-194 | one row is appended under an id no earlier row has, and the rooms are untouched |
| `Hub.Server.constructor` | apps/ws-backend/src/index.ts:34 | the registry starts empty |
| `Hub.Server.Connect` | apps/ws-backend/src/index.ts:60-85 | for a new socket, the registry and the actions after a connection are those of `Dispatch.Connect`, room lists stay duplicate-free and each socket keeps at most one entry |
| `Hub.Server.OnMessage` | apps/ws-backend/src/index.ts:89-233 | the registry, the actions and the chat table after a frame are those of `Dispatch.OnMessage`; at most one row is written, and only for a successful chat |
| `Hub.Server.OnClose` | apps/ws-backend/src/index.ts:241-251 | the registry after a close is the old one minus its first entry for the socket |

## Left out

- JWT verification (`checkUser`, `jwt.verify`, the secret check): a foreign library call, taken as the parameter `verify`.
- URL query parsing (`URLSearchParams`): a library wrapper. The request is `NoUrl` or carries the `token` parameter, with an absent parameter read as `""`.
- `JSON.parse` and `Number(...)`: library parsing. A frame arrives already classified, and a room id arrives as `Option<int>` (`None` for NaN). Non-integral and infinite numbers that pass the `isNaN` test are not represented. Neither is a `roomId` for which `Number(...)` throws, such as an object whose own `toString` and `valueOf` are not functions (`{"type":"join_room","roomId":{"toString":1,"valueOf":1}}`). The source answers such a frame with "Server error" through its outer `catch`.
- The database: `checkDbConnection`, the `catch` branches for database errors (they only relay an error string), and `Number(currentUser.userId)` in `chat.create`. The row keeps the user id string.
- The text of the "Server error" frame: it carries the exception message, which is not modelled.
- The `error` event handler, all logging, and the `timestamp` of chat frames: they do not affect state or other frames.
- Port-in-use retry and `process.exit`: process plumbing.
- Interleaving of the asynchronous handlers: each handler is one atomic step. The model therefore does not capture a close that arrives while a `join_room` or `chat` waits on the database, which in the source can update a detached entry or broadcast over a changed registry.
- `users.find` returns an entry object that the handler mutates in place. The model instead updates the registry at that entry's index; with atomic handlers the two are the same.
- Frontend drawing code, the HTTP backend and the React UI: outside the hub.
