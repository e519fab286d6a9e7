/** The hub's wire vocabulary: what a connection request carries, the inbound
    frames after `JSON.parse`, the outbound frames, and the observable actions
    a handler takes on sockets (a send, or a close with a code). */
module Protocol {

  import opened Wrappers

  /** The identity of one `WebSocket` object; the registry compares handles the
      way the server compares sockets with `===`. */
  type Handle = nat

  /** The user id string that token verification yields. */
  type UserId = string

  /** A room id after `Number(...)`; only finite integral values are represented. */
  type RoomId = int

  /** The id the chat store assigns to a persisted message. */
  type ChatId = int

  /** WebSocket close code for a policy violation, used to reject a connection. */
  const PolicyViolation: int := 1008

  /** The connection request: either it has no URL, or its URL's `token` query
      parameter, with an absent parameter read as the empty string. */
  datatype Request = NoUrl | WithUrl(token: string)

  /** One inbound frame. `NotJson`: `JSON.parse` throws. `NullPayload`: it parses to
      `null`, so reading `.type` throws. Otherwise a `Frame`: `kind` is the `type`
      field (a non-string `type` is a kind equal to none of the three known ones),
      `roomId` is `Number(roomId)` with `None` for NaN, and `message` is the
      `message` field when it is a string. */
  datatype Inbound =
    | NotJson
    | NullPayload
    | Frame(kind: string, roomId: Option<RoomId>, message: Option<string>)

  const JoinRoomKind: string := "join_room"
  const LeaveRoomKind: string := "leave_room"
  const ChatKind: string := "chat"

  /** The reason carried by an outbound `error` frame, one per message text the
      server sends. */
  datatype ErrorReason =
    | InvalidRoomId              // "Invalid room ID"
    | RoomNotFound(room: RoomId) // "Room <id> not found"
    | InvalidRoomIdForLeave      // "Invalid room ID for leave"
    | InvalidMessage             // "Invalid message"
    | JoinRoomFirst              // "Join the room first"
    | RoomDoesNotExist           // "Room does not exist"
    | UserLost                   // "Internal server error: User lost."
    | ServerError                // "Server error: <exception text>"

  /** Outbound frames (the `timestamp` of a chat frame is not modelled). */
  datatype Outbound =
    | Connected(userId: UserId)
    | JoinedRoom(roomId: RoomId)
    | LeftRoom(roomId: RoomId)
    | ChatMessage(chatId: ChatId, text: string, roomId: RoomId, sender: UserId)
    | Error(reason: ErrorReason)

  /** What a handler does to a socket. */
  datatype Action =
    | Send(to: Handle, frame: Outbound)
    | Close(to: Handle, code: int, why: string)

  /** A row written by the chat store. */
  datatype ChatRow = ChatRow(id: ChatId, roomId: RoomId, text: string, userId: UserId)

  /** A send to `h` guarded by `ws.readyState === WebSocket.OPEN`, with `open` the
      set of sockets that are open when the handler runs. */
  function Reply(h: Handle, open: set<Handle>, frame: Outbound): (r: seq<Action>)
    ensures |r| <= 1
    ensures r != [] <==> h in open
    ensures forall a :: a in r ==> a == Send(h, frame)
  {
    if h in open then [Send(h, frame)] else []
  }

  /** The number of sends addressed to `h`. */
  function SendsTo(actions: seq<Action>, h: Handle): nat
  {
    if actions == [] then 0
    else (if actions[0].Send? && actions[0].to == h then 1 else 0) + SendsTo(actions[1..], h)
  }

  lemma {:induction false} SendsToAppend(a: seq<Action>, b: seq<Action>, h: Handle)
    ensures SendsTo(a + b, h) == SendsTo(a, h) + SendsTo(b, h)
  {
    if a == [] {
      assert a + b == b;
    } else {
      assert (a + b)[1..] == a[1..] + b;
      SendsToAppend(a[1..], b, h);
    }
  }

  /** No send to `h` at all exactly when `h` is never a send's recipient. */
  lemma {:induction false} SendsToZero(a: seq<Action>, h: Handle)
    ensures SendsTo(a, h) == 0 <==> forall k :: 0 <= k < |a| && a[k].Send? ==> a[k].to != h
  {
    if a != [] {
      SendsToZero(a[1..], h);
      assert forall k :: 1 <= k < |a| ==> a[k] == a[1..][k - 1];
    }
  }
}
