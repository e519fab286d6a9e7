/** The hub's handlers as functions of the registry before the event: the
    connection handshake, the per-frame message handler and the close handler,
    each one atomic step. Each yields the new registry, the socket actions in the
    order they happen, and the chat row persisted (at most one). */
module Dispatch {

  import opened Wrappers
  import opened Text
  import opened Protocol
  import opened Registry

  datatype Outcome = Outcome(users: seq<User>, actions: seq<Action>, saved: Option<ChatRow>)

  /** The handshake decision: the user id a request is admitted with, or `None`.
      `verify` stands for `checkUser` (the JWT check, which yields `null` on any
      failure); an empty id is refused by the `!userId` test too. */
  function Admit(req: Request, verify: string -> Option<UserId>): (r: Option<UserId>)
    ensures r.Some? <==> req.WithUrl? && verify(req.token).Some? && verify(req.token).value != ""
    ensures r.Some? ==> r == verify(req.token)
  {
    match req
    case NoUrl => None
    case WithUrl(token) =>
      match verify(token)
      case None => None
      case Some(uid) => if uid == "" then None else Some(uid)
  }

  /** A new connection on socket `h`: rejected requests are closed with code 1008;
      an admitted one is appended with no rooms and is sent `connected`. */
  function Connect(users: seq<User>, h: Handle, req: Request, verify: string -> Option<UserId>, open: set<Handle>): Outcome
  {
    match Admit(req, verify)
    case None =>
      Outcome(users, [Close(h, PolicyViolation, if req.NoUrl? then "URL required" else "Invalid token")], None)
    case Some(uid) =>
      Outcome(users + [User(h, [], uid)], Reply(h, open, Connected(uid)), None)
  }

  /** An `error` frame to the requester and nothing else. */
  function Reject(users: seq<User>, h: Handle, open: set<Handle>, why: ErrorReason): Outcome
  {
    Outcome(users, Reply(h, open, Error(why)), None)
  }

  /** One inbound frame on socket `h`. `rooms` is the set of room ids the store
      holds and `nextChat` the id the store gives the next chat row. The frame is
      parsed before the sender's entry is looked up, and its `type` is read after. */
  function OnMessage(users: seq<User>, h: Handle, input: Inbound, open: set<Handle>,
                     rooms: set<RoomId>, nextChat: ChatId): Outcome
  {
    if input.NotJson? then Reject(users, h, open, ServerError)
    else
      var i := IndexOf(users, h);
      if i < 0 then Reject(users, h, open, UserLost)
      else if input.NullPayload? then Reject(users, h, open, ServerError)
      else if input.kind == JoinRoomKind then OnJoin(users, i, input.roomId, open, rooms)
      else if input.kind == LeaveRoomKind then OnLeave(users, i, input.roomId, open)
      else if input.kind == ChatKind then OnChat(users, i, input.roomId, input.message, open, rooms, nextChat)
      else Outcome(users, [], None)
  }

  /** `join_room` from entry `i`: the id must be a number, then a stored room;
      the room is appended only when not yet joined. */
  function OnJoin(users: seq<User>, i: nat, room: Option<RoomId>, open: set<Handle>, rooms: set<RoomId>): Outcome
    requires i < |users|
  {
    var me := users[i];
    if room.None? then Reject(users, me.ws, open, InvalidRoomId)
    else if room.value !in rooms then Reject(users, me.ws, open, RoomNotFound(room.value))
    else
      var joined := if room.value in me.rooms then me.rooms else me.rooms + [room.value];
      Outcome(users[i := me.(rooms := joined)], Reply(me.ws, open, JoinedRoom(room.value)), None)
  }

  /** `leave_room` from entry `i`: the id must be a number; no store check. */
  function OnLeave(users: seq<User>, i: nat, room: Option<RoomId>, open: set<Handle>): Outcome
    requires i < |users|
  {
    var me := users[i];
    if room.None? then Reject(users, me.ws, open, InvalidRoomIdForLeave)
    else Outcome(users[i := me.(rooms := Without(me.rooms, room.value))], Reply(me.ws, open, LeftRoom(room.value)), None)
  }

  /** `chat` from entry `i`, checked in the order: message, room id, membership,
      store; then the trimmed text is persisted and broadcast. */
  function OnChat(users: seq<User>, i: nat, room: Option<RoomId>, message: Option<string>, open: set<Handle>,
                  rooms: set<RoomId>, nextChat: ChatId): Outcome
    requires i < |users|
  {
    var me := users[i];
    if message.None? || Trim(message.value) == "" then Reject(users, me.ws, open, InvalidMessage)
    else if room.None? then Reject(users, me.ws, open, InvalidRoomId)
    else if room.value !in me.rooms then Reject(users, me.ws, open, JoinRoomFirst)
    else if room.value !in rooms then Reject(users, me.ws, open, RoomDoesNotExist)
    else
      var text := Trim(message.value);
      var frame := ChatMessage(nextChat, text, room.value, me.userId);
      Outcome(users, Deliveries(users, room.value, open, frame), Some(ChatRow(nextChat, room.value, text, me.userId)))
  }

  /** The socket closed. */
  function OnClose(users: seq<User>, h: Handle): Outcome
  {
    Outcome(Deregister(users, h), [], None)
  }

  // ---------------------------------------------------------------------------
  // Connection handshake

  /** A request without a URL, or whose token does not verify to a non-empty id,
      is closed with code 1008 and leaves the registry as it was. */
  lemma RejectedNeverRegistered(users: seq<User>, h: Handle, req: Request, verify: string -> Option<UserId>, open: set<Handle>)
    requires Admit(req, verify).None?
    ensures Connect(users, h, req, verify, open).users == users
    ensures Connect(users, h, req, verify, open).actions == [Close(h, PolicyViolation, if req.NoUrl? then "URL required" else "Invalid token")]
  {
  }

  /** An admitted connection is appended once, at the end, with no rooms; it is
      the only entry of its socket when the socket was new, and it is then
      sent `connected` with its user id (when the socket is open). */
  lemma AcceptedAppendedOnce(users: seq<User>, h: Handle, req: Request, verify: string -> Option<UserId>, open: set<Handle>)
    requires Admit(req, verify).Some?
    ensures var o := Connect(users, h, req, verify, open);
      o.users == users + [User(h, [], Admit(req, verify).value)]
      && o.actions == Reply(h, open, Connected(Admit(req, verify).value))
    ensures UniqueHandles(users) && !Registered(users, h) ==>
      UniqueHandles(Connect(users, h, req, verify, open).users)
      && IndexOf(Connect(users, h, req, verify, open).users, h) == |users|
  {
    var o := Connect(users, h, req, verify, open);
    if UniqueHandles(users) && !Registered(users, h) {
      assert forall j :: 0 <= j < |users| ==> o.users[j] == users[j];
      assert o.users[|users|].ws == h;
    }
  }

  /** Connecting keeps every room list duplicate-free. */
  lemma ConnectKeepsRoomsDistinct(users: seq<User>, h: Handle, req: Request, verify: string -> Option<UserId>, open: set<Handle>)
    requires RoomsDistinct(users)
    ensures RoomsDistinct(Connect(users, h, req, verify, open).users)
  {
    var o := Connect(users, h, req, verify, open);
    if Admit(req, verify).Some? {
      assert forall j :: 0 <= j < |users| ==> o.users[j] == users[j];
    }
  }

  // ---------------------------------------------------------------------------
  // Message handler: general facts

  /** Only a chat from a registered socket can persist a row; any other frame
      sends nothing except to the requester. */
  lemma OnlyChatPersists(users: seq<User>, h: Handle, input: Inbound, open: set<Handle>, rooms: set<RoomId>, nextChat: ChatId)
    requires !(input.Frame? && input.kind == ChatKind) || !Registered(users, h)
    ensures OnMessage(users, h, input, open, rooms, nextChat).saved == None
    ensures forall a :: a in OnMessage(users, h, input, open, rooms, nextChat).actions ==> a.to == h
  {
  }

  /** `after` differs from `before` at most in the room list of socket `h`'s entries. */
  predicate OnlyRoomsOf(before: seq<User>, after: seq<User>, h: Handle)
  {
    |after| == |before|
    && forall j :: 0 <= j < |before| ==>
      after[j].ws == before[j].ws && after[j].userId == before[j].userId
      && (before[j].ws != h ==> after[j] == before[j])
  }

  lemma RoomsUpdateOnlyRooms(users: seq<User>, h: Handle, rooms: seq<RoomId>)
    requires IndexOf(users, h) >= 0
    ensures var i := IndexOf(users, h); OnlyRoomsOf(users, users[i := users[i].(rooms := rooms)], h)
  {
  }

  /** A frame changes at most the requester's own room list: every other entry,
      each entry's socket and user id, and the registry's length stay as they were. */
  lemma OnMessageTouchesOnlyRequester(users: seq<User>, h: Handle, input: Inbound, open: set<Handle>, rooms: set<RoomId>, nextChat: ChatId)
    ensures OnlyRoomsOf(users, OnMessage(users, h, input, open, rooms, nextChat).users, h)
  {
    var o := OnMessage(users, h, input, open, rooms, nextChat);
    var i := IndexOf(users, h);
    if input.Frame? && i >= 0 && input.roomId.Some? {
      var me := users[i];
      var room := input.roomId.value;
      if input.kind == JoinRoomKind && room in rooms {
        RoomsUpdateOnlyRooms(users, h, if room in me.rooms then me.rooms else me.rooms + [room]);
      } else if input.kind == LeaveRoomKind {
        RoomsUpdateOnlyRooms(users, h, Without(me.rooms, room));
      }
    }
  }

  /** Every frame keeps both registry invariants. */
  lemma OnMessageKeepsInvariants(users: seq<User>, h: Handle, input: Inbound, open: set<Handle>, rooms: set<RoomId>, nextChat: ChatId)
    requires RoomsDistinct(users)
    ensures RoomsDistinct(OnMessage(users, h, input, open, rooms, nextChat).users)
    ensures UniqueHandles(users) ==> UniqueHandles(OnMessage(users, h, input, open, rooms, nextChat).users)
  {
    var o := OnMessage(users, h, input, open, rooms, nextChat);
    var i := IndexOf(users, h);
    if input.Frame? && i >= 0 && input.roomId.Some? {
      var me := users[i];
      var room := input.roomId.value;
      if input.kind == JoinRoomKind && room in rooms && room !in me.rooms {
        var joined := me.rooms + [room];
        assert Distinct(joined) by {
          assert forall k :: 0 <= k < |me.rooms| ==> joined[k] == me.rooms[k];
        }
        assert forall j :: 0 <= j < |o.users| ==> o.users[j].rooms == (if j == i then joined else users[j].rooms);
      } else if input.kind == LeaveRoomKind {
        WithoutDistinct(me.rooms, room);
        assert forall j :: 0 <= j < |o.users| ==> o.users[j].rooms == (if j == i then Without(me.rooms, room) else users[j].rooms);
      }
    }
  }

  /** An unknown frame type changes nothing and sends nothing. */
  lemma UnknownKindIgnored(users: seq<User>, h: Handle, input: Inbound, open: set<Handle>, rooms: set<RoomId>, nextChat: ChatId)
    requires input.Frame? && Registered(users, h)
    requires input.kind != JoinRoomKind && input.kind != LeaveRoomKind && input.kind != ChatKind
    ensures OnMessage(users, h, input, open, rooms, nextChat) == Outcome(users, [], None)
  {
  }

  /** A frame from a socket with no entry only draws an error frame. */
  lemma UnregisteredSocketRejected(users: seq<User>, h: Handle, input: Inbound, open: set<Handle>, rooms: set<RoomId>, nextChat: ChatId)
    requires !Registered(users, h)
    ensures OnMessage(users, h, input, open, rooms, nextChat)
      == Reject(users, h, open, if input.NotJson? then ServerError else UserLost)
  {
  }

  // ---------------------------------------------------------------------------
  // join_room

  /** `join_room` with a room id that is not a number, or names no stored room,
      sends one error frame to the requester and changes no room list. */
  lemma JoinInvalidRejected(users: seq<User>, h: Handle, room: Option<RoomId>, msg: Option<string>, open: set<Handle>, rooms: set<RoomId>, nextChat: ChatId)
    requires Registered(users, h)
    requires room.None? || room.value !in rooms
    ensures OnMessage(users, h, Frame(JoinRoomKind, room, msg), open, rooms, nextChat)
      == Reject(users, h, open, if room.None? then InvalidRoomId else RoomNotFound(room.value))
  {
  }

  /** `join_room` for a stored room makes the room a member of the requester's
      list exactly once (appended if new), and answers `joined_room` in both cases. */
  lemma JoinAdds(users: seq<User>, h: Handle, room: RoomId, msg: Option<string>, open: set<Handle>, rooms: set<RoomId>, nextChat: ChatId)
    requires Registered(users, h) && room in rooms
    ensures var i := IndexOf(users, h);
      var o := OnMessage(users, h, Frame(JoinRoomKind, Some(room), msg), open, rooms, nextChat);
      o.users == users[i := users[i].(rooms := if room in users[i].rooms then users[i].rooms else users[i].rooms + [room])]
      && room in o.users[i].rooms
      && o.actions == Reply(h, open, JoinedRoom(room)) && o.saved == None
  {
  }

  /** Joining a room twice leaves the registry as joining it once, and replies the same. */
  lemma JoinIdempotent(users: seq<User>, h: Handle, room: RoomId, msg: Option<string>, open: set<Handle>, rooms: set<RoomId>, c1: ChatId, c2: ChatId)
    requires Registered(users, h)
    ensures var once := OnMessage(users, h, Frame(JoinRoomKind, Some(room), msg), open, rooms, c1);
      var twice := OnMessage(once.users, h, Frame(JoinRoomKind, Some(room), msg), open, rooms, c2);
      twice.users == once.users && twice.actions == once.actions
  {
    var once := OnMessage(users, h, Frame(JoinRoomKind, Some(room), msg), open, rooms, c1);
    OnMessageTouchesOnlyRequester(users, h, Frame(JoinRoomKind, Some(room), msg), open, rooms, c1);
    assert IndexOf(once.users, h) == IndexOf(users, h) by {
      IndexOfSameHandles(users, once.users, h);
    }
  }

  /** Two registries with the same sockets in the same positions agree on every lookup. */
  lemma {:induction false} IndexOfSameHandles(a: seq<User>, b: seq<User>, h: Handle)
    requires |a| == |b| && forall j :: 0 <= j < |a| ==> a[j].ws == b[j].ws
    ensures IndexOf(a, h) == IndexOf(b, h)
  {
    if a != [] {
      IndexOfSameHandles(a[1..], b[1..], h);
    }
  }

  // ---------------------------------------------------------------------------
  // leave_room

  /** `leave_room` with a numeric id drops the id from the requester's rooms (the
      other rooms keep their order, and a room never joined changes nothing),
      touches no one else, and replies `left_room` either way. */
  lemma LeaveRemoves(users: seq<User>, h: Handle, room: RoomId, msg: Option<string>, open: set<Handle>, rooms: set<RoomId>, nextChat: ChatId)
    requires RoomsDistinct(users) && Registered(users, h)
    ensures var i := IndexOf(users, h);
      var o := OnMessage(users, h, Frame(LeaveRoomKind, Some(room), msg), open, rooms, nextChat);
      o.actions == Reply(h, open, LeftRoom(room)) && o.saved == None
      && |o.users| == |users|
      && (forall j :: 0 <= j < |users| && j != i ==> o.users[j] == users[j])
      && o.users[i].ws == h && o.users[i].userId == users[i].userId
      && room !in o.users[i].rooms
      && (forall x :: x in o.users[i].rooms <==> x in users[i].rooms && x != room)
      && (room !in users[i].rooms ==> o.users == users)
      && (forall k :: 0 <= k < |users[i].rooms| && users[i].rooms[k] == room ==>
            o.users[i].rooms == users[i].rooms[..k] + users[i].rooms[k + 1..])
  {
    var i := IndexOf(users, h);
    var before := users[i].rooms;
    if room !in before {
      WithoutAbsent(before, room);
      assert users[i := users[i].(rooms := before)] == users;
    }
    forall k | 0 <= k < |before| && before[k] == room
      ensures Without(before, room) == before[..k] + before[k + 1..]
    {
      WithoutAt(before, k);
    }
  }

  /** `leave_room` with an id that is not a number only draws an error frame. */
  lemma LeaveInvalidRejected(users: seq<User>, h: Handle, msg: Option<string>, open: set<Handle>, rooms: set<RoomId>, nextChat: ChatId)
    requires Registered(users, h)
    ensures OnMessage(users, h, Frame(LeaveRoomKind, None, msg), open, rooms, nextChat)
      == Reject(users, h, open, InvalidRoomIdForLeave)
  {
  }

  // ---------------------------------------------------------------------------
  // chat

  /** A chat with a missing, non-string or blank message, a room id that is not a
      number, or a room the sender has not joined, or that the store lacks, draws
      one error frame to the sender, in that order of checks, and persists and
      broadcasts nothing. */
  lemma ChatRejected(users: seq<User>, h: Handle, room: Option<RoomId>, msg: Option<string>, open: set<Handle>, rooms: set<RoomId>, nextChat: ChatId)
    requires Registered(users, h)
    requires var me := users[IndexOf(users, h)];
      msg.None? || AllTrimmable(msg.value) || room.None? || room.value !in me.rooms || room.value !in rooms
    ensures var me := users[IndexOf(users, h)];
      OnMessage(users, h, Frame(ChatKind, room, msg), open, rooms, nextChat)
      == Reject(users, h, open,
           if msg.None? || AllTrimmable(msg.value) then InvalidMessage
           else if room.None? then InvalidRoomId
           else if room.value !in me.rooms then JoinRoomFirst
           else RoomDoesNotExist)
  {
    if msg.Some? {
      TrimEmptyIff(msg.value);
    }
  }

  /** A successful chat persists the trimmed message once, under the store's next
      id, changes no room list, and sends every open socket that joined the room
      (the sender included) exactly one identical `chat` frame, and no other
      socket anything. */
  lemma ChatDelivered(users: seq<User>, h: Handle, room: RoomId, msg: string, open: set<Handle>, rooms: set<RoomId>, nextChat: ChatId)
    requires UniqueHandles(users) && Registered(users, h)
    requires !AllTrimmable(msg) && room in users[IndexOf(users, h)].rooms && room in rooms
    ensures var me := users[IndexOf(users, h)];
      var o := OnMessage(users, h, Frame(ChatKind, Some(room), Some(msg)), open, rooms, nextChat);
      var text := Trim(msg);
      o.users == users
      && o.saved == Some(ChatRow(nextChat, room, text, me.userId))
      && text != "" && !IsTrimmable(text[0]) && !IsTrimmable(text[|text| - 1])
      && SendsFrameToMembers(o.actions, users, room, open, ChatMessage(nextChat, text, room, me.userId))
      && (forall g :: SendsTo(o.actions, g) == if Subscribed(users, room, open, g) then 1 else 0)
      && (h in open ==> SendsTo(o.actions, h) == 1)
  {
    TrimEmptyIff(msg);
    TrimEnds(msg);
    var i := IndexOf(users, h);
    var me := users[i];
    var text := Trim(msg);
    var frame := ChatMessage(nextChat, text, room, me.userId);
    var sends := Deliveries(users, room, open, frame);
    assert OnChat(users, i, Some(room), Some(msg), open, rooms, nextChat)
      == Outcome(users, sends, Some(ChatRow(nextChat, room, text, me.userId)));
    DeliveriesRecipients(users, room, open, frame);
    forall g ensures SendsTo(sends, g) == if Subscribed(users, room, open, g) then 1 else 0 {
      DeliveriesExactlyOnce(users, room, open, frame, g);
    }
  }

  // ---------------------------------------------------------------------------
  // Sequences of events

  /** Joining a room (whether or not the join succeeds) and then leaving it means
      a following chat in that room with a non-blank message is refused with
      "Join the room first". */
  lemma JoinLeaveThenChatRefused(users: seq<User>, h: Handle, room: RoomId, msg: string, open: set<Handle>, rooms: set<RoomId>, c: ChatId)
    requires Registered(users, h) && !AllTrimmable(msg)
    ensures var j := OnMessage(users, h, Frame(JoinRoomKind, Some(room), None), open, rooms, c);
      var l := OnMessage(j.users, h, Frame(LeaveRoomKind, Some(room), None), open, rooms, c);
      var ch := OnMessage(l.users, h, Frame(ChatKind, Some(room), Some(msg)), open, rooms, c);
      ch == Reject(l.users, h, open, JoinRoomFirst)
  {
    var join := Frame(JoinRoomKind, Some(room), None);
    var leave := Frame(LeaveRoomKind, Some(room), None);
    var j := OnMessage(users, h, join, open, rooms, c);
    OnMessageTouchesOnlyRequester(users, h, join, open, rooms, c);
    IndexOfSameHandles(users, j.users, h);
    var l := OnMessage(j.users, h, leave, open, rooms, c);
    OnMessageTouchesOnlyRequester(j.users, h, leave, open, rooms, c);
    IndexOfSameHandles(j.users, l.users, h);
    TrimEmptyIff(msg);
  }

  /** A socket with no entry receives nothing from a frame on another socket. */
  lemma UnregisteredReceivesNothing(users: seq<User>, h: Handle, g: Handle, input: Inbound, open: set<Handle>, rooms: set<RoomId>, nextChat: ChatId)
    requires !Registered(users, h) && g != h
    ensures SendsTo(OnMessage(users, g, input, open, rooms, nextChat).actions, h) == 0
  {
    var o := OnMessage(users, g, input, open, rooms, nextChat);
    var i := IndexOf(users, g);
    if input.Frame? && i >= 0 && input.kind == ChatKind {
      assert o == OnChat(users, i, input.roomId, input.message, open, rooms, nextChat);
      ChatReachesNoOutsider(users, i, input.roomId, input.message, open, rooms, nextChat, h);
    } else {
      OnlyChatPersists(users, g, input, open, rooms, nextChat);
      SendsToZero(o.actions, h);
    }
  }

  /** A chat sends nothing to a socket that has no entry and is not the sender. */
  lemma ChatReachesNoOutsider(users: seq<User>, i: nat, room: Option<RoomId>, message: Option<string>, open: set<Handle>,
                              rooms: set<RoomId>, nextChat: ChatId, h: Handle)
    requires i < |users| && !Registered(users, h)
    ensures SendsTo(OnChat(users, i, room, message, open, rooms, nextChat).actions, h) == 0
  {
    var c := OnChat(users, i, room, message, open, rooms, nextChat);
    if c.saved.Some? {
      var frame := ChatMessage(nextChat, Trim(message.value), room.value, users[i].userId);
      DeliveriesUnregistered(users, room.value, open, frame, h);
    } else {
      assert users[i].ws != h;
      SendsToZero(c.actions, h);
    }
  }

  /** After a socket closes (one entry per socket), no later frame from another
      socket, a chat broadcast in any room included, sends it anything, and a
      frame arriving on it only draws an error frame. */
  lemma ClosedSocketUnreachable(users: seq<User>, h: Handle, g: Handle, input: Inbound, open: set<Handle>, rooms: set<RoomId>, nextChat: ChatId)
    requires UniqueHandles(users)
    ensures var after := OnClose(users, h).users;
      var o := OnMessage(after, g, input, open, rooms, nextChat);
      (g != h ==> SendsTo(o.actions, h) == 0)
      && (g == h ==> o == Reject(after, h, open, if input.NotJson? then ServerError else UserLost))
  {
    var after := OnClose(users, h).users;
    DeregisterInvariants(users, h);
    if g != h {
      UnregisteredReceivesNothing(after, h, g, input, open, rooms, nextChat);
    } else {
      UnregisteredSocketRejected(after, h, input, open, rooms, nextChat);
    }
  }
}
