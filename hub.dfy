/** The running server: the chat store it talks to and the hub object holding
    the process-wide `users` list, with one method per socket event. Each method
    is one atomic step and is proved to do what the matching function of
    `Dispatch` says. */
module Hub {

  import opened Wrappers
  import opened Text
  import opened Protocol
  import opened Registry
  import Dispatch

  /** The linear scan `users.find(x => x.ws === ws)` / `users.findIndex(...)`:
      the index of the first entry of socket `h`, or -1. */
  method FindIndex(users: seq<User>, h: Handle) returns (i: int)
    ensures i == IndexOf(users, h)
    ensures i >= 0 <==> Registered(users, h)
  {
    i := 0;
    while i < |users|
      invariant 0 <= i <= |users|
      invariant forall j :: 0 <= j < i ==> users[j].ws != h
    {
      if users[i].ws == h {
        return;
      }
      i := i + 1;
    }
    i := -1;
  }

  /** The broadcast loop `users.forEach(...)`: in registry order, one send of
      `frame` to each entry that has joined `room` and whose socket is open. */
  method FanOut(users: seq<User>, room: RoomId, open: set<Handle>, frame: Outbound) returns (sends: seq<Action>)
    ensures sends == Deliveries(users, room, open, frame)
  {
    sends := [];
    var k := 0;
    while k < |users|
      invariant 0 <= k <= |users|
      invariant sends + Deliveries(users[k..], room, open, frame) == Deliveries(users, room, open, frame)
    {
      var u := users[k];
      assert users[k..][1..] == users[k + 1..];
      if room in u.rooms && u.ws in open {
        sends := sends + [Send(u.ws, frame)];
      }
      k := k + 1;
    }
    assert users[k..] == [];
  }

  /** The external store of record, reduced to what the hub uses: the set of room
      ids (`room.findUnique`) and the chat table with its id counter (`chat.create`). */
  class Store {
    var roomIds: set<RoomId>
    var chats: seq<ChatRow>
    var nextId: ChatId

    /** The next id is above every id handed out so far. */
    ghost predicate Valid()
      reads this
    {
      forall k :: 0 <= k < |chats| ==> chats[k].id < nextId
    }

    constructor (roomIds: set<RoomId>)
      ensures Valid()
      ensures this.roomIds == roomIds && chats == []
    {
      this.roomIds := roomIds;
      chats := [];
      nextId := 1;
    }

    /** `room.findUnique({ where: { id } })` returning a row or null. */
    method FindRoom(id: RoomId) returns (found: bool)
      ensures found <==> id in roomIds
    {
      found := id in roomIds;
    }

    /** `chat.create(...)`: appends one row under a fresh id. */
    method CreateChat(roomId: RoomId, text: string, userId: UserId) returns (row: ChatRow)
      requires Valid()
      modifies this
      ensures Valid()
      ensures row == ChatRow(old(nextId), roomId, text, userId)
      ensures forall k :: 0 <= k < |old(chats)| ==> old(chats)[k].id != row.id
      ensures chats == old(chats) + [row] && roomIds == old(roomIds)
    {
      row := ChatRow(nextId, roomId, text, userId);
      chats := chats + [row];
      nextId := nextId + 1;
    }
  }

  /** The WebSocket server's state: the `users` registry. */
  class Server {
    var users: seq<User>

    /** Room lists are duplicate-free and each socket has at most one entry. */
    ghost predicate Valid()
      reads this
    {
      RoomsDistinct(users) && UniqueHandles(users)
    }

    /** `const users: User[] = []`. */
    constructor ()
      ensures Valid() && users == []
    {
      users := [];
    }

    /** The `connection` event on socket `h`; every such event brings a new socket. */
    method Connect(h: Handle, req: Request, verify: string -> Option<UserId>, open: set<Handle>) returns (actions: seq<Action>)
      requires Valid() && !Registered(users, h)
      modifies this
      ensures Valid()
      ensures var o := Dispatch.Connect(old(users), h, req, verify, open);
        users == o.users && actions == o.actions
    {
      Dispatch.ConnectKeepsRoomsDistinct(users, h, req, verify, open);
      if Dispatch.Admit(req, verify).Some? {
        Dispatch.AcceptedAppendedOnce(users, h, req, verify, open);
      }
      if req.NoUrl? {
        actions := [Close(h, PolicyViolation, "URL required")];
        return;
      }
      var userId := verify(req.token);
      if userId.None? || userId.value == "" {
        actions := [Close(h, PolicyViolation, "Invalid token")];
        return;
      }
      users := users + [User(h, [], userId.value)];
      actions := Reply(h, open, Connected(userId.value));
    }

    /** The `message` event on socket `h`, with the store consulted and written
        as the handler does. */
    method OnMessage(h: Handle, input: Inbound, open: set<Handle>, store: Store) returns (actions: seq<Action>)
      requires Valid() && store.Valid()
      modifies this, store
      ensures Valid() && store.Valid()
      ensures var o := Dispatch.OnMessage(old(users), h, input, open, old(store.roomIds), old(store.nextId));
        users == o.users && actions == o.actions
        && store.roomIds == old(store.roomIds)
        && store.chats == old(store.chats) + (if o.saved.Some? then [o.saved.value] else [])
        && (o.saved.None? ==> store.nextId == old(store.nextId))
    {
      Dispatch.OnMessageKeepsInvariants(users, h, input, open, store.roomIds, store.nextId);
      if input.NotJson? {
        actions := Reply(h, open, Error(ServerError));
        return;
      }
      var i := FindIndex(users, h);
      if i < 0 {
        actions := Reply(h, open, Error(UserLost));
        return;
      }
      if input.NullPayload? {
        actions := Reply(h, open, Error(ServerError));
        return;
      }
      var me := users[i];
      if input.kind == JoinRoomKind {
        if input.roomId.None? {
          actions := Reply(h, open, Error(InvalidRoomId));
          return;
        }
        var room := input.roomId.value;
        var found := store.FindRoom(room);
        if !found {
          actions := Reply(h, open, Error(RoomNotFound(room)));
          return;
        }
        if room !in me.rooms {
          users := users[i := me.(rooms := me.rooms + [room])];
        }
        actions := Reply(h, open, JoinedRoom(room));
      } else if input.kind == LeaveRoomKind {
        if input.roomId.None? {
          actions := Reply(h, open, Error(InvalidRoomIdForLeave));
          return;
        }
        var room := input.roomId.value;
        users := users[i := me.(rooms := Without(me.rooms, room))];
        actions := Reply(h, open, LeftRoom(room));
      } else if input.kind == ChatKind {
        var message := input.message;
        if message.None? || Trim(message.value) == "" {
          actions := Reply(h, open, Error(InvalidMessage));
          return;
        }
        if input.roomId.None? {
          actions := Reply(h, open, Error(InvalidRoomId));
          return;
        }
        var room := input.roomId.value;
        if room !in me.rooms {
          actions := Reply(h, open, Error(JoinRoomFirst));
          return;
        }
        var found := store.FindRoom(room);
        if !found {
          actions := Reply(h, open, Error(RoomDoesNotExist));
          return;
        }
        var text := Trim(message.value);
        var row := store.CreateChat(room, text, me.userId);
        actions := FanOut(users, room, open, ChatMessage(row.id, text, room, me.userId));
      } else {
        actions := [];
      }
    }

    /** The `close` event on socket `h`. */
    method OnClose(h: Handle)
      requires Valid()
      modifies this
      ensures Valid()
      ensures users == Dispatch.OnClose(old(users), h).users
    {
      DeregisterInvariants(users, h);
      var i := FindIndex(users, h);
      if i != -1 {
        users := users[..i] + users[i + 1..];
      }
    }
  }
}
