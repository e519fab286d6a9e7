/** The connection registry: the process-wide list of users, the linear lookup
    of a user by socket, the room-list filter used by `leave_room`, the removal
    done on close, and the set of sends a chat broadcast produces. */
module Registry {

  import opened Protocol

  /** One registry entry: the socket, the rooms it has joined (in joining order)
      and the verified user id. */
  datatype User = User(ws: Handle, rooms: seq<RoomId>, userId: UserId)

  predicate Distinct(s: seq<RoomId>)
  {
    forall i, j :: 0 <= i < j < |s| ==> s[i] != s[j]
  }

  /** Every user's room list is free of duplicates. */
  predicate RoomsDistinct(users: seq<User>)
  {
    forall i :: 0 <= i < |users| ==> Distinct(users[i].rooms)
  }

  /** No socket has two entries. */
  predicate UniqueHandles(users: seq<User>)
  {
    forall i, j :: 0 <= i < j < |users| ==> users[i].ws != users[j].ws
  }

  /** Some entry belongs to socket `h`. */
  predicate Registered(users: seq<User>, h: Handle)
  {
    exists i :: 0 <= i < |users| && users[i].ws == h
  }

  /** `users.findIndex(x => x.ws === h)`: the first entry of socket `h`, or -1. */
  function IndexOf(users: seq<User>, h: Handle): (i: int)
    ensures -1 <= i < |users|
    ensures i >= 0 ==> users[i].ws == h
    ensures forall j :: 0 <= j < |users| && (i < 0 || j < i) ==> users[j].ws != h
  {
    if users == [] then -1
    else if users[0].ws == h then 0
    else
      var k := IndexOf(users[1..], h);
      if k < 0 then -1 else k + 1
  }

  /** `rooms.filter(x => x !== id)`. */
  function Without(rooms: seq<RoomId>, id: RoomId): (r: seq<RoomId>)
    ensures |r| <= |rooms|
    ensures forall x :: x in r <==> x in rooms && x != id
  {
    if rooms == [] then []
    else (if rooms[0] == id then [] else [rooms[0]]) + Without(rooms[1..], id)
  }

  /** Filtering a room list that lacks `id` gives it back unchanged. */
  lemma {:induction false} WithoutAbsent(rooms: seq<RoomId>, id: RoomId)
    requires id !in rooms
    ensures Without(rooms, id) == rooms
  {
    if rooms != [] {
      WithoutAbsent(rooms[1..], id);
      assert [rooms[0]] + rooms[1..] == rooms;
    }
  }

  /** On a duplicate-free list, the filter cuts out exactly the one position that
      holds `id` and keeps every other room in its order. */
  lemma {:induction false} WithoutAt(rooms: seq<RoomId>, k: nat)
    requires Distinct(rooms) && k < |rooms|
    ensures Without(rooms, rooms[k]) == rooms[..k] + rooms[k + 1..]
  {
    var id := rooms[k];
    if k == 0 {
      assert id !in rooms[1..];
      WithoutAbsent(rooms[1..], id);
    } else {
      assert Distinct(rooms[1..]);
      assert rooms[1..][k - 1] == id;
      WithoutAt(rooms[1..], k - 1);
      assert rooms[1..][..k - 1] + rooms[1..][k..] == rooms[1..k] + rooms[k + 1..];
      assert [rooms[0]] + rooms[1..k] == rooms[..k];
    }
  }

  /** The filter keeps a room list duplicate-free. */
  lemma {:induction false} WithoutDistinct(rooms: seq<RoomId>, id: RoomId)
    requires Distinct(rooms)
    ensures Distinct(Without(rooms, id))
  {
    if rooms != [] {
      assert Distinct(rooms[1..]);
      WithoutDistinct(rooms[1..], id);
      var tail := Without(rooms[1..], id);
      assert rooms[0] !in rooms[1..];
      assert rooms[0] !in tail;
      var r := (if rooms[0] == id then [] else [rooms[0]]) + tail;
      forall i, j | 0 <= i < j < |r| ensures r[i] != r[j] {
        if rooms[0] != id && i == 0 {
          assert r[j] == tail[j - 1];
        }
      }
    }
  }

  /** `users.splice(index, 1)` after the lookup done on close: removes the first
      entry of socket `h`; no entry, no change. */
  function Deregister(users: seq<User>, h: Handle): seq<User>
  {
    var i := IndexOf(users, h);
    if i < 0 then users else users[..i] + users[i + 1..]
  }

  /** The registry without any entry of socket `h`, kept in order: an independent
      reference for what deregistration should leave behind. */
  function Others(users: seq<User>, h: Handle): seq<User>
  {
    if users == [] then []
    else (if users[0].ws == h then [] else [users[0]]) + Others(users[1..], h)
  }

  lemma {:induction false} OthersAbsent(users: seq<User>, h: Handle)
    requires !Registered(users, h)
    ensures Others(users, h) == users
  {
    if users != [] {
      assert users[0].ws != h;
      assert !Registered(users[1..], h) by {
        forall i | 0 <= i < |users| - 1 ensures users[1..][i].ws != h {
          assert users[1..][i] == users[i + 1];
        }
      }
      OthersAbsent(users[1..], h);
      assert [users[0]] + users[1..] == users;
    }
  }

  /** Closing a socket that has no entry leaves the registry as it was. */
  lemma DeregisterAbsent(users: seq<User>, h: Handle)
    requires !Registered(users, h)
    ensures Deregister(users, h) == users
  {
  }

  /** When sockets have one entry each, deregistering `h` leaves exactly the other
      entries, in their original order. */
  lemma {:induction false} DeregisterKeepsOthers(users: seq<User>, h: Handle)
    requires UniqueHandles(users)
    ensures Deregister(users, h) == Others(users, h)
  {
    if users == [] {
    } else if users[0].ws == h {
      assert !Registered(users[1..], h) by {
        forall i | 0 <= i < |users| - 1 ensures users[1..][i].ws != h {
          assert users[1..][i] == users[i + 1];
        }
      }
      OthersAbsent(users[1..], h);
    } else {
      var tail := users[1..];
      assert UniqueHandles(tail);
      DeregisterKeepsOthers(tail, h);
      var k := IndexOf(tail, h);
      if k >= 0 {
        assert IndexOf(users, h) == k + 1;
        assert users[..k + 1] == [users[0]] + tail[..k];
        assert users[k + 2..] == tail[k + 1..];
      } else {
        assert [users[0]] + tail == users;
      }
    }
  }

  /** Deregistration removes at most one entry and keeps room lists
      duplicate-free; under unique handles it keeps them unique and leaves no
      entry of `h`. */
  lemma DeregisterInvariants(users: seq<User>, h: Handle)
    ensures RoomsDistinct(users) ==> RoomsDistinct(Deregister(users, h))
    ensures |Deregister(users, h)| == |users| - (if Registered(users, h) then 1 else 0)
    ensures UniqueHandles(users) ==> UniqueHandles(Deregister(users, h)) && !Registered(Deregister(users, h), h)
  {
    var i := IndexOf(users, h);
    var r := Deregister(users, h);
    if i >= 0 {
      assert forall j :: 0 <= j < |r| ==> r[j] == (if j < i then users[j] else users[j + 1]);
    }
  }

  /** Closing the same socket twice is the same as closing it once. */
  lemma DeregisterIdempotent(users: seq<User>, h: Handle)
    requires UniqueHandles(users)
    ensures Deregister(Deregister(users, h), h) == Deregister(users, h)
  {
    DeregisterInvariants(users, h);
    DeregisterAbsent(Deregister(users, h), h);
  }

  /** The sends of one chat broadcast: walking the registry in order, one send of
      `frame` to each user whose rooms contain `room` and whose socket is open. */
  function Deliveries(users: seq<User>, room: RoomId, open: set<Handle>, frame: Outbound): (r: seq<Action>)
    ensures |r| <= |users|
  {
    if users == [] then []
    else
      var u := users[0];
      (if room in u.rooms && u.ws in open then [Send(u.ws, frame)] else []) + Deliveries(users[1..], room, open, frame)
  }

  /** Every action of `r` sends `frame`, to an open socket whose entry has joined `room`. */
  predicate SendsFrameToMembers(r: seq<Action>, users: seq<User>, room: RoomId, open: set<Handle>, frame: Outbound)
  {
    forall k :: 0 <= k < |r| ==>
      r[k].Send? && r[k].frame == frame && r[k].to in open
      && exists j :: 0 <= j < |users| && users[j].ws == r[k].to && room in users[j].rooms
  }

  /** A broadcast sends only `frame`, and only to open sockets that joined `room`. */
  lemma {:induction false} DeliveriesRecipients(users: seq<User>, room: RoomId, open: set<Handle>, frame: Outbound)
    ensures SendsFrameToMembers(Deliveries(users, room, open, frame), users, room, open, frame)
  {
    if users != [] {
      var rest := Deliveries(users[1..], room, open, frame);
      DeliveriesRecipients(users[1..], room, open, frame);
      var u := users[0];
      var head := if room in u.rooms && u.ws in open then [Send(u.ws, frame)] else [];
      var r := head + rest;
      assert r == Deliveries(users, room, open, frame);
      forall k | 0 <= k < |r|
        ensures r[k].Send? && r[k].frame == frame && r[k].to in open
        ensures exists j :: 0 <= j < |users| && users[j].ws == r[k].to && room in users[j].rooms
      {
        if k < |head| {
          assert users[0].ws == r[k].to;
        } else {
          assert r[k] == rest[k - |head|];
          var j :| 0 <= j < |users[1..]| && users[1..][j].ws == rest[k - |head|].to && room in users[1..][j].rooms;
          assert users[j + 1] == users[1..][j];
        }
      }
    }
  }

  /** Socket `h` is registered, has joined `room` and is open. */
  predicate Subscribed(users: seq<User>, room: RoomId, open: set<Handle>, h: Handle)
  {
    var i := IndexOf(users, h);
    i >= 0 && room in users[i].rooms && h in open
  }

  lemma {:induction false} DeliveriesUnregistered(users: seq<User>, room: RoomId, open: set<Handle>, frame: Outbound, h: Handle)
    requires !Registered(users, h)
    ensures SendsTo(Deliveries(users, room, open, frame), h) == 0
  {
    if users != [] {
      assert !Registered(users[1..], h) by {
        forall i | 0 <= i < |users| - 1 ensures users[1..][i].ws != h {
          assert users[1..][i] == users[i + 1];
        }
      }
      DeliveriesUnregistered(users[1..], room, open, frame, h);
      var u := users[0];
      SendsToAppend(if room in u.rooms && u.ws in open then [Send(u.ws, frame)] else [],
                    Deliveries(users[1..], room, open, frame), h);
    }
  }

  /** With one entry per socket, a broadcast sends exactly one frame to every open
      socket that has joined the room and none to any other socket. */
  lemma {:induction false} DeliveriesExactlyOnce(users: seq<User>, room: RoomId, open: set<Handle>, frame: Outbound, h: Handle)
    requires UniqueHandles(users)
    ensures SendsTo(Deliveries(users, room, open, frame), h) == if Subscribed(users, room, open, h) then 1 else 0
  {
    if users != [] {
      var u := users[0];
      var tail := users[1..];
      var head := if room in u.rooms && u.ws in open then [Send(u.ws, frame)] else [];
      SendsToAppend(head, Deliveries(tail, room, open, frame), h);
      if u.ws == h {
        assert !Registered(tail, h) by {
          forall i | 0 <= i < |tail| ensures tail[i].ws != h {
            assert tail[i] == users[i + 1];
          }
        }
        DeliveriesUnregistered(tail, room, open, frame, h);
      } else {
        assert UniqueHandles(tail);
        DeliveriesExactlyOnce(tail, room, open, frame, h);
        var k := IndexOf(tail, h);
        assert IndexOf(users, h) == (if k < 0 then -1 else k + 1);
        if k >= 0 {
          assert users[k + 1] == tail[k];
        }
      }
    }
  }
}
