/**
 * The in-memory room registry of backend/server.js (lines 49-50): `rooms` maps a
 * room id to the set of socket ids in it, `users` maps a socket id to the user id
 * and room it joined. This module holds the two maps as values, the invariant that
 * ties them together, and the updates the join and disconnect handlers make.
 */
module Registry {

  type SocketId = string
  type RoomId = string

  /** The record `users` keeps per socket. */
  datatype User = User(userId: string, roomId: RoomId)

  type Rooms = map<RoomId, set<SocketId>>
  type Users = map<SocketId, User>

  // ------------------------------------------------------------------
  // The invariant

  /** `rooms` lists a socket under room r exactly when `users` records r for it, and has no empty set. */
  ghost predicate IndexMatches(rooms: Rooms, users: Users) {
    && (forall r | r in rooms :: rooms[r] != {})
    && (forall r, s | r in rooms && s in rooms[r] :: s in users && users[s].roomId == r)
    && (forall s | s in users :: users[s].roomId in rooms && s in rooms[users[s].roomId])
  }

  /** The registry invariant: the index matches and every recorded room id is non-empty (join refuses `!roomId`). */
  ghost predicate Consistent(rooms: Rooms, users: Users) {
    IndexMatches(rooms, users) && forall s | s in users :: users[s].roomId != ""
  }

  /** The sockets `users` places in room r. */
  function MembersOf(users: Users, r: RoomId): set<SocketId> {
    set s | s in users && users[s].roomId == r
  }

  /** The membership index computed from `users` alone. */
  function MembershipIndex(users: Users): Rooms {
    map r | r in (set s | s in users :: users[s].roomId) :: MembersOf(users, r)
  }

  /** The index the handlers maintain is exactly the one derived from `users`. */
  lemma IndexMatchesIffDerived(rooms: Rooms, users: Users)
    ensures IndexMatches(rooms, users) <==> rooms == MembershipIndex(users)
  {
    var idx := MembershipIndex(users);
    if IndexMatches(rooms, users) {
      forall r | r in rooms ensures r in idx && rooms[r] == idx[r] {
        var s :| s in rooms[r];
        assert users[s].roomId == r;
      }
      forall r | r in idx ensures r in rooms {
        var s :| s in users && users[s].roomId == r;
      }
      assert rooms.Keys == idx.Keys;
    }
    if rooms == idx {
      forall r | r in rooms ensures rooms[r] != {} {
        var s :| s in users && users[s].roomId == r;
        assert s in MembersOf(users, r);
      }
    }
  }

  /** Under the invariant the sockets in room r are exactly those `users` places there. */
  lemma MembersMatch(rooms: Rooms, users: Users, r: RoomId)
    requires Consistent(rooms, users)
    ensures (if r in rooms then rooms[r] else {}) == MembersOf(users, r)
  {
  }

  // ------------------------------------------------------------------
  // Updates

  /** Remove s from room r's set and drop r once its set is empty; a missing r is left alone. */
  function Leave(rooms: Rooms, r: RoomId, s: SocketId): Rooms {
    if r !in rooms then rooms
    else if rooms[r] - {s} == {} then rooms - {r}
    else rooms[r := rooms[r] - {s}]
  }

  /** Add s to room r's set, creating the set first when r has none. */
  function Enter(rooms: Rooms, r: RoomId, s: SocketId): Rooms {
    rooms[r := (if r in rooms then rooms[r] else {}) + {s}]
  }

  /** The join handler's "leave previous room" test: a recorded room that is set and differs from r. */
  predicate Switches(users: Users, s: SocketId, r: RoomId) {
    s in users && users[s].roomId != "" && users[s].roomId != r
  }

  /** The `rooms` map after `join-room` of socket s to room r. */
  function JoinRooms(rooms: Rooms, users: Users, s: SocketId, r: RoomId): Rooms {
    Enter(if Switches(users, s, r) then Leave(rooms, users[s].roomId, s) else rooms, r, s)
  }

  /** The `rooms` map after `disconnect` of socket s. */
  function DisconnectRooms(rooms: Rooms, users: Users, s: SocketId): Rooms {
    if s in users && users[s].roomId != "" then Leave(rooms, users[s].roomId, s) else rooms
  }

  // ------------------------------------------------------------------
  // Properties of the updates

  lemma JoinKeepsConsistent(rooms: Rooms, users: Users, s: SocketId, r: RoomId, userId: string)
    requires Consistent(rooms, users) && r != ""
    ensures Consistent(JoinRooms(rooms, users, s, r), users[s := User(userId, r)])
  {
    var rooms' := JoinRooms(rooms, users, s, r);
    var users' := users[s := User(userId, r)];
    var left := if Switches(users, s, r) then Leave(rooms, users[s].roomId, s) else rooms;
    assert rooms' == Enter(left, r, s);
    forall q | q in left ensures left[q] != {} && left[q] <= rooms[q] && (q != r ==> s !in left[q]) {
    }
    forall q, t | q in rooms' && t in rooms'[q] ensures t in users' && users'[t].roomId == q {
      if t != s {
        assert t in left[q];
        assert t in rooms[q];
      }
    }
    forall t | t in users' ensures users'[t].roomId in rooms' && t in rooms'[users'[t].roomId] {
      if t != s {
        var q := users[t].roomId;
        assert t in rooms[q];
        if Switches(users, s, r) && q == users[s].roomId {
          assert t in rooms[q] - {s};
        }
        assert q in left && t in left[q];
      }
    }
  }

  lemma DisconnectKeepsConsistent(rooms: Rooms, users: Users, s: SocketId)
    requires Consistent(rooms, users)
    ensures Consistent(DisconnectRooms(rooms, users, s), users - {s})
  {
    var rooms' := DisconnectRooms(rooms, users, s);
    var users' := users - {s};
    forall q | q in rooms' ensures rooms'[q] != {} {
      if s in users && q == users[s].roomId {
        assert rooms'[q] == rooms[q] - {s};
      } else {
        assert rooms'[q] == rooms[q];
      }
    }
    forall t | t in users' ensures users'[t].roomId in rooms' && t in rooms'[users'[t].roomId] {
      assert t in rooms[users[t].roomId];
    }
  }

  /**
   * Joining room r adds s to r's members (a set: a member rejoining is not counted
   * twice), and the room's size is its former size plus one for a newcomer.
   */
  lemma JoinedRoomSize(rooms: Rooms, users: Users, s: SocketId, r: RoomId)
    requires Consistent(rooms, users) && r != ""
    ensures var before := if r in rooms then rooms[r] else {};
      var after := JoinRooms(rooms, users, s, r);
      && r in after
      && after[r] == before + {s}
      && |after[r]| == if s in before then |before| else |before| + 1
  {
    var before := if r in rooms then rooms[r] else {};
    var left := if Switches(users, s, r) then Leave(rooms, users[s].roomId, s) else rooms;
    assert (if r in left then left[r] else {}) == before;
    if s !in before {
      assert |before + {s}| == |before| + 1;
    } else {
      assert before + {s} == before;
    }
  }

  /**
   * Switching from room a to room r removes s from a, drops a when s was its last
   * member, and leaves every room other than a and r as it was.
   */
  lemma SwitchLeavesOldRoom(rooms: Rooms, users: Users, s: SocketId, r: RoomId)
    requires Consistent(rooms, users) && r != "" && Switches(users, s, r)
    ensures var a := users[s].roomId;
      var after := JoinRooms(rooms, users, s, r);
      && (rooms[a] == {s} ==> a !in after)
      && (rooms[a] != {s} ==> a in after && after[a] == rooms[a] - {s})
      && (forall q | q in rooms && q != a && q != r :: q in after && after[q] == rooms[q])
      && (forall q | q in after && q != r :: q in rooms)
  {
    var a := users[s].roomId;
    if rooms[a] == {s} {
      assert rooms[a] - {s} == {};
    } else {
      var t :| t in rooms[a] && t != s;
      assert t in rooms[a] - {s};
    }
  }

  /** Rejoining the room the socket is already in leaves `rooms` exactly as it was. */
  lemma RejoinKeepsRooms(rooms: Rooms, users: Users, s: SocketId, r: RoomId)
    requires Consistent(rooms, users) && s in users && users[s].roomId == r
    ensures JoinRooms(rooms, users, s, r) == rooms
  {
    assert rooms[r] + {s} == rooms[r];
  }

  /**
   * Disconnecting removes s from every room, shrinks its room by s (dropping it when
   * s was the last member), touches no other room, and does nothing for a socket
   * that never joined.
   */
  lemma DisconnectEffect(rooms: Rooms, users: Users, s: SocketId)
    requires Consistent(rooms, users)
    ensures var after := DisconnectRooms(rooms, users, s);
      && (forall q | q in after :: s !in after[q])
      && (s !in users ==> after == rooms)
      && (s in users ==>
            var a := users[s].roomId;
            && (rooms[a] == {s} ==> a !in after)
            && (rooms[a] != {s} ==> a in after && after[a] == rooms[a] - {s})
            && (forall q | q in rooms && q != a :: q in after && after[q] == rooms[q])
            && (forall q | q in after :: q in rooms))
  {
    var after := DisconnectRooms(rooms, users, s);
    if s in users {
      var a := users[s].roomId;
      if rooms[a] == {s} {
        assert rooms[a] - {s} == {};
      } else {
        var t :| t in rooms[a] && t != s;
        assert t in rooms[a] - {s};
      }
    }
    forall q | q in after ensures s !in after[q] {
      if s in users && q == users[s].roomId {
        assert after[q] == rooms[q] - {s};
      } else {
        assert after[q] == rooms[q];
      }
    }
  }

  /** A socket with no `users` entry that joins a room and then disconnects leaves `rooms` as it found it: no leaked empty room. */
  lemma JoinThenDisconnect(rooms: Rooms, users: Users, s: SocketId, r: RoomId, userId: string)
    requires Consistent(rooms, users) && s !in users && r != ""
    ensures DisconnectRooms(JoinRooms(rooms, users, s, r), users[s := User(userId, r)], s) == rooms
  {
    if r in rooms {
      assert s !in rooms[r];
      assert rooms[r] + {s} - {s} == rooms[r];
      var t :| t in rooms[r];
      assert t in rooms[r] + {s} - {s};
    } else {
      assert {s} - {s} == {};
    }
  }
}
