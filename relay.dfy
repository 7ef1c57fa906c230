/**
 * The Socket.IO connection handlers of backend/server.js (lines 147-351): the room
 * registry as a class over the `rooms` and `users` maps, one method per inbound
 * event, and the store of backend/database.js behind it. Every outbound event is
 * returned as an emission naming its recipients:
 *   `socket.emit`         the sender only,
 *   `socket.to(room)`     the members of the room other than the sender,
 *   `io.to(room)`         every member of the room.
 * Socket.IO's own room membership is taken to be the `rooms` map, which
 * `socket.join` and `socket.leave` mirror.
 */
module Relay {
  import opened Wrappers
  import opened Registry
  import opened StrokeStore

  /** The delay before the history replay of a join is sent (line 240). */
  const LOAD_STROKES_DELAY_MS: nat := 3500

  const ROOM_ID_REQUIRED: string := "Room ID is required"

  /** JavaScript's `a || b` for a string field: an undefined or empty `a` gives `b`. */
  function Or(a: Option<string>, b: string): (r: string)
    ensures a.Some? && a.value != "" ==> r == a.value
    ensures !(a.Some? && a.value != "") ==> r == b
  {
    if a.Some? && a.value != "" then a.value else b
  }

  /** JavaScript's `a || b` for a number field: an undefined or zero `a` gives `b`. */
  function OrNumber(a: Option<int>, b: int): (r: int)
    ensures a.Some? && a.value != 0 ==> r == a.value
    ensures !(a.Some? && a.value != 0) ==> r == b
  {
    if a.Some? && a.value != 0 then a.value else b
  }

  predicate Truthy(a: Option<string>) {
    a.Some? && a.value != ""
  }

  // ------------------------------------------------------------------
  // Inbound payloads (`None` is a field the client left out)

  datatype JoinRequest = JoinRequest(roomId: Option<string>, userId: Option<string>)

  datatype StrokesRequest = StrokesRequest(roomId: Option<string>)

  datatype StrokeData = StrokeData(
    userId: Option<string>,
    points: Option<Points>,
    color: Option<string>,
    width: Option<real>,
    createdAt: Option<int>)

  datatype ClearRequest = ClearRequest(roomId: Option<string>)

  datatype DeleteRequest = DeleteRequest(
    roomId: Option<string>,
    strokeId: Option<string>,
    userId: Option<string>,
    createdAt: Option<int>)

  // ------------------------------------------------------------------
  // Outbound events

  datatype Event =
    | ConnectionStatus(status: string, socketId: SocketId, message: string)
    | ErrorMessage(message: string)
    | RoomJoined(roomId: RoomId, userId: string, usersInRoom: nat)
    | UserJoined(userId: string, usersInRoom: nat)
    | UserLeft(userId: string, usersInRoom: nat)
    | LoadStrokes(roomId: RoomId, strokes: seq<Stroke>)
    | StrokeRelayed(data: StrokeData, socketId: SocketId)
    | CanvasCleared(roomId: RoomId, clearedBy: string)
    | StrokeDeleted(roomId: RoomId, strokeId: Option<string>, author: Option<string>, // the payload's `userId`
                    createdAt: Option<int>, deletedBy: string)

  /** An event, the sockets it is sent to, and how long after the handler it goes out. */
  datatype Emission = Emission(event: Event, to: set<SocketId>, delayMs: nat)

  /** `io.to(r)`: every member of room r. */
  function Everyone(rooms: Rooms, r: RoomId): set<SocketId> {
    if r in rooms then rooms[r] else {}
  }

  /** `socket.to(r)`: the members of room r other than s. */
  function Others(rooms: Rooms, r: RoomId, s: SocketId): set<SocketId> {
    Everyone(rooms, r) - {s}
  }

  /** A socket the stroke, clear and delete handlers act for: it has a `users` entry with a room. */
  predicate HasRoom(users: Users, s: SocketId) {
    s in users && users[s].roomId != ""
  }

  /**
   * What a completed `join-room` of s to r sends, given `rooms` after the join and
   * the history read at join time: `room-joined` to s, the delayed `load-strokes`
   * to s, and `user-joined` to the rest of the room.
   */
  function JoinReplies(rooms: Rooms, s: SocketId, r: RoomId, userId: string, history: seq<Stroke>): seq<Emission>
    requires r in rooms
  {
    [ Emission(RoomJoined(r, userId, |rooms[r]|), {s}, 0),
      Emission(LoadStrokes(r, history), {s}, LOAD_STROKES_DELAY_MS),
      Emission(UserJoined(userId, |rooms[r]|), rooms[r] - {s}, 0) ]
  }

  /** What `disconnect` sends, given the maps before it: `user-left` to whoever remains in the room. */
  function LeaveNotice(rooms: Rooms, users: Users, s: SocketId): seq<Emission> {
    if HasRoom(users, s) && users[s].roomId in rooms then
      var rest := rooms[users[s].roomId] - {s};
      [Emission(UserLeft(users[s].userId, |rest|), rest, 0)]
    else []
  }

  /** The row the stroke handler asks the store to insert (lines 255-263). */
  function StrokeRecord(user: User, s: SocketId, data: StrokeData, now: int): NewStroke {
    NewStroke(user.roomId, Or(data.userId, user.userId), Some(s), data.points, data.color, data.width,
              OrNumber(data.createdAt, now))
  }

  // ------------------------------------------------------------------
  // Properties of who receives what

  /**
   * On a join the sender alone gets `room-joined` and, after the delay, the history
   * snapshot; the members already in the room, sender excluded, get `user-joined`;
   * both carry the room's size after the join.
   */
  lemma JoinRepliesAddressing(rooms: Rooms, users: Users, s: SocketId, r: RoomId, userId: string, history: seq<Stroke>)
    requires Consistent(rooms, users) && r != ""
    ensures var after := JoinRooms(rooms, users, s, r);
      var before := Everyone(rooms, r);
      var out := JoinReplies(after, s, r, userId, history);
      && |out| == 3
      && out[0] == Emission(RoomJoined(r, userId, |after[r]|), {s}, 0)
      && out[1] == Emission(LoadStrokes(r, history), {s}, LOAD_STROKES_DELAY_MS)
      && out[2] == Emission(UserJoined(userId, |after[r]|), before - {s}, 0)
      && |after[r]| == if s in before then |before| else |before| + 1
  {
    JoinedRoomSize(rooms, users, s, r);
    var before := Everyone(rooms, r);
    assert (before + {s}) - {s} == before - {s};
  }

  /** Switching rooms sends nothing to the members left behind in the old room. */
  lemma SwitchIsSilentToOldRoom(rooms: Rooms, users: Users, s: SocketId, r: RoomId, userId: string, history: seq<Stroke>)
    requires Consistent(rooms, users) && r != "" && Switches(users, s, r)
    ensures var out := JoinReplies(JoinRooms(rooms, users, s, r), s, r, userId, history);
      forall k, t | 0 <= k < |out| && t in out[k].to :: t !in rooms[users[s].roomId] - {s}
  {
    var a := users[s].roomId;
    var out := JoinReplies(JoinRooms(rooms, users, s, r), s, r, userId, history);
    JoinRepliesAddressing(rooms, users, s, r, userId, history);
    forall k, t | 0 <= k < |out| && t in out[k].to ensures t !in rooms[a] - {s} {
      if t != s {
        assert t in Everyone(rooms, r);
        assert users[t].roomId == r;
      }
    }
  }

  /**
   * `io.to(q)` reaches exactly the sockets `users` records in room q, and
   * `socket.to(q)` those minus the sender: a socket in another room never
   * receives a room's strokes, clears or deletions.
   */
  lemma RecipientsAreRoomMembers(rooms: Rooms, users: Users, q: RoomId, s: SocketId)
    requires Consistent(rooms, users)
    ensures Everyone(rooms, q) == MembersOf(users, q)
    ensures Others(rooms, q, s) == MembersOf(users, q) - {s}
    ensures forall t | t in users && users[t].roomId != q :: t !in Everyone(rooms, q)
  {
    MembersMatch(rooms, users, q);
  }

  /** `clear-canvas` or `delete-stroke` aimed at a room other than the sender's does not reach the sender. */
  lemma ForeignTargetSkipsSender(rooms: Rooms, users: Users, s: SocketId, data: Option<string>)
    requires Consistent(rooms, users) && HasRoom(users, s)
    requires Or(data, users[s].roomId) != users[s].roomId
    ensures s !in Everyone(rooms, Or(data, users[s].roomId))
  {
    RecipientsAreRoomMembers(rooms, users, Or(data, users[s].roomId), s);
  }

  /**
   * On disconnect, a socket that never joined sends nothing; otherwise `user-left`
   * goes to exactly the members remaining in its room and carries their number.
   */
  lemma LeaveNoticeAddressing(rooms: Rooms, users: Users, s: SocketId)
    requires Consistent(rooms, users)
    ensures s !in users ==> LeaveNotice(rooms, users, s) == []
    ensures s in users ==>
      var out := LeaveNotice(rooms, users, s);
      var after := DisconnectRooms(rooms, users, s);
      && |out| == 1
      && out[0].to == Everyone(after, users[s].roomId)
      && s !in out[0].to
      && out[0].event == UserLeft(users[s].userId, |out[0].to|)
  {
    if s in users {
      var a := users[s].roomId;
      if rooms[a] - {s} == {} {
        assert a !in DisconnectRooms(rooms, users, s);
      }
    }
  }

  // ------------------------------------------------------------------
  // The server

  class RelayServer {
    /** roomId -> set of socket ids */
    var rooms: Rooms
    /** socketId -> { userId, roomId } */
    var users: Users
    /** The store of backend/database.js. */
    const db: Store

    ghost predicate Valid()
      reads this, db
    {
      Consistent(rooms, users) && db.Valid()
    }

    constructor (store: Store)
      requires store.Valid()
      ensures Valid()
      ensures db == store && rooms == map[] && users == map[]
    {
      db := store;
      rooms, users := map[], map[];
    }

    /** On connection: `connection-status` to the new socket, carrying its id. */
    method OnConnect(socket: SocketId) returns (out: seq<Emission>)
      ensures |out| == 1 && out[0].to == {socket} && out[0].delayMs == 0
      ensures out[0].event == ConnectionStatus("connected", socket, "Successfully connected to server")
    {
      out := [Emission(ConnectionStatus("connected", socket, "Successfully connected to server"), {socket}, 0)];
    }

    /** `request-strokes`: the current history of the named room, else of the sender's room, to the sender. */
    method OnRequestStrokes(socket: SocketId, data: StrokesRequest) returns (out: seq<Emission>)
      ensures var target := Or(data.roomId, if socket in users then users[socket].roomId else "");
        && (target == "" ==> out == [])
        && (target != "" ==> out == [Emission(LoadStrokes(target, StrokesForRoom(db.strokes, target)), {socket}, 0)])
    {
      var user := if socket in users then Some(users[socket]) else None;
      var targetRoomId := Or(data.roomId, if user.Some? then user.value.roomId else "");
      out := [];
      if targetRoomId != "" {
        var existingStrokes := db.GetStrokesForRoom(targetRoomId);
        out := [Emission(LoadStrokes(targetRoomId, existingStrokes), {socket}, 0)];
      }
    }

    /**
     * `join-room`. `createPageReturns` says whether `db.createPage`, called when the
     * room has no row in the rooms table, returns normally; when it throws, the
     * handler stops there, after the registry update and before any emission. The
     * method returns that state; the uncaught exception's end of the process is not
     * represented.
     */
    method OnJoinRoom(socket: SocketId, data: JoinRequest, now: int, createPageReturns: bool) returns (out: seq<Emission>)
      requires Valid()
      modifies this, db
      ensures Valid()
      ensures !Truthy(data.roomId) ==>
        && out == [Emission(ErrorMessage(ROOM_ID_REQUIRED), {socket}, 0)]
        && rooms == old(rooms) && users == old(users) && unchanged(db)
      ensures Truthy(data.roomId) ==>
        var roomId := data.roomId.value;
        var userId := Or(data.userId, socket);
        var throws := roomId !in old(db.rooms) && !createPageReturns;
        && rooms == JoinRooms(old(rooms), old(users), socket, roomId)
        && users == old(users)[socket := User(userId, roomId)]
        && db.strokes == old(db.strokes) && db.sequence == old(db.sequence)
        && db.rooms == (if throws then old(db.rooms) else Upserted(old(db.rooms), roomId, now))
        && out == (if throws then [] else JoinReplies(rooms, socket, roomId, userId, StrokesForRoom(old(db.strokes), roomId)))
    {
      if !Truthy(data.roomId) {
        out := [Emission(ErrorMessage(ROOM_ID_REQUIRED), {socket}, 0)];
        return;
      }
      var roomId := data.roomId.value;
      ghost var rooms0, users0 := rooms, users;
      LeavePreviousRoom(socket, roomId);
      var userId := Or(data.userId, socket);
      EnterRoom(socket, roomId, userId);
      JoinKeepsConsistent(rooms0, users0, socket, roomId, userId);

      var roomInfo := db.GetRoomInfo(roomId);
      if roomInfo.None? && !createPageReturns {
        out := [];
        return;
      }
      db.UpdateRoomActivity(roomId, now);

      out := [Emission(RoomJoined(roomId, userId, |rooms[roomId]|), {socket}, 0)];
      var existingStrokes := db.GetStrokesForRoom(roomId);
      out := out + [Emission(LoadStrokes(roomId, existingStrokes), {socket}, LOAD_STROKES_DELAY_MS)];
      out := out + [Emission(UserJoined(userId, |rooms[roomId]|), rooms[roomId] - {socket}, 0)];
    }

    /** The first step of `join-room`: leave the previous room, if any, telling nobody. */
    method LeavePreviousRoom(socket: SocketId, roomId: RoomId)
      modifies this
      ensures rooms == if Switches(old(users), socket, roomId) then Leave(old(rooms), old(users)[socket].roomId, socket) else old(rooms)
      ensures users == old(users)
    {
      if socket in users {
        var prevRoomId := users[socket].roomId;
        if prevRoomId != "" && prevRoomId != roomId {
          if prevRoomId in rooms {
            rooms := rooms[prevRoomId := rooms[prevRoomId] - {socket}];
            if |rooms[prevRoomId]| == 0 {
              rooms := rooms - {prevRoomId};
            }
          }
        }
      }
    }

    /** The second step of `join-room`: enter the room and record the socket's user id and room. */
    method EnterRoom(socket: SocketId, roomId: RoomId, userId: string)
      modifies this
      ensures rooms == Enter(old(rooms), roomId, socket)
      ensures users == old(users)[socket := User(userId, roomId)]
    {
      if roomId !in rooms {
        rooms := rooms[roomId := {}];
      }
      rooms := rooms[roomId := rooms[roomId] + {socket}];
      users := users[socket := User(userId, roomId)];
    }

    /**
     * `stroke`: saves the stroke under the sender's room and, when the insert
     * succeeds, stamps the room's activity; relays the payload with the sender's id
     * to the rest of the room whether or not the insert succeeded.
     */
    method OnStroke(socket: SocketId, data: StrokeData, now: int) returns (out: seq<Emission>)
      requires Valid()
      modifies db
      ensures Valid()
      ensures !HasRoom(users, socket) ==> out == [] && unchanged(db)
      ensures HasRoom(users, socket) ==>
        var user := users[socket];
        var record := StrokeRecord(user, socket, data, now);
        && (MissingColumn(record).None? ==>
              && db.strokes == old(db.strokes) + [NewRow(record, old(db.sequence) + 1)]
              && db.sequence == old(db.sequence) + 1
              && db.rooms == Upserted(old(db.rooms), user.roomId, now))
        && (MissingColumn(record).Some? ==> unchanged(db))
        && out == [Emission(StrokeRelayed(data, socket), Others(rooms, user.roomId, socket), 0)]
    {
      out := [];
      if HasRoom(users, socket) {
        var user := users[socket];
        var saved := db.SaveStroke(StrokeRecord(user, socket, data, now));
        if saved.Saved? {
          db.UpdateRoomActivity(user.roomId, now);
        }
        out := [Emission(StrokeRelayed(data, socket), Others(rooms, user.roomId, socket), 0)];
      }
    }

    /** `clear-canvas`: empties the named room, else the sender's, and tells every member of that room. */
    method OnClearCanvas(socket: SocketId, data: ClearRequest) returns (out: seq<Emission>)
      requires Valid()
      modifies db
      ensures Valid()
      ensures !HasRoom(users, socket) ==> out == [] && unchanged(db)
      ensures HasRoom(users, socket) ==>
        var user := users[socket];
        var roomId := Or(data.roomId, user.roomId);
        && db.strokes == Select(old(db.strokes), InRoom(roomId), false)
        && db.sequence == old(db.sequence) && db.rooms == old(db.rooms)
        && out == [Emission(CanvasCleared(roomId, Or(Some(user.userId), socket)), Everyone(rooms, roomId), 0)]
    {
      out := [];
      if HasRoom(users, socket) {
        var user := users[socket];
        var roomId := Or(data.roomId, user.roomId);
        var _ := db.ClearRoom(roomId);
        out := [Emission(CanvasCleared(roomId, Or(Some(user.userId), socket)), Everyone(rooms, roomId), 0)];
      }
    }

    /**
     * `delete-stroke`: deletes the rows of the named room, else the sender's, that
     * match the given user and creation time, and tells every member of that room.
     */
    method OnDeleteStroke(socket: SocketId, data: DeleteRequest) returns (out: seq<Emission>)
      requires Valid()
      modifies db
      ensures Valid()
      ensures !HasRoom(users, socket) ==> out == [] && unchanged(db)
      ensures HasRoom(users, socket) ==>
        var user := users[socket];
        var roomId := Or(data.roomId, user.roomId);
        && db.strokes == Select(old(db.strokes), MatchesKey(roomId, data.userId, data.createdAt), false)
        && db.sequence == old(db.sequence) && db.rooms == old(db.rooms)
        && out == [Emission(StrokeDeleted(roomId, data.strokeId, data.userId, data.createdAt, Or(Some(user.userId), socket)),
                            Everyone(rooms, roomId), 0)]
    {
      out := [];
      if HasRoom(users, socket) {
        var user := users[socket];
        var roomId := Or(data.roomId, user.roomId);
        var _ := db.DeleteStroke(roomId, data.userId, data.createdAt);
        out := [Emission(StrokeDeleted(roomId, data.strokeId, data.userId, data.createdAt, Or(Some(user.userId), socket)),
                         Everyone(rooms, roomId), 0)];
      }
    }

    /** `disconnect`: leaves the room (pruning it when empty), tells those remaining, and forgets the socket. */
    method OnDisconnect(socket: SocketId) returns (out: seq<Emission>)
      requires Valid()
      modifies this
      ensures Valid()
      ensures rooms == DisconnectRooms(old(rooms), old(users), socket)
      ensures users == old(users) - {socket}
      ensures out == LeaveNotice(old(rooms), old(users), socket)
    {
      ghost var rooms0, users0 := rooms, users;
      out := [];
      if socket in users && users[socket].roomId != "" {
        var user := users[socket];
        var roomId := user.roomId;
        if roomId in rooms {
          rooms := rooms[roomId := rooms[roomId] - {socket}];
          out := [Emission(UserLeft(user.userId, |rooms[roomId]|), rooms[roomId], 0)];
          if |rooms[roomId]| == 0 {
            rooms := rooms - {roomId};
          }
        }
        assert rooms == Leave(rooms0, roomId, socket);
      }
      users := users - {socket};
      DisconnectKeepsConsistent(rooms0, users0, socket);
    }
  }
}
