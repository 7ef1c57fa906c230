/**
 * The stroke store of backend/database.js: the `strokes` table (an AUTOINCREMENT
 * primary key over the rows, kept in row-id order) and the `rooms` table (keyed by
 * room id), with the six operations the server uses.
 *
 * The points of a stroke are opaque: the model keeps their JSON text and, per row,
 * whether `JSON.parse` of that text succeeds.
 */
module StrokeStore {
  import opened Wrappers

  /** The JSON text of a stroke's points. */
  type Points = string

  /** A row of the `strokes` table (backend/database.js lines 20-30). */
  datatype Row = Row(
    id: nat,
    roomId: string,
    userId: string,
    socketId: Option<string>,
    points: Points,
    color: string,
    width: real,
    createdAt: int,
    parses: bool)

  /** A stroke as `getStrokesForRoom` hands it out (lines 76-85). */
  datatype Stroke = Stroke(
    id: nat,
    userId: string,
    roomId: string,
    socketId: Option<string>,
    points: Points,
    color: string,
    width: real,
    createdAt: int)

  /** A row of the `rooms` table (lines 32-36). */
  datatype RoomRow = RoomRow(roomId: string, createdAt: int, lastActivity: int)

  /** The argument of `saveStroke`; `None` is a field the caller left undefined. */
  datatype NewStroke = NewStroke(
    roomId: string,
    userId: string,
    socketId: Option<string>,
    points: Option<Points>,
    color: Option<string>,
    width: Option<real>,
    createdAt: int)

  /** What `saveStroke` does: the new row id, or the NOT NULL constraint SQLite reports. */
  datatype SaveResult = Saved(id: nat) | NotNullFailed(column: string)

  // ------------------------------------------------------------------
  // Table invariants

  /** Row ids are positive, at most the AUTOINCREMENT counter, and increase along the table. */
  ghost predicate WellFormed(rows: seq<Row>, sequence: nat) {
    && (forall i | 0 <= i < |rows| :: 0 < rows[i].id <= sequence)
    && (forall i, j | 0 <= i < j < |rows| :: rows[i].id < rows[j].id)
  }

  /** Every entry of the rooms table is stored under its own room id. */
  ghost predicate RoomsKeyed(rooms: map<string, RoomRow>) {
    forall r | r in rooms :: rooms[r].roomId == r
  }

  // ------------------------------------------------------------------
  // WHERE clauses

  /** `room_id = r` */
  function InRoom(r: string): Row -> bool {
    (row: Row) => row.roomId == r
  }

  /** `room_id = r AND user_id = u AND created_at = t`; an undefined u or t binds NULL, which equals nothing. */
  function MatchesKey(r: string, u: Option<string>, t: Option<int>): Row -> bool {
    (row: Row) => u.Some? && t.Some? && row.roomId == r && row.userId == u.value && row.createdAt == t.value
  }

  /** The rows, in table order, on which `p` is `keep`. */
  function Select(rows: seq<Row>, p: Row -> bool, keep: bool): (out: seq<Row>)
    ensures |out| <= |rows|
    ensures forall x :: x in out ==> x in rows && p(x) == keep
    ensures forall x :: x in rows && p(x) == keep ==> x in out
  {
    if rows == [] then []
    else if p(rows[0]) == keep then [rows[0]] + Select(rows[1..], p, keep)
    else Select(rows[1..], p, keep)
  }

  lemma {:induction false} SelectAppend(a: seq<Row>, b: seq<Row>, p: Row -> bool, keep: bool)
    ensures Select(a + b, p, keep) == Select(a, p, keep) + Select(b, p, keep)
  {
    if a == [] {
      assert a + b == b;
    } else {
      assert (a + b)[0] == a[0];
      assert (a + b)[1..] == a[1..] + b;
      SelectAppend(a[1..], b, p, keep);
    }
  }

  /** A WHERE clause and its negation split the table: what DELETE removes plus what it keeps is the table. */
  lemma {:induction false} SelectPartition(rows: seq<Row>, p: Row -> bool)
    ensures multiset(Select(rows, p, true)) + multiset(Select(rows, p, false)) == multiset(rows)
    ensures |Select(rows, p, true)| + |Select(rows, p, false)| == |rows|
  {
    if rows != [] {
      SelectPartition(rows[1..], p);
      assert rows == [rows[0]] + rows[1..];
    }
    assert |multiset(Select(rows, p, true))| == |Select(rows, p, true)|;
    assert |multiset(Select(rows, p, false))| == |Select(rows, p, false)|;
  }

  /** When every row satisfies the clause, the selection is the whole table. */
  lemma {:induction false} SelectAll(rows: seq<Row>, p: Row -> bool, keep: bool)
    requires forall i | 0 <= i < |rows| :: p(rows[i]) == keep
    ensures Select(rows, p, keep) == rows
  {
    if rows != [] {
      SelectAll(rows[1..], p, keep);
    }
  }

  /** Every id of a selection exceeds a bound that every id of the table exceeds. */
  lemma {:induction false} SelectAbove(rows: seq<Row>, b: int, p: Row -> bool, keep: bool)
    requires forall i | 0 <= i < |rows| :: b < rows[i].id
    ensures forall i | 0 <= i < |Select(rows, p, keep)| :: b < Select(rows, p, keep)[i].id
  {
    if rows != [] {
      SelectAbove(rows[1..], b, p, keep);
    }
  }

  /** Deleting rows keeps the ids increasing and below the counter. */
  lemma {:induction false} SelectWellFormed(rows: seq<Row>, sequence: nat, p: Row -> bool, keep: bool)
    requires WellFormed(rows, sequence)
    ensures WellFormed(Select(rows, p, keep), sequence)
  {
    if rows != [] {
      var tail := rows[1..];
      assert WellFormed(tail, sequence) by {
        forall i | 0 <= i < |tail| ensures tail[i] == rows[i + 1] {
        }
      }
      SelectWellFormed(tail, sequence, p, keep);
      var rest := Select(tail, p, keep);
      if p(rows[0]) == keep {
        forall i | 0 <= i < |tail| ensures rows[0].id < tail[i].id {
          assert tail[i] == rows[i + 1];
        }
        SelectAbove(tail, rows[0].id, p, keep);
        var out := [rows[0]] + rest;
        forall i, j | 0 <= i < j < |out| ensures out[i].id < out[j].id {
          assert out[j] == rest[j - 1];
          if i > 0 {
            assert out[i] == rest[i - 1];
          }
        }
      }
    }
  }

  // ------------------------------------------------------------------
  // SELECT ... WHERE room_id = ? ORDER BY created_at ASC

  function ToStroke(row: Row): Stroke {
    Stroke(row.id, row.userId, row.roomId, row.socketId, row.points, row.color, row.width, row.createdAt)
  }

  function ToStrokes(rows: seq<Row>): (out: seq<Stroke>)
    ensures |out| == |rows|
    ensures forall k | 0 <= k < |rows| :: out[k] == ToStroke(rows[k])
  {
    seq(|rows|, k requires 0 <= k < |rows| => ToStroke(rows[k]))
  }

  /** Non-decreasing `createdAt`. */
  ghost predicate Ordered(s: seq<Stroke>) {
    forall i, j | 0 <= i < j < |s| :: s[i].createdAt <= s[j].createdAt
  }

  /** Puts `x` before the first stroke that is not earlier than it, so equal keys keep their order. */
  function Insert(x: Stroke, t: seq<Stroke>): (out: seq<Stroke>)
    ensures multiset(out) == multiset(t) + multiset{x}
  {
    if t == [] || x.createdAt <= t[0].createdAt then [x] + t
    else
      assert t == [t[0]] + t[1..];
      [t[0]] + Insert(x, t[1..])
  }

  /** A bound below `x` and below every stroke of `t` stays below every stroke of the insertion. */
  lemma {:induction false} InsertAbove(x: Stroke, t: seq<Stroke>, b: int)
    requires b <= x.createdAt
    requires forall i | 0 <= i < |t| :: b <= t[i].createdAt
    ensures forall i | 0 <= i < |Insert(x, t)| :: b <= Insert(x, t)[i].createdAt
  {
    if t != [] && x.createdAt > t[0].createdAt {
      InsertAbove(x, t[1..], b);
    }
  }

  lemma {:induction false} InsertOrdered(x: Stroke, t: seq<Stroke>)
    requires Ordered(t)
    ensures Ordered(Insert(x, t))
  {
    if t != [] && x.createdAt > t[0].createdAt {
      var tail := t[1..];
      assert Ordered(tail);
      InsertOrdered(x, tail);
      InsertAbove(x, tail, t[0].createdAt);
      var rest := Insert(x, tail);
      var out := [t[0]] + rest;
      assert Insert(x, t) == out;
      forall i, j | 0 <= i < j < |out| ensures out[i].createdAt <= out[j].createdAt {
        assert out[j] == rest[j - 1];
        if i > 0 {
          assert out[i] == rest[i - 1];
        }
      }
    }
  }

  /** A stable insertion sort on `createdAt`. */
  function SortByCreated(s: seq<Stroke>): (out: seq<Stroke>)
    ensures multiset(out) == multiset(s)
    ensures Ordered(out)
  {
    if s == [] then []
    else
      assert s == [s[0]] + s[1..];
      var rest := SortByCreated(s[1..]);
      InsertOrdered(s[0], rest);
      Insert(s[0], rest)
  }

  predicate AllParse(rows: seq<Row>) {
    forall k | 0 <= k < |rows| :: rows[k].parses
  }

  /**
   * `getStrokesForRoom(r)`: the rows of room r ordered by `createdAt` (ties in row
   * order), or the empty list when the point text of any of them fails to parse.
   */
  function StrokesForRoom(rows: seq<Row>, r: string): (out: seq<Stroke>)
    ensures Ordered(out)
  {
    var sel := Select(rows, InRoom(r), true);
    if AllParse(sel) then SortByCreated(ToStrokes(sel)) else []
  }

  /** With no corrupt row in room r, the listing holds exactly room r's rows, each once. */
  lemma StrokesForRoomExact(rows: seq<Row>, r: string)
    requires forall i | 0 <= i < |rows| && rows[i].roomId == r :: rows[i].parses
    ensures multiset(StrokesForRoom(rows, r)) == multiset(ToStrokes(Select(rows, InRoom(r), true)))
    ensures forall k | 0 <= k < |StrokesForRoom(rows, r)| :: StrokesForRoom(rows, r)[k].roomId == r
  {
    var sel := Select(rows, InRoom(r), true);
    forall k | 0 <= k < |sel| ensures sel[k].parses {
      assert sel[k] in rows;
    }
    var all := ToStrokes(sel);
    forall k | 0 <= k < |all| ensures all[k].roomId == r {
      assert sel[k] in sel;
    }
    var out := StrokesForRoom(rows, r);
    forall k | 0 <= k < |out| ensures out[k].roomId == r {
      assert out[k] in multiset(all);
    }
  }

  /** One row of room r whose points fail to parse empties the whole listing (lines 87-90). */
  lemma StrokesForRoomCorrupt(rows: seq<Row>, r: string, i: nat)
    requires i < |rows| && rows[i].roomId == r && !rows[i].parses
    ensures StrokesForRoom(rows, r) == []
  {
    var sel := Select(rows, InRoom(r), true);
    assert rows[i] in rows;
    assert rows[i] in sel;
    var k :| 0 <= k < |sel| && sel[k] == rows[i];
    assert !AllParse(sel);
  }

  // ------------------------------------------------------------------
  // INSERT INTO strokes

  /** `strokeData.socketId || null` */
  function StoredSocket(socketId: Option<string>): Option<string> {
    if socketId.Some? && socketId.value != "" then socketId else None
  }

  /** The first NOT NULL column, in table order, that the new stroke leaves undefined. */
  function MissingColumn(data: NewStroke): (c: Option<string>)
    ensures c.None? <==> data.points.Some? && data.color.Some? && data.width.Some?
    ensures data.points.None? ==> c == Some("strokes.points")
    ensures data.points.Some? && data.color.None? ==> c == Some("strokes.color")
    ensures data.points.Some? && data.color.Some? && data.width.None? ==> c == Some("strokes.width")
  {
    if data.points.None? then Some("strokes.points")
    else if data.color.None? then Some("strokes.color")
    else if data.width.None? then Some("strokes.width")
    else None
  }

  /** The row `saveStroke` inserts under id `id`. */
  function NewRow(data: NewStroke, id: nat): Row
    requires MissingColumn(data).None?
  {
    Row(id, data.roomId, data.userId, StoredSocket(data.socketId),
        data.points.value, data.color.value, data.width.value, data.createdAt, true)
  }

  /** Appending a row under the next counter value keeps the table well formed. */
  lemma AppendWellFormed(rows: seq<Row>, sequence: nat, row: Row)
    requires WellFormed(rows, sequence) && row.id == sequence + 1
    ensures WellFormed(rows + [row], sequence + 1)
  {
  }

  /**
   * Round trip: a stroke saved under the next id into room r is listed for r exactly
   * once, provided no row of r has corrupt points.
   */
  lemma SaveThenList(rows: seq<Row>, sequence: nat, data: NewStroke)
    requires WellFormed(rows, sequence)
    requires MissingColumn(data).None?
    requires forall i | 0 <= i < |rows| && rows[i].roomId == data.roomId :: rows[i].parses
    ensures var row := NewRow(data, sequence + 1);
      multiset(StrokesForRoom(rows + [row], data.roomId))[ToStroke(row)] == 1
  {
    var r := data.roomId;
    var row := NewRow(data, sequence + 1);
    var all := rows + [row];
    forall i | 0 <= i < |all| && all[i].roomId == r ensures all[i].parses {
      if i < |rows| { assert all[i] == rows[i]; }
    }
    StrokesForRoomExact(all, r);
    SelectAppend(rows, [row], InRoom(r), true);
    var before := Select(rows, InRoom(r), true);
    assert Select([row], InRoom(r), true) == [row];
    assert Select(all, InRoom(r), true) == before + [row];
    assert ToStrokes(before + [row]) == ToStrokes(before) + [ToStroke(row)];
    assert ToStroke(row) !in ToStrokes(before) by {
      forall k | 0 <= k < |before| ensures ToStrokes(before)[k].id < row.id {
        assert before[k] in rows;
      }
    }
  }

  // ------------------------------------------------------------------
  // DELETE FROM strokes WHERE ...

  /** After `clearRoom(r)` the room lists nothing, and the count is the number of rows room r had. */
  lemma ClearRoomEffect(rows: seq<Row>, r: string)
    ensures StrokesForRoom(Select(rows, InRoom(r), false), r) == []
    ensures |rows| - |Select(rows, InRoom(r), false)| == |Select(rows, InRoom(r), true)|
    ensures multiset(Select(rows, InRoom(r), false)) == multiset(rows) - multiset(Select(rows, InRoom(r), true))
  {
    var kept := Select(rows, InRoom(r), false);
    SelectPartition(rows, InRoom(r));
    SelectPartition(kept, InRoom(r));
    forall i | 0 <= i < |kept| ensures !InRoom(r)(kept[i]) {
      assert kept[i] in kept;
    }
    SelectAll(kept, InRoom(r), false);
    assert Select(kept, InRoom(r), true) == [];
  }

  /** Clearing room r leaves every other room's rows, and so its listing, exactly as it was. */
  lemma {:induction false} ClearKeepsOtherRoom(rows: seq<Row>, r: string, q: string)
    requires q != r
    ensures Select(Select(rows, InRoom(r), false), InRoom(q), true) == Select(rows, InRoom(q), true)
    ensures StrokesForRoom(Select(rows, InRoom(r), false), q) == StrokesForRoom(rows, q)
  {
    if rows != [] {
      ClearKeepsOtherRoom(rows[1..], r, q);
    }
  }

  /**
   * `deleteStroke(r, u, t)` removes exactly the rows matching the three fields: the
   * rows kept are the table minus those, none of them matches, and the count is
   * the number of matching rows; with no match nothing changes.
   */
  lemma DeleteStrokeEffect(rows: seq<Row>, r: string, u: Option<string>, t: Option<int>)
    ensures var kept := Select(rows, MatchesKey(r, u, t), false);
      && multiset(kept) == multiset(rows) - multiset(Select(rows, MatchesKey(r, u, t), true))
      && |rows| - |kept| == |Select(rows, MatchesKey(r, u, t), true)|
      && (forall x | x in kept :: !MatchesKey(r, u, t)(x))
    ensures (forall i | 0 <= i < |rows| :: !MatchesKey(r, u, t)(rows[i])) ==>
      Select(rows, MatchesKey(r, u, t), false) == rows && Select(rows, MatchesKey(r, u, t), true) == []
  {
    SelectPartition(rows, MatchesKey(r, u, t));
    if forall i | 0 <= i < |rows| :: !MatchesKey(r, u, t)(rows[i]) {
      SelectAll(rows, MatchesKey(r, u, t), false);
    }
  }

  // ------------------------------------------------------------------
  // INSERT INTO rooms ... ON CONFLICT(room_id) DO UPDATE SET last_activity = ?

  function Upserted(rooms: map<string, RoomRow>, r: string, now: int): (m: map<string, RoomRow>)
    ensures m.Keys == rooms.Keys + {r}
    ensures r !in rooms ==> m[r] == RoomRow(r, now, now)
    ensures r in rooms ==> m[r].roomId == rooms[r].roomId && m[r].createdAt == rooms[r].createdAt
    ensures r in rooms ==> m[r].lastActivity == now
    ensures forall q | q in rooms && q != r :: m[q] == rooms[q]
  {
    if r in rooms then rooms[r := rooms[r].(lastActivity := now)] else rooms[r := RoomRow(r, now, now)]
  }

  // ------------------------------------------------------------------
  // The database connection

  class Store {
    /** The `strokes` table in row-id order. */
    var strokes: seq<Row>
    /** The AUTOINCREMENT counter of `strokes` (the largest id ever handed out). */
    var sequence: nat
    /** The `rooms` table. */
    var rooms: map<string, RoomRow>

    ghost predicate Valid()
      reads this
    {
      WellFormed(strokes, sequence) && RoomsKeyed(rooms)
    }

    /** Opens a database file holding the given tables (an empty one for a new file). */
    constructor Open(rows: seq<Row>, lastId: nat, table: map<string, RoomRow>)
      requires WellFormed(rows, lastId) && RoomsKeyed(table)
      ensures Valid()
      ensures strokes == rows && sequence == lastId && rooms == table
    {
      strokes, sequence, rooms := rows, lastId, table;
    }

    /** `saveStroke`: inserts one row under a fresh id larger than every existing one. */
    method SaveStroke(data: NewStroke) returns (res: SaveResult)
      requires Valid()
      modifies this
      ensures Valid()
      ensures MissingColumn(data).Some? ==> res == NotNullFailed(MissingColumn(data).value) && unchanged(this)
      ensures MissingColumn(data).None? ==>
        && res == Saved(old(sequence) + 1)
        && strokes == old(strokes) + [NewRow(data, res.id)]
        && sequence == res.id
        && (forall i | 0 <= i < |old(strokes)| :: old(strokes)[i].id < res.id)
      ensures rooms == old(rooms)
    {
      var missing := MissingColumn(data);
      if missing.Some? {
        res := NotNullFailed(missing.value);
      } else {
        var id := sequence + 1;
        AppendWellFormed(strokes, sequence, NewRow(data, id));
        strokes := strokes + [NewRow(data, id)];
        sequence := id;
        res := Saved(id);
      }
    }

    /** `getStrokesForRoom` */
    function GetStrokesForRoom(roomId: string): seq<Stroke>
      reads this
    {
      StrokesForRoom(strokes, roomId)
    }

    /** `clearRoom`: deletes every row of the room and reports how many went. */
    method ClearRoom(roomId: string) returns (changes: nat)
      requires Valid()
      modifies this
      ensures Valid()
      ensures strokes == Select(old(strokes), InRoom(roomId), false)
      ensures changes == |Select(old(strokes), InRoom(roomId), true)|
      ensures sequence == old(sequence) && rooms == old(rooms)
    {
      var kept := Select(strokes, InRoom(roomId), false);
      SelectPartition(strokes, InRoom(roomId));
      SelectWellFormed(strokes, sequence, InRoom(roomId), false);
      changes := |strokes| - |kept|;
      strokes := kept;
    }

    /** `deleteStroke`: deletes the rows matching room, user and creation time; reports how many went. */
    method DeleteStroke(roomId: string, userId: Option<string>, createdAt: Option<int>) returns (changes: nat)
      requires Valid()
      modifies this
      ensures Valid()
      ensures strokes == Select(old(strokes), MatchesKey(roomId, userId, createdAt), false)
      ensures changes == |Select(old(strokes), MatchesKey(roomId, userId, createdAt), true)|
      ensures sequence == old(sequence) && rooms == old(rooms)
    {
      var key := MatchesKey(roomId, userId, createdAt);
      var kept := Select(strokes, key, false);
      SelectPartition(strokes, key);
      SelectWellFormed(strokes, sequence, key, false);
      changes := |strokes| - |kept|;
      strokes := kept;
    }

    /** `updateRoomActivity`: inserts the room stamped `now`, or moves only its `last_activity` to `now`. */
    method UpdateRoomActivity(roomId: string, now: int)
      requires Valid()
      modifies this
      ensures Valid()
      ensures rooms == Upserted(old(rooms), roomId, now)
      ensures strokes == old(strokes) && sequence == old(sequence)
      ensures GetRoomInfo(roomId) == Some(if roomId in old(rooms)
                                          then old(rooms)[roomId].(lastActivity := now)
                                          else RoomRow(roomId, now, now))
      ensures forall q | q != roomId :: GetRoomInfo(q) == old(GetRoomInfo(q))
    {
      rooms := Upserted(rooms, roomId, now);
    }

    /** `getRoomInfo`: the room's row, or nothing. */
    function GetRoomInfo(roomId: string): (info: Option<RoomRow>)
      reads this
      ensures info.Some? <==> roomId in rooms
      ensures info.Some? ==> info.value == rooms[roomId]
    {
      if roomId in rooms then Some(rooms[roomId]) else None
    }
  }
}
