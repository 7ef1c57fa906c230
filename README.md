# Collaborative whiteboard relay: a Dafny model

This project models the server core of a real-time collaborative drawing board, plus one
unrelated text-layout function from the same repository.

- **Room registry and event relay** (backend/server.js). The in-memory `rooms` map
  (room id → set of socket ids) and `users` map (socket id → user id and room).
  There is one handler per Socket.IO event: `connection`, `request-strokes`, `join-room`,
  `stroke`, `clear-canvas`, `delete-stroke` and `disconnect`. Each handler is a method
  of `Relay.RelayServer`. It returns the events it sends, each with the exact set of
  sockets that receive it and its delay.
- **Stroke store** (backend/database.js). The `strokes` table keeps rows in row-id order
  under an AUTOINCREMENT counter. The `rooms` table is keyed by room id. The six operations
  the server uses are methods of `StrokeStore.Store`. Each is specified by pure functions:
  `Select` for a WHERE clause, `StrokesForRoom` for the ordered listing, and `Upserted`
  for the rooms-table upsert.
- **Paragraph box** (aa.py, `solution`). Words are wrapped greedily to a width, and each
  line is padded left or right and framed by asterisks. The source's nested loops are two
  methods, `Solution` for the outer loop and `WrapParagraph` for the inner one, with
  `FrameLine` for the block the source writes twice; `Solution` is proved equal to a
  recursive specification. Lemmas state what that layout
  promises.

The registry invariant `Registry.Consistent` says two things. `rooms` is exactly the
membership index derived from `users`, with no empty room. And every recorded room id is
non-empty. Every handler that changes the registry preserves it.

Files: `wrappers.dfy` (Option), `stroke_store.dfy`, `registry.dfy`, `relay.dfy`,
`box_layout.dfy`.

## Model

| member | source | states |
|---|---|---|
| StrokeStore.Select | backend/database.js:67-73 | The rows a WHERE clause keeps (or, with `keep` false, the rows DELETE leaves). Each is a table row on which the clause has the given value, and every such row is kept. |
| StrokeStore.SelectAppend | backend/database.js:67-73 | Filtering distributes over concatenation of tables, so an appended row is filtered on its own. |
| StrokeStore.SelectPartition | backend/database.js:94-108 | A clause and its negation split the table. The rows removed plus the rows kept are the table, as multisets and in number. |
| StrokeStore.SelectAll | backend/database.js:101-108 | When every row gives the clause the same value, the selection is the whole table. |
| StrokeStore.SelectWellFormed | backend/database.js:20-30 | Deleting rows keeps ids positive, increasing and at most the AUTOINCREMENT counter. |
| StrokeStore.Insert | backend/database.js:70 | Inserting one stroke into a list adds exactly that stroke (multiset). |
| StrokeStore.InsertOrdered | backend/database.js:70 | Inserting into a list sorted by `createdAt` keeps it sorted. |
| StrokeStore.SortByCreated | backend/database.js:70 | `ORDER BY created_at ASC`: the output is a permutation of the input and is non-decreasing in `createdAt`. |
| StrokeStore.StrokesForRoom | backend/database.js:65-91 | `getStrokesForRoom` returns a listing non-decreasing in `createdAt`. |
| StrokeStore.StrokesForRoomExact | backend/database.js:67-86 | With no corrupt row in room r, the listing holds exactly room r's rows, each once, and nothing from another room. |
| StrokeStore.StrokesForRoomCorrupt | backend/database.js:87-90 | A single room-r row whose points fail to parse makes the whole listing empty. |
| StrokeStore.MissingColumn | backend/database.js:20-30 | An insert fails a NOT NULL constraint exactly when points, color or width is undefined. The failing column reported is the first one in table order. |
| StrokeStore.AppendWellFormed | backend/database.js:21 | A row appended under the next counter value keeps ids increasing and bounded by the counter. |
| StrokeStore.SaveThenList | backend/database.js:45-91 | Round trip: a saved stroke is listed for its room exactly once, provided the room has no corrupt row. |
| StrokeStore.ClearRoomEffect | backend/database.js:94-98 | After `clearRoom(r)` the room lists nothing. The rows kept are the table minus room r's rows, and the count returned is the number of rows room r had. |
| StrokeStore.ClearKeepsOtherRoom | backend/database.js:94-98 | Clearing room r leaves the rows and listing of every other room unchanged. |
| StrokeStore.DeleteStrokeEffect | backend/database.js:101-108 | `deleteStroke` removes exactly the rows matching room, user and creation time. No kept row matches, the count is the number removed, and with no match the table is unchanged. |
| StrokeStore.Upserted | backend/database.js:111-119 | Upsert of the rooms table. An absent room is inserted with both timestamps `now`. A present room has only `last_activity` moved to `now`. Every other room is unchanged. |
| StrokeStore.Store.Open | backend/database.js:19-36 | A connection over well-formed tables, holding them unchanged. |
| StrokeStore.Store.SaveStroke | backend/database.js:45-62 | Success: appends the row under id counter+1, which is larger than every existing id, and returns that id. NOT NULL failure: reports the column and leaves the database untouched. |
| StrokeStore.Store.ClearRoom | backend/database.js:94-98 | The table becomes the rows outside the room. The number deleted is returned. |
| StrokeStore.Store.DeleteStroke | backend/database.js:101-108 | The table becomes the rows not matching (room, user, createdAt). The number deleted is returned. |
| StrokeStore.Store.UpdateRoomActivity | backend/database.js:111-119 | The rooms table becomes the upsert at `now`. Strokes are unchanged. Read back through `getRoomInfo`: the room is then present, with both stamps `now` if it was new and only `last_activity` moved to `now` otherwise, and every other room's lookup is unchanged. |
| StrokeStore.Store.GetRoomInfo | backend/database.js:111-125 | The lookup the join handler makes before it upserts. Its partner is `Store.UpdateRoomActivity`, whose contract states the lookup after the upsert: the room's row with `last_activity` at `now` (both stamps `now` for a room that was absent), and the lookup of every other room as before. |
| Registry.IndexMatchesIffDerived | backend/server.js:49-50 | The index half of the handlers' invariant (`IndexMatches`) holds exactly when `rooms` equals the membership index computed from `users`. |
| Registry.MembersMatch | backend/server.js:49-50 | Under the invariant, the sockets in a room's set are exactly those whose `users` entry names that room. |
| Registry.JoinKeepsConsistent | backend/server.js:182-212 | A join to a non-empty room id preserves the registry invariant: leave the old room, prune it, enter the new one, record the user. |
| Registry.DisconnectKeepsConsistent | backend/server.js:330-350 | Disconnect preserves the registry invariant. |
| Registry.JoinedRoomSize | backend/server.js:204-207 | After a join, the room holds its former members and the joiner. Its size grows by one for a newcomer and not at all for a member who rejoins. |
| Registry.SwitchLeavesOldRoom | backend/server.js:183-199 | Switching rooms removes the socket from its old room and drops that room when empty. Every other room is unchanged. |
| Registry.RejoinKeepsRooms | backend/server.js:183-207 | Rejoining the room a socket is already in leaves `rooms` exactly as it was. |
| Registry.DisconnectEffect | backend/server.js:330-350 | Disconnect removes the socket from every room. Its room shrinks by it and is dropped when empty; no other room changes. A socket that never joined changes nothing. |
| Registry.JoinThenDisconnect | backend/server.js:327-351 | A socket with no `users` entry that joins a room and then disconnects leaves `rooms` as it found it, with no leaked empty room. |
| Relay.Or | backend/server.js:210 | `a \|\| b` on a string: an undefined or empty `a` yields `b`; otherwise the result is `a`. |
| Relay.OrNumber | backend/server.js:262 | `a \|\| b` on a number: an undefined or zero `a` yields `b`; otherwise the result is `a`. |
| Relay.JoinRepliesAddressing | backend/server.js:224-246 | A join sends three events. `room-joined` goes to the joiner only, and the 3500 ms `load-strokes` snapshot to the joiner only. `user-joined` goes to the room's prior members except the joiner. Both counts are the room's size after the join. |
| Relay.SwitchIsSilentToOldRoom | backend/server.js:182-199 | Moving to another room sends nothing to the members left behind in the old room. |
| Relay.RecipientsAreRoomMembers | backend/server.js:272-319 | `io.to(q)` reaches exactly the sockets `users` places in q, and `socket.to(q)` those minus the sender. A socket in another room receives nothing. |
| Relay.ForeignTargetSkipsSender | backend/server.js:283-294 | `clear-canvas` aimed at a room other than the sender's does not reach the sender. |
| Relay.LeaveNoticeAddressing | backend/server.js:330-341 | On disconnect, `user-left` goes to exactly the members remaining in the room and carries their number. A socket that never joined sends nothing. |
| Relay.RelayServer.constructor | backend/server.js:49-50 | The server starts with empty maps over a valid store. |
| Relay.RelayServer.OnConnect | backend/server.js:147-155 | `connection-status` with the socket's id goes to that socket only. |
| Relay.RelayServer.OnRequestStrokes | backend/server.js:158-171 | The named room's listing, else the sender's room's listing, goes to the sender. Nothing is sent when there is no target room. |
| Relay.RelayServer.OnJoinRoom | backend/server.js:174-247 | A missing or empty room id gets an error to the sender and changes nothing. Otherwise: the registry update; the rooms-table upsert; the history snapshot; the three emissions. If `createPage` throws, the model returns the state at the throw: the registry already updated, no upsert and no emission; the process exit that follows in the source is not modelled. On every path that returns the invariant is kept. |
| Relay.RelayServer.LeavePreviousRoom | backend/server.js:182-199 | Leaves the previous room only when one is recorded and it differs from the new room. |
| Relay.RelayServer.EnterRoom | backend/server.js:201-212 | Adds the socket to the room, creating the room's set when absent, and records user id and room. |
| Relay.RelayServer.OnStroke | backend/server.js:250-277 | A sender without a room: nothing. Otherwise the stroke is saved under the sender's room, defaulting userId and createdAt per `\|\|`. Activity is stamped only when the insert succeeds. The payload plus sender id goes to the rest of the room either way. |
| Relay.RelayServer.OnClearCanvas | backend/server.js:280-296 | A sender without a room: nothing. Otherwise the target room's rows are deleted, and `canvas-cleared` goes to every member of the target room; the sender is among them only when that is its own room. |
| Relay.RelayServer.OnDeleteStroke | backend/server.js:299-324 | A sender without a room: nothing. Otherwise the rows matching (room, userId, createdAt) are deleted, and `stroke-deleted` goes to every member of the target room. |
| Relay.RelayServer.OnDisconnect | backend/server.js:327-351 | The socket leaves its room (dropped when empty) and its `users` entry goes. `user-left` goes to the remaining members. The invariant is kept. |
| BoxLayout.RepeatShape | aa.py:22 | `c * n`: n copies of the character, or the empty string when n is not positive. |
| BoxLayout.LinesIndex | aa.py:26 | One framed line per line group, in order. |
| BoxLayout.Solution | aa.py:1-45 | The nested loops compute exactly `Layout`: a border, each paragraph's framed lines, a border. |
| BoxLayout.WrapParagraph | aa.py:8-42 | The inner loop produces one framed line per greedy line group of the paragraph, in order. |
| BoxLayout.FrameLine | aa.py:18-26 | A finished line is joined with spaces, padded to the width per alignment, and framed by `*`. |
| BoxLayout.WrapKeepsWords | aa.py:11-31 | The line groups hold the paragraph's words in order, none lost or repeated, and no group is empty. |
| BoxLayout.WrapOverlongIsSingle | aa.py:17-31 | Only a line holding a single word can be wider than the width. |
| BoxLayout.WrapIsGreedy | aa.py:12-28 | Every line after the first starts only because its first word, after a space, did not fit on the line before. |
| BoxLayout.WrapFits | aa.py:11-31 | When no word is wider than the width, every line's text fits within it. |
| BoxLayout.RenderShape | aa.py:18-26 | A framed line starts and ends with `*`. It is exactly width+2 long when its text fits. |
| BoxLayout.RenderAlignment | aa.py:21-24 | "LEFT" puts the text right after the opening `*` with only spaces after it. Any other value puts only spaces before the text, which ends at the closing `*`. |
| BoxLayout.LayoutSize | aa.py:3-44 | The box is two borders of width+2 asterisks around one line per line group. An empty paragraph contributes no line. |
| BoxLayout.BodyFramed | aa.py:26-42 | Every line between the borders starts and ends with `*`. |
| BoxLayout.BodyWidth | aa.py:19-42 | When no word is wider than the width, every line between the borders is exactly width+2 long. |

## Left out

- The HTTP routes, CORS, TLS setup, server start-up and the `close` operation. The `/health` and `/` routes only read `users.size` and `rooms.size` (backend/server.js:57-58, 68-69). The page routes call `db.getAllPages`, `db.createPage` and `db.deletePage` (backend/server.js:81, 98, 109, 126), which backend/database.js does not define, so as written each call throws into its route's `catch`. No route changes the registry or the tables.
- Console logging: it has no effect on state or replies.
- Socket.IO transport: `socket.join` and `socket.leave` are taken to mirror the `rooms` map. Delivery is the recipient set of each emission. Socket.IO also puts every socket in a room named by its own id, so a client that names another socket's id as its room reaches that socket: through `socket.to(roomId)` at backend/server.js:243, 272 and 338, and through `io.to(id)` at backend/server.js:291 and 313. The model's recipient sets leave those implicit rooms out.
- The `setTimeout` of the join replay: it is the emission's `delayMs` (3500). The snapshot is taken when the join is handled, as the source does. The order in which other events interleave before the timer fires is not modelled.
- `db.createPage`: it is not defined in backend/database.js, so it is not part of this model. Whether it returns or throws is the `createPageReturns` parameter of `OnJoinRoom`. As written, backend/database.js does not export `createPage` (backend/database.js:43-133), so the call at backend/server.js:219 throws a TypeError on the first join to a room with no rooms-table row; the `createPageReturns == true` path models a database that defines it. Nothing catches the throw: there is no `try` at backend/server.js:217-221 and no process-level handler, so under Node's default the process exits and the `rooms` and `users` maps are lost. The throw branch of `OnJoinRoom` models only the handler's effects up to the throw, not that exit. Any effect `createPage` has on the tables is not modelled.
- `Date.now()`: it is the `now` parameter. `OnStroke` uses the same `now` for the default `createdAt` and for the activity stamp, where the source reads the clock twice.
- JSON: `JSON.stringify` and `JSON.parse` of the points are not modelled. The points are kept as opaque text, with one flag per row saying whether the parse succeeds.
- The `timestamp` column of `strokes`: it is never read.
- SQL ties under `ORDER BY created_at`: SQLite leaves their order unspecified. The model keeps row order.
- OnDeleteStroke, OnClearCanvas: the store's operations other than `saveStroke` are taken never to fail, and every payload field is taken to have the type its datatype gives it (`JoinRequest`, `StrokesRequest`, `StrokeData`, `ClearRequest` and `DeleteRequest` in relay.dfy). In the source, `clearRoom`, `deleteStroke`, `getRoomInfo` and `updateRoomActivity` can throw, on an engine fault or on a value the driver cannot bind, such as a boolean or object `userId` or `createdAt`. Each handler then behaves as follows, and the model does not represent it. In `delete-stroke` the emit is inside the `try` (backend/server.js:307-322), so a failed delete sends no `stroke-deleted`. In `clear-canvas` the emit follows the `try` (backend/server.js:285-291), so `canvas-cleared` still goes out after a failed delete. In `join-room` the `getRoomInfo` and `updateRoomActivity` calls (backend/server.js:217, 221) are outside any `try`, so a throw there escapes the handler, as the `createPage` one does.
- Binding `undefined` in SQL: it is taken to bind NULL. So `deleteStroke` with an undefined user or creation time matches no row. In `saveStroke`, a NOT NULL violation on points, color or width is the only failure modelled.
- Skipping corrupt strokes one by one: the code empties the whole room's listing when one stroke's points fail to parse (backend/database.js:87-90), and the model does the same (`StrokesForRoomCorrupt`).
- `BoxLayout.Solution`: it requires at least as many alignments as paragraphs. The source raises IndexError otherwise; that error path is not modelled.
- The `__main__` demonstration block of aa.py: it only prints.
- Concurrency and the event loop: each handler is one atomic method call.
- A missing payload: `OnRequestStrokes`, `OnJoinRoom`, `OnStroke`, `OnClearCanvas` and `OnDeleteStroke` take a payload object with possibly undefined fields. An undefined or null `data` itself is not modelled. In the source, destructuring or reading `data.roomId` (backend/server.js:159, 175, 283, 302) then throws a TypeError out of the handler; nothing catches it, so as with `createPage` the process exits, and the model does not represent that exit. In `stroke`, reading `data.userId` throws inside the `try` (backend/server.js:257): nothing is saved, no activity is stamped, and the spread `{...data, socketId}` is still relayed.
- Extra stroke fields: the spread `...data` (backend/server.js:272-275) relays every field the client sent. `StrokeData` represents only userId, points, color, width and createdAt, so any other field is relayed by the source but absent from `StrokeRelayed`.
