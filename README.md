# Proctoring coordinator: room relay and distraction ledger

This Dafny project models the coordination core of a video-proctoring server.
A candidate's browser and one or more observer browsers meet in a *room*. The
room id is conventionally `<candidateName>-<sessionId>`. The server relays
connection-handshake messages between the members of a room. It also keeps a
table of per-session "distraction" events (joins, tab switches, submissions).

The model is one stateful component, `Server.Coordinator`. It holds five
pieces of state:

- `rooms`: the server's own registry, from room id to the set of connection
  handles that joined it.
- `lastRoom`: each connection's `socket.roomId`, the room it joined last.
- `sockets`: the transport's live connections, each with the set of
  transport rooms it joined. Broadcasts are addressed through these rooms.
- `rows` and `nextId`: the `distractions` table in insertion order, and the
  id the next insert receives.

The socket event handlers (`join`, `signal`, `submitted`, `request-offers`,
`disconnect`) and the ledger endpoints (`POST /api/events`,
`GET /api/events/:session_id`, `GET /api/submitted/:session_id`,
`GET /api/candidates`) are methods of the class. Each handler returns the
emit it would perform: an event, and the set of connections it reaches,
each exactly once. HTTP responses are `Result` values. The clock is a `now`
parameter. The pure parts are functions with lemmas, in four modules:

- `RoomIds`: room-id splitting and parsing.
- `Registry`: room enter/leave.
- `Relay`: recipients, and the invariant that ties the registry to the
  transport.
- `Ledger`: join detection, event rows, the submission update and the
  listings.

Behaviours of the code worth stating, since the room-id convention and the
handler names do not suggest them. The model follows the code in each:

- The session is segment 1 of the `-`-split, not all the text after the
  first delimiter. `alice-s1-x` gives session `s1`. An empty segment 1
  (`alice-`, `alice--x`) gives the default `sessionid`.
- `disconnect` emits `peer-left` whenever the last room still exists,
  including when the departure empties and deletes it. The emit then
  reaches nobody (`DisconnectLeavesLastRoomOnly`).
- `socket.roomId` is never cleared. The transport fires `disconnect`
  once per connection, so a second departure never happens; if it did,
  it would leave the registry as the first left it (`DepartIdempotent`).
- The disconnect handler does nothing when the last room is the empty
  string, because that value is falsy.
- A connection that joined several rooms is removed only from the last one.
  It stays registered in the earlier ones. Broadcasts skip it there,
  because the transport forgets a closed connection.
  (`OthersAreLiveMembers` states that broadcasts reach live members only.)
- `socket.to(room)` leaves out every connection in the transport room
  named by the sender's id, not just the sender. A connection that joined
  a room named after another connection's id stops receiving that
  connection's broadcasts to any room.
- `submitted` carries the room id. It does not carry the sender's id.
- `POST /api/events` rejects an empty string as well as a missing
  session id or candidate name (JavaScript truthiness). It binds
  omitted values as NULL, so a report without `startTime` has a NULL
  start time. The column default applies only when the column is left
  out of the INSERT. NULL sorts first ascending and last descending.

## Model

| member | source | states |
|---|---|---|
| `RoomIds.Split` | server.js:33-34 | `split("-")`: at least one segment, no segment contains the delimiter, and joining the segments with `-` gives back the input |
| `RoomIds.SplitJoinParts` | server.js:33-34 | splitting undoes joining for delimiter-free segments (the other half of the round trip) |
| `RoomIds.SplitAtFirstDelimiter` | server.js:33 | the text before the first `-` is segment 0, and the rest splits on its own |
| `RoomIds.ParseRoomId` | server.js:33-34 | the candidate is exactly the text before the first `-` (a delimiter-free prefix followed by `-` or the end); the session is never empty and has no `-` |
| `RoomIds.ParseComposedRoomId` | server.js:33-34 | `candidate-session[-…]` parses to that candidate and that session when the session segment is non-empty |
| `RoomIds.ParseBareRoomId` | server.js:33-34 | a room id without `-` is all candidate, with session `sessionid` |
| `RoomIds.ParseEmptySessionSegment` | server.js:34 | an empty segment 1 (`alice-`, `alice--x`) falls back to `sessionid` |
| `RoomIds.ParseExamples` | server.js:33-34 | `alice-s1` gives (`alice`, `s1`) and `alice` gives (`alice`, `sessionid`) |
| `Registry.Enter` | server.js:30-31 | after a join the handle is in the room, the room exists (created if absent), and every other room is unchanged |
| `Registry.Leave` | server.js:83-84 | the handle leaves the room; the room key remains exactly when members are left; no other room changes; nothing happens for an absent room |
| `Registry.EnterIdempotent` | server.js:30-31 | joining again with the same handle leaves the registry unchanged |
| `Registry.LeaveIdempotent` | server.js:83-84 | leaving twice is leaving once |
| `Registry.LeaveUndoesEnter` | server.js:30-84 | leaving undoes joining for a handle that was not a member, deleting a room the join created |
| `Registry.EnterLeaveKeepNoEmptyRooms` | server.js:30-84 | no room in the registry is ever empty |
| `Registry.RoomLifecycle` | server.js:28-87 | two handles join an absent room and both leave; the room has both members in between, and is absent at the end |
| `Relay.OthersAreLiveMembers` | server.js:54-85 | when the room id is not also a connection id, a `socket.to(room)` emit reaches exactly the live registry members of the room other than the sender and other than the live members of the room named by the sender's id |
| `Relay.HasTarget` | server.js:59 | `if (payload.target)`: a payload has a target exactly when its target is neither absent nor the empty string |
| `Relay.SignalRecipients` | server.js:59-62 | a signal goes only to live connections; without a target never to the sender; with a target to the target exactly when it is live |
| `Relay.TargetedSignalReachesTarget` | server.js:59-60 | when the target names no registry room, a signal with a target reaches exactly that target when it is live, and nobody when it is gone; it may be the sender and need not be in the room |
| `Relay.UntargetedSignalReachesOthers` | server.js:61-62 | when the room id is not also a connection id, a signal without a target reaches every live room member except the sender and the live members of the room named by the sender's id, and never the sender |
| `Relay.ConnectKeepsCoherent` | server.js:26 | a new connection keeps the registry and the transport rooms in agreement |
| `Relay.JoinKeepsCoherent` | server.js:28-54 | the join handler keeps the registry and the transport rooms in agreement |
| `Relay.DisconnectKeepsCoherent` | server.js:80-87 | the disconnect handler keeps the registry and the transport rooms in agreement, stale members included |
| `Relay.Depart` | server.js:81-84 | the registry side of disconnect, for a set, non-empty last room: the handle leaves it, its other members stay, and its key is deleted exactly when the handle was its last member. Every other room stays with the same members, and no room is added. With no last room, or an empty one, nothing changes |
| `Relay.DisconnectLeavesLastRoomOnly` | server.js:80-87 | for a handle whose last room is set and non-empty: disconnect removes the handle from that room only, keeps its other members, and deletes the room exactly when the handle was its last member; other rooms, including earlier ones it joined, are untouched; when the room is emptied and deleted and its id is not a connection id, its `peer-left` reaches nobody |
| `Relay.DepartIdempotent` | server.js:80-87 | a second departure of the same connection, which the transport never triggers, would leave the registry as the first left it |
| `Ledger.HasSession` | server.js:215-227 | the existence check is true exactly when some row has the session id |
| `Ledger.SessionCount` | server.js:186-195 | `this.changes` counts rows of the session: at most the table size, and equal to it exactly when every row has that session |
| `Ledger.SessionCountZeroIffAbsent` | server.js:186-196 | the update matches zero rows exactly when no row has the session id |
| `Ledger.RecordJoin` | server.js:36-47 | the join only appends: one row exactly when the candidate is non-empty and no row has the session, and that row is an unsubmitted `JOINED` row with the next id, the candidate, the session and the join time, with no end time or duration |
| `Ledger.RecordJoinOnce` | server.js:36-47 | once a join with a non-empty candidate is recorded for a session, a later sequential join of that session adds no row |
| `Ledger.FirstJoinRecordsOneRow` | server.js:36-47 | the first join of a session with a non-empty candidate leaves exactly one row for it, a `JOINED` row |
| `Ledger.RecordJoinKeepsJoinedUnique` | server.js:36-47 | sequential joins never raise any session's `JOINED` count above one |
| `Server.BareRoomIdsShareOneJoinedRow` | server.js:33-47 | room ids without `-` all get the session `sessionid`, so after one such candidate's join is recorded, a bare-id join of any other candidate adds no row |
| `Ledger.AppendKeepsWellNumbered` | db-setup.js:20 | an insert numbered with the next AUTOINCREMENT id keeps ids ascending in insertion order and below the next id |
| `Ledger.Truthy` | server.js:159 | a field passes the check exactly when it is neither absent nor the empty string |
| `Ledger.ValidReport` | server.js:159-161 | a report passes the 400 check exactly when neither the session id nor the candidate name is absent or empty |
| `Ledger.ReportRow` | server.js:158-163 | the inserted row carries the reported fields, has `is_submit` false, and takes the given id |
| `Ledger.MarkSubmitted` | server.js:186 | the update flags every row of the session, and only those; no other column of any row changes |
| `Ledger.MarkSubmittedKeepsSessionCount` | server.js:186-199 | the update matches the same rows afterwards, so a second submission succeeds |
| `Ledger.MarkSubmittedIdempotent` | server.js:186 | submitting twice leaves the table as submitting once |
| `Ledger.UpdateSubmitted` | server.js:186-195 | the row-by-row update produces the flagged table and reports the number of rows of the session as `changes` |
| `Ledger.Where` | server.js:177 | the WHERE clause keeps each selected row with its multiplicity and drops every other row |
| `Ledger.InsertByStart` | server.js:177 | inserting into a sorted listing gives a sorted listing with the row added |
| `Ledger.SortByStart` | server.js:177 | ORDER BY start_time gives a listing sorted by start time that is a permutation of its input |
| `Ledger.ListEvents` | server.js:177 | a session's timeline is sorted by start time ascending and is a permutation of exactly the session's rows |
| `Ledger.ListCandidates` | server.js:206 | the roster is sorted by start time descending and is a permutation of exactly the `JOINED` rows |
| `Ledger.SortedListingIsUnique` | server.js:177 | with distinct start times, two sorted arrangements of the same rows are identical |
| `Ledger.ListEventsOrderIsDetermined` | server.js:175-180 | with distinct start times, the timeline is the unique ascending arrangement of the session's rows, whatever order they were inserted in |
| `Server.Coordinator.constructor` | server.js:24 | the server starts with no rooms and no connections over an existing, well-numbered table |
| `Server.Coordinator.Connect` | server.js:26 | a new connection is live and has joined no room; nothing else changes |
| `Server.Coordinator.Join` | server.js:28-55 | sets the last room, enters the room, and records the join for the parsed candidate and session. The `peer-joined` notice goes to the live members other than the joiner and the members of the room named by the joiner's id, carrying the joiner's id and the candidate name |
| `Server.Coordinator.RecordJoinRow` | server.js:36-47 | check-then-insert: a `JOINED` row with the next id is appended exactly when no row of the session exists |
| `Server.Coordinator.Signal` | server.js:58-64 | a targeted signal goes to the transport room named by the target (the target alone when that names a live connection and no room). An untargeted one goes to the room's other live members, less the members of the room named by the sender's id. Both carry the sender's id and the payload |
| `Server.Coordinator.Submitted` | server.js:70-72 | the notice goes to the room's other live members, less the members of the room named by the sender's id, and carries the room id |
| `Server.Coordinator.RequestOffers` | server.js:75-77 | `send-offer-to-late-joiner` goes to every other live member once, except members of the room named by the requester's id, never to the requester, and carries the requester's id |
| `Server.Coordinator.Disconnect` | server.js:80-87 | the transport forgets the connection. The registry leaves the last room, if that room is set and exists, and `peer-left` with the handle's id goes to the remaining live members, less the members of the room named by the handle's id. Otherwise nothing changes and nothing is emitted |
| `Server.Coordinator.PostEvent` | server.js:157-172 | returns 400, with the table unchanged, exactly when the session id or candidate name is missing or empty. Otherwise it appends exactly one row, `is_submit` false, and returns an id larger than every earlier id |
| `Server.Coordinator.GetEvents` | server.js:175-181 | returns the session's timeline |
| `Server.Coordinator.MarkSession` | server.js:183-201 | flags every row of the session and nothing else. It returns 404 exactly when the session has no rows |
| `Server.Coordinator.GetCandidates` | server.js:205-210 | returns the roster of `JOINED` rows |

## Left out

- The transport (socket.io), the HTTP framework, CORS, static file serving, `server.listen` and logging. Each handler returns its emit and its response as values. Delivery itself is the transport's job.
- The chunk upload, `/upload/finish` and `/video/:filename` endpoints: these are file appends, file streaming and range parsing, all file I/O.
- The periodic upload-directory sweep (scheduler.js), which is file-system I/O. Opening the SQLite database and creating the table (db-setup.js); only the table's column list is used, as the row datatype.
- Storage failures (the 500 responses, and the logged insert error of the join path). The table is an in-memory sequence that cannot fail.
- Interleaving. Each handler runs atomically. The source awaits the existence check before inserting and before `socket.join`, so two concurrent joins of one session can both insert a `JOINED` row. The join-uniqueness lemmas hold for sequential joins only. Also, `POST /api/events` with event name `JOINED` (server.js:162-163) appends another `JOINED` row, so "at most one `JOINED` row per session" is not an invariant of the table, and `RecordJoinKeepsJoinedUnique` assumes it of the table it starts from.
- The debug `test` event, which broadcasts to every connection.
- Real time. `now` is a parameter of `Join`.
- Room ids and payload fields of other JavaScript types. `roomId` is always a string here, so the `roomId?.` undefined case is not modelled, and neither is a missing `payload`, which would throw. Report fields are strings or integers or absent, never another type.
- The registry as a JavaScript object: a room id equal to an inherited property name (such as `constructor`) is not modelled. The registry is a map.
- Column projections. The two listings return whole rows, not the selected columns.
- Server.Coordinator.GetEvents: the tie order of rows with equal start times is unspecified in SQLite. The model sorts stably, and the contracts state only sortedness and permutation, plus determinacy when start times are distinct.
- Server.Coordinator.GetCandidates: likewise, the order of rows with equal start times is not stated.
- Start times are integers or NULL. SQLite's ordering of mixed text and integer values is not modelled.
- Server.Coordinator.Signal: when the target names both a live connection and a room, the contract says only that the emit goes to that transport room. It does not work out that room's members.
- Server.Coordinator.Join, Submitted, RequestOffers and Disconnect: the reduction of the recipients to the room's live registry members is stated only for room ids that are not also connection ids. The general statement is the transport room itself, less the transport room named by the sender's id.
- `socket.to` follows the socket.io 4 broadcast operator, which excludes the room named by the sender's id; the socket.io version is not pinned in server.js, and socket.io 2 excluded only the sender.
