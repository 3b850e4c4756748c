/**
 * The coordinator: one object holding the state the socket handlers and the
 * ledger endpoints of the server share — the room registry, each
 * connection's last room (`socket.roomId`), the transport's live connections
 * and their rooms, and the `distractions` table. Each handler runs to
 * completion before the next one starts.
 *
 * Under real interleaving the join handler awaits the existence check before
 * inserting, so two joins of one session can both see no row and both insert
 * a `JOINED` row; running each handler atomically, as here, rules that out.
 */
module Server {
  import opened Wrappers
  import opened Registry
  import opened Relay
  import opened Ledger
  import RoomIds

  class Coordinator {
    var rooms: Rooms
    var lastRoom: LastRoom
    var sockets: Sockets
    var rows: seq<Row>
    var nextId: nat

    ghost predicate Valid()
      reads this
    {
      Coherent(rooms, lastRoom, sockets) && WellNumbered(rows, nextId)
    }

    /** A freshly started server over an existing table. */
    constructor (table: seq<Row>, next: nat)
      requires WellNumbered(table, next)
      ensures Valid()
      ensures rooms == map[] && lastRoom == map[] && sockets == map[]
      ensures rows == table && nextId == next
    {
      rooms, lastRoom, sockets := map[], map[], map[];
      rows, nextId := table, next;
    }

    /** A new connection: it is live and has joined no room. */
    method Connect(handle: Handle)
      requires Valid()
      requires handle !in sockets && handle !in lastRoom
      modifies this
      ensures Valid()
      ensures sockets == old(sockets)[handle := {}]
      ensures rooms == old(rooms) && lastRoom == old(lastRoom)
      ensures rows == old(rows) && nextId == old(nextId)
    {
      ConnectKeepsCoherent(rooms, lastRoom, sockets, handle);
      sockets := sockets[handle := {}];
    }

    /**
     * `join`: record the room as the connection's last, add the connection to
     * it (creating it if absent), record a `JOINED` row when the parsed
     * candidate name is non-empty and the parsed session has no row, join the
     * transport room, and announce the joiner to the room's other members.
     */
    method Join(handle: Handle, roomId: string, now: int) returns (emit: Emit)
      requires Valid()
      requires handle in sockets
      modifies this
      ensures Valid()
      ensures rooms == Enter(old(rooms), roomId, handle)
      ensures lastRoom == old(lastRoom)[handle := roomId]
      ensures sockets == old(sockets)[handle := old(sockets)[handle] + {roomId}]
      ensures var key := RoomIds.ParseRoomId(roomId);
              rows == RecordJoin(old(rows), old(nextId), key.candidateName, key.sessionId, now)
      ensures nextId == old(nextId) + (|rows| - |old(rows)|)
      ensures emit.event == PeerJoined(handle, RoomIds.ParseRoomId(roomId).candidateName)
      ensures emit.recipients == ToOthers(sockets, roomId, handle)
      ensures roomId !in sockets ==> emit.recipients == LiveMembers(rooms, sockets, roomId) - LiveMembers(rooms, sockets, handle) - {handle}
    {
      JoinKeepsCoherent(rooms, lastRoom, sockets, handle, roomId);
      lastRoom := lastRoom[handle := roomId];
      var members := if roomId in rooms then rooms[roomId] else {};
      rooms := rooms[roomId := members + {handle}];

      var key := RoomIds.ParseRoomId(roomId);
      if key.candidateName != "" {
        RecordJoinRow(key.candidateName, key.sessionId, now);
      }

      sockets := sockets[handle := sockets[handle] + {roomId}];
      emit := Emit(ToOthers(sockets, roomId, handle), PeerJoined(handle, key.candidateName));
      if roomId !in sockets {
        OthersAreLiveMembers(rooms, lastRoom, sockets, roomId, handle);
      }
    }

    /**
     * `checkSessionExists` followed by the `JOINED` insert: append a `JOINED`
     * row unless some row of the session already exists.
     */
    method RecordJoinRow(candidateName: string, sessionId: string, now: int)
      requires WellNumbered(rows, nextId)
      requires candidateName != ""
      modifies this`rows, this`nextId
      ensures WellNumbered(rows, nextId)
      ensures rows == RecordJoin(old(rows), old(nextId), candidateName, sessionId, now)
      ensures nextId == old(nextId) + (|rows| - |old(rows)|)
    {
      var isExist := HasSession(rows, sessionId);
      if !isExist {
        var row := JoinedRow(nextId, sessionId, candidateName, now);
        AppendKeepsWellNumbered(rows, nextId, row);
        rows := rows + [row];
        nextId := nextId + 1;
      }
    }

    /**
     * `signal`: relay the payload, with the sender's id, to the target alone
     * when one is given, otherwise to every other member of `roomId`.
     */
    method Signal(handle: Handle, roomId: string, payload: Payload) returns (emit: Emit)
      requires Valid()
      requires handle in sockets
      ensures emit.event == Relay.Signal(handle, payload)
      ensures HasTarget(payload) ==> emit.recipients == TransportRoom(sockets, payload.target.value)
      ensures HasTarget(payload) && payload.target.value !in rooms ==>
                emit.recipients == if payload.target.value in sockets then {payload.target.value} else {}
      ensures !HasTarget(payload) ==> emit.recipients == ToOthers(sockets, roomId, handle)
      ensures !HasTarget(payload) && roomId !in sockets ==>
                emit.recipients == LiveMembers(rooms, sockets, roomId) - LiveMembers(rooms, sockets, handle) - {handle}
    {
      emit := Emit(SignalRecipients(sockets, handle, roomId, payload), Relay.Signal(handle, payload));
      if HasTarget(payload) && payload.target.value !in rooms {
        TargetedSignalReachesTarget(rooms, lastRoom, sockets, handle, roomId, payload);
      }
      if !HasTarget(payload) && roomId !in sockets {
        UntargetedSignalReachesOthers(rooms, lastRoom, sockets, handle, roomId, payload);
      }
    }

    /** `submitted`: tell every other member of `roomId`; the notice carries the room id. */
    method Submitted(handle: Handle, roomId: string) returns (emit: Emit)
      requires Valid()
      requires handle in sockets
      ensures emit.event == Relay.Submitted(roomId)
      ensures emit.recipients == ToOthers(sockets, roomId, handle)
      ensures roomId !in sockets ==> emit.recipients == LiveMembers(rooms, sockets, roomId) - LiveMembers(rooms, sockets, handle) - {handle}
    {
      emit := Emit(ToOthers(sockets, roomId, handle), Relay.Submitted(roomId));
      if roomId !in sockets {
        OthersAreLiveMembers(rooms, lastRoom, sockets, roomId, handle);
      }
    }

    /** `request-offers`: ask every other member of `roomId` to offer a connection to the requester. */
    method RequestOffers(handle: Handle, roomId: string) returns (emit: Emit)
      requires Valid()
      requires handle in sockets
      ensures emit.event == SendOfferToLateJoiner(handle)
      ensures emit.recipients == ToOthers(sockets, roomId, handle)
      ensures roomId !in sockets ==> emit.recipients == LiveMembers(rooms, sockets, roomId) - LiveMembers(rooms, sockets, handle) - {handle}
    {
      emit := Emit(ToOthers(sockets, roomId, handle), SendOfferToLateJoiner(handle));
      if roomId !in sockets {
        OthersAreLiveMembers(rooms, lastRoom, sockets, roomId, handle);
      }
    }

    /**
     * `disconnect`: the transport forgets the connection; when its last room
     * is set, non-empty and still registered, it leaves that room (deleting
     * the room if it empties) and `peer-left` goes to the room; otherwise
     * nothing is emitted. Earlier rooms it joined keep it.
     */
    method Disconnect(handle: Handle) returns (emit: Option<Emit>)
      requires Valid()
      requires handle in sockets
      modifies this
      ensures Valid()
      ensures sockets == old(sockets) - {handle}
      ensures rooms == Depart(old(rooms), old(lastRoom), handle)
      ensures lastRoom == old(lastRoom) && rows == old(rows) && nextId == old(nextId)
      ensures emit.Some? <==>
                handle in lastRoom && lastRoom[handle] != "" && lastRoom[handle] in old(rooms)
      ensures emit.Some? ==>
                emit.value == Emit(ToOthers(sockets, lastRoom[handle], handle), PeerLeft(handle))
      ensures emit.Some? && lastRoom[handle] !in sockets ==>
                emit.value.recipients == LiveMembers(rooms, sockets, lastRoom[handle]) - LiveMembers(rooms, sockets, handle)
    {
      DisconnectKeepsCoherent(rooms, lastRoom, sockets, handle);
      sockets := sockets - {handle};
      if handle in lastRoom && lastRoom[handle] != "" && lastRoom[handle] in rooms {
        var roomId := lastRoom[handle];
        var rest := rooms[roomId] - {handle};
        if rest == {} {
          rooms := rooms - {roomId};
        } else {
          rooms := rooms[roomId := rest];
        }
        emit := Some(Emit(ToOthers(sockets, roomId, handle), PeerLeft(handle)));
        if roomId !in sockets {
          OthersAreLiveMembers(rooms, lastRoom, sockets, roomId, handle);
        }
      } else {
        emit := None;
      }
    }

    /**
     * `POST /api/events`: 400 when the session id or the candidate name is
     * missing or empty, leaving the table as it was; otherwise one row is
     * appended and its id, larger than every earlier id, is returned.
     */
    method PostEvent(report: EventReport) returns (result: Result<nat, HttpError>)
      requires Valid()
      modifies this
      ensures Valid()
      ensures rooms == old(rooms) && lastRoom == old(lastRoom) && sockets == old(sockets)
      ensures !ValidReport(report) ==>
                result == Failure(BadRequest) && rows == old(rows) && nextId == old(nextId)
      ensures ValidReport(report) ==>
                && result == Success(old(nextId))
                && rows == old(rows) + [ReportRow(old(nextId), report)]
                && nextId == old(nextId) + 1
      ensures result == Failure(BadRequest) <==>
                report.sessionId in {None, Some("")} || report.candidateName in {None, Some("")}
      ensures result.Success? ==> forall i | 0 <= i < |old(rows)| :: old(rows)[i].id < result.value
    {
      if !Truthy(report.sessionId) || !Truthy(report.candidateName) {
        result := Failure(BadRequest);
        return;
      }
      var row := ReportRow(nextId, report);
      AppendKeepsWellNumbered(rows, nextId, row);
      rows := rows + [row];
      result := Success(nextId);
      nextId := nextId + 1;
    }

    /** `GET /api/events/:session_id`. */
    method GetEvents(sessionId: string) returns (listing: seq<Row>)
      ensures listing == ListEvents(rows, sessionId)
    {
      listing := ListEvents(rows, sessionId);
    }

    /**
     * `GET /api/submitted/:session_id`: flag every row of the session as
     * submitted, counting the rows the update matched; 404 when it matched
     * none, so exactly when the session has no rows.
     */
    method MarkSession(sessionId: string) returns (result: Result<string, HttpError>)
      requires Valid()
      modifies this
      ensures Valid()
      ensures rooms == old(rooms) && lastRoom == old(lastRoom) && sockets == old(sockets)
      ensures nextId == old(nextId)
      ensures rows == MarkSubmitted(old(rows), sessionId)
      ensures result == if HasSession(old(rows), sessionId) then Success(sessionId) else Failure(NotFound)
    {
      var table, changes := UpdateSubmitted(rows, sessionId);
      MarkSubmittedKeepsWellNumbered(rows, nextId, sessionId);
      SessionCountZeroIffAbsent(rows, sessionId);
      rows := table;
      if changes == 0 {
        result := Failure(NotFound);
      } else {
        result := Success(sessionId);
      }
    }

    /** `GET /api/candidates`. */
    method GetCandidates() returns (listing: seq<Row>)
      ensures listing == ListCandidates(rows)
    {
      listing := ListCandidates(rows);
    }
  }

  /**
   * Room ids without a `-` all fall into the default session, so once one
   * such candidate's join has been recorded, a later bare-id join of any
   * other candidate adds no `JOINED` row.
   */
  lemma BareRoomIdsShareOneJoinedRow(rows: seq<Row>, nextId: nat, first: string, second: string, now: int, now': int)
    requires RoomIds.Delimiter !in first && RoomIds.Delimiter !in second && first != ""
    ensures var k1 := RoomIds.ParseRoomId(first);
            var k2 := RoomIds.ParseRoomId(second);
            var once := RecordJoin(rows, nextId, k1.candidateName, k1.sessionId, now);
            && k1.sessionId == k2.sessionId == RoomIds.DefaultSession
            && RecordJoin(once, nextId + 1, k2.candidateName, k2.sessionId, now') == once
  {
    RoomIds.ParseBareRoomId(first);
    RoomIds.ParseBareRoomId(second);
    RecordJoinOnce(rows, nextId, first, RoomIds.DefaultSession, now, nextId + 1, second, now');
  }
}
