/**
 * The signaling relay: which connections each handler's emit reaches.
 *
 * Deliveries are addressed through the transport's rooms, not through the
 * registry map: `socket.to(name)` reaches every live connection in the
 * transport room `name` except those in the transport room named by the
 * sender's id (the sender itself, and any connection that joined a room of
 * that name), and `io.to(name)` reaches all of them. A connection is in the
 * transport room named by its own id and in every room it joined since
 * connecting; the transport forgets it when it disconnects. `Coherent` ties
 * this to the registry, and `OthersAreLiveMembers` shows that a broadcast to
 * a room reaches exactly its live registry members other than the sender and
 * the members of the room named by the sender's id.
 */
module Relay {
  import opened Wrappers
  import opened Registry

  /** Live connections, each with the set of transport rooms it joined. */
  type Sockets = map<Handle, set<string>>

  /** `socket.roomId`: the room each connection joined last (kept after disconnect). */
  type LastRoom = map<Handle, string>

  /** An opaque signaling payload; only its optional `target` is inspected. */
  datatype Payload = Payload(target: Option<string>, body: string)

  /** `if (payload.target)`: a target that is absent or the empty string is falsy. */
  predicate HasTarget(p: Payload)
    ensures HasTarget(p) <==> p.target !in {None, Some("")}
    ensures HasTarget(p) ==> |p.target.value| > 0
  {
    p.target.Some? && p.target.value != ""
  }

  /** The messages the relay emits, each with the data it carries. */
  datatype Event =
    | PeerJoined(id: Handle, candidateName: string)
    | Signal(from: Handle, payload: Payload)
    | Submitted(roomId: string)
    | SendOfferToLateJoiner(newPeerId: Handle)
    | PeerLeft(id: Handle)

  /** One emit: the event and the snapshot of connections it is delivered to, once each. */
  datatype Emit = Emit(recipients: set<Handle>, event: Event)

  /** The live connections in the transport room called `name` (`io.to(name)`). */
  function TransportRoom(sockets: Sockets, name: string): set<Handle> {
    set h | h in sockets && (h == name || name in sockets[h])
  }

  /**
   * `socket.to(name)`: the transport room without the connections in the
   * room named by the sender's id, which always holds the sender while it is
   * connected.
   */
  function ToOthers(sockets: Sockets, name: string, sender: Handle): set<Handle> {
    TransportRoom(sockets, name) - TransportRoom(sockets, sender)
  }

  /** The live registry members of a room. */
  function LiveMembers(rooms: Rooms, sockets: Sockets, roomId: string): set<Handle> {
    Members(rooms, roomId) * sockets.Keys
  }

  /**
   * The registry and the transport agree: every room is non-empty, a live
   * connection is in the transport room `r` exactly when it is a registry
   * member of `r`, every member ever registered has a last room, and a live
   * connection's last room is one it joined.
   */
  ghost predicate Coherent(rooms: Rooms, lastRoom: LastRoom, sockets: Sockets) {
    && NoEmptyRooms(rooms)
    && (forall h, r | h in sockets && r in sockets[h] :: h in Members(rooms, r))
    && (forall r, h | r in rooms && h in rooms[r] :: h in lastRoom)
    && (forall r, h | r in rooms && h in rooms[r] && h in sockets :: r in sockets[h])
    && (forall h | h in sockets && h in lastRoom :: lastRoom[h] in sockets[h])
  }

  /**
   * A broadcast to a room that is not also a connection id reaches its live
   * members but the sender and the live members of the room named by the
   * sender's id (nobody else, unless some room is named after the sender).
   */
  lemma OthersAreLiveMembers(rooms: Rooms, lastRoom: LastRoom, sockets: Sockets, roomId: string, sender: Handle)
    requires Coherent(rooms, lastRoom, sockets)
    requires roomId !in sockets
    ensures ToOthers(sockets, roomId, sender) ==
              LiveMembers(rooms, sockets, roomId) - LiveMembers(rooms, sockets, sender) - {sender}
  {
    forall h | h in LiveMembers(rooms, sockets, roomId)
      ensures h in TransportRoom(sockets, roomId)
    {
      assert roomId in rooms && h in rooms[roomId];
    }
    forall h | h in LiveMembers(rooms, sockets, sender)
      ensures h in TransportRoom(sockets, sender)
    {
      assert sender in rooms && h in rooms[sender];
    }
  }

  /** The recipients of `signal`: the target alone when one is given, otherwise the room but the sender. */
  function SignalRecipients(sockets: Sockets, sender: Handle, roomId: string, payload: Payload): (r: set<Handle>)
    ensures r <= sockets.Keys
    ensures !HasTarget(payload) ==> sender !in r
    ensures HasTarget(payload) ==> (payload.target.value in r <==> payload.target.value in sockets)
  {
    if HasTarget(payload) then TransportRoom(sockets, payload.target.value)
    else ToOthers(sockets, roomId, sender)
  }

  /**
   * A targeted signal reaches exactly the target when it is a live connection
   * and not also the name of a room; it may be the sender itself, and it need
   * not be a member of `roomId`.
   */
  lemma TargetedSignalReachesTarget(rooms: Rooms, lastRoom: LastRoom, sockets: Sockets,
                                    sender: Handle, roomId: string, payload: Payload)
    requires Coherent(rooms, lastRoom, sockets)
    requires HasTarget(payload) && payload.target.value !in rooms
    ensures payload.target.value in sockets ==>
              SignalRecipients(sockets, sender, roomId, payload) == {payload.target.value}
    ensures payload.target.value !in sockets ==>
              SignalRecipients(sockets, sender, roomId, payload) == {}
  {
    var t := payload.target.value;
    forall h | h in sockets
      ensures t in sockets[h] ==> h in Members(rooms, t)
    {
    }
  }

  /**
   * An untargeted signal reaches every live member of the room but the sender
   * and the members of the room named by the sender's id, and not the sender.
   */
  lemma UntargetedSignalReachesOthers(rooms: Rooms, lastRoom: LastRoom, sockets: Sockets,
                                      sender: Handle, roomId: string, payload: Payload)
    requires Coherent(rooms, lastRoom, sockets)
    requires !HasTarget(payload) && roomId !in sockets
    ensures SignalRecipients(sockets, sender, roomId, payload) ==
              LiveMembers(rooms, sockets, roomId) - LiveMembers(rooms, sockets, sender) - {sender}
    ensures sender !in SignalRecipients(sockets, sender, roomId, payload)
  {
    OthersAreLiveMembers(rooms, lastRoom, sockets, roomId, sender);
  }

  /** A new connection joins no room yet but the one named by its own id. */
  lemma ConnectKeepsCoherent(rooms: Rooms, lastRoom: LastRoom, sockets: Sockets, handle: Handle)
    requires Coherent(rooms, lastRoom, sockets)
    requires handle !in sockets && handle !in lastRoom
    ensures Coherent(rooms, lastRoom, sockets[handle := {}])
  {
  }

  /** The join handler: registry Enter, last room overwritten, transport join. */
  lemma JoinKeepsCoherent(rooms: Rooms, lastRoom: LastRoom, sockets: Sockets, handle: Handle, roomId: string)
    requires Coherent(rooms, lastRoom, sockets)
    requires handle in sockets
    ensures Coherent(Enter(rooms, roomId, handle), lastRoom[handle := roomId],
                     sockets[handle := sockets[handle] + {roomId}])
  {
    var rooms', lastRoom', sockets' := Enter(rooms, roomId, handle), lastRoom[handle := roomId],
                                       sockets[handle := sockets[handle] + {roomId}];
    assert NoEmptyRooms(rooms');
    forall h, r | h in sockets' && r in sockets'[h]
      ensures h in Members(rooms', r)
    {
      if h != handle || r != roomId {
        assert h in Members(rooms, r);
      }
    }
    assert forall r, h | r in rooms' && h in rooms'[r] :: h in lastRoom';
    assert forall r, h | r in rooms' && h in rooms'[r] && h in sockets' :: r in sockets'[h];
    assert forall h | h in sockets' && h in lastRoom' :: lastRoom'[h] in sockets'[h];
  }

  /** The registry effect of `disconnect`: leave the last room, if it is set, non-empty and still exists. */
  function Depart(rooms: Rooms, lastRoom: LastRoom, handle: Handle): (rooms': Rooms)
    ensures rooms'.Keys <= rooms.Keys
    ensures handle in lastRoom && lastRoom[handle] != "" ==>
              var r := lastRoom[handle];
              && handle !in Members(rooms', r)
              && Members(rooms', r) == Members(rooms, r) - {handle}
              && (r in rooms' <==> Members(rooms, r) - {handle} != {})
    ensures handle !in lastRoom || lastRoom[handle] == "" ==> rooms' == rooms
    ensures forall r | r in rooms && (handle !in lastRoom || r != lastRoom[handle]) :: r in rooms' && rooms'[r] == rooms[r]
  {
    if handle in lastRoom && lastRoom[handle] != "" && lastRoom[handle] in rooms
    then Leave(rooms, lastRoom[handle], handle)
    else rooms
  }

  /** The disconnect handler: the transport forgets the connection, the registry leaves its last room. */
  lemma DisconnectKeepsCoherent(rooms: Rooms, lastRoom: LastRoom, sockets: Sockets, handle: Handle)
    requires Coherent(rooms, lastRoom, sockets)
    ensures Coherent(Depart(rooms, lastRoom, handle), lastRoom, sockets - {handle})
  {
    var rooms' := Depart(rooms, lastRoom, handle);
    var sockets' := sockets - {handle};
    forall h, r | h in sockets' && r in sockets'[h]
      ensures h in Members(rooms', r)
    {
      assert h in Members(rooms, r);
    }
  }

  /**
   * After a disconnect, the connection is in no room it last joined, whose
   * other members stay; that room is gone exactly when the connection was its
   * last member, and then its `peer-left` reaches nobody; other rooms,
   * including earlier rooms it joined, are untouched.
   */
  lemma DisconnectLeavesLastRoomOnly(rooms: Rooms, lastRoom: LastRoom, sockets: Sockets, handle: Handle)
    requires Coherent(rooms, lastRoom, sockets)
    requires handle in lastRoom && lastRoom[handle] != ""
    ensures var r := lastRoom[handle];
            var rooms' := Depart(rooms, lastRoom, handle);
            && handle !in Members(rooms', r)
            && Members(rooms', r) == Members(rooms, r) - {handle}
            && (r in rooms' <==> Members(rooms, r) - {handle} != {})
            && (r !in rooms' && r !in sockets ==> ToOthers(sockets - {handle}, r, handle) == {})
            && (forall r' | r' in rooms && r' != r :: r' in rooms' && rooms'[r'] == rooms[r'])
  {
    var r := lastRoom[handle];
    DisconnectKeepsCoherent(rooms, lastRoom, sockets, handle);
    if r !in sockets {
      OthersAreLiveMembers(Depart(rooms, lastRoom, handle), lastRoom, sockets - {handle}, r, handle);
    }
  }

  /**
   * A repeated disconnect leaves the registry as the first left it (the
   * `peer-left` notice is emitted again while the room still exists, since
   * the last room is never cleared).
   */
  lemma DepartIdempotent(rooms: Rooms, lastRoom: LastRoom, handle: Handle)
    ensures Depart(Depart(rooms, lastRoom, handle), lastRoom, handle) == Depart(rooms, lastRoom, handle)
  {
    if handle in lastRoom && lastRoom[handle] != "" && lastRoom[handle] in rooms {
      LeaveIdempotent(rooms, lastRoom[handle], handle);
    }
  }
}
