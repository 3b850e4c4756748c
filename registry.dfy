/**
 * The room registry: the server's own map from room id to the set of
 * connection handles that joined it. A room exists while its set is
 * non-empty; it is created by the first join and deleted by the leave that
 * empties it.
 */
module Registry {

  /** A transport-assigned connection id (`socket.id`). */
  type Handle = string

  type Rooms = map<string, set<Handle>>

  /** Every room in the registry has at least one member. */
  ghost predicate NoEmptyRooms(rooms: Rooms) {
    forall r | r in rooms :: rooms[r] != {}
  }

  /** The members of `roomId`, or none when the room does not exist. */
  function Members(rooms: Rooms, roomId: string): set<Handle> {
    if roomId in rooms then rooms[roomId] else {}
  }

  /** `rooms[roomId] = rooms[roomId] || new Set(); rooms[roomId].add(handle)`. */
  function Enter(rooms: Rooms, roomId: string, handle: Handle): (rooms': Rooms)
    ensures roomId in rooms' && rooms'[roomId] == Members(rooms, roomId) + {handle}
    ensures rooms'.Keys == rooms.Keys + {roomId}
    ensures forall r | r in rooms && r != roomId :: rooms'[r] == rooms[r]
  {
    rooms[roomId := Members(rooms, roomId) + {handle}]
  }

  /**
   * `rooms[roomId].delete(handle)`, then `delete rooms[roomId]` if it became
   * empty; nothing happens when the room does not exist.
   */
  function Leave(rooms: Rooms, roomId: string, handle: Handle): (rooms': Rooms)
    ensures handle !in Members(rooms', roomId)
    ensures Members(rooms', roomId) == Members(rooms, roomId) - {handle}
    ensures roomId in rooms' <==> Members(rooms, roomId) - {handle} != {}
    ensures rooms'.Keys <= rooms.Keys
    ensures forall r | r in rooms && r != roomId :: r in rooms' && rooms'[r] == rooms[r]
  {
    if roomId !in rooms then rooms
    else
      var rest := rooms[roomId] - {handle};
      if rest == {} then rooms - {roomId} else rooms[roomId := rest]
  }

  /** Joining twice with the same handle leaves the registry as the first join left it. */
  lemma EnterIdempotent(rooms: Rooms, roomId: string, handle: Handle)
    ensures Enter(Enter(rooms, roomId, handle), roomId, handle) == Enter(rooms, roomId, handle)
  {
  }

  /** Leaving twice is the same as leaving once. */
  lemma LeaveIdempotent(rooms: Rooms, roomId: string, handle: Handle)
    ensures Leave(Leave(rooms, roomId, handle), roomId, handle) == Leave(rooms, roomId, handle)
  {
    var once := Leave(rooms, roomId, handle);
    if roomId in once {
      assert once[roomId] - {handle} == once[roomId];
      assert once[roomId := once[roomId]] == once;
    }
  }

  /** Leave undoes Enter for a handle that was not yet a member (deleting a room Enter created). */
  lemma LeaveUndoesEnter(rooms: Rooms, roomId: string, handle: Handle)
    requires NoEmptyRooms(rooms)
    requires handle !in Members(rooms, roomId)
    ensures Leave(Enter(rooms, roomId, handle), roomId, handle) == rooms
  {
    var after := Leave(Enter(rooms, roomId, handle), roomId, handle);
    assert after.Keys == rooms.Keys;
    if roomId in rooms {
      assert after[roomId] == rooms[roomId];
    }
  }

  /** Both operations keep every room non-empty. */
  lemma EnterLeaveKeepNoEmptyRooms(rooms: Rooms, roomId: string, handle: Handle)
    requires NoEmptyRooms(rooms)
    ensures NoEmptyRooms(Enter(rooms, roomId, handle))
    ensures NoEmptyRooms(Leave(rooms, roomId, handle))
  {
  }

  /** Room lifecycle: two handles join an absent room and both leave; the room is gone again. */
  lemma RoomLifecycle(rooms: Rooms, roomId: string, a: Handle, b: Handle)
    requires roomId !in rooms
    ensures var joined := Enter(Enter(rooms, roomId, a), roomId, b);
            Members(joined, roomId) == {a, b} &&
            Leave(Leave(joined, roomId, a), roomId, b) == rooms
  {
    var joined := Enter(Enter(rooms, roomId, a), roomId, b);
    var left := Leave(Leave(joined, roomId, a), roomId, b);
    assert left.Keys == rooms.Keys;
  }
}
