/**
 * The process-wide room registry (server/rooms.js): a map from room id to
 * that room's `DrawingState`, filled in lazily on first reference and never
 * shrunk.
 */
module RoomRegistry {
  import opened Drawing

  class Rooms {
    var rooms: map<string, DrawingState>

    /** Each registered room knows the id it is registered under and is itself consistent. */
    ghost predicate Valid()
      reads this, rooms.Values
    {
      forall r :: r in rooms ==> rooms[r].roomId == r && rooms[r].Valid()
    }

    /** `createRooms()`: an empty registry. */
    constructor ()
      ensures Valid() && rooms == map[]
    {
      rooms := map[];
    }

    /**
     * `get(roomId)`: the room registered under `roomId`, created empty on
     * first reference. Every other entry is left as it was.
     */
    method Get(roomId: string) returns (room: DrawingState)
      requires Valid()
      modifies this
      ensures Valid()
      ensures roomId in rooms && room == rooms[roomId] && room.roomId == roomId && room.Valid()
      ensures roomId in old(rooms) ==> room == old(rooms)[roomId] && rooms == old(rooms)
      ensures roomId !in old(rooms) ==>
                && fresh(room) && rooms == old(rooms)[roomId := room]
                && room.Valid() && room.History() == Log([], [], [], 0)
                && room.peers == map[] && room.peerOrder == [] && room.cursors == map[]
    {
      if roomId !in rooms {
        var created := new DrawingState(roomId);
        rooms := rooms[roomId := created];
      }
      room := rooms[roomId];
    }
  }

  /** Distinct room ids never share a room. */
  lemma RoomsAreDistinct(registry: Rooms, a: string, b: string)
    requires registry.Valid() && a in registry.rooms && b in registry.rooms && a != b
    ensures registry.rooms[a] != registry.rooms[b]
  {
  }
}
