/** The room manager's registry: the rooms under their ids, with the
    operations that create, tick, disconnect from and abandon them. The
    timers of the server become explicit calls: `RunTick` is one firing of
    a room's game loop and `GraceExpired` one firing of a grace timer;
    grace timers are numbered from a counter. */
module Registry {
  import opened Wrappers
  import opened Entities
  import opened TickSpec
  import opened RoomEngine

  /** What leaving does to one room between two states: a room without
      the player is untouched; otherwise the player is marked
      disconnected and a grace timer numbered in [t0, t1) is armed for it
      and recorded as the room's last. */
  twostate predicate LeftBy(r: Room, socketId: string, t0: nat, t1: nat)
    reads r
  {
    match FindPlayer(old(r.players), socketId)
    case None => unchanged(r)
    case Some(i) =>
      && r.players == Disconnect(old(r.players), i)
      && r.disconnectTimeout.Some?
      && t0 <= r.disconnectTimeout.value < t1
      && r.graceTimers == old(r.graceTimers)[r.disconnectTimeout.value := socketId]
      && r.started == old(r.started) && r.ticking == old(r.ticking) && r.lastTick == old(r.lastTick)
      && r.lastSnapshot == old(r.lastSnapshot) && r.lastHitTimes == old(r.lastHitTimes)
  }

  class RoomRegistry {
    var rooms: map<string, Room>
    /** The number the next grace timer gets. */
    var nextTimer: nat

    /** Every room is kept under its own id and is well formed. Since ids
        are the keys, two keys never share a room. */
    ghost predicate Valid()
      reads this, rooms.Values
    {
      forall k :: k in rooms ==> rooms[k].id == k && rooms[k].Valid()
    }

    constructor()
      ensures Valid() && rooms == map[] && nextTimer == 0
    {
      rooms, nextTimer := map[], 0;
    }

    /** A room for the connections `a` and `b` under the id `roomId`; an
        existing room under that id is replaced, as `Map.set` does. */
    method CreateRoom(roomId: string, a: string, b: string, now: int) returns (room: Room)
      requires Valid()
      modifies this
      ensures Valid() && fresh(room)
      ensures rooms == old(rooms)[roomId := room] && nextTimer == old(nextTimer)
      ensures room.id == roomId && room.createdAt == now && room.lastTick == now
      ensures room.players == MapSet([NewPlayer(a)], NewPlayer(b))
      ensures !room.started && !room.ticking && room.lastSnapshot.None? && room.lastHitTimes == map[]
      ensures room.disconnectTimeout.None? && room.graceTimers == map[]
    {
      room := new Room(roomId, a, b, now);
      rooms := rooms[roomId := room];
    }

    /** One firing of the game loop of the room under `roomId`. A room
        that is unknown or whose loop is not scheduled is left alone. When
        the tick ends the match, the room leaves the registry. */
    method RunTick(roomId: string, now: int, draws: seq<SpawnDraw>) returns (out: seq<Emit>, ended: bool)
      requires Valid()
      requires roomId in rooms ==> |draws| == |rooms[roomId].players| && DrawsOk(draws)
      modifies this, rooms.Values
      ensures Valid() && nextTimer == old(nextTimer)
      ensures roomId !in old(rooms) || !old(rooms[roomId].ticking) ==>
        !ended && out == [] && rooms == old(rooms) && unchanged(old(rooms.Values))
      ensures roomId in old(rooms) && old(rooms[roomId].ticking) ==>
        var room := old(rooms[roomId]);
        var R := TickPlayers(old(room.players), ContextAt(roomId, old(room.started), room.createdAt, old(room.lastTick), now), draws);
        && room.players == R.players && room.lastTick == now
        && ended == R.loser.Some? && room.ticking == !ended
        && (ended ==> out == R.emits && room.lastSnapshot == old(room.lastSnapshot))
        && (!ended ==>
              var due := SnapshotDue(old(room.lastSnapshot), room.createdAt, now);
              && out == R.emits + (if due then Snapshots(roomId, room.players, |room.players|, false) else [])
              && room.lastSnapshot == (if due then Some(now) else old(room.lastSnapshot)))
        && room.started == old(room.started) && room.lastHitTimes == old(room.lastHitTimes)
        && room.disconnectTimeout == old(room.disconnectTimeout) && room.graceTimers == old(room.graceTimers)
        && rooms == (if ended then old(rooms) - {roomId} else old(rooms))
        && (old(room.Capped()) && old(room.lastTick) <= now ==> room.Capped())
        && forall k :: k in old(rooms) && k != roomId ==> unchanged(old(rooms[k]))
    {
      if roomId !in rooms || !rooms[roomId].ticking {
        return [], false;
      }
      var room := rooms[roomId];
      out, ended := room.Tick(now, draws);
      if ended {
        rooms := rooms - {roomId};
      }
    }

    /** The connection `socketId` went away: in every room holding it, the
        player is marked disconnected and a new grace timer is armed. */
    method LeaveRoomIfAny(socketId: string)
      requires Valid()
      modifies this, rooms.Values
      ensures Valid() && rooms == old(rooms) && old(nextTimer) <= nextTimer
      ensures forall k :: k in rooms ==> LeftBy(rooms[k], socketId, old(nextTimer), nextTimer)
    {
      var keys := rooms.Keys;
      ghost var done: set<string> := {};
      while keys != {}
        invariant keys !! done && keys + done == rooms.Keys
        invariant Valid() && rooms == old(rooms) && old(nextTimer) <= nextTimer
        invariant forall k :: k in keys ==> unchanged(rooms[k])
        invariant forall k :: k in done ==> LeftBy(rooms[k], socketId, old(nextTimer), nextTimer)
        decreases keys
      {
        var k :| k in keys;
        var room := rooms[k];
        var found := room.MarkLeft(socketId, nextTimer);
        if found {
          nextTimer := nextTimer + 1;
        }
        keys, done := keys - {k}, done + {k};
      }
    }

    /** The grace timer `timer` of `room` fires: the room's loop is
        unscheduled, the room leaves the registry, and the other players
        hear that their opponent left. The room need not still be
        registered; the timer holds on to it. */
    method GraceExpired(room: Room, timer: nat) returns (out: seq<Emit>)
      requires Valid() && timer in room.graceTimers
      modifies this, room
      ensures Valid() && nextTimer == old(nextTimer)
      ensures rooms == old(rooms) - {room.id}
      ensures !room.ticking && room.graceTimers == old(room.graceTimers) - {timer}
      ensures room.players == old(room.players) && room.started == old(room.started)
      ensures room.lastTick == old(room.lastTick) && room.lastSnapshot == old(room.lastSnapshot)
      ensures room.lastHitTimes == old(room.lastHitTimes) && room.disconnectTimeout == old(room.disconnectTimeout)
      ensures out == LeftNotices(room.id, room.players, |room.players|, old(room.graceTimers)[timer])
    {
      out := room.GraceExpired(timer);
      rooms := rooms - {room.id};
    }
  }
}
