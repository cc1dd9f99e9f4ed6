/** A room of the duel: the object the room manager keeps for two matched
    connections, with the operations that change it in place (readiness,
    hits, reconnection, disconnection and the game-loop tick), and the pure
    functions that specify them. */
module RoomEngine {
  import opened Wrappers
  import opened Difficulty
  import opened Entities
  import opened TickSpec

  /** A player may land a hit at most once per 200 ms. */
  const HitCooldownMs: int := 200

  /** The game loop runs every 60 ms; a full snapshot goes out when more
      than 50 loop periods have passed since the last one. */
  const TickMs: int := 60
  const SnapshotTicks: int := 50

  /** The source's `Map.set` on the players: afterwards the key holds the
      new record, the map grows only for a new key, every other entry keeps
      its place, and distinct keys stay distinct. */
  function MapSet(ps: seq<Player>, p: Player): (r: seq<Player>)
    ensures |r| == |ps| + (if FindPlayer(ps, p.id).Some? then 0 else 1)
    ensures FindPlayer(r, p.id).Some? && r[FindPlayer(r, p.id).value] == p
    ensures forall k :: 0 <= k < |ps| && ps[k].id != p.id ==> r[k] == ps[k]
    ensures DistinctIds(ps) ==> DistinctIds(r)
  {
    match FindPlayer(ps, p.id)
    case Some(i) =>
      var r := ps[i := p];
      assert r[i] == p;
      assert FindPlayer(r, p.id).value == i;
      r
    case None =>
      var r := ps + [p];
      assert r[|ps|] == p;
      assert FindPlayer(r, p.id).value == |ps|;
      r
  }

  /** The source's `Map.delete` of the entry at index `i`, keeping the
      order of the rest. */
  function DeleteAt(ps: seq<Player>, i: nat): (r: seq<Player>)
    requires i < |ps|
    ensures |r| == |ps| - 1
    ensures forall k :: 0 <= k < |r| ==> r[k] == (if k < i then ps[k] else ps[k + 1])
  {
    ps[..i] + ps[i + 1..]
  }

  /** The room's players when the player at index `i` reconnects under
      `newId`: its entry is deleted and the same record, now connected and
      carrying the new id, is set under the new key. */
  function Rekey(ps: seq<Player>, i: nat, newId: string): (r: seq<Player>)
    requires i < |ps|
  {
    MapSet(DeleteAt(ps, i), ps[i].(id := newId, disconnected := false))
  }

  /** Deleting an entry keeps the other entries in order, so the ids
      stay distinct and every record stays well formed. */
  lemma DeleteAtKeeps(ps: seq<Player>, i: nat)
    requires i < |ps| && DistinctIds(ps) && AllValid(ps)
    ensures DistinctIds(DeleteAt(ps, i)) && AllValid(DeleteAt(ps, i))
    ensures forall k :: 0 <= k < |DeleteAt(ps, i)| ==> DeleteAt(ps, i)[k].id != ps[i].id
  {
    var rest := DeleteAt(ps, i);
    forall a, b | 0 <= a < b < |rest|
      ensures rest[a].id != rest[b].id
    {
      assert rest[a] == ps[if a < i then a else a + 1];
      assert rest[b] == ps[if b < i then b else b + 1];
    }
    forall k | 0 <= k < |rest|
      ensures PlayerValid(rest[k]) && rest[k].id != ps[i].id
    {
      assert rest[k] == ps[if k < i then k else k + 1];
    }
  }

  /** Setting a well-formed record keeps every record well formed. */
  lemma MapSetValid(ps: seq<Player>, p: Player)
    requires AllValid(ps) && PlayerValid(p)
    ensures AllValid(MapSet(ps, p))
  {
    var r := MapSet(ps, p);
    forall k | 0 <= k < |r|
      ensures PlayerValid(r[k])
    {
      if k < |ps| && r[k] != p {
        assert r[k] == ps[k];
      }
    }
  }

  /** Reconnecting keeps the player's state (hearts, kills, readiness,
      pool, next id, cooldown) under the new id, connected; the ids stay
      distinct and every record stays well formed. */
  lemma RekeyKeeps(ps: seq<Player>, i: nat, newId: string)
    requires i < |ps| && DistinctIds(ps) && AllValid(ps)
    ensures var r := Rekey(ps, i, newId);
      && DistinctIds(r) && AllValid(r) && 1 <= |r|
      && FindPlayer(r, newId).Some?
      && r[FindPlayer(r, newId).value] == ps[i].(id := newId, disconnected := false)
  {
    var rest := DeleteAt(ps, i);
    var q := ps[i].(id := newId, disconnected := false);
    DeleteAtKeeps(ps, i);
    assert PlayerValid(q) by {
      assert PlayerValid(ps[i]);
    }
    MapSetValid(rest, q);
  }

  /** The room keeps its size when a player reconnects, unless the new id
      belongs to another player, whose entry the moved record then
      replaces. */
  lemma RekeySize(ps: seq<Player>, i: nat, newId: string)
    requires i < |ps| && DistinctIds(ps) && AllValid(ps)
    ensures |Rekey(ps, i, newId)| ==
      (if exists k :: 0 <= k < |ps| && k != i && ps[k].id == newId then |ps| - 1 else |ps|)
  {
    var rest := DeleteAt(ps, i);
    var q := ps[i].(id := newId, disconnected := false);
    DeleteAtKeeps(ps, i);
    if exists k :: 0 <= k < |ps| && k != i && ps[k].id == newId {
      var k :| 0 <= k < |ps| && k != i && ps[k].id == newId;
      assert rest[if k < i then k else k - 1] == ps[k];
    } else {
      forall k | 0 <= k < |rest|
        ensures rest[k].id != newId
      {
        assert rest[k] == ps[if k < i then k else k + 1];
      }
    }
  }

  /** Reconnecting keeps every player that is neither the moved one nor
      the one under the new id. */
  lemma RekeyKeepsOthers(ps: seq<Player>, i: nat, newId: string)
    requires i < |ps| && DistinctIds(ps) && AllValid(ps)
    ensures forall k :: 0 <= k < |ps| && k != i && ps[k].id != newId ==> ps[k] in Rekey(ps, i, newId)
  {
    var rest := DeleteAt(ps, i);
    var q := ps[i].(id := newId, disconnected := false);
    var r := Rekey(ps, i, newId);
    DeleteAtKeeps(ps, i);
    forall k | 0 <= k < |ps| && k != i && ps[k].id != newId
      ensures ps[k] in r
    {
      var k' := if k < i then k else k - 1;
      assert rest[k'] == ps[k];
      assert r[k'] == rest[k'];
    }
  }

  /** Every player is ready and connected: the condition for the match to
      start. */
  predicate AllReady(ps: seq<Player>) {
    forall k :: 0 <= k < |ps| ==> ps[k].ready && !ps[k].disconnected
  }

  /** The players once the match starts: every spawn cooldown is drawn
      from the first band's interval, one draw per player. */
  function WithCooldowns(ps: seq<Player>, draws: seq<real>): (r: seq<Player>)
    requires |draws| == |ps| && forall k :: 0 <= k < |draws| ==> 0.0 <= draws[k] < 1.0
    ensures |r| == |ps|
    ensures forall k :: 0 <= k < |r| ==>
      && r[k] == ps[k].(spawnCooldown := r[k].spawnCooldown)
      && r[k].spawnCooldown.Some?
      && GetDifficultyPhase(0).spawnMin as real <= r[k].spawnCooldown.value < GetDifficultyPhase(0).spawnMax as real
  {
    var band := GetDifficultyPhase(0);
    seq(|ps|, k requires 0 <= k < |ps| =>
      ps[k].(spawnCooldown := Some(RandRange(band.spawnMin as real, band.spawnMax as real, draws[k]))))
  }

  /** Drawing the cooldowns changes nothing else: the ids stay distinct,
      every record stays well formed, and readiness and connection are
      kept. */
  lemma WithCooldownsKeeps(ps: seq<Player>, draws: seq<real>)
    requires |draws| == |ps| && forall k :: 0 <= k < |draws| ==> 0.0 <= draws[k] < 1.0
    requires DistinctIds(ps) && AllValid(ps)
    ensures var r := WithCooldowns(ps, draws);
      && DistinctIds(r) && AllValid(r)
      && forall k :: 0 <= k < |ps| ==> r[k].ready == ps[k].ready && r[k].disconnected == ps[k].disconnected
  {
    var r := WithCooldowns(ps, draws);
    forall k | 0 <= k < |ps|
      ensures PlayerValid(r[k]) && r[k].id == ps[k].id
    {
      assert PlayerValid(ps[k]);
      assert r[k] == ps[k].(spawnCooldown := r[k].spawnCooldown);
    }
  }

  /** Marking a player ready keeps the ids distinct and every record well
      formed. */
  lemma MarkReadyKeeps(ps: seq<Player>, i: nat)
    requires i < |ps| && DistinctIds(ps) && AllValid(ps)
    ensures DistinctIds(ps[i := ps[i].(ready := true)]) && AllValid(ps[i := ps[i].(ready := true)])
  {
    assert PlayerValid(ps[i]);
    assert PlayerValid(ps[i].(ready := true));
  }

  /** A repeated ready is idempotent: marking an already-ready player
      ready again leaves the records as they were, so the start condition
      reads the same. */
  lemma ReadyIdempotent(ps: seq<Player>, i: nat)
    requires i < |ps|
    ensures var r := ps[i := ps[i].(ready := true)];
      && r[i := r[i].(ready := true)] == r
      && (AllReady(r[i := r[i].(ready := true)]) <==> AllReady(r))
  {
  }

  /** The loop that draws every player's first spawn cooldown. */
  method DrawCooldowns(ps0: seq<Player>, draws: seq<real>) returns (ps: seq<Player>)
    requires |draws| == |ps0| && forall k :: 0 <= k < |draws| ==> 0.0 <= draws[k] < 1.0
    ensures ps == WithCooldowns(ps0, draws)
  {
    var band := GetDifficultyPhase(0);
    ps := ps0;
    for k := 0 to |ps|
      invariant |ps| == |ps0|
      invariant forall j :: 0 <= j < k ==> ps[j] == WithCooldowns(ps0, draws)[j]
      invariant forall j :: k <= j < |ps| ==> ps[j] == ps0[j]
    {
      ps := ps[k := ps[k].(spawnCooldown := Some(RandRange(band.spawnMin as real, band.spawnMax as real, draws[k])))];
    }
  }

  /** The snapshot one player is sent: the room's public stats and that
      player's enemies, as `matchStart` (with the room id) or as
      `roomState`. */
  function SnapshotMsg(roomId: string, enemies: seq<EnemyView>, players: seq<PlayerView>, start: bool): Msg {
    if start then MatchStart(roomId, enemies, players) else RoomState(enemies, players)
  }

  /** The snapshot for the player at index `k`. */
  function SnapshotTo(roomId: string, ps: seq<Player>, k: nat, start: bool): Emit
    requires k < |ps|
  {
    Emit(ToPlayer(ps[k].id), SnapshotMsg(roomId, EnemyViews(ps[k].enemies), SerializePlayers(ps), start))
  }

  /** The snapshots sent to the first `n` players in room order, skipping
      disconnected ones. */
  function Snapshots(roomId: string, ps: seq<Player>, n: nat, start: bool): (r: seq<Emit>)
    requires n <= |ps|
    ensures |r| <= n
  {
    if n == 0 then []
    else
      var prev := Snapshots(roomId, ps, n - 1, start);
      prev + (if ps[n - 1].disconnected then [] else [SnapshotTo(roomId, ps, n - 1, start)])
  }

  /** Only connected players among the first `n` get a snapshot, each its
      own. */
  lemma {:induction false} SnapshotsOnlyConnected(roomId: string, ps: seq<Player>, n: nat, start: bool)
    requires n <= |ps|
    ensures forall e :: e in Snapshots(roomId, ps, n, start) ==>
      exists k :: 0 <= k < n && !ps[k].disconnected && e == SnapshotTo(roomId, ps, k, start)
    decreases n
  {
    if n > 0 {
      SnapshotsOnlyConnected(roomId, ps, n - 1, start);
      var prev := Snapshots(roomId, ps, n - 1, start);
      forall e | e in Snapshots(roomId, ps, n, start)
        ensures exists k :: 0 <= k < n && !ps[k].disconnected && e == SnapshotTo(roomId, ps, k, start)
      {
        if e in prev {
          var k :| 0 <= k < n - 1 && !ps[k].disconnected && e == SnapshotTo(roomId, ps, k, start);
        } else {
          assert e == SnapshotTo(roomId, ps, n - 1, start);
        }
      }
    }
  }

  /** Every connected player among the first `n` gets its own snapshot. */
  lemma {:induction false} SnapshotsReachConnected(roomId: string, ps: seq<Player>, n: nat, start: bool)
    requires n <= |ps|
    ensures forall k :: 0 <= k < n && !ps[k].disconnected ==> SnapshotTo(roomId, ps, k, start) in Snapshots(roomId, ps, n, start)
    decreases n
  {
    if n > 0 {
      SnapshotsReachConnected(roomId, ps, n - 1, start);
      var prev := Snapshots(roomId, ps, n - 1, start);
      var last := if ps[n - 1].disconnected then [] else [SnapshotTo(roomId, ps, n - 1, start)];
      assert Snapshots(roomId, ps, n, start) == prev + last;
      forall k | 0 <= k < n && !ps[k].disconnected
        ensures SnapshotTo(roomId, ps, k, start) in prev + last
      {
        if k < n - 1 {
          assert SnapshotTo(roomId, ps, k, start) in prev;
        } else {
          assert SnapshotTo(roomId, ps, k, start) in last;
        }
      }
    }
  }

  /** A snapshot carries what the room serializes for its receiver: the
      receiver's own pool, looked up by its id, and every player's public
      stats in room order. */
  lemma SnapshotPrivate(roomId: string, ps: seq<Player>, k: nat, start: bool)
    requires k < |ps| && DistinctIds(ps)
    ensures SnapshotTo(roomId, ps, k, start).msg.enemies == SerializeEnemies(ps, ps[k].id)
    ensures SnapshotTo(roomId, ps, k, start).msg.players == SerializePlayers(ps)
    ensures SnapshotTo(roomId, ps, k, start).msg.MatchStart? == start
  {
    assert FindPlayer(ps, ps[k].id) == Some(k);
  }

  /** The loop that sends every connected player its snapshot, in room
      order. */
  method CollectSnapshots(roomId: string, ps: seq<Player>, start: bool) returns (out: seq<Emit>)
    ensures out == Snapshots(roomId, ps, |ps|, start)
  {
    out := [];
    for k := 0 to |ps|
      invariant out == Snapshots(roomId, ps, k, start)
    {
      if !ps[k].disconnected {
        out := out + [SnapshotTo(roomId, ps, k, start)];
      }
    }
  }

  /** The notice a player gets when the room is abandoned. */
  function LeftNotice(roomId: string, to: string, leaver: string): Emit {
    Emit(ToPlayer(to), OpponentLeft(roomId, leaver))
  }

  /** The notices sent when the grace period of `leaver` runs out: one to
      every other player among the first `n`, in room order. */
  function LeftNotices(roomId: string, ps: seq<Player>, n: nat, leaver: string): (r: seq<Emit>)
    requires n <= |ps|
    ensures |r| <= n
  {
    if n == 0 then []
    else
      LeftNotices(roomId, ps, n - 1, leaver)
      + (if ps[n - 1].id == leaver then [] else [LeftNotice(roomId, ps[n - 1].id, leaver)])
  }

  /** The leaver is never told, and every other player among the first `n`
      is told, of the same room and the same leaver. */
  lemma {:induction false} LeftNoticesExact(roomId: string, ps: seq<Player>, n: nat, leaver: string)
    requires n <= |ps|
    ensures forall e :: e in LeftNotices(roomId, ps, n, leaver) <==>
      exists k :: 0 <= k < n && ps[k].id != leaver && e == LeftNotice(roomId, ps[k].id, leaver)
    decreases n
  {
    if n > 0 {
      LeftNoticesExact(roomId, ps, n - 1, leaver);
      var prev := LeftNotices(roomId, ps, n - 1, leaver);
      var last := if ps[n - 1].id == leaver then [] else [LeftNotice(roomId, ps[n - 1].id, leaver)];
      assert LeftNotices(roomId, ps, n, leaver) == prev + last;
      forall e
        ensures e in prev + last <==>
          exists k :: 0 <= k < n && ps[k].id != leaver && e == LeftNotice(roomId, ps[k].id, leaver)
      {
        if e in prev + last {
          if e in prev {
            var k :| 0 <= k < n - 1 && ps[k].id != leaver && e == LeftNotice(roomId, ps[k].id, leaver);
            assert 0 <= k < n;
          } else {
            assert 0 <= n - 1 < n && e == LeftNotice(roomId, ps[n - 1].id, leaver);
          }
        }
        if exists k :: 0 <= k < n && ps[k].id != leaver && e == LeftNotice(roomId, ps[k].id, leaver) {
          var k :| 0 <= k < n && ps[k].id != leaver && e == LeftNotice(roomId, ps[k].id, leaver);
          if k < n - 1 {
            assert e in prev;
          } else {
            assert e in last;
          }
        }
      }
    }
  }

  /** Whether a full snapshot is due: more than 50 loop periods since the
      last snapshot, or since the room was created when there was none (a
      time of 0 counts as none, as the source's `||` does). */
  function SnapshotDue(lastSnapshot: Option<int>, createdAt: int, now: int): (due: bool)
    ensures due <==> now - (if lastSnapshot.Some? && lastSnapshot.value != 0 then lastSnapshot.value else createdAt)
                     > TickMs * SnapshotTicks
  {
    var base := if lastSnapshot.Some? && lastSnapshot.value != 0 then lastSnapshot.value else createdAt;
    (now - base) as real / TickMs as real > SnapshotTicks as real
  }

  /** The time of the player's last hit; 0 when there was none. */
  function LastHit(times: map<string, int>, playerId: string): int {
    if playerId in times then times[playerId] else 0
  }

  /** ASCII lower-casing of one character. */
  function LowerChar(c: char): char {
    if 'A' <= c <= 'Z' then (c as int + 32) as char else c
  }

  function Lower(s: string): (r: string)
    ensures |r| == |s|
    ensures forall i :: 0 <= i < |s| ==> r[i] == LowerChar(s[i])
  {
    seq(|s|, i requires 0 <= i < |s| => LowerChar(s[i]))
  }

  /** Typed words match when they agree up to case; a missing word counts
      as empty. */
  predicate SameWord(expected: string, typed: Option<string>) {
    Lower(expected) == Lower(typed.GetOr(""))
  }

  /** The match ignores case: changing the case of any letter of the typed
      word keeps the verdict, and lower-casing twice changes nothing. */
  lemma SameWordIgnoresCase(expected: string, typed: string)
    ensures Lower(Lower(typed)) == Lower(typed)
    ensures SameWord(expected, Some(typed)) <==> SameWord(expected, Some(Lower(typed)))
  {
    assert Lower(Lower(typed)) == Lower(typed);
  }

  /** Where a hit lands: the player at index `pi` and the enemy at index
      `ei` of that player's own pool. */
  datatype HitTarget = HitTarget(pi: nat, ei: nat)

  ghost predicate Targets(ps: seq<Player>, playerId: string, enemyId: int, t: HitTarget) {
    t.pi < |ps| && ps[t.pi].id == playerId && t.ei < |ps[t.pi].enemies| && ps[t.pi].enemies[t.ei].id == enemyId
  }

  /** The verdict on a hit that passed the rate limit: it lands exactly
      when the player is in the room, the enemy is in that player's own
      pool, the enemy is alive, and the words agree up to case. */
  function JudgeHit(ps: seq<Player>, playerId: string, enemyId: int, word: Option<string>): (v: Option<HitTarget>)
    requires DistinctIds(ps) && AllValid(ps)
    ensures v.Some? ==>
      && Targets(ps, playerId, enemyId, v.value)
      && ps[v.value.pi].enemies[v.value.ei].alive
      && SameWord(ps[v.value.pi].enemies[v.value.ei].word, word)
    ensures v.None? ==> forall t :: Targets(ps, playerId, enemyId, t) ==>
      !ps[t.pi].enemies[t.ei].alive || !SameWord(ps[t.pi].enemies[t.ei].word, word)
  {
    match FindPlayer(ps, playerId)
    case None => None
    case Some(pi) =>
      match FindEnemy(ps[pi].enemies, enemyId)
      case None => None
      case Some(ei) =>
        var e := ps[pi].enemies[ei];
        assert forall t :: Targets(ps, playerId, enemyId, t) ==> t == HitTarget(pi, ei) by {
          forall t | Targets(ps, playerId, enemyId, t)
            ensures t == HitTarget(pi, ei)
          {
            assert PlayerValid(ps[pi]);
            assert t.pi == pi;
            assert t.ei == ei;
          }
        }
        if e.alive && SameWord(e.word, word) then Some(HitTarget(pi, ei)) else None
  }

  /** The players after a landed hit: the enemy dies and its owner's kill
      count rises by one. */
  function Kill(ps: seq<Player>, t: HitTarget): seq<Player>
    requires t.pi < |ps| && t.ei < |ps[t.pi].enemies|
  {
    var p := ps[t.pi];
    ps[t.pi := p.(enemies := p.enemies[t.ei := p.enemies[t.ei].(alive := false)], kills := p.kills + 1)]
  }

  /** Killing one live enemy lowers its pool's alive count by exactly one. */
  lemma {:induction false} AliveCountKill(es: seq<Enemy>, j: nat)
    requires j < |es| && es[j].alive
    ensures AliveCount(es[j := es[j].(alive := false)]) == AliveCount(es) - 1
    decreases |es|
  {
    var es' := es[j := es[j].(alive := false)];
    var n := |es|;
    if j < n - 1 {
      assert es'[..n - 1] == es[..n - 1][j := es[j].(alive := false)];
      AliveCountKill(es[..n - 1], j);
    } else {
      assert es'[..n - 1] == es[..n - 1];
    }
  }

  /** A landed hit changes exactly that enemy (now dead) and its owner's
      kills (one more); hearts, the other enemies and the other players are
      unchanged, every record stays well formed, and the owner has one live
      enemy fewer. */
  lemma KillEffect(ps: seq<Player>, t: HitTarget)
    requires t.pi < |ps| && t.ei < |ps[t.pi].enemies| && ps[t.pi].enemies[t.ei].alive && AllValid(ps)
    ensures var r := Kill(ps, t);
      && |r| == |ps| && AllValid(r)
      && (forall k :: 0 <= k < |ps| && k != t.pi ==> r[k] == ps[k])
      && r[t.pi].id == ps[t.pi].id && r[t.pi].heart == ps[t.pi].heart
      && r[t.pi].kills == ps[t.pi].kills + 1
      && |r[t.pi].enemies| == |ps[t.pi].enemies|
      && (forall j :: 0 <= j < |ps[t.pi].enemies| && j != t.ei ==> r[t.pi].enemies[j] == ps[t.pi].enemies[j])
      && !r[t.pi].enemies[t.ei].alive
      && AliveCount(r[t.pi].enemies) == AliveCount(ps[t.pi].enemies) - 1
  {
    var p := ps[t.pi];
    AliveCountKill(p.enemies, t.ei);
    var r := Kill(ps, t);
    assert PlayerValid(p);
    assert PoolValid(r[t.pi]) by {
      forall j | 0 <= j < |p.enemies|
        ensures r[t.pi].enemies[j].id == p.enemies[j].id
      {
      }
    }
  }

  /** The players after the one under `socketId` disconnects. */
  function Disconnect(ps: seq<Player>, i: nat): (r: seq<Player>)
    requires i < |ps|
  {
    ps[i := ps[i].(disconnected := true)]
  }

  /** Disconnecting changes only that player's connection flag, so the
      ids stay distinct and every record stays well formed. */
  lemma DisconnectKeeps(ps: seq<Player>, i: nat)
    requires i < |ps| && DistinctIds(ps) && AllValid(ps)
    ensures var r := Disconnect(ps, i);
      && |r| == |ps| && DistinctIds(r) && AllValid(r)
      && r[i].disconnected && r[i] == ps[i].(disconnected := true)
      && forall k :: 0 <= k < |ps| && k != i ==> r[k] == ps[k]
  {
    var r := Disconnect(ps, i);
    assert PlayerValid(ps[i]);
    assert PlayerValid(r[i]);
  }

  /** The players' part of a tick keeps a room well formed. */
  lemma TickPlayersValid(ps: seq<Player>, c: Ctx, draws: seq<SpawnDraw>)
    requires |draws| == |ps| && DrawsOk(draws) && WellFormed(c.phase) && AllValid(ps) && DistinctIds(ps)
    ensures |TickPlayers(ps, c, draws).players| == |ps|
    ensures DistinctIds(TickPlayers(ps, c, draws).players) && AllValid(TickPlayers(ps, c, draws).players)
  {
    TickPlayersKeeps(ps, c, draws);
    SameIdsDistinct(ps, TickPlayers(ps, c, draws).players);
  }

  /** The most live enemies a pool may hold at time `t` in a room created
      at `createdAt`: the cap of the phase the schedule is in at `t`. */
  function CapAt(createdAt: int, t: int): nat {
    GetDifficultyPhase((t - createdAt) / 1000).max
  }

  /** The cap holds from tick to tick: the phase's cap never falls as time
      goes on, so pools within the cap at the last tick are within the cap
      at the next one. This assumes the clock does not run backwards
      (`lastTick <= now`); the server reads a wall clock and does not check
      it. */
  lemma TickCap(ps: seq<Player>, roomId: string, started: bool, createdAt: int, lastTick: int, now: int,
                draws: seq<SpawnDraw>)
    requires |draws| == |ps| && DrawsOk(draws) && AllValid(ps)
    requires lastTick <= now && PoolsWithin(ps, CapAt(createdAt, lastTick))
    ensures PoolsWithin(TickPlayers(ps, ContextAt(roomId, started, createdAt, lastTick, now), draws).players,
                        CapAt(createdAt, now))
  {
    var c := ContextAt(roomId, started, createdAt, lastTick, now);
    CapMonotone(createdAt, lastTick, now);
    TickPlayersCap(ps, c, draws, CapAt(createdAt, lastTick));
  }

  /** The cap never falls as time goes on. */
  lemma CapMonotone(createdAt: int, t1: int, t2: int)
    requires t1 <= t2
    ensures CapAt(createdAt, t1) <= CapAt(createdAt, t2)
  {
    PhaseMonotone((t1 - createdAt) / 1000, (t2 - createdAt) / 1000);
  }

  /** Records with the same pools are within any cap their originals were
      within, and within any larger one. */
  lemma SamePoolsWithin(ps: seq<Player>, qs: seq<Player>, cap: int, cap': int)
    requires |qs| == |ps| && cap <= cap' && PoolsWithin(ps, cap)
    requires forall k :: 0 <= k < |ps| ==> qs[k].enemies == ps[k].enemies
    ensures PoolsWithin(qs, cap')
  {
  }

  /** Drawing the cooldowns leaves the pools alone, so pools within the cap
      at an earlier time are within the cap at `now`. */
  lemma CooldownsWithin(ps: seq<Player>, draws: seq<real>, createdAt: int, t: int, now: int)
    requires |draws| == |ps| && forall k :: 0 <= k < |draws| ==> 0.0 <= draws[k] < 1.0
    requires t <= now && PoolsWithin(ps, CapAt(createdAt, t))
    ensures PoolsWithin(WithCooldowns(ps, draws), CapAt(createdAt, now))
  {
    CapMonotone(createdAt, t, now);
    SamePoolsWithin(ps, WithCooldowns(ps, draws), CapAt(createdAt, t), CapAt(createdAt, now));
  }

  /** Disconnecting leaves every pool alone, so the cap still holds. */
  lemma DisconnectWithin(ps: seq<Player>, i: nat, cap: int)
    requires i < |ps| && PoolsWithin(ps, cap)
    ensures PoolsWithin(Disconnect(ps, i), cap)
  {
    var r := Disconnect(ps, i);
    forall k | 0 <= k < |r|
      ensures AliveCount(r[k].enemies) <= cap
    {
      assert r[k].enemies == ps[k].enemies;
    }
  }

  /** Reconnecting moves a pool, so every pool stays within the cap. */
  lemma RekeyWithin(ps: seq<Player>, i: nat, newId: string, cap: int)
    requires i < |ps| && PoolsWithin(ps, cap)
    ensures PoolsWithin(Rekey(ps, i, newId), cap)
  {
    var rest := DeleteAt(ps, i);
    var q := ps[i].(id := newId, disconnected := false);
    assert PoolsWithin(rest, cap) by {
      forall k | 0 <= k < |rest|
        ensures AliveCount(rest[k].enemies) <= cap
      {
        assert rest[k] == ps[if k < i then k else k + 1];
      }
    }
    var r := MapSet(rest, q);
    forall k | 0 <= k < |r|
      ensures AliveCount(r[k].enemies) <= cap
    {
      if k < |rest| && rest[k].id != q.id {
        assert r[k] == rest[k];
      } else {
        match FindPlayer(rest, q.id)
        case None =>
          assert r[k] == q;
        case Some(j) =>
          assert r == rest[j := q];
      }
    }
  }

  /** A tick keeps the player ids in place, so they stay distinct. */
  lemma SameIdsDistinct(ps: seq<Player>, qs: seq<Player>)
    requires DistinctIds(ps) && |qs| == |ps|
    requires forall k :: 0 <= k < |ps| ==> qs[k].id == ps[k].id
    ensures DistinctIds(qs)
  {
  }

  /** What a ready from `playerId` does to room `r` between two states.
      An unknown player changes nothing. Otherwise the player is marked
      ready and the room hears of it; when every player is then ready and
      connected and the match has not started, it starts at `now`: the
      loop is scheduled, the cooldowns are drawn from `draws` and every
      connected player gets its starting snapshot. */
  twostate predicate Readied(r: Room, playerId: string, now: int, draws: seq<real>, out: seq<Emit>)
    reads r
  {
    match FindPlayer(old(r.players), playerId)
    case None => unchanged(r) && out == []
    case Some(i) =>
      var readied := old(r.players)[i := old(r.players)[i].(ready := true)];
      var start := AllReady(readied) && !old(r.started);
      && (start ==> |draws| == |readied| && forall k :: 0 <= k < |draws| ==> 0.0 <= draws[k] < 1.0)
      && r.started == (old(r.started) || start)
      && r.ticking == (old(r.ticking) || start)
      && r.lastTick == (if start then now else old(r.lastTick))
      && r.players == (if start then WithCooldowns(readied, draws) else readied)
      && out == [Emit(ToRoom(r.id), PlayerReady(playerId))]
                + (if start then Snapshots(r.id, r.players, |r.players|, true) else [])
      && r.lastSnapshot == old(r.lastSnapshot) && r.lastHitTimes == old(r.lastHitTimes)
      && r.disconnectTimeout == old(r.disconnectTimeout) && r.graceTimers == old(r.graceTimers)
  }

  /** What a hit typed by `playerId` on enemy `enemyId` does to room `r`
      between two states. Within 200 ms of the player's last attempt it
      changes nothing. Otherwise the attempt time is recorded first,
      whether or not the hit then lands; a hit that lands kills that
      enemy, adds one to the player's kills, tells the player and sends
      the room its new stats. */
  twostate predicate HitBy(r: Room, playerId: string, enemyId: int, word: Option<string>, now: int, out: seq<Emit>)
    reads r
  {
    if now - LastHit(old(r.lastHitTimes), playerId) < HitCooldownMs then unchanged(r) && out == []
    else
      && old(DistinctIds(r.players) && AllValid(r.players))
      && r.lastHitTimes == old(r.lastHitTimes)[playerId := now]
      && (match JudgeHit(old(r.players), playerId, enemyId, word)
          case None => r.players == old(r.players) && out == []
          case Some(t) =>
            && r.players == Kill(old(r.players), t)
            && out == [Emit(ToPlayer(playerId), EnemyKilled(enemyId, playerId)),
                       Emit(ToRoom(r.id), PlayerStats(playerId, r.players[t.pi].heart, r.players[t.pi].kills))])
      && r.started == old(r.started) && r.ticking == old(r.ticking) && r.lastTick == old(r.lastTick)
      && r.lastSnapshot == old(r.lastSnapshot)
      && r.disconnectTimeout == old(r.disconnectTimeout) && r.graceTimers == old(r.graceTimers)
  }

  class Room {
    const id: string
    const createdAt: int
    var players: seq<Player>
    var started: bool
    /** Whether the game loop is scheduled (the source's `tickHandle`). */
    var ticking: bool
    var lastTick: int
    var lastSnapshot: Option<int>
    var lastHitTimes: map<string, int>
    /** The grace timer last armed for this room, if any. */
    var disconnectTimeout: Option<nat>
    /** The grace timers armed for this room and not yet fired or
        cleared, each with the connection whose leaving armed it. */
    var graceTimers: map<nat, string>

    /** One or two players with distinct ids, each record well formed. */
    ghost predicate Valid()
      reads this
    {
      1 <= |players| <= 2 && DistinctIds(players) && AllValid(players)
    }

    /** Every pool is within the cap of the phase at the last tick. */
    ghost predicate Capped()
      reads this
    {
      PoolsWithin(players, CapAt(createdAt, lastTick))
    }

    /** A new room for the connections `a` and `b`: two fresh players (one
        when both ids are equal, as a map built from two equal keys holds
        one entry), nothing started, no timers. */
    constructor(roomId: string, a: string, b: string, now: int)
      ensures Valid()
      ensures id == roomId && createdAt == now && lastTick == now
      ensures players == MapSet([NewPlayer(a)], NewPlayer(b))
      ensures |players| == (if a == b then 1 else 2)
      ensures !started && !ticking && lastSnapshot.None? && lastHitTimes == map[]
      ensures disconnectTimeout.None? && graceTimers == map[]
      ensures Capped()
    {
      id, createdAt, lastTick := roomId, now, now;
      players := MapSet([NewPlayer(a)], NewPlayer(b));
      started, ticking, lastSnapshot, lastHitTimes := false, false, None, map[];
      disconnectTimeout, graceTimers := None, map[];
    }

    /** A player declares itself ready. An unknown player changes nothing.
        Otherwise the player is marked ready and the room hears of it; when
        every player is then ready and connected and the match has not
        started, it starts. */
    method SetReady(playerId: string, now: int, draws: seq<real>) returns (out: seq<Emit>)
      requires Valid()
      requires |draws| == |players| && forall k :: 0 <= k < |draws| ==> 0.0 <= draws[k] < 1.0
      modifies this
      ensures Valid() && Readied(this, playerId, now, draws, out)
    {
      var found := FindPlayer(players, playerId);
      if found.None? {
        return [];
      }
      var i := found.value;
      MarkReadyKeeps(players, i);
      players := players[i := players[i].(ready := true)];
      out := [Emit(ToRoom(id), PlayerReady(playerId))];
      if AllReady(players) && !started {
        var snaps := StartMatch(now, draws);
        out := out + snaps;
      }
    }

    /** The match starts at `now`: every spawn cooldown is drawn from the
        first band's interval, the loop is scheduled, and every connected
        player gets its own starting snapshot. */
    method StartMatch(now: int, draws: seq<real>) returns (snaps: seq<Emit>)
      requires Valid() && !started
      requires |draws| == |players| && forall k :: 0 <= k < |draws| ==> 0.0 <= draws[k] < 1.0
      modifies this
      ensures Valid()
      ensures started && ticking && lastTick == now
      ensures players == WithCooldowns(old(players), draws)
      ensures snaps == Snapshots(id, players, |players|, true)
      ensures lastSnapshot == old(lastSnapshot) && lastHitTimes == old(lastHitTimes)
      ensures disconnectTimeout == old(disconnectTimeout) && graceTimers == old(graceTimers)
    {
      WithCooldownsKeeps(players, draws);
      var ps := DrawCooldowns(players, draws);
      snaps := CollectSnapshots(id, ps, true);
      players, started, ticking, lastTick := ps, true, true, now;
    }

    /** A hit typed by `playerId` on enemy `enemyId`. Within 200 ms of the
        player's last attempt it changes nothing. Otherwise the attempt
        time is recorded first, whether or not the hit then lands; a hit
        that lands kills that enemy, adds one to the player's kills, tells
        the player and sends the room its new stats. */
    method HandleHit(playerId: string, enemyId: int, word: Option<string>, now: int) returns (out: seq<Emit>)
      requires Valid()
      modifies this
      ensures Valid() && HitBy(this, playerId, enemyId, word, now, out)
      ensures old(Capped()) ==> Capped()
    {
      var last := LastHit(lastHitTimes, playerId);
      if now - last < HitCooldownMs {
        return [];
      }
      lastHitTimes := lastHitTimes[playerId := now];
      var verdict := JudgeHit(players, playerId, enemyId, word);
      if verdict.None? {
        return [];
      }
      var t := verdict.value;
      KillEffect(players, t);
      SameIdsDistinct(players, Kill(players, t));
      players := Kill(players, t);
      out := [Emit(ToPlayer(playerId), EnemyKilled(enemyId, playerId)),
              Emit(ToRoom(id), PlayerStats(playerId, players[t.pi].heart, players[t.pi].kills))];
    }

    /** The player under `oldId` comes back on connection `newId`. An
        unknown id changes nothing and reports false. Otherwise the record
        is moved to the new key with its state kept and marked connected,
        the grace timer last armed is cleared, and the room hears of it. */
    method ReassignPlayerSocket(oldId: string, newId: string) returns (ok: bool, out: seq<Emit>)
      requires Valid()
      modifies this
      ensures Valid()
      ensures ok <==> FindPlayer(old(players), oldId).Some?
      ensures !ok ==> unchanged(this) && out == []
      ensures ok ==>
        && players == Rekey(old(players), FindPlayer(old(players), oldId).value, newId)
        && disconnectTimeout.None?
        && graceTimers == (if old(disconnectTimeout).Some? then old(graceTimers) - {old(disconnectTimeout).value}
                           else old(graceTimers))
        && out == [Emit(ToRoom(id), PlayerRejoined(newId))]
      ensures started == old(started) && ticking == old(ticking) && lastTick == old(lastTick)
      ensures lastSnapshot == old(lastSnapshot) && lastHitTimes == old(lastHitTimes)
      ensures old(Capped()) ==> Capped()
    {
      var found := FindPlayer(players, oldId);
      if found.None? {
        return false, [];
      }
      var i := found.value;
      RekeyKeeps(players, i, newId);
      if Capped() {
        RekeyWithin(players, i, newId, CapAt(createdAt, lastTick));
      }
      players := Rekey(players, i, newId);
      if disconnectTimeout.Some? {
        graceTimers := graceTimers - {disconnectTimeout.value};
        disconnectTimeout := None;
      }
      ok, out := true, [Emit(ToRoom(id), PlayerRejoined(newId))];
    }

    /** The connection `socketId` went away: when it is a player of this
        room, that player is marked disconnected and a grace timer `timer`
        is armed, replacing the room's record of the last one without
        clearing it. */
    method MarkLeft(socketId: string, timer: nat) returns (found: bool)
      requires Valid()
      modifies this
      ensures Valid()
      ensures found <==> FindPlayer(old(players), socketId).Some?
      ensures !found ==> unchanged(this)
      ensures found ==>
        && players == Disconnect(old(players), FindPlayer(old(players), socketId).value)
        && disconnectTimeout == Some(timer)
        && graceTimers == old(graceTimers)[timer := socketId]
      ensures started == old(started) && ticking == old(ticking) && lastTick == old(lastTick)
      ensures lastSnapshot == old(lastSnapshot) && lastHitTimes == old(lastHitTimes)
    {
      var i := FindPlayer(players, socketId);
      if i.None? {
        return false;
      }
      DisconnectKeeps(players, i.value);
      players := Disconnect(players, i.value);
      disconnectTimeout := Some(timer);
      graceTimers := graceTimers[timer := socketId];
      found := true;
    }

    /** One run of the game loop at time `now`, with one spawn draw per
        player. The players take their turns in room order as
        `TickPlayers` says; when one is left without hearts the match ends
        there, the loop is unscheduled and nothing else happens. Otherwise
        a full snapshot goes to every connected player when one is due. */
    method Tick(now: int, draws: seq<SpawnDraw>) returns (out: seq<Emit>, ended: bool)
      requires Valid() && |draws| == |players| && DrawsOk(draws)
      modifies this
      ensures Valid()
      ensures var c := ContextAt(id, old(started), createdAt, old(lastTick), now);
        var R := TickPlayers(old(players), c, draws);
        && players == R.players && ended == R.loser.Some? && lastTick == now
        && ticking == (old(ticking) && !ended)
        && (ended ==> out == R.emits && lastSnapshot == old(lastSnapshot))
        && (!ended ==>
              var due := SnapshotDue(old(lastSnapshot), createdAt, now);
              && out == R.emits + (if due then Snapshots(id, players, |players|, false) else [])
              && lastSnapshot == (if due then Some(now) else old(lastSnapshot)))
      ensures started == old(started) && lastHitTimes == old(lastHitTimes)
      ensures disconnectTimeout == old(disconnectTimeout) && graceTimers == old(graceTimers)
      ensures old(Capped()) && old(lastTick) <= now ==> Capped()
    {
      var c := ContextAt(id, started, createdAt, lastTick, now);
      ghost var capped := Capped() && lastTick <= now;
      if capped {
        TickCap(players, id, started, createdAt, lastTick, now, draws);
      }
      ghost var cap := CapAt(createdAt, now);
      lastTick := now;
      TickPlayersValid(players, c, draws);
      var ps, loser;
      ps, out, loser := TakeTurns(players, c, draws);
      assert capped ==> PoolsWithin(ps, cap);
      players := ps;
      ended := loser.Some?;
      if ended {
        ticking := false;
        return;
      }
      var snaps := SnapshotIfDue(now);
      out := out + snaps;
    }

    /** The grace timer `timer` fires: the loop is unscheduled and every
        player other than the one whose leaving armed it hears that the
        opponent left; the players themselves are kept. */
    method GraceExpired(timer: nat) returns (out: seq<Emit>)
      requires timer in graceTimers
      modifies this
      ensures !ticking && graceTimers == old(graceTimers) - {timer}
      ensures out == LeftNotices(id, players, |players|, old(graceTimers)[timer])
      ensures players == old(players) && started == old(started) && lastTick == old(lastTick)
      ensures lastSnapshot == old(lastSnapshot) && lastHitTimes == old(lastHitTimes)
      ensures disconnectTimeout == old(disconnectTimeout)
      ensures old(Capped()) ==> Capped()
    {
      var leaver := graceTimers[timer];
      graceTimers := graceTimers - {timer};
      ticking := false;
      var ps := players;
      out := [];
      for k := 0 to |ps|
        invariant out == LeftNotices(id, ps, k, leaver)
      {
        if ps[k].id != leaver {
          out := out + [LeftNotice(id, ps[k].id, leaver)];
        }
      }
    }

    /** The periodic full snapshot: when one is due at `now`, every
        connected player gets its own `roomState` and the snapshot time
        is recorded; otherwise nothing happens. */
    method SnapshotIfDue(now: int) returns (snaps: seq<Emit>)
      modifies this
      ensures var due := SnapshotDue(old(lastSnapshot), createdAt, now);
        && snaps == (if due then Snapshots(id, players, |players|, false) else [])
        && lastSnapshot == (if due then Some(now) else old(lastSnapshot))
      ensures players == old(players) && started == old(started) && ticking == old(ticking)
      ensures lastTick == old(lastTick) && lastHitTimes == old(lastHitTimes)
      ensures disconnectTimeout == old(disconnectTimeout) && graceTimers == old(graceTimers)
    {
      snaps := [];
      if SnapshotDue(lastSnapshot, createdAt, now) {
        snaps := CollectSnapshots(id, players, false);
        lastSnapshot := Some(now);
      }
    }
  }
}
