/** The records a room keeps (enemies and players), their public views,
    the outbound messages, and the constructor of a freshly spawned enemy. */
module Entities {
  import opened Wrappers
  import opened Difficulty

  /** Arena geometry: centre (300, 300), spawn circle of radius 600 / 2 - 40,
      impact when within 24 units of the centre (compared squared). */
  const Center: real := 300.0
  const SpawnRadius: real := 260.0
  const ImpactRadiusSq: real := 576.0

  function Sq(v: real): real { v * v }

  /** Squared distance of a point to the arena centre. */
  function CenterDistSq(x: real, y: real): real { Sq(x - Center) + Sq(y - Center) }

  /** An enemy of one player's pool. The three `lastSent` fields are the
      server's record of what it last sent to the owner (null until sent). */
  datatype Enemy = Enemy(
    id: int,
    word: string,
    x: real, y: real,
    ux: real, uy: real,
    baseSpeed: real,
    alive: bool,
    ownerId: Option<string>,
    lastSentX: Option<real>,
    lastSentY: Option<real>,
    lastSentAlive: Option<bool>)

  /** An enemy as serialized to its owner: every field but the bookkeeping. */
  datatype EnemyView = EnemyView(
    id: int, word: string, x: real, y: real, ux: real, uy: real,
    baseSpeed: real, alive: bool, ownerId: Option<string>)

  /** A player record. The source keeps `id` and `socketId` equal at all
      times, so one field stands for both. `spawnCooldown` is null until
      the match starts. */
  datatype Player = Player(
    id: string,
    heart: int,
    kills: int,
    ready: bool,
    disconnected: bool,
    enemies: seq<Enemy>,
    nextEnemyId: int,
    spawnCooldown: Option<real>)

  /** The public stats of a player. */
  datatype PlayerView = PlayerView(
    id: string, heart: int, kills: int, ready: bool, socketId: string, disconnected: bool)

  /** The random inputs consumed by one spawn: the cosine and sine of the
      spawn angle, the speed and variety draws, the draw of the next spawn
      interval, and the word drawn from the vocabulary. */
  datatype SpawnDraw = SpawnDraw(
    cos: real, sin: real,
    speedDraw: real, varietyDraw: real, intervalDraw: real,
    word: string)

  ghost predicate DrawOk(d: SpawnDraw) {
    d.cos * d.cos + d.sin * d.sin == 1.0
    && 0.0 <= d.speedDraw < 1.0 && 0.0 <= d.varietyDraw < 1.0 && 0.0 <= d.intervalDraw < 1.0
  }

  /** One entry of an `enemyUpdate` message; `x`/`y` are absent when only
      the death of an enemy is reported. */
  datatype Update = Update(id: int, x: Option<real>, y: Option<real>, alive: bool)

  datatype Msg =
    | MatchFound(roomId: string, playerId: string, opponentId: string)
    | MatchStart(roomId: string, enemies: seq<EnemyView>, players: seq<PlayerView>)
    | PlayerReady(readyId: string)
    | SpawnEnemy(enemy: Enemy)
    | EnemyUpdate(updates: seq<Update>, t: int)
    | EnemyReached(enemyIds: seq<int>)
    | PlayerStats(statsId: string, heart: int, kills: int)
    | EnemyKilled(enemyId: int, killer: string)
    | MatchEnd(reason: string, winnerId: Option<string>, loserId: string, players: seq<PlayerView>)
    | PlayerRejoined(rejoinedId: string)
    | OpponentLeft(leftRoomId: string, leftBy: string)
    | RoomState(enemies: seq<EnemyView>, players: seq<PlayerView>)

  /** Where a message goes: one connection, or every member of a room. */
  datatype Recipient = ToPlayer(playerId: string) | ToRoom(roomId: string)

  datatype Emit = Emit(to: Recipient, msg: Msg)

  /** A new enemy with id `id`: it starts alive on the spawn circle, heads
      straight for the centre, and its speed is a draw from the phase's
      speed range scaled by the variety factor. */
  function CreateEnemy(id: int, phase: Phase, ownerId: Option<string>, d: SpawnDraw): (e: Enemy)
    requires DrawOk(d) && WellFormed(phase)
    ensures e.id == id && e.word == d.word && e.alive && e.ownerId == ownerId
    ensures e.lastSentX.None? && e.lastSentY.None? && e.lastSentAlive.None?
    ensures e.x == Center + d.cos * SpawnRadius && e.y == Center + d.sin * SpawnRadius
    ensures CenterDistSq(e.x, e.y) == Sq(SpawnRadius)
    ensures e.x + SpawnRadius * e.ux == Center && e.y + SpawnRadius * e.uy == Center
    ensures phase.speedMin * (1.0 - phase.variety / 2.0) <= e.baseSpeed
    ensures e.baseSpeed <= phase.speedMax * (1.0 + phase.variety / 2.0)
    ensures 0.0 < e.baseSpeed
  {
    var x := Center + d.cos * SpawnRadius;
    var y := Center + d.sin * SpawnRadius;
    var dx := Center - x;
    var dy := Center - y;
    // hypot(dx, dy) is exactly the spawn radius, since cos^2 + sin^2 = 1
    var dist := SpawnRadius;
    assert CenterDistSq(x, y) == Sq(SpawnRadius) by {
      assert Sq(x - Center) == (d.cos * d.cos) * Sq(SpawnRadius);
      assert Sq(y - Center) == (d.sin * d.sin) * Sq(SpawnRadius);
    }
    var speed := RandRange(phase.speedMin, phase.speedMax, d.speedDraw);
    var factor := 1.0 + (d.varietyDraw - 0.5) * phase.variety;
    SpeedBounds(phase, speed, factor, d.varietyDraw);
    Enemy(id, d.word, x, y, dx / dist, dy / dist, speed * factor, true, ownerId, None, None, None)
  }

  /** The variety factor lies within 1 -/+ variety/2 and is at least 1/2,
      so a speed drawn from a band's range, scaled by it, stays positive and
      within the band's range widened by the variety. */
  lemma SpeedBounds(phase: Phase, speed: real, factor: real, varietyDraw: real)
    requires 0.0 <= varietyDraw < 1.0 && WellFormed(phase)
    requires factor == 1.0 + (varietyDraw - 0.5) * phase.variety
    requires phase.speedMin <= speed <= phase.speedMax
    ensures phase.speedMin * (1.0 - phase.variety / 2.0) <= speed * factor
    ensures speed * factor <= phase.speedMax * (1.0 + phase.variety / 2.0)
    ensures 0.0 < speed * factor
  {
    var lo := 1.0 - phase.variety / 2.0;
    var hi := 1.0 + phase.variety / 2.0;
    MulMonotone(-0.5, varietyDraw - 0.5, phase.variety);
    MulMonotone(varietyDraw - 0.5, 0.5, phase.variety);
    assert phase.variety / 2.0 == 0.5 * phase.variety;
    assert factor == 1.0 + (varietyDraw - 0.5) * phase.variety;
    assert 0.5 <= lo <= factor <= hi;
    MulBounds(phase.speedMin, speed, phase.speedMax, lo, factor, hi);
    MulMonotone(0.5, factor, speed);
  }

  /** Multiplying by a non-negative number keeps the order. */
  lemma MulMonotone(a: real, b: real, c: real)
    requires a <= b && 0.0 <= c
    ensures a * c <= b * c && c * a <= c * b
  {
    assert b * c - a * c == (b - a) * c;
  }

  /** Products of non-negative numbers within bounds lie within the
      products of the bounds. */
  lemma MulBounds(a: real, x: real, b: real, c: real, y: real, d: real)
    requires 0.0 <= a <= x <= b && 0.0 <= c <= y <= d
    ensures a * c <= x * y <= b * d
  {
    MulMonotone(a, x, c);
    MulMonotone(c, y, x);
    MulMonotone(x, b, y);
    MulMonotone(y, d, b);
  }

  /** Index of the first player with id `id` (the source's `Map.get`). */
  function FindPlayer(ps: seq<Player>, id: string): (r: Option<nat>)
    ensures r.Some? ==> r.value < |ps| && ps[r.value].id == id
    ensures r.Some? ==> forall j :: 0 <= j < r.value ==> ps[j].id != id
    ensures r.None? ==> forall j :: 0 <= j < |ps| ==> ps[j].id != id
  {
    if ps == [] then None
    else if ps[0].id == id then Some(0)
    else match FindPlayer(ps[1..], id)
      case None => None
      case Some(i) => Some(i + 1)
  }

  /** Index of the first enemy with id `id` in a pool. */
  function FindEnemy(es: seq<Enemy>, id: int): (r: Option<nat>)
    ensures r.Some? ==> r.value < |es| && es[r.value].id == id
    ensures r.None? ==> forall j :: 0 <= j < |es| ==> es[j].id != id
  {
    if es == [] then None
    else if es[0].id == id then Some(0)
    else match FindEnemy(es[1..], id)
      case None => None
      case Some(i) => Some(i + 1)
  }

  /** Number of live enemies in a pool. */
  function AliveCount(es: seq<Enemy>): (n: nat)
    ensures n <= |es|
  {
    if es == [] then 0 else AliveCount(es[..|es| - 1]) + (if es[|es| - 1].alive then 1 else 0)
  }

  /** Player ids are distinct: the players of a room form a map. */
  ghost predicate DistinctIds(ps: seq<Player>) {
    forall i, j :: 0 <= i < j < |ps| ==> ps[i].id != ps[j].id
  }

  /** Enemy ids in a pool are strictly increasing, at least 1, and below
      the player's next enemy id. */
  ghost predicate PoolValid(p: Player) {
    1 <= p.nextEnemyId
    && (forall i, j :: 0 <= i < j < |p.enemies| ==> p.enemies[i].id < p.enemies[j].id)
    && (forall i :: 0 <= i < |p.enemies| ==> 1 <= p.enemies[i].id < p.nextEnemyId)
  }

  /** Hearts stay within [0, 3] and kills are never negative. */
  ghost predicate PlayerValid(p: Player) {
    0 <= p.heart <= 3 && 0 <= p.kills && PoolValid(p)
  }

  /** A player as created with a room: three hearts, no kills, empty pool. */
  function NewPlayer(id: string): (p: Player)
    ensures PlayerValid(p) && p.id == id && !p.ready && !p.disconnected
    ensures p.heart == 3 && p.kills == 0 && p.enemies == [] && p.nextEnemyId == 1
    ensures p.spawnCooldown.None?
  {
    Player(id, 3, 0, false, false, [], 1, None)
  }

  function ViewOfEnemy(e: Enemy): EnemyView {
    EnemyView(e.id, e.word, e.x, e.y, e.ux, e.uy, e.baseSpeed, e.alive, e.ownerId)
  }

  function ViewOfPlayer(p: Player): PlayerView {
    PlayerView(p.id, p.heart, p.kills, p.ready, p.id, p.disconnected)
  }

  /** A pool as sent to its owner: every enemy in pool order, bookkeeping
      fields dropped. */
  function EnemyViews(es: seq<Enemy>): (r: seq<EnemyView>)
    ensures |r| == |es|
    ensures forall i :: 0 <= i < |r| ==> r[i] == ViewOfEnemy(es[i])
  {
    if es == [] then [] else EnemyViews(es[..|es| - 1]) + [ViewOfEnemy(es[|es| - 1])]
  }

  /** `k` is the first index holding a player with id `id`. */
  ghost predicate FirstWith(ps: seq<Player>, id: string, k: int) {
    0 <= k < |ps| && ps[k].id == id && forall j :: 0 <= j < k ==> ps[j].id != id
  }

  /** The enemies of player `id` as sent to that player: the pool of the
      (first) player holding that id; nothing for an unknown id. */
  function SerializeEnemies(ps: seq<Player>, id: string): (r: seq<EnemyView>)
    ensures (forall j :: 0 <= j < |ps| ==> ps[j].id != id) ==> r == []
    ensures forall k :: FirstWith(ps, id, k) ==> r == EnemyViews(ps[k].enemies)
  {
    match FindPlayer(ps, id)
    case None => []
    case Some(i) =>
      assert forall k :: FirstWith(ps, id, k) ==> k == i;
      EnemyViews(ps[i].enemies)
  }

  /** The public stats of every player, in room order. */
  function SerializePlayers(ps: seq<Player>): (r: seq<PlayerView>)
    ensures |r| == |ps|
    ensures forall i :: 0 <= i < |r| ==> r[i] == ViewOfPlayer(ps[i])
  {
    if ps == [] then [] else SerializePlayers(ps[..|ps| - 1]) + [ViewOfPlayer(ps[|ps| - 1])]
  }
}
