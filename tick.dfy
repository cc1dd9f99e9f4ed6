/** One step of the room's game loop, as pure specification functions:
    moving one enemy, advancing a whole pool, spawning, the work done for
    one player, and the walk over all players with its early exit when a
    player's hearts run out. The methods AdvancePool and StepPlayer do the
    same work step by step, as the loop does, and are proved equal to it. */
module TickSpec {
  import opened Wrappers
  import opened Difficulty
  import opened Entities

  function Max(a: int, b: int): int { if a >= b then a else b }

  function Min(a: real, b: real): real { if a <= b then a else b }

  /** What one tick needs from its room and the clock: the tick length
      `dt` in seconds, the phase of the schedule, the time stamp and
      whether the match has started. */
  datatype Ctx = Ctx(roomId: string, started: bool, phase: Phase, dt: real, now: int)

  /** The context of a tick at time `now`: `dt` is the time since the last
      tick capped at 0.12 s, and the phase is taken at the whole seconds
      elapsed since the room was created (not since the match started). */
  function ContextAt(roomId: string, started: bool, createdAt: int, lastTick: int, now: int): (c: Ctx)
    ensures c.dt <= 0.12 && WellFormed(c.phase)
    ensures now - lastTick <= 120 ==> c.dt == (now - lastTick) as real / 1000.0
    ensures 120 <= now - lastTick ==> c.dt == 0.12
    ensures c.phase == GetDifficultyPhase((now - createdAt) / 1000)
    ensures c.roomId == roomId && c.started == started && c.now == now
  {
    Ctx(roomId, started, GetDifficultyPhase((now - createdAt) / 1000),
        Min(0.12, (now - lastTick) as real / 1000.0), now)
  }

  /** The result of moving one enemy: the enemy afterwards, the entry (if
      any) it adds to the owner's update, and whether it reached the centre
      in this tick. */
  datatype EnemyStep = EnemyStep(enemy: Enemy, updates: seq<Update>, reached: bool)

  /** Where a live enemy is after moving for `dt` seconds: `baseSpeed`
      units per 60 fps frame along its direction. */
  function StepX(e: Enemy, dt: real): real { e.x + e.ux * e.baseSpeed * (dt * 60.0) }

  function StepY(e: Enemy, dt: real): real { e.y + e.uy * e.baseSpeed * (dt * 60.0) }

  /** One enemy in one tick. A dead enemy only records that its death was
      sent; a live one moves `baseSpeed * dt * 60` along its direction,
      dies if it is now within 24 units of the centre, and is reported when
      it has moved more than one unit since it was last sent. */
  function MoveEnemy(e: Enemy, dt: real): (s: EnemyStep)
    ensures s.enemy.id == e.id && s.enemy.word == e.word
    ensures !e.alive ==> !s.enemy.alive && s.enemy.x == e.x && s.enemy.y == e.y
    ensures s.reached <==> e.alive && !s.enemy.alive
    ensures s.reached ==> CenterDistSq(s.enemy.x, s.enemy.y) <= ImpactRadiusSq
    ensures s.enemy.alive ==> ImpactRadiusSq < CenterDistSq(s.enemy.x, s.enemy.y)
    ensures !s.enemy.alive ==> s.enemy.lastSentAlive == Some(false)
    ensures !e.alive ==> s.updates == (if e.lastSentAlive == Some(false) then [] else [Update(e.id, None, None, false)])
    ensures |s.updates| <= 1
    ensures forall u :: u in s.updates ==> u.id == e.id && u.alive == s.enemy.alive
    // only position, liveness and the last-sent record ever change
    ensures s.enemy.ux == e.ux && s.enemy.uy == e.uy && s.enemy.baseSpeed == e.baseSpeed
    ensures s.enemy.ownerId == e.ownerId
    ensures e.alive ==> s.enemy.x == StepX(e, dt) && s.enemy.y == StepY(e, dt)
  {
    if !e.alive then
      EnemyStep(e.(lastSentAlive := Some(false)),
                if e.lastSentAlive != Some(false) then [Update(e.id, None, None, false)] else [],
                false)
    else
      var x := StepX(e, dt);
      var y := StepY(e, dt);
      if CenterDistSq(x, y) <= ImpactRadiusSq then
        EnemyStep(e.(x := x, y := y, alive := false,
                     lastSentX := Some(x), lastSentY := Some(y), lastSentAlive := Some(false)),
                  [Update(e.id, Some(x), Some(y), false)], true)
      else
        var lastX := e.lastSentX.GetOr(-9999.0);
        var lastY := e.lastSentY.GetOr(-9999.0);
        if Sq(x - lastX) + Sq(y - lastY) > 1.0 then
          EnemyStep(e.(x := x, y := y, lastSentX := Some(x), lastSentY := Some(y), lastSentAlive := Some(true)),
                    [Update(e.id, Some(x), Some(y), true)], false)
        else
          EnemyStep(e.(x := x, y := y), [], false)
  }

  /** What a tick reports about a live enemy: a hit on the centre is
      reported at the impact position; a survivor is reported, and its
      last-sent record moved to its new position, exactly when it moved
      more than one unit since it was last sent (a never-sent enemy
      counts as last sent at (-9999, -9999), so it is always reported). */
  lemma {:induction false} MoveEnemyReports(e: Enemy, dt: real)
    requires e.alive
    ensures var s := MoveEnemy(e, dt);
      var lastX := e.lastSentX.GetOr(-9999.0);
      var lastY := e.lastSentY.GetOr(-9999.0);
      var moved := Sq(s.enemy.x - lastX) + Sq(s.enemy.y - lastY) > 1.0;
      && (s.reached ==>
            && s.updates == [Update(e.id, Some(s.enemy.x), Some(s.enemy.y), false)]
            && s.enemy.lastSentX == Some(s.enemy.x) && s.enemy.lastSentY == Some(s.enemy.y))
      && (s.enemy.alive && moved ==>
            && s.updates == [Update(e.id, Some(s.enemy.x), Some(s.enemy.y), true)]
            && s.enemy.lastSentX == Some(s.enemy.x) && s.enemy.lastSentY == Some(s.enemy.y)
            && s.enemy.lastSentAlive == Some(true))
      && (s.enemy.alive && !moved ==>
            && s.updates == []
            && s.enemy.lastSentX == e.lastSentX && s.enemy.lastSentY == e.lastSentY
            && s.enemy.lastSentAlive == e.lastSentAlive)
  {
  }

  /** A dead enemy is reported as dead in at most one tick: once it has
      been moved while dead or killed by impact, later ticks report nothing
      about it and never revive it. */
  lemma DeathReportedOnce(e: Enemy, dt1: real, dt2: real)
    requires !MoveEnemy(e, dt1).enemy.alive
    ensures MoveEnemy(MoveEnemy(e, dt1).enemy, dt2).updates == []
    ensures !MoveEnemy(MoveEnemy(e, dt1).enemy, dt2).enemy.alive
  {
  }

  /** A whole pool after one tick, with the update list and the ids of the
      enemies that reached the centre, both in pool order. */
  datatype PoolStep = PoolStep(enemies: seq<Enemy>, changed: seq<Update>, reached: seq<int>)

  function AdvanceSpec(es: seq<Enemy>, dt: real): (r: PoolStep)
    ensures |r.enemies| == |es|
    ensures forall i :: 0 <= i < |es| ==> r.enemies[i] == MoveEnemy(es[i], dt).enemy
    decreases |es|
  {
    if es == [] then PoolStep([], [], [])
    else
      var prev := AdvanceSpec(es[..|es| - 1], dt);
      var s := MoveEnemy(es[|es| - 1], dt);
      PoolStep(prev.enemies + [s.enemy], prev.changed + s.updates,
               prev.reached + (if s.reached then [s.enemy.id] else []))
  }

  /** The body of the pool loop for one enemy, updating it field by field
      as the tick does. */
  method MoveOne(e0: Enemy, dt: real) returns (e: Enemy, updates: seq<Update>, reached: bool)
    ensures EnemyStep(e, updates, reached) == MoveEnemy(e0, dt)
  {
    e, updates, reached := e0, [], false;
    if !e.alive {
      if e.lastSentAlive != Some(false) {
        updates := [Update(e.id, None, None, false)];
      }
      e := e.(lastSentAlive := Some(false));
      assert MoveEnemy(e0, dt).enemy == e;
      assert MoveEnemy(e0, dt).updates == updates;
      assert !MoveEnemy(e0, dt).reached;
      return;
    }
    var x := e.x + e.ux * e.baseSpeed * (dt * 60.0);
    var y := e.y + e.uy * e.baseSpeed * (dt * 60.0);
    assert x == StepX(e0, dt) && y == StepY(e0, dt);
    e := e.(x := x, y := y);
    if CenterDistSq(x, y) <= ImpactRadiusSq {
      e := e.(alive := false);
      reached := true;
      updates := [Update(e.id, Some(x), Some(y), false)];
      e := e.(lastSentX := Some(x), lastSentY := Some(y), lastSentAlive := Some(false));
      return;
    }
    var lastX := e.lastSentX.GetOr(-9999.0);
    var lastY := e.lastSentY.GetOr(-9999.0);
    if Sq(x - lastX) + Sq(y - lastY) > 1.0 {
      updates := [Update(e.id, Some(x), Some(y), true)];
      e := e.(lastSentX := Some(x), lastSentY := Some(y), lastSentAlive := Some(true));
    }
  }

  /** The pool loop of the tick: every enemy is visited in pool order and
      updated, and the update list and the reached list are built as it
      goes. */
  method AdvancePool(es: seq<Enemy>, dt: real) returns (pool: seq<Enemy>, changed: seq<Update>, reached: seq<int>)
    ensures PoolStep(pool, changed, reached) == AdvanceSpec(es, dt)
  {
    pool, changed, reached := [], [], [];
    var i := 0;
    while i < |es|
      invariant 0 <= i <= |es|
      invariant PoolStep(pool, changed, reached) == AdvanceSpec(es[..i], dt)
    {
      var e, updates, hit := MoveOne(es[i], dt);
      AdvanceSnoc(es, i, dt);
      pool := pool + [e];
      changed := changed + updates;
      if hit {
        reached := reached + [e.id];
      }
      i := i + 1;
    }
    assert es[..|es|] == es;
  }

  /** One more enemy of the pool extends the pool step by its own move. */
  lemma AdvanceSnoc(es: seq<Enemy>, i: nat, dt: real)
    requires i < |es|
    ensures var prev, s := AdvanceSpec(es[..i], dt), MoveEnemy(es[i], dt);
      AdvanceSpec(es[..i + 1], dt) == PoolStep(prev.enemies + [s.enemy], prev.changed + s.updates,
                                               prev.reached + (if s.reached then [s.enemy.id] else []))
  {
    assert es[..i + 1][..i] == es[..i];
  }

  /** The hearts lost in a tick are exactly the enemies that went from
      alive to dead in it: the reached list is as long as the drop in the
      alive count. */
  lemma {:induction false} ReachedIsAliveDrop(es: seq<Enemy>, dt: real)
    ensures |AdvanceSpec(es, dt).reached| + AliveCount(AdvanceSpec(es, dt).enemies) == AliveCount(es)
    decreases |es|
  {
    if es != [] {
      var r := AdvanceSpec(es, dt);
      var init := es[..|es| - 1];
      ReachedIsAliveDrop(init, dt);
      assert r.enemies[..|es| - 1] == AdvanceSpec(init, dt).enemies;
    }
  }

  /** An id is in the reached list exactly when it is the id of an enemy of
      this pool that was alive before the tick and is dead after it. */
  lemma {:induction false} ReachedIds(es: seq<Enemy>, dt: real)
    ensures forall i :: 0 <= i < |es| && es[i].alive && !AdvanceSpec(es, dt).enemies[i].alive ==>
      es[i].id in AdvanceSpec(es, dt).reached
    ensures forall id :: id in AdvanceSpec(es, dt).reached ==>
      exists i :: 0 <= i < |es| && es[i].id == id && es[i].alive && !AdvanceSpec(es, dt).enemies[i].alive
    decreases |es|
  {
    if es != [] {
      var init := es[..|es| - 1];
      ReachedIds(init, dt);
      var r := AdvanceSpec(es, dt);
      var r0 := AdvanceSpec(init, dt);
      forall id | id in r.reached
        ensures exists i :: 0 <= i < |es| && es[i].id == id && es[i].alive && !r.enemies[i].alive
      {
        if id in r0.reached {
          var i :| 0 <= i < |init| && init[i].id == id && init[i].alive && !r0.enemies[i].alive;
          assert es[i] == init[i];
        } else {
          assert es[|es| - 1].id == id;
        }
      }
    }
  }

  /** Every entry of the update list names an enemy of this same pool. */
  lemma {:induction false} ChangedFromPool(es: seq<Enemy>, dt: real)
    ensures forall u :: u in AdvanceSpec(es, dt).changed ==> exists i :: 0 <= i < |es| && es[i].id == u.id
    decreases |es|
  {
    if es != [] {
      var init := es[..|es| - 1];
      ChangedFromPool(init, dt);
      forall u | u in AdvanceSpec(es, dt).changed
        ensures exists i :: 0 <= i < |es| && es[i].id == u.id
      {
        if u in AdvanceSpec(init, dt).changed {
          var i :| 0 <= i < |init| && init[i].id == u.id;
          assert es[i] == init[i];
        } else {
          assert es[|es| - 1].id == u.id;
        }
      }
    }
  }

  /** The spawn cooldown after this tick's decrement; a cooldown that was
      never set counts as 0, as `null - x` does. */
  function CooldownAfter(p: Player, dt: real): real {
    p.spawnCooldown.GetOr(0.0) - dt * 1000.0
  }

  datatype SpawnStep = SpawnStep(player: Player, spawned: Option<Enemy>)

  /** The spawn decision for one player: at most one enemy, only when the
      cooldown has run out and the player has fewer live enemies than the
      phase allows; the new enemy takes `nextEnemyId`, which then grows by
      one, and the cooldown is redrawn from the phase's interval. */
  function Spawn(p: Player, phase: Phase, dt: real, d: SpawnDraw): (s: SpawnStep)
    requires DrawOk(d) && WellFormed(phase)
    ensures s.spawned.Some? <==> CooldownAfter(p, dt) <= 0.0 && AliveCount(p.enemies) < phase.max
    ensures s.spawned.Some? ==>
      && s.spawned.value.id == p.nextEnemyId && s.spawned.value.alive
      && s.player.enemies == p.enemies + [s.spawned.value]
      && s.player.nextEnemyId == p.nextEnemyId + 1
      && s.player.spawnCooldown.Some?
      && phase.spawnMin as real <= s.player.spawnCooldown.value < phase.spawnMax as real
    ensures s.spawned.None? ==>
      s.player == p.(spawnCooldown := Some(CooldownAfter(p, dt)))
    ensures s.player.id == p.id && s.player.heart == p.heart && s.player.kills == p.kills
    ensures s.player.ready == p.ready && s.player.disconnected == p.disconnected
  {
    var cooldown := CooldownAfter(p, dt);
    if cooldown <= 0.0 && AliveCount(p.enemies) < phase.max then
      var e := CreateEnemy(p.nextEnemyId, phase, None, d);
      var next := RandRange(phase.spawnMin as real, phase.spawnMax as real, d.intervalDraw);
      SpawnStep(p.(enemies := p.enemies + [e], nextEnemyId := p.nextEnemyId + 1, spawnCooldown := Some(next)),
                Some(e))
    else
      SpawnStep(p.(spawnCooldown := Some(cooldown)), None)
  }

  /** The result of one player's part of a tick, with the ids of the
      enemies that reached the centre. */
  datatype PlayerStep = PlayerStep(player: Player, emits: seq<Emit>, reached: seq<int>, died: bool)

  /** The spawn block runs only once the match has started. */
  function SpawnIfStarted(p: Player, c: Ctx, d: SpawnDraw): (s: SpawnStep)
    requires DrawOk(d) && WellFormed(c.phase)
  {
    if c.started then Spawn(p, c.phase, c.dt, d) else SpawnStep(p, None)
  }

  /** A spawned enemy is announced to its owner only. */
  function SpawnEmits(id: string, s: SpawnStep): seq<Emit> {
    if s.spawned.Some? then [Emit(ToPlayer(id), SpawnEnemy(s.spawned.value))] else []
  }

  /** The rest of a connected player's tick: moving the pool, sending the
      update list to the owner, and when enemies reached the centre, losing
      that many hearts (not below 0), telling the owner and the room, and
      dying when no heart is left. */
  function MoveAndScore(q: Player, c: Ctx): (r: PlayerStep) {
    var adv := AdvanceSpec(q.enemies, c.dt);
    var updateEmits := if |adv.changed| > 0 then [Emit(ToPlayer(q.id), EnemyUpdate(adv.changed, c.now))] else [];
    if |adv.reached| > 0 then
      var heart := Max(0, q.heart - |adv.reached|);
      PlayerStep(q.(enemies := adv.enemies, heart := heart),
                 updateEmits + [Emit(ToPlayer(q.id), EnemyReached(adv.reached)),
                                Emit(ToRoom(c.roomId), PlayerStats(q.id, heart, q.kills))],
                 adv.reached, heart <= 0)
    else
      PlayerStep(q.(enemies := adv.enemies), updateEmits, [], false)
  }

  /** One connected player's part of a tick: spawn, then move and score. */
  function PlayerTick(p: Player, c: Ctx, d: SpawnDraw): (r: PlayerStep)
    requires DrawOk(d) && WellFormed(c.phase)
  {
    var sp := SpawnIfStarted(p, c, d);
    var rest := MoveAndScore(sp.player, c);
    PlayerStep(rest.player, SpawnEmits(p.id, sp) + rest.emits, rest.reached, rest.died)
  }

  /** The spawn block of the tick for one player, updating the record as
      the tick does. */
  method SpawnFor(p: Player, phase: Phase, dt: real, d: SpawnDraw) returns (q: Player, spawned: Option<Enemy>)
    requires DrawOk(d) && WellFormed(phase)
    ensures SpawnStep(q, spawned) == Spawn(p, phase, dt, d)
  {
    q := p.(spawnCooldown := Some(CooldownAfter(p, dt)));
    spawned := None;
    var aliveCount := AliveCount(q.enemies);
    if q.spawnCooldown.value <= 0.0 && aliveCount < phase.max {
      var e := CreateEnemy(q.nextEnemyId, phase, None, d);
      q := q.(nextEnemyId := q.nextEnemyId + 1, enemies := q.enemies + [e]);
      spawned := Some(e);
      q := q.(spawnCooldown := Some(RandRange(phase.spawnMin as real, phase.spawnMax as real, d.intervalDraw)));
    }
  }

  /** The move-and-score block of the tick, updating the record step by
      step. */
  method Settle(q0: Player, c: Ctx) returns (q: Player, out: seq<Emit>, reached: seq<int>, died: bool)
    ensures PlayerStep(q, out, reached, died) == MoveAndScore(q0, c)
  {
    var pool, changed;
    pool, changed, reached := AdvancePool(q0.enemies, c.dt);
    q, out, died := q0.(enemies := pool), [], false;
    if |changed| > 0 {
      out := [Emit(ToPlayer(q.id), EnemyUpdate(changed, c.now))];
    }
    if |reached| > 0 {
      q := q.(heart := Max(0, q.heart - |reached|));
      out := out + [Emit(ToPlayer(q.id), EnemyReached(reached)),
                    Emit(ToRoom(c.roomId), PlayerStats(q.id, q.heart, q.kills))];
      died := q.heart <= 0;
    } else {
      reached := [];
    }
  }

  /** The imperative form of one player's part of the tick. */
  method StepPlayer(p: Player, c: Ctx, d: SpawnDraw) returns (q: Player, out: seq<Emit>, reached: seq<int>, died: bool)
    requires DrawOk(d) && WellFormed(c.phase)
    ensures PlayerStep(q, out, reached, died) == PlayerTick(p, c, d)
  {
    q, out := p, [];
    if c.started {
      var spawned;
      q, spawned := SpawnFor(p, c.phase, c.dt, d);
      if spawned.Some? {
        out := [Emit(ToPlayer(p.id), SpawnEnemy(spawned.value))];
      }
    }
    var rest;
    q, rest, reached, died := Settle(q, c);
    out := out + rest;
  }

  lemma AliveCountAppend(es: seq<Enemy>, e: Enemy)
    ensures AliveCount(es + [e]) == AliveCount(es) + (if e.alive then 1 else 0)
  {
    assert (es + [e])[..|es|] == es;
  }

  /** The spawn step keeps the pool well formed: a new enemy gets a fresh
      id larger than every id in the pool, and the next id moves past it. */
  lemma SpawnKeepsPool(p: Player, c: Ctx, d: SpawnDraw)
    requires DrawOk(d) && WellFormed(c.phase) && PoolValid(p)
    ensures PoolValid(SpawnIfStarted(p, c, d).player)
  {
  }

  /** The spawn step adds at most one enemy, alive, and only when the match
      has started, the cooldown ran out and fewer than `phase.max` enemies
      are alive; so the cap is respected. */
  lemma SpawnCap(p: Player, c: Ctx, d: SpawnDraw)
    requires DrawOk(d) && WellFormed(c.phase)
    ensures var s := SpawnIfStarted(p, c, d);
      && |p.enemies| <= |s.player.enemies| <= |p.enemies| + 1
      && AliveCount(s.player.enemies) - |s.player.enemies| == AliveCount(p.enemies) - |p.enemies|
      && (|s.player.enemies| == |p.enemies| + 1 ==>
            c.started && CooldownAfter(p, c.dt) <= 0.0 && AliveCount(p.enemies) < c.phase.max
            && s.player.enemies[|p.enemies|].id == p.nextEnemyId)
  {
    var s := SpawnIfStarted(p, c, d);
    if s.spawned.Some? {
      AliveCountAppend(p.enemies, s.spawned.value);
    }
  }

  /** Moving and scoring touches only the pool and the hearts: the pool is
      replaced by the moved one, one heart is lost per enemy that reached
      the centre (down to 0), and the player dies exactly when enemies
      reached the centre and no heart is left. */
  lemma MoveAndScoreFields(q: Player, c: Ctx)
    requires 0 <= q.heart
    ensures var r := MoveAndScore(q, c);
      && r.player == q.(enemies := AdvanceSpec(q.enemies, c.dt).enemies, heart := r.player.heart)
      && r.reached == AdvanceSpec(q.enemies, c.dt).reached
      && r.player.heart == Max(0, q.heart - |r.reached|)
      && (r.died <==> |r.reached| > 0 && r.player.heart == 0)
  {
  }

  /** A tick keeps the ids of a pool, position by position. */
  lemma AdvanceKeepsIds(es: seq<Enemy>, dt: real)
    ensures |AdvanceSpec(es, dt).enemies| == |es|
    ensures forall i :: 0 <= i < |es| ==> AdvanceSpec(es, dt).enemies[i].id == es[i].id
  {
    var r := AdvanceSpec(es, dt);
    forall i | 0 <= i < |es|
      ensures r.enemies[i].id == es[i].id
    {
      assert r.enemies[i] == MoveEnemy(es[i], dt).enemy;
    }
  }

  lemma PoolValidSameIds(p: Player, es: seq<Enemy>)
    requires PoolValid(p) && |es| == |p.enemies|
    requires forall i :: 0 <= i < |es| ==> es[i].id == p.enemies[i].id
    ensures PoolValid(p.(enemies := es))
  {
  }

  /** Moving and scoring keeps the record well formed, and the enemies
      that reached the centre are exactly the drop in the alive count. */
  lemma MoveAndScoreValid(q: Player, c: Ctx)
    requires PlayerValid(q)
    ensures PlayerValid(MoveAndScore(q, c).player)
    ensures |MoveAndScore(q, c).reached| + AliveCount(MoveAndScore(q, c).player.enemies) == AliveCount(q.enemies)
  {
    MoveAndScoreFields(q, c);
    AdvanceKeepsIds(q.enemies, c.dt);
    PoolValidSameIds(q, AdvanceSpec(q.enemies, c.dt).enemies);
    ReachedIsAliveDrop(q.enemies, c.dt);
  }

  /** One player's tick changes neither identity, kills nor readiness,
      costs one heart per enemy that reached the centre (down to 0), and
      the player dies exactly when enemies reached it and no heart is
      left. */
  lemma PlayerTickFields(p: Player, c: Ctx, d: SpawnDraw)
    requires DrawOk(d) && WellFormed(c.phase) && 0 <= p.heart
    ensures var r := PlayerTick(p, c, d);
      && r.player.id == p.id && r.player.kills == p.kills
      && r.player.ready == p.ready && r.player.disconnected == p.disconnected
      && r.player.heart == Max(0, p.heart - |r.reached|)
      && (r.died <==> |r.reached| > 0 && r.player.heart == 0)
  {
    MoveAndScoreFields(SpawnIfStarted(p, c, d).player, c);
  }

  /** One player's tick keeps the record well formed (hearts in [0, 3],
      pool ids strictly increasing and below the next id) and keeps the
      live enemies at or below `max(before, cap)`: so a pool that was
      within the phase's cap stays within it. */
  lemma PlayerTickValid(p: Player, c: Ctx, d: SpawnDraw)
    requires DrawOk(d) && WellFormed(c.phase) && PlayerValid(p)
    ensures PlayerValid(PlayerTick(p, c, d).player)
    ensures AliveCount(PlayerTick(p, c, d).player.enemies) <= Max(AliveCount(p.enemies), c.phase.max)
  {
    var sp := SpawnIfStarted(p, c, d);
    SpawnKeepsPool(p, c, d);
    SpawnCap(p, c, d);
    MoveAndScoreValid(sp.player, c);
  }

  /** A message of a player's tick that concerns its pool goes to that
      player alone and names only enemies of its own pool; the room hears
      only the player's public stats. */
  ghost predicate OwnerOnly(e: Emit, owner: Player, roomId: string) {
    match e.msg
    case SpawnEnemy(en) =>
      e.to == ToPlayer(owner.id) && exists x :: x in owner.enemies && x.id == en.id
    case EnemyUpdate(us, _) =>
      e.to == ToPlayer(owner.id) && forall u :: u in us ==> exists x :: x in owner.enemies && x.id == u.id
    case EnemyReached(ids) =>
      e.to == ToPlayer(owner.id) && forall id :: id in ids ==> exists x :: x in owner.enemies && x.id == id
    case PlayerStats(who, heart, kills) =>
      e.to == ToRoom(roomId) && who == owner.id && heart == owner.heart && kills == owner.kills
    case _ => false
  }

  lemma MoveAndScoreOwnerOnly(q: Player, c: Ctx)
    ensures var r := MoveAndScore(q, c);
      forall e :: e in r.emits ==> OwnerOnly(e, r.player, c.roomId)
  {
    var adv := AdvanceSpec(q.enemies, c.dt);
    var r := MoveAndScore(q, c);
    ReportsNamePool(q.enemies, c.dt);
    assert r.player.enemies == adv.enemies;
    forall e | e in r.emits
      ensures OwnerOnly(e, r.player, c.roomId)
    {
      match e.msg
      case EnemyUpdate(us, _) =>
        assert us == adv.changed;
      case EnemyReached(ids) =>
        assert ids == adv.reached;
      case _ =>
    }
  }

  /** Every id in the update list or the reached list of a pool's tick is
      the id of an enemy of the pool afterwards. */
  lemma ReportsNamePool(es: seq<Enemy>, dt: real)
    ensures var adv := AdvanceSpec(es, dt);
      && (forall u :: u in adv.changed ==> exists x :: x in adv.enemies && x.id == u.id)
      && (forall id :: id in adv.reached ==> exists x :: x in adv.enemies && x.id == id)
  {
    var adv := AdvanceSpec(es, dt);
    ChangedFromPool(es, dt);
    ReachedIds(es, dt);
    forall u | u in adv.changed
      ensures exists x :: x in adv.enemies && x.id == u.id
    {
      var i :| 0 <= i < |es| && es[i].id == u.id;
      assert adv.enemies[i] in adv.enemies;
    }
    forall id | id in adv.reached
      ensures exists x :: x in adv.enemies && x.id == id
    {
      var i :| 0 <= i < |es| && es[i].id == id && es[i].alive && !adv.enemies[i].alive;
      assert adv.enemies[i] in adv.enemies;
    }
  }

  /** Everything a player's tick sends about its pool goes to that player
      alone and names only its own enemies; the room hears only its stats. */
  lemma PlayerTickOwnerOnly(p: Player, c: Ctx, d: SpawnDraw)
    requires DrawOk(d) && WellFormed(c.phase)
    ensures var r := PlayerTick(p, c, d);
      forall e :: e in r.emits ==> OwnerOnly(e, r.player, c.roomId)
  {
    var sp := SpawnIfStarted(p, c, d);
    var rest := MoveAndScore(sp.player, c);
    MoveAndScoreOwnerOnly(sp.player, c);
    if sp.spawned.Some? {
      var k := |p.enemies|;
      assert sp.player.enemies[k].id == sp.spawned.value.id;
      assert rest.player.enemies[k].id == sp.spawned.value.id;
      assert rest.player.enemies[k] in rest.player.enemies;
    }
  }

  /** The id of the first player other than `id`: the winner lookup. */
  function FirstOther(ps: seq<Player>, id: string): (r: Option<string>)
    ensures r.Some? ==> r.value != id && exists k :: 0 <= k < |ps| && ps[k].id == r.value
    ensures r.None? ==> forall k :: 0 <= k < |ps| ==> ps[k].id == id
  {
    if ps == [] then None
    else if ps[0].id != id then Some(ps[0].id)
    else
      var r := FirstOther(ps[1..], id);
      assert r.Some? ==> exists k :: 0 <= k < |ps| && ps[k].id == r.value by {
        if r.Some? {
          var k :| 0 <= k < |ps[1..]| && ps[1..][k].id == r.value;
          assert ps[k + 1].id == r.value;
        }
      }
      r
  }

  ghost predicate DrawsOk(draws: seq<SpawnDraw>) {
    forall k :: 0 <= k < |draws| ==> DrawOk(draws[k])
  }

  /** The match-end message for a room whose player `loserId` has no heart
      left: the winner is the first other player, and the public stats of
      everyone go with it. */
  function MatchEndEmit(roomId: string, ps: seq<Player>, loserId: string): Emit {
    Emit(ToRoom(roomId), MatchEnd("player_died", FirstOther(ps, loserId), loserId, SerializePlayers(ps)))
  }

  /** Number of match-end messages in a list of emits. */
  function MatchEnds(es: seq<Emit>): nat {
    if es == [] then 0 else (if es[0].msg.MatchEnd? then 1 else 0) + MatchEnds(es[1..])
  }

  lemma {:induction false} MatchEndsAppend(a: seq<Emit>, b: seq<Emit>)
    ensures MatchEnds(a + b) == MatchEnds(a) + MatchEnds(b)
    decreases |a|
  {
    if a == [] {
      assert a + b == b;
    } else {
      assert (a + b)[0] == a[0];
      assert (a + b)[1..] == a[1..] + b;
      MatchEndsAppend(a[1..], b);
    }
  }

  lemma {:induction false} NoMatchEnds(es: seq<Emit>)
    requires forall e :: e in es ==> !e.msg.MatchEnd?
    ensures MatchEnds(es) == 0
    decreases |es|
  {
    if es != [] {
      assert es[0] in es;
      assert forall e :: e in es[1..] ==> e in es;
      NoMatchEnds(es[1..]);
    }
  }

  /** What the walk over the players relies on about one connected
      player's step: the same player, connected, still well formed, with no
      more hearts than before, no match end of its own, and no heart left
      when it died. */
  ghost predicate StepOk(s: PlayerStep, p: Player) {
    && s.player.id == p.id && s.player.kills == p.kills
    && s.player.ready == p.ready && s.player.disconnected == p.disconnected
    && PlayerValid(s.player) && s.player.heart <= p.heart
    && MatchEnds(s.emits) == 0
    && (s.died ==> s.player.heart == 0)
  }

  /** One player's tick never ends the match by itself. */
  lemma PlayerTickNoEnd(p: Player, c: Ctx, d: SpawnDraw)
    requires DrawOk(d) && WellFormed(c.phase)
    ensures MatchEnds(PlayerTick(p, c, d).emits) == 0
  {
    var r := PlayerTick(p, c, d);
    PlayerTickOwnerOnly(p, c, d);
    forall e | e in r.emits
      ensures !e.msg.MatchEnd?
    {
      assert OwnerOnly(e, r.player, c.roomId);
    }
    NoMatchEnds(r.emits);
  }

  /** One player's tick leaves the record as the walk needs it. */
  lemma PlayerTickOk(p: Player, c: Ctx, d: SpawnDraw)
    requires DrawOk(d) && WellFormed(c.phase) && PlayerValid(p)
    ensures StepOk(PlayerTick(p, c, d), p)
  {
    PlayerTickFields(p, c, d);
    PlayerTickValid(p, c, d);
    PlayerTickNoEnd(p, c, d);
  }

  datatype TickOutcome = TickOutcome(players: seq<Player>, emits: seq<Emit>, loser: Option<string>)

  /** The walk over the players of a room from index `i` on, in room order,
      given each player's step: disconnected players are skipped, every
      other player's record is replaced by its step's record, and the walk
      stops at the first player whose step left it without hearts,
      announcing the end of the match with the players as they are then. */
  function Walk(ps: seq<Player>, steps: seq<PlayerStep>, i: nat, roomId: string): (R: TickOutcome)
    requires |steps| == |ps| && i <= |ps|
    decreases |ps| - i
  {
    if i == |ps| then TickOutcome(ps, [], None)
    else if ps[i].disconnected then Walk(ps, steps, i + 1, roomId)
    else
      var ps' := ps[i := steps[i].player];
      if steps[i].died then
        TickOutcome(ps', steps[i].emits + [MatchEndEmit(roomId, ps', ps[i].id)], Some(ps[i].id))
      else
        var rest := Walk(ps', steps, i + 1, roomId);
        TickOutcome(rest.players, steps[i].emits + rest.emits, rest.loser)
  }

  /** Every player's step, each taken from that player's record before
      the tick: a player's part of the tick reads and writes its own record
      only, so the records of later players are still these when their turn
      comes. */
  function Steps(ps: seq<Player>, c: Ctx, draws: seq<SpawnDraw>): (s: seq<PlayerStep>)
    requires |draws| == |ps| && DrawsOk(draws) && WellFormed(c.phase)
    ensures |s| == |ps|
    decreases |ps|
  {
    if ps == [] then []
    else
      var n := |ps| - 1;
      Steps(ps[..n], c, draws[..n]) + [PlayerTick(ps[n], c, draws[n])]
  }

  /** The step of player `k` is its own tick, taken from its record. */
  lemma {:induction false} StepsAt(ps: seq<Player>, c: Ctx, draws: seq<SpawnDraw>, k: nat)
    requires |draws| == |ps| && DrawsOk(draws) && WellFormed(c.phase) && k < |ps|
    ensures Steps(ps, c, draws)[k] == PlayerTick(ps[k], c, draws[k])
    decreases |ps|
  {
    var n := |ps| - 1;
    var s := Steps(ps[..n], c, draws[..n]);
    assert Steps(ps, c, draws) == s + [PlayerTick(ps[n], c, draws[n])];
    if k < n {
      StepsAt(ps[..n], c, draws[..n], k);
      assert ps[..n][k] == ps[k] && draws[..n][k] == draws[k];
    }
  }

  /** The players' part of one tick of a room. */
  function TickPlayers(ps: seq<Player>, c: Ctx, draws: seq<SpawnDraw>): TickOutcome
    requires |draws| == |ps| && DrawsOk(draws) && WellFormed(c.phase)
  {
    Walk(ps, Steps(ps, c, draws), 0, c.roomId)
  }

  /** The first connected player at or after `i` whose step leaves it
      without hearts, or `|ps|` when there is none. */
  function WalkStop(ps: seq<Player>, steps: seq<PlayerStep>, i: nat): (j: nat)
    requires |steps| == |ps| && i <= |ps|
    ensures i <= j <= |ps|
    ensures j < |ps| ==> !ps[j].disconnected && steps[j].died
    ensures forall k :: i <= k < j ==> ps[k].disconnected || !steps[k].died
    decreases |ps| - i
  {
    if i == |ps| then |ps|
    else if !ps[i].disconnected && steps[i].died then i
    else WalkStop(ps, steps, i + 1)
  }

  lemma {:induction false} WalkStopSame(ps: seq<Player>, qs: seq<Player>, steps: seq<PlayerStep>, i: nat)
    requires |steps| == |ps| == |qs| && i <= |ps|
    requires forall k :: i <= k < |ps| ==> qs[k].disconnected == ps[k].disconnected
    ensures WalkStop(qs, steps, i) == WalkStop(ps, steps, i)
    decreases |ps| - i
  {
    if i < |ps| {
      WalkStopSame(ps, qs, steps, i + 1);
    }
  }

  /** The walk keeps the players in place and its loser is the player at
      the stopping point, if any. */
  lemma {:induction false} WalkLoser(ps: seq<Player>, steps: seq<PlayerStep>, i: nat, roomId: string)
    requires |steps| == |ps| && i <= |ps|
    ensures |Walk(ps, steps, i, roomId).players| == |ps|
    ensures Walk(ps, steps, i, roomId).loser ==
      (if WalkStop(ps, steps, i) < |ps| then Some(ps[WalkStop(ps, steps, i)].id) else None)
    decreases |ps| - i
  {
    if i < |ps| {
      if ps[i].disconnected {
        WalkLoser(ps, steps, i + 1, roomId);
      } else if !steps[i].died {
        var ps' := ps[i := steps[i].player];
        WalkLoser(ps', steps, i + 1, roomId);
        WalkStopSame(ps, ps', steps, i + 1);
      }
    }
  }

  /** A connected player up to the stopping point gets its step's record;
      every other player is untouched. */
  lemma {:induction false} WalkPlayers(ps: seq<Player>, steps: seq<PlayerStep>, i: nat, roomId: string)
    requires |steps| == |ps| && i <= |ps|
    ensures |Walk(ps, steps, i, roomId).players| == |ps|
    ensures forall k :: 0 <= k < |ps| ==>
      Walk(ps, steps, i, roomId).players[k] ==
        (if i <= k <= WalkStop(ps, steps, i) && !ps[k].disconnected then steps[k].player else ps[k])
    decreases |ps| - i
  {
    if i == |ps| {
      assert Walk(ps, steps, i, roomId).players == ps;
    } else if ps[i].disconnected {
      WalkPlayers(ps, steps, i + 1, roomId);
      assert Walk(ps, steps, i, roomId) == Walk(ps, steps, i + 1, roomId);
      assert WalkStop(ps, steps, i) == WalkStop(ps, steps, i + 1);
    } else if steps[i].died {
      assert Walk(ps, steps, i, roomId).players == ps[i := steps[i].player];
      assert WalkStop(ps, steps, i) == i;
    } else {
      var ps' := ps[i := steps[i].player];
      WalkPlayers(ps', steps, i + 1, roomId);
      WalkStopSame(ps, ps', steps, i + 1);
      var R := Walk(ps', steps, i + 1, roomId);
      assert Walk(ps, steps, i, roomId).players == R.players;
      var stop := WalkStop(ps, steps, i);
      assert stop == WalkStop(ps', steps, i + 1);
      forall k | 0 <= k < |ps|
        ensures R.players[k] == (if i <= k <= stop && !ps[k].disconnected then steps[k].player else ps[k])
      {
        if k > i {
          assert ps'[k] == ps[k];
        }
      }
    }
  }

  /** The match ends at most once per tick: there is exactly one match-end
      message when the walk found a loser and none otherwise, and then it
      is the last message and carries the players as the walk left them. */
  lemma {:induction false} WalkEnds(ps: seq<Player>, steps: seq<PlayerStep>, i: nat, roomId: string)
    requires |steps| == |ps| && i <= |ps|
    requires forall k :: i <= k < |ps| && !ps[k].disconnected ==> MatchEnds(steps[k].emits) == 0
    ensures var R := Walk(ps, steps, i, roomId);
      && MatchEnds(R.emits) == (if R.loser.Some? then 1 else 0)
      && (R.loser.Some? ==>
            R.emits != [] && R.emits[|R.emits| - 1] == MatchEndEmit(roomId, R.players, R.loser.value))
    decreases |ps| - i
  {
    if i < |ps| {
      if ps[i].disconnected {
        WalkEnds(ps, steps, i + 1, roomId);
      } else {
        var ps' := ps[i := steps[i].player];
        if steps[i].died {
          var last := [MatchEndEmit(roomId, ps', ps[i].id)];
          MatchEndsAppend(steps[i].emits, last);
          assert MatchEnds(last) == 1;
        } else {
          WalkEnds(ps', steps, i + 1, roomId);
          var rest := Walk(ps', steps, i + 1, roomId);
          MatchEndsAppend(steps[i].emits, rest.emits);
          if rest.loser.Some? {
            var all := steps[i].emits + rest.emits;
            assert all[|all| - 1] == rest.emits[|rest.emits| - 1];
          }
        }
      }
    }
  }

  /** Every message of the walk other than the match end comes from the
      step of a connected player the walk reached. */
  lemma {:induction false} WalkSources(ps: seq<Player>, steps: seq<PlayerStep>, i: nat, roomId: string)
    requires |steps| == |ps| && i <= |ps|
    ensures forall e :: e in Walk(ps, steps, i, roomId).emits ==>
      (e.msg.MatchEnd? ||
       exists k :: i <= k <= WalkStop(ps, steps, i) && k < |ps| && !ps[k].disconnected && e in steps[k].emits)
    decreases |ps| - i
  {
    if i < |ps| {
      if ps[i].disconnected {
        WalkSources(ps, steps, i + 1, roomId);
      } else if !steps[i].died {
        var ps' := ps[i := steps[i].player];
        WalkSources(ps', steps, i + 1, roomId);
        WalkStopSame(ps, ps', steps, i + 1);
      }
    }
  }

  ghost predicate AllValid(ps: seq<Player>) {
    forall k {:trigger PlayerValid(ps[k])} :: 0 <= k < |ps| ==> PlayerValid(ps[k])
  }

  /** Every connected player's step is as the walk needs it. */
  lemma StepsOk(ps: seq<Player>, c: Ctx, draws: seq<SpawnDraw>)
    requires |draws| == |ps| && DrawsOk(draws) && WellFormed(c.phase) && AllValid(ps)
    ensures forall k :: 0 <= k < |ps| ==> StepOk(Steps(ps, c, draws)[k], ps[k])
  {
    forall k | 0 <= k < |ps|
      ensures StepOk(Steps(ps, c, draws)[k], ps[k])
    {
      StepsAt(ps, c, draws, k);
      PlayerTickOk(ps[k], c, draws[k]);
    }
  }

  /** The players' part of a tick keeps the room's players in place: same
      ids in the same order, kills and readiness unchanged, every record
      well formed with hearts never rising, and disconnected players not
      touched at all. */
  lemma TickPlayersKeeps(ps: seq<Player>, c: Ctx, draws: seq<SpawnDraw>)
    requires |draws| == |ps| && DrawsOk(draws) && WellFormed(c.phase) && AllValid(ps)
    ensures var R := TickPlayers(ps, c, draws);
      && |R.players| == |ps| && AllValid(R.players)
      && (forall k :: 0 <= k < |ps| ==>
            && R.players[k].id == ps[k].id && R.players[k].kills == ps[k].kills
            && R.players[k].ready == ps[k].ready && R.players[k].disconnected == ps[k].disconnected
            && R.players[k].heart <= ps[k].heart)
      && (forall k :: 0 <= k < |ps| && ps[k].disconnected ==> R.players[k] == ps[k])
  {
    StepsOk(ps, c, draws);
    WalkPlayers(ps, Steps(ps, c, draws), 0, c.roomId);
  }

  /** No pool holds more than `cap` live enemies. */
  ghost predicate PoolsWithin(ps: seq<Player>, cap: int) {
    forall k :: 0 <= k < |ps| ==> AliveCount(ps[k].enemies) <= cap
  }

  /** A tick never lifts a pool above its phase's cap: pools holding at
      most `cap <= c.phase.max` live enemies before the tick hold at most
      `c.phase.max` after it, whether a player was stepped or skipped. */
  lemma TickPlayersCap(ps: seq<Player>, c: Ctx, draws: seq<SpawnDraw>, cap: int)
    requires |draws| == |ps| && DrawsOk(draws) && WellFormed(c.phase) && AllValid(ps)
    requires cap <= c.phase.max && PoolsWithin(ps, cap)
    ensures PoolsWithin(TickPlayers(ps, c, draws).players, c.phase.max)
  {
    var steps := Steps(ps, c, draws);
    var after := TickPlayers(ps, c, draws).players;
    WalkPlayers(ps, steps, 0, c.roomId);
    forall k | 0 <= k < |after|
      ensures AliveCount(after[k].enemies) <= c.phase.max
    {
      StepsAt(ps, c, draws, k);
      PlayerTickValid(ps[k], c, draws[k]);
    }
  }

  /** The match ends at most once per tick and only through a connected
      player left without hearts: exactly one match-end message when there
      is a loser and none otherwise, sent last, naming that player, and
      every connected player before it took its turn while none after it
      did. */
  lemma TickPlayersEnds(ps: seq<Player>, c: Ctx, draws: seq<SpawnDraw>)
    requires |draws| == |ps| && DrawsOk(draws) && WellFormed(c.phase) && AllValid(ps)
    ensures var R := TickPlayers(ps, c, draws);
      && |R.players| == |ps|
      && MatchEnds(R.emits) == (if R.loser.Some? then 1 else 0)
      && (R.loser.Some? ==>
            && R.emits != []
            && R.emits[|R.emits| - 1] == MatchEndEmit(c.roomId, R.players, R.loser.value)
            && exists k :: 0 <= k < |ps| && ps[k].id == R.loser.value && !ps[k].disconnected
                 && R.players[k].heart == 0
                 && forall j :: k < j < |ps| ==> R.players[j] == ps[j])
  {
    var steps := Steps(ps, c, draws);
    StepsOk(ps, c, draws);
    WalkLoser(ps, steps, 0, c.roomId);
    WalkPlayers(ps, steps, 0, c.roomId);
    WalkEnds(ps, steps, 0, c.roomId);
  }

  /** Every message of the players' part of a tick other than the match end
      concerns one player and goes to that player alone, naming only its
      own enemies, or to the room with that player's public stats. */
  lemma TickPlayersOwnerOnly(ps: seq<Player>, c: Ctx, draws: seq<SpawnDraw>)
    requires |draws| == |ps| && DrawsOk(draws) && WellFormed(c.phase)
    ensures var R := TickPlayers(ps, c, draws);
      forall e :: e in R.emits ==>
        (e.msg.MatchEnd? || exists k :: 0 <= k < |R.players| && OwnerOnly(e, R.players[k], c.roomId))
  {
    var steps := Steps(ps, c, draws);
    var R := TickPlayers(ps, c, draws);
    WalkPlayers(ps, steps, 0, c.roomId);
    WalkSources(ps, steps, 0, c.roomId);
    forall e | e in R.emits && !e.msg.MatchEnd?
      ensures exists k :: 0 <= k < |R.players| && OwnerOnly(e, R.players[k], c.roomId)
    {
      var k :| 0 <= k <= WalkStop(ps, steps, 0) && k < |ps| && !ps[k].disconnected && e in steps[k].emits;
      StepsAt(ps, c, draws, k);
      PlayerTickOwnerOnly(ps[k], c, draws[k]);
      assert R.players[k] == steps[k].player;
    }
  }

  /** The outcome of the walk after `out` has already been sent. */
  function Resume(out: seq<Emit>, w: TickOutcome): TickOutcome {
    TickOutcome(w.players, out + w.emits, w.loser)
  }

  /** The walk skips a disconnected player. */
  lemma WalkSkip(ps: seq<Player>, steps: seq<PlayerStep>, i: nat, roomId: string)
    requires |steps| == |ps| && i < |ps| && ps[i].disconnected
    ensures Walk(ps, steps, i, roomId) == Walk(ps, steps, i + 1, roomId)
  {
  }

  /** A connected player that keeps some heart takes its turn and the walk
      goes on with the next player. */
  lemma WalkTurn(ps: seq<Player>, steps: seq<PlayerStep>, i: nat, roomId: string)
    requires |steps| == |ps| && i < |ps| && !ps[i].disconnected && !steps[i].died
    ensures Walk(ps, steps, i, roomId) ==
      Resume(steps[i].emits, Walk(ps[i := steps[i].player], steps, i + 1, roomId))
  {
  }

  /** A connected player left without hearts ends the walk. */
  lemma WalkEnd(ps: seq<Player>, steps: seq<PlayerStep>, i: nat, roomId: string)
    requires |steps| == |ps| && i < |ps| && !ps[i].disconnected && steps[i].died
    ensures Walk(ps, steps, i, roomId) ==
      TickOutcome(ps[i := steps[i].player],
                  steps[i].emits + [MatchEndEmit(roomId, ps[i := steps[i].player], ps[i].id)], Some(ps[i].id))
  {
  }

  lemma ResumeTwice(a: seq<Emit>, b: seq<Emit>, w: TickOutcome)
    ensures Resume(a, Resume(b, w)) == Resume(a + b, w)
  {
    assert a + (b + w.emits) == (a + b) + w.emits;
  }

  /** The player loop of the tick: each connected player in room order
      takes its turn, and the loop stops right after the first player left
      without hearts, with the match-end message. */
  method TakeTurns(ps0: seq<Player>, c: Ctx, draws: seq<SpawnDraw>) returns (ps: seq<Player>, out: seq<Emit>, loser: Option<string>)
    requires |draws| == |ps0| && DrawsOk(draws) && WellFormed(c.phase)
    ensures TickOutcome(ps, out, loser) == TickPlayers(ps0, c, draws)
  {
    ghost var steps := Steps(ps0, c, draws);
    ps, out, loser := ps0, [], None;
    var i := 0;
    while i < |ps|
      invariant 0 <= i <= |ps| == |ps0|
      invariant forall j :: i <= j < |ps0| ==> ps[j] == ps0[j]
      invariant Walk(ps0, steps, 0, c.roomId) == Resume(out, Walk(ps, steps, i, c.roomId))
    {
      if !ps[i].disconnected {
        var playerId := ps[i].id;
        var died;
        ps, out, died := Turn(ps0, c, draws, ps, out, i);
        if died {
          loser := Some(playerId);
          return;
        }
      } else {
        WalkSkip(ps, steps, i, c.roomId);
      }
      i := i + 1;
    }
    assert out + [] == out;
  }

  /** The turn of the connected player at `i`: its step is taken, its
      messages are added, and when its hearts run out the match-end message
      closes the tick. Either way the walk so far agrees with `Walk`. */
  method Turn(ghost ps0: seq<Player>, c: Ctx, draws: seq<SpawnDraw>, ps: seq<Player>, out: seq<Emit>, i: nat)
    returns (ps': seq<Player>, out': seq<Emit>, died: bool)
    requires |draws| == |ps0| && DrawsOk(draws) && WellFormed(c.phase)
    requires i < |ps| == |ps0| && !ps[i].disconnected
    requires forall j :: i <= j < |ps0| ==> ps[j] == ps0[j]
    requires Walk(ps0, Steps(ps0, c, draws), 0, c.roomId) == Resume(out, Walk(ps, Steps(ps0, c, draws), i, c.roomId))
    ensures |ps'| == |ps0| && forall j :: i < j < |ps0| ==> ps'[j] == ps0[j]
    ensures died ==> Walk(ps0, Steps(ps0, c, draws), 0, c.roomId) == TickOutcome(ps', out', Some(ps[i].id))
    ensures !died ==>
      Walk(ps0, Steps(ps0, c, draws), 0, c.roomId) == Resume(out', Walk(ps', Steps(ps0, c, draws), i + 1, c.roomId))
  {
    ghost var steps := Steps(ps0, c, draws);
    var playerId := ps[i].id;
    var q, o, reached;
    q, o, reached, died := StepPlayer(ps[i], c, draws[i]);
    assert ps[i] == ps0[i];
    StepsAt(ps0, c, draws, i);
    assert PlayerStep(q, o, reached, died) == steps[i];
    if died {
      WalkEnd(ps, steps, i, c.roomId);
      ps' := ps[i := q];
      var last := [MatchEndEmit(c.roomId, ps', playerId)];
      assert out + (o + last) == out + o + last;
      out' := out + o + last;
      return;
    }
    WalkTurn(ps, steps, i, c.roomId);
    ResumeTwice(out, o, Walk(ps[i := q], steps, i + 1, c.roomId));
    ps' := ps[i := q];
    out' := out + o;
  }

}
