# Typing duel server: room engine and matchmaking

This project models the authoritative game logic of a two-player typing-duel
server and proves properties of it. Players wait in a matchmaking queue. The
two oldest live connections are paired into a room. Each room runs a game
loop. Enemies, each carrying a word, spawn on a circle around the arena centre
and walk towards it. A player kills an enemy of their own pool by typing its
word. An enemy that reaches the centre costs its owner a heart, and the match
ends when a player has none left.

The model has six modules:

- `Difficulty` (`difficulty.dfy`): the five-band difficulty schedule over a
  340-second horizon and the uniform draw helper.
- `Entities` (`entities.dfy`): enemy and player records, their serialized
  views, the outbound messages, and the constructor of a spawned enemy.
- `TickSpec` (`tick.dfy`): one run of a room's game loop. It is given as pure
  specification functions: one enemy's move, a whole pool, spawning, one
  player's turn, and the walk over the players that stops early at a loss.
  Beside them are the methods that do the same work step by step, as the
  loop does, each proved equal to its function.
- `RoomEngine` (`room.dfy`): the `Room` class. Its methods update the room
  in place: ready, hit, reconnect, leave, one tick, one grace-timer firing.
- `Registry` (`registry.dfy`): the `RoomRegistry` class. It holds the rooms
  under their ids and creates, ticks, disconnects from and drops them.
- `Matchmaking` (`matchmaking.dfy`): the `Matchmaker` class. It holds the
  queue of connection ids and the socket handlers. `AttemptMatch` is the
  pairing loop, proved against the reference definition `Match`.

The environment becomes explicit inputs:

- the clock: `now`, in milliseconds;
- every random draw: a `SpawnDraw` per player per tick, and one cooldown draw
  per player when a match starts;
- the set of live connections;
- the fresh room ids, which must be distinct;
- the numbers of the grace timers, taken from a counter in the registry.

Outbound messages are returned as a list of `Emit` values. Each value has a
recipient (one connection or a whole room) and a message.

A JavaScript `Map` of players becomes a `seq<Player>` with distinct ids, so
insertion order is kept. Setting an existing key replaces its entry in place.
Setting a new key appends it. A player's enemy `Map` becomes a `seq<Enemy>`
in insertion order. Its ids rise and no enemy is ever removed.

Where the written description of the system and the code disagree, the model
follows the code:

- Reconnection does not check that the player was disconnected.
- A room can hold a single player: when both connection ids are equal, or
  when a reconnect lands on the id of the other player.
- A second leave replaces the room's recorded grace timer without cancelling
  the first one. That first timer can still drop the room later, even after
  a reconnect. The room keeps the set of armed timers, `graceTimers`, to
  show this.
- The hit rate limit is recorded before the hit is judged, so a rejected hit
  also uses up the 200 ms window.
- The difficulty phase is taken from the seconds since the room was created,
  not since the match started.
- Spawned enemies carry no owner id.

## Model

| member | source | states |
|---|---|---|
| Difficulty.GetDifficultyPhase | src/services/room-manager.js:20-57 | the phase is the band that `BandOf` picks at the thresholds 51, 119, 204 and 289 s (0.15, 0.35, 0.6 and 0.85 of 340 s), and every band is well formed |
| Difficulty.BandOf | src/services/room-manager.js:23-51 | the band index for whole elapsed seconds is one of the five bands |
| Difficulty.PhaseMonotone | src/services/room-manager.js:20-57 | as time passes, both spawn-interval bounds never rise, and the speed bounds, the variety and the enemy cap never fall |
| Difficulty.FirstPhase | src/services/room-manager.js:23-29 | at 0 s the phase is spawn interval [2000, 2500), speeds [0.3, 0.5], variety 0.2, at most 5 enemies |
| Difficulty.RandRange | src/services/room-manager.js:16-18 | a draw in [0, 1) lands in [lo, hi], and strictly below hi when lo < hi |
| Difficulty.ScaleBelow | src/services/room-manager.js:17 | scaling a non-negative width by a draw in [0, 1) stays within the width |
| Entities.CreateEnemy | src/services/room-manager.js:59-92 | the new enemy is alive, has the given id, word and owner, nothing sent yet; it sits at (300 + 260 cos, 300 + 260 sin) on the spawn circle, its direction leads exactly to the centre, and its speed lies between speedMin (1 - variety/2) and speedMax (1 + variety/2), so it is positive |
| Entities.SpeedBounds | src/services/room-manager.js:73-76 | the variety factor lies in [1 - variety/2, 1 + variety/2], so a speed drawn from the band's range and scaled by it stays positive and within the widened range |
| Entities.FindPlayer | src/services/room-manager.js:186 | a lookup by id finds the first player with that id, or reports that no player has it |
| Entities.FindEnemy | src/services/room-manager.js:249 | a lookup by enemy id finds an enemy with that id, or reports that none has it |
| Entities.AliveCount | src/services/room-manager.js:317-319 | the number of live enemies is at most the pool size |
| Entities.NewPlayer | src/services/room-manager.js:99-127 | a new player has the given id, three hearts, no kills, an empty pool, next enemy id 1 and no spawn cooldown; it is not ready, connected and well formed |
| Entities.EnemyViews | src/services/room-manager.js:144-147 | every enemy of the pool is serialized, in pool order, without the bookkeeping fields |
| Entities.SerializeEnemies | src/services/room-manager.js:141-148 | the requester gets the views of the pool of the player holding its id (the first such, as `Map.get` finds it) and of no other pool; an id no player holds gets an empty list |
| Entities.SerializePlayers | src/services/room-manager.js:149-157 | every player's public stats, in room order |
| TickSpec.ContextAt | src/services/room-manager.js:303-308 | dt is the time since the last tick in seconds while that is at most 120 ms, and 0.12 s from there on; the phase is the one at the whole seconds since the room was created |
| TickSpec.MoveEnemy | src/services/room-manager.js:333-361 | a dead enemy stays dead and in place and is reported once; a live one moves to `StepX`/`StepY` (baseSpeed units per 60 fps frame along its direction) and dies exactly when it ends within 24 units of the centre; direction, speed, id, word and owner never change; at most one update per enemy, about that enemy |
| TickSpec.StepX | src/services/room-manager.js:340 | defines a live enemy's new x: `ux * baseSpeed` per 60 fps frame over `dt` seconds |
| TickSpec.StepY | src/services/room-manager.js:341 | defines a live enemy's new y, likewise along `uy` |
| TickSpec.MoveEnemyReports | src/services/room-manager.js:340-360 | an impact is reported at the impact position and recorded as sent; a survivor is reported, with its last-sent record moved to its new position, exactly when it moved more than one unit since it was last sent (never-sent counts as (-9999, -9999)); otherwise nothing is sent and the record is kept |
| TickSpec.DeathReportedOnce | src/services/room-manager.js:334-338 | a dead enemy is never revived, and after its death has been sent it is never reported again |
| TickSpec.AdvanceSpec | src/services/room-manager.js:329-361 | the pool keeps its size and each enemy is moved by `MoveEnemy` in its place |
| TickSpec.MoveOne | src/services/room-manager.js:333-361 | the field-by-field update of one enemy gives the step `MoveEnemy` specifies |
| TickSpec.AdvancePool | src/services/room-manager.js:329-361 | the loop over the pool yields the pool, the update list and the reached list of `AdvanceSpec` |
| TickSpec.ReachedIsAliveDrop | src/services/room-manager.js:343-345 | the number of enemies that reached the centre equals the drop in the alive count |
| TickSpec.ReachedIds | src/services/room-manager.js:343-345 | an id is in the reached list exactly when it belongs to an enemy that was alive before the tick and dead after it |
| TickSpec.ChangedFromPool | src/services/room-manager.js:336-356 | every update names an enemy of the pool |
| TickSpec.Spawn | src/services/room-manager.js:315-326 | an enemy spawns exactly when the cooldown has run out and the alive count is below the cap; it takes id `nextEnemyId`, which then rises by one, it is appended to the pool, and a new cooldown is drawn from the phase's interval; otherwise only the cooldown falls; hearts, kills and flags are kept |
| TickSpec.SpawnFor | src/services/room-manager.js:315-326 | the step-by-step spawn block gives the result of `Spawn` |
| TickSpec.CooldownAfter | src/services/room-manager.js:316 | defines the cooldown after a tick: the old one (0 when never set, as `null - x` gives) less `dt` in milliseconds |
| TickSpec.SpawnIfStarted | src/services/room-manager.js:315-326 | defines the spawn block as running only once the match has started; before that the record is untouched and nothing spawns |
| TickSpec.SpawnEmits | src/services/room-manager.js:324 | defines the `spawnEnemy` message, sent to the owner alone, for a spawned enemy, and no message otherwise |
| TickSpec.MoveAndScore | src/services/room-manager.js:329-377 | defines the move-and-score block: the pool moved by `AdvanceSpec`, an `enemyUpdate` to the owner when anything changed, and, when enemies reached the centre, hearts lowered by that many but not below 0, an `enemyReached` to the owner, the new stats to the room, and death at 0 hearts; properties in `MoveAndScoreFields`, `MoveAndScoreValid` and `MoveAndScoreOwnerOnly` |
| TickSpec.PlayerTick | src/services/room-manager.js:311-377 | defines one connected player's turn as the spawn block then the move-and-score block on the spawned record, with the spawn message first; properties in `PlayerTickFields`, `PlayerTickValid` and `PlayerTickOk` |
| TickSpec.Settle | src/services/room-manager.js:329-397 | the movement and heart block of one player gives the result of `MoveAndScore` |
| TickSpec.StepPlayer | src/services/room-manager.js:311-397 | one player's whole turn, done step by step, gives the result of `PlayerTick` |
| TickSpec.AliveCountAppend | src/services/room-manager.js:323 | appending an enemy raises the alive count by one exactly when that enemy is alive |
| TickSpec.SpawnKeepsPool | src/services/room-manager.js:322-323 | after spawning, the pool ids still rise strictly and stay below `nextEnemyId` |
| TickSpec.SpawnCap | src/services/room-manager.js:315-326 | at most one enemy spawns per player per tick, only when started, cooled down and below the cap, and it gets the next enemy id |
| TickSpec.MoveAndScoreFields | src/services/room-manager.js:368-379 | only the pool and the hearts change; the hearts become max(0, heart minus the number reached), and the player dies exactly when something reached the centre and no hearts are left |
| TickSpec.AdvanceKeepsIds | src/services/room-manager.js:333 | moving never adds, drops or reorders enemies: every id stays in its place |
| TickSpec.PoolValidSameIds | src/services/room-manager.js:333 | a pool with the same ids in the same places stays well formed |
| TickSpec.MoveAndScoreValid | src/services/room-manager.js:329-369 | the player stays well formed (hearts in [0, 3]) and the alive count falls by exactly the number reached |
| TickSpec.PlayerTickFields | src/services/room-manager.js:311-397 | a turn keeps id, kills, ready and connection state, sets the hearts to max(0, heart minus the number reached), and reports the death exactly when the hearts reach 0 |
| TickSpec.PlayerTickValid | src/services/room-manager.js:315-326 | a turn keeps the player well formed and never takes the alive count above the larger of its old value and the current cap |
| TickSpec.MoveAndScoreOwnerOnly | src/services/room-manager.js:363-376 | the updates and the reached list go to the owner only; the room hears only the owner's stats |
| TickSpec.ReportsNamePool | src/services/room-manager.js:336-356 | every id in a pool's update list or reached list names an enemy of the pool after the tick |
| TickSpec.PlayerTickOwnerOnly | src/services/room-manager.js:324-376 | in a whole turn, spawns and updates go to their owner only |
| TickSpec.FirstOther | src/services/room-manager.js:381-383 | the winner is a player other than the loser, or there is none when every player is the loser |
| TickSpec.MatchEndEmit | src/services/room-manager.js:381-391 | defines the `matchEnd` broadcast: reason `player_died`, the first other player as winner, the loser, and every player's public stats |
| TickSpec.MatchEndsAppend | src/services/room-manager.js:386-391 | the number of match-end messages adds up over concatenation |
| TickSpec.NoMatchEnds | src/services/room-manager.js:386-391 | a list without match-end messages counts none |
| TickSpec.PlayerTickNoEnd | src/services/room-manager.js:311-377 | one player's turn itself sends no match end |
| TickSpec.PlayerTickOk | src/services/room-manager.js:311-397 | a player's turn keeps the record well formed and its id, kills and flags; its hearts never rise; it dies exactly when its hearts reach 0 |
| TickSpec.Steps | src/services/room-manager.js:311 | there is one turn result per player |
| TickSpec.Walk | src/services/room-manager.js:311-397 | defines the loop over the players in room order: disconnected players are skipped, each other player's record is replaced by its turn, and the first one left without hearts ends the walk with the match end; properties in `WalkStop` to `WalkSources` |
| TickSpec.TickPlayers | src/services/room-manager.js:311-397 | defines the players' part of a tick as the walk over every player's turn; properties in `TickPlayersKeeps`, `TickPlayersEnds`, `TickPlayersOwnerOnly` and `TickPlayersCap`, and `TakeTurns` is proved to compute it |
| TickSpec.StepsAt | src/services/room-manager.js:311 | the turn of player k is computed from that player's own record and draw |
| TickSpec.WalkStop | src/services/room-manager.js:311-396 | the walk stops at the first connected player whose turn leaves it without hearts, or runs to the end |
| TickSpec.WalkStopSame | src/services/room-manager.js:312 | where the walk stops depends only on who is connected and on the turn results |
| TickSpec.WalkLoser | src/services/room-manager.js:379-395 | the loser is exactly the player at which the walk stops, if any |
| TickSpec.WalkPlayers | src/services/room-manager.js:311-312 | connected players up to the stopping one take their turn; disconnected ones and those after the stop are untouched |
| TickSpec.WalkEnds | src/services/room-manager.js:386-395 | a tick sends one match end exactly when there is a loser, and it is the last message |
| TickSpec.WalkSources | src/services/room-manager.js:311-397 | every message of the walk is a match end or comes from the turn of a connected player not after the stop |
| TickSpec.StepsOk | src/services/room-manager.js:311-397 | every player's turn keeps its record well formed, as `PlayerTickOk` states |
| TickSpec.TickPlayersKeeps | src/services/room-manager.js:311-397 | a tick keeps the player count, ids, kills, flags and well-formedness; hearts never rise; a disconnected player is left entirely alone |
| TickSpec.TickPlayersEnds | src/services/room-manager.js:379-395 | at most one match end is sent, last, naming a connected player whose hearts reached 0; players after it are untouched |
| TickSpec.TickPlayersOwnerOnly | src/services/room-manager.js:324-391 | every message of a tick is the match end or goes to the player it concerns |
| TickSpec.TickPlayersCap | src/services/room-manager.js:311-326 | pools holding at most `cap` live enemies, with `cap` no more than the phase's cap, hold at most the phase's cap after the tick |
| TickSpec.TakeTurns | src/services/room-manager.js:311-398 | the loop over the players, with its early return, yields the players, messages and loser of `TickPlayers` |
| TickSpec.Turn | src/services/room-manager.js:311-397 | one connected player's turn in the loop keeps the loop's account equal to `Walk`, and on a death ends it with the match-end message |
| RoomEngine.MapSet | src/services/room-manager.js:99-128 | after setting a key, the key finds the new record, the size grows only for a new key, every player under another id keeps its place, and distinct ids stay distinct |
| RoomEngine.MapSetValid | src/services/room-manager.js:99-128 | setting a well-formed record keeps every record well formed |
| RoomEngine.DeleteAt | src/services/room-manager.js:282 | deleting a key removes that one player and keeps the order of the rest |
| RoomEngine.DeleteAtKeeps | src/services/room-manager.js:282 | after the delete the ids are still distinct and the deleted id is gone |
| RoomEngine.RekeyKeeps | src/services/room-manager.js:279-290 | after a rekey the record sits under the new id with its state kept and marked connected; the room stays non-empty and well formed |
| RoomEngine.RekeySize | src/services/room-manager.js:279-290 | the player count is kept unless the new id was another player's, in which case that player is replaced |
| RoomEngine.RekeyKeepsOthers | src/services/room-manager.js:279-290 | every other player whose id differs from the new one is still in the room |
| RoomEngine.Rekey | src/services/room-manager.js:279-290 | defines a reconnect on the players: the old entry is deleted and the same record, marked connected and carrying the new id, is set under the new key; properties in `RekeyKeeps`, `RekeySize` and `RekeyKeepsOthers` |
| RoomEngine.WithCooldowns | src/services/room-manager.js:216-218 | at start every player gets a spawn cooldown drawn from [2000, 2500); nothing else changes |
| RoomEngine.WithCooldownsKeeps | src/services/room-manager.js:216-218 | drawing cooldowns keeps ids distinct, records well formed and the ready and connection flags |
| RoomEngine.MarkReadyKeeps | src/services/room-manager.js:191 | marking a player ready keeps ids distinct and records well formed |
| RoomEngine.AllReady | src/services/room-manager.js:195-197 | defines the start condition: every player is ready and connected |
| RoomEngine.ReadyIdempotent | src/services/room-manager.js:191 | marking a player ready twice is the same as once |
| RoomEngine.DrawCooldowns | src/services/room-manager.js:216-218 | the loop over the players draws the cooldowns `WithCooldowns` specifies |
| RoomEngine.Snapshots | src/services/room-manager.js:173-183 | at most one snapshot per player |
| RoomEngine.SnapshotsOnlyConnected | src/services/room-manager.js:173-183 | only connected players get a snapshot, each its own |
| RoomEngine.SnapshotsReachConnected | src/services/room-manager.js:173-183 | every connected player gets its snapshot |
| RoomEngine.SnapshotPrivate | src/services/room-manager.js:177-180 | a snapshot carries the recipient's own enemies and every player's stats; it is a start message exactly at match start |
| RoomEngine.SnapshotTo | src/services/room-manager.js:177-180 | defines the state message for one player: that player's own enemy views and every player's public stats, sent to that player alone |
| RoomEngine.CollectSnapshots | src/services/room-manager.js:222-231 | the loop over the players sends the snapshots `Snapshots` specifies |
| RoomEngine.LeftNotices | src/services/room-manager.js:418-423 | at most one notice per player |
| RoomEngine.LeftNoticesExact | src/services/room-manager.js:418-423 | exactly the players other than the leaver are told that the opponent left |
| RoomEngine.LeftNotice | src/services/room-manager.js:422 | defines the `opponentLeft` notice, naming the room and the leaver, sent to one remaining player |
| RoomEngine.SnapshotDue | src/services/room-manager.js:401-403 | a snapshot is due when more than 50 loop periods of 60 ms have passed since the last one, or since creation when there was none or it was at time 0 |
| RoomEngine.LastHit | src/services/room-manager.js:238 | defines the time of a player's last hit attempt, 0 when none was recorded |
| RoomEngine.Lower | src/services/room-manager.js:256 | lower-casing keeps the length and lowers each character |
| RoomEngine.SameWord | src/services/room-manager.js:256 | defines the word check: the expected and typed words agree after lower-casing, a missing typed word counting as empty; properties in `SameWordIgnoresCase` |
| RoomEngine.SameWordIgnoresCase | src/services/room-manager.js:256 | lower-casing is idempotent, and the word match is insensitive to the case of the typed word |
| RoomEngine.JudgeHit | src/services/room-manager.js:242-259 | a hit lands exactly when the player exists, the enemy is in that player's own pool, it is alive, and the words agree up to case |
| RoomEngine.AliveCountKill | src/services/room-manager.js:261 | killing a live enemy lowers the alive count by one |
| RoomEngine.Kill | src/services/room-manager.js:261-262 | defines a landed hit on the players: the hit enemy dies and its owner's kills rise by one; properties in `KillEffect` and `AliveCountKill` |
| RoomEngine.KillEffect | src/services/room-manager.js:261-262 | a landed hit kills exactly that enemy and adds one to its owner's kills; hearts, the other enemies and the other players are unchanged |
| RoomEngine.DisconnectKeeps | src/services/room-manager.js:414 | a leave marks exactly that player disconnected and changes nothing else |
| RoomEngine.Disconnect | src/services/room-manager.js:414 | defines a leave on the players: that player is marked disconnected; properties in `DisconnectKeeps` and `DisconnectWithin` |
| RoomEngine.TickPlayersValid | src/services/room-manager.js:311-397 | a tick keeps the player count, distinct ids and well-formed records |
| RoomEngine.SameIdsDistinct | src/services/room-manager.js:261-262 | records with the same ids in the same places stay distinct |
| RoomEngine.TickCap | src/services/room-manager.js:303-326 | pools within the cap of the phase at the last tick are, after a tick at a time not before it, within the cap of the phase at that time |
| RoomEngine.CapMonotone | src/services/room-manager.js:307-308 | the phase's cap at a later time is at least the cap at an earlier time |
| RoomEngine.SamePoolsWithin | src/services/room-manager.js:191 | records with the same pools stay within any cap their originals were within |
| RoomEngine.CooldownsWithin | src/services/room-manager.js:210-218 | starting the match leaves the pools alone, so pools within the cap at the last tick are within the cap at the start time |
| RoomEngine.DisconnectWithin | src/services/room-manager.js:414 | marking a player disconnected keeps every pool within the cap |
| RoomEngine.RekeyWithin | src/services/room-manager.js:279-290 | moving a record to a new key keeps every pool within the cap |
| RoomEngine.Room.constructor | src/services/room-manager.js:93-136 | a new room holds fresh players for both connections (one when the ids are equal), is not started, has no loop scheduled, no timers, starts its clocks at creation, and its (empty) pools are within the cap |
| RoomEngine.Room.SetReady | src/services/room-manager.js:185-234 | an unknown player changes nothing; otherwise the player is marked ready and the room told; the match starts, once, exactly when every player is then ready and connected and it had not started |
| RoomEngine.Readied | src/services/room-manager.js:185-233 | defines the effect of a ready on a room: an unknown player changes nothing; otherwise the player is marked ready and the room told, and when every player is then ready and connected and the match had not started, it starts at now with cooldowns drawn, the loop scheduled and a start snapshot to each connected player |
| RoomEngine.Room.StartMatch | src/services/room-manager.js:210-231 | the match starts at now with cooldowns drawn, the loop scheduled and a start snapshot for each connected player |
| RoomEngine.Room.HandleHit | src/services/room-manager.js:236-277 | within 200 ms of the last attempt nothing changes; otherwise the attempt time is recorded, and the hit, if `JudgeHit` lands it, kills the enemy, counts the kill, tells the player and sends the room the new stats; pools within the cap stay within it |
| RoomEngine.HitBy | src/services/room-manager.js:236-276 | defines the effect of a hit on a room: within 200 ms of the last attempt nothing changes; otherwise the attempt time is recorded, and a hit `JudgeHit` lands applies `Kill`, tells the player and sends the room the new stats; the clocks, flags and timers are kept |
| RoomEngine.Room.ReassignPlayerSocket | src/services/room-manager.js:279-298 | false and no change for an unknown id; otherwise the record moves to the new id with its state kept, marked connected, the last grace timer is cleared and the room told; pools within the cap stay within it |
| RoomEngine.Room.MarkLeft | src/services/room-manager.js:412-415 | a player of the room is marked disconnected and a new grace timer replaces the recorded one without clearing it; otherwise nothing changes |
| RoomEngine.Room.Tick | src/services/room-manager.js:302-407 | the players take their turns as `TickPlayers` says; on a loss the loop is unscheduled and nothing more is sent; otherwise a full snapshot goes out when one is due; when the clock has not gone back, pools within the cap at the last tick are within the cap of the new phase |
| RoomEngine.Room.GraceExpired | src/services/room-manager.js:415-424 | the loop is unscheduled, the timer is spent, every player other than the leaver is told the opponent left, and the players, clocks and other state are kept |
| RoomEngine.Room.SnapshotIfDue | src/services/room-manager.js:400-406 | when due, every connected player gets its own state and the snapshot time is recorded; otherwise nothing happens |
| Registry.RoomRegistry.constructor | src/services/room-manager.js:4 | the registry starts empty |
| Registry.RoomRegistry.CreateRoom | src/services/room-manager.js:93-171 | the new room is registered under its id and holds both connections, not started; the other rooms are kept |
| Registry.RoomRegistry.RunTick | src/services/room-manager.js:302-407 | an unknown room or one without a loop is untouched; otherwise the room ticks exactly as `Room.Tick` states (players, messages, snapshot time, loop state, last tick at now, the cap), a room whose match ends leaves the registry, and the other rooms are untouched |
| Registry.RoomRegistry.LeaveRoomIfAny | src/services/room-manager.js:410-427 | in every room holding the connection, the player is marked disconnected and gets a new grace timer; other rooms are untouched; no room is added or dropped |
| Registry.LeftBy | src/services/room-manager.js:412-415 | defines what a leave does to one room: a room without the player is untouched; otherwise the player is marked disconnected and a grace timer, numbered from the counter, is armed and recorded as the room's last, the rest of the room kept |
| Registry.RoomRegistry.GraceExpired | src/services/room-manager.js:415-424 | the room leaves the registry, its loop stops, the remaining players are told, and its players, clocks and other state are kept |
| Matchmaking.Joined | src/socket/handlers/matchmaking.js:7 | joining adds only the joining id and keeps the queue free of duplicates |
| Matchmaking.JoinThenLeave | src/socket/handlers/matchmaking.js:7-15 | leaving right after joining gives back the queue without that id, the others in order |
| Matchmaking.IndexOf | src/socket/handlers/matchmaking.js:14 | finds a position of the id, or reports it absent exactly when it is not queued |
| Matchmaking.RemoveIsWithout | src/socket/handlers/matchmaking.js:14-15 | removing an id from a queue without duplicates keeps the rest in order, leaves the id absent and shortens the queue only if it was there |
| Matchmaking.Remove | src/socket/handlers/matchmaking.js:14-15 | defines the queue after a leave: the found occurrence of the id is cut out, and an absent id changes nothing; properties in `RemoveIsWithout` and `RemoveCut` |
| Matchmaking.WithoutAbsent | src/socket/handlers/matchmaking.js:14-15 | leaving when not queued changes nothing |
| Matchmaking.WithoutAppend | src/socket/handlers/matchmaking.js:14-15 | dropping an id distributes over concatenation |
| Matchmaking.WithoutCut | src/socket/handlers/matchmaking.js:15 | cutting out the one occurrence of an id is dropping it |
| Matchmaking.RemoveCut | src/socket/handlers/matchmaking.js:15 | the cut leaves no copy of the id and no duplicates |
| Matchmaking.Match | src/socket/handlers/matchmaking.js:49-78 | the matching loop ends with fewer than two queued |
| Matchmaking.MatchTakesLiveInOrder | src/socket/handlers/matchmaking.js:49-63 | rooms are made only for two live connections, and the paired ids followed by the live ids left queued are exactly the live ids of the queue, in queue order |
| Matchmaking.MatchFromQueue | src/socket/handlers/matchmaking.js:49-60 | every paired or requeued id came from the queue |
| Matchmaking.MatchNoDup | src/socket/handlers/matchmaking.js:49-63 | from a queue without duplicates no connection is put in two rooms, or both paired and left queued |
| Matchmaking.Requeued | src/socket/handlers/matchmaking.js:56-59 | dropping the stale ones among the two oldest and putting a live one back in front shortens the queue and matches as before |
| Matchmaking.PairStep | src/socket/handlers/matchmaking.js:50-63 | two live oldest entries make the first pair, ahead of whatever the rest matches |
| Matchmaking.FoundAll | src/socket/handlers/matchmaking.js:66-75 | two messages per room |
| Matchmaking.Found | src/socket/handlers/matchmaking.js:66-75 | defines the two `matchFound` messages of one room, one to each player, naming the room, the player and the opponent |
| Matchmaking.FoundAllSwapped | src/socket/handlers/matchmaking.js:66-75 | the two match-found messages of a room carry its id, each goes to one of the two players, and player and opponent are swapped between them |
| Matchmaking.StateReply | src/socket/handlers/matchmaking.js:41-44 | the requester alone gets the room's public stats; a player gets exactly the state the periodic snapshot sends it, anyone else no enemies |
| Matchmaking.Matchmaker.constructor | src/socket/handlers/matchmaking.js:3 | the queue starts empty over the given registry |
| Matchmaking.Matchmaker.AttemptMatch | src/socket/handlers/matchmaking.js:48-79 | the queue becomes what `Match` leaves, the messages are those of its pairs in order, and the room of the i-th pair sits under the i-th id in the state `NewRoom` states (the pair's new players, clocks at now, nothing started, sent, hit or armed); these rooms are different objects and none of them was registered before; the other rooms and the timer counter are kept |
| Matchmaking.Matchmaker.PairUp | src/socket/handlers/matchmaking.js:49-78 | the pairing loop over a local queue ends as `Match` says and registers one room per pair, in the `NewRoom` state, under its id; the rooms made are different objects, none registered before; the other rooms are kept and no timer is armed |
| Matchmaking.Matchmaker.TakeTwo | src/socket/handlers/matchmaking.js:50-76 | one turn of the loop shortens the queue, keeps the loop's account of pairs, messages and rooms, and makes at most one room, a newly allocated object under the next id |
| Matchmaking.Matchmaker.Open | src/socket/handlers/matchmaking.js:63 | the pair's room is a new object, set under the next id and nowhere else, in the state `NewRoom` states; the rooms made before are kept |
| Matchmaking.OpenedExtend | src/socket/handlers/matchmaking.js:63 | registering the next pair's room under the next unused id extends what the run has made |
| Matchmaking.NewRoom | src/socket/handlers/matchmaking.js:63 | defines a room as the matching loop creates it at `now` (the fields of src/services/room-manager.js:96-134): the pair's two new players, not started, no loop, both clocks at `now`, no snapshot, no hit recorded and no grace timer |
| Matchmaking.Opened | src/socket/handlers/matchmaking.js:49-78 | defines the rooms after a matching run has made some pairs: the room of pair i sits under the i-th id and is a `NewRoom`, the keys are the old ones and the ids used, and every other room is the same as before |
| Matchmaking.Matchmaker.JoinQueue | src/socket/handlers/matchmaking.js:5-10 | the id is queued last unless already queued, then the queue is matched as `AttemptMatch` states: one room per pair in the `NewRoom` state, each a different object none registered before, with the timer counter kept |
| Matchmaking.Matchmaker.LeaveQueue | src/socket/handlers/matchmaking.js:12-17 | the id leaves the queue, the others keep their order, and the connection leaves every room holding it |
| Matchmaking.Matchmaker.Ready | src/socket/handlers/matchmaking.js:19-27 | an unknown room gets nothing; otherwise that room takes the ready as `SetReady` states |
| Matchmaking.Matchmaker.Hit | src/socket/handlers/matchmaking.js:29-35 | an unknown room gets nothing; otherwise that room judges the hit as `HandleHit` states |
| Matchmaking.Matchmaker.RequestRoomState | src/socket/handlers/matchmaking.js:37-46 | nothing changes; an unknown room sends nothing, a known one sends the requester its state |

## Left out

- Floating point: positions, speeds and cooldowns are `real`, so rounding is not modelled. The distance test `hypot(...) <= 24` is the squared test `<= 576`, and `> 1` is `> 1` on squares.
- The spawn angle is given as its cosine and sine, whose squares sum to 1. `Math.cos`, `Math.sin` and `Math.random` are not computed; their results are inputs.
- The word vocabulary lives in a file that is not part of this model. The drawn word is an input.
- Lower-casing covers ASCII letters only; Unicode case mapping is not modelled.
- Timers are not scheduled. `setInterval` becomes an explicit `RunTick` call. The 20-second grace timeout becomes an explicit `GraceExpired` call for a numbered timer. `clearInterval` and `clearTimeout` become flags and map updates. Nothing models the delay or the order in which timers fire.
- socket.io delivery: messages are returned, not sent. `emitToPlayer`'s warning for a missing socket, `socket.join` and the room broadcast groups are not modelled. A `ToRoom` message stands for a broadcast to the room.
- The sockets behind the queued ids become the set of live connection ids given to `AttemptMatch`.
- Room ids from `uuid` are an input list. The model requires the ids to be distinct and there to be enough of them, which the source assumes of `v4`.
- Logging (`console.log`, `console.warn`) is not modelled.
- The hit's `enemyId` is an integer. The source accepts any JSON value and compares it with the map keys, so non-integer ids, which never match, are not modelled.
- Object identity of player records is not modelled. Players are values inside the room, so a reference to a player kept across a rekey cannot be expressed.
- `leaveRoomIfAny` visits the rooms in the `Map`'s insertion order. The registry is a Dafny `map`, which has no order, so the model visits them in any order. Rooms are independent and the timer counter only numbers the timers, so only which room gets which number depends on the order. `Registry.RoomRegistry.LeaveRoomIfAny` states that every new timer number lies between the old and new counter.
- `reassignPlayerSocket` is exposed on the room object (src/services/room-manager.js:159-160), but no socket handler calls it: src/socket/index.js wires only the matchmaking handlers. It is modelled as the room operation `RoomEngine.Room.ReassignPlayerSocket` alone.
- The clock is assumed not to run backwards. `Date.now()` is a wall clock and the source never checks it. The cap of live enemies is carried from tick to tick (`RoomEngine.Room.Tick`, `RoomEngine.TickCap`) only when the new time is not before the last tick.
- RoomEngine.Room.SetReady, RoomEngine.Room.StartMatch and RoomEngine.Room.MarkLeft do not restate the cap of live enemies in their contracts. Their contracts give the new players exactly, and `SamePoolsWithin`, `CooldownsWithin` and `DisconnectWithin` prove that those players stay within the cap. The registry's `Valid` does not carry the cap either.
- A truthy `word` that is not a string (a number, say) makes `handleHit` throw a `TypeError` at src/services/room-manager.js:256, after the attempt time was recorded at :240. The model types the word as an optional string, so this throw is not modelled.
- A `ready`, `hit` or `requestRoomState` event without a payload throws when `{ roomId }` is destructured (src/socket/handlers/matchmaking.js:19, :29, :37). The model always receives a room id, so this throw is not modelled.
- PairUp: states that the rooms it makes are different objects, none of them registered before the run, rather than that each is newly allocated (`fresh`). `Open` and `TakeTwo` state `fresh` for the one room they make; carrying `fresh` through the loop invariant is too costly for the verifier.
- AttemptMatch: states the new rooms' object identity as `PairUp` does, not `fresh`.
- JoinQueue: states the new rooms' object identity as `PairUp` does, not `fresh`.
- Authentication routes, middleware, database access and server bootstrap are not part of this model.
