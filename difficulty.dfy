/** The difficulty schedule of a match: a pure function from elapsed whole
    seconds to the spawn, speed and population parameters of one of five
    bands over a 340-second horizon, and the uniform draw helper. */
module Difficulty {

  /** One band of the schedule. `spawnMin`/`spawnMax` bound the spawn
      interval in milliseconds, `speedMin`/`speedMax` the base speed in
      units per 60 fps frame, `variety` the spread of the speed factor and
      `max` the number of live enemies a player may have at once. */
  datatype Phase = Phase(
    spawnMin: int, spawnMax: int,
    speedMin: real, speedMax: real,
    variety: real,
    max: nat)

  const TotalGameSeconds: real := 340.0

  /** The five bands, easiest first. */
  const Bands: seq<Phase> := [
    Phase(2000, 2500, 0.3, 0.5, 0.2, 5),
    Phase(1200, 1800, 0.5, 0.9, 0.4, 6),
    Phase(800, 1300, 0.8, 1.4, 0.6, 7),
    Phase(600, 1000, 1.2, 2.0, 0.8, 7),
    Phase(400, 700, 1.8, 3.5, 1.0, 7)
  ]

  /** Reference definition of the band in whole seconds: the progress
      thresholds 0.15, 0.35, 0.6 and 0.85 of 340 s are 51, 119, 204 and
      289 s. */
  function BandOf(elapsedSec: int): (b: nat)
    ensures b < |Bands|
  {
    if elapsedSec < 51 then 0
    else if elapsedSec < 119 then 1
    else if elapsedSec < 204 then 2
    else if elapsedSec < 289 then 3
    else 4
  }

  /** Every band has a proper spawn interval, a positive speed range and a
      variety factor in (0, 1]. */
  ghost predicate WellFormed(p: Phase) {
    0 < p.spawnMin < p.spawnMax && 0.0 < p.speedMin < p.speedMax
    && 0.0 < p.variety <= 1.0 && 5 <= p.max <= 7
  }

  function GetDifficultyPhase(elapsedSec: int): (p: Phase)
    ensures p == Bands[BandOf(elapsedSec)]
    ensures WellFormed(p)
  {
    var progress := elapsedSec as real / TotalGameSeconds;
    if progress < 0.15 then Phase(2000, 2500, 0.3, 0.5, 0.2, 5)
    else if progress < 0.35 then Phase(1200, 1800, 0.5, 0.9, 0.4, 6)
    else if progress < 0.6 then Phase(800, 1300, 0.8, 1.4, 0.6, 7)
    else if progress < 0.85 then Phase(600, 1000, 1.2, 2.0, 0.8, 7)
    else Phase(400, 700, 1.8, 3.5, 1.0, 7)
  }

  /** The schedule only gets harder: as time passes both spawn-interval
      bounds never rise, the speed range and the variety never fall, and
      the population cap never falls. */
  lemma PhaseMonotone(e1: int, e2: int)
    requires e1 <= e2
    ensures GetDifficultyPhase(e2).spawnMin <= GetDifficultyPhase(e1).spawnMin
    ensures GetDifficultyPhase(e2).spawnMax <= GetDifficultyPhase(e1).spawnMax
    ensures GetDifficultyPhase(e1).speedMin <= GetDifficultyPhase(e2).speedMin
    ensures GetDifficultyPhase(e1).speedMax <= GetDifficultyPhase(e2).speedMax
    ensures GetDifficultyPhase(e1).variety <= GetDifficultyPhase(e2).variety
    ensures GetDifficultyPhase(e1).max <= GetDifficultyPhase(e2).max
  {
    assert BandOf(e1) <= BandOf(e2);
  }

  /** The band at the start of a match: spawn interval [2000, 2500) ms and
      at most five live enemies. */
  lemma FirstPhase()
    ensures GetDifficultyPhase(0) == Phase(2000, 2500, 0.3, 0.5, 0.2, 5)
  {
  }

  /** A uniform draw from [lo, hi) given the random number `u` in [0, 1). */
  function RandRange(lo: real, hi: real, u: real): (r: real)
    requires 0.0 <= u < 1.0
    requires lo <= hi
    ensures lo <= r <= hi
    ensures lo < hi ==> r < hi
  {
    var width := hi - lo;
    ScaleBelow(u, width);
    lo + u * width
  }

  /** Scaling a non-negative width by a draw from [0, 1) stays inside it. */
  lemma ScaleBelow(u: real, w: real)
    requires 0.0 <= u < 1.0 && 0.0 <= w
    ensures 0.0 <= u * w <= w
    ensures 0.0 < w ==> u * w < w
  {
    assert w - u * w == (1.0 - u) * w;
  }
}
