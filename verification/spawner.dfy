/** The spawn countdown and the random fruit factory. The p5 random source is
    replaced by a `SpawnChoice` supplied by the caller; the ranges it must fall
    in are those of the `random(...)` calls. */
module Spawner {
  import opened Fruits

  /** Frames counted before a spawn: the timer must EXCEED this value. */
  const SpawnInterval: int := 40
  /** Every fruit enters just above the top edge of the canvas. */
  const SpawnY: real := -50.0
  /** Gravity given to every spawned fruit. */
  const SpawnGravity: real := 0.3
  /** Horizontal inset of the spawn band from each canvas edge. */
  const SpawnInset: real := 100.0

  /** The timer after one frame, and whether that frame spawned a fruit. */
  datatype Tick = Tick(timer: int, spawn: bool)

  /** One frame of the countdown: increment, and on exceeding the interval
      spawn and restart from zero. */
  function TickTimer(timer: int): (r: Tick)
    ensures r.spawn <==> timer >= SpawnInterval
    ensures r.spawn ==> r.timer == 0
    ensures !r.spawn ==> r.timer == timer + 1
    ensures timer >= 0 ==> 0 <= r.timer <= SpawnInterval
  {
    var t := timer + 1;
    if t > SpawnInterval then Tick(0, true) else Tick(t, false)
  }

  /** The timer and the number of fruits spawned after `n` frames from zero. */
  datatype Schedule = Schedule(timer: int, spawned: nat)

  function RunTimer(n: nat): Schedule
  {
    if n == 0 then Schedule(0, 0)
    else
      var s := RunTimer(n - 1);
      var t := TickTimer(s.timer);
      Schedule(t.timer, s.spawned + if t.spawn then 1 else 0)
  }

  /** Starting from zero, the countdown is periodic with period 41: after `n`
      frames the timer reads `n mod 41` and exactly `n div 41` fruits were spawned. */
  lemma {:induction false} RunTimerPeriodic(n: nat)
    ensures RunTimer(n).timer == n % (SpawnInterval + 1)
    ensures RunTimer(n).spawned == n / (SpawnInterval + 1)
  {
    if n > 0 {
      RunTimerPeriodic(n - 1);
      var m := n - 1;
      if m % 41 == 40 {
        assert n % 41 == 0 && n / 41 == m / 41 + 1;
      } else {
        assert n % 41 == m % 41 + 1 && n / 41 == m / 41;
      }
    }
  }

  /** The first spawn happens on frame 41 and not before. */
  lemma FirstSpawnOnFrame41(n: nat)
    requires n <= SpawnInterval + 1
    ensures RunTimer(n).spawned == (if n == SpawnInterval + 1 then 1 else 0)
  {
    RunTimerPeriodic(n);
  }

  /** p5's `random(a, b)`: a value between the two bounds in either order. */
  predicate Between(v: real, a: real, b: real) {
    if a <= b then a <= v <= b else b <= v <= a
  }

  /** The random draws of one spawn. */
  datatype SpawnChoice = SpawnChoice(kind: Kind, x: real, vx: real, vy: real)

  /** The draws `random(100, width - 100)`, `random(-1, 1)` and `random(-2, 0)`. */
  predicate ValidChoice(width: real, c: SpawnChoice) {
    && Between(c.x, SpawnInset, width - SpawnInset)
    && Between(c.vx, -1.0, 1.0)
    && Between(c.vy, -2.0, 0.0)
  }

  /** A fresh WHOLE fruit at the top of the canvas, inside the spawn band,
      drifting slowly sideways and thrown slightly upwards. */
  function SpawnRandomFruit(width: real, c: SpawnChoice): (f: Fruit)
    requires ValidChoice(width, c)
    ensures Valid(f) && !f.cutState
    ensures f.size == 120.0 && f.splitSpeed == 4.0
    ensures f.cutOffsetX == 0.0 && f.cutOffsetY == 0.0
    ensures f.kind == c.kind && f.y == -50.0 && f.gravity == 0.3
    ensures width >= 2.0 * SpawnInset ==> 100.0 <= f.x <= width - 100.0
    ensures -1.0 <= f.vx <= 1.0 && -2.0 <= f.vy <= 0.0
  {
    NewFruit(c.kind, c.x, SpawnY, c.vx, c.vy, SpawnGravity)
  }
}
