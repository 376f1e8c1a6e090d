/** The `Fruit` entity of the sketch: a falling object that is WHOLE until it is
    sliced and CUT forever after. Positions and velocities are exact reals;
    the canvas is y-down, so a positive `vy` moves the fruit towards the bottom. */
module Fruits {

  /** The four fruit kinds whose artwork is loaded at startup. The artwork
      itself is rendering-only and is not modelled. */
  datatype Kind = Orange | Strawberry | Apple | Watermelon

  /** Side length of the square sprite; the hit circle has half of it as radius. */
  const FruitSize: real := 120.0
  /** Per-frame growth of each cut half's horizontal offset from the centre
      (the halves are drawn at `x - cutOffsetX` and `x + cutOffsetX`). */
  const SplitSpeed: real := 4.0

  datatype Fruit = Fruit(
    kind: Kind,
    x: real, y: real,
    vx: real, vy: real,
    gravity: real,
    cutState: bool,
    size: real,
    cutOffsetX: real, cutOffsetY: real,
    splitSpeed: real)

  /** What every fruit built by NewFruit keeps through Update and Cut: the
      fixed size and split speed, a vertical offset that is never moved off
      zero, and a horizontal offset that is zero while WHOLE and never negative. */
  predicate Valid(f: Fruit) {
    && f.size == FruitSize
    && f.splitSpeed == SplitSpeed
    && f.cutOffsetY == 0.0
    && f.cutOffsetX >= 0.0
    && (!f.cutState ==> f.cutOffsetX == 0.0)
  }

  /** The constructor: a WHOLE fruit with the given kinematics. */
  function NewFruit(kind: Kind, x: real, y: real, vx: real, vy: real, gravity: real): (f: Fruit)
    ensures Valid(f) && !f.cutState
    ensures f.kind == kind && f.x == x && f.y == y
    ensures f.vx == vx && f.vy == vy && f.gravity == gravity
  {
    Fruit(kind, x, y, vx, vy, gravity, false, FruitSize, 0.0, 0.0, SplitSpeed)
  }

  /** One frame of motion. WHOLE: explicit Euler step with full gravity.
      CUT: the halves drift apart, horizontal speed and gravity are halved.
      In both states y moves by the velocity from before the step. */
  function Update(f: Fruit): (r: Fruit)
    ensures r.cutState == f.cutState
    ensures r.kind == f.kind && r.vx == f.vx && r.gravity == f.gravity
    ensures r.size == f.size && r.splitSpeed == f.splitSpeed && r.cutOffsetY == f.cutOffsetY
    ensures r.y == f.y + f.vy
    ensures Valid(f) ==> Valid(r)
    ensures f.gravity >= 0.0 ==> r.vy >= f.vy
  {
    if !f.cutState then
      f.(x := f.x + f.vx, y := f.y + f.vy, vy := f.vy + f.gravity)
    else
      f.(cutOffsetX := f.cutOffsetX + f.splitSpeed,
         x := f.x + f.vx * 0.5,
         y := f.y + f.vy,
         vy := f.vy + f.gravity * 0.5)
  }

  /** Squared Euclidean distance between two points. */
  function SqDist(x1: real, y1: real, x2: real, y2: real): real {
    (x1 - x2) * (x1 - x2) + (y1 - y2) * (y1 - y2)
  }

  /** The circular hit test, stated on squared distances so that no square
      root is needed. */
  predicate IsHit(f: Fruit, px: real, py: real) {
    SqDist(f.x, f.y, px, py) < (f.size / 2.0) * (f.size / 2.0)
  }

  /** For any point, `IsHit` holds exactly when the Euclidean distance `d`
      (the nonnegative root of the squared distance) is strictly below half
      the sprite size, which is 60 for every valid fruit. */
  lemma HitWithinRadius(f: Fruit, px: real, py: real, d: real)
    requires Valid(f)
    requires d >= 0.0 && d * d == SqDist(f.x, f.y, px, py)
    ensures IsHit(f, px, py) <==> d < 60.0
  {
    assert f.size / 2.0 == 60.0;
    if d < 60.0 {
      assert d * d <= d * 60.0 < 60.0 * 60.0;
    } else {
      assert d * d >= d * 60.0 >= 60.0 * 60.0;
    }
  }

  /** Slicing: the only WHOLE-to-CUT transition. Resets both offsets and
      touches nothing else. */
  function Cut(f: Fruit): (r: Fruit)
    ensures r.cutState && r.cutOffsetX == 0.0 && r.cutOffsetY == 0.0
    ensures r.kind == f.kind && r.x == f.x && r.y == f.y && r.vx == f.vx && r.vy == f.vy
    ensures r.gravity == f.gravity && r.size == f.size && r.splitSpeed == f.splitSpeed
    ensures Valid(f) ==> Valid(r)
  {
    f.(cutState := true, cutOffsetX := 0.0, cutOffsetY := 0.0)
  }

  /** `n` consecutive frames of Update. */
  function Advance(f: Fruit, n: nat): Fruit
  {
    if n == 0 then f else Update(Advance(f, n - 1))
  }

  /** Horizontal speed applied per frame in the fruit's state. */
  function Drift(f: Fruit): real {
    if f.cutState then f.vx / 2.0 else f.vx
  }

  /** Gravity applied per frame in the fruit's state. */
  function Fall(f: Fruit): real {
    if f.cutState then f.gravity / 2.0 else f.gravity
  }

  /** `n * a`, as `n` repeated additions: the shape in which frames accumulate. */
  function Scale(n: nat, a: real): real {
    if n == 0 then 0.0 else Scale(n - 1, a) + a
  }

  /** `a * (0 + 1 + ... + (n - 1))`: what a per-frame increment `a` of the
      speed adds to the position over `n` frames. */
  function Gain(n: nat, a: real): real {
    if n == 0 then 0.0 else Gain(n - 1, a) + Scale(n - 1, a)
  }

  lemma {:induction false} ScaleIsProduct(n: nat, a: real)
    ensures Scale(n, a) == (n as real) * a
  {
    if n > 0 {
      ScaleIsProduct(n - 1, a);
      OneMore((n - 1) as real, a);
    }
  }

  lemma {:induction false} GainIsTriangular(n: nat, a: real)
    ensures Gain(n, a) == a * ((n as real) * (n as real - 1.0) / 2.0)
  {
    if n > 0 {
      GainIsTriangular(n - 1, a);
      ScaleIsProduct(n - 1, a);
      TriangleStep((n - 1) as real, n as real, a);
    }
  }

  lemma OneMore(k: real, a: real)
    ensures (k + 1.0) * a == k * a + a
  {
  }

  lemma TriangleStep(k: real, k': real, a: real)
    requires k' == k + 1.0
    ensures a * (k * (k - 1.0) / 2.0) + k * a == a * (k' * (k' - 1.0) / 2.0)
  {
  }

  lemma {:induction false} AdvanceByScale(f: Fruit, n: nat)
    ensures var r := Advance(f, n);
      && r.x == f.x + Scale(n, Drift(f))
      && r.vy == f.vy + Scale(n, Fall(f))
      && r.y == f.y + Scale(n, f.vy) + Gain(n, Fall(f))
      && r.cutOffsetX == f.cutOffsetX + (if f.cutState then Scale(n, f.splitSpeed) else 0.0)
  {
    if n > 0 {
      AdvanceByScale(f, n - 1);
      AdvanceKeeps(f, n - 1);
    }
  }

  /** Closed form of `n` frames: the state never changes, the drift is
      constant, the vertical speed grows linearly and the height
      quadratically, and each half of a cut fruit moves its horizontal offset
      from the centre out by exactly `splitSpeed` per frame. */
  lemma AdvanceClosedForm(f: Fruit, n: nat)
    ensures var r, k := Advance(f, n), n as real;
      && r.cutState == f.cutState
      && r.x == f.x + k * Drift(f)
      && r.vy == f.vy + k * Fall(f)
      && r.y == f.y + k * f.vy + Fall(f) * (k * (k - 1.0) / 2.0)
      && r.cutOffsetX == f.cutOffsetX + (if f.cutState then k * f.splitSpeed else 0.0)
  {
    AdvanceKeeps(f, n);
    AdvanceByScale(f, n);
    ScaleIsProduct(n, Drift(f));
    ScaleIsProduct(n, Fall(f));
    ScaleIsProduct(n, f.vy);
    ScaleIsProduct(n, f.splitSpeed);
    GainIsTriangular(n, Fall(f));
  }

  /** The quantities Update never changes stay fixed over any number of frames. */
  lemma {:induction false} AdvanceKeeps(f: Fruit, n: nat)
    ensures var r := Advance(f, n);
      r.kind == f.kind && r.vx == f.vx && r.gravity == f.gravity && r.size == f.size
      && r.splitSpeed == f.splitSpeed && r.cutOffsetY == f.cutOffsetY && r.cutState == f.cutState
  {
    if n > 0 {
      AdvanceKeeps(f, n - 1);
    }
  }

  /** A fruit thrown at (500, -50) with vertical speed -2 under gravity 0.3:
      after ten WHOLE frames its vertical speed is 1 and its height is
      -50 + (-2 - 1.7 - ... + 0.7) = -56.5. */
  lemma TenWholeFrames(kind: Kind, vx: real)
    ensures var r := Advance(NewFruit(kind, 500.0, -50.0, vx, -2.0, 0.3), 10);
      r.vy == 1.0 && r.y == -56.5 && r.x == 500.0 + 10.0 * vx && !r.cutState
  {
    AdvanceClosedForm(NewFruit(kind, 500.0, -50.0, vx, -2.0, 0.3), 10);
  }
}
