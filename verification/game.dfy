/** One frame of the sketch's `draw` callback, with rendering, the webcam, the
    hand-pose model and sound removed. The fingertip (landmark 8 of the first
    detected hand, in camera coordinates) and the spawn draws are inputs. */
module Game {
  import opened Sequences
  import opened Fruits
  import opened Spawner
  import opened Trails

  /** Fruits are dropped once they are this far below the bottom edge. */
  const PruneMargin: real := 150.0

  datatype Canvas = Canvas(width: real, height: real)

  /** The latest hand-pose result: no hand, or the raw index fingertip. */
  datatype Hand = NoHand | Fingertip(tipX: real, tipY: real)

  /** Everything a frame takes from outside: the random draws (used only when
      the countdown spawns) and the fingertip. */
  datatype FrameInput = FrameInput(choice: SpawnChoice, hand: Hand)

  /** The sketch's global mutable state. */
  datatype GameState = GameState(fruits: seq<Fruit>, trails: seq<TrailPoint>, spawnTimer: int)

  /** The state after a frame and how many fruits it sliced (one sound each). */
  datatype Frame = Frame(state: GameState, slices: nat)

  function Initial(): GameState {
    GameState([], [], 0)
  }

  /** The camera preview is mirrored, so the fingertip's x is reflected. */
  function MirrorX(c: Canvas, tipX: real): real {
    c.width - tipX
  }

  // ---------------------------------------------------------------------
  // Hit-and-cut loop

  /** The body of the hit loop for one fruit. */
  function Slice(f: Fruit, px: real, py: real): Fruit {
    if !f.cutState && IsHit(f, px, py) then Cut(f) else f
  }

  /** The hit loop: every WHOLE fruit within reach of the point is cut;
      CUT fruits and fruits out of reach are left exactly as they were. */
  function HitAll(fs: seq<Fruit>, px: real, py: real): (r: seq<Fruit>)
    ensures |r| == |fs|
    ensures forall i :: 0 <= i < |fs| && (fs[i].cutState || !IsHit(fs[i], px, py)) ==> r[i] == fs[i]
    ensures forall i :: 0 <= i < |fs| && !fs[i].cutState && IsHit(fs[i], px, py) ==> r[i] == Cut(fs[i])
  {
    if |fs| == 0 then [] else [Slice(fs[0], px, py)] + HitAll(fs[1..], px, py)
  }

  /** Number of CUT fruits. */
  function CutCount(fs: seq<Fruit>): nat {
    if |fs| == 0 then 0 else (if fs[0].cutState then 1 else 0) + CutCount(fs[1..])
  }

  /** Number of WHOLE fruits within reach of the point: the slices the hit loop makes. */
  function SliceCount(fs: seq<Fruit>, px: real, py: real): (n: nat)
    ensures n <= |fs|
  {
    if |fs| == 0 then 0
    else (if !fs[0].cutState && IsHit(fs[0], px, py) then 1 else 0) + SliceCount(fs[1..], px, py)
  }

  /** The hit loop turns exactly SliceCount fruits from WHOLE to CUT, and a
      second pass at the same point would slice nothing more. */
  lemma {:induction false} HitAllCounts(fs: seq<Fruit>, px: real, py: real)
    ensures CutCount(HitAll(fs, px, py)) == CutCount(fs) + SliceCount(fs, px, py)
    ensures SliceCount(HitAll(fs, px, py), px, py) == 0
  {
    if |fs| > 0 {
      var r := HitAll(fs, px, py);
      assert r[1..] == HitAll(fs[1..], px, py);
      HitAllCounts(fs[1..], px, py);
    }
  }

  // ---------------------------------------------------------------------
  // Off-screen pruning

  /** A fruit stays while it is above the pruning line. */
  predicate OnScreen(c: Canvas, f: Fruit) {
    f.y < c.height + PruneMargin
  }

  function Keeper(c: Canvas): Fruit -> bool {
    f => OnScreen(c, f)
  }

  /** The only deletion path for fruits. */
  function Prune(c: Canvas, fs: seq<Fruit>): (r: seq<Fruit>)
    ensures forall f :: f in r <==> f in fs && f.y < c.height + PruneMargin
    ensures multiset(r) <= multiset(fs)
  {
    FilterMembers(fs, Keeper(c));
    Filter(fs, Keeper(c))
  }

  /** Pruning keeps exactly the fruits above the line, each once, in their
      original relative order. */
  lemma PruneKeepsOrder(c: Canvas, fs: seq<Fruit>)
    ensures var r, idx := Prune(c, fs), FilterIndices(fs, Keeper(c));
      && |r| == |idx|
      && (forall k :: 0 <= k < |r| ==> r[k] == fs[idx[k]])
      && (forall k, l :: 0 <= k < l < |idx| ==> idx[k] < idx[l])
      && (forall i :: 0 <= i < |fs| ==> (i in idx <==> fs[i].y < c.height + PruneMargin))
  {
    FilterSelectsIndices(fs, Keeper(c));
  }

  // ---------------------------------------------------------------------
  // The frame

  /** Every fruit moved by one frame. */
  function UpdateAll(fs: seq<Fruit>): (r: seq<Fruit>)
    ensures |r| == |fs| && forall i :: 0 <= i < |fs| ==> r[i] == Update(fs[i])
  {
    seq(|fs|, i requires 0 <= i < |fs| => Update(fs[i]))
  }

  /** The fruit list after the countdown, with the new fruit (if any) at the end. */
  function Spawned(c: Canvas, st: GameState, choice: SpawnChoice): seq<Fruit>
    requires ValidChoice(c.width, choice)
  {
    if TickTimer(st.spawnTimer).spawn
    then st.fruits + [SpawnRandomFruit(c.width, choice)]
    else st.fruits
  }

  /** The fruit list after motion and the hit loop, before pruning. */
  function Moved(c: Canvas, st: GameState, input: FrameInput): seq<Fruit>
    requires ValidChoice(c.width, input.choice)
  {
    var moved := UpdateAll(Spawned(c, st, input.choice));
    match input.hand
    case NoHand => moved
    case Fingertip(tipX, tipY) => HitAll(moved, MirrorX(c, tipX), tipY)
  }

  /** A fruit as the spawner makes it and as every frame keeps it. */
  predicate Live(f: Fruit) {
    Valid(f) && f.gravity == SpawnGravity
  }

  /** What holds between frames for a state reached from Initial. */
  predicate Inv(c: Canvas, st: GameState) {
    && 0 <= st.spawnTimer <= SpawnInterval
    && (forall f :: f in st.fruits ==> Live(f) && OnScreen(c, f))
    && LifetimesWithin(st.trails, 0, TrailLifetime)
  }

  /** One call of `draw`: countdown and spawn, move every fruit, age the trail,
      then (with a hand) add a trail point and run the hit loop at the
      mirrored fingertip, and finally prune. */
  function Step(c: Canvas, st: GameState, input: FrameInput): (r: Frame)
    requires ValidChoice(c.width, input.choice)
    ensures st.spawnTimer >= 0 ==> 0 <= r.state.spawnTimer <= SpawnInterval
    ensures |r.state.fruits| <= |st.fruits| + (if st.spawnTimer >= SpawnInterval then 1 else 0)
    ensures forall f :: f in r.state.fruits ==> f.y < c.height + PruneMargin
    ensures input.hand.NoHand? ==> r.slices == 0 && r.state.trails == UpdateTrails(st.trails)
    ensures input.hand.Fingertip? ==>
      var n := |r.state.trails| - 1;
      && n >= 0
      && r.state.trails[..n] == UpdateTrails(st.trails)
      && r.state.trails[n] == TrailPoint(c.width - input.hand.tipX, input.hand.tipY, TrailLifetime)
    ensures r.slices <= |st.fruits| + 1
  {
    var tick := TickTimer(st.spawnTimer);
    var spawned := Spawned(c, st, input.choice);
    var moved := UpdateAll(spawned);
    var faded := UpdateTrails(st.trails);
    match input.hand
    case NoHand =>
      Frame(GameState(Prune(c, moved), faded, tick.timer), 0)
    case Fingertip(tipX, tipY) =>
      var fx := MirrorX(c, tipX);
      Frame(GameState(Prune(c, HitAll(moved, fx, tipY)), AddTrailPoint(faded, fx, tipY), tick.timer),
            SliceCount(moved, fx, tipY))
  }

  lemma MovedLive(c: Canvas, st: GameState, input: FrameInput)
    requires ValidChoice(c.width, input.choice)
    requires forall f :: f in st.fruits ==> Live(f)
    ensures forall f :: f in Moved(c, st, input) ==> Live(f)
  {
    var spawned := Spawned(c, st, input.choice);
    assert forall i :: 0 <= i < |spawned| ==> Live(spawned[i]) by {
      forall i | 0 <= i < |spawned|
        ensures Live(spawned[i])
      {
        if i < |st.fruits| {
          assert spawned[i] == st.fruits[i];
        }
      }
    }
    var pre := Moved(c, st, input);
    assert forall i :: 0 <= i < |pre| ==> Live(pre[i]);
  }

  /** Inv holds after every frame once it holds before it. */
  lemma StepKeepsInv(c: Canvas, st: GameState, input: FrameInput)
    requires ValidChoice(c.width, input.choice)
    requires Inv(c, st)
    ensures Inv(c, Step(c, st, input).state)
  {
    MovedLive(c, st, input);
    StepFruitsArePruned(c, st, input);
  }

  lemma StepFruitsArePruned(c: Canvas, st: GameState, input: FrameInput)
    requires ValidChoice(c.width, input.choice)
    ensures Step(c, st, input).state.fruits == Prune(c, Moved(c, st, input))
  {
  }

  lemma {:induction false} CutCountUpdateAll(fs: seq<Fruit>)
    ensures CutCount(UpdateAll(fs)) == CutCount(fs)
  {
    if |fs| > 0 {
      assert UpdateAll(fs)[1..] == UpdateAll(fs[1..]);
      CutCountUpdateAll(fs[1..]);
    }
  }

  lemma {:induction false} CutCountSnoc(fs: seq<Fruit>, f: Fruit)
    ensures CutCount(fs + [f]) == CutCount(fs) + (if f.cutState then 1 else 0)
  {
    if |fs| > 0 {
      assert (fs + [f])[1..] == fs[1..] + [f];
      CutCountSnoc(fs[1..], f);
    }
  }

  /** How each fruit of a frame's input relates to the same position in the
      list before pruning: a CUT fruit only moves (it is never cut again, so
      its offsets are never reset); a WHOLE fruit becomes CUT exactly when a
      hand is present and the mirrored fingertip hits it after it moved; the
      spawned fruit, if any, comes last. */
  lemma StepTracksFruits(c: Canvas, st: GameState, input: FrameInput)
    requires ValidChoice(c.width, input.choice)
    ensures var pre := Moved(c, st, input);
      && |pre| == |st.fruits| + (if st.spawnTimer >= SpawnInterval then 1 else 0)
      && (forall j :: 0 <= j < |st.fruits| && st.fruits[j].cutState ==>
            pre[j] == Update(st.fruits[j]))
      && (forall j :: 0 <= j < |st.fruits| && !st.fruits[j].cutState ==>
            (pre[j].cutState <==>
               input.hand.Fingertip? &&
               IsHit(Update(st.fruits[j]), MirrorX(c, input.hand.tipX), input.hand.tipY)))
      && (st.spawnTimer >= SpawnInterval ==>
            var f := pre[|st.fruits|];
            f.kind == input.choice.kind && f.y == SpawnY + input.choice.vy
            && f.vy == input.choice.vy + SpawnGravity)
  {
    var spawned := Spawned(c, st, input.choice);
    assert forall j :: 0 <= j < |st.fruits| ==> spawned[j] == st.fruits[j];
  }

  /** The slices a frame reports are exactly the fruits it turned from WHOLE
      to CUT (counted before pruning). */
  lemma StepCountsSlices(c: Canvas, st: GameState, input: FrameInput)
    requires ValidChoice(c.width, input.choice)
    ensures CutCount(Moved(c, st, input)) == CutCount(st.fruits) + Step(c, st, input).slices
  {
    var spawned := Spawned(c, st, input.choice);
    var moved := UpdateAll(spawned);
    CutCountUpdateAll(spawned);
    if TickTimer(st.spawnTimer).spawn {
      CutCountSnoc(st.fruits, SpawnRandomFruit(c.width, input.choice));
    }
    match input.hand
    case NoHand =>
    case Fingertip(tipX, tipY) =>
      HitAllCounts(moved, MirrorX(c, tipX), tipY);
  }

  // ---------------------------------------------------------------------
  // Runs of frames

  predicate ValidInputs(c: Canvas, ins: seq<FrameInput>) {
    forall i :: 0 <= i < |ins| ==> ValidChoice(c.width, ins[i].choice)
  }

  /** The state after the frames `ins`, in order. */
  function Run(c: Canvas, st: GameState, ins: seq<FrameInput>): GameState
    requires ValidInputs(c, ins)
  {
    if |ins| == 0 then st
    else Step(c, Run(c, st, ins[..|ins| - 1]), ins[|ins| - 1]).state
  }

  /** Inv holds in every state reached from Initial. */
  lemma {:induction false} RunKeepsInv(c: Canvas, ins: seq<FrameInput>)
    requires ValidInputs(c, ins)
    ensures Inv(c, Run(c, Initial(), ins))
  {
    if |ins| > 0 {
      var n := |ins| - 1;
      RunKeepsInv(c, ins[..n]);
      StepKeepsInv(c, Run(c, Initial(), ins[..n]), ins[n]);
    }
  }

  /** From the initial state the list stays empty for 40 frames, the timer
      counting 0, 1, ..., 40. */
  lemma {:induction false} QuietStart(c: Canvas, ins: seq<FrameInput>)
    requires ValidInputs(c, ins)
    requires |ins| <= SpawnInterval
    ensures Run(c, Initial(), ins).fruits == []
    ensures Run(c, Initial(), ins).spawnTimer == |ins|
  {
    if |ins| > 0 {
      var n := |ins| - 1;
      QuietStart(c, ins[..n]);
      var st := Run(c, Initial(), ins[..n]);
      assert Moved(c, st, ins[n]) == [];
    }
  }

  /** The frame that ends the countdown on an empty list leaves exactly the
      new fruit, moved by one frame. */
  lemma SpawnIntoEmpty(c: Canvas, st: GameState, input: FrameInput)
    requires ValidChoice(c.width, input.choice)
    requires st.fruits == [] && st.spawnTimer == SpawnInterval
    requires c.height >= 0.0
    ensures var r := Step(c, st, input).state;
      && |r.fruits| == 1
      && r.fruits[0].kind == input.choice.kind
      && r.fruits[0].y == SpawnY + input.choice.vy
      && r.fruits[0].vy == input.choice.vy + SpawnGravity
      && r.spawnTimer == 0
  {
    StepTracksFruits(c, st, input);
    StepFruitsArePruned(c, st, input);
    var pre := Moved(c, st, input);
    assert OnScreen(c, pre[0]);
    assert pre == [pre[0]];
    FilterMembers(pre, Keeper(c));
    assert pre[0] in Prune(c, pre);
  }

  /** The 41st frame spawns the first fruit: exactly one fruit is live, of the
      drawn kind, one frame below its spawn height, and the timer is back at 0. */
  lemma FirstSpawnOnFrame41(c: Canvas, ins: seq<FrameInput>)
    requires ValidInputs(c, ins)
    requires |ins| == SpawnInterval + 1
    requires c.height >= 0.0
    ensures var st := Run(c, Initial(), ins);
      && |st.fruits| == 1
      && st.fruits[0].kind == ins[40].choice.kind
      && st.fruits[0].y == SpawnY + ins[40].choice.vy
      && st.fruits[0].vy == ins[40].choice.vy + SpawnGravity
      && st.spawnTimer == 0
  {
    QuietStart(c, ins[..40]);
    SpawnIntoEmpty(c, Run(c, Initial(), ins[..40]), ins[40]);
  }
}
