# Fruit-slicing sketch: a Dafny model of the frame simulation

The sketch is a p5.js arcade game. Fruits fall from the top of a full-window
canvas. A camera-tracked index fingertip slices them, and the fingertip leaves
a fading trail. Every visible effect comes from a single `draw` callback that
runs once per frame. This project models what that callback does to the game
state, with rendering, the webcam, the hand-pose model and sound removed:

- `Fruits` (`fruits.dfy`): the `Fruit` entity and its WHOLE/CUT state machine.
  It covers the constructor, `update`, the circular hit test `isHit` and `cut`.
  It also gives the closed form of any number of frames of motion.
- `Spawner` (`spawner.dfy`): the spawn countdown (`spawnTimer`, `spawnInterval`)
  and `spawnRandomFruit`. The random draws come in as a `SpawnChoice`.
- `Trails` (`trails.dfy`): `addTrailPoint` and `updateTrails`, plus the lifetime
  of a single trail point.
- `Game` (`game.dfy`): one `draw` call as the pure function
  `Step(canvas, state, input)`. In order, it ticks the countdown and spawns,
  moves every fruit and ages the trail. When a hand is present, it then adds a
  trail point and runs the hit loop at the mirrored fingertip. Last, it prunes
  fruits that fell below the screen. `Run` folds `Step` over a sequence of
  frames.
- `Sequences` (`sequences.dfy`): `Filter`, an order-preserving selection. It
  models JavaScript's `Array.filter`, which the sketch uses for both lists.

Positions and velocities are exact `real`s. Lifetimes and the timer are `int`s.
The canvas size, the random draws and the latest fingertip are inputs.
`Step` also reports how many fruits the frame sliced, which is the number of
times the cut sound is restarted.

Three details of the frame's ordering matter:

- The new fruit is appended before the update loop runs, so it moves in the
  same frame it is spawned. After the 41st frame its height is `-50 + vy`.
- `updateTrails` drops expired points before it decrements the rest. A point
  therefore reaches lifetime 0 after 90 frames, stays for one more frame and is
  removed on the 91st.
- `updateTrails` runs before `addTrailPoint`, so a new point is not aged in the
  frame that adds it.

## Model

| member | source | states |
|---|---|---|
| Fruits.NewFruit | sketch.js:130-145 | a new fruit is WHOLE, keeps the given kind, position, velocity and gravity, and has size 120, split speed 4 and both cut offsets 0 |
| Fruits.Update | sketch.js:147-158 | a frame never changes the WHOLE/CUT state, the kind, vx, gravity or size; y always moves by the velocity from before the step; the fruit invariant is kept; vy never decreases under nonnegative gravity |
| Fruits.AdvanceClosedForm | sketch.js:147-158 | after n frames x has drifted by n·vx (n·vx/2 when CUT) and vy has grown by n·g (n·g/2 when CUT); y = y0 + n·vy0 + g·n(n−1)/2 with the state's g; each half of a CUT fruit moves its horizontal offset from the centre out by exactly 4 per frame; the state never changes |
| Fruits.TenWholeFrames | sketch.js:147-151 | a WHOLE fruit at (500, −50) with vy −2 and gravity 0.3 has vy = 1 and y = −56.5 after ten frames |
| Fruits.HitWithinRadius | sketch.js:169-171 | for a valid fruit, the hit test holds exactly when the Euclidean distance to the point is strictly below 60, which is half of the size 120 |
| Fruits.Cut | sketch.js:173-177 | cutting sets the CUT state and zeroes both offsets; position, velocity, gravity, size and split speed are unchanged; the fruit invariant is kept |
| Spawner.TickTimer | sketch.js:55-59 | a frame spawns exactly when the timer was already at 40 or more; it then resets to 0, and otherwise it grows by one; from a nonnegative timer the result lies in [0, 40] |
| Spawner.RunTimerPeriodic | sketch.js:3-4 | from 0, the timer reads n mod 41 after n frames, and exactly n div 41 fruits have been spawned |
| Spawner.FirstSpawnOnFrame41 | sketch.js:55-59 | from 0, no frame among the first 40 spawns and the 41st spawns one fruit |
| Spawner.SpawnRandomFruit | sketch.js:115-127 | a spawned fruit is WHOLE and valid, with the drawn kind, y = −50 and gravity 0.3; x lies in [100, width−100] on a canvas at least 200 wide; vx lies in [−1, 1] and vy in [−2, 0] |
| Trails.AddTrailPoint | sketch.js:95-101 | appends exactly one point, at the given position with lifetime 90, and leaves the earlier points as they were; lifetimes stay within [0, 90] |
| Trails.UpdateTrails | sketch.js:103-113 | no point is added; every remaining lifetime is nonnegative; lifetimes bounded by h become bounded by h−1 |
| Trails.UpdateTrailsSelects | sketch.js:106-111 | the update keeps exactly the points with positive lifetime, in order, at the same position, each with its lifetime lowered by exactly 1 |
| Trails.UpdateTrailsConcat | sketch.js:103-113 | trail points age independently: updating a concatenation updates each part |
| Trails.PassesConcat | sketch.js:103-113 | the independence holds over any number of frames |
| Trails.PointCountsDown | sketch.js:106-111 | a point with lifetime L is still present with lifetime L−n after n ≤ L frames |
| Trails.PointExpires | sketch.js:106 | a point with lifetime L ≥ 0 is gone after L+1 frames |
| Trails.FreshPointLifespan | sketch.js:95-113 | a new point survives exactly 90 frames, with lifetime 90−n after frame n, and is removed on frame 91, whatever else is on the trail |
| Sequences.Filter | sketch.js:92 | the filtered list is never longer than the input, and every element it keeps satisfies the predicate |
| Sequences.FilterMembers | sketch.js:92 | an element is kept exactly when it is in the input and satisfies the predicate, and is never duplicated (multiset inclusion) |
| Sequences.FilterSelectsIndices | sketch.js:92 | the filtered list is the input read at strictly increasing positions, which are exactly the positions whose element satisfies the predicate |
| Sequences.FilterConcat | sketch.js:106 | filtering a concatenation filters each part separately |
| Game.HitAll | sketch.js:81-89 | the hit loop keeps the list length; a CUT fruit or an out-of-reach fruit is left exactly as it was; a WHOLE fruit within reach becomes the cut fruit |
| Game.HitAllCounts | sketch.js:81-89 | the hit loop raises the CUT count by exactly the number of WHOLE fruits within reach; a second pass at the same point would cut nothing |
| Game.Prune | sketch.js:92 | after pruning every fruit has y < height + 150; a fruit survives exactly when it was present and above that line; no fruit is duplicated |
| Game.PruneKeepsOrder | sketch.js:92 | the survivors are the input at strictly increasing positions, which are exactly the positions above the line, so order is kept and nothing repeats |
| Game.Step | sketch.js:44-93 | from a nonnegative timer the timer stays in [0, 40]; at most one fruit is added, and only when the timer was at 40 or more; every fruit left is above the pruning line; without a hand nothing is sliced and the trail only ages; with a hand the trail gains exactly one point at the mirrored fingertip with lifetime 90 |
| Game.StepKeepsInv | sketch.js:44-93 | the frame invariant is kept: timer in [0, 40], valid fruits with gravity 0.3 above the pruning line, and trail lifetimes in [0, 90] |
| Game.StepTracksFruits | sketch.js:55-89 | a CUT fruit is only moved and never cut again; a WHOLE fruit becomes CUT exactly when a hand is present and its moved position is within reach of the mirrored fingertip; the spawned fruit comes last, moved one frame |
| Game.StepCountsSlices | sketch.js:81-89 | the slices a frame reports (one sound each) equal the number of fruits it turned from WHOLE to CUT |
| Game.RunKeepsInv | sketch.js:1-12 | every state reached from the initial one satisfies the frame invariant |
| Game.QuietStart | sketch.js:55-59 | from the initial state the fruit list stays empty for 40 frames while the timer counts up to 40 |
| Game.SpawnIntoEmpty | sketch.js:55-62 | the frame that ends the countdown on an empty list leaves exactly the new fruit, moved by one frame, and resets the timer |
| Game.FirstSpawnOnFrame41 | sketch.js:55-62 | after exactly 41 frames from the initial state, exactly one fruit is live, of the drawn kind, at y = −50 + vy with vy grown by 0.3, and the timer is 0 |

## Left out

- Rendering: `background`, the mirrored video image, `display()` and its two
  cut sprites, the trail's `stroke`/`point` calls and the alpha mapping, and the
  red fingertip dot. None of them changes the state.
- Asset loading in `preload`. The fruit images are represented only by the
  fruit `Kind`.
- The webcam and the asynchronous `handpose` model (`setup`, `detectHands`).
  `predictions` may lag the frame by one or more frames, so each frame takes
  the latest fingertip as an input (`Hand`). Only landmark 8 of the first hand
  is used. Its mirror `width - tip[0]` is `Game.MirrorX`.
- Sound: `cutSound` stop/play is represented only by the slice count that
  `Step` returns.
- p5's `random`: the kind, x, vx and vy are inputs (`SpawnChoice`). Each must
  lie between the two bounds of its `random(a, b)` call, in either order.
  Spawner.SpawnRandomFruit: the ranges are closed, while p5 never returns the
  upper bound, so the model admits slightly more inputs than the sketch
  produces.
- IEEE double rounding: positions, velocities and gravity are exact reals. The
  timer and lifetimes are small integers and stay exact in doubles.
- `frameRate(30)` and the canvas creation: the canvas size is an input and does
  not change between frames.
- The word-reveal variant of the sketch is not part of this model. Its source
  file is not among the modelled files.
