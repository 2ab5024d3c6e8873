# Flappy bird game view: a verified model of its simulation

This project models the game simulation inside the Android view
`app/src/main/java/com/example/flappybirdklon/GameView.java` of a Flappy Bird
clone, and proves properties of it in Dafny.

The view keeps these fields:

- the bird's vertical position `birdY` and velocity `birdVelocity`;
- the flags `isGameOver` and `gameStarted`;
- the `score`;
- a list of pipes. Each pipe has an x position, a gap centre `gapY` and a
  `scored` flag.

It has two entry points:

- `onTouchEvent`: a press starts the game, restarts it after game over, or
  makes the bird jump.
- `onDraw`: the per-frame callback. Apart from drawing, it runs one frame of
  the simulation, in this order:
  1. centres the bird on the first frame;
  2. builds the first pipe;
  3. runs an indexed loop over the pipes, which moves each pipe 5 pixels left,
     tests it against the bird box, scores it, and chains a new pipe 600
     pixels behind the last one while that one is left of the middle of the
     screen;
  4. removes at most the oldest pipe, once it is off screen;
  5. applies gravity to the bird.

Modules:

- `Geometry`: integer rectangles with Android's strict `Rect.intersects`, and
  Java's truncating `(int)` cast of a float.
- `Pipes`: the sprite and scrolling constants, the pipe value, the
  constructor `Pipe(x)` with its random gap, the collision boxes, the
  per-pipe move-and-score step, and the chain of pipes spawned in one frame.
- `Simulation`: the game state as a value and one frame as a pure function.
  - `TickSpec` is a frame that completes.
  - `CrashSpec` is the state left when building a pipe throws.
  - The frame properties are lemmas about these two functions.
- `PipeLoop`: the indexed pipe loop as a method with loop invariants, on
  plain values, with one lemma per kind of loop step.
- `View`: the class `GameView` with the source's fields.
  - `OnTouchEvent` and `OnDraw` update those fields in place.
  - `OnTouchEvent` is proved to produce the state `Simulation.Tap`
    describes, and `OnDraw` the state `Simulation.TickSpec` (or `CrashSpec`
    when it throws) describes.

The screen size (`getWidth()`, `getHeight()`) is a parameter of each frame
and of each tap. The random gap is any value in range: the draws of one frame
are returned as a ghost result, so the specification can name them.

## Behaviour modelled as written

The code differs from an idealised version of the game in three places. The
model follows the code:

- `random.nextInt(getHeight() - 400)` (GameView.java:41) throws when the
  screen is at most 400 pixels high; the range is not clamped.
  - `NewPipe` returns `None` in that case.
  - `OnDraw` reports the exception as `thrown`, and leaves the fields as they
    were when it was raised (`CrashSpec`).
  - `Throws` says exactly when a frame throws: a pipe must be built and
    h <= 400.
- After game over, pipes keep scrolling, spawning, colliding and scoring.
  Only the bird's physics is gated by `isGameOver` (lines 142-188).
  `TickScrollsPipes` and `TickScore` hold whether or not the game is over.
- The frame re-centres the bird whenever `birdY == 0` and the height is
  positive (line 103), not only on the first frame. The test on
  `gameStarted` in the collision test (line 165) is always true at that point
  of the frame.

Collision uses the bird box computed before this frame's physics step (line
139), truncated to an integer, against the pipe already moved in this frame.

## Model

| member | source | states |
|---|---|---|
| `Geometry.Trunc` | app/src/main/java/com/example/flappybirdklon/GameView.java:139 | the `(int)` cast truncates toward zero: the result lies within one unit of the float, on the side of zero |
| `Geometry.TruncOfInt` | app/src/main/java/com/example/flappybirdklon/GameView.java:159-162 | casting an integer-valued float gives that integer back, so the integer pipe coordinates pass through the casts unchanged (used by `Pipes.PipeRectsAreCasts`) |
| `Geometry.Intersects` | app/src/main/java/com/example/flappybirdklon/GameView.java:165 | `Rect.intersects`: the two rectangles overlap strictly on both axes, so rectangles that only share an edge do not intersect |
| `Geometry.IntersectsSymmetric` | app/src/main/java/com/example/flappybirdklon/GameView.java:165 | the intersection test does not depend on the order of the two rectangles |
| `Geometry.EdgeContactVertical` | app/src/main/java/com/example/flappybirdklon/GameView.java:165 | rectangles that only share a horizontal edge (the upper one's bottom is the lower one's top) do not intersect; extending the upper one down by a single pixel makes them intersect exactly when their horizontal extents overlap and the upper one starts above the lower one's bottom |
| `Geometry.EdgeContact` | app/src/main/java/com/example/flappybirdklon/GameView.java:165 | rectangles that only share a vertical edge (the left one's right edge is the right one's left edge) do not intersect; widening the left one by a single pixel makes them intersect exactly when their vertical extents overlap and the left one starts left of the right one's right edge |
| `Pipes.NewPipe` | app/src/main/java/com/example/flappybirdklon/GameView.java:38-43 | a new pipe sits at the given x and is unscored; it fails exactly when h <= 400; otherwise its gap centre lies in [200, h - 200) and its opening [gapY - 175, gapY + 175] lies in [25, h - 25) |
| `Pipes.BirdRect` | app/src/main/java/com/example/flappybirdklon/GameView.java:139 | the bird box: 100 x 100 at x = 100, with its top at the truncated bird position |
| `Pipes.TopPipeRect` | app/src/main/java/com/example/flappybirdklon/GameView.java:147-160 | the upper pipe box: 250 wide from the pipe x, 2400 tall, ending at the top of the gap, gapY - 175 |
| `Pipes.BottomPipeRect` | app/src/main/java/com/example/flappybirdklon/GameView.java:148-162 | the lower pipe box: 250 wide from the pipe x, 2400 tall, starting at the bottom of the gap, gapY + 175 |
| `Pipes.PipeRectsAreCasts` | app/src/main/java/com/example/flappybirdklon/GameView.java:159-162 | the two pipe boxes are exactly the rectangles built from the `(int)` casts of the float coordinates, since those hold integers |
| `Pipes.Collides` | app/src/main/java/com/example/flappybirdklon/GameView.java:165 | the collision test: the bird box intersects the upper or the lower pipe box |
| `Pipes.CollidesIff` | app/src/main/java/com/example/flappybirdklon/GameView.java:159-168 | with the 100 x 100 bird box at (100, top) and the two 250 x 2400 pipe boxes, the bird collides exactly when the columns overlap and the bird reaches strictly into the upper or the lower pipe body; touching at an edge is no collision |
| `Pipes.ScoresNow` | app/src/main/java/com/example/flappybirdklon/GameView.java:171 | a pipe scores when visited: it is unscored and, once moved 5 left, its right edge (x + 250) is left of x = 100 |
| `Pipes.Advance` | app/src/main/java/com/example/flappybirdklon/GameView.java:144-174 | one visit moves a pipe 5 left and keeps its gap; afterwards it is scored exactly when it was scored already or its right edge is now left of x = 100; a scored pipe stays scored |
| `Pipes.AdvanceAll` | app/src/main/java/com/example/flappybirdklon/GameView.java:142-174 | visiting every pipe keeps the count and visits each pipe in place |
| `Pipes.SpacedDistance` | app/src/main/java/com/example/flappybirdklon/GameView.java:177-178 | in a list with constant spacing 595, a later pipe is at least 595 right of an earlier one, and neighbours are exactly 595 apart |
| `Pipes.SpacedNeighbours` | app/src/main/java/com/example/flappybirdklon/GameView.java:177-178 | in a list with constant spacing every pipe is exactly 595 right of the one before |
| `Pipes.SpacedIncreasing` | app/src/main/java/com/example/flappybirdklon/GameView.java:177-178 | a list with constant spacing is strictly increasing in x, oldest first |
| `Pipes.ChainXs` | app/src/main/java/com/example/flappybirdklon/GameView.java:176-179 | the pipes chained in one frame behind a pipe moved to `moved`: none iff `moved` is not left of the middle; pipe k sits at moved + 600 + 595k; every chained pipe but the last was left of the middle once moved, and the last is not; there are ceil((half - moved) / 595) of them, so the chain ends |
| `Pipes.ChainOfUnique` | app/src/main/java/com/example/flappybirdklon/GameView.java:176-179 | the chain is characterised by its elements: a list is a valid spawn chain (spacing, left of the middle up to the last, the last not) exactly when it equals `ChainXs` |
| `Simulation.InitialInv` | app/src/main/java/com/example/flappybirdklon/GameView.java:53-62 | the state after init satisfies the invariant: not started, no pipes, score 0 |
| `Simulation.Tap` | app/src/main/java/com/example/flappybirdklon/GameView.java:220-236 | a press: not started, only the started flag is set; game over, full reset to bird at h / 2, velocity 0, no pipes, score 0, running; otherwise the velocity becomes -12 |
| `Simulation.TapKeepsInv` | app/src/main/java/com/example/flappybirdklon/GameView.java:220-236 | a press keeps the invariant, always leaves the game started, and a restart leaves no pipes, score 0 and not over |
| `Simulation.Recentre` | app/src/main/java/com/example/flappybirdklon/GameView.java:103-106 | a bird exactly at 0 is moved to h / 2 when the height is positive; nothing else changes |
| `Simulation.SpawnXs` | app/src/main/java/com/example/flappybirdklon/GameView.java:126-179 | the pipes a started frame creates: with no pipe, some exactly when the width is known, the first at width + 500; otherwise none iff the last pipe, once moved, is not left of the middle, and the first 595 right of that last one; all of them 595 apart; the last created one, once moved, is not left of the middle |
| `Simulation.SpawnXsExact` | app/src/main/java/com/example/flappybirdklon/GameView.java:126-179 | with no pipe a frame creates exactly one when the width is known and none otherwise; every created pipe but the last was, once moved, left of the middle, so the chain stops at the first one that is not |
| `Simulation.Throws` | app/src/main/java/com/example/flappybirdklon/GameView.java:126-178 | a frame throws exactly when it must build a pipe and the bound h - 400 of `nextInt` (line 41) is not positive |
| `Simulation.Pending` | app/src/main/java/com/example/flappybirdklon/GameView.java:126-178 | the list the loop walks: the old pipes unchanged, followed by the created pipes at their creation x, with the drawn gaps, unscored |
| `Simulation.NewlyScored` | app/src/main/java/com/example/flappybirdklon/GameView.java:171-174 | the number of pipes that score is at most the number of pipes, and 0 when none of them scores |
| `Simulation.Sweep` | app/src/main/java/com/example/flappybirdklon/GameView.java:139-174 | the pipe loop over a list: every pipe moved and scored in place, game over set when the bird box (taken before the physics step) hits a moved pipe, the score raised by the pipes that score |
| `Simulation.Reap` | app/src/main/java/com/example/flappybirdklon/GameView.java:183-184 | the oldest pipe is removed when its x is left of -250; otherwise the list is unchanged |
| `Simulation.Glide` | app/src/main/java/com/example/flappybirdklon/GameView.java:189-190 | one frame of free flight: the velocity grows by 0.8, then the position grows by the new velocity |
| `Simulation.Fall` | app/src/main/java/com/example/flappybirdklon/GameView.java:188-197 | the physics runs only while started and not over, and the game ends when the new position is < 0 or > h |
| `Simulation.TickSpec` | app/src/main/java/com/example/flappybirdklon/GameView.java:96-216 | a frame that completes: re-centring, then, once started, the sweep over the old and created pipes, the reaping of the oldest, and the physics |
| `Simulation.CrashSpec` | app/src/main/java/com/example/flappybirdklon/GameView.java:126-178 | the state a frame leaves when building a pipe throws: re-centred, and, when there were pipes, all old pipes swept |
| `Simulation.PendingSpaced` | app/src/main/java/com/example/flappybirdklon/GameView.java:126-178 | the pipes a frame visits (old ones, then the first pipe or the chain) keep the constant spacing; there are some iff there were pipes or the width is known; the last one, once moved, is not left of the middle |
| `Simulation.PendingSettled` | app/src/main/java/com/example/flappybirdklon/GameView.java:41-178 | every pipe a frame visits has its gap centre at least 200 from the top, and is scored exactly when its right edge is left of the bird |
| `Simulation.SpawnedAppend` | app/src/main/java/com/example/flappybirdklon/GameView.java:127-178 | building two runs of pipes one after the other gives the two lists joined |
| `Simulation.ScoredBeforeIsPrefix` | app/src/main/java/com/example/flappybirdklon/GameView.java:171-172 | the score the loop has counted after visiting n pipes is the frame's count over the first n pipes |
| `Simulation.ScoredBeforeExtend` | app/src/main/java/com/example/flappybirdklon/GameView.java:171-178 | appending a pipe does not change the count over the pipes before it |
| `Simulation.HitBeforeIff` | app/src/main/java/com/example/flappybirdklon/GameView.java:165-166 | the loop's collision flag after n pipes is set iff one of the first n pipes, once moved, overlaps the bird |
| `Simulation.HitBeforeAll` | app/src/main/java/com/example/flappybirdklon/GameView.java:165-166 | over the whole list, the loop's flag is the frame's collision test over all moved pipes |
| `Simulation.HitBeforeExtend` | app/src/main/java/com/example/flappybirdklon/GameView.java:165-178 | appending a pipe does not change the flag over the pipes before it |
| `Simulation.ReapFacts` | app/src/main/java/com/example/flappybirdklon/GameView.java:183-184 | removing the oldest off-screen pipe keeps the spacing, the gap bounds and the scored flags, and never removes the newest pipe when it is right of the middle |
| `Simulation.ReapedIsHarmless` | app/src/main/java/com/example/flappybirdklon/GameView.java:183-184 | a pipe left of -250 cannot collide, so removing it does not change whether the bird hits a pipe |
| `Simulation.ScoresAtMostOnce` | app/src/main/java/com/example/flappybirdklon/GameView.java:171-174 | among spaced pipes with settled flags at most one scores in a frame: the frame's count is 1 if some pipe scores and 0 otherwise |
| `Simulation.TickShape` | app/src/main/java/com/example/flappybirdklon/GameView.java:142-185 | after a started frame the pipes are the visited ones, moved, minus at most the oldest; the score grows by the pipes that scored; the game stays started |
| `Simulation.TickBeforeStart` | app/src/main/java/com/example/flappybirdklon/GameView.java:103-123 | before the start, a frame builds no pipe, never throws, and changes nothing but the centring of a bird at 0 |
| `Simulation.TickKeepsInv` | app/src/main/java/com/example/flappybirdklon/GameView.java:96-216 | a completed frame keeps the invariant: score >= 0, constant spacing, gap centres >= 200, settled scored flags, newest pipe at x >= 0, and the not-started state untouched |
| `Simulation.TickPipeFront` | app/src/main/java/com/example/flappybirdklon/GameView.java:126-185 | after a started frame with positive width: there is a pipe; the newest is at x >= width / 2; neighbours are exactly 595 apart; x strictly increases, oldest first |
| `Simulation.KeptFront` | app/src/main/java/com/example/flappybirdklon/GameView.java:183-184 | after moving and reaping, the newest pipe is still there and right of the middle, neighbours stay exactly 595 apart, and x strictly increases, oldest first |
| `Simulation.ScrollShape` | app/src/main/java/com/example/flappybirdklon/GameView.java:142-185 | each pipe present at the start of the frame moves exactly 5 left and keeps its gap; the created pipes follow with the drawn gaps; at most one pipe leaves, the oldest, and only once it is left of -250 |
| `Simulation.TickScrollsPipes` | app/src/main/java/com/example/flappybirdklon/GameView.java:142-185 | the same for a whole started frame, game over or not |
| `Simulation.ScoreShape` | app/src/main/java/com/example/flappybirdklon/GameView.java:171-174 | among spaced, settled pipes, one scores in a frame exactly when, after the frame, some pipe's right edge has just crossed x = 100 |
| `Simulation.TickScore` | app/src/main/java/com/example/flappybirdklon/GameView.java:171-174 | a frame raises the score by 0 or 1, never lowers it, and raises it exactly when some pipe's right edge crossed the bird's left edge in this frame |
| `Simulation.GameOverSticky` | app/src/main/java/com/example/flappybirdklon/GameView.java:165-197 | no frame, completed or thrown, clears game over |
| `Simulation.TickGameOver` | app/src/main/java/com/example/flappybirdklon/GameView.java:139-197 | a started frame ends the game exactly when it had ended, the bird box before the physics step overlaps a pipe left after the frame, or the bird ends up at y < 0 or y > h (it leaves the closed interval [0, h]); the bird moves by gravity (v + 0.8, then y + v) only if neither of the first two holds |
| `Simulation.FrozenWhenOver` | app/src/main/java/com/example/flappybirdklon/GameView.java:188-197 | once the game is over the bird's velocity and position stay, apart from the re-centring of a bird at 0 |
| `Simulation.FlightClosedForm` | app/src/main/java/com/example/flappybirdklon/GameView.java:189-190 | after n frames of free flight the velocity has grown by 0.8n and the bird has moved n v + 0.8 n (n + 1) / 2 |
| `Simulation.JumpLastsFifteenFrames` | app/src/main/java/com/example/flappybirdklon/GameView.java:189-233 | a jump's velocity of -12 is cancelled by exactly 15 frames of gravity |
| `PipeLoop.VisitedStart` | app/src/main/java/com/example/flappybirdklon/GameView.java:142 | the loop state before the first iteration holds |
| `PipeLoop.VisitStep` | app/src/main/java/com/example/flappybirdklon/GameView.java:142-177 | visiting a pipe without spawning moves the loop state to the next index, adding that pipe's score and collision |
| `PipeLoop.ChainedSpawn` | app/src/main/java/com/example/flappybirdklon/GameView.java:177-178 | a pipe built 600 right of the moved last pipe, once that pipe is left of the middle, extends the spawn chain |
| `PipeLoop.MovedSpawn` | app/src/main/java/com/example/flappybirdklon/GameView.java:171-178 | appending the new pipe after visiting the last one keeps the visited prefix, the running score and the flag |
| `PipeLoop.VisitSpawn` | app/src/main/java/com/example/flappybirdklon/GameView.java:142-178 | visiting the last pipe and appending the new one moves the loop state to the next index, with the new pipe still to visit |
| `PipeLoop.VisitedThrow` | app/src/main/java/com/example/flappybirdklon/GameView.java:177-178 | when building the pipe throws, no pipe was created before in this frame, all old pipes were visited, and score and flag cover exactly them |
| `PipeLoop.VisitedDone` | app/src/main/java/com/example/flappybirdklon/GameView.java:142-180 | when the loop ends, the created pipes are exactly a valid spawn chain, every pipe is moved and scored, and score and flag cover all of them |
| `PipeLoop.ChainCompletesSpawn` | app/src/main/java/com/example/flappybirdklon/GameView.java:126-179 | the first pipe (if built) followed by the loop's chain is exactly the frame's list of created pipes |
| `PipeLoop.PendingAfterSeed` | app/src/main/java/com/example/flappybirdklon/GameView.java:126-179 | the pipes a frame visits are the pipes the loop starts with, followed by those it creates |
| `PipeLoop.SweptThrown` | app/src/main/java/com/example/flappybirdklon/GameView.java:41-178 | a loop that threw means the frame throws, and only the old pipes were swept |
| `PipeLoop.SweptDone` | app/src/main/java/com/example/flappybirdklon/GameView.java:126-180 | a loop that completed means the frame does not throw; the draws are as many as the frame's created pipes and fit the screen; pipes, score and flag are the frame's sweep |
| `PipeLoop.DoneCounts` | app/src/main/java/com/example/flappybirdklon/GameView.java:126-179 | a loop that ran to its end made exactly one draw per pipe the frame creates, all in range, so the frame does not throw |
| `PipeLoop.SweptFrame` | app/src/main/java/com/example/flappybirdklon/GameView.java:126-180 | the loop throws exactly when the frame throws; what it leaves is the sweep of the old pipes if it threw, and of all pending pipes otherwise |
| `PipeLoop.SweptValues` | app/src/main/java/com/example/flappybirdklon/GameView.java:142-180 | on the loop's returned values: it throws exactly when the last old pipe moved left of the middle and h <= 400; then only the old pipes were moved and scored; in every case the old pipes come first in the result, each moved once |
| `PipeLoop.VisitPipe` | app/src/main/java/com/example/flappybirdklon/GameView.java:143-174 | the loop body for one pipe: its result is the moved and scored pipe; the hit flag is the collision test of the moved pipe against the bird box; it scores exactly when the pipe was unscored and its moved right edge is left of x = 100 |
| `PipeLoop.VisitNext` | app/src/main/java/com/example/flappybirdklon/GameView.java:143-179 | one iteration either keeps the loop state at the next index, or throws with the whole loop accounted for; when it creates a pipe, that pipe is 595 right of the last one, which had moved left of the middle |
| `PipeLoop.SweepPipes` | app/src/main/java/com/example/flappybirdklon/GameView.java:142-180 | the loop, which re-reads the length and so also visits the pipes it adds, terminates. It throws exactly when a pipe must be built and h <= 400. Otherwise it creates exactly the spawn chain with gaps in range. Every visited pipe is moved and scored, and score and flag account for all of them |
| `View.GameView.constructor` | app/src/main/java/com/example/flappybirdklon/GameView.java:53-62 | init: bird at 0 with velocity 0, not started, not over, score 0, no pipes; the invariant holds |
| `View.GameView.OnTouchEvent` | app/src/main/java/com/example/flappybirdklon/GameView.java:220-237 | only a press does anything, and in exactly one of three ways. Not started: only `gameStarted` becomes true. Game over: full reset (bird at h / 2, velocity 0, no pipes, score 0, running). Otherwise: velocity becomes -12 and nothing else changes. Every event is handled, and a press never leads back to not started |
| `View.GameView.OnDraw` | app/src/main/java/com/example/flappybirdklon/GameView.java:96-216 | a frame throws exactly when `Throws` says, and then leaves `CrashSpec`. Otherwise it draws as many gaps as it creates pipes, all in [200, h - 200), leaves exactly `TickSpec` of the old state and those draws, and keeps the invariant |
| `View.GameView.SeedFirstPipe` | app/src/main/java/com/example/flappybirdklon/GameView.java:126-129 | with no pipe and a known width, one pipe is built at width + 500 (throwing iff h <= 400); otherwise nothing changes |
| `View.GameView.MovePipes` | app/src/main/java/com/example/flappybirdklon/GameView.java:139-180 | the fields after the pipe loop are the frame's sweep: of the old pipes if it throws, of all pending pipes otherwise |
| `View.GameView.ReapOldest` | app/src/main/java/com/example/flappybirdklon/GameView.java:183-185 | only the oldest pipe can leave, once it is left of -250 |
| `View.GameView.Fly` | app/src/main/java/com/example/flappybirdklon/GameView.java:188-197 | while started and not over, velocity += 0.8, then y += velocity, and the game ends iff y < 0 or y > h; otherwise nothing changes |

## Left out

- Drawing: the background, sprites, texts and `invalidate()`. They do not
  affect the simulation state.
- Logging with `Log`: it has no effect on the state.
- Bitmap decoding, scaling and the coloured fallback bitmaps (lines 64-91).
  They are Android calls outside the model. Both paths give a 100 x 100 bird
  and 250 x 2400 pipes, and only those sizes are modelled, as constants.
- Android's `Rect` class is not part of this model. Its `intersects` is
  written out as strict overlap of integer rectangles.
- The statistical distribution of `java.util.Random`. A gap is some value in
  range, chosen nondeterministically.
- Floating point: `birdY` and `birdVelocity` are reals. IEEE-754 rounding of
  the accumulated `0.8f` is not captured, and neither are NaN or the
  saturation of `(int)` casts outside the int range.
- Pipe coordinates are floats in the source but always hold integers, so
  they are integers here.
- 32-bit overflow of `score`. Integers are unbounded here; `score` rises by
  at most one per pipe passed, so overflow would need 2^31 pipes passed
  (about 2^31 x 119 frames). The pipe coordinates are floats in the source
  and stay within a few thousand pixels of the screen, so they neither
  overflow nor saturate in the `(int)` casts.
- What Android does after `onDraw` throws (the app stops). The model reports
  the exception and the fields at that point.
- MotionEvent actions other than ACTION_DOWN: they fall through and are
  reported as handled, as in the source.
- Pipes are values, not shared objects. The list is the only holder of a
  pipe, so no aliasing is lost.
- `PipeLoop.SweepPipes` runs the loop on local copies of the pipe list,
  `score` and `isGameOver`. `View.GameView.MovePipes` writes them back to the
  fields after the loop. Nothing reads those fields during the loop, so the
  final state is the same, also when the loop throws.
- View.GameView.OnDraw: after a frame that throws, the contract gives the
  exact state (`CrashSpec`) but does not promise that the invariant still
  holds. In that state the newest pipe may already have moved left of x = 0.
