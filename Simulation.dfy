// The game state and one frame of the simulation as pure functions, with the
// properties a frame keeps. View.GameView runs the same frame step by step.

module Simulation {
  import opened Geometry
  import opened Pipes

  /** Added to the bird's velocity every frame. 0.8f in the source. */
  const Gravity: real := 0.8
  /** The velocity a tap gives the bird: it replaces the current one. */
  const JumpVelocity: real := -12.0
  /** The first pipe is placed this far right of the screen width. */
  const FirstPipeOffset: int := 500

  /** The fields of the view that the simulation reads and writes. */
  datatype GameState = GameState(
    birdY: real,
    birdVelocity: real,
    isGameOver: bool,
    gameStarted: bool,
    score: int,
    pipes: seq<Pipe>)

  /** The state init() leaves behind. */
  function Initial(): GameState
  {
    GameState(0.0, 0.0, false, false, 0, [])
  }

  function Last(ps: seq<Pipe>): Pipe
    requires ps != []
  {
    ps[|ps| - 1]
  }

  /** A pipe's scored flag is set exactly when its right edge is left of the bird. */
  predicate Settled(p: Pipe)
  {
    p.scored <==> p.x + PipeWidth < BirdX
  }

  /** What every reachable state satisfies between frames and taps. */
  ghost predicate Inv(s: GameState)
  {
    && 0 <= s.score
    && Spaced(s.pipes)
    && (forall k :: 0 <= k < |s.pipes| ==> 200 <= s.pipes[k].gapY)
    && (forall k :: 0 <= k < |s.pipes| ==> Settled(s.pipes[k]))
    && (s.pipes != [] ==> 0 <= Last(s.pipes).x)
    && (!s.gameStarted ==> s.pipes == [] && !s.isGameOver && s.score == 0 && s.birdVelocity == 0.0)
  }

  lemma InitialInv()
    ensures Inv(Initial()) && !Initial().gameStarted && Initial().pipes == []
  {
  }

  // ---------------------------------------------------------------------
  // A tap

  /** A press: the first one starts the game; after game over one restarts
      it with the bird centred, at rest, no pipes and score 0; otherwise the
      bird jumps, its velocity replaced by JumpVelocity. */
  function Tap(s: GameState, h: nat): GameState
  {
    if !s.gameStarted then s.(gameStarted := true)
    else if s.isGameOver then GameState(h as real / 2.0, 0.0, false, true, 0, [])
    else s.(birdVelocity := JumpVelocity)
  }

  /** A press keeps the invariant and always leaves the game started: the
      cycle goes not started, running, over, running, never back. */
  lemma TapKeepsInv(s: GameState, h: nat)
    requires Inv(s)
    ensures Inv(Tap(s, h)) && Tap(s, h).gameStarted
    ensures s.gameStarted && s.isGameOver ==>
      Tap(s, h).pipes == [] && Tap(s, h).score == 0 && !Tap(s, h).isGameOver
  {
  }

  // ---------------------------------------------------------------------
  // The stages of a frame

  /** The first frame with a known height puts the bird in the middle. The
      test is birdY == 0, so it also fires whenever the bird is exactly at 0. */
  function Recentre(s: GameState, h: nat): GameState
  {
    if s.birdY == 0.0 && h > 0 then s.(birdY := h as real / 2.0) else s
  }

  /** The creation x of every pipe a started frame creates, in order: the
      first pipe when there is none and the width is known, then the chain
      spawned behind the last pipe. */
  function SpawnXs(ps: seq<Pipe>, w: nat): (xs: seq<int>)
    ensures ps == [] ==> (xs != [] <==> w > 0) && (xs != [] ==> xs[0] == w + FirstPipeOffset)
    ensures ps != [] ==> (xs == [] <==> w / 2 <= Last(ps).x - ScrollStep)
    ensures ps != [] && xs != [] ==> xs[0] == Last(ps).x + Spacing
    ensures forall k :: 0 <= k < |xs| ==> xs[k] == xs[0] + k * Spacing
    ensures xs != [] ==> w / 2 <= xs[|xs| - 1] - ScrollStep
  {
    if ps == [] then
      if w > 0 then [w + FirstPipeOffset] + ChainXs(w + FirstPipeOffset - ScrollStep, w / 2) else []
    else
      ChainXs(Last(ps).x - ScrollStep, w / 2)
  }

  /** What SpawnXs leaves open: with no pipe, exactly one is created when the
      width is known; and the created pipes stop at the first one that, once
      moved, is not left of the middle, since every one before it was. */
  lemma SpawnXsExact(ps: seq<Pipe>, w: nat)
    ensures ps == [] ==> |SpawnXs(ps, w)| == (if w > 0 then 1 else 0)
    ensures var xs := SpawnXs(ps, w);
      forall k :: 0 <= k < |xs| - 1 ==> xs[k] - ScrollStep < w / 2
  {
  }

  /** Number of random draws (pipe constructions) in a frame. */
  function Draws(s: GameState, w: nat): nat
  {
    if s.gameStarted then |SpawnXs(s.pipes, w)| else 0
  }

  /** The frame throws: a pipe must be built and nextInt(h - 400) has no
      positive bound. */
  predicate Throws(s: GameState, w: nat, h: nat)
  {
    Draws(s, w) > 0 && h <= 400
  }

  /** Every drawn gap centre lies in [200, h - 200). */
  predicate GapsFit(gaps: seq<int>, h: int)
  {
    forall k :: 0 <= k < |gaps| ==> 200 <= gaps[k] < h - 200
  }

  function Spawned(xs: seq<int>, gaps: seq<int>): (ps: seq<Pipe>)
    requires |xs| == |gaps|
    ensures |ps| == |xs|
    ensures forall k :: 0 <= k < |xs| ==> ps[k] == Pipe(xs[k], gaps[k], false)
  {
    seq(|xs|, k requires 0 <= k < |xs| => Pipe(xs[k], gaps[k], false))
  }

  /** Spawning two runs of pipes one after the other. */
  lemma SpawnedAppend(xs: seq<int>, gaps: seq<int>, xs': seq<int>, gaps': seq<int>)
    requires |xs| == |gaps| && |xs'| == |gaps'|
    ensures Spawned(xs + xs', gaps + gaps') == Spawned(xs, gaps) + Spawned(xs', gaps')
  {
  }

  /** The pipes the loop visits, before it moves them: those already there
      followed by those created during the frame, with the drawn gaps. */
  function Pending(ps: seq<Pipe>, w: nat, gaps: seq<int>): (raw: seq<Pipe>)
    requires |gaps| == |SpawnXs(ps, w)|
    ensures |raw| == |ps| + |gaps|
    ensures forall k :: 0 <= k < |ps| ==> raw[k] == ps[k]
    ensures forall k :: |ps| <= k < |raw| ==> raw[k] == Pipe(SpawnXs(ps, w)[k - |ps|], gaps[k - |ps|], false)
  {
    ps + Spawned(SpawnXs(ps, w), gaps)
  }

  /** Count of pipes that score as the loop passes over them. */
  function NewlyScored(ps: seq<Pipe>): (n: nat)
    ensures n <= |ps|
    ensures (forall k :: 0 <= k < |ps| ==> !ScoresNow(ps[k])) ==> n == 0
  {
    if ps == [] then 0
    else NewlyScored(ps[..|ps| - 1]) + (if ScoresNow(ps[|ps| - 1]) then 1 else 0)
  }

  predicate HitsAny(top: int, ps: seq<Pipe>)
  {
    exists k :: 0 <= k < |ps| && Collides(top, ps[k])
  }

  /** The loop over the pipes: move and score each, and test it against the
      bird box computed from the bird's position before this frame's physics. */
  function Sweep(s: GameState, raw: seq<Pipe>): GameState
  {
    var moved := AdvanceAll(raw);
    s.(pipes := moved,
       isGameOver := s.isGameOver || HitsAny(Trunc(s.birdY), moved),
       score := s.score + NewlyScored(raw))
  }

  /** At most the oldest pipe leaves, once it is fully off the left edge. */
  function Reap(ps: seq<Pipe>): seq<Pipe>
  {
    if ps != [] && ps[0].x < -PipeWidth then ps[1..] else ps
  }

  /** One frame of free flight: gravity first, then the new velocity. */
  function Glide(y: real, v: real): (real, real)
  {
    var v' := v + Gravity;
    (y + v', v')
  }

  predicate OutOfScreen(y: real, h: nat)
  {
    y < 0.0 || y > h as real
  }

  /** The bird moves only while the game runs; leaving the screen ends it. */
  function Fall(s: GameState, h: nat): GameState
  {
    if !s.isGameOver && s.gameStarted then
      var g := Glide(s.birdY, s.birdVelocity);
      s.(birdY := g.0, birdVelocity := g.1, isGameOver := OutOfScreen(g.0, h))
    else s
  }

  /** A frame that completes, with `gaps` the gap centres drawn for the pipes
      it creates. */
  function TickSpec(s: GameState, w: nat, h: nat, gaps: seq<int>): GameState
    requires |gaps| == Draws(s, w)
  {
    var s1 := Recentre(s, h);
    if !s1.gameStarted then s1
    else
      var swept := Sweep(s1, Pending(s1.pipes, w, gaps));
      Fall(swept.(pipes := Reap(swept.pipes)), h)
  }

  /** A started frame in three steps: the sweep over the pending pipes,
      the reaping of the oldest, then the physics. */
  lemma TickSteps(s: GameState, w: nat, h: nat, gaps: seq<int>, swept: GameState)
    requires |gaps| == Draws(s, w) && s.gameStarted
    requires swept == Sweep(Recentre(s, h), Pending(s.pipes, w, gaps))
    ensures TickSpec(s, w, h, gaps) == Fall(swept.(pipes := Reap(swept.pipes)), h)
  {
  }

  /** The state a frame leaves when it throws: either the first pipe could
      not be built, or the old pipes were all processed and the first spawn
      behind the last one could not be built. */
  function CrashSpec(s: GameState, w: nat, h: nat): GameState
  {
    var s1 := Recentre(s, h);
    if !s1.gameStarted || s1.pipes == [] then s1 else Sweep(s1, s1.pipes)
  }

  // ---------------------------------------------------------------------
  // Facts about the pipes a frame visits

  /** The pipes the loop visits are Spacing apart, and the last of them is,
      once moved, right of the spawn threshold. */
  lemma PendingSpaced(ps: seq<Pipe>, w: nat, gaps: seq<int>)
    requires |gaps| == |SpawnXs(ps, w)| && Spaced(ps)
    ensures Spaced(Pending(ps, w, gaps))
    ensures Pending(ps, w, gaps) != [] <==> ps != [] || w > 0
    ensures Pending(ps, w, gaps) != [] ==> w / 2 <= Last(Pending(ps, w, gaps)).x - ScrollStep
  {
    var xs := SpawnXs(ps, w);
    var raw := Pending(ps, w, gaps);
    assert |raw| == |ps| + |xs|;
    forall k | 0 < k < |raw|
      ensures raw[k].x == raw[k - 1].x + Spacing
    {
      if k > |ps| {
        assert raw[k].x == xs[k - |ps|] && raw[k - 1].x == xs[k - 1 - |ps|];
      } else if k == |ps| {
        assert raw[k].x == xs[0] && raw[k - 1] == Last(ps);
      }
    }
    if xs != [] {
      assert Last(raw).x == xs[|xs| - 1];
    }
  }

  /** The pipes the loop visits have their gap below 200 pixels from the top
      at least, and settled scoring flags: the created ones start unscored
      right of the bird. */
  lemma PendingSettled(ps: seq<Pipe>, w: nat, gaps: seq<int>)
    requires |gaps| == |SpawnXs(ps, w)|
    requires forall k :: 0 <= k < |ps| ==> 200 <= ps[k].gapY && Settled(ps[k])
    requires ps != [] ==> 0 <= Last(ps).x
    requires forall k :: 0 <= k < |gaps| ==> 200 <= gaps[k]
    ensures forall k :: 0 <= k < |Pending(ps, w, gaps)| ==>
      200 <= Pending(ps, w, gaps)[k].gapY && Settled(Pending(ps, w, gaps)[k])
  {
    var xs := SpawnXs(ps, w);
    var raw := Pending(ps, w, gaps);
    forall k | 0 <= k < |raw|
      ensures 200 <= raw[k].gapY && Settled(raw[k])
    {
      if k >= |ps| {
        assert raw[k] == Pipe(xs[k - |ps|], gaps[k - |ps|], false);
        assert xs[0] <= xs[k - |ps|];
      }
    }
  }

  lemma PendingFacts(ps: seq<Pipe>, w: nat, gaps: seq<int>)
    requires |gaps| == |SpawnXs(ps, w)|
    requires Spaced(ps) && (forall k :: 0 <= k < |ps| ==> 200 <= ps[k].gapY)
    requires forall k :: 0 <= k < |ps| ==> Settled(ps[k])
    requires ps != [] ==> 0 <= Last(ps).x
    requires forall k :: 0 <= k < |gaps| ==> 200 <= gaps[k]
    ensures var raw := Pending(ps, w, gaps);
      && Spaced(raw)
      && (forall k :: 0 <= k < |raw| ==> 200 <= raw[k].gapY)
      && (forall k :: 0 <= k < |raw| ==> Settled(raw[k]))
      && (raw != [] <==> ps != [] || w > 0)
      && (raw != [] ==> w / 2 <= Last(raw).x - ScrollStep)
  {
    PendingSpaced(ps, w, gaps);
    PendingSettled(ps, w, gaps);
  }

  lemma AdvanceFacts(raw: seq<Pipe>)
    requires Spaced(raw)
    requires forall k :: 0 <= k < |raw| ==> 200 <= raw[k].gapY && Settled(raw[k])
    ensures Spaced(AdvanceAll(raw))
    ensures forall k :: 0 <= k < |raw| ==> 200 <= AdvanceAll(raw)[k].gapY && Settled(AdvanceAll(raw)[k])
    ensures raw != [] ==> Last(AdvanceAll(raw)).x == Last(raw).x - ScrollStep
  {
  }

  /** The running score of the pipe loop: how many of the first n pipes of
      ps score when visited. */
  function ScoredBefore(ps: seq<Pipe>, n: nat): nat
    requires n <= |ps|
  {
    if n == 0 then 0 else ScoredBefore(ps, n - 1) + (if ScoresNow(ps[n - 1]) then 1 else 0)
  }

  /** The running score over a prefix is the frame's count for that prefix. */
  lemma {:induction false} ScoredBeforeIsPrefix(ps: seq<Pipe>, n: nat)
    requires n <= |ps|
    ensures ScoredBefore(ps, n) == NewlyScored(ps[..n])
  {
    if n > 0 {
      ScoredBeforeIsPrefix(ps, n - 1);
      assert ps[..n][..n - 1] == ps[..n - 1];
    }
  }

  /** Appending pipes does not change the running score of earlier ones. */
  lemma {:induction false} ScoredBeforeExtend(ps: seq<Pipe>, qs: seq<Pipe>, n: nat)
    requires n <= |ps|
    ensures ScoredBefore(ps + qs, n) == ScoredBefore(ps, n)
  {
    if n > 0 {
      ScoredBeforeExtend(ps, qs, n - 1);
    }
  }

  /** The running collision flag of the pipe loop: one of the first n pipes
      of ps, once moved, overlaps the bird whose box top is `top`. */
  function HitBefore(top: int, ps: seq<Pipe>, n: nat): bool
    requires n <= |ps|
  {
    n > 0 && (HitBefore(top, ps, n - 1) || Collides(top, Advance(ps[n - 1])))
  }

  lemma {:induction false} HitBeforeIff(top: int, ps: seq<Pipe>, n: nat)
    requires n <= |ps|
    ensures HitBefore(top, ps, n) <==> exists k :: 0 <= k < n && Collides(top, Advance(ps[k]))
  {
    if n > 0 {
      HitBeforeIff(top, ps, n - 1);
      if Collides(top, Advance(ps[n - 1])) {
        assert 0 <= n - 1 < n;
      } else if k :| 0 <= k < n && Collides(top, Advance(ps[k])) {
        assert k < n - 1;
      }
    }
  }

  /** Over the whole list, the running flag is the frame's collision test. */
  lemma HitBeforeAll(top: int, ps: seq<Pipe>)
    ensures HitBefore(top, ps, |ps|) <==> HitsAny(top, AdvanceAll(ps))
  {
    HitBeforeIff(top, ps, |ps|);
    var a := AdvanceAll(ps);
    if HitsAny(top, a) {
      var k :| 0 <= k < |a| && Collides(top, a[k]);
      assert Collides(top, Advance(ps[k]));
    }
  }

  /** Appending pipes does not change the running flag of earlier ones. */
  lemma {:induction false} HitBeforeExtend(top: int, ps: seq<Pipe>, qs: seq<Pipe>, n: nat)
    requires n <= |ps|
    ensures HitBefore(top, ps + qs, n) == HitBefore(top, ps, n)
  {
    if n > 0 {
      HitBeforeExtend(top, ps, qs, n - 1);
    }
  }

  /** Reaping keeps the spacing and the flags, and never removes the last
      pipe when that one is right of a non-negative threshold. */
  lemma ReapFacts(moved: seq<Pipe>, half: int)
    requires 0 <= half && Spaced(moved)
    requires forall k :: 0 <= k < |moved| ==> 200 <= moved[k].gapY && Settled(moved[k])
    requires moved != [] ==> half <= Last(moved).x
    ensures var kept := Reap(moved);
      && Spaced(kept)
      && (forall k :: 0 <= k < |kept| ==> 200 <= kept[k].gapY && Settled(kept[k]))
      && (moved != [] ==> kept != [] && Last(kept) == Last(moved))
  {
    if moved != [] && moved[0].x < -PipeWidth {
      var kept := moved[1..];
      assert |moved| > 1;
      forall k | 0 <= k < |kept|
        ensures kept[k].x == kept[0].x + k * Spacing
      {
        assert kept[k] == moved[k + 1] && kept[0] == moved[1];
      }
    }
  }

  /** The pipes after a started frame are the visited ones, moved, minus at
      most the oldest; its score grows by the count of those that scored. */
  lemma TickShape(s: GameState, w: nat, h: nat, gaps: seq<int>)
    requires |gaps| == Draws(s, w) && s.gameStarted
    ensures var t := TickSpec(s, w, h, gaps);
      var raw := Pending(s.pipes, w, gaps);
      && t.pipes == Reap(AdvanceAll(raw))
      && t.score == s.score + NewlyScored(raw)
      && t.gameStarted
  {
  }

  /** The oldest pipe is reaped only far left of the bird, so it never
      collides and never scores in the frame it leaves. */
  lemma ReapedIsHarmless(top: int, ps: seq<Pipe>)
    requires ps != [] && ps[0].x < -PipeWidth
    ensures !Collides(top, ps[0])
    ensures HitsAny(top, ps) <==> HitsAny(top, ps[1..])
  {
    if HitsAny(top, ps) {
      var k :| 0 <= k < |ps| && Collides(top, ps[k]);
      assert k > 0 && ps[1..][k - 1] == ps[k];
    }
    if HitsAny(top, ps[1..]) {
      var k :| 0 <= k < |ps[1..]| && Collides(top, ps[1..][k]);
      assert ps[k + 1] == ps[1..][k];
    }
  }

  predicate AnyScores(ps: seq<Pipe>)
  {
    exists k :: 0 <= k < |ps| && ScoresNow(ps[k])
  }

  /** In spaced, settled pipes at most one scores in a frame: an unscored
      pipe scores only while its x lies in a 5 pixel window, and neighbours
      are Spacing pixels apart. */
  lemma {:induction false} ScoresAtMostOnce(ps: seq<Pipe>)
    requires Spaced(ps) && forall k :: 0 <= k < |ps| ==> Settled(ps[k])
    ensures NewlyScored(ps) == if AnyScores(ps) then 1 else 0
  {
    if ps != [] {
      var n := |ps| - 1;
      var init := ps[..n];
      assert forall k :: 0 <= k < n ==> init[k] == ps[k];
      assert Spaced(init);
      ScoresAtMostOnce(init);
      if ScoresNow(ps[n]) {
        forall k | 0 <= k < n
          ensures !ScoresNow(init[k])
        {
          SpacedDistance(ps, k, n);
        }
        assert !AnyScores(init);
      } else if AnyScores(ps) {
        var k :| 0 <= k < |ps| && ScoresNow(ps[k]);
        assert k < n && ScoresNow(init[k]);
      }
    }
  }

  // ---------------------------------------------------------------------
  // Properties of one frame

  /** Before the game starts a frame builds no pipe and changes nothing but
      the one-time centring of the bird. */
  lemma TickBeforeStart(s: GameState, w: nat, h: nat, gaps: seq<int>)
    requires |gaps| == Draws(s, w) && !s.gameStarted
    ensures gaps == [] && !Throws(s, w, h)
    ensures var t := TickSpec(s, w, h, gaps);
      && t.pipes == s.pipes && t.score == s.score
      && t.isGameOver == s.isGameOver && t.gameStarted == s.gameStarted
      && t.birdVelocity == s.birdVelocity
      && t.birdY == (if s.birdY == 0.0 && h > 0 then h as real / 2.0 else s.birdY)
  {
  }

  /** A completed frame keeps the invariant: spacing, gap bounds, scoring
      flags, a last pipe at x >= 0, and the not-started state untouched. */
  lemma TickKeepsInv(s: GameState, w: nat, h: nat, gaps: seq<int>)
    requires Inv(s) && |gaps| == Draws(s, w) && GapsFit(gaps, h)
    ensures Inv(TickSpec(s, w, h, gaps))
  {
    if s.gameStarted {
      var raw := Pending(s.pipes, w, gaps);
      PendingFacts(s.pipes, w, gaps);
      AdvanceFacts(raw);
      ReapFacts(AdvanceAll(raw), w / 2);
      TickShape(s, w, h, gaps);
    }
  }

  /** The pipe list after a started frame with a known width: not empty,
      the newest at x >= half, neighbours exactly Spacing apart, and x
      strictly increasing, oldest first. */
  ghost predicate FrontOfFrame(ps: seq<Pipe>, half: int)
  {
    && ps != []
    && half <= Last(ps).x
    && Spaced(ps)
    && (forall k :: 0 <= k < |ps| - 1 ==> ps[k + 1].x == ps[k].x + Spacing)
    && (forall j, k :: 0 <= j < k < |ps| ==> ps[j].x < ps[k].x)
  }

  /** After a started frame with a known width there is at least one pipe,
      the pipes are Spacing apart oldest first, and the newest has not yet
      reached the middle of the screen (x >= width / 2). */
  lemma TickPipeFront(s: GameState, w: nat, h: nat, gaps: seq<int>)
    requires Inv(s) && |gaps| == Draws(s, w) && GapsFit(gaps, h)
    requires s.gameStarted && w > 0
    ensures FrontOfFrame(TickSpec(s, w, h, gaps).pipes, w / 2)
  {
    var raw := Pending(s.pipes, w, gaps);
    PendingFacts(s.pipes, w, gaps);
    TickShape(s, w, h, gaps);
    KeptFront(raw, w / 2);
  }

  /** The pipes left after moving and reaping spaced, settled pipes whose
      last one ends right of `half`: the last one stays, and they are in
      increasing x, Spacing apart. */
  lemma KeptFront(raw: seq<Pipe>, half: int)
    requires 0 <= half && Spaced(raw) && raw != []
    requires forall k :: 0 <= k < |raw| ==> 200 <= raw[k].gapY && Settled(raw[k])
    requires half <= Last(raw).x - ScrollStep
    ensures FrontOfFrame(Reap(AdvanceAll(raw)), half)
  {
    var moved := AdvanceAll(raw);
    AdvanceFacts(raw);
    ReapFacts(moved, half);
    SpacedIncreasing(Reap(moved));
    SpacedNeighbours(Reap(moved));
  }

  /** The pipes `ps` keep their order after a frame, moved ScrollStep left
      with their gaps, followed by the created ones with the drawn gaps;
      `drop` of them (0 or 1) leave from the front. */
  ghost predicate Scrolled(ps: seq<Pipe>, gaps: seq<int>, kept: seq<Pipe>, drop: nat)
  {
    && |kept| + drop == |ps| + |gaps|
    && (forall k :: drop <= k < |ps| ==>
          kept[k - drop].x == ps[k].x - ScrollStep && kept[k - drop].gapY == ps[k].gapY)
    && (forall j :: 0 <= j < |gaps| && drop <= |ps| + j ==> kept[|ps| + j - drop].gapY == gaps[j])
  }

  /** How the visited pipes end up after moving and reaping: at most the
      oldest leaves, and only once it is past -PipeWidth. */
  lemma ScrollShape(ps: seq<Pipe>, w: nat, gaps: seq<int>)
    requires |gaps| == |SpawnXs(ps, w)|
    ensures var kept := Reap(AdvanceAll(Pending(ps, w, gaps)));
      || Scrolled(ps, gaps, kept, 0)
      || (ps != [] && ps[0].x - ScrollStep < -PipeWidth && Scrolled(ps, gaps, kept, 1))
  {
    var raw := Pending(ps, w, gaps);
    var moved := AdvanceAll(raw);
    var kept := Reap(moved);
    if moved != [] && moved[0].x < -PipeWidth {
      assert |kept| == |raw| - 1;
      forall k | 1 <= k < |ps|
        ensures kept[k - 1].x == ps[k].x - ScrollStep && kept[k - 1].gapY == ps[k].gapY
      {
        assert kept[k - 1] == moved[k] && raw[k] == ps[k];
      }
      forall j | 0 <= j < |gaps|
        ensures kept[|ps| + j - 1].gapY == gaps[j]
      {
        assert kept[|ps| + j - 1] == moved[|ps| + j];
      }
      assert Scrolled(ps, gaps, kept, 1);
    } else {
      assert kept == moved;
      assert Scrolled(ps, gaps, kept, 0);
    }
  }

  /** Every pipe of the frame's start moves left by exactly ScrollStep and
      keeps its gap, running or not; the created pipes follow with the drawn
      gaps; at most one pipe leaves, the oldest, once it is past -PipeWidth. */
  lemma TickScrollsPipes(s: GameState, w: nat, h: nat, gaps: seq<int>)
    requires |gaps| == Draws(s, w) && s.gameStarted
    ensures var t := TickSpec(s, w, h, gaps);
      || Scrolled(s.pipes, gaps, t.pipes, 0)
      || (s.pipes != [] && s.pipes[0].x - ScrollStep < -PipeWidth && Scrolled(s.pipes, gaps, t.pipes, 1))
  {
    TickShape(s, w, h, gaps);
    ScrollShape(s.pipes, w, gaps);
  }

  /** Among spaced, settled pipes, one scores in this frame exactly when,
      after moving and reaping, some pipe's right edge has just crossed the
      bird's left edge. */
  lemma ScoreShape(raw: seq<Pipe>)
    requires Spaced(raw) && forall k :: 0 <= k < |raw| ==> Settled(raw[k])
    ensures var kept := Reap(AdvanceAll(raw));
      NewlyScored(raw) == if exists k :: 0 <= k < |kept| && JustPassed(kept[k]) then 1 else 0
  {
    ScoresAtMostOnce(raw);
    var moved := AdvanceAll(raw);
    var kept := Reap(moved);
    assert forall k :: 0 <= k < |raw| ==> (ScoresNow(raw[k]) <==> JustPassed(moved[k]));
    if moved != [] && moved[0].x < -PipeWidth {
      assert forall k :: 0 <= k < |kept| ==> kept[k] == moved[k + 1];
      if AnyScores(raw) {
        var k :| 0 <= k < |raw| && ScoresNow(raw[k]);
        assert k > 0 && kept[k - 1] == moved[k];
      }
    }
  }

  /** The score never falls in a frame; in a reachable state it rises by one
      exactly when some pipe's right edge crossed the bird's left edge in this
      frame, so each pipe is counted once. */
  lemma TickScore(s: GameState, w: nat, h: nat, gaps: seq<int>)
    requires Inv(s) && |gaps| == Draws(s, w) && GapsFit(gaps, h)
    ensures var t := TickSpec(s, w, h, gaps);
      && s.score <= t.score <= s.score + 1
      && (t.score == s.score + 1 <==> exists k :: 0 <= k < |t.pipes| && JustPassed(t.pipes[k]))
  {
    if s.gameStarted {
      var raw := Pending(s.pipes, w, gaps);
      PendingFacts(s.pipes, w, gaps);
      ScoreShape(raw);
      TickShape(s, w, h, gaps);
    }
  }

  /** Game over is sticky: no frame, completed or thrown, clears it. */
  lemma GameOverSticky(s: GameState, w: nat, h: nat, gaps: seq<int>)
    requires |gaps| == Draws(s, w) && s.isGameOver
    ensures TickSpec(s, w, h, gaps).isGameOver
    ensures CrashSpec(s, w, h).isGameOver
  {
  }

  /** In a started frame the game ends exactly when it had ended, the bird
      box (at the truncated position before this frame's physics) overlaps
      one of the pipes left after the frame, or the bird leaves the screen;
      the bird moves by gravity only if neither of the first two holds. */
  lemma TickGameOver(s: GameState, w: nat, h: nat, gaps: seq<int>)
    requires |gaps| == Draws(s, w) && s.gameStarted
    ensures var t := TickSpec(s, w, h, gaps);
      var y1 := Recentre(s, h).birdY;
      var hit := exists k :: 0 <= k < |t.pipes| && Collides(Trunc(y1), t.pipes[k]);
      var v' := s.birdVelocity + Gravity;
      && (t.isGameOver <==> s.isGameOver || hit || OutOfScreen(y1 + v', h))
      && (s.isGameOver || hit ==> t.birdY == y1 && t.birdVelocity == s.birdVelocity)
      && (!s.isGameOver && !hit ==> t.birdVelocity == v' && t.birdY == y1 + v')
  {
    var s1 := Recentre(s, h);
    var raw := Pending(s1.pipes, w, gaps);
    var moved := AdvanceAll(raw);
    var t := TickSpec(s, w, h, gaps);
    assert t.pipes == Reap(moved);
    if moved != [] && moved[0].x < -PipeWidth {
      ReapedIsHarmless(Trunc(s1.birdY), moved);
    }
  }

  /** Once the game is over the bird stays where it is, except for the
      re-centring of a bird at exactly 0. */
  lemma FrozenWhenOver(s: GameState, w: nat, h: nat, gaps: seq<int>)
    requires |gaps| == Draws(s, w) && s.isGameOver
    ensures var t := TickSpec(s, w, h, gaps);
      t.birdVelocity == s.birdVelocity && t.birdY == Recentre(s, h).birdY
  {
  }

  // ---------------------------------------------------------------------
  // The physics over several frames

  /** n frames of free flight. */
  function Flight(y: real, v: real, n: nat): (real, real)
    decreases n
  {
    if n == 0 then (y, v) else var g := Glide(y, v); Flight(g.0, g.1, n - 1)
  }

  /** After n frames of free flight the velocity has grown by n * Gravity and
      the bird has moved n * v + Gravity * n * (n + 1) / 2. */
  lemma {:induction false} FlightClosedForm(y: real, v: real, n: nat)
    decreases n
    ensures Flight(y, v, n).1 == v + n as real * Gravity
    ensures Flight(y, v, n).0 == y + n as real * v + Gravity * (n * (n + 1)) as real / 2.0
  {
    if n > 0 {
      FlightClosedForm(y + v + Gravity, v + Gravity, n - 1);
      var m := (n - 1) as real;
      assert (n * (n + 1)) as real == ((n - 1) * n) as real + 2.0 * n as real;
    }
  }

  /** A jump is undone by exactly 15 frames of gravity: from the jump
      velocity the bird is at rest again after 15 frames, and from rest it
      falls at the jump speed after 15 frames. */
  lemma JumpLastsFifteenFrames(y: real)
    ensures Flight(y, JumpVelocity, 15).1 == 0.0
    ensures Flight(y, 0.0, 15).1 == -JumpVelocity
  {
    FlightClosedForm(y, JumpVelocity, 15);
    FlightClosedForm(y, 0.0, 15);
  }
}
