// The game view: its fields, the tap handler and the simulation part of the
// per-frame draw callback, updated in place as the source does.

module View {
  import opened Geometry
  import opened Pipes
  import opened Simulation
  import opened PipeLoop

  /** The MotionEvent actions; only ActionDown does anything. */
  datatype MotionAction = ActionDown | ActionUp | ActionMove | ActionCancel

  class GameView {
    var birdY: real
    var birdVelocity: real
    var isGameOver: bool
    var gameStarted: bool
    var score: int
    var pipes: seq<Pipe>

    function State(): GameState
      reads this
    {
      GameState(birdY, birdVelocity, isGameOver, gameStarted, score, pipes)
    }

    ghost predicate Valid()
      reads this
    {
      Inv(State())
    }

    /** init(): a bird at 0 (placed on the first frame), no pipes, not started. */
    constructor ()
      ensures Valid() && State() == Initial()
    {
      birdY := 0.0;
      birdVelocity := 0.0;
      isGameOver := false;
      gameStarted := false;
      pipes := [];
      score := 0;
    }

    /** onTouchEvent: a press starts the game, restarts it after game over,
        or makes the bird jump. Every event is reported as handled. */
    method OnTouchEvent(action: MotionAction, h: nat) returns (handled: bool)
      requires Valid()
      modifies this
      ensures Valid() && handled
      ensures action != ActionDown ==> State() == old(State())
      ensures action == ActionDown ==> State() == Tap(old(State()), h)
      ensures action == ActionDown && !old(gameStarted) ==>
        State() == old(State()).(gameStarted := true)
      ensures action == ActionDown && old(gameStarted) && old(isGameOver) ==>
        State() == GameState(h as real / 2.0, 0.0, false, true, 0, [])
      ensures action == ActionDown && old(gameStarted) && !old(isGameOver) ==>
        State() == old(State()).(birdVelocity := JumpVelocity)
      // whatever the state, a press never leads back to "not started"
      ensures action == ActionDown ==> gameStarted
    {
      if action == ActionDown {
        if !gameStarted {
          gameStarted := true;
        } else if isGameOver {
          birdY := h as real / 2.0;
          birdVelocity := 0.0;
          pipes := [];
          score := 0;
          isGameOver := false;
          gameStarted := true;
        } else {
          birdVelocity := JumpVelocity;
        }
      }
      handled := true;
      if action == ActionDown {
        TapKeepsInv(old(State()), h);
      }
    }

    /** The simulation part of onDraw, for a screen of w x h pixels. `thrown`
        reports the exception nextInt raises when a pipe must be built on a
        screen no more than 400 pixels high; the frame then stops where the
        exception was raised. `gaps` are the gap centres drawn in the frame. */
    method OnDraw(w: nat, h: nat) returns (thrown: bool, ghost gaps: seq<int>)
      requires Valid()
      modifies this
      ensures thrown == Throws(old(State()), w, h)
      ensures thrown ==> gaps == [] && State() == CrashSpec(old(State()), w, h)
      ensures !thrown ==> |gaps| == Draws(old(State()), w) && GapsFit(gaps, h)
      ensures !thrown ==> State() == TickSpec(old(State()), w, h, gaps) && Valid()
    {
      ghost var s0 := State();
      thrown, gaps := false, [];
      if birdY == 0.0 && h > 0 {
        birdY := h as real / 2.0;
      }
      if !gameStarted {
        return;
      }
      ghost var s1 := State();
      assert s1 == Recentre(s0, h);
      ghost var seedXs;
      thrown, seedXs, gaps := SeedFirstPipe(w, h);
      if thrown {
        return;
      }
      ghost var loopGaps;
      thrown, loopGaps := MovePipes(s1, w, h, seedXs, gaps);
      if thrown {
        gaps := [];
        return;
      }
      gaps := gaps + loopGaps;
      ghost var swept := State();
      TickSteps(s0, w, h, gaps, swept);
      ReapOldest();
      Fly(h);
      TickKeepsInv(s0, w, h, gaps);
    }

    /** With no pipe yet and the width known, the first pipe is built right
        of the screen. Building it throws when h <= 400. */
    method SeedFirstPipe(w: nat, h: nat) returns (thrown: bool, ghost seedXs: seq<int>, ghost seedGaps: seq<int>)
      modifies this
      ensures thrown == (old(pipes) == [] && w > 0 && h <= 400)
      ensures seedXs == if old(pipes) == [] && w > 0 && !thrown then [w + FirstPipeOffset] else []
      ensures |seedXs| == |seedGaps| && GapsFit(seedGaps, h)
      ensures State() == old(State()).(pipes := old(pipes) + Spawned(seedXs, seedGaps))
    {
      thrown, seedXs, seedGaps := false, [], [];
      if pipes == [] && w > 0 {
        var first := NewPipe(w + FirstPipeOffset, h);
        if first.None? {
          thrown := true;
          return;
        }
        pipes := pipes + [first.value];
        seedXs, seedGaps := [w + FirstPipeOffset], [first.value.gapY];
      }
      assert pipes == old(pipes) + Spawned(seedXs, seedGaps);
    }

    /** The pipe loop of a started frame, from the state s1 the frame had
        before the first pipe (if any) was built at seedXs with gap seedGaps:
        the pipes, score and game-over flag become what Sweep says, over the
        frame's pending pipes, or over the old ones when building a pipe
        throws. `loopGaps` are the gaps drawn in the loop. */
    method MovePipes(ghost s1: GameState, w: nat, h: nat, ghost seedXs: seq<int>, ghost seedGaps: seq<int>)
      returns (thrown: bool, ghost loopGaps: seq<int>)
      requires s1.gameStarted
      requires |seedXs| == |seedGaps| && GapsFit(seedGaps, h)
      requires seedXs == if s1.pipes == [] && w > 0 then [w + FirstPipeOffset] else []
      requires State() == s1.(pipes := s1.pipes + Spawned(seedXs, seedGaps))
      modifies this
      ensures thrown == Throws(s1, w, h)
      ensures thrown ==> s1.pipes != [] && State() == Sweep(s1, s1.pipes)
      ensures !thrown ==> |seedGaps + loopGaps| == Draws(s1, w) && GapsFit(seedGaps + loopGaps, h)
      ensures !thrown ==> State() == Sweep(s1, Pending(s1.pipes, w, seedGaps + loopGaps))
    {
      var birdRect := BirdRect(Trunc(birdY));
      var p0, score0, over0 := pipes, score, isGameOver;
      var ps, sc, over;
      ghost var loopXs;
      thrown, ps, sc, over, loopXs, loopGaps := SweepPipes(p0, birdRect, w / 2, h, score0, over0);
      SweptFrame(s1, w, h, seedXs, seedGaps, p0, birdRect.top, score0, over0, thrown, loopXs, loopGaps, ps, sc, over);
      pipes, score, isGameOver := ps, sc, over;
    }

    /** The oldest pipe is removed once it is fully off the left edge. */
    method ReapOldest()
      modifies this
      ensures State() == old(State()).(pipes := Reap(old(pipes)))
    {
      if pipes != [] && pipes[0].x < -PipeWidth {
        pipes := pipes[1..];
      }
    }

    /** The physics of a frame: while the game runs, gravity changes the
        velocity and the velocity the position; leaving the screen ends the
        game. */
    method Fly(h: nat)
      modifies this
      ensures State() == Fall(old(State()), h)
    {
      if !isGameOver && gameStarted {
        birdVelocity := birdVelocity + Gravity;
        birdY := birdY + birdVelocity;
        if birdY < 0.0 || birdY > h as real {
          isGameOver := true;
        }
      }
    }
  }
}
