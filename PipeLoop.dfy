// The pipe loop of the per-frame callback, stated over plain values: the
// state after each visit, what the whole loop achieves, and one lemma per
// kind of step.

module PipeLoop {
  import opened Geometry
  import opened Pipes
  import opened Simulation

  /** The pipes the loop visits in a frame, before it moves them: raw is
      p0 followed by those created so far, at xs with gaps `gaps`. The new
      pipes form the start of the spawn chain behind the last of p0: each
      one but the last was created because the pipe before it had moved
      left of `half`. */
  ghost predicate Chained(p0: seq<Pipe>, half: int, h: int, xs: seq<int>, gaps: seq<int>, raw: seq<Pipe>)
  {
    && |xs| == |gaps| && raw == p0 + Spawned(xs, gaps)
    && GapsFit(gaps, h) && (h <= 400 ==> gaps == [])
    && (p0 == [] ==> xs == [])
    && (p0 != [] && xs != [] ==> Last(p0).x - ScrollStep < half)
    && (p0 != [] ==> forall k :: 0 <= k < |xs| ==> xs[k] == Last(p0).x - ScrollStep + SpawnOffset + k * Spacing)
    && (forall k :: 0 <= k < |xs| - 1 ==> xs[k] - ScrollStep < half)
    && (raw != [] ==> Last(raw).x == if xs == [] then Last(p0).x else xs[|xs| - 1])
  }

  /** The first i of raw have been visited: in ps they are moved and
      scored, the rest are untouched; score and flag count the first i. */
  ghost predicate Moved(top: int, score0: int, over0: bool, raw: seq<Pipe>, i: nat,
                        ps: seq<Pipe>, score: int, over: bool)
  {
    && i <= |raw| == |ps|
    && (forall k :: 0 <= k < i ==> ps[k] == Advance(raw[k]))
    && (forall k :: i <= k < |ps| ==> ps[k] == raw[k])
    && score == score0 + ScoredBefore(raw, i)
    && over == (over0 || HitBefore(top, raw, i))
  }

  /** The state of the pipe loop of a frame after visiting i pipes, starting
      from the pipes p0, score score0 and flag over0; once all are visited,
      the last one is not left of `half`. */
  ghost predicate Visited(p0: seq<Pipe>, half: int, h: int, top: int, score0: int, over0: bool,
                          xs: seq<int>, gaps: seq<int>, raw: seq<Pipe>, i: nat,
                          ps: seq<Pipe>, score: int, over: bool)
  {
    && Chained(p0, half, h, xs, gaps, raw)
    && Moved(top, score0, over0, raw, i, ps, score, over)
    && (i == |raw| && raw != [] ==> half <= Last(raw).x - ScrollStep)
  }

  /** What the pipe loop achieves, from pipes p0, score score0 and flag
      over0: it throws exactly when a pipe must be built behind the last one
      and h <= 400; otherwise the pipes it creates are the spawn chain with
      gaps that fit the screen. The pipes visited, old and new, are moved
      and scored, and score and flag account for all of them. */
  ghost predicate Swept(p0: seq<Pipe>, half: int, h: int, top: int, score0: int, over0: bool,
                        thrown: bool, xs: seq<int>, gaps: seq<int>,
                        ps: seq<Pipe>, score: int, over: bool)
  {
    && thrown == (p0 != [] && Last(p0).x - ScrollStep < half && h <= 400)
    && (thrown ==> xs == [] && gaps == [])
    && (p0 == [] ==> xs == [])
    && (!thrown && p0 != [] ==> ChainOf(xs, Last(p0).x - ScrollStep, half))
    && |xs| == |gaps| && GapsFit(gaps, h)
    && var raw := p0 + Spawned(xs, gaps);
       && ps == AdvanceAll(raw)
       && score == score0 + NewlyScored(raw)
       && over == (over0 || HitsAny(top, AdvanceAll(raw)))
  }

  /** What Swept says of the loop's returned values alone: when it throws,
      and that the pipes it started with come first, each moved once. */
  lemma SweptValues(p0: seq<Pipe>, half: int, h: int, top: int, score0: int, over0: bool,
                    thrown: bool, xs: seq<int>, gaps: seq<int>,
                    ps: seq<Pipe>, score: int, over: bool)
    requires Swept(p0, half, h, top, score0, over0, thrown, xs, gaps, ps, score, over)
    ensures thrown <==> p0 != [] && Last(p0).x - ScrollStep < half && h <= 400
    ensures thrown ==> ps == AdvanceAll(p0) && score == score0 + NewlyScored(p0)
    ensures |p0| <= |ps| && forall k :: 0 <= k < |p0| ==> ps[k] == Advance(p0[k])
  {
    var raw := p0 + Spawned(xs, gaps);
    assert forall k :: 0 <= k < |p0| ==> raw[k] == p0[k];
    if thrown {
      assert raw == p0;
    }
  }

  /** Before the first visit nothing is created, moved or counted. */
  lemma VisitedStart(p0: seq<Pipe>, half: int, h: int, top: int, score0: int, over0: bool)
    ensures Visited(p0, half, h, top, score0, over0, [], [], p0, 0, p0, score0, over0)
  {
    assert p0 + Spawned([], []) == p0;
  }

  /** Visiting pipe i without creating a pipe behind it. */
  lemma VisitStep(p0: seq<Pipe>, half: int, h: int, top: int, score0: int, over0: bool,
                  xs: seq<int>, gaps: seq<int>, raw: seq<Pipe>, i: nat,
                  ps: seq<Pipe>, score: int, over: bool)
    requires Visited(p0, half, h, top, score0, over0, xs, gaps, raw, i, ps, score, over)
    requires i < |ps| && !(Advance(ps[i]).x < half && i == |ps| - 1)
    ensures Visited(p0, half, h, top, score0, over0, xs, gaps, raw, i + 1,
                    ps[i := Advance(ps[i])],
                    score + (if ScoresNow(ps[i]) then 1 else 0),
                    over || Collides(top, Advance(ps[i])))
  {
  }

  /** Creating `next` behind the last pipe once it has moved left of `half`
      extends the chain. */
  lemma ChainedSpawn(p0: seq<Pipe>, half: int, h: int, xs: seq<int>, gaps: seq<int>, raw: seq<Pipe>, next: Pipe)
    requires Chained(p0, half, h, xs, gaps, raw)
    requires raw != [] && Last(raw).x - ScrollStep < half
    requires next.x == Last(raw).x - ScrollStep + SpawnOffset && !next.scored && 200 <= next.gapY < h - 200
    ensures Chained(p0, half, h, xs + [next.x], gaps + [next.gapY], raw + [next])
  {
    assert Spawned(xs + [next.x], gaps + [next.gapY]) == Spawned(xs, gaps) + [next];
    var n := |xs|;
    if n > 0 {
      assert next.x - SpawnOffset + ScrollStep == xs[n - 1];
    }
  }

  /** Visiting the last pipe and appending `next`, not yet visited. */
  lemma MovedSpawn(top: int, score0: int, over0: bool, raw: seq<Pipe>, i: nat,
                   ps: seq<Pipe>, score: int, over: bool, next: Pipe)
    requires Moved(top, score0, over0, raw, i, ps, score, over)
    requires i == |ps| - 1
    ensures Moved(top, score0, over0, raw + [next], i + 1,
                  ps[i := Advance(ps[i])] + [next],
                  score + (if ScoresNow(ps[i]) then 1 else 0),
                  over || Collides(top, Advance(ps[i])))
  {
    ScoredBeforeExtend(raw, [next], i + 1);
    HitBeforeExtend(top, raw, [next], i + 1);
  }

  /** Visiting pipe i, the last one, and creating `next` behind it. */
  lemma VisitSpawn(p0: seq<Pipe>, half: int, h: int, top: int, score0: int, over0: bool,
                   xs: seq<int>, gaps: seq<int>, raw: seq<Pipe>, i: nat,
                   ps: seq<Pipe>, score: int, over: bool, next: Pipe)
    requires Visited(p0, half, h, top, score0, over0, xs, gaps, raw, i, ps, score, over)
    requires i == |ps| - 1 && Advance(ps[i]).x < half
    requires next.x == Advance(ps[i]).x + SpawnOffset && !next.scored && 200 <= next.gapY < h - 200
    ensures Visited(p0, half, h, top, score0, over0, xs + [next.x], gaps + [next.gapY], raw + [next], i + 1,
                    ps[i := Advance(ps[i])] + [next],
                    score + (if ScoresNow(ps[i]) then 1 else 0),
                    over || Collides(top, Advance(ps[i])))
  {
    assert ps[i] == Last(raw);
    ChainedSpawn(p0, half, h, xs, gaps, raw, next);
    MovedSpawn(top, score0, over0, raw, i, ps, score, over, next);
  }

  /** The loop throws at pipe i, the last one, when it would create a pipe
      on a screen at most 400 pixels high. */
  lemma VisitedThrow(p0: seq<Pipe>, half: int, h: int, top: int, score0: int, over0: bool,
                     xs: seq<int>, gaps: seq<int>, raw: seq<Pipe>, i: nat,
                     ps: seq<Pipe>, score: int, over: bool)
    requires Visited(p0, half, h, top, score0, over0, xs, gaps, raw, i, ps, score, over)
    requires i == |ps| - 1 && Advance(ps[i]).x < half && h <= 400
    ensures Swept(p0, half, h, top, score0, over0, true, [], [],
                  ps[i := Advance(ps[i])],
                  score + (if ScoresNow(ps[i]) then 1 else 0),
                  over || Collides(top, Advance(ps[i])))
  {
    assert raw == p0 && xs == [];
    var ps' := ps[i := Advance(ps[i])];
    assert ps' == AdvanceAll(raw);
    ScoredBeforeIsPrefix(raw, |raw|);
    HitBeforeAll(top, raw);
    assert raw[..|raw|] == raw;
    assert p0 + Spawned([], []) == raw;
  }

  /** Once every pipe has been visited, the loop has done what Swept says. */
  lemma VisitedDone(p0: seq<Pipe>, half: int, h: int, top: int, score0: int, over0: bool,
                    xs: seq<int>, gaps: seq<int>, raw: seq<Pipe>,
                    ps: seq<Pipe>, score: int, over: bool)
    requires Visited(p0, half, h, top, score0, over0, xs, gaps, raw, |raw|, ps, score, over)
    ensures Swept(p0, half, h, top, score0, over0, false, xs, gaps, ps, score, over)
  {
    ScoredBeforeIsPrefix(raw, |raw|);
    HitBeforeAll(top, raw);
    assert raw[..|raw|] == raw;
    if p0 != [] && Last(p0).x - ScrollStep < half {
      // the last old pipe was left of the threshold, so one was created
      assert xs != [];
    }
  }

  /** The chain the loop creates behind the pipes it starts with, after the
      first pipe (if any) was built at seedXs, completes the frame's spawn
      list. */
  lemma ChainCompletesSpawn(ps: seq<Pipe>, w: nat, seedXs: seq<int>, seedGaps: seq<int>, xs: seq<int>)
    requires |seedXs| == |seedGaps|
    requires seedXs == if ps == [] && w > 0 then [w + FirstPipeOffset] else []
    requires var p0 := ps + Spawned(seedXs, seedGaps);
      (p0 == [] ==> xs == []) && (p0 != [] ==> ChainOf(xs, Last(p0).x - ScrollStep, w / 2))
    ensures SpawnXs(ps, w) == seedXs + xs
  {
    if ps == [] && w > 0 {
      var p0 := ps + Spawned(seedXs, seedGaps);
      assert Last(p0).x == w + FirstPipeOffset;
      ChainOfUnique(xs, w + FirstPipeOffset - ScrollStep, w / 2);
    } else if ps != [] {
      assert ps + Spawned(seedXs, seedGaps) == ps;
      ChainOfUnique(xs, Last(ps).x - ScrollStep, w / 2);
    }
  }

  /** The pipe loop of a started frame, run after the first pipe (if any)
      was built at seedXs with gap seedGaps, does what Sweep says of the
      frame's pending pipes, and throws exactly when the frame's pipes
      cannot be built; when it throws, it has swept only the old pipes. */
  lemma SweptFrame(s1: GameState, w: nat, h: nat, seedXs: seq<int>, seedGaps: seq<int>,
                   p0: seq<Pipe>, top: int, score0: int, over0: bool,
                   thrown: bool, xs: seq<int>, gaps: seq<int>, ps: seq<Pipe>, score: int, over: bool)
    requires s1.gameStarted
    requires |seedXs| == |seedGaps| && GapsFit(seedGaps, h)
    requires seedXs == if s1.pipes == [] && w > 0 then [w + FirstPipeOffset] else []
    requires p0 == s1.pipes + Spawned(seedXs, seedGaps)
    requires top == Trunc(s1.birdY) && score0 == s1.score && over0 == s1.isGameOver
    requires Swept(p0, w / 2, h, top, score0, over0, thrown, xs, gaps, ps, score, over)
    ensures thrown == Throws(s1, w, h)
    ensures thrown ==> s1.pipes != [] && s1.(pipes := ps, score := score, isGameOver := over) == Sweep(s1, s1.pipes)
    ensures !thrown ==> |seedGaps + gaps| == Draws(s1, w) && GapsFit(seedGaps + gaps, h)
    ensures !thrown ==>
      s1.(pipes := ps, score := score, isGameOver := over) == Sweep(s1, Pending(s1.pipes, w, seedGaps + gaps))
  {
    if seedXs != [] {
      // the first pipe was built, so the screen is over 400 pixels high
      assert 200 <= seedGaps[0] < h - 200;
    }
    if thrown {
      SweptThrown(s1, w, h, seedXs, seedGaps, xs, gaps, ps, score, over);
    } else {
      SweptDone(s1, w, h, seedXs, seedGaps, xs, gaps, ps, score, over);
    }
  }

  /** A loop that threw did so at the last old pipe: the frame throws and
      only the old pipes were swept. */
  lemma SweptThrown(s1: GameState, w: nat, h: nat, seedXs: seq<int>, seedGaps: seq<int>,
                    xs: seq<int>, gaps: seq<int>, ps: seq<Pipe>, score: int, over: bool)
    requires s1.gameStarted
    requires |seedXs| == |seedGaps| && (seedXs != [] ==> h > 400)
    requires seedXs == if s1.pipes == [] && w > 0 then [w + FirstPipeOffset] else []
    requires Swept(s1.pipes + Spawned(seedXs, seedGaps), w / 2, h, Trunc(s1.birdY), s1.score, s1.isGameOver,
                   true, xs, gaps, ps, score, over)
    ensures Throws(s1, w, h)
    ensures s1.pipes != [] && s1.(pipes := ps, score := score, isGameOver := over) == Sweep(s1, s1.pipes)
  {
    assert s1.pipes + Spawned(seedXs, seedGaps) == s1.pipes;
  }

  /** A loop that ran to its end created the frame's spawn chain: the frame
      does not throw and the loop did what Sweep says of the pending pipes. */
  lemma SweptDone(s1: GameState, w: nat, h: nat, seedXs: seq<int>, seedGaps: seq<int>,
                  xs: seq<int>, gaps: seq<int>, ps: seq<Pipe>, score: int, over: bool)
    requires s1.gameStarted
    requires |seedXs| == |seedGaps| && GapsFit(seedGaps, h) && (seedXs != [] ==> h > 400)
    requires seedXs == if s1.pipes == [] && w > 0 then [w + FirstPipeOffset] else []
    requires Swept(s1.pipes + Spawned(seedXs, seedGaps), w / 2, h, Trunc(s1.birdY), s1.score, s1.isGameOver,
                   false, xs, gaps, ps, score, over)
    ensures !Throws(s1, w, h)
    ensures |seedGaps + gaps| == Draws(s1, w) && GapsFit(seedGaps + gaps, h)
    ensures s1.(pipes := ps, score := score, isGameOver := over) == Sweep(s1, Pending(s1.pipes, w, seedGaps + gaps))
  {
    var p0 := s1.pipes + Spawned(seedXs, seedGaps);
    var raw := p0 + Spawned(xs, gaps);
    DoneCounts(s1, w, h, seedXs, seedGaps, xs, gaps);
    PendingAfterSeed(s1.pipes, w, seedXs, seedGaps, xs, gaps);
    SweepOfRaw(s1, Pending(s1.pipes, w, seedGaps + gaps), raw, ps, score, over);
  }

  /** A completed loop made as many draws as the frame creates pipes, all
      fitting the screen, so the frame does not throw. */
  lemma DoneCounts(s1: GameState, w: nat, h: nat, seedXs: seq<int>, seedGaps: seq<int>,
                   xs: seq<int>, gaps: seq<int>)
    requires s1.gameStarted
    requires |seedXs| == |seedGaps| && GapsFit(seedGaps, h) && (seedXs != [] ==> h > 400)
    requires seedXs == if s1.pipes == [] && w > 0 then [w + FirstPipeOffset] else []
    requires |xs| == |gaps| && GapsFit(gaps, h)
    requires var p0 := s1.pipes + Spawned(seedXs, seedGaps);
      && !(p0 != [] && Last(p0).x - ScrollStep < w / 2 && h <= 400)
      && (p0 == [] ==> xs == []) && (p0 != [] ==> ChainOf(xs, Last(p0).x - ScrollStep, w / 2))
    ensures !Throws(s1, w, h)
    ensures |seedGaps + gaps| == Draws(s1, w) && GapsFit(seedGaps + gaps, h)
  {
    ChainCompletesSpawn(s1.pipes, w, seedXs, seedGaps, xs);
    GapsFitAppend(seedGaps, gaps, h);
  }

  /** The gaps of two runs of draws fit the screen together. */
  lemma GapsFitAppend(gaps: seq<int>, gaps': seq<int>, h: int)
    requires GapsFit(gaps, h) && GapsFit(gaps', h)
    ensures GapsFit(gaps + gaps', h)
  {
  }

  /** Fields that hold the moved pipes, the counted score and the collision
      flag of a list of pipes are the sweep of that list. */
  lemma SweepOfRaw(s1: GameState, pending: seq<Pipe>, raw: seq<Pipe>, ps: seq<Pipe>, score: int, over: bool)
    requires pending == raw
    requires ps == AdvanceAll(raw) && score == s1.score + NewlyScored(raw)
    requires over == (s1.isGameOver || HitsAny(Trunc(s1.birdY), AdvanceAll(raw)))
    ensures s1.(pipes := ps, score := score, isGameOver := over) == Sweep(s1, pending)
  {
  }

  /** The pipes a frame visits are those the loop started with, followed
      by those it created. */
  lemma PendingAfterSeed(ps: seq<Pipe>, w: nat, seedXs: seq<int>, seedGaps: seq<int>, xs: seq<int>, gaps: seq<int>)
    requires |seedXs| == |seedGaps| && |xs| == |gaps|
    requires seedXs == if ps == [] && w > 0 then [w + FirstPipeOffset] else []
    requires var p0 := ps + Spawned(seedXs, seedGaps);
      (p0 == [] ==> xs == []) && (p0 != [] ==> ChainOf(xs, Last(p0).x - ScrollStep, w / 2))
    ensures SpawnXs(ps, w) == seedXs + xs
    ensures Pending(ps, w, seedGaps + gaps) == ps + Spawned(seedXs, seedGaps) + Spawned(xs, gaps)
  {
    ChainCompletesSpawn(ps, w, seedXs, seedGaps, xs);
    SpawnedAppend(seedXs, seedGaps, xs, gaps);
    var a, b := Spawned(seedXs, seedGaps), Spawned(xs, gaps);
    assert Pending(ps, w, seedGaps + gaps) == ps + (a + b);
    assert ps + (a + b) == ps + a + b;
  }

  /** The body of the pipe loop for one pipe: move it left, test the bird box
      against both of its boxes, and score it once its right edge has passed
      the bird. */
  method VisitPipe(pipe: Pipe, birdRect: Rect) returns (moved: Pipe, hit: bool, scores: bool)
    requires birdRect == BirdRect(birdRect.top)
    ensures moved == Advance(pipe)
    ensures hit == Collides(birdRect.top, moved)
    ensures scores == ScoresNow(pipe)
  {
    moved := pipe.(x := pipe.x - ScrollStep);
    var topPipeRect := TopPipeRect(moved);
    var bottomPipeRect := BottomPipeRect(moved);
    hit := Intersects(birdRect, topPipeRect) || Intersects(birdRect, bottomPipeRect);
    scores := false;
    if !moved.scored && moved.x + PipeWidth < BirdX {
      scores := true;
      moved := moved.(scored := true);
    }
  }

  /** One pass of the loop body, at pipe i: visit it and, when it is the
      last one and has moved left of `half`, build a pipe behind it, which
      throws when h <= 400. Either the loop state moves on to i + 1, or the
      frame has thrown with every possible effect of the loop accounted for. */
  method VisitNext(ghost p0: seq<Pipe>, birdRect: Rect, half: int, h: int, ghost score0: int, ghost over0: bool,
                   ghost xs: seq<int>, ghost gaps: seq<int>, ghost raw: seq<Pipe>, i: nat,
                   ps: seq<Pipe>, score: int, over: bool)
    returns (thrown: bool, ps': seq<Pipe>, score': int, over': bool,
             ghost xs': seq<int>, ghost gaps': seq<int>, ghost raw': seq<Pipe>)
    requires birdRect == BirdRect(birdRect.top)
    requires Visited(p0, half, h, birdRect.top, score0, over0, xs, gaps, raw, i, ps, score, over)
    requires i < |ps|
    ensures thrown ==> Swept(p0, half, h, birdRect.top, score0, over0, true, [], [], ps', score', over')
    ensures !thrown ==> Visited(p0, half, h, birdRect.top, score0, over0, xs', gaps', raw', i + 1, ps', score', over')
    // either no pipe was created, or one was, Spacing right of the last
    // one, which had moved left of `half`
    ensures !thrown && raw' != raw ==>
      raw' == raw + [Last(raw')] && Last(raw).x - ScrollStep < half && Last(raw').x == Last(raw).x + Spacing
  {
    ghost var top := birdRect.top;
    var pipe, hit, scores := VisitPipe(ps[i], birdRect);
    ps', score', over' := ps[i := pipe], score, over;
    xs', gaps', raw' := xs, gaps, raw;
    if hit {
      over' := true;
    }
    if scores {
      score' := score' + 1;
    }
    thrown := false;
    if pipe.x < half && i == |ps'| - 1 {
      var next := NewPipe(pipe.x + SpawnOffset, h);
      if next.None? {
        thrown := true;
        VisitedThrow(p0, half, h, top, score0, over0, xs, gaps, raw, i, ps, score, over);
        return;
      }
      VisitSpawn(p0, half, h, top, score0, over0, xs, gaps, raw, i, ps, score, over, next.value);
      ps' := ps' + [next.value];
      xs', gaps', raw' := xs + [next.value.x], gaps + [next.value.gapY], raw + [next.value];
    } else {
      VisitStep(p0, half, h, top, score0, over0, xs, gaps, raw, i, ps, score, over);
    }
  }

  /** The loop over the pipes (re-reading the length, so pipes added in it
      are visited too): move each left, test it against the bird box, score
      it, and append a new pipe behind the last one while that one is left
      of `half`. When a pipe must be built and h <= 400 it throws, with only
      the old pipes moved. `xs` are the x coordinates of the new pipes and
      `gaps` their drawn gap centres. */
  method SweepPipes(p0: seq<Pipe>, birdRect: Rect, half: int, h: int, score0: int, over0: bool)
    returns (thrown: bool, ps: seq<Pipe>, score: int, over: bool, ghost xs: seq<int>, ghost gaps: seq<int>)
    requires birdRect == BirdRect(birdRect.top)
    ensures Swept(p0, half, h, birdRect.top, score0, over0, thrown, xs, gaps, ps, score, over)
    // the same, stated on the returned values alone
    ensures thrown <==> p0 != [] && Last(p0).x - ScrollStep < half && h <= 400
    ensures thrown ==> ps == AdvanceAll(p0) && score == score0 + NewlyScored(p0)
    ensures |p0| <= |ps| && forall k :: 0 <= k < |p0| ==> ps[k] == Advance(p0[k])
  {
    ps, score, over := p0, score0, over0;
    ghost var raw := p0;
    thrown, xs, gaps := false, [], [];
    var i := 0;
    VisitedStart(p0, half, h, birdRect.top, score0, over0);
    while i < |ps|
      invariant Visited(p0, half, h, birdRect.top, score0, over0, xs, gaps, raw, i, ps, score, over)
      decreases if raw == [] then 0 else half + SpawnOffset - Last(raw).x, |raw| - i
    {
      ghost var raw1 := raw;
      thrown, ps, score, over, xs, gaps, raw :=
        VisitNext(p0, birdRect, half, h, score0, over0, xs, gaps, raw, i, ps, score, over);
      if thrown {
        xs, gaps := [], [];
        SweptValues(p0, half, h, birdRect.top, score0, over0, thrown, xs, gaps, ps, score, over);
        return;
      }
      i := i + 1;
    }
    VisitedDone(p0, half, h, birdRect.top, score0, over0, xs, gaps, raw, ps, score, over);
    SweptValues(p0, half, h, birdRect.top, score0, over0, thrown, xs, gaps, ps, score, over);
  }
}
