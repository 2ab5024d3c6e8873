// The obstacle ("pipe") entity, its collision boxes and the spawn chain.

module Pipes {
  import opened Geometry

  // Sprite sizes after scaling (or of the fallback bitmaps): the same on both paths.
  const BirdWidth: int := 100
  const BirdHeight: int := 100
  const PipeWidth: int := 250
  const PipeHeight: int := 2400
  /** The bird is drawn at a fixed horizontal position. */
  const BirdX: int := 100
  /** Pixels a pipe moves left per frame. */
  const ScrollStep: int := 5
  /** A new pipe is created this far right of the pipe that triggers it. */
  const SpawnOffset: int := 600
  /** Pipe.GAP_HEIGHT; half of it is 175, exact in float. */
  const GapHeight: int := 350
  const GapHalf: int := GapHeight / 2
  /** Distance between neighbouring pipes once both have been moved in a frame. */
  const Spacing: int := SpawnOffset - ScrollStep

  datatype Option<T> = None | Some(value: T)

  /** A pipe: horizontal position, centre of the gap, whether it was scored.
      Both coordinates are floats in the source but only ever hold integers. */
  datatype Pipe = Pipe(x: int, gapY: int, scored: bool)

  /** new Pipe(x): the gap centre is 200 + random.nextInt(h - 400). nextInt
      throws when its bound is not positive; that is the None result. */
  method NewPipe(x: int, h: int) returns (r: Option<Pipe>)
    ensures r.None? <==> h <= 400
    ensures r.Some? ==> r.value.x == x && !r.value.scored
    ensures r.Some? ==> 200 <= r.value.gapY < h - 200
    // the opening [gapY - 175, gapY + 175] stays 25 pixels inside the screen
    ensures r.Some? ==> 25 <= r.value.gapY - GapHalf && r.value.gapY + GapHalf < h - 25
  {
    if h - 400 <= 0 {
      return None;
    }
    assert 0 <= 0 < h - 400;
    var draw :| 0 <= draw < h - 400;
    r := Some(Pipe(x, 200 + draw, false));
  }

  /** The bird's collision box: 100 x 100 at (100, top). */
  function BirdRect(top: int): Rect
  {
    Rect(BirdX, top, BirdX + BirdWidth, top + BirdHeight)
  }

  /** The upper pipe's box: PipeHeight tall, ending at the top of the gap. */
  function TopPipeRect(p: Pipe): Rect
  {
    Rect(p.x, p.gapY - GapHalf - PipeHeight, p.x + PipeWidth, p.gapY - GapHalf)
  }

  /** The lower pipe's box: PipeHeight tall, starting at the bottom of the gap. */
  function BottomPipeRect(p: Pipe): Rect
  {
    Rect(p.x, p.gapY + GapHalf, p.x + PipeWidth, p.gapY + GapHalf + PipeHeight)
  }

  /** The source builds the pipe boxes with (int) casts of float
      coordinates; the coordinates hold integers, so the casts change nothing
      and the boxes above are those the source builds. */
  lemma PipeRectsAreCasts(p: Pipe)
    ensures TopPipeRect(p) == Rect(Trunc(p.x as real), Trunc((p.gapY - GapHalf - PipeHeight) as real),
                                   Trunc(p.x as real) + PipeWidth, Trunc((p.gapY - GapHalf) as real))
    ensures BottomPipeRect(p) == Rect(Trunc(p.x as real), Trunc((p.gapY + GapHalf) as real),
                                      Trunc(p.x as real) + PipeWidth, Trunc((p.gapY + GapHalf + PipeHeight) as real))
  {
    TruncOfInt(p.x);
    TruncOfInt(p.gapY - GapHalf - PipeHeight);
    TruncOfInt(p.gapY - GapHalf);
    TruncOfInt(p.gapY + GapHalf);
    TruncOfInt(p.gapY + GapHalf + PipeHeight);
  }

  /** The bird whose box top is `top` hits pipe p. */
  predicate Collides(top: int, p: Pipe)
  {
    Intersects(BirdRect(top), TopPipeRect(p)) || Intersects(BirdRect(top), BottomPipeRect(p))
  }

  /** The collision test in terms of the coordinates: the columns overlap and
      the bird reaches strictly into one of the two pipe bodies. Boxes that
      only share an edge do not collide. */
  lemma CollidesIff(top: int, p: Pipe)
    ensures Collides(top, p) <==>
      BirdX - PipeWidth < p.x < BirdX + BirdWidth &&
      ((p.gapY - GapHalf - PipeHeight - BirdHeight < top < p.gapY - GapHalf) ||
       (p.gapY + GapHalf - BirdHeight < top < p.gapY + GapHalf + PipeHeight))
  {
  }

  /** A pipe scores in this frame: not yet scored and, after moving, its
      right edge is left of the bird's left edge. */
  predicate ScoresNow(p: Pipe)
  {
    !p.scored && p.x - ScrollStep + PipeWidth < BirdX
  }

  /** The pipe's right edge crossed the bird's left edge during the last
      ScrollStep of movement. */
  predicate JustPassed(p: Pipe)
  {
    p.x + PipeWidth < BirdX <= p.x + ScrollStep + PipeWidth
  }

  /** One pass of the loop body over a pipe: move it left and set its
      scored flag once its right edge has passed the bird. */
  function Advance(p: Pipe): (q: Pipe)
    ensures q.x == p.x - ScrollStep && q.gapY == p.gapY
    ensures q.scored <==> p.scored || q.x + PipeWidth < BirdX
    ensures p.scored ==> q.scored
  {
    var moved := p.(x := p.x - ScrollStep);
    if !moved.scored && moved.x + PipeWidth < BirdX then moved.(scored := true) else moved
  }

  function AdvanceAll(ps: seq<Pipe>): (qs: seq<Pipe>)
    ensures |qs| == |ps|
    ensures forall k :: 0 <= k < |ps| ==> qs[k] == Advance(ps[k])
  {
    seq(|ps|, k requires 0 <= k < |ps| => Advance(ps[k]))
  }

  /** Neighbouring pipes are exactly Spacing apart, oldest (left-most)
      first: pipe k is k * Spacing right of pipe 0. */
  ghost predicate Spaced(ps: seq<Pipe>)
  {
    forall k :: 0 <= k < |ps| ==> ps[k].x == ps[0].x + k * Spacing
  }

  /** Spacing makes the pipe list strictly increasing in x: any later pipe
      is at least Spacing pixels right of an earlier one. */
  lemma SpacedDistance(ps: seq<Pipe>, j: nat, k: nat)
    requires Spaced(ps) && j < k < |ps|
    ensures ps[j].x + Spacing <= ps[k].x
    ensures k == j + 1 ==> ps[k].x == ps[j].x + Spacing
  {
    assert ps[k].x - ps[j].x == (k - j) * Spacing;
  }

  /** In spaced pipes each neighbour is exactly Spacing right of the one before. */
  lemma SpacedNeighbours(ps: seq<Pipe>)
    requires Spaced(ps)
    ensures forall k :: 0 <= k < |ps| - 1 ==> ps[k + 1].x == ps[k].x + Spacing
  {
    forall k | 0 <= k < |ps| - 1
      ensures ps[k + 1].x == ps[k].x + Spacing
    {
      SpacedDistance(ps, k, k + 1);
    }
  }

  /** Spaced pipes are in strictly increasing x along the list. */
  lemma SpacedIncreasing(ps: seq<Pipe>)
    requires Spaced(ps)
    ensures forall j, k :: 0 <= j < k < |ps| ==> ps[j].x < ps[k].x
  {
    forall j, k | 0 <= j < k < |ps|
      ensures ps[j].x < ps[k].x
    {
      SpacedDistance(ps, j, k);
    }
  }

  /** The creation coordinates of the pipes spawned in one frame, given the
      moved x of the last pipe and the spawn threshold `half` (width / 2).
      Each spawned pipe is moved in the same frame and may spawn again. */
  function ChainXs(moved: int, half: int): (xs: seq<int>)
    decreases half - moved
    ensures xs == [] <==> half <= moved
    ensures xs != [] ==> xs[0] == moved + SpawnOffset
    ensures forall k :: 0 <= k < |xs| ==> xs[k] == moved + SpawnOffset + k * Spacing
    // every pipe but the last spawned one was still left of the threshold
    ensures forall k :: 0 <= k < |xs| - 1 ==> xs[k] - ScrollStep < half
    // and the last one, once moved, is not
    ensures xs != [] ==> half <= xs[|xs| - 1] - ScrollStep
    // the chain ends: it has ceil((half - moved) / Spacing) pipes
    ensures moved < half ==> |xs| == (half - moved + Spacing - 1) / Spacing
  {
    if moved < half then [moved + SpawnOffset] + ChainXs(moved + Spacing, half) else []
  }

  /** The chain described by its elements rather than by recursion: pipe k
      sits k * Spacing right of the first, every pipe but the last was left
      of the threshold once moved, and the last one is not. */
  ghost predicate ChainOf(xs: seq<int>, moved: int, half: int)
  {
    && (xs == [] <==> half <= moved)
    && (forall k :: 0 <= k < |xs| ==> xs[k] == moved + SpawnOffset + k * Spacing)
    && (forall k :: 0 <= k < |xs| - 1 ==> xs[k] - ScrollStep < half)
    && (xs != [] ==> half <= xs[|xs| - 1] - ScrollStep)
  }

  /** The two descriptions agree: ChainXs is the only chain. */
  lemma ChainOfUnique(xs: seq<int>, moved: int, half: int)
    ensures ChainOf(xs, moved, half) <==> xs == ChainXs(moved, half)
  {
    var ys := ChainXs(moved, half);
    if ChainOf(xs, moved, half) {
      // the shorter one ends where the longer one goes on
      if xs != [] && ys != [] {
        var n := if |xs| < |ys| then |xs| - 1 else |ys| - 1;
        assert xs[n] == ys[n];
      }
      assert |xs| == |ys|;
      assert forall k :: 0 <= k < |xs| ==> xs[k] == ys[k];
    }
  }
}
