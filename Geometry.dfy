// Integer rectangles and the float-to-int cast used to build the collision boxes.

module Geometry {

  /** An axis-aligned rectangle with integer edges, left/top inclusive and
      right/bottom exclusive, as Android's Rect. */
  datatype Rect = Rect(left: int, top: int, right: int, bottom: int)

  /** Rect.intersects(a, b): the two rectangles share a region of positive
      area. Rectangles that only touch along an edge do not intersect. */
  predicate Intersects(a: Rect, b: Rect)
  {
    a.left < b.right && b.left < a.right && a.top < b.bottom && b.top < a.bottom
  }

  /** Intersection does not depend on the order of the arguments. */
  lemma IntersectsSymmetric(a: Rect, b: Rect)
    ensures Intersects(a, b) <==> Intersects(b, a)
  {
  }

  /** Rectangles that only share a vertical edge do not intersect; moving one
      of them a single pixel into the other makes them intersect when their
      extents on the other axis overlap. */
  lemma EdgeContact(a: Rect, b: Rect)
    requires a.right == b.left
    ensures !Intersects(a, b)
    ensures Intersects(a.(right := a.right + 1), b) <==>
      a.left < b.right && a.top < b.bottom && b.top < a.bottom
  {
  }

  /** The same for a shared horizontal edge: a above b, touching. */
  lemma EdgeContactVertical(a: Rect, b: Rect)
    requires a.bottom == b.top
    ensures !Intersects(a, b)
    ensures Intersects(a.(bottom := a.bottom + 1), b) <==>
      a.top < b.bottom && a.left < b.right && b.left < a.right
  {
  }

  /** Java's (int) cast of a float: truncation toward zero. */
  function Trunc(r: real): (n: int)
    ensures 0.0 <= r ==> 0 <= n && n as real <= r < n as real + 1.0
    ensures r < 0.0 ==> n <= 0 && n as real - 1.0 < r <= n as real
  {
    if r >= 0.0 then r.Floor else -((-r).Floor)
  }

  /** Truncation leaves integer values unchanged, so casting the integer
      valued pipe coordinates is the identity. */
  lemma TruncOfInt(k: int)
    ensures Trunc(k as real) == k
  {
  }
}
