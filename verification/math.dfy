/**
 Plane geometry shared by the simulation (src/math.rs): points and
 velocities as `Vec2`, and axis-aligned rectangles whose origin is the
 LOWER-LEFT corner. Coordinates are reals standing in for `f32`; rounding
 is not modelled.
 */
module Maths {

  /** The fixed simulation step, 1/60 s (declared in src/main.rs). */
  const DT: real := 1.0 / 60.0

  datatype Vec2 = Vec2(x: real, y: real) {
    function Plus(o: Vec2): Vec2 {
      Vec2(x + o.x, y + o.y)
    }

    function Scale(k: real): Vec2 {
      Vec2(k * x, k * y)
    }
  }

  const Origin: Vec2 := Vec2(0.0, 0.0)

  /** A rectangle with lower-left corner (x, y), width w and height h. */
  datatype Rect = Rect(x: real, y: real, w: real, h: real) {
    function Left(): real { x }
    function Right(): real { x + w }
    function Bottom(): real { y }
    function Top(): real { y + h }
    function Point(): Vec2 { Vec2(x, y) }
  }

  /**
   The rectangle library's own overlap test is not part of this model. It is
   taken to be strict interval intersection on both axes, so rectangles that
   only share an edge do not overlap.
   */
  predicate Overlaps(a: Rect, b: Rect) {
    && a.Left() < b.Right()
    && b.Left() < a.Right()
    && a.Bottom() < b.Top()
    && b.Bottom() < a.Top()
  }

  /** Overlap does not depend on the order of its arguments. */
  lemma OverlapsSymmetric(a: Rect, b: Rect)
    ensures Overlaps(a, b) <==> Overlaps(b, a)
  {
  }

  /**
   Clamp `n` into [lower, upper]. The upper bound is tested first, so when
   the bounds cross (lower > upper) an `n` above `upper` still yields `upper`.
   */
  function Clamp(lower: real, upper: real, n: real): (r: real)
    ensures upper < n ==> r == upper
    ensures n <= upper && n < lower ==> r == lower
    ensures lower <= n <= upper ==> r == n
    ensures lower <= upper ==> lower <= r <= upper
    ensures r == n || r == lower || r == upper
  {
    if upper < n then
      upper
    else if lower > n then
      lower
    else
      n
  }

  /** With ordered bounds clamping twice is clamping once. */
  lemma ClampIdempotent(lower: real, upper: real, n: real)
    requires lower <= upper
    ensures Clamp(lower, upper, Clamp(lower, upper, n)) == Clamp(lower, upper, n)
  {
  }

  /** With ordered bounds clamping is monotone in `n`. */
  lemma ClampMonotone(lower: real, upper: real, n: real, m: real)
    requires lower <= upper && n <= m
    ensures Clamp(lower, upper, n) <= Clamp(lower, upper, m)
  {
  }

  /** With crossed bounds clamping is not idempotent: it flips between the bounds. */
  lemma ClampCrossedBoundsFlip(lower: real, upper: real, n: real)
    requires upper < lower && upper < n
    ensures Clamp(lower, upper, n) == upper
    ensures Clamp(lower, upper, Clamp(lower, upper, n)) == lower
  {
  }

  /** The rectangle of size w x h whose lower-left corner is `point`. */
  function RectFromPoint(point: Vec2, w: real, h: real): (r: Rect)
    ensures r.Point() == point
    ensures r.Right() - r.Left() == w && r.Top() - r.Bottom() == h
  {
    Rect(point.x, point.y, w, h)
  }

  /** A rectangle is rebuilt exactly from its corner and its size. */
  lemma RectFromPointRoundTrip(r: Rect)
    ensures RectFromPoint(r.Point(), r.w, r.h) == r
  {
  }

  /** 1 for true, 0 for false: the contribution of one element to a count. */
  function Indicator(b: bool): nat {
    if b then 1 else 0
  }
}
