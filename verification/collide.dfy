/**
 Axis-separated collision resolution (src/collide.rs): a moving rectangle
 that overlaps a fixed one is pushed out along a single axis, in the
 direction opposite to its velocity on that axis, to a distance TOLERANCE
 beyond the fixed edge; the velocity component on that axis is zeroed and the
 other component is kept. A fold applies this to a list of colliders in list
 order, re-testing the moved rectangle against each one.
 */
module Collide {
  import opened Maths

  /** The gap left between the two rectangles after a push-out. */
  const TOLERANCE: real := 0.01

  /** A displacement along the resolved axis and the velocity left after it. */
  datatype Push = Push(disp: real, vel: Vec2)

  /** The axis a resolution pass works along. */
  datatype Dim = X | Y

  /** The component of `v` along `dim`. */
  function Along(dim: Dim, v: Vec2): real {
    match dim
    case X => v.x
    case Y => v.y
  }

  /** The component of `v` across `dim`. */
  function Across(dim: Dim, v: Vec2): real {
    match dim
    case X => v.y
    case Y => v.x
  }

  /** The vector of length `d` along `dim`. */
  function Step(dim: Dim, d: real): Vec2 {
    match dim
    case X => Vec2(d, 0.0)
    case Y => Vec2(0.0, d)
  }

  /** `rect` translated by `d` along `dim`, rebuilt from its corner as the fold does. */
  function Shift(dim: Dim, rect: Rect, d: real): (r: Rect)
    ensures Along(dim, r.Point()) == Along(dim, rect.Point()) + d
    ensures Across(dim, r.Point()) == Across(dim, rect.Point())
    ensures r.w == rect.w && r.h == rect.h
  {
    RectFromPoint(rect.Point().Plus(Step(dim, d)), rect.w, rect.h)
  }

  /**
   Horizontal displacement and new velocity for `rect` moving with
   `velocity` against `fixed`. Moving left (velocity.x < 0) pushes right,
   anything else (including velocity.x == 0) pushes left.
   */
  function ResolveColliderHoriz(rect: Rect, velocity: Vec2, fixed: Rect): (r: Push)
    ensures !Overlaps(rect, fixed) ==> r == Push(0.0, velocity)
    ensures Overlaps(rect, fixed) ==> r.vel == Vec2(0.0, velocity.y)
    ensures Overlaps(rect, fixed) && velocity.x < 0.0 ==>
              r.disp > 0.0 && rect.Left() + r.disp == fixed.Right() + TOLERANCE
    ensures Overlaps(rect, fixed) && velocity.x >= 0.0 ==>
              r.disp < 0.0 && rect.Right() + r.disp == fixed.Left() - TOLERANCE
    ensures !Overlaps(Shift(X, rect, r.disp), fixed)
  {
    if Overlaps(rect, fixed) then
      if velocity.x < 0.0 then
        Push(fixed.Right() - rect.Left() + TOLERANCE, Vec2(0.0, velocity.y))
      else
        Push(fixed.Left() - rect.Right() - TOLERANCE, Vec2(0.0, velocity.y))
    else
      Push(0.0, velocity)
  }

  /**
   Vertical displacement and new velocity for `rect` moving with `velocity`
   against `fixed`. Moving up (velocity.y > 0) pushes down below the fixed
   rectangle, anything else pushes up on top of it.
   */
  function ResolveColliderVert(rect: Rect, velocity: Vec2, fixed: Rect): (r: Push)
    ensures !Overlaps(rect, fixed) ==> r == Push(0.0, velocity)
    ensures Overlaps(rect, fixed) ==> r.vel == Vec2(velocity.x, 0.0)
    ensures Overlaps(rect, fixed) && velocity.y > 0.0 ==>
              r.disp < 0.0 && rect.Top() + r.disp == fixed.Bottom() - TOLERANCE
    ensures Overlaps(rect, fixed) && velocity.y <= 0.0 ==>
              r.disp > 0.0 && rect.Bottom() + r.disp == fixed.Top() + TOLERANCE
    ensures !Overlaps(Shift(Y, rect, r.disp), fixed)
  {
    if Overlaps(rect, fixed) then
      if velocity.y > 0.0 then
        Push(fixed.Bottom() - rect.Top() - TOLERANCE, Vec2(velocity.x, 0.0))
      else
        Push(fixed.Top() - rect.Bottom() + TOLERANCE, Vec2(velocity.x, 0.0))
    else
      Push(0.0, velocity)
  }

  /** The single-collider resolution for `dim`. */
  function ResolveCollider(dim: Dim, rect: Rect, velocity: Vec2, fixed: Rect): (r: Push)
    ensures !Overlaps(rect, fixed) ==> r == Push(0.0, velocity)
    ensures Overlaps(rect, fixed) ==> Along(dim, r.vel) == 0.0
    ensures Across(dim, r.vel) == Across(dim, velocity)
    ensures !Overlaps(Shift(dim, rect, r.disp), fixed)
  {
    match dim
    case X => ResolveColliderHoriz(rect, velocity, fixed)
    case Y => ResolveColliderVert(rect, velocity, fixed)
  }

  /** Resolving again against the same collider moves nothing and keeps the velocity. */
  lemma ResolveColliderIdempotent(dim: Dim, rect: Rect, velocity: Vec2, fixed: Rect)
    ensures var p := ResolveCollider(dim, rect, velocity, fixed);
            ResolveCollider(dim, Shift(dim, rect, p.disp), p.vel, fixed) == Push(0.0, p.vel)
  {
  }

  /**
   Net displacement along `dim` and final velocity after resolving `rect`
   against every collider in list order. Each collider is tested against
   `rect` shifted by the displacement accumulated over the colliders before
   it, with the velocity those left behind. Only the last collider is
   guaranteed to be clear afterwards: a later push may move the rectangle
   back into an earlier one.
   */
  function ResolveAll(dim: Dim, rect: Rect, velocity: Vec2, colliders: seq<Rect>): (r: Push)
    ensures |colliders| == 0 ==> r == Push(0.0, velocity)
    ensures Across(dim, r.vel) == Across(dim, velocity)
    ensures Along(dim, r.vel) == Along(dim, velocity) || Along(dim, r.vel) == 0.0
    ensures r.disp != 0.0 ==> Along(dim, r.vel) == 0.0
    ensures |colliders| > 0 ==> !Overlaps(Shift(dim, rect, r.disp), colliders[|colliders| - 1])
    decreases |colliders|
  {
    if |colliders| == 0 then
      Push(0.0, velocity)
    else
      var prev := ResolveAll(dim, rect, velocity, colliders[..|colliders| - 1]);
      var step := ResolveCollider(dim, Shift(dim, rect, prev.disp), prev.vel, colliders[|colliders| - 1]);
      assert Shift(dim, Shift(dim, rect, prev.disp), step.disp) == Shift(dim, rect, prev.disp + step.disp);
      Push(prev.disp + step.disp, step.vel)
  }

  /** The push the collider at index `k` gives in the fold, after the colliders before it have acted. */
  function StepPush(dim: Dim, rect: Rect, velocity: Vec2, colliders: seq<Rect>, k: nat): Push
    requires k < |colliders|
  {
    var prev := ResolveAll(dim, rect, velocity, colliders[..k]);
    ResolveCollider(dim, Shift(dim, rect, prev.disp), prev.vel, colliders[k])
  }

  /** A step of the fold depends only on the colliders up to it, so extending the list keeps it. */
  lemma StepPushPrefix(dim: Dim, rect: Rect, velocity: Vec2, colliders: seq<Rect>, n: nat)
    requires n <= |colliders|
    ensures forall k :: 0 <= k < n ==>
              StepPush(dim, rect, velocity, colliders[..n], k) == StepPush(dim, rect, velocity, colliders, k)
  {
    forall k | 0 <= k < n
      ensures StepPush(dim, rect, velocity, colliders[..n], k) == StepPush(dim, rect, velocity, colliders, k)
    {
      assert colliders[..n][..k] == colliders[..k];
    }
  }

  /**
   The fold as the source writes it (one loop per axis, generated from one
   macro): a running displacement and velocity, the moved rectangle rebuilt
   from the original corner plus the displacement before each test.
   */
  method ResolveColliders(dim: Dim, rect: Rect, velocity: Vec2, colliders: seq<Rect>) returns (disp: real, vel: Vec2)
    ensures Push(disp, vel) == ResolveAll(dim, rect, velocity, colliders)
  {
    disp := 0.0;
    vel := velocity;
    for i := 0 to |colliders|
      invariant Push(disp, vel) == ResolveAll(dim, rect, velocity, colliders[..i])
    {
      var dispRect := RectFromPoint(rect.Point().Plus(Step(dim, disp)), rect.w, rect.h);
      var res := ResolveCollider(dim, dispRect, vel, colliders[i]);
      assert colliders[..i + 1][..i] == colliders[..i];
      disp := disp + res.disp;
      vel := res.vel;
    }
    assert colliders[..|colliders|] == colliders;
  }

  /** resolve_colliders_horiz. */
  method ResolveCollidersHoriz(rect: Rect, velocity: Vec2, colliders: seq<Rect>) returns (disp: real, vel: Vec2)
    ensures Push(disp, vel) == ResolveAll(X, rect, velocity, colliders)
    ensures vel.y == velocity.y
    ensures disp != 0.0 ==> vel.x == 0.0
  {
    disp, vel := ResolveColliders(X, rect, velocity, colliders);
  }

  /** resolve_colliders_vert. */
  method ResolveCollidersVert(rect: Rect, velocity: Vec2, colliders: seq<Rect>) returns (disp: real, vel: Vec2)
    ensures Push(disp, vel) == ResolveAll(Y, rect, velocity, colliders)
    ensures vel.x == velocity.x
    ensures disp != 0.0 ==> vel.y == 0.0
  {
    disp, vel := ResolveColliders(Y, rect, velocity, colliders);
  }

  /** Shifting by nothing leaves a rectangle where it is. */
  lemma ShiftZero(dim: Dim, rect: Rect)
    ensures Shift(dim, rect, 0.0) == rect
  {
  }

  /**
   When no collider overlaps the rectangle where it starts, the fold moves
   nothing and leaves the velocity alone.
   */
  lemma {:induction false} ResolveAllNoContact(dim: Dim, rect: Rect, velocity: Vec2, colliders: seq<Rect>)
    requires forall i :: 0 <= i < |colliders| ==> !Overlaps(rect, colliders[i])
    ensures ResolveAll(dim, rect, velocity, colliders) == Push(0.0, velocity)
    decreases |colliders|
  {
    if |colliders| > 0 {
      var front := colliders[..|colliders| - 1];
      assert forall i :: 0 <= i < |front| ==> front[i] == colliders[i];
      ResolveAllNoContact(dim, rect, velocity, front);
      ShiftZero(dim, rect);
    }
  }
}
