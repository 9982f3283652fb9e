/**
  The trajectory computation of the gameplay screen: the point a projectile has
  reached after travelling a given distance from its origin towards (and past)
  its aim point.

  The angle is computed from two "tangent" components with `atan2` and turned
  back into a direction with `cos` and `sin`. That floating-point trigonometry is
  not modelled: it is supplied as a `Heading`, an arbitrary total function from
  the two components to the direction vector. Only the sign preprocessing of
  the components and the shape of the final sum are modelled.
 */
module Trajectory {

  /** A 2D point or vector in screen space (raylib's `Vector2`); floats become reals. */
  datatype Vector2 = Vector2(x: real, y: real)

  const Origin: Vector2 := Vector2(0.0, 0.0)

  /**
    Stands for `(tanY, tanX) => (cos(atan2(tanY, tanX)), sin(-atan2(tanY, tanX)))`,
    the direction the trigonometry yields for the two preprocessed components.
   */
  type Heading = (real, real) -> (real, real)

  /** Horizontal component: both branches of the source's conditional give target.x - origin.x. */
  function TanX(origin: Vector2, target: Vector2): (r: real)
    ensures r == target.x - origin.x
  {
    if origin.x > target.x then -(origin.x - target.x) else target.x - origin.x
  }

  /** Vertical component: the absolute vertical offset, so the angle never points below the horizon. */
  function TanY(origin: Vector2, target: Vector2): (r: real)
    ensures r >= 0.0
    ensures r == origin.y - target.y || r == target.y - origin.y
  {
    if origin.y > target.y then origin.y - target.y else target.y - origin.y
  }

  /**
    The point at `distance` along the ray leaving `origin` in the direction the
    heading gives for the preprocessed components.
   */
  function PointOnTrajectory(origin: Vector2, target: Vector2, distance: real, heading: Heading): (p: Vector2)
    ensures distance == 0.0 ==> p == origin
  {
    var dir := heading(TanY(origin, target), TanX(origin, target));
    Vector2(origin.x + dir.0 * distance, origin.y + dir.1 * distance)
  }

  /** The aim point only matters through the two components: targets with equal components give equal points. */
  lemma SameComponentsSamePoint(origin: Vector2, t1: Vector2, t2: Vector2, distance: real, heading: Heading)
    requires t1.x == t2.x
    requires t1.y - origin.y == origin.y - t2.y
    ensures PointOnTrajectory(origin, t1, distance, heading) == PointOnTrajectory(origin, t2, distance, heading)
  {
    assert TanX(origin, t1) == TanX(origin, t2);
    assert TanY(origin, t1) == TanY(origin, t2);
    var dir := heading(TanY(origin, t1), TanX(origin, t1));
    assert heading(TanY(origin, t2), TanX(origin, t2)) == dir;
    assert PointOnTrajectory(origin, t1, distance, heading) == Vector2(origin.x + dir.0 * distance, origin.y + dir.1 * distance);
  }
}
