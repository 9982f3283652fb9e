/**
  Horizontal player movement. A move that would cross the lane
  `[PlayerSize / 2, width]` is rejected outright rather than clamped to the edge,
  and the vertical position is never changed.
 */
module Movement {

  const PlayerSize: int := 24
  const PlayerSpeed: real := 150.0

  /** Leftmost accepted x: half the player size, by integer division. */
  const LeftEdge: real := (PlayerSize / 2) as real

  /** The integer division rounds nothing away here: the left edge is 12. */
  lemma LeftEdgeIsTwelve()
    ensures LeftEdge == 12.0
  {
  }

  /**
    The new x after one frame: the left key's move is tried first, then the
    right key's move from wherever the left one left the player.
   */
  function Steer(x: real, dt: real, left: bool, right: bool, width: int): (r: real)
    ensures r == x || r == x - PlayerSpeed * dt || r == x + PlayerSpeed * dt
    ensures !left && !right ==> r == x
  {
    var x1 := if left && x - PlayerSpeed * dt >= LeftEdge then x - PlayerSpeed * dt else x;
    if right && x1 + PlayerSpeed * dt <= width as real then x1 + PlayerSpeed * dt else x1
  }

  /** Key A alone: the move is taken exactly when it lands at or right of the left edge; otherwise x is unchanged. */
  lemma SteerLeft(x: real, dt: real, width: int)
    ensures x - PlayerSpeed * dt >= LeftEdge ==> Steer(x, dt, true, false, width) == x - PlayerSpeed * dt
    ensures x - PlayerSpeed * dt < LeftEdge ==> Steer(x, dt, true, false, width) == x
  {
  }

  /** Key D alone: the move is taken exactly when it lands at or left of the screen width; otherwise x is unchanged. */
  lemma SteerRight(x: real, dt: real, width: int)
    ensures x + PlayerSpeed * dt <= width as real ==> Steer(x, dt, false, true, width) == x + PlayerSpeed * dt
    ensures x + PlayerSpeed * dt > width as real ==> Steer(x, dt, false, true, width) == x
  {
  }

  /** Rejection, not clamping: a player a little right of the edge whose step would overshoot does not move at all. */
  lemma SteerRejectsOvershoot()
    ensures Steer(20.0, 0.1, true, false, 800) == 20.0
  {
  }

  /** With both keys held the left move is tried first: from the left edge, A is rejected and D is taken. */
  lemma SteerBothKeysLeftFirst()
    ensures Steer(12.0, 0.1, true, true, 800) == 27.0
  {
  }

  /** Holding the left key at the left edge leaves the player where they are. */
  lemma SteerAtLeftEdge(dt: real, width: int)
    requires dt > 0.0
    ensures Steer(LeftEdge, dt, true, false, width) == LeftEdge
  {
  }

  /** A player inside the lane stays inside it, for any keys and any non-negative frame time. */
  lemma SteerStaysInLane(x: real, dt: real, left: bool, right: bool, width: int)
    requires LeftEdge <= x <= width as real
    requires dt >= 0.0
    ensures LeftEdge <= Steer(x, dt, left, right, width) <= width as real
  {
  }
}
