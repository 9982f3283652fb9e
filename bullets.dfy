/**
  The bullet pool as values: what a bullet is, what firing appends, what one
  deletion removes, and what one frame of bullet updates does to the sequence
  of live bullets. The class in module Gameplay keeps these in a fixed array
  and is proved against the functions here.
 */
module Bullets {
  import opened Trajectory

  /** Capacity of the pool (`MAX_BULLETS`). */
  const MaxBullets: nat := 640

  /** `playerProjectileSpeed`: the distance every bullet travels per second. */
  const ProjectileSpeed: real := 300.0

  datatype Bullet = Bullet(
    origin: Vector2,
    position: Vector2,
    target: Vector2,
    distance: real,
    speed: real)

  /** The contents of a never-written slot of the zero-initialised static array. */
  const Blank: Bullet := Bullet(Origin, Origin, Origin, 0.0, 0.0)

  /** The bullet `Fire` creates. The `speed` argument is ignored: the stored speed is always the projectile speed. */
  function NewBullet(origin: Vector2, speed: real, target: Vector2): (b: Bullet)
    ensures b.origin == origin && b.position == origin && b.target == target
    ensures b.distance == 0.0 && b.speed == ProjectileSpeed
  {
    Bullet(origin, origin, target, 0.0, ProjectileSpeed)
  }

  /** The live bullets after a `Fire`: one more at the end while below capacity, otherwise unchanged. */
  function Fired(s: seq<Bullet>, origin: Vector2, speed: real, target: Vector2): (r: seq<Bullet>)
    ensures |s| < MaxBullets ==> |r| == |s| + 1 && r[..|s|] == s && r[|s|] == NewBullet(origin, ProjectileSpeed, target)
    ensures |s| >= MaxBullets ==> r == s
  {
    if |s| < MaxBullets then s + [NewBullet(origin, speed, target)] else s
  }

  /** Firing never takes the pool above its capacity. */
  lemma FiredWithinCapacity(s: seq<Bullet>, origin: Vector2, speed: real, target: Vector2)
    requires |s| <= MaxBullets
    ensures |Fired(s, origin, speed, target)| <= MaxBullets
  {
  }

  /** The live bullets after deleting slot `i`: later bullets move down one slot, in order. */
  function Removed(s: seq<Bullet>, i: nat): (r: seq<Bullet>)
    requires i < |s|
    ensures |r| == |s| - 1
    ensures forall k :: 0 <= k < i ==> r[k] == s[k]
    ensures forall k :: i <= k < |r| ==> r[k] == s[k + 1]
  {
    s[..i] + s[i + 1..]
  }

  /** Step one of a bullet's update: its distance grows by the projectile speed times the frame time. */
  function Advance(b: Bullet, dt: real): (a: Bullet)
    ensures a.distance - b.distance == 300.0 * dt
    ensures a.origin == b.origin && a.target == b.target && a.position == b.position && a.speed == b.speed
  {
    b.(distance := b.distance + ProjectileSpeed * dt)
  }

  /** Where the bullet would be after advancing this frame: the trajectory point at the advanced distance. */
  function NextPosition(b: Bullet, dt: real, heading: Heading): (p: Vector2)
    ensures p == PointOnTrajectory(b.origin, b.target, b.distance + 300.0 * dt, heading)
    ensures b.distance + 300.0 * dt == 0.0 ==> p == b.origin
  {
    var a := Advance(b, dt);
    PointOnTrajectory(a.origin, a.target, a.distance, heading)
  }

  /** Strictly outside the screen rectangle `[0, width] x [0, height]`; the edges are inside. */
  function OutOfScreen(p: Vector2, width: int, height: int): (out: bool)
    ensures out <==> !(0.0 <= p.x <= width as real && 0.0 <= p.y <= height as real)
  {
    p.x < 0.0 || p.x > width as real || p.y < 0.0 || p.y > height as real
  }

  /** The bullet leaves the screen when advanced this frame, and is deleted. */
  function Leaves(b: Bullet, dt: real, width: int, height: int, heading: Heading): (leaves: bool)
    ensures var q := PointOnTrajectory(b.origin, b.target, b.distance + 300.0 * dt, heading);
      leaves <==> !(0.0 <= q.x <= width as real && 0.0 <= q.y <= height as real)
  {
    OutOfScreen(NextPosition(b, dt, heading), width, height)
  }

  /** A bullet that stays on screen: advanced, with its new position committed. */
  function Commit(b: Bullet, dt: real, heading: Heading): (c: Bullet)
    ensures c.distance == b.distance + 300.0 * dt
    ensures c.origin == b.origin && c.target == b.target && c.speed == b.speed
    ensures c.position == PointOnTrajectory(b.origin, b.target, c.distance, heading)
  {
    Advance(b, dt).(position := NextPosition(b, dt, heading))
  }

  /**
    One frame of bullet updates, read off the input sequence. A bullet that stays
    on screen is committed. A bullet that leaves is deleted, and the bullet
    behind it, which the deletion shifts into the slot just examined, is kept
    as it was: the loop index moves past it. The frame ends when the index
    reaches the shrunken count.
   */
  function Frame(s: seq<Bullet>, dt: real, width: int, height: int, heading: Heading): (r: seq<Bullet>)
    ensures |r| <= |s|
    decreases |s|
  {
    if s == [] then []
    else if Leaves(s[0], dt, width, height, heading) then
      if |s| == 1 then [] else [s[1]] + Frame(s[2..], dt, width, height, heading)
    else
      [Commit(s[0], dt, heading)] + Frame(s[1..], dt, width, height, heading)
  }

  /*
    One step of `Frame` on the pool `done + rest`, whose slot `|done|` holds the
    next bullet to examine, `rest[0]`. When the whole frame is the `done` prefix
    followed by the frame of `rest`, deleting or committing that slot extends
    the prefix by what `rest[0]` contributes. There are three cases.
   */

  /** The last bullet leaves: it is deleted and the prefix is the whole frame. */
  lemma FrameStepLast(whole: seq<Bullet>, done: seq<Bullet>, rest: seq<Bullet>, dt: real, width: int, height: int, heading: Heading)
    requires |rest| == 1 && Leaves(rest[0], dt, width, height, heading)
    requires whole == done + Frame(rest, dt, width, height, heading)
    ensures Removed(done + rest, |done|) == done + rest[1..]
    ensures whole == done + Frame(rest[1..], dt, width, height, heading)
  {
    RemovedAtSeam(done, rest);
  }

  /** A bullet with a successor leaves: it is deleted and its successor joins the prefix untouched. */
  lemma FrameStepSkip(whole: seq<Bullet>, done: seq<Bullet>, rest: seq<Bullet>, dt: real, width: int, height: int, heading: Heading)
    requires |rest| > 1 && Leaves(rest[0], dt, width, height, heading)
    requires whole == done + Frame(rest, dt, width, height, heading)
    ensures Removed(done + rest, |done|) == (done + [rest[1]]) + rest[2..]
    ensures whole == (done + [rest[1]]) + Frame(rest[2..], dt, width, height, heading)
  {
    RemovedAtSeam(done, rest);
    assert rest[1..] == [rest[1]] + rest[2..];
  }

  /** A bullet stays on screen: it is committed in its slot and joins the prefix. */
  lemma FrameStepCommit(whole: seq<Bullet>, done: seq<Bullet>, rest: seq<Bullet>, dt: real, width: int, height: int, heading: Heading)
    requires rest != [] && !Leaves(rest[0], dt, width, height, heading)
    requires whole == done + Frame(rest, dt, width, height, heading)
    ensures (done + rest)[|done| := Commit(rest[0], dt, heading)] == (done + [Commit(rest[0], dt, heading)]) + rest[1..]
    ensures whole == (done + [Commit(rest[0], dt, heading)]) + Frame(rest[1..], dt, width, height, heading)
  {
    var c := Commit(rest[0], dt, heading);
    var tail := Frame(rest[1..], dt, width, height, heading);
    assert Frame(rest, dt, width, height, heading) == [c] + tail;
    assert done + ([c] + tail) == (done + [c]) + tail;
    ReplacedAtSeam(done, rest, c);
  }

  /** Deleting the slot where `done` ends and `rest` begins drops the head of `rest`. */
  lemma RemovedAtSeam(done: seq<Bullet>, rest: seq<Bullet>)
    requires rest != []
    ensures Removed(done + rest, |done|) == done + rest[1..]
  {
    var pool := done + rest;
    assert pool[..|done|] == done;
    assert pool[|done| + 1..] == rest[1..];
  }

  /** Overwriting the slot where `done` ends and `rest` begins replaces the head of `rest`. */
  lemma ReplacedAtSeam(done: seq<Bullet>, rest: seq<Bullet>, c: Bullet)
    requires rest != []
    ensures (done + rest)[|done| := c] == (done + [c]) + rest[1..]
  {
    assert rest == [rest[0]] + rest[1..];
  }

  /** Every bullet of `s` committed, in order. */
  function CommitAll(s: seq<Bullet>, dt: real, heading: Heading): seq<Bullet>
  {
    seq(|s|, k requires 0 <= k < |s| => Commit(s[k], dt, heading))
  }

  /** Nothing is deleted unless some bullet leaves: if none does, every bullet is advanced and committed. */
  lemma {:induction false} FrameNoneLeaves(s: seq<Bullet>, dt: real, width: int, height: int, heading: Heading)
    requires forall k :: 0 <= k < |s| ==> !Leaves(s[k], dt, width, height, heading)
    ensures Frame(s, dt, width, height, heading) == CommitAll(s, dt, heading)
  {
    if s != [] {
      FrameNoneLeaves(s[1..], dt, width, height, heading);
      assert CommitAll(s, dt, heading) == [Commit(s[0], dt, heading)] + CommitAll(s[1..], dt, heading);
    }
  }

  /** A frame deletes bullets only when some bullet of the pool leaves the screen. */
  lemma FrameShrinksOnlyOnLeave(s: seq<Bullet>, dt: real, width: int, height: int, heading: Heading)
    requires |Frame(s, dt, width, height, heading)| < |s|
    ensures exists k :: 0 <= k < |s| && Leaves(s[k], dt, width, height, heading)
  {
    if forall k :: 0 <= k < |s| ==> !Leaves(s[k], dt, width, height, heading) {
      FrameNoneLeaves(s, dt, width, height, heading);
    }
  }

  /** How many bullets of `s` would leave the screen if advanced this frame. */
  function LeaverCount(s: seq<Bullet>, dt: real, width: int, height: int, heading: Heading): (n: nat)
    ensures n <= |s|
  {
    if s == [] then 0
    else (if Leaves(s[0], dt, width, height, heading) then 1 else 0) + LeaverCount(s[1..], dt, width, height, heading)
  }

  /** Dropping the first bullet never adds a leaver. */
  lemma LeaverCountTail(s: seq<Bullet>, dt: real, width: int, height: int, heading: Heading)
    requires s != []
    ensures LeaverCount(s[1..], dt, width, height, heading) <= LeaverCount(s, dt, width, height, heading)
  {
  }

  /** A frame deletes no more bullets than there are bullets that leave the screen. */
  lemma {:induction false} FrameDeletesOnlyLeavers(s: seq<Bullet>, dt: real, width: int, height: int, heading: Heading)
    ensures |s| - |Frame(s, dt, width, height, heading)| <= LeaverCount(s, dt, width, height, heading)
    decreases |s|
  {
    if s != [] {
      if Leaves(s[0], dt, width, height, heading) {
        if |s| > 1 {
          FrameDeletesOnlyLeavers(s[2..], dt, width, height, heading);
          assert s[1..][1..] == s[2..];
          LeaverCountTail(s[1..], dt, width, height, heading);
        }
      } else {
        FrameDeletesOnlyLeavers(s[1..], dt, width, height, heading);
      }
    }
  }

  /**
    Because the bullet shifted into a deleted slot is skipped, no two adjacent
    bullets are both deleted, so a frame deletes at most half the pool, rounded up.
   */
  lemma {:induction false} FrameDeletesAtMostHalf(s: seq<Bullet>, dt: real, width: int, height: int, heading: Heading)
    ensures |s| - |Frame(s, dt, width, height, heading)| <= (|s| + 1) / 2
    decreases |s|
  {
    if s != [] {
      if Leaves(s[0], dt, width, height, heading) {
        if |s| > 1 {
          FrameDeletesAtMostHalf(s[2..], dt, width, height, heading);
        }
      } else {
        FrameDeletesAtMostHalf(s[1..], dt, width, height, heading);
      }
    }
  }

  /**
    Every bullet left after a frame is either a bullet of the input, untouched,
    or a committed bullet of the input whose new position is on screen.
   */
  lemma {:induction false} FrameSurvivors(s: seq<Bullet>, dt: real, width: int, height: int, heading: Heading)
    ensures forall k :: 0 <= k < |Frame(s, dt, width, height, heading)| ==>
      var c := Frame(s, dt, width, height, heading)[k];
      c in s || (c in CommitAll(s, dt, heading) && !OutOfScreen(c.position, width, height))
  {
    var r := Frame(s, dt, width, height, heading);
    if s == [] {
    } else if Leaves(s[0], dt, width, height, heading) {
      if |s| > 1 {
        var t := s[2..];
        FrameSurvivors(t, dt, width, height, heading);
        forall k | 0 <= k < |r|
          ensures r[k] in s || (r[k] in CommitAll(s, dt, heading) && !OutOfScreen(r[k].position, width, height))
        {
          if k > 0 {
            var c := r[k];
            assert c == Frame(t, dt, width, height, heading)[k - 1];
            if c in t {
              assert c in s;
            } else {
              var m :| 0 <= m < |t| && c == CommitAll(t, dt, heading)[m];
              assert c == CommitAll(s, dt, heading)[m + 2];
            }
          }
        }
      }
    } else {
      var t := s[1..];
      FrameSurvivors(t, dt, width, height, heading);
      forall k | 0 <= k < |r|
        ensures r[k] in s || (r[k] in CommitAll(s, dt, heading) && !OutOfScreen(r[k].position, width, height))
      {
        if k == 0 {
          assert r[0] == CommitAll(s, dt, heading)[0];
        } else {
          var c := r[k];
          assert c == Frame(t, dt, width, height, heading)[k - 1];
          if c in t {
            assert c in s;
          } else {
            var m :| 0 <= m < |t| && c == CommitAll(t, dt, heading)[m];
            assert c == CommitAll(s, dt, heading)[m + 1];
          }
        }
      }
    }
  }

  /**
    No bullet that stays on screen is lost: each one survives the frame,
    committed or (when it was shifted into a deleted slot) untouched.
   */
  lemma {:induction false} FrameKeepsStayers(s: seq<Bullet>, dt: real, width: int, height: int, heading: Heading)
    ensures forall k :: 0 <= k < |s| && !Leaves(s[k], dt, width, height, heading) ==>
      s[k] in Frame(s, dt, width, height, heading) || Commit(s[k], dt, heading) in Frame(s, dt, width, height, heading)
    decreases |s|
  {
    var r := Frame(s, dt, width, height, heading);
    if s == [] {
    } else if Leaves(s[0], dt, width, height, heading) {
      if |s| > 1 {
        var t := s[2..];
        FrameKeepsStayers(t, dt, width, height, heading);
        assert r == [s[1]] + Frame(t, dt, width, height, heading);
        forall k | 2 <= k < |s| && !Leaves(s[k], dt, width, height, heading)
          ensures s[k] in r || Commit(s[k], dt, heading) in r
        {
          assert s[k] == t[k - 2];
        }
      }
    } else {
      var t := s[1..];
      FrameKeepsStayers(t, dt, width, height, heading);
      assert r == [Commit(s[0], dt, heading)] + Frame(t, dt, width, height, heading);
      forall k | 1 <= k < |s| && !Leaves(s[k], dt, width, height, heading)
        ensures s[k] in r || Commit(s[k], dt, heading) in r
      {
        assert s[k] == t[k - 1];
      }
    }
  }

  /**
    The deletion hazard: when the first bullet leaves, the bullet shifted into
    its slot is the first survivor, neither advanced nor checked against the
    screen, even if it would leave too.
   */
  lemma {:induction false} FrameSkipsShifted(a: Bullet, c: Bullet, rest: seq<Bullet>, dt: real, width: int, height: int, heading: Heading)
    requires Leaves(a, dt, width, height, heading)
    ensures Frame([a, c] + rest, dt, width, height, heading) == [c] + Frame(rest, dt, width, height, heading)
  {
    var s := [a, c] + rest;
    assert s[0] == a && s[1] == c && s[2..] == rest;
  }

  /** Two bullets flying straight up that both leave after one frame: only the first is deleted, the second stays unchanged. */
  lemma SecondLeaverSurvives()
    ensures
      var up: Heading := (ty, tx) => (0.0, -1.0);
      var a := Bullet(Vector2(10.0, 1.0), Vector2(10.0, 1.0), Vector2(10.0, 0.0), 0.0, ProjectileSpeed);
      Leaves(a, 0.1, 800, 600, up) &&
      Frame([a, a], 0.1, 800, 600, up) == [a]
  {
    var up: Heading := (ty, tx) => (0.0, -1.0);
    var a := Bullet(Vector2(10.0, 1.0), Vector2(10.0, 1.0), Vector2(10.0, 0.0), 0.0, ProjectileSpeed);
    assert NextPosition(a, 0.1, up) == Vector2(10.0, -29.0);
    FrameSkipsShifted(a, a, [], 0.1, 800, 600, up);
    assert [a, a] + [] == [a, a];
  }
}
