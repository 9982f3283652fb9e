/**
  The gameplay screen's mutable state: a fixed array of bullets with a live
  counter, the player position and the cursor position, and the operations that
  change them each frame. Input, screen size, frame time and the trigonometry
  are passed in as parameters.
 */
module Gameplay {
  import opened Trajectory
  import opened Bullets
  import opened Movement

  class GameplayScreen {
    /** The bullet pool; only the first `count` slots are live. */
    var bullets: array<Bullet>
    /** `bulletCounter`: a C `int`, so an unguarded deletion can drive it negative. */
    var count: int
    var player: Vector2
    var cursor: Vector2

    /** The pool invariant: full capacity allocated and `0 <= count <= MaxBullets`. */
    ghost predicate Valid()
      reads this
    {
      bullets.Length == MaxBullets && 0 <= count <= MaxBullets
    }

    /** The live bullets, in slot order. */
    ghost function Contents(): seq<Bullet>
      reads this, bullets
      requires Valid()
    {
      bullets[..count]
    }

    /** The zero-initialised static state: empty pool, player and cursor at the screen origin. */
    constructor ()
      ensures Valid() && fresh(bullets)
      ensures Contents() == []
      ensures player == Origin && cursor == Origin
    {
      bullets := new Bullet[MaxBullets](_ => Blank);
      count := 0;
      player := Origin;
      cursor := Origin;
    }

    /** Appends a new bullet at slot `count` unless the pool is full; at capacity nothing changes. */
    method Fire(origin: Vector2, speed: real, target: Vector2)
      requires Valid()
      modifies this`count, bullets
      ensures Valid()
      ensures Contents() == Fired(old(Contents()), origin, speed, target)
      ensures old(count) < MaxBullets ==> count == old(count) + 1
      ensures old(count) == MaxBullets ==> count == old(count)
      ensures forall k :: 0 <= k < bullets.Length && k != old(count) ==> bullets[k] == old(bullets[k])
    {
      if count < MaxBullets {
        var newBullet := NewBullet(origin, speed, target);
        bullets[count] := newBullet;
        count := count + 1;
      }
    }

    /**
      Deletes slot `index` by shifting the later slots down. The guard only
      rejects `index > count`: with `index == count` nothing is shifted but the
      count still drops, discarding the last live bullet, and on an empty pool
      the count becomes -1.
     */
    method DeleteBullet(index: int)
      requires Valid()
      requires 0 <= index
      modifies this`count, bullets
      ensures index > old(count) ==> count == old(count) && bullets[..] == old(bullets[..])
      ensures index <= old(count) ==> count == old(count) - 1
      ensures index <= old(count) ==> forall k :: 0 <= k < index ==> bullets[k] == old(bullets[k])
      ensures index <= old(count) ==> forall k :: index <= k < old(count) - 1 ==> bullets[k] == old(bullets[k + 1])
      ensures forall k :: 0 <= k < bullets.Length && index <= k && old(count) - 1 <= k ==> bullets[k] == old(bullets[k])
      ensures index < old(count) ==> Valid() && Contents() == Removed(old(Contents()), index)
      ensures index == old(count) > 0 ==> Valid() && Contents() == old(Contents())[..old(count) - 1]
      ensures index == old(count) == 0 ==> count == -1
    {
      if index > count {
        return;
      }
      ghost var before := bullets[..];
      var i := index;
      while i < count - 1
        invariant count == old(count) && count <= bullets.Length == |before|
        invariant index <= i <= count && (i == index || i < count)
        invariant forall k :: 0 <= k < index ==> bullets[k] == before[k]
        invariant forall k :: index <= k < i ==> bullets[k] == before[k + 1]
        invariant forall k :: i <= k < bullets.Length ==> bullets[k] == before[k]
      {
        bullets[i] := bullets[i + 1];
        i := i + 1;
      }
      count := count - 1;
      if index < old(count) {
        assert bullets[..count] == before[..index] + before[index + 1..old(count)];
      } else if index > 0 {
        assert bullets[..count] == before[..count];
      }
    }

    /**
      The body of the loop in `UpdateBullets` for slot `b`: the bullet's distance
      is advanced in place, its new position computed, and then it is either
      deleted (new position off screen) or given that position.
     */
    method StepBullet(b: int, dt: real, width: int, height: int, heading: Heading) returns (deleted: bool)
      requires Valid()
      requires 0 <= b < count
      modifies this`count, bullets
      ensures Valid()
      ensures deleted == Leaves(old(Contents())[b], dt, width, height, heading)
      ensures count == if deleted then old(count) - 1 else old(count)
      ensures deleted ==> Contents() == Removed(old(Contents()), b)
      ensures !deleted ==> Contents() == old(Contents())[b := Commit(old(Contents())[b], dt, heading)]
    {
      ghost var before := Contents();
      bullets[b] := Advance(bullets[b], dt);
      assert Contents() == before[b := Advance(before[b], dt)];
      var newPosition := PointOnTrajectory(bullets[b].origin, bullets[b].target, bullets[b].distance, heading);
      deleted := OutOfScreen(newPosition, width, height);
      if deleted {
        DeleteBullet(b);
        assert Contents() == Removed(before, b);
      } else {
        bullets[b] := bullets[b].(position := newPosition);
        assert Contents() == before[b := Commit(before[b], dt, heading)];
      }
    }

    /**
      One frame of bullet updates: each examined bullet is advanced and either
      committed at its new position or, when that position is off screen,
      deleted; the loop index still moves on after a deletion, and its bound is
      the shrinking count.
     */
    method UpdateBullets(dt: real, width: int, height: int, heading: Heading)
      requires Valid()
      modifies this`count, bullets
      ensures Valid()
      ensures Contents() == Frame(old(Contents()), dt, width, height, heading)
      ensures count <= old(count)
    {
      ghost var whole := Frame(Contents(), dt, width, height, heading);
      ghost var done: seq<Bullet> := [];
      ghost var rest := Contents();
      var b := 0;
      while b < count
        invariant Valid()
        invariant count == |done| + |rest|
        invariant b == |done| || (b == |done| + 1 && rest == [])
        invariant Contents() == done + rest
        invariant whole == done + Frame(rest, dt, width, height, heading)
        decreases count - b
      {
        assert Contents()[b] == rest[0];
        var deleted := StepBullet(b, dt, width, height, heading);
        if !deleted {
          FrameStepCommit(whole, done, rest, dt, width, height, heading);
          done, rest := done + [Commit(rest[0], dt, heading)], rest[1..];
        } else if |rest| > 1 {
          FrameStepSkip(whole, done, rest, dt, width, height, heading);
          done, rest := done + [rest[1]], rest[2..];
        } else {
          FrameStepLast(whole, done, rest, dt, width, height, heading);
          rest := rest[1..];
        }
        b := b + 1;
      }
    }

    /**
      One frame of the gameplay screen: record the cursor, move the player
      horizontally, fire from the player towards the cursor on a click, then
      update every bullet.
     */
    method Update(dt: real, mouseX: int, mouseY: int, keyA: bool, keyD: bool, clicked: bool,
                  width: int, height: int, heading: Heading)
      requires Valid()
      modifies this`count, bullets, this`player, this`cursor
      ensures Valid()
      ensures cursor == Vector2(mouseX as real, mouseY as real)
      ensures player == Vector2(Steer(old(player.x), dt, keyA, keyD, width), old(player.y))
      ensures dt >= 0.0 && LeftEdge <= old(player.x) <= width as real ==> LeftEdge <= player.x <= width as real
      ensures clicked ==> Contents() == Frame(Fired(old(Contents()), player, ProjectileSpeed, cursor), dt, width, height, heading)
      ensures !clicked ==> Contents() == Frame(old(Contents()), dt, width, height, heading)
    {
      cursor := Vector2(mouseX as real, mouseY as real);
      if keyA {
        var newX := player.x - PlayerSpeed * dt;
        if newX >= LeftEdge {
          player := player.(x := newX);
        }
      }
      if keyD {
        var newX := player.x + PlayerSpeed * dt;
        if newX <= width as real {
          player := player.(x := newX);
        }
      }
      assert player == Vector2(Steer(old(player.x), dt, keyA, keyD, width), old(player.y));
      if dt >= 0.0 && LeftEdge <= old(player.x) <= width as real {
        SteerStaysInLane(old(player.x), dt, keyA, keyD, width);
      }
      if clicked {
        Fire(player, ProjectileSpeed, cursor);
      }
      ghost var fired := Contents();
      assert fired == if clicked then Fired(old(Contents()), player, ProjectileSpeed, cursor) else old(Contents());
      UpdateBullets(dt, width, height, heading);
    }
  }
}
