# Gameplay screen of a small top-down shooter, in Dafny

This project models the per-frame simulation of the gameplay screen in
`game/src/screen_gameplay.c`: one player who moves horizontally, one pool of
player bullets held in a fixed array of 640 slots with a live counter, the
firing operation that appends to it, the order-preserving deletion that
compacts it, and the per-frame bullet update that advances every bullet along
its trajectory and prunes the ones that leave the screen.

This file has no enemies, hit points, spawn timers, fire cooldowns or tile
collision, so the model has none either. The model follows the code as
written, in particular where its behaviour is easy to misread:

- the player's move is rejected, not clamped, when it would cross the lane
  `[12, width]`;
- `DeleteBullet` ignores only an index strictly greater than the count, so an
  index equal to the count still drops the count;
- the bullet update loop does skip the bullet that a deletion shifts into the
  slot just examined;
- every bullet moves at the fixed projectile speed 300, and the `speed`
  argument of `Fire` is ignored.

Layout:

- `trajectory.dfy`, module `Trajectory`: `Vector2`, the sign preprocessing of
  `GetPointOnTrajectory` and the point on the ray. The trigonometry
  (`atan2`, `cos`, `sin`) is a parameter `heading` of type
  `(real, real) -> (real, real)`. It maps the two preprocessed components
  `(tanY, tanX)` to the direction `(cos a, sin(-a))`, and nothing else is
  assumed about it.
- `bullets.dfy`, module `Bullets`: the `Bullet` record. It holds the value
  semantics of the pool as functions on the sequence of live bullets: `Fired`,
  `Removed` and the one-frame update `Frame`. It also holds the lemmas about
  them.
- `movement.dfy`, module `Movement`: the horizontal move `Steer` and its
  lemmas.
- `gameplay.dfy`, module `Gameplay`: class `GameplayScreen`. Its fields are
  the `bullets` array, the `count` (`bulletCounter`), `player` and `cursor`.
  It has the imperative operations `Fire`, `DeleteBullet`, `UpdateBullets`
  and `Update` (`UpdateGameplayScreen`). Each one is proved against the
  functions above through the abstraction `Contents() == bullets[..count]`
  and the invariant `Valid()`, which is `0 <= count <= 640` on a 640-slot
  array.

Frame time, mouse position, key and button state, and screen width and height
are parameters of `Update`. `GetFrameTime()` is read once per bullet in the
source but returns the same value throughout a frame, so it is one `dt` here.

`Frame` reads the update loop off the input sequence. A bullet whose advanced
position is on screen is committed. A bullet whose advanced position is off
screen is deleted. The bullet right behind it then sits in the slot just
examined, and the loop index moves past it, so it is kept as it was. The loop
ends at the shrunken count.

## Model

| member | source | states |
|---|---|---|
| Trajectory.TanX | game/src/screen_gameplay.c:70 | both branches of the conditional equal `target.x - origin.x` |
| Trajectory.TanY | game/src/screen_gameplay.c:71 | the vertical component is never negative and is one of the two signed offsets, i.e. the absolute offset |
| Trajectory.PointOnTrajectory | game/src/screen_gameplay.c:67-76 | for every heading, a distance of 0 yields the origin |
| Trajectory.SameComponentsSamePoint | game/src/screen_gameplay.c:70-74 | aim points mirrored across the horizontal through the origin give the same trajectory point, because only the absolute vertical offset is used |
| Bullets.NewBullet | game/src/screen_gameplay.c:149-154 | a fired bullet starts at its origin with distance 0 and speed 300, and keeps origin and target |
| Bullets.Fired | game/src/screen_gameplay.c:145-158 | below capacity, exactly one bullet is appended after the unchanged old slots, whatever speed was asked for; at capacity the pool is unchanged |
| Bullets.FiredWithinCapacity | game/src/screen_gameplay.c:147 | firing never takes the pool above 640 bullets |
| Bullets.Removed | game/src/screen_gameplay.c:112-116 | deleting slot `i` of `n` leaves `n-1` bullets: slots below `i` unchanged, slot `k >= i` holds old slot `k+1` |
| Bullets.Advance | game/src/screen_gameplay.c:124 | the distance grows by `300 * dt` and nothing else changes |
| Bullets.NextPosition | game/src/screen_gameplay.c:124-125 | the position a bullet would reach this frame is the trajectory point at its distance plus `300 * dt`; at an advanced distance of 0 it is the origin |
| Bullets.OutOfScreen | game/src/screen_gameplay.c:128-133 | a point is off screen exactly when it is not in the closed rectangle `[0,W] x [0,H]`, so the edges count as on screen |
| Bullets.Leaves | game/src/screen_gameplay.c:124-135 | a bullet is deleted exactly when the trajectory point at its advanced distance is outside `[0,W] x [0,H]` |
| Bullets.Commit | game/src/screen_gameplay.c:124-139 | a kept bullet has distance raised by `300 * dt` and its position set to the trajectory point at that distance; origin, target and speed are unchanged |
| Bullets.Frame | game/src/screen_gameplay.c:120-143 | one frame never increases the number of live bullets |
| Bullets.FrameStepCommit | game/src/screen_gameplay.c:137-140 | one iteration of the update loop on a bullet that stays on screen: the bullet is committed in its slot and joins the finished prefix of the frame |
| Bullets.FrameStepSkip | game/src/screen_gameplay.c:128-136 | one iteration on a leaving bullet that has a successor: the deletion shifts the successor into the slot, and it joins the finished prefix untouched |
| Bullets.FrameStepLast | game/src/screen_gameplay.c:128-136 | one iteration on a leaving last bullet: the deletion empties the rest, and the finished prefix is the whole frame |
| Bullets.FrameNoneLeaves | game/src/screen_gameplay.c:128-140 | if no bullet leaves the screen, no bullet is deleted and every bullet is advanced and committed, in order |
| Bullets.FrameShrinksOnlyOnLeave | game/src/screen_gameplay.c:128-136 | the count drops only if some bullet's advanced position is strictly outside the screen |
| Bullets.LeaverCount | game/src/screen_gameplay.c:128-135 | the number of bullets whose advanced position is off screen is at most the pool size |
| Bullets.FrameDeletesOnlyLeavers | game/src/screen_gameplay.c:128-136 | the number of bullets a frame deletes is at most the number of bullets that leave the screen |
| Bullets.FrameDeletesAtMostHalf | game/src/screen_gameplay.c:122-136 | because the bullet shifted into a deleted slot is skipped, a frame of `n` bullets deletes at most `(n + 1) / 2` of them |
| Bullets.FrameSurvivors | game/src/screen_gameplay.c:128-140 | every bullet left after a frame is an untouched input bullet or a committed input bullet whose position is inside `[0,W] x [0,H]` |
| Bullets.FrameKeepsStayers | game/src/screen_gameplay.c:122-140 | no bullet whose advanced position is on screen is lost: each one is in the new pool, committed or, when shifted into a deleted slot, untouched |
| Bullets.FrameSkipsShifted | game/src/screen_gameplay.c:122-135 | after the first bullet is deleted, the bullet shifted into its slot is kept neither advanced nor bounds-checked |
| Bullets.SecondLeaverSurvives | game/src/screen_gameplay.c:122-141 | concrete case: of two identical bullets that both leave, the second one survives the frame unchanged |
| Movement.LeftEdgeIsTwelve | game/src/screen_gameplay.c:170 | the left limit `playerSize / 2`, the constant `LeftEdge` used by `Steer` and `Update`, is 12 by integer division |
| Movement.Steer | game/src/screen_gameplay.c:167-177 | the new x is the old x or one step of `150 * dt` to either side; with no key held it is unchanged |
| Movement.SteerLeft | game/src/screen_gameplay.c:167-171 | key A alone moves left exactly when the result is at least `LeftEdge` (12), otherwise x is unchanged |
| Movement.SteerRight | game/src/screen_gameplay.c:173-177 | key D alone moves right exactly when the result is at most the screen width, otherwise x is unchanged |
| Movement.SteerRejectsOvershoot | game/src/screen_gameplay.c:169-170 | a move that would overshoot the left edge is rejected, not clamped: x = 20 stays at 20 |
| Movement.SteerBothKeysLeftFirst | game/src/screen_gameplay.c:167-177 | with both keys held the A move is tried before the D move: at x = 12, dt = 0.1 the result is 27 |
| Movement.SteerAtLeftEdge | game/src/screen_gameplay.c:169-170 | holding key A at x = `LeftEdge` leaves the player at `LeftEdge` |
| Movement.SteerStaysInLane | game/src/screen_gameplay.c:167-177 | a player inside `[LeftEdge, width]` stays inside for any keys and non-negative frame time |
| Gameplay.GameplayScreen.constructor | game/src/screen_gameplay.c:43-54 | the static initial state is an empty pool of 640 slots, with player and cursor at the origin |
| Gameplay.GameplayScreen.Fire | game/src/screen_gameplay.c:145-158 | the pool becomes `Fired(old pool)`; the count rises by one below capacity and is unchanged at capacity; no slot other than the old count is written; the invariant is kept |
| Gameplay.GameplayScreen.DeleteBullet | game/src/screen_gameplay.c:109-118 | as written: index above the count changes nothing. Otherwise the count drops by one, slots below the index are unchanged and slots from the index on are shifted down. Below the count this is `Removed`. At the count, the last live bullet is discarded, and on an empty pool the count becomes -1 |
| Gameplay.GameplayScreen.StepBullet | game/src/screen_gameplay.c:124-140 | one loop iteration at live slot `b`: deleted exactly when the advanced bullet leaves. If deleted, the pool is `Removed` at `b`, otherwise slot `b` is committed and no other slot changes |
| Gameplay.GameplayScreen.UpdateBullets | game/src/screen_gameplay.c:120-143 | the new pool is `Frame(old pool)`, so the count never increases and the invariant is kept |
| Gameplay.GameplayScreen.Update | game/src/screen_gameplay.c:161-185 | the cursor becomes the mouse position. The player's x becomes `Steer(old x)` and y is unchanged, and x stays in the lane when it starts there and `dt` is non-negative. The pool becomes `Frame` of the pool after an optional `Fire` from the moved player towards the cursor |

## Left out

- Rendering is not modelled: `DrawCursor`, `DrawPlayer` with its gun-angle trigonometry, `DrawBullets`, `DrawGameplayScreen` and the text overlay. They only issue raylib draw calls.
- The raylib input and window queries (`GetFrameTime`, `GetMouseX/Y`, `IsKeyDown`, `IsMouseButtonPressed`, `GetScreenWidth/Height`) are parameters of `Update` and `UpdateBullets`.
- `atan2`, `cos` and `sin` are not modelled. They are the uninterpreted `heading` parameter, so the model does not say in which direction a bullet flies or that its distance from the origin grows.
- Trajectory.PointOnTrajectory: states only that distance 0 gives the origin, and the sign preprocessing through `TanX` and `TanY`, because the trigonometry is uninterpreted.
- Floating-point rounding is not modelled: the `float` and `double` values are `real`, and the `float`/`int` comparisons are exact.
- The 32-bit width of `bulletCounter` is not modelled, because with the pool invariant it stays in `[0, 640]`. Only the as-written deletion on an empty pool makes it negative, to -1.
- Gameplay.GameplayScreen.DeleteBullet: requires a non-negative index, because on a non-empty pool a negative index makes the source read and write before the array's start; on an empty pool index -1 only drops the count to -1. The only caller passes a live index.
- `InitGameplayScreen`, `UnloadGameplayScreen` and `FinishGameplayScreen` are screen-lifecycle plumbing and are not modelled. `InitGameplayScreen` does not reset `bulletCounter`.
- `framesCounter` and `finishScreen` are not modelled, because the update never changes them.
- `game/src/levels.h` is a constant tile table that the gameplay code does not include or query, so it is not part of this model.
- The body of the loop in `UpdateBullets` is factored out as `StepBullet`, with the same statements in the same order, so that each proof stays small.
