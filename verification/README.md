# brickochet — a verified model of the gameplay systems

brickochet is a 3D brick-breaker: a ball flies down a rectangular playfield
tunnel, bounces off its side walls, and is sent back by a paddle that the
player steers with the mouse. A swipe of the paddle in the 0.3 s after a hit
curves the ball. Goal walls at either end either relaunch the ball (the
player's goal) or take its curve off (the enemy's goal). A wall of bricks
stands in front of the enemy goal. Each brick starts with three points of
health, loses one per hit, is tinted by how much health is left, and is
despawned when the health reaches zero.

This project models the per-tick gameplay systems of the game in Dafny and
proves what they promise. Each module corresponds to one source file:

| module | source file |
|---|---|
| `Vectors`, `Components` | the value types: `Vec2`/`Vec3` over reals, clamp, the components and messages |
| `PhysicsMath` | `src/physics/math.rs` |
| `PhysicsSystems` | `src/physics/systems.rs` |
| `LegacyPhysicsSystems` | `src/systems/physics.rs` |
| `BallSystems` | `src/ball/systems.rs` |
| `LegacyBallSystems` | `src/systems/ball.rs` |
| `PaddleSystems` | `src/paddle/systems.rs` |
| `GameplayPlayfieldSystems` | `src/gameplay/playfield/systems.rs` |
| `PlayfieldSystems` | `src/playfield/systems.rs` |
| `BrickSystems` | `src/gameplay/brick/systems.rs` |
| `HealthSystems` | `src/health/systems.rs` |

Conventions:

- Positions, velocities, curves and times are reals. `Time` is a parameter
  (`dt`, `now`).
- An ECS query is a `map` from each matching entity to its components.
- A message reader is the `seq` of the messages it reads, in order. A
  message writer is the `seq` the system returns.
- A system that writes components in place is a method. It loops as the
  source does and returns the new values of the components it may write.
  Components it only reads are inputs.
- Each method is specified against a function or predicate of its inputs,
  and the lemmas beside it state what that function guarantees.
- Colours are represented by the mix factor `t` that picks them.

Notes on the code:

- `apply_curve` adds the curve to the velocity once per tick, with no `dt`
  scaling.
- `sphere_aabb_normal` is the offset of the centre from the clamped point,
  normalised.
- The collision detection and resolution systems that `src/physics/mod.rs`
  schedules are not in the source files. Neither are the paddle impact,
  initialise and finalise systems.
- The gesture window is 0.3 s. A comment beside it says 30 ms.

## Model

| member | source | states |
|---|---|---|
| PhysicsMath.ClosestPoint | src/physics/math.rs:9-12 | the clamped point lies inside the box on every axis, and is the centre itself when the centre is in the box |
| PhysicsMath.ClosestPointIsNearest | src/physics/math.rs:9-12 | no point of the box is nearer the sphere centre than the clamped point |
| PhysicsMath.SphereAabbIntersects | src/physics/math.rs:3-15 | the test succeeds exactly when some point of the box lies within the radius of the sphere centre |
| PhysicsMath.CentreInsideIntersects | src/physics/tests/test_math.rs:32-41 | a sphere whose centre is inside or on the box intersects it, whatever its radius |
| PhysicsMath.BeyondFaceMisses | src/physics/tests/test_math.rs:42-51 | a sphere whose centre lies more than its radius beyond a face of the box does not intersect it |
| PhysicsMath.SphereAabbNormalDirection | src/physics/math.rs:17-26 | the delta-clamp computation equals centre minus closest point; on each axis the direction is positive exactly when the centre is past the upper face and negative exactly when it is past the lower face, and zero otherwise |
| PhysicsMath.InsideGivesZeroNormal | src/physics/math.rs:22-26 | a centre inside the box gives the zero direction |
| PhysicsMath.FaceAlignedNormal | src/physics/tests/test_math.rs:90-119 | a centre displaced beyond one face along one axis gives a direction along that axis only, with the displacement's sign |
| PhysicsSystems.ApplyVelocity | src/physics/systems.rs:4-11 | every entity with Transform and Velocity moves by velocity times dt; other transforms and all velocities are unchanged; zero velocity leaves the position as it was |
| PhysicsSystems.ApplyCurve | src/physics/systems.rs:13-23 | every entity with Velocity and Curve gets curve x and y added to velocity x and y, with no dt; velocity z, the curves and other entities are unchanged |
| PhysicsSystems.IntegrationSplits | src/physics/systems.rs:8-10 | two steps of dt1 and dt2 move a body as one step of dt1 + dt2, and a zero velocity does not move it in a tick |
| LegacyPhysicsSystems.ApplyVelocity | src/systems/physics.rs:4-11 | the same integration step as the newer system |
| LegacyPhysicsSystems.ApplyCurve | src/systems/physics.rs:13-20 | the same curve step as the newer system |
| BallSystems.ReflectBall | src/ball/systems.rs:4-48 | side walls clamp the centre to the wall minus the radius and negate that velocity component, the positive wall taking precedence; past the near wall the ball is relaunched from the origin at the default velocity with no curve, overriding the side corrections; past the far wall z is clamped, z velocity negated and the curve cleared; side hits keep the curve; a ball strictly inside is unchanged; afterwards the sphere lies within the side walls whenever it fits between them |
| LegacyBallSystems.MoveBall | src/systems/ball.rs:5-11 | the ball moves by velocity times dt |
| LegacyBallSystems.ReflectBall | src/systems/ball.rs:13-48 | at most one axis is corrected, the first of +x, -x, +y, -y, -z found outside; the coordinate is set onto the wall itself and only that velocity component is negated; there is no +z check, so a ball inside the other bounds is untouched |
| PaddleSystems.PaddleMouseControl | src/paddle/systems.rs:5-34 | the mouse deltas are summed; a zero sum changes nothing; otherwise x and y are clamped into the playfield less the paddle's half size, x following the mouse and y inverted, with z unchanged |
| PaddleSystems.PaddleBallCollision | src/paddle/systems.rs:38-93 | unless all four contact conditions hold nothing changes; on contact z velocity becomes negative and one unit faster, x and y velocity are kept, and the record is armed with the paddle's xy and the current time, its delta kept |
| PaddleSystems.RecordPaddleMotion | src/paddle/systems.rs:95-111 | once the 0.3 s window has elapsed on an armed record, its delta is the paddle's motion since the contact and the record stops waiting (Idle if the paddle did not move, Resolved otherwise); otherwise the record is unchanged |
| PaddleSystems.CurveFor | src/paddle/systems.rs:113-141 | curve is opposite in sign to the swipe, zero under 5 units, 0.02 from 5 units and 0.05 from 10 units |
| PaddleSystems.CurveForIsOdd | src/paddle/systems.rs:127-141 | mirrored swipes give mirrored curve |
| PaddleSystems.CurveForIsAntitone | src/paddle/systems.rs:127-141 | a swipe further in one direction never gives less curve the other way |
| PaddleSystems.ApplyCurveFromMotionRecord | src/paddle/systems.rs:118-144 | a Resolved record sets (does not add to) the ball's curve from its delta per axis and zeroes the delta; otherwise nothing changes; the record is never left Resolved, so a second call is a no-op |
| GameplayPlayfieldSystems.HighlightFactor | src/gameplay/playfield/systems.rs:18-24 | the factor lies in [0, 1]; it is 1 within 4r - 1 of the ball in depth and 0 from 4r away |
| GameplayPlayfieldSystems.NearerLineIsBrighter | src/gameplay/playfield/systems.rs:22-24 | a line nearer to the ball in depth is lit at least as strongly |
| GameplayPlayfieldSystems.HighlightDepthLines | src/gameplay/playfield/systems.rs:7-33 | exactly one message per depth line, in order, with no base colour and the line's highlight factor as emissive |
| GameplayPlayfieldSystems.AfterGoalsStep | src/gameplay/playfield/systems.rs:48-67 | handling one more message moves the order-independent closed form exactly as the message's effect would |
| GameplayPlayfieldSystems.HandleWallCollision | src/gameplay/playfield/systems.rs:35-69 | every ball ends relaunched if some message had it touch a Player goal, else with its curve cleared if it touched an Enemy goal, else unchanged; messages whose a is not a ball or whose b is not a goal are skipped |
| GameplayPlayfieldSystems.SingleContact | src/gameplay/playfield/tests/test_systems.rs:95-130 | one Player contact relaunches the ball from the origin at its base velocity with no curve; one Enemy contact only clears the curve; a non-goal contact changes nothing |
| PlayfieldSystems.WallCollisionHandler | src/playfield/systems.rs:36-70 | the same goal handling as the newer system |
| PlayfieldSystems.HighlightDepthLines | src/playfield/systems.rs:4-34 | every line ends showing its highlight factor as emissive, its base colour untouched; exactly the lines not already showing it are written |
| BrickSystems.FirstEnemyGoal | src/gameplay/brick/systems.rs:16-19 | the wall is laid against the first Enemy goal in query order |
| BrickSystems.Columns | src/gameplay/brick/systems.rs:22-30 | the number of whole 4-unit bricks that fit across the goal: at most the width, and one more would not fit |
| BrickSystems.Rows | src/gameplay/brick/systems.rs:23-31 | the number of whole 2-unit bricks that fit up the goal: at most the height, and one more would not fit |
| BrickSystems.CellInGrid | src/gameplay/brick/systems.rs:37-40 | every brick index lands in a cell of the grid |
| BrickSystems.CellInjective | src/gameplay/brick/systems.rs:39-40 | no two brick indices share a cell |
| BrickSystems.CellOnto | src/gameplay/brick/systems.rs:37-40 | every cell of the grid gets a brick |
| BrickSystems.SpawnBrick | src/gameplay/brick/systems.rs:92-101 | the brick's box spans from its corner to corner plus size in x and y, at the corner's depth, with three of three health |
| BrickSystems.CellBrickWithinGoal | src/gameplay/brick/systems.rs:34-46 | the brick of any cell lies within the goal's face and at its depth |
| BrickSystems.CellBricksDisjoint | src/gameplay/brick/systems.rs:42-46 | bricks of different cells do not overlap |
| BrickSystems.LaidOutCell | src/gameplay/brick/systems.rs:37-46 | in a laid-out wall, cell (x, y) holds brick y * columns + x |
| BrickSystems.LaidOutWithinGoal | src/gameplay/brick/systems.rs:37-46 | every brick of a laid-out wall has full health and half the brick size as its box, and lies within the goal's face |
| BrickSystems.LaidOutDisjoint | src/gameplay/brick/systems.rs:37-46 | no two bricks of a laid-out wall overlap |
| BrickSystems.SpawnBrickWall | src/gameplay/brick/systems.rs:6-58 | exactly columns times rows bricks, brick k placed in cell (k mod columns, k div columns) of the grid centred on the first Enemy goal |
| BrickSystems.BrickHitsAppend | src/gameplay/brick/systems.rs:127-132 | each collision message contributes its own health message, in order, independent of the others |
| BrickSystems.BrickHitsDamageBricks | src/gameplay/brick/systems.rs:127-132 | at most one health message per collision, and every one takes one point from a brick with health |
| BrickSystems.HandleCollision | src/gameplay/brick/systems.rs:116-133 | one -1 health message per collision whose b is a brick with health, in message order, nothing for the others |
| BrickSystems.HealthColorFactor | src/gameplay/brick/systems.rs:150 | the tint factor lies in [0, 1], is 1 at full health and 0 at one point |
| BrickSystems.HealthColorFactorMonotone | src/gameplay/brick/systems.rs:150 | more health never gives a smaller tint factor |
| BrickSystems.TintMessagesNameLivingBricks | src/gameplay/brick/systems.rs:145-159 | every colour message names a brick with non-zero health and carries only a base colour factor in [0, 1] |
| BrickSystems.UpdateHealthColor | src/gameplay/brick/systems.rs:135-161 | one base-colour message per health message naming a brick, skipping bricks at zero health, in message order |
| HealthSystems.NextCurrent | src/health/systems.rs:12-14 | the new health is current + delta when that is within [0, max], 0 below and max above |
| HealthSystems.HealingNeverHurts | src/health/systems.rs:12-14 | a positive delta never lowers health and a negative one never raises it |
| HealthSystems.WrapI16 | src/health/systems.rs:13 | the i16 sum as a release build computes it: unchanged in range, congruent modulo 65536 |
| HealthSystems.WrappingNextCurrent | src/health/systems.rs:12-13 | the update as written stays in [0, max] and agrees with the corrected update whenever the i16 sum does not overflow |
| HealthSystems.WrappingHealKills | src/health/systems.rs:12-13 | a heal of 32767 on a 10-of-10 entity leaves 0 as written and 10 when corrected |
| HealthSystems.Apply | src/health/systems.rs:10-20 | a message naming an entity without Health changes nothing; otherwise only that entity changes, and a death for it is appended exactly when its health is now 0 |
| HealthSystems.ProcessKeepsBounds | src/health/systems.rs:12-14 | no message changes a maximum, and every current stays within it |
| HealthSystems.ProcessLeavesOthers | src/health/systems.rs:11 | an entity no message names keeps its health |
| HealthSystems.DeathsAreNamed | src/health/systems.rs:15-19 | every death announced is of an entity with Health that some message named |
| HealthSystems.ZeroHealthIsAnnounced | src/health/systems.rs:15-19 | an entity some message named that ends at zero health has its death announced |
| HealthSystems.RepeatedHitsKill | src/health/tests/test_systems.rs:21-65 | n one-point hits leave current - n health, never below zero, and announce a death once they reach zero |
| HealthSystems.HandleHealthChanged | src/health/systems.rs:5-22 | the messages are applied one after another, in order |
| HealthSystems.HandleDeath | src/health/systems.rs:24-31 | exactly the entities named by a death message are despawned; all others remain |

## Left out

- Bevy scheduling, `Commands`, `Single`, `Res`, and the cursors of message readers and writers. Queries are maps and messages are sequences.
- f32 arithmetic. Reals have no rounding, no infinities and no NaN.
- The clamp panics when the lower bound exceeds the upper one. `f32::clamp` and `Ord::clamp` panic in every build; glam's `Vec3::clamp` panics only with its assert feature. These panics become preconditions, as in `PaddleSystems.PaddleMouseControl`.
- `normalize_or_zero` (a square root). `PhysicsMath.SphereAabbNormalDirection` is the direction before normalisation.
- Colour mixing (`LinearRgba::mix`), meshes, materials, the brick border child and the rendering systems. A colour is represented by its mix factor.
- PlayfieldSystems.HighlightDepthLines: compares mix factors, where the source compares the mixed colours. The two agree because the default and highlight line colours differ, which makes the mix one-to-one.
- BrickSystems.HealthColorFactor: requires `max > 1`. With `max == 1` the source divides zero by zero and produces NaN.
- BrickSystems.SpawnBrickWall: requires an Enemy goal, because the source panics (`expect`) without one.
- BrickSystems.SpawnBrickWall: requires non-negative x and y extents of the first Enemy goal, the one the wall is laid against. With negative extents the source's `as i32` counts would be negative.
- BrickSystems.SpawnBrickWall: the saturation of the `f32 as i32` cast and the `i32` product `bricks_x * bricks_y` are not modelled. Counts are unbounded.
- HealthSystems.HandleHealthChanged: applies the corrected, unbounded sum of `current` and `delta` (see Findings).
- HealthSystems.HandleHealthChanged: a debug build panics on `i16` overflow instead of wrapping. Neither behaviour is kept.
- HealthSystems.HandleDeath: models despawn as removal from the set of live entities. Recursive despawn of child entities, and despawning an entity twice, are not modelled.
- Systems whose behaviour the source files do not contain are not modelled: collision detection and resolution, and the paddle impact, initialise and finalise systems.
- Input, camera, menu, scene building and brick asset loading.
- The unfinished `src/brick/systems.rs`.

## Findings

| source | as written | input that shows it | evidently intended | confidence | as-written member | corrected member |
|---|---|---|---|---|---|---|
| src/health/systems.rs:13 | `health.current as i16 + message.delta` is an `i16` addition. A release build wraps it into a negative number, and the clamp then sends that to 0. | A heal: health 10 of 10 and delta 32767. The sum wraps to -32759, the entity ends at 0 health and a death message is written. | Clamp the true sum into `0..=max`, so healing never lowers health. | medium; not executed | HealthSystems.WrappingHealKills | HealthSystems.HealingNeverHurts |
