/** `reflect_ball` of `src/ball/systems.rs`: radius-aware side walls, a reset
    at the near (+z) wall and a curve clear at the far (-z) wall. */
module BallSystems {
  import opened Vectors
  import opened Components

  /** The ball's Transform translation, Velocity and Curve. */
  datatype Ball = Ball(translation: Vec3, velocity: Vec3, curve: Vec2)

  /** The ball that restarts play after passing the near wall. */
  const Relaunched: Ball := Ball(Zero3, DefaultVelocity, Zero2)

  predicate PastNearWall(pf: Playfield, b: Ball) {
    b.translation.z + BallRadius > pf.halfDepth
  }

  predicate PastFarWall(pf: Playfield, b: Ball) {
    b.translation.z - BallRadius < -pf.halfDepth
  }

  /** The whole sphere is strictly inside the playfield on every axis. */
  predicate StrictlyInside(pf: Playfield, b: Ball) {
    && -pf.halfWidth < b.translation.x - BallRadius && b.translation.x + BallRadius < pf.halfWidth
    && -pf.halfHeight < b.translation.y - BallRadius && b.translation.y + BallRadius < pf.halfHeight
    && -pf.halfDepth < b.translation.z - BallRadius && b.translation.z + BallRadius < pf.halfDepth
  }

  method ReflectBall(pf: Playfield, ball: Ball) returns (r: Ball)
    // The near wall overrides every other correction.
    ensures PastNearWall(pf, ball) ==> r == Relaunched
    // Far wall: pushed back inside, z velocity reversed, curve cleared.
    ensures !PastNearWall(pf, ball) && PastFarWall(pf, ball) ==>
      && r.translation.z == -pf.halfDepth + BallRadius
      && r.velocity.z == -ball.velocity.z && r.curve == Zero2
    // Neither depth wall: z and the curve are untouched (side hits keep the curve).
    ensures !PastNearWall(pf, ball) && !PastFarWall(pf, ball) ==>
      r.translation.z == ball.translation.z && r.velocity.z == ball.velocity.z && r.curve == ball.curve
    // x walls, the right wall taking precedence.
    ensures !PastNearWall(pf, ball) ==>
      if ball.translation.x + BallRadius > pf.halfWidth then
        r.translation.x == pf.halfWidth - BallRadius && r.velocity.x == -ball.velocity.x
      else if ball.translation.x - BallRadius < -pf.halfWidth then
        r.translation.x == -pf.halfWidth + BallRadius && r.velocity.x == -ball.velocity.x
      else
        r.translation.x == ball.translation.x && r.velocity.x == ball.velocity.x
    // y walls, the top wall taking precedence.
    ensures !PastNearWall(pf, ball) ==>
      if ball.translation.y + BallRadius > pf.halfHeight then
        r.translation.y == pf.halfHeight - BallRadius && r.velocity.y == -ball.velocity.y
      else if ball.translation.y - BallRadius < -pf.halfHeight then
        r.translation.y == -pf.halfHeight + BallRadius && r.velocity.y == -ball.velocity.y
      else
        r.translation.y == ball.translation.y && r.velocity.y == ball.velocity.y
    // A ball clear of every wall is left alone.
    ensures StrictlyInside(pf, ball) ==> r == ball
    // Afterwards the sphere is within the side walls, whenever it fits between them.
    ensures BallRadius <= pf.halfWidth ==> Abs(r.translation.x) + BallRadius <= pf.halfWidth
    ensures BallRadius <= pf.halfHeight ==> Abs(r.translation.y) + BallRadius <= pf.halfHeight
  {
    var t, v, c := ball.translation, ball.velocity, ball.curve;

    if t.x + BallRadius > pf.halfWidth {
      t := t.(x := pf.halfWidth - BallRadius);
      v := v.(x := v.x * -1.0);
    } else if t.x - BallRadius < -pf.halfWidth {
      t := t.(x := -pf.halfWidth + BallRadius);
      v := v.(x := v.x * -1.0);
    }

    if t.y + BallRadius > pf.halfHeight {
      t := t.(y := pf.halfHeight - BallRadius);
      v := v.(y := v.y * -1.0);
    } else if t.y - BallRadius < -pf.halfHeight {
      t := t.(y := -pf.halfHeight + BallRadius);
      v := v.(y := v.y * -1.0);
    }

    if t.z + BallRadius > pf.halfDepth {
      t := Zero3;
      v := DefaultVelocity;
      c := Zero2;
    } else if t.z - BallRadius < -pf.halfDepth {
      t := t.(z := -pf.halfDepth + BallRadius);
      v := v.(z := v.z * -1.0);
      c := Zero2;
    }

    r := Ball(t, v, c);
  }
}
