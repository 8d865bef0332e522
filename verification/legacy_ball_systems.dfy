/** `src/systems/ball.rs`, the first generation of the ball systems: a ball
    with no curve, walls that ignore the radius, at most one correction per
    call, and no near (+z) wall at all. */
module LegacyBallSystems {
  import opened Vectors
  import opened Components

  /** `move_ball`: the ball's translation after one tick. */
  method MoveBall(translation: Vec3, velocity: Vec3, dt: real) returns (moved: Vec3)
    ensures Sub3(moved, translation) == Scale3(velocity, dt)
  {
    moved := Add3(translation, Scale3(velocity, dt));
  }

  /** Whether the position or the velocity differs on each axis, counted. */
  function AxesChanged(t: Vec3, v: Vec3, t': Vec3, v': Vec3): nat {
    (if t'.x != t.x || v'.x != v.x then 1 else 0)
    + (if t'.y != t.y || v'.y != v.y then 1 else 0)
    + (if t'.z != t.z || v'.z != v.z then 1 else 0)
  }

  predicate Inside(pf: Playfield, t: Vec3) {
    && -pf.halfWidth <= t.x <= pf.halfWidth
    && -pf.halfHeight <= t.y <= pf.halfHeight
    && -pf.halfDepth <= t.z
  }

  /** `reflect_ball`: checks +x, -x, +y, -y, -z in that order and corrects the
      first axis found outside, onto the wall itself. */
  method ReflectBall(pf: Playfield, t: Vec3, v: Vec3) returns (t': Vec3, v': Vec3)
    ensures AxesChanged(t, v, t', v') <= 1
    ensures t.x > pf.halfWidth ==> t' == t.(x := pf.halfWidth) && v' == v.(x := -v.x)
    ensures !(t.x > pf.halfWidth) && t.x < -pf.halfWidth ==>
      t' == t.(x := -pf.halfWidth) && v' == v.(x := -v.x)
    ensures -pf.halfWidth <= t.x <= pf.halfWidth && t.y > pf.halfHeight ==>
      t' == t.(y := pf.halfHeight) && v' == v.(y := -v.y)
    ensures -pf.halfWidth <= t.x <= pf.halfWidth && !(t.y > pf.halfHeight) && t.y < -pf.halfHeight ==>
      t' == t.(y := -pf.halfHeight) && v' == v.(y := -v.y)
    ensures -pf.halfWidth <= t.x <= pf.halfWidth && -pf.halfHeight <= t.y <= pf.halfHeight
            && t.z < -pf.halfDepth ==>
      t' == t.(z := -pf.halfDepth) && v' == v.(z := -v.z)
    // No +z check: a ball inside the other bounds is untouched however far past +half_depth.
    ensures Inside(pf, t) ==> t' == t && v' == v
    // The corrected coordinate lands exactly on a wall.
    ensures t'.x != t.x ==> Abs(t'.x) == Abs(pf.halfWidth)
    ensures t'.y != t.y ==> Abs(t'.y) == Abs(pf.halfHeight)
    ensures t'.z != t.z ==> t'.z == -pf.halfDepth
  {
    t', v' := t, v;

    if t.x > pf.halfWidth {
      t' := t'.(x := pf.halfWidth);
      v' := v'.(x := v'.x * -1.0);
      return;
    }
    if t.x < -pf.halfWidth {
      t' := t'.(x := -pf.halfWidth);
      v' := v'.(x := v'.x * -1.0);
      return;
    }

    if t.y > pf.halfHeight {
      t' := t'.(y := pf.halfHeight);
      v' := v'.(y := v'.y * -1.0);
      return;
    }
    if t.y < -pf.halfHeight {
      t' := t'.(y := -pf.halfHeight);
      v' := v'.(y := v'.y * -1.0);
      return;
    }

    if t.z < -pf.halfDepth {
      t' := t'.(z := -pf.halfDepth);
      v' := v'.(z := v'.z * -1.0);
      return;
    }
  }
}
