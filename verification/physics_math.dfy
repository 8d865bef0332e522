/** Sphere-versus-box geometry of `src/physics/math.rs`: the closest point of
    an axis-aligned box to a point, the intersection test built on it, and the
    unnormalised contact direction. */
module PhysicsMath {
  import opened Vectors

  /** Half extents of a box; `Vec3::clamp` demands `box - half <= box + half`. */
  predicate NonNegative(half: Vec3) {
    half.x >= 0.0 && half.y >= 0.0 && half.z >= 0.0
  }

  /** `q` lies in the closed box centred at `c` with half extents `half`. */
  predicate InBox(q: Vec3, c: Vec3, half: Vec3) {
    && c.x - half.x <= q.x <= c.x + half.x
    && c.y - half.y <= q.y <= c.y + half.y
    && c.z - half.z <= q.z <= c.z + half.z
  }

  function DistanceSquared(a: Vec3, b: Vec3): real {
    (a.x - b.x) * (a.x - b.x) + (a.y - b.y) * (a.y - b.y) + (a.z - b.z) * (a.z - b.z)
  }

  /** The point of the box nearest to `p`: `p` clamped into the box. */
  function ClosestPoint(p: Vec3, c: Vec3, half: Vec3): (q: Vec3)
    requires NonNegative(half)
    ensures InBox(q, c, half)
    ensures InBox(p, c, half) ==> q == p
  {
    Vec3(Clamp(p.x, c.x - half.x, c.x + half.x),
         Clamp(p.y, c.y - half.y, c.y + half.y),
         Clamp(p.z, c.z - half.z, c.z + half.z))
  }

  lemma SquareAtMost(a: real, b: real)
    requires 0.0 <= a <= b
    ensures a * a <= b * b
  {
    assert a * a <= a * b;
    assert a * b <= b * b;
  }

  /** On one axis, the clamped coordinate is at least as near to `x` as any
      coordinate `y` of the interval. */
  lemma ClampIsNearest(x: real, lo: real, hi: real, y: real)
    requires lo <= y <= hi
    ensures (x - Clamp(x, lo, hi)) * (x - Clamp(x, lo, hi)) <= (x - y) * (x - y)
  {
    var k := Clamp(x, lo, hi);
    if x < lo {
      SquareAtMost(k - x, y - x);
      assert (k - x) * (k - x) == (x - k) * (x - k);
      assert (y - x) * (y - x) == (x - y) * (x - y);
    } else if x > hi {
      SquareAtMost(x - k, x - y);
    } else {
      assert k == x;
      SquareAtMost(0.0, Abs(x - y));
      assert Abs(x - y) * Abs(x - y) == (x - y) * (x - y);
    }
  }

  lemma {:induction false} ClosestPointIsNearest(p: Vec3, c: Vec3, half: Vec3, q: Vec3)
    requires NonNegative(half) && InBox(q, c, half)
    ensures DistanceSquared(p, ClosestPoint(p, c, half)) <= DistanceSquared(p, q)
  {
    ClampIsNearest(p.x, c.x - half.x, c.x + half.x, q.x);
    ClampIsNearest(p.y, c.y - half.y, c.y + half.y, q.y);
    ClampIsNearest(p.z, c.z - half.z, c.z + half.z, q.z);
  }

  /** `sphere_aabb_intersects`: the sphere touches the box exactly when some
      point of the box lies within the radius of the centre. */
  function SphereAabbIntersects(p: Vec3, radius: real, c: Vec3, half: Vec3): (hit: bool)
    requires NonNegative(half)
    ensures hit <==> exists q :: InBox(q, c, half) && DistanceSquared(p, q) <= radius * radius
  {
    var closest := ClosestPoint(p, c, half);
    assert forall q :: InBox(q, c, half) ==> DistanceSquared(p, closest) <= DistanceSquared(p, q) by {
      forall q | InBox(q, c, half) {
        ClosestPointIsNearest(p, c, half, q);
      }
    }
    DistanceSquared(p, closest) <= radius * radius
  }

  /** A sphere whose centre is in (or on) the box intersects it, whatever its radius. */
  lemma CentreInsideIntersects(p: Vec3, radius: real, c: Vec3, half: Vec3)
    requires NonNegative(half) && InBox(p, c, half)
    ensures SphereAabbIntersects(p, radius, c, half)
  {
    assert DistanceSquared(p, p) == 0.0;
    assert radius * radius >= 0.0;
  }

  lemma SquareExceeds(a: real, r: real)
    requires 0.0 <= r < a
    ensures r * r < a * a
  {
    assert (a - r) * a > 0.0;
    assert (a - r) * r >= 0.0;
    assert a * a - r * r == (a - r) * a + (a - r) * r;
  }

  /** The squared gap on one axis, `s` the coordinate and `k` its clamp. */
  lemma GapExceeds(s: real, k: real, radius: real)
    requires radius >= 0.0 && (s - k > radius || k - s > radius)
    ensures (s - k) * (s - k) > radius * radius
  {
    if s - k > radius {
      SquareExceeds(s - k, radius);
    } else {
      SquareExceeds(k - s, radius);
      assert (k - s) * (k - s) == (s - k) * (s - k);
    }
  }

  /** A sphere whose centre is more than `radius` beyond a face of the box
      misses it. */
  lemma {:induction false} BeyondFaceMisses(p: Vec3, radius: real, c: Vec3, half: Vec3)
    requires NonNegative(half) && radius >= 0.0
    requires || p.x > c.x + half.x + radius || p.x < c.x - half.x - radius
             || p.y > c.y + half.y + radius || p.y < c.y - half.y - radius
             || p.z > c.z + half.z + radius || p.z < c.z - half.z - radius
    ensures !SphereAabbIntersects(p, radius, c, half)
  {
    var k := ClosestPoint(p, c, half);
    var dx, dy, dz := p.x - k.x, p.y - k.y, p.z - k.z;
    assert dx * dx >= 0.0 && dy * dy >= 0.0 && dz * dz >= 0.0;
    if p.x > c.x + half.x + radius || p.x < c.x - half.x - radius {
      GapExceeds(p.x, k.x, radius);
    } else if p.y > c.y + half.y + radius || p.y < c.y - half.y - radius {
      GapExceeds(p.y, k.y, radius);
    } else {
      GapExceeds(p.z, k.z, radius);
    }
    assert DistanceSquared(p, k) > radius * radius;
  }

  /** `sphere_aabb_normal` before `normalize_or_zero`: the offset of the centre
      from the box point nearest to it, computed by clamping the centre's
      offset from the box centre into `[-half, half]`. */
  function SphereAabbNormalDirection(p: Vec3, c: Vec3, half: Vec3): (n: Vec3)
    requires NonNegative(half)
    ensures n == Sub3(p, ClosestPoint(p, c, half))
    ensures n.x > 0.0 <==> p.x > c.x + half.x
    ensures n.x < 0.0 <==> p.x < c.x - half.x
    ensures n.y > 0.0 <==> p.y > c.y + half.y
    ensures n.y < 0.0 <==> p.y < c.y - half.y
    ensures n.z > 0.0 <==> p.z > c.z + half.z
    ensures n.z < 0.0 <==> p.z < c.z - half.z
  {
    var delta := Sub3(p, c);
    var clamped := Vec3(Clamp(delta.x, -half.x, half.x),
                        Clamp(delta.y, -half.y, half.y),
                        Clamp(delta.z, -half.z, half.z));
    var closest := Add3(c, clamped);
    Sub3(p, closest)
  }

  /** A centre inside the box gives the zero direction (normalised to zero). */
  lemma InsideGivesZeroNormal(p: Vec3, c: Vec3, half: Vec3)
    requires NonNegative(half) && InBox(p, c, half)
    ensures SphereAabbNormalDirection(p, c, half) == Zero3
  {
  }

  /** A centre displaced from the box centre along one axis only, beyond that
      face, gives a direction along that axis alone, with the displacement's
      sign: +X, -Y and +Z for the face-aligned cases. */
  lemma FaceAlignedNormal(c: Vec3, half: Vec3, d: real)
    requires NonNegative(half)
    ensures Abs(d) > half.x ==>
      var n := SphereAabbNormalDirection(Vec3(c.x + d, c.y, c.z), c, half);
      n.y == 0.0 && n.z == 0.0 && (n.x > 0.0 <==> d > 0.0) && n.x != 0.0
    ensures Abs(d) > half.y ==>
      var n := SphereAabbNormalDirection(Vec3(c.x, c.y + d, c.z), c, half);
      n.x == 0.0 && n.z == 0.0 && (n.y > 0.0 <==> d > 0.0) && n.y != 0.0
    ensures Abs(d) > half.z ==>
      var n := SphereAabbNormalDirection(Vec3(c.x, c.y, c.z + d), c, half);
      n.x == 0.0 && n.y == 0.0 && (n.z > 0.0 <==> d > 0.0) && n.z != 0.0
  {
  }
}
