/** The force and integration systems of `src/physics/systems.rs`. A query is
    a map from each matching entity to its component; the loop over the query
    updates the entities one at a time, in no particular order. Components the
    system only reads (`&Velocity`, `&Curve`) are inputs and cannot change. */
module PhysicsSystems {
  import opened Vectors
  import opened Components

  /** Every entity with both a Transform and a Velocity moved by `v * dt`;
      every other Transform is as it was. */
  ghost predicate Integrated(before: map<Entity, Vec3>, velocities: map<Entity, Vec3>,
                             dt: real, after: map<Entity, Vec3>)
  {
    && after.Keys == before.Keys
    && (forall e :: e in before && e in velocities ==>
          after[e] == Add3(before[e], Scale3(velocities[e], dt)))
    && (forall e :: e in before && e !in velocities ==> after[e] == before[e])
  }

  /** Every entity with both a Velocity and a Curve had the curve added to the
      x and y of its velocity, with no `dt` scaling; z and the other entities
      are as they were. */
  ghost predicate Curved(before: map<Entity, Vec3>, curves: map<Entity, Vec2>,
                         after: map<Entity, Vec3>)
  {
    && after.Keys == before.Keys
    && (forall e :: e in before && e in curves ==>
          after[e] == Vec3(before[e].x + curves[e].x, before[e].y + curves[e].y, before[e].z))
    && (forall e :: e in before && e !in curves ==> after[e] == before[e])
  }

  /** `apply_velocity`: `translation += velocity * dt` over the
      (Transform, Velocity) query. */
  method ApplyVelocity(translations: map<Entity, Vec3>, velocities: map<Entity, Vec3>, dt: real)
    returns (moved: map<Entity, Vec3>)
    ensures Integrated(translations, velocities, dt, moved)
    ensures forall e :: e in translations && e in velocities && velocities[e] == Zero3 ==>
              moved[e] == translations[e]
  {
    moved := translations;
    var todo := translations.Keys * velocities.Keys;
    while todo != {}
      invariant todo <= translations.Keys * velocities.Keys
      invariant moved.Keys == translations.Keys
      invariant forall e :: e in translations && e in velocities && e !in todo ==>
                  moved[e] == Add3(translations[e], Scale3(velocities[e], dt))
      invariant forall e :: e in translations && (e !in velocities || e in todo) ==>
                  moved[e] == translations[e]
      decreases todo
    {
      var e :| e in todo;
      moved := moved[e := Add3(moved[e], Scale3(velocities[e], dt))];
      todo := todo - {e};
    }
  }

  /** `apply_curve`: `velocity.x += curve.x; velocity.y += curve.y` over the
      (Velocity, Curve) query. */
  method ApplyCurve(velocities: map<Entity, Vec3>, curves: map<Entity, Vec2>)
    returns (curved: map<Entity, Vec3>)
    ensures Curved(velocities, curves, curved)
  {
    curved := velocities;
    var todo := velocities.Keys * curves.Keys;
    while todo != {}
      invariant todo <= velocities.Keys * curves.Keys
      invariant curved.Keys == velocities.Keys
      invariant forall e :: e in velocities && e in curves && e !in todo ==>
                  curved[e] == Vec3(velocities[e].x + curves[e].x, velocities[e].y + curves[e].y, velocities[e].z)
      invariant forall e :: e in velocities && (e !in curves || e in todo) ==>
                  curved[e] == velocities[e]
      decreases todo
    {
      var e :| e in todo;
      var v := curved[e];
      curved := curved[e := Vec3(v.x + curves[e].x, v.y + curves[e].y, v.z)];
      todo := todo - {e};
    }
  }

  /** Two ticks of `dt1` and `dt2` move a body as one tick of `dt1 + dt2`,
      and a body with zero velocity does not move in a tick. */
  lemma IntegrationSplits(p: Vec3, v: Vec3, dt1: real, dt2: real)
    ensures Add3(Add3(p, Scale3(v, dt1)), Scale3(v, dt2)) == Add3(p, Scale3(v, dt1 + dt2))
    ensures Add3(p, Scale3(Zero3, dt1)) == p
  {
    assert v.x * dt1 + v.x * dt2 == v.x * (dt1 + dt2);
    assert v.y * dt1 + v.y * dt2 == v.y * (dt1 + dt2);
    assert v.z * dt1 + v.z * dt2 == v.z * (dt1 + dt2);
  }
}
