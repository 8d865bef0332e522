/** `src/systems/physics.rs`, the first generation of the force and
    integration systems: the same loops as `src/physics/systems.rs` over the
    older `components::physics` Velocity and Curve, so they share their
    specification with that module. */
module LegacyPhysicsSystems {
  import opened Vectors
  import opened Components
  import PhysicsSystems

  method ApplyVelocity(translations: map<Entity, Vec3>, velocities: map<Entity, Vec3>, dt: real)
    returns (moved: map<Entity, Vec3>)
    ensures PhysicsSystems.Integrated(translations, velocities, dt, moved)
  {
    moved := PhysicsSystems.ApplyVelocity(translations, velocities, dt);
  }

  method ApplyCurve(velocities: map<Entity, Vec3>, curves: map<Entity, Vec2>)
    returns (curved: map<Entity, Vec3>)
    ensures PhysicsSystems.Curved(velocities, curves, curved)
  {
    curved := PhysicsSystems.ApplyCurve(velocities, curves);
  }
}
