/** Data shapes shared by the systems: entity ids, the message records, the
    components several systems read, and the ball and playfield constants. */
module Components {
  import opened Vectors

  /** A Bevy `Entity`, reduced to an opaque id. */
  type Entity = nat

  type U8 = x: int | 0 <= x < 256

  type I16 = x: int | -32768 <= x < 32768

  datatype Option<T> = None | Some(value: T)

  /** `physics::messages::CollisionMessage`: `a` is the moving sphere, `b` the box. */
  datatype CollisionMessage = CollisionMessage(
    a: Entity, b: Entity, normal: Vec3, contactPoint: Vec3, penetration: real)

  /** `health::messages::HealChangedMessage`. */
  datatype HealthChanged = HealthChanged(entity: Entity, delta: I16)

  /** `health::messages::DeathMessage`. */
  datatype Death = Death(entity: Entity)

  /** `rendering::messages::MaterialColorsChangedMessage`. A colour is given by
      its mix factor between the two colours the emitting system blends. */
  datatype MaterialColorsChanged = MaterialColorsChanged(
    entity: Entity, baseColor: Option<real>, emissive: Option<real>)

  /** `health::components::Health`. */
  datatype Health = Health(max: U8, current: U8)

  /** `playfield::components::Goal`. */
  datatype Goal = Player | Enemy

  /** The playfield half extents read by the ball and paddle systems. */
  datatype Playfield = Playfield(halfWidth: real, halfHeight: real, halfDepth: real)

  /** `ball::components::RADIUS`. */
  const BallRadius: real := 0.75

  /** `ball::components::DEFAULT_VELOCITY`. */
  const DefaultVelocity: Vec3 := Vec3(0.0, 0.0, 25.0)
}
