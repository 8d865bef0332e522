/** `src/gameplay/playfield/systems.rs`: the goal handler that reacts to the
    ball touching a goal wall, and the depth-line highlight. */
module GameplayPlayfieldSystems {
  import opened Vectors
  import opened Components

  /** The components of the ball query: `BallModifiers::base_velocity`,
      Transform translation, Velocity and Curve. */
  datatype BallBody = BallBody(baseVelocity: Vec3, translation: Vec3, velocity: Vec3, curve: Vec2)

  /** A depth line's entity and the z of its Transform. */
  datatype DepthLine = DepthLine(entity: Entity, z: real)

  // ---------------------------------------------------------------- highlight

  /** How strongly a depth line is lit: 1 within `4r - 1` of the ball in
      depth, 0 from `4r` (two diameters) away, linear in between. */
  function HighlightFactor(lineZ: real, ballZ: real, radius: real): (t: real)
    ensures 0.0 <= t <= 1.0
    ensures Abs(lineZ - ballZ) <= 4.0 * radius - 1.0 ==> t == 1.0
    ensures Abs(lineZ - ballZ) >= 4.0 * radius ==> t == 0.0
  {
    var maxDistance := 2.0 * radius * 2.0;
    var distance := Abs(lineZ - ballZ);
    Clamp(maxDistance - distance, 0.0, 1.0)
  }

  /** A line nearer to the ball in depth is lit at least as strongly. */
  lemma NearerLineIsBrighter(nearZ: real, farZ: real, ballZ: real, radius: real)
    requires Abs(nearZ - ballZ) <= Abs(farZ - ballZ)
    ensures HighlightFactor(farZ, ballZ, radius) <= HighlightFactor(nearZ, ballZ, radius)
  {
  }

  /** `highlight_depth_lines`: one message per depth line, in query order,
      carrying only an emissive colour. */
  method HighlightDepthLines(ballZ: real, radius: real, lines: seq<DepthLine>)
    returns (messages: seq<MaterialColorsChanged>)
    ensures |messages| == |lines|
    ensures forall i :: 0 <= i < |lines| ==>
      && messages[i].entity == lines[i].entity
      && messages[i].baseColor == None
      && messages[i].emissive == Some(HighlightFactor(lines[i].z, ballZ, radius))
  {
    messages := [];
    for i := 0 to |lines|
      invariant |messages| == i
      invariant forall k :: 0 <= k < i ==>
        messages[k] == MaterialColorsChanged(lines[k].entity, None, Some(HighlightFactor(lines[k].z, ballZ, radius)))
    {
      var t := HighlightFactor(lines[i].z, ballZ, radius);
      messages := messages + [MaterialColorsChanged(lines[i].entity, None, Some(t))];
    }
  }

  // --------------------------------------------------------------------- goals

  /** A Player goal relaunches the ball from the origin at its base velocity. */
  function Relaunch(b: BallBody): BallBody {
    b.(translation := Zero3, velocity := b.baseVelocity, curve := Zero2)
  }

  /** An Enemy goal only takes the curve off the ball. */
  function ClearCurve(b: BallBody): BallBody {
    b.(curve := Zero2)
  }

  /** Some message in `messages` has ball `e` touching a goal of kind `g`. */
  ghost predicate TouchedGoal(messages: seq<CollisionMessage>, goals: map<Entity, Goal>, e: Entity, g: Goal) {
    exists i :: 0 <= i < |messages| && messages[i].a == e && messages[i].b in goals && goals[messages[i].b] == g
  }

  /** The ball after all messages, in closed form: the effects commute, so it
      only matters whether some message hit a Player goal, or else an Enemy goal. */
  ghost function AfterGoals(b: BallBody, messages: seq<CollisionMessage>, goals: map<Entity, Goal>, e: Entity): BallBody {
    if TouchedGoal(messages, goals, e, Player) then Relaunch(b)
    else if TouchedGoal(messages, goals, e, Enemy) then ClearCurve(b)
    else b
  }

  /** One more message changes the closed form as handling it would. */
  lemma {:induction false} AfterGoalsStep(b: BallBody, messages: seq<CollisionMessage>, goals: map<Entity, Goal>,
                                          e: Entity, m: CollisionMessage)
    ensures var before := AfterGoals(b, messages, goals, e);
      AfterGoals(b, messages + [m], goals, e) ==
        if m.a == e && m.b in goals then
          (if goals[m.b] == Player then Relaunch(before) else ClearCurve(before))
        else before
  {
    var ms := messages + [m];
    forall g: Goal
      ensures TouchedGoal(ms, goals, e, g) <==>
        TouchedGoal(messages, goals, e, g) || (m.a == e && m.b in goals && goals[m.b] == g)
    {
      if TouchedGoal(ms, goals, e, g) {
        var i :| 0 <= i < |ms| && ms[i].a == e && ms[i].b in goals && goals[ms[i].b] == g;
        if i < |messages| {
          assert messages[i] == ms[i];
        }
      }
      if TouchedGoal(messages, goals, e, g) {
        var i :| 0 <= i < |messages| && messages[i].a == e && messages[i].b in goals && goals[messages[i].b] == g;
        assert ms[i] == messages[i];
      }
      if m.a == e && m.b in goals && goals[m.b] == g {
        assert ms[|messages|] == m;
      }
    }
  }

  /** `handle_wall_collision`: for each message whose `a` is a ball (with
      BallModifiers, Transform, Velocity, Curve and BoundingSphere) and whose
      `b` is a Goal with a BoundingCuboid, relaunch the ball (Player) or clear
      its curve (Enemy); skip every other message. */
  method HandleWallCollision(messages: seq<CollisionMessage>, balls: map<Entity, BallBody>,
                             goals: map<Entity, Goal>)
    returns (after: map<Entity, BallBody>)
    ensures after.Keys == balls.Keys
    ensures forall e :: e in balls ==> after[e] == AfterGoals(balls[e], messages, goals, e)
  {
    after := balls;
    for i := 0 to |messages|
      invariant after.Keys == balls.Keys
      invariant forall e :: e in balls ==> after[e] == AfterGoals(balls[e], messages[..i], goals, e)
    {
      var message := messages[i];
      forall e | e in balls
        ensures AfterGoals(balls[e], messages[..i + 1], goals, e) ==
          var before := AfterGoals(balls[e], messages[..i], goals, e);
          if message.a == e && message.b in goals then
            (if goals[message.b] == Player then Relaunch(before) else ClearCurve(before))
          else before
      {
        assert messages[..i + 1] == messages[..i] + [message];
        AfterGoalsStep(balls[e], messages[..i], goals, e, message);
      }
      if message.a in after && message.b in goals {
        var ball := after[message.a];
        match goals[message.b]
        case Player =>
          ball := ball.(translation := Zero3);
          ball := ball.(velocity := ball.baseVelocity);
          ball := ball.(curve := Zero2);
          after := after[message.a := ball];
        case Enemy =>
          ball := ball.(curve := Zero2);
          after := after[message.a := ball];
      }
    }
    assert messages[..|messages|] == messages;
  }

  /** What a single goal contact does to the ball it names. */
  lemma SingleContact(b: BallBody, m: CollisionMessage, goals: map<Entity, Goal>, e: Entity)
    requires m.a == e
    ensures m.b in goals && goals[m.b] == Player ==>
      AfterGoals(b, [m], goals, e) == BallBody(b.baseVelocity, Zero3, b.baseVelocity, Zero2)
    ensures m.b in goals && goals[m.b] == Enemy ==>
      var r := AfterGoals(b, [m], goals, e);
      r.translation == b.translation && r.velocity == b.velocity && r.curve == Zero2
    ensures m.b !in goals ==> AfterGoals(b, [m], goals, e) == b
  {
    assert [m][0] == m;
  }
}
