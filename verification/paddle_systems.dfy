/** `src/paddle/systems.rs`: mouse-driven paddle movement, the paddle-ball
    contact, and the gesture record that turns the paddle's motion in the
    0.3 s after a contact into curve on the ball. */
module PaddleSystems {
  import opened Vectors
  import opened Components

  const Sensitivity: real := 0.025
  const ZSpeedIncrease: real := 1.0
  /** The gesture window; the comment beside it in the source says 30 ms, the code uses 0.3 s. */
  const MotionWindow: real := 0.3
  const RegularCurveScale: real := 0.02
  const SuperCurveScale: real := 0.05
  const SuperCurveDeltaThreshold: real := 10.0
  const RegularCurveDeltaThreshold: real := 5.0

  /** `paddle::components::PaddleSize`. */
  datatype PaddleSize = PaddleSize(halfWidth: real, halfHeight: real, contactDepth: real)

  /** `paddle::components::PaddleMotionRecord`. */
  datatype PaddleMotionRecord = PaddleMotionRecord(
    startPos: Vec2, startTime: real, delta: Vec2, pending: bool)

  /** The states of the gesture recogniser: Armed while the window runs,
      Resolved while a non-zero delta waits to become curve, Idle otherwise. */
  datatype GesturePhase = Idle | Armed | Resolved

  function Phase(r: PaddleMotionRecord): GesturePhase {
    if r.pending then Armed else if r.delta == Zero2 then Idle else Resolved
  }

  // ---------------------------------------------------------------- movement

  /** The sum of the mouse motion deltas read this frame, in reading order. */
  function SumDeltas(motions: seq<Vec2>): Vec2 {
    if motions == [] then Zero2
    else Add2(SumDeltas(motions[..|motions| - 1]), motions[|motions| - 1])
  }

  /** How far the paddle centre may move from the playfield centre. */
  function XLimit(size: PaddleSize, pf: Playfield): real { pf.halfWidth - size.halfWidth }
  function YLimit(size: PaddleSize, pf: Playfield): real { pf.halfHeight - size.halfHeight }

  /** `paddle_mouse_control`. The clamp panics when a limit is negative, which
      only matters once the summed motion is non-zero. */
  method PaddleMouseControl(motions: seq<Vec2>, translation: Vec3, size: PaddleSize, pf: Playfield)
    returns (moved: Vec3)
    requires SumDeltas(motions) != Zero2 ==> XLimit(size, pf) >= 0.0 && YLimit(size, pf) >= 0.0
    ensures SumDeltas(motions) == Zero2 ==> moved == translation
    ensures SumDeltas(motions) != Zero2 ==>
      var d := SumDeltas(motions);
      && moved.x == Clamp(translation.x + d.x * Sensitivity, -XLimit(size, pf), XLimit(size, pf))
      && moved.y == Clamp(translation.y - d.y * Sensitivity, -YLimit(size, pf), YLimit(size, pf))
      && moved.z == translation.z
    // After any motion the paddle is inside the playfield.
    ensures SumDeltas(motions) != Zero2 ==>
      Abs(moved.x) <= XLimit(size, pf) && Abs(moved.y) <= YLimit(size, pf)
    // From an in-bounds start, x follows the mouse and y is inverted.
    ensures Abs(translation.x) <= XLimit(size, pf) && SumDeltas(motions).x >= 0.0 ==>
      moved.x >= translation.x
    ensures Abs(translation.x) <= XLimit(size, pf) && SumDeltas(motions).x <= 0.0 ==>
      moved.x <= translation.x
    ensures Abs(translation.y) <= YLimit(size, pf) && SumDeltas(motions).y >= 0.0 ==>
      moved.y <= translation.y
    ensures Abs(translation.y) <= YLimit(size, pf) && SumDeltas(motions).y <= 0.0 ==>
      moved.y >= translation.y
  {
    var delta := Zero2;
    var i := 0;
    while i < |motions|
      invariant 0 <= i <= |motions|
      invariant delta == SumDeltas(motions[..i])
    {
      assert motions[..i + 1][..i] == motions[..i];
      delta := Add2(delta, motions[i]);
      i := i + 1;
    }
    assert motions[..i] == motions;

    if delta == Zero2 {
      moved := translation;
      return;
    }

    var newVelocity := Vec2(delta.x * Sensitivity, delta.y * Sensitivity);
    var xLimit := pf.halfWidth - size.halfWidth;
    var yLimit := pf.halfHeight - size.halfHeight;
    moved := translation.(x := Clamp(translation.x + newVelocity.x, -xLimit, xLimit));
    moved := moved.(y := Clamp(moved.y - newVelocity.y, -yLimit, yLimit));
  }

  // ----------------------------------------------------------------- contact

  /** The four contact conditions, in the order the source tests them. */
  predicate InContact(ballPos: Vec3, ballVel: Vec3, paddlePos: Vec3, size: PaddleSize) {
    && ballVel.z > 0.0
    && Abs(ballPos.x - paddlePos.x) <= size.halfWidth + BallRadius
    && Abs(ballPos.y - paddlePos.y) <= size.halfHeight + BallRadius
    && paddlePos.z - size.contactDepth - BallRadius <= ballPos.z <= paddlePos.z + size.contactDepth + BallRadius
  }

  /** `paddle_ball_collision`: on contact, send the ball back faster along z
      and arm the gesture record with the paddle's position and the time. */
  method PaddleBallCollision(ballPos: Vec3, ballVel: Vec3, paddlePos: Vec3, size: PaddleSize,
                             record: PaddleMotionRecord, now: real)
    returns (vel: Vec3, rec: PaddleMotionRecord)
    ensures !InContact(ballPos, ballVel, paddlePos, size) ==> vel == ballVel && rec == record
    ensures InContact(ballPos, ballVel, paddlePos, size) ==>
      && vel.x == ballVel.x && vel.y == ballVel.y
      && vel.z < 0.0 && Abs(vel.z) == Abs(ballVel.z) + ZSpeedIncrease
      && rec.startPos == XY(paddlePos) && rec.startTime == now && rec.delta == record.delta
      && Phase(rec) == Armed
  {
    vel, rec := ballVel, record;
    var p, b := paddlePos, ballPos;

    if ballVel.z <= 0.0 {
      return;
    }
    if Abs(b.x - p.x) > size.halfWidth + BallRadius {
      return;
    }
    if Abs(b.y - p.y) > size.halfHeight + BallRadius {
      return;
    }
    var zMin := p.z - size.contactDepth - BallRadius;
    var zMax := p.z + size.contactDepth + BallRadius;
    if b.z < zMin || b.z > zMax {
      return;
    }

    vel := vel.(z := -ballVel.z - ZSpeedIncrease);
    rec := rec.(startPos := Vec2(paddlePos.x, paddlePos.y));
    rec := rec.(startTime := now);
    rec := rec.(pending := true);
  }

  /** `record_paddle_motion`: once the window has elapsed, store how far the
      paddle moved since the contact and stop waiting. */
  method RecordPaddleMotion(record: PaddleMotionRecord, paddlePos: Vec3, now: real)
    returns (rec: PaddleMotionRecord)
    ensures record.pending && now - record.startTime >= MotionWindow ==>
      && !rec.pending && rec.startPos == record.startPos && rec.startTime == record.startTime
      && Add2(rec.startPos, rec.delta) == XY(paddlePos)
      && Phase(rec) == (if XY(paddlePos) == record.startPos then Idle else Resolved)
    ensures !(record.pending && now - record.startTime >= MotionWindow) ==> rec == record
  {
    rec := record;
    if rec.pending {
      if now - rec.startTime >= MotionWindow {
        var currentPos := Vec2(paddlePos.x, paddlePos.y);
        rec := rec.(delta := Sub2(currentPos, rec.startPos));
        rec := rec.(pending := false);
      }
    }
  }

  // ------------------------------------------------------------------- curve

  /** The curve one axis of the swipe produces: opposite in sign to the swipe,
      0.02 from 5 units on and 0.05 from 10 units on. */
  function CurveFor(d: real): (c: real)
    ensures d >= RegularCurveDeltaThreshold ==> c < 0.0
    ensures d <= -RegularCurveDeltaThreshold ==> c > 0.0
    ensures Abs(d) < RegularCurveDeltaThreshold ==> c == 0.0
    ensures Abs(d) >= SuperCurveDeltaThreshold ==> Abs(c) == SuperCurveScale
    ensures RegularCurveDeltaThreshold <= Abs(d) < SuperCurveDeltaThreshold ==>
      Abs(c) == RegularCurveScale
  {
    if d <= -SuperCurveDeltaThreshold then SuperCurveScale
    else if d <= -RegularCurveDeltaThreshold then RegularCurveScale
    else if d >= SuperCurveDeltaThreshold then -SuperCurveScale
    else if d >= RegularCurveDeltaThreshold then -RegularCurveScale
    else 0.0
  }

  /** Mirrored swipes give mirrored curve. */
  lemma CurveForIsOdd(d: real)
    ensures CurveFor(-d) == -CurveFor(d)
  {
  }

  /** A longer swipe to the right never gives less curve to the left. */
  lemma CurveForIsAntitone(d1: real, d2: real)
    requires d1 <= d2
    ensures CurveFor(d2) <= CurveFor(d1)
  {
  }

  /** `apply_curve_from_motion_record`: a Resolved record sets (not adds) the
      ball's curve from its delta and goes back to Idle; otherwise nothing
      changes, so a second call straight after is a no-op. */
  method ApplyCurveFromMotionRecord(curve: Vec2, record: PaddleMotionRecord)
    returns (newCurve: Vec2, rec: PaddleMotionRecord)
    ensures Phase(record) == Resolved ==>
      && newCurve == Vec2(CurveFor(record.delta.x), CurveFor(record.delta.y))
      && rec == record.(delta := Zero2)
    ensures Phase(record) != Resolved ==> newCurve == curve && rec == record
    ensures Phase(rec) != Resolved
  {
    newCurve, rec := curve, record;
    if !record.pending && record.delta != Zero2 {
      newCurve := newCurve.(x := CurveFor(record.delta.x));
      newCurve := newCurve.(y := CurveFor(record.delta.y));
      rec := rec.(delta := Zero2);
    }
  }
}
