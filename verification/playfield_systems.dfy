/** `src/playfield/systems.rs`, the generation before
    `src/gameplay/playfield/systems.rs`: the same goal handler, and a depth-line
    highlight that writes each line's `MaterialColorsUpdate` in place, skipping
    lines that already show the new colour. */
module PlayfieldSystems {
  import opened Vectors
  import opened Components
  import GameplayPlayfieldSystems

  /** A depth line's Transform z and its `MaterialColorsUpdate` component. */
  datatype LineMaterial = LineMaterial(z: real, baseColor: Option<real>, emissive: Option<real>)

  /** `wall_collision_handler`: identical to `handle_wall_collision`. */
  method WallCollisionHandler(messages: seq<CollisionMessage>,
                              balls: map<Entity, GameplayPlayfieldSystems.BallBody>,
                              goals: map<Entity, Goal>)
    returns (after: map<Entity, GameplayPlayfieldSystems.BallBody>)
    ensures after.Keys == balls.Keys
    ensures forall e :: e in balls ==>
      after[e] == GameplayPlayfieldSystems.AfterGoals(balls[e], messages, goals, e)
  {
    after := GameplayPlayfieldSystems.HandleWallCollision(messages, balls, goals);
  }

  /** `highlight_depth_lines`: every line ends up showing its highlight
      factor as emissive colour, its base colour untouched; `written` is the
      set of lines whose component was written (and so marked changed), which
      is exactly those not already showing the new colour. */
  method HighlightDepthLines(ballZ: real, radius: real, lines: map<Entity, LineMaterial>)
    returns (updated: map<Entity, LineMaterial>, written: set<Entity>)
    ensures updated.Keys == lines.Keys
    ensures forall e :: e in lines ==>
      updated[e] == lines[e].(emissive := Some(GameplayPlayfieldSystems.HighlightFactor(lines[e].z, ballZ, radius)))
    ensures written == set e | e in lines &&
      lines[e].emissive != Some(GameplayPlayfieldSystems.HighlightFactor(lines[e].z, ballZ, radius))
  {
    updated, written := lines, {};
    var todo := lines.Keys;
    while todo != {}
      invariant todo <= lines.Keys
      invariant updated.Keys == lines.Keys
      invariant forall e :: e in lines && e !in todo ==>
        updated[e] == lines[e].(emissive := Some(GameplayPlayfieldSystems.HighlightFactor(lines[e].z, ballZ, radius)))
      invariant forall e :: e in todo ==> updated[e] == lines[e]
      invariant written == set e | e in lines && e !in todo &&
        lines[e].emissive != Some(GameplayPlayfieldSystems.HighlightFactor(lines[e].z, ballZ, radius))
      decreases todo
    {
      var e :| e in todo;
      todo := todo - {e};
      var line := updated[e];
      var t := GameplayPlayfieldSystems.HighlightFactor(line.z, ballZ, radius);
      if line.emissive == Some(t) {
        continue;
      }
      updated := updated[e := line.(emissive := Some(t))];
      written := written + {e};
    }
  }
}
