/** `src/gameplay/brick/systems.rs`: the brick wall laid out in front of the
    Enemy goal, the damage message a brick collision produces, and the health
    factor that tints a damaged brick. Meshes and materials are not modelled. */
module BrickSystems {
  import opened Vectors
  import opened Components

  const BrickSize: Vec3 := Vec3(4.0, 2.0, 0.25)

  /** The Goal, Transform translation and BoundingCuboid of a goal entity, in
      query order. */
  datatype GoalBody = GoalBody(goal: Goal, translation: Vec3, halfExtents: Vec3)

  /** A spawned brick: Transform translation, BoundingCuboid and Health. */
  datatype BrickBody = BrickBody(center: Vec3, halfExtents: Vec3, health: Health)

  // ------------------------------------------------------------------ layout

  predicate HasEnemyGoal(goals: seq<GoalBody>) {
    exists i :: 0 <= i < |goals| && goals[i].goal == Enemy
  }

  /** The goal `.iter().find(..)` picks: the first Enemy goal in query order. */
  function FirstEnemyGoal(goals: seq<GoalBody>): (k: nat)
    requires HasEnemyGoal(goals)
    ensures k < |goals| && goals[k].goal == Enemy
    ensures forall j :: 0 <= j < k ==> goals[j].goal != Enemy
  {
    if goals[0].goal == Enemy then 0
    else
      assert HasEnemyGoal(goals[1..]) by {
        var i :| 0 <= i < |goals| && goals[i].goal == Enemy;
        assert goals[1..][i - 1] == goals[i];
      }
      1 + FirstEnemyGoal(goals[1..])
  }

  /** `bricks_x`: how many whole bricks fit across the goal. */
  function Columns(g: GoalBody): (n: nat)
    requires g.halfExtents.x >= 0.0
    ensures n as real * BrickSize.x <= g.halfExtents.x * 2.0 < (n + 1) as real * BrickSize.x
  {
    ((g.halfExtents.x * 2.0) / BrickSize.x).Floor
  }

  /** `bricks_y`: how many whole bricks fit up the goal. */
  function Rows(g: GoalBody): (n: nat)
    requires g.halfExtents.y >= 0.0
    ensures n as real * BrickSize.y <= g.halfExtents.y * 2.0 < (n + 1) as real * BrickSize.y
  {
    ((g.halfExtents.y * 2.0) / BrickSize.y).Floor
  }

  /** The grid cell of the `index`-th brick: column `index % columns`, row
      `index / columns`. */
  function Cell(index: nat, columns: nat): (nat, nat)
    requires columns > 0
  {
    (index % columns, index / columns)
  }

  lemma MulAtLeast(d: int, c: nat)
    requires d >= 1
    ensures d * c >= c
  {
    assert d * c == (d - 1) * c + c;
  }

  lemma DivModUnique(n: nat, c: nat, q: nat, r: nat)
    requires 0 <= r < c && n == q * c + r
    ensures n / c == q && n % c == r
  {
    var q', r' := n / c, n % c;
    assert n == q' * c + r';
    assert (q' - q) * c == r - r';
    if q' > q {
      MulAtLeast(q' - q, c);
    } else if q > q' {
      MulAtLeast(q - q', c);
    }
  }

  /** Every index below `columns * rows` lands in the grid. */
  lemma CellInGrid(index: nat, columns: nat, rows: nat)
    requires columns > 0 && index < columns * rows
    ensures Cell(index, columns).0 < columns && Cell(index, columns).1 < rows
  {
    var q := index / columns;
    assert index == q * columns + index % columns;
    assert (rows - q) * columns > 0;
  }

  /** No two bricks share a cell. */
  lemma CellInjective(i: nat, j: nat, columns: nat)
    requires columns > 0 && Cell(i, columns) == Cell(j, columns)
    ensures i == j
  {
    assert i == (i / columns) * columns + i % columns;
    assert j == (j / columns) * columns + j % columns;
  }

  /** Every cell of the grid gets a brick: cell (x, y) is brick `y * columns + x`. */
  lemma CellOnto(x: nat, y: nat, columns: nat, rows: nat)
    requires x < columns && y < rows
    ensures y * columns + x < columns * rows
    ensures Cell(y * columns + x, columns) == (x, y)
  {
    DivModUnique(y * columns + x, columns, y, x);
    assert (y + 1) * columns <= rows * columns;
  }

  /** The corner `spawn_brick_wall` passes for cell (x, y): the grid is
      centred on the goal in x and y and sits at the goal's depth. */
  function Corner(g: GoalBody, columns: nat, rows: nat, x: nat, y: nat): Vec3 {
    var totalWidth := columns as real * BrickSize.x;
    var totalHeight := rows as real * BrickSize.y;
    Vec3(g.translation.x - totalWidth / 2.0 + x as real * BrickSize.x,
         g.translation.y - totalHeight / 2.0 + y as real * BrickSize.y,
         g.translation.z)
  }

  /** `spawn_brick`, without the mesh and material: the brick's box spans
      `position .. position + size` in x and y, at depth `position.z`, with
      three of three health. */
  function SpawnBrick(position: Vec3, size: Vec3): (b: BrickBody)
    ensures b.center.x - b.halfExtents.x == position.x && b.center.x + b.halfExtents.x == position.x + size.x
    ensures b.center.y - b.halfExtents.y == position.y && b.center.y + b.halfExtents.y == position.y + size.y
    ensures b.center.z == position.z && b.halfExtents.z * 2.0 == size.z
    ensures b.health == Health(3, 3)
  {
    BrickBody(Vec3(position.x + size.x * 0.5, position.y + size.y * 0.5, position.z),
              Scale3(size, 0.5),
              Health(3, 3))
  }

  /** The brick of cell (x, y). */
  function CellBrick(g: GoalBody, columns: nat, rows: nat, x: nat, y: nat): BrickBody {
    SpawnBrick(Corner(g, columns, rows, x, y), BrickSize)
  }

  /** The brick of a cell lies within the goal's face. */
  lemma CellBrickWithinGoal(g: GoalBody, x: nat, y: nat)
    requires g.halfExtents.x >= 0.0 && g.halfExtents.y >= 0.0
    requires x < Columns(g) && y < Rows(g)
    ensures var b := CellBrick(g, Columns(g), Rows(g), x, y);
      && g.translation.x - g.halfExtents.x <= b.center.x - b.halfExtents.x
      && b.center.x + b.halfExtents.x <= g.translation.x + g.halfExtents.x
      && g.translation.y - g.halfExtents.y <= b.center.y - b.halfExtents.y
      && b.center.y + b.halfExtents.y <= g.translation.y + g.halfExtents.y
      && b.center.z == g.translation.z
  {
    assert (x + 1) as real <= Columns(g) as real;
    assert (y + 1) as real <= Rows(g) as real;
  }

  /** Bricks of different cells do not overlap. */
  lemma CellBricksDisjoint(g: GoalBody, columns: nat, rows: nat, x1: nat, y1: nat, x2: nat, y2: nat)
    requires (x1, y1) != (x2, y2)
    ensures var b1, b2 := CellBrick(g, columns, rows, x1, y1), CellBrick(g, columns, rows, x2, y2);
      Abs(b1.center.x - b2.center.x) >= b1.halfExtents.x + b2.halfExtents.x
      || Abs(b1.center.y - b2.center.y) >= b1.halfExtents.y + b2.halfExtents.y
  {
    var b1, b2 := CellBrick(g, columns, rows, x1, y1), CellBrick(g, columns, rows, x2, y2);
    var c1, c2 := Corner(g, columns, rows, x1, y1), Corner(g, columns, rows, x2, y2);
    assert b1.center.x - b2.center.x == c1.x - c2.x == (x1 as real - x2 as real) * 4.0;
    assert b1.center.y - b2.center.y == c1.y - c2.y == (y1 as real - y2 as real) * 2.0;
    if x1 > x2 {
      assert x1 as real - x2 as real >= 1.0;
    } else if x1 < x2 {
      assert x2 as real - x1 as real >= 1.0;
    } else if y1 > y2 {
      assert y1 as real - y2 as real >= 1.0;
    } else {
      assert y2 as real - y1 as real >= 1.0;
    }
  }

  /** A wall laid against `g`: one brick per grid cell, brick `k` in cell
      `Cell(k, Columns(g))`. */
  ghost predicate LaidOut(g: GoalBody, bricks: seq<BrickBody>)
    requires g.halfExtents.x >= 0.0 && g.halfExtents.y >= 0.0
  {
    && |bricks| == Columns(g) * Rows(g)
    && forall k :: 0 <= k < |bricks| ==>
         Columns(g) > 0 && bricks[k] == CellBrick(g, Columns(g), Rows(g), k % Columns(g), k / Columns(g))
  }

  /** Cell (x, y) of the grid holds its brick, brick `y * columns + x`. */
  lemma LaidOutCell(g: GoalBody, bricks: seq<BrickBody>, x: nat, y: nat)
    requires g.halfExtents.x >= 0.0 && g.halfExtents.y >= 0.0 && LaidOut(g, bricks)
    requires x < Columns(g) && y < Rows(g)
    ensures y * Columns(g) + x < |bricks|
    ensures bricks[y * Columns(g) + x] == CellBrick(g, Columns(g), Rows(g), x, y)
  {
    var columns, rows := Columns(g), Rows(g);
    var k := y * columns + x;
    CellOnto(x, y, columns, rows);
    assert bricks[k] == CellBrick(g, columns, rows, k % columns, k / columns);
  }

  /** Every brick has three of three health, the halved brick size as its
      bounding box, and lies within the goal's face at the goal's depth. */
  lemma LaidOutWithinGoal(g: GoalBody, bricks: seq<BrickBody>)
    requires g.halfExtents.x >= 0.0 && g.halfExtents.y >= 0.0 && LaidOut(g, bricks)
    ensures forall i :: 0 <= i < |bricks| ==>
      && bricks[i].health == Health(3, 3)
      && bricks[i].halfExtents == Vec3(2.0, 1.0, 0.125)
      && g.translation.x - g.halfExtents.x <= bricks[i].center.x - 2.0
      && bricks[i].center.x + 2.0 <= g.translation.x + g.halfExtents.x
      && g.translation.y - g.halfExtents.y <= bricks[i].center.y - 1.0
      && bricks[i].center.y + 1.0 <= g.translation.y + g.halfExtents.y
      && bricks[i].center.z == g.translation.z
  {
    forall i | 0 <= i < |bricks|
      ensures && bricks[i].health == Health(3, 3)
              && bricks[i].halfExtents == Vec3(2.0, 1.0, 0.125)
              && g.translation.x - g.halfExtents.x <= bricks[i].center.x - 2.0
              && bricks[i].center.x + 2.0 <= g.translation.x + g.halfExtents.x
              && g.translation.y - g.halfExtents.y <= bricks[i].center.y - 1.0
              && bricks[i].center.y + 1.0 <= g.translation.y + g.halfExtents.y
              && bricks[i].center.z == g.translation.z
    {
      CellInGrid(i, Columns(g), Rows(g));
      CellBrickWithinGoal(g, i % Columns(g), i / Columns(g));
    }
  }

  /** No two bricks of the wall overlap. */
  lemma LaidOutDisjoint(g: GoalBody, bricks: seq<BrickBody>)
    requires g.halfExtents.x >= 0.0 && g.halfExtents.y >= 0.0 && LaidOut(g, bricks)
    ensures forall i, j :: 0 <= i < j < |bricks| ==>
      Abs(bricks[i].center.x - bricks[j].center.x) >= 4.0
      || Abs(bricks[i].center.y - bricks[j].center.y) >= 2.0
  {
    forall i, j | 0 <= i < j < |bricks|
      ensures Abs(bricks[i].center.x - bricks[j].center.x) >= 4.0
              || Abs(bricks[i].center.y - bricks[j].center.y) >= 2.0
    {
      var columns := Columns(g);
      if Cell(i, columns) == Cell(j, columns) {
        CellInjective(i, j, columns);
      }
      CellBricksDisjoint(g, columns, Rows(g), i % columns, i / columns, j % columns, j / columns);
    }
  }

  /** `spawn_brick_wall`: the wall laid against the first Enemy goal. The
      source panics when there is no Enemy goal. */
  method SpawnBrickWall(goals: seq<GoalBody>) returns (bricks: seq<BrickBody>)
    requires HasEnemyGoal(goals)
    requires goals[FirstEnemyGoal(goals)].halfExtents.x >= 0.0 && goals[FirstEnemyGoal(goals)].halfExtents.y >= 0.0
    ensures var g := goals[FirstEnemyGoal(goals)];
      g.halfExtents.x >= 0.0 && g.halfExtents.y >= 0.0 && LaidOut(g, bricks)
  {
    var g := goals[FirstEnemyGoal(goals)];

    var wallWidth := g.halfExtents.x * 2.0;
    var wallHeight := g.halfExtents.y * 2.0;
    var wallZ := g.translation.z;

    var bricksX := (wallWidth / BrickSize.x).Floor;
    var bricksY := (wallHeight / BrickSize.y).Floor;
    assert bricksX == Columns(g) && bricksY == Rows(g);

    var totalWidth := bricksX as real * BrickSize.x;
    var totalHeight := bricksY as real * BrickSize.y;

    var totalBricks := bricksX * bricksY;
    bricks := [];
    for index := 0 to totalBricks
      invariant |bricks| == index
      invariant forall k :: 0 <= k < index ==>
        bricksX > 0 && bricks[k] == CellBrick(g, bricksX, bricksY, k % bricksX, k / bricksX)
    {
      assert bricksX > 0;
      var x := index % bricksX;
      var y := index / bricksX;
      var pos := Vec3(g.translation.x - totalWidth / 2.0 + x as real * BrickSize.x,
                      g.translation.y - totalHeight / 2.0 + y as real * BrickSize.y,
                      wallZ);
      bricks := bricks + [SpawnBrick(pos, BrickSize)];
    }
  }

  // --------------------------------------------------------------- collisions

  /** The health messages for a batch of collisions: one `-1` per message
      whose `b` is a brick with Health, in message order. */
  function BrickHits(messages: seq<CollisionMessage>, bricks: set<Entity>): seq<HealthChanged> {
    if messages == [] then []
    else
      var m := messages[|messages| - 1];
      BrickHits(messages[..|messages| - 1], bricks) + (if m.b in bricks then [HealthChanged(m.b, -1)] else [])
  }

  /** Each message contributes on its own, in order. */
  lemma {:induction false} BrickHitsAppend(ms1: seq<CollisionMessage>, ms2: seq<CollisionMessage>, bricks: set<Entity>)
    ensures BrickHits(ms1 + ms2, bricks) == BrickHits(ms1, bricks) + BrickHits(ms2, bricks)
    decreases |ms2|
  {
    if ms2 == [] {
      assert ms1 + ms2 == ms1;
    } else {
      var init := ms2[..|ms2| - 1];
      assert (ms1 + ms2)[..|ms1 + ms2| - 1] == ms1 + init;
      BrickHitsAppend(ms1, init, bricks);
    }
  }

  /** Every message produced takes one point of health from a brick. */
  lemma {:induction false} BrickHitsDamageBricks(messages: seq<CollisionMessage>, bricks: set<Entity>)
    ensures |BrickHits(messages, bricks)| <= |messages|
    ensures forall k :: 0 <= k < |BrickHits(messages, bricks)| ==>
      BrickHits(messages, bricks)[k].entity in bricks && BrickHits(messages, bricks)[k].delta == -1
  {
    if messages != [] {
      BrickHitsDamageBricks(messages[..|messages| - 1], bricks);
    }
  }

  /** `handle_collision`. */
  method HandleCollision(messages: seq<CollisionMessage>, bricks: set<Entity>)
    returns (healthChanged: seq<HealthChanged>)
    ensures healthChanged == BrickHits(messages, bricks)
  {
    healthChanged := [];
    for i := 0 to |messages|
      invariant healthChanged == BrickHits(messages[..i], bricks)
    {
      assert messages[..i + 1][..i] == messages[..i];
      if messages[i].b in bricks {
        healthChanged := healthChanged + [HealthChanged(messages[i].b, -1)];
      }
    }
    assert messages[..|messages|] == messages;
  }

  // -------------------------------------------------------------- health tint

  lemma RatioBounds(a: real, b: real)
    requires b > 0.0
    ensures a >= b ==> a / b >= 1.0
    ensures a <= 0.0 ==> a / b <= 0.0
  {
    var q := a / b;
    assert q * b == a;
    assert a - b == (q - 1.0) * b;
  }

  /** The tint factor of a living brick: 1 at full health, 0 at one point.
      Undefined (NaN in the source) when `max` is 1. */
  function HealthColorFactor(h: Health): (t: real)
    requires h.max > 1
    ensures 0.0 <= t <= 1.0
    ensures h.current >= h.max ==> t == 1.0
    ensures h.current <= 1 ==> t == 0.0
  {
    var ratio := (h.current as real - 1.0) / (h.max as real - 1.0);
    RatioBounds(h.current as real - 1.0, h.max as real - 1.0);
    Clamp(ratio, 0.0, 1.0)
  }

  /** More health never gives a smaller factor. */
  lemma DivMonotone(a1: real, a2: real, d: real)
    requires d > 0.0 && a1 <= a2
    ensures a1 / d <= a2 / d
  {
    var q1, q2 := a1 / d, a2 / d;
    assert q1 * d == a1 && q2 * d == a2;
    assert (q2 - q1) * d == a2 - a1;
  }

  lemma {:induction false} HealthColorFactorMonotone(max: U8, c1: U8, c2: U8)
    requires max > 1 && c1 <= c2
    ensures HealthColorFactor(Health(max, c1)) <= HealthColorFactor(Health(max, c2))
  {
    var d := max as real - 1.0;
    DivMonotone(c1 as real - 1.0, c2 as real - 1.0, d);
    var r1, r2 := (c1 as real - 1.0) / d, (c2 as real - 1.0) / d;
    assert HealthColorFactor(Health(max, c1)) == Clamp(r1, 0.0, 1.0);
    assert HealthColorFactor(Health(max, c2)) == Clamp(r2, 0.0, 1.0);
  }

  /** Every brick a message names, if it is still alive, needs a defined tint. */
  predicate TintDefined(messages: seq<HealthChanged>, bricks: map<Entity, Health>) {
    forall i :: 0 <= i < |messages| && messages[i].entity in bricks && bricks[messages[i].entity].current != 0 ==>
      bricks[messages[i].entity].max > 1
  }

  /** The colour messages for a batch of health changes: a base colour for
      each message naming a brick with non-zero health, in order. */
  function TintMessages(messages: seq<HealthChanged>, bricks: map<Entity, Health>): seq<MaterialColorsChanged>
    requires TintDefined(messages, bricks)
  {
    if messages == [] then []
    else
      var m := messages[|messages| - 1];
      assert TintDefined(messages[..|messages| - 1], bricks) by {
        forall i | 0 <= i < |messages| - 1 ensures messages[..|messages| - 1][i] == messages[i] { }
      }
      TintMessages(messages[..|messages| - 1], bricks)
      + (if m.entity in bricks && bricks[m.entity].current != 0
         then [MaterialColorsChanged(m.entity, Some(HealthColorFactor(bricks[m.entity])), None)]
         else [])
  }

  /** Every tint names a living brick and carries a factor in [0, 1] as base colour only. */
  lemma {:induction false} TintMessagesNameLivingBricks(messages: seq<HealthChanged>, bricks: map<Entity, Health>)
    requires TintDefined(messages, bricks)
    ensures forall k :: 0 <= k < |TintMessages(messages, bricks)| ==>
      var c := TintMessages(messages, bricks)[k];
      && c.entity in bricks && bricks[c.entity].current != 0
      && c.emissive == None && c.baseColor.Some?
      && 0.0 <= c.baseColor.value <= 1.0
  {
    if messages != [] {
      var init := messages[..|messages| - 1];
      assert TintDefined(init, bricks) by {
        forall i | 0 <= i < |init| ensures init[i] == messages[i] { }
      }
      TintMessagesNameLivingBricks(init, bricks);
    }
  }

  /** `update_health_color`. */
  method UpdateHealthColor(messages: seq<HealthChanged>, bricks: map<Entity, Health>)
    returns (colors: seq<MaterialColorsChanged>)
    requires TintDefined(messages, bricks)
    ensures colors == TintMessages(messages, bricks)
  {
    colors := [];
    for i := 0 to |messages|
      invariant TintDefined(messages[..i], bricks)
      invariant colors == TintMessages(messages[..i], bricks)
    {
      assert messages[..i + 1][..i] == messages[..i];
      var m := messages[i];
      if m.entity in bricks {
        var health := bricks[m.entity];
        if health.current == 0 {
          continue;
        }
        var t := Clamp((health.current as real - 1.0) / (health.max as real - 1.0), 0.0, 1.0);
        colors := colors + [MaterialColorsChanged(m.entity, Some(t), None)];
      }
    }
    assert messages[..|messages|] == messages;
  }
}
