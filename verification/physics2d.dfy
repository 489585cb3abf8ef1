/** The fixed-step 2D physics system (src/Melkam/scene/Systems2D.cpp:84-208):
    an accumulator that runs whole steps of 1/120 s, at most five per frame,
    and a step that steers each moving box, then moves it along X and pushes
    it back out of static boxes, then does the same along Y. Static bodies
    are never written. */
module Physics2D {
  import opened Wrappers
  import opened Components
  import opened Seqs
  import opened SceneStore
  import opened Geometry
  import Collision

  const FixedDt: real := 1.0 / 120.0
  const MaxSteps: nat := 5

  // ---------------------------------------------------------------------
  // Steering

  function Max0(x: real): real { if x > 0.0 then x else 0.0 }

  function Max(x: real, y: real): real { if x < y then y else x }

  /** `min(1, max(acceleration, 0) * dt)`: how far toward the target speed a
      step goes. */
  function Blend(acceleration: real, dt: real): (k: real)
    requires dt >= 0.0
    ensures 0.0 <= k <= 1.0
    ensures acceleration * dt >= 1.0 ==> k == 1.0
    ensures acceleration <= 0.0 ==> k == 0.0
  {
    assert Max0(acceleration) * dt >= 0.0;
    Min(1.0, Max0(acceleration) * dt)
  }

  /** `1 / (1 + max(damping, 0) * dt)`: the damping scale of a step. */
  function DampFactor(damping: real, dt: real): (f: real)
    requires dt >= 0.0
    ensures 0.0 < f <= 1.0
    ensures damping <= 0.0 ==> f == 1.0
  {
    var den := 1.0 + Max0(damping) * dt;
    assert den >= 1.0 by {
      assert Max0(damping) * dt >= 0.0;
    }
    1.0 / den
  }

  /** One velocity component: blend toward the target by `k`, then scale by
      `f`. */
  function SteerAxis(v: real, target: real, k: real, f: real): real {
    (v + (target - v) * k) * f
  }

  /** Scaling by a factor in [0, 1] keeps the sign and never grows the
      magnitude. */
  lemma ScaleDown(a: real, k: real)
    requires 0.0 <= k <= 1.0
    ensures Abs(a * k) <= Abs(a)
    ensures a >= 0.0 ==> a * k >= 0.0
  {
    if a >= 0.0 {
      assert a * k <= a * 1.0;
    } else {
      assert a * k >= a * 1.0;
    }
  }

  /** Blending by a factor in [0, 1] stays between the current and the
      target speed. */
  lemma BlendBetween(v: real, target: real, k: real)
    requires 0.0 <= k <= 1.0
    ensures Abs(v + (target - v) * k) <= Max(Abs(v), Abs(target))
  {
    var b := v + (target - v) * k;
    if v <= target {
      ScaleDown(target - v, k);
      assert v <= b <= target;
    } else {
      ScaleDown(v - target, k);
      assert (target - v) * k == -((v - target) * k);
      assert target <= b <= v;
    }
  }

  /** A blend factor in [0, 1] and a damping scale in (0, 1] never make a
      component faster than the larger of its current and its target
      speed. */
  lemma SteerAxisBounded(v: real, target: real, k: real, f: real)
    requires 0.0 <= k <= 1.0 && 0.0 < f <= 1.0
    ensures Abs(SteerAxis(v, target, k, f)) <= Max(Abs(v), Abs(target))
  {
    var b := v + (target - v) * k;
    BlendBetween(v, target, k);
    ScaleDown(b, f);
    assert SteerAxis(v, target, k, f) == b * f;
  }

  /** The controller's steering of a velocity toward `direction * maxSpeed`. */
  function Steer(v: Velocity2D, c: CharacterController2D, input: Input2D, dt: real): (r: Velocity2D)
    requires dt >= 0.0
    ensures Abs(r.vx) <= Max(Abs(v.vx), Abs(input.dirX * c.maxSpeed))
    ensures Abs(r.vy) <= Max(Abs(v.vy), Abs(input.dirY * c.maxSpeed))
  {
    var k := Blend(c.acceleration, dt);
    var f := DampFactor(c.damping, dt);
    SteerAxisBounded(v.vx, input.dirX * c.maxSpeed, k, f);
    SteerAxisBounded(v.vy, input.dirY * c.maxSpeed, k, f);
    Velocity2D(SteerAxis(v.vx, input.dirX * c.maxSpeed, k, f), SteerAxis(v.vy, input.dirY * c.maxSpeed, k, f))
  }

  /** Without damping, enough acceleration for the step reaches the target
      velocity exactly. */
  lemma SteerReachesTarget(v: Velocity2D, c: CharacterController2D, input: Input2D, dt: real)
    requires dt >= 0.0 && c.acceleration * dt >= 1.0 && c.damping <= 0.0
    ensures Steer(v, c, input, dt) == Velocity2D(input.dirX * c.maxSpeed, input.dirY * c.maxSpeed)
  {
    assert Blend(c.acceleration, dt) == 1.0;
    assert DampFactor(c.damping, dt) == 1.0;
  }

  /** Without acceleration only damping acts. */
  lemma SteerOnlyDamps(v: Velocity2D, c: CharacterController2D, input: Input2D, dt: real)
    requires dt >= 0.0 && c.acceleration <= 0.0
    ensures Steer(v, c, input, dt) == Velocity2D(v.vx * DampFactor(c.damping, dt), v.vy * DampFactor(c.damping, dt))
  {
    var f := DampFactor(c.damping, dt);
    assert Blend(c.acceleration, dt) == 0.0;
    assert SteerAxis(v.vx, input.dirX * c.maxSpeed, 0.0, f) == v.vx * f;
    assert SteerAxis(v.vy, input.dirY * c.maxSpeed, 0.0, f) == v.vy * f;
  }

  // ---------------------------------------------------------------------
  // Boxes and obstacles

  /** `makeAabb`: the box shape centred on the position; flat in z. */
  function BoxAt(pos: Vec3, b: BoxShape2D): (r: Aabb)
    ensures Collision.Fits(r, pos, Vec3(b.sizeX, b.sizeY, 0.0))
  {
    Around(pos, Vec3(b.sizeX * 0.5, b.sizeY * 0.5, 0.0))
  }

  /** The step's box is the collision layer's box for a box-shaped entity. */
  lemma BoxAtAgreesWithCollider(s: Scene, id: EntityId, pos: Vec3)
    requires GetBox2D(s, id).Some?
    ensures Collision.GetAabb(s, id, pos, true) == Some(BoxAt(pos, GetBox2D(s, id).value))
  {
  }

  /** A static `w` as an obstacle for a mover on `layer`: its box, when it has
      a transform and a box shape and passes the layer test. */
  function Obstacle(s: Scene, w: EntityId, layer: Option<CollisionLayer>): Option<Aabb> {
    match (GetTransform(s, w), GetBox2D(s, w))
    case (Some(t), Some(b)) =>
      if Collision.ShouldCollide(layer, GetLayer(s, w)) then Some(BoxAt(t.position, b)) else None
    case _ => None
  }

  predicate Blocks(s: Scene, w: EntityId, layer: Option<CollisionLayer>, m: Aabb) {
    Obstacle(s, w, layer).Some? && Intersects2(m, Obstacle(s, w, layer).value)
  }

  // ---------------------------------------------------------------------
  // Per-axis access

  function AxisOf(v: Vec3, axis: nat): real { if axis == 0 then v.x else v.y }

  function WithAxis(v: Vec3, axis: nat, k: real): (r: Vec3)
    ensures AxisOf(r, axis) == k
    ensures axis == 0 ==> r.y == v.y && r.z == v.z
    ensures axis != 0 ==> r.x == v.x && r.z == v.z
  {
    if axis == 0 then v.(x := k) else v.(y := k)
  }

  function SpanOn(b: Aabb, axis: nat): Span { if axis == 0 then b.x else b.y }

  function VelOn(v: Velocity2D, axis: nat): real { if axis == 0 then v.vx else v.vy }

  function Stop(v: Velocity2D, axis: nat): (r: Velocity2D)
    ensures VelOn(r, axis) == 0.0
    ensures axis == 0 ==> r.vy == v.vy
    ensures axis != 0 ==> r.vx == v.vx
  {
    if axis == 0 then v.(vx := 0.0) else v.(vy := 0.0)
  }

  function Pos(s: Scene, id: EntityId): Vec3
    requires GetTransform(s, id).Some?
  {
    GetTransform(s, id).value.position
  }

  function Vel(s: Scene, id: EntityId): Velocity2D
    requires GetVelocity2D(s, id).Some?
  {
    GetVelocity2D(s, id).value
  }

  // ---------------------------------------------------------------------
  // Writing the mover

  function SetVelocity2D(s: Scene, id: EntityId, v: Velocity2D): (r: Scene)
    ensures GetVelocity2D(r, id) == Some(v)
    ensures GetTransform(r, id) == GetTransform(s, id)
    ensures Collision.ChangesOnly(s, r, id, {Velocity2DKind})
  {
    var r := AddComponent(s, id, Velocity2DC(v));
    assert TryGetComponent(r, TransformKind, id) == TryGetComponent(s, TransformKind, id);
    r
  }

  /** Replace the mover's position, keeping rotation, scale and velocity. */
  function Place(s: Scene, id: EntityId, p: Vec3): (r: Scene)
    requires GetTransform(s, id).Some?
    ensures GetTransform(r, id) == Some(GetTransform(s, id).value.(position := p))
    ensures GetVelocity2D(r, id) == GetVelocity2D(s, id)
    ensures Collision.ChangesOnly(s, r, id, {TransformKind})
  {
    var r := Collision.MoveTo(s, id, p);
    assert TryGetComponent(r, Velocity2DKind, id) == TryGetComponent(s, Velocity2DKind, id);
    r
  }

  /** The mover is frozen on `axis` after moving by `k` along it. */
  function Push(s: Scene, id: EntityId, axis: nat, k: real): (r: Scene)
    requires GetTransform(s, id).Some? && GetVelocity2D(s, id).Some?
    ensures GetTransform(r, id).Some? && GetVelocity2D(r, id).Some?
    ensures Pos(r, id) == WithAxis(Pos(s, id), axis, AxisOf(Pos(s, id), axis) + k)
    ensures GetTransform(r, id).value.rotation == GetTransform(s, id).value.rotation
    ensures GetTransform(r, id).value.scale == GetTransform(s, id).value.scale
    ensures Vel(r, id) == Stop(Vel(s, id), axis)
    ensures Collision.ChangesOnly(s, r, id, BodyKinds)
  {
    var p := Pos(s, id);
    var s1 := Place(s, id, WithAxis(p, axis, AxisOf(p, axis) + k));
    var r := SetVelocity2D(s1, id, Stop(Vel(s1, id), axis));
    Collision.ChangesOnlyTrans(s, s1, r, id, {TransformKind}, {Velocity2DKind}, BodyKinds);
    r
  }

  // ---------------------------------------------------------------------
  // Axis-separated static resolution

  /** The mover against one static on one axis: a blocking static pushes the
      mover by the source's signed overlap on that axis and stops it there;
      anything else leaves the scene as it is. */
  function PushFrom(s: Scene, id: EntityId, shape: BoxShape2D, layer: Option<CollisionLayer>, w: EntityId, axis: nat): (r: Scene)
    requires GetTransform(s, id).Some? && GetVelocity2D(s, id).Some?
    ensures GetTransform(r, id).Some? && GetVelocity2D(r, id).Some?
    ensures !Blocks(s, w, layer, BoxAt(Pos(s, id), shape)) ==> r == s
    ensures Blocks(s, w, layer, BoxAt(Pos(s, id), shape)) ==>
      var m := BoxAt(Pos(s, id), shape);
      var o := Obstacle(s, w, layer).value;
      && Pos(r, id) == WithAxis(Pos(s, id), axis, AxisOf(Pos(s, id), axis) + Resolve(SpanOn(m, axis), SpanOn(o, axis)))
      && Vel(r, id) == Stop(Vel(s, id), axis)
    ensures GetTransform(r, id).value.rotation == GetTransform(s, id).value.rotation
    ensures GetTransform(r, id).value.scale == GetTransform(s, id).value.scale
    ensures Collision.ChangesOnly(s, r, id, BodyKinds)
  {
    var m := BoxAt(Pos(s, id), shape);
    match Obstacle(s, w, layer)
    case None => s
    case Some(o) =>
      if !Intersects2(m, o) then s
      else Push(s, id, axis, Resolve(SpanOn(m, axis), SpanOn(o, axis)))
  }

  /** One axis pass of `step`: the mover against every static in order, its
      box recomputed after each push. Only the mover's transform and
      velocity change; the other axis of position and velocity is kept; the
      axis velocity is kept or zeroed, and zeroed whenever the position on
      the axis ended up moved. */
  function ResolveAxis(s: Scene, id: EntityId, shape: BoxShape2D, layer: Option<CollisionLayer>, walls: seq<EntityId>, axis: nat): (r: Scene)
    requires GetTransform(s, id).Some? && GetVelocity2D(s, id).Some?
    ensures GetTransform(r, id).Some? && GetVelocity2D(r, id).Some?
    ensures Collision.ChangesOnly(s, r, id, BodyKinds)
    ensures Pos(r, id) == WithAxis(Pos(s, id), axis, AxisOf(Pos(r, id), axis))
    ensures GetTransform(r, id).value.rotation == GetTransform(s, id).value.rotation
    ensures GetTransform(r, id).value.scale == GetTransform(s, id).value.scale
    ensures Vel(r, id) == Vel(s, id) || Vel(r, id) == Stop(Vel(s, id), axis)
    ensures AxisOf(Pos(r, id), axis) != AxisOf(Pos(s, id), axis) ==> VelOn(Vel(r, id), axis) == 0.0
    decreases |walls|
  {
    if walls == [] then s
    else
      var s1 := PushFrom(s, id, shape, layer, walls[0], axis);
      var r := ResolveAxis(s1, id, shape, layer, walls[1..], axis);
      Collision.ChangesOnlyTrans(s, s1, r, id, BodyKinds, BodyKinds, BodyKinds);
      r
  }

  /** With no static blocking the mover where it stands, an axis pass
      changes nothing. */
  lemma {:induction false} ResolveAxisClear(s: Scene, id: EntityId, shape: BoxShape2D, layer: Option<CollisionLayer>, walls: seq<EntityId>, axis: nat)
    requires GetTransform(s, id).Some? && GetVelocity2D(s, id).Some?
    requires Unblocked(s, walls, layer, BoxAt(Pos(s, id), shape))
    ensures ResolveAxis(s, id, shape, layer, walls, axis) == s
    decreases |walls|
  {
    if walls != [] {
      ResolveAxisClear(s, id, shape, layer, walls[1..], axis);
    }
  }

  /** A static that blocks the mover first stops it on that axis, whatever
      the later statics do. */
  lemma FirstBlockStops(s: Scene, id: EntityId, shape: BoxShape2D, layer: Option<CollisionLayer>, walls: seq<EntityId>, axis: nat)
    requires GetTransform(s, id).Some? && GetVelocity2D(s, id).Some?
    requires walls != [] && Blocks(s, walls[0], layer, BoxAt(Pos(s, id), shape))
    ensures VelOn(Vel(ResolveAxis(s, id, shape, layer, walls, axis), id), axis) == 0.0
  {
    var s1 := PushFrom(s, id, shape, layer, walls[0], axis);
    var r := ResolveAxis(s1, id, shape, layer, walls[1..], axis);
    assert VelOn(Vel(s1, id), axis) == 0.0;
    assert Stop(Vel(s1, id), axis) == Vel(s1, id) by {
      if axis == 0 {
        assert Vel(s1, id).vx == 0.0;
      } else {
        assert Vel(s1, id).vy == 0.0;
      }
    }
  }

  // ---------------------------------------------------------------------
  // One step

  /** What a step writes on a mover. */
  const BodyKinds: set<Kind> := {TransformKind, Velocity2DKind}

  const MoverKinds: set<Kind> := {TransformKind, Box2DKind, Velocity2DKind}

  /** What a mover holds that `step` uses. */
  predicate IsMover(s: Scene, id: EntityId) {
    GetTransform(s, id).Some? && GetBox2D(s, id).Some? && GetVelocity2D(s, id).Some?
  }

  /** The velocity after steering: steered only with both a controller and
      an input component. */
  function SteeredVelocity(s: Scene, id: EntityId, dt: real): (r: Velocity2D)
    requires GetVelocity2D(s, id).Some? && dt >= 0.0
    ensures GetController2D(s, id).None? || GetInput2D(s, id).None? ==> r == Vel(s, id)
  {
    match (GetController2D(s, id), GetInput2D(s, id))
    case (Some(c), Some(i)) => Steer(Vel(s, id), c, i, dt)
    case _ => Vel(s, id)
  }

  /** The position moved by `d` along `axis`. */
  function Nudge(p: Vec3, axis: nat, d: real): Vec3 {
    WithAxis(p, axis, AxisOf(p, axis) + d)
  }

  /** One axis pass: move by `d` along `axis`, then resolve against the
      statics on that axis. The other axis of position and velocity is
      kept. */
  function Pass(s: Scene, id: EntityId, shape: BoxShape2D, layer: Option<CollisionLayer>, statics: seq<EntityId>, d: real, axis: nat): (r: Scene)
    requires GetTransform(s, id).Some? && GetVelocity2D(s, id).Some?
    ensures GetTransform(r, id).Some? && GetVelocity2D(r, id).Some?
    ensures Collision.ChangesOnly(s, r, id, BodyKinds)
    ensures axis == 0 ==> Pos(r, id).y == Pos(s, id).y && Vel(r, id).vy == Vel(s, id).vy
    ensures axis != 0 ==> Pos(r, id).x == Pos(s, id).x && Vel(r, id).vx == Vel(s, id).vx
  {
    var s1 := Place(s, id, Nudge(Pos(s, id), axis, d));
    var r := ResolveAxis(s1, id, shape, layer, statics, axis);
    Collision.ChangesOnlyTrans(s, s1, r, id, {TransformKind}, BodyKinds, BodyKinds);
    r
  }

  /** One mover in `step`: steer, then the X pass with the steered X
      velocity, then the Y pass with the steered Y velocity (both
      displacements are taken before the X pass). An entity missing a
      transform, box or velocity is skipped. */
  function MoveBody(s: Scene, id: EntityId, statics: seq<EntityId>, dt: real): (r: Scene)
    requires dt >= 0.0
    ensures !IsMover(s, id) ==> r == s
    ensures Collision.ChangesOnly(s, r, id, BodyKinds)
  {
    if !IsMover(s, id) then s
    else
      var s1 := SetVelocity2D(s, id, SteeredVelocity(s, id, dt));
      var r := Advance(s1, id, statics, dt);
      Collision.ChangesOnlyTrans(s, s1, r, id, {Velocity2DKind}, BodyKinds, BodyKinds);
      r
  }

  /** A speed over a time step. */
  function Scale(speed: real, dt: real): real { speed * dt }

  /** Both passes for a mover whose velocity is already steered: the
      displacements are the velocity times `dt`. */
  function Advance(s: Scene, id: EntityId, statics: seq<EntityId>, dt: real): (r: Scene)
    requires IsMover(s, id)
    ensures GetTransform(r, id).Some? && GetVelocity2D(r, id).Some?
    ensures Collision.ChangesOnly(s, r, id, BodyKinds)
  {
    Travel(s, id, GetBox2D(s, id).value, GetLayer(s, id), statics, Scale(Vel(s, id).vx, dt), Scale(Vel(s, id).vy, dt))
  }

  /** Both passes, with displacements fixed before the X pass. */
  function Travel(s: Scene, id: EntityId, shape: BoxShape2D, layer: Option<CollisionLayer>, statics: seq<EntityId>, dx: real, dy: real): (r: Scene)
    requires GetTransform(s, id).Some? && GetVelocity2D(s, id).Some?
    ensures GetTransform(r, id).Some? && GetVelocity2D(r, id).Some?
    ensures Collision.ChangesOnly(s, r, id, BodyKinds)
  {
    var s2 := Pass(s, id, shape, layer, statics, dx, 0);
    var r := Pass(s2, id, shape, layer, statics, dy, 1);
    Collision.ChangesOnlyTrans(s, s2, r, id, BodyKinds, BodyKinds, BodyKinds);
    r
  }

  /** No static in `statics` blocks the mover box `m`. */
  predicate Unblocked(s: Scene, statics: seq<EntityId>, layer: Option<CollisionLayer>, m: Aabb)
    decreases |statics|
  {
    statics == [] || (!Blocks(s, statics[0], layer, m) && Unblocked(s, statics[1..], layer, m))
  }

  /** Writes to the mover do not change how the other entities look as
      obstacles. */
  lemma {:induction false} UnblockedFrame(a: Scene, b: Scene, id: EntityId, ks: set<Kind>, statics: seq<EntityId>, layer: Option<CollisionLayer>, m: Aabb)
    requires Collision.ChangesOnly(a, b, id, ks) && id !in statics
    requires Unblocked(a, statics, layer, m)
    ensures Unblocked(b, statics, layer, m)
    decreases |statics|
  {
    if statics != [] {
      var w := statics[0];
      assert TryGetComponent(b, TransformKind, w) == TryGetComponent(a, TransformKind, w);
      assert TryGetComponent(b, Box2DKind, w) == TryGetComponent(a, Box2DKind, w);
      assert TryGetComponent(b, LayerKind, w) == TryGetComponent(a, LayerKind, w);
      assert Obstacle(b, w, layer) == Obstacle(a, w, layer);
      UnblockedFrame(a, b, id, ks, statics[1..], layer, m);
    }
  }

  /** An axis pass whose target box no static blocks is a plain move. */
  lemma PassClear(s: Scene, id: EntityId, shape: BoxShape2D, layer: Option<CollisionLayer>, statics: seq<EntityId>, d: real, axis: nat)
    requires GetTransform(s, id).Some? && GetVelocity2D(s, id).Some? && id !in statics
    requires Unblocked(s, statics, layer, BoxAt(Nudge(Pos(s, id), axis, d), shape))
    ensures Pass(s, id, shape, layer, statics, d, axis) == Place(s, id, Nudge(Pos(s, id), axis, d))
  {
    var t := Nudge(Pos(s, id), axis, d);
    var s1 := Place(s, id, t);
    assert Pass(s, id, shape, layer, statics, d, axis) == ResolveAxis(s1, id, shape, layer, statics, axis);
    assert Unblocked(s1, statics, layer, BoxAt(Pos(s1, id), shape)) by {
      UnblockedFrame(s, s1, id, {TransformKind}, statics, layer, BoxAt(t, shape));
    }
    ResolveAxisClear(s1, id, shape, layer, statics, axis);
  }

  /** The X target, then the Y target from there: the position plus
      `(dx, dy)`. */
  lemma NudgeBoth(p: Vec3, dx: real, dy: real)
    ensures Nudge(Nudge(p, 0, dx), 1, dy) == Vec3(p.x + dx, p.y + dy, p.z)
  {
  }

  /** Both passes unblocked, at the X target and then at the X-and-Y target:
      the mover ends at the latter with its velocity as it was. */
  lemma TravelClear(s: Scene, id: EntityId, shape: BoxShape2D, layer: Option<CollisionLayer>, statics: seq<EntityId>, dx: real, dy: real)
    requires GetTransform(s, id).Some? && GetVelocity2D(s, id).Some? && id !in statics
    requires Unblocked(s, statics, layer, BoxAt(Nudge(Pos(s, id), 0, dx), shape))
    requires Unblocked(s, statics, layer, BoxAt(Nudge(Nudge(Pos(s, id), 0, dx), 1, dy), shape))
    ensures Pos(Travel(s, id, shape, layer, statics, dx, dy), id) == Nudge(Nudge(Pos(s, id), 0, dx), 1, dy)
    ensures Vel(Travel(s, id, shape, layer, statics, dx, dy), id) == Vel(s, id)
  {
    var tx := Nudge(Pos(s, id), 0, dx);
    var txy := Nudge(tx, 1, dy);
    var sx := Place(s, id, tx);
    assert Travel(s, id, shape, layer, statics, dx, dy) == Pass(Pass(s, id, shape, layer, statics, dx, 0), id, shape, layer, statics, dy, 1);
    PassClear(s, id, shape, layer, statics, dx, 0);
    assert Unblocked(sx, statics, layer, BoxAt(txy, shape)) by {
      UnblockedFrame(s, sx, id, {TransformKind}, statics, layer, BoxAt(txy, shape));
    }
    assert Pos(sx, id) == tx;
    PassClear(sx, id, shape, layer, statics, dy, 1);
  }

  /** An advance that no static blocks, neither after the X move by `dx`
      nor after the Y move by `dy`, ends at the position plus `(dx, dy)` and
      keeps the velocity. */
  lemma AdvanceClear(s: Scene, id: EntityId, statics: seq<EntityId>, dt: real, dx: real, dy: real)
    requires IsMover(s, id) && id !in statics
    requires dx == Scale(Vel(s, id).vx, dt) && dy == Scale(Vel(s, id).vy, dt)
    requires Unblocked(s, statics, GetLayer(s, id), BoxAt(Nudge(Pos(s, id), 0, dx), GetBox2D(s, id).value))
    requires Unblocked(s, statics, GetLayer(s, id), BoxAt(Nudge(Nudge(Pos(s, id), 0, dx), 1, dy), GetBox2D(s, id).value))
    ensures Pos(Advance(s, id, statics, dt), id) == Nudge(Nudge(Pos(s, id), 0, dx), 1, dy)
    ensures Vel(Advance(s, id, statics, dt), id) == Vel(s, id)
  {
    assert Advance(s, id, statics, dt) == Travel(s, id, GetBox2D(s, id).value, GetLayer(s, id), statics, dx, dy);
    TravelClear(s, id, GetBox2D(s, id).value, GetLayer(s, id), statics, dx, dy);
  }

  /** A mover's step is its steered velocity written, then the advance. */
  lemma MoveBodySteps(s: Scene, id: EntityId, statics: seq<EntityId>, dt: real)
    requires dt >= 0.0 && IsMover(s, id)
    ensures MoveBody(s, id, statics, dt) == Advance(SetVelocity2D(s, id, SteeredVelocity(s, id, dt)), id, statics, dt)
  {
  }

  /** Writing the velocity keeps what the advance reads apart from it. */
  lemma VelocityWriteKeepsView(s: Scene, id: EntityId, v: Velocity2D, statics: seq<EntityId>, m1: Aabb, m2: Aabb)
    requires IsMover(s, id) && id !in statics
    requires Unblocked(s, statics, GetLayer(s, id), m1) && Unblocked(s, statics, GetLayer(s, id), m2)
    ensures var s1 := SetVelocity2D(s, id, v);
      && IsMover(s1, id) && Pos(s1, id) == Pos(s, id) && Vel(s1, id) == v
      && GetBox2D(s1, id) == GetBox2D(s, id) && GetLayer(s1, id) == GetLayer(s, id)
      && Unblocked(s1, statics, GetLayer(s, id), m1) && Unblocked(s1, statics, GetLayer(s, id), m2)
  {
    var s1 := SetVelocity2D(s, id, v);
    UnblockedFrame(s, s1, id, {Velocity2DKind}, statics, GetLayer(s, id), m1);
    UnblockedFrame(s, s1, id, {Velocity2DKind}, statics, GetLayer(s, id), m2);
    assert TryGetComponent(s1, Box2DKind, id) == TryGetComponent(s, Box2DKind, id);
    assert TryGetComponent(s1, LayerKind, id) == TryGetComponent(s, LayerKind, id);
  }

  /** Writing velocity `v` and advancing with it, unblocked at both
      targets, moves the mover by `v` times `dt` and leaves it with `v`. */
  lemma WriteThenAdvance(s: Scene, id: EntityId, v: Velocity2D, statics: seq<EntityId>, dt: real, dx: real, dy: real)
    requires IsMover(s, id) && id !in statics
    requires dx == Scale(v.vx, dt) && dy == Scale(v.vy, dt)
    requires Unblocked(s, statics, GetLayer(s, id), BoxAt(Nudge(Pos(s, id), 0, dx), GetBox2D(s, id).value))
    requires Unblocked(s, statics, GetLayer(s, id), BoxAt(Nudge(Nudge(Pos(s, id), 0, dx), 1, dy), GetBox2D(s, id).value))
    ensures var r := Advance(SetVelocity2D(s, id, v), id, statics, dt);
      Pos(r, id) == Nudge(Nudge(Pos(s, id), 0, dx), 1, dy) && Vel(r, id) == v
  {
    var p := Pos(s, id);
    var shape := GetBox2D(s, id).value;
    VelocityWriteKeepsView(s, id, v, statics, BoxAt(Nudge(p, 0, dx), shape), BoxAt(Nudge(Nudge(p, 0, dx), 1, dy), shape));
    AdvanceClear(SetVelocity2D(s, id, v), id, statics, dt, dx, dy);
  }

  /** A mover that no static blocks, neither after its X move by `dx` nor
      after its Y move by `dy`, the steered velocity times `dt`, ends at its
      position plus `(dx, dy)` and keeps the steered velocity. */
  lemma MoveBodyFree(s: Scene, id: EntityId, statics: seq<EntityId>, dt: real, dx: real, dy: real)
    requires dt >= 0.0 && IsMover(s, id) && id !in statics
    requires dx == Scale(SteeredVelocity(s, id, dt).vx, dt) && dy == Scale(SteeredVelocity(s, id, dt).vy, dt)
    requires Unblocked(s, statics, GetLayer(s, id), BoxAt(Nudge(Pos(s, id), 0, dx), GetBox2D(s, id).value))
    requires Unblocked(s, statics, GetLayer(s, id), BoxAt(Nudge(Nudge(Pos(s, id), 0, dx), 1, dy), GetBox2D(s, id).value))
    ensures GetTransform(MoveBody(s, id, statics, dt), id).Some? && GetVelocity2D(MoveBody(s, id, statics, dt), id).Some?
    ensures Pos(MoveBody(s, id, statics, dt), id) == Vec3(Pos(s, id).x + dx, Pos(s, id).y + dy, Pos(s, id).z)
    ensures Vel(MoveBody(s, id, statics, dt), id) == SteeredVelocity(s, id, dt)
  {
    MoveBodySteps(s, id, statics, dt);
    WriteThenAdvance(s, id, SteeredVelocity(s, id, dt), statics, dt, dx, dy);
    NudgeBoth(Pos(s, id), dx, dy);
  }

  /** `r` differs from `s` at most in the transform and velocity of the
      entities in `ids`; the bookkeeping is the same. */
  ghost predicate OnlyBodiesOf(s: Scene, r: Scene, ids: seq<EntityId>) {
    && r.order == s.order && r.live == s.live && r.nextId == s.nextId
    && r.systems == s.systems && r.builder == s.builder && r.name == s.name
    && (WellTyped(s) ==> WellTyped(r))
    && forall k, x | x !in ids || (k != TransformKind && k != Velocity2DKind) ::
         TryGetComponent(r, k, x) == TryGetComponent(s, k, x)
  }

  lemma OnlyBodiesCons(s: Scene, s1: Scene, r: Scene, ids: seq<EntityId>)
    requires ids != []
    requires Collision.ChangesOnly(s, s1, ids[0], BodyKinds)
    requires OnlyBodiesOf(s1, r, ids[1..])
    ensures OnlyBodiesOf(s, r, ids)
  {
    forall k, x | x !in ids || (k != TransformKind && k != Velocity2DKind)
      ensures TryGetComponent(r, k, x) == TryGetComponent(s, k, x)
    {
      assert x !in ids[1..] || (k != TransformKind && k != Velocity2DKind);
      assert x != ids[0] || k !in BodyKinds;
    }
  }

  /** The movers in order, each seeing the scene its predecessors left. */
  function MoveAll(s: Scene, movers: seq<EntityId>, statics: seq<EntityId>, dt: real): (r: Scene)
    requires dt >= 0.0
    ensures OnlyBodiesOf(s, r, movers)
    decreases |movers|
  {
    if movers == [] then s
    else
      var s1 := MoveBody(s, movers[0], statics, dt);
      var r := MoveAll(s1, movers[1..], statics, dt);
      OnlyBodiesCons(s, s1, r, movers);
      r
  }

  /** `step`: the static list and the mover list are the creation-order
      views taken once at the start; circles and other shapes take no part.
      Only movers' transforms and velocities change. */
  function Step(s: Scene, dt: real): (r: Scene)
    requires dt >= 0.0
    ensures forall k, x | !HoldsAll(s, x, MoverKinds) || (k != TransformKind && k != Velocity2DKind) ::
      TryGetComponent(r, k, x) == TryGetComponent(s, k, x)
    ensures r.order == s.order && r.live == s.live && r.nextId == s.nextId
  {
    var statics := View(s, {TransformKind, Box2DKind, StaticBodyKind});
    var movers := View(s, MoverKinds);
    MoveAll(s, movers, statics, dt)
  }

  /** A static body without a velocity is never moved by a step. */
  lemma StaticsStayPut(s: Scene, w: EntityId, dt: real)
    requires dt >= 0.0 && !HasComponent(s, Velocity2DKind, w)
    ensures GetTransform(Step(s, dt), w) == GetTransform(s, w)
    ensures GetBox2D(Step(s, dt), w) == GetBox2D(s, w)
  {
    var r := Step(s, dt);
    assert !HoldsAll(s, w, MoverKinds);
    assert TryGetComponent(r, TransformKind, w) == TryGetComponent(s, TransformKind, w);
    assert TryGetComponent(r, Box2DKind, w) == TryGetComponent(s, Box2DKind, w);
  }

  /** A mover's displacements in a step: the steered velocity times `dt`. */
  predicate SteeredBy(s: Scene, id: EntityId, dt: real, dx: real, dy: real)
    requires dt >= 0.0 && GetVelocity2D(s, id).Some?
  {
    dx == Scale(SteeredVelocity(s, id, dt).vx, dt) && dy == Scale(SteeredVelocity(s, id, dt).vy, dt)
  }

  /** The two targets of a mover's step, the X target and then the X-and-Y
      target, are blocked by no entity of `statics`. */
  predicate ClearPath(s: Scene, id: EntityId, statics: seq<EntityId>, dx: real, dy: real)
    requires IsMover(s, id)
  {
    var p := Nudge(Pos(s, id), 0, dx);
    var shape := GetBox2D(s, id).value;
    && Unblocked(s, statics, GetLayer(s, id), BoxAt(p, shape))
    && Unblocked(s, statics, GetLayer(s, id), BoxAt(Nudge(p, 1, dy), shape))
  }

  /** Another entity's step leaves a mover's own state, and the statics as
      obstacles, as they were. */
  lemma OtherMoverKeeps(s: Scene, r: Scene, m: EntityId, id: EntityId, statics: seq<EntityId>, dt: real, dx: real, dy: real)
    requires dt >= 0.0 && IsMover(s, id) && m != id && m !in statics
    requires Collision.ChangesOnly(s, r, m, BodyKinds)
    requires SteeredBy(s, id, dt, dx, dy) && ClearPath(s, id, statics, dx, dy)
    ensures IsMover(r, id) && Pos(r, id) == Pos(s, id)
    ensures SteeredVelocity(r, id, dt) == SteeredVelocity(s, id, dt)
    ensures SteeredBy(r, id, dt, dx, dy) && ClearPath(r, id, statics, dx, dy)
  {
    forall k
      ensures TryGetComponent(r, k, id) == TryGetComponent(s, k, id)
    {
    }
    assert GetTransform(r, id) == GetTransform(s, id);
    assert GetBox2D(r, id) == GetBox2D(s, id);
    assert GetVelocity2D(r, id) == GetVelocity2D(s, id);
    assert GetLayer(r, id) == GetLayer(s, id);
    assert GetController2D(r, id) == GetController2D(s, id);
    assert GetInput2D(r, id) == GetInput2D(s, id);
    var p := Nudge(Pos(s, id), 0, dx);
    var shape := GetBox2D(s, id).value;
    UnblockedFrame(s, r, m, BodyKinds, statics, GetLayer(s, id), BoxAt(p, shape));
    UnblockedFrame(s, r, m, BodyKinds, statics, GetLayer(s, id), BoxAt(Nudge(p, 1, dy), shape));
  }

  /** A list without repeats, past its head, has no repeats and not the
      head. */
  lemma DistinctTail(xs: seq<EntityId>)
    requires NoDup(xs) && xs != []
    ensures NoDup(xs[1..]) && xs[0] !in xs[1..]
  {
    forall i, j | 0 <= i < j < |xs[1..]|
      ensures xs[1..][i] != xs[1..][j]
    {
      assert xs[1..][i] == xs[i + 1] && xs[1..][j] == xs[j + 1];
    }
    forall j | 1 <= j < |xs|
      ensures xs[j] != xs[0]
    {
    }
  }

  /** The movers after `id` leave its position and velocity alone. */
  lemma LaterMoversKeep(s: Scene, movers: seq<EntityId>, statics: seq<EntityId>, dt: real, id: EntityId)
    requires dt >= 0.0 && id !in movers
    requires GetTransform(s, id).Some? && GetVelocity2D(s, id).Some?
    ensures var r := MoveAll(s, movers, statics, dt);
      && GetTransform(r, id).Some? && GetVelocity2D(r, id).Some?
      && Pos(r, id) == Pos(s, id) && Vel(r, id) == Vel(s, id)
  {
    var r := MoveAll(s, movers, statics, dt);
    assert TryGetComponent(r, TransformKind, id) == TryGetComponent(s, TransformKind, id);
    assert TryGetComponent(r, Velocity2DKind, id) == TryGetComponent(s, Velocity2DKind, id);
  }

  /** A mover with a clear path, stepped among other movers that are not
      statics, ends at `t`, its position displaced by `(dx, dy)`, with its
      steered velocity. */
  lemma {:induction false} MoveAllClear(s: Scene, movers: seq<EntityId>, statics: seq<EntityId>, dt: real, id: EntityId, dx: real, dy: real, t: Vec3)
    requires dt >= 0.0 && NoDup(movers) && id in movers && IsMover(s, id) && id !in statics
    requires forall m | m in movers :: m !in statics
    requires SteeredBy(s, id, dt, dx, dy) && ClearPath(s, id, statics, dx, dy)
    requires t == Vec3(Pos(s, id).x + dx, Pos(s, id).y + dy, Pos(s, id).z)
    ensures var r := MoveAll(s, movers, statics, dt);
      && GetTransform(r, id).Some? && GetVelocity2D(r, id).Some?
      && Pos(r, id) == t && Vel(r, id) == SteeredVelocity(s, id, dt)
    decreases |movers|
  {
    DistinctTail(movers);
    if movers[0] == id {
      FirstMoverKeeps(s, movers, statics, dt);
      MoveBodyFree(s, id, statics, dt, dx, dy);
    } else {
      var s1 := MoveBody(s, movers[0], statics, dt);
      OtherMoverKeeps(s, s1, movers[0], id, statics, dt, dx, dy);
      MoveAllClear(s1, movers[1..], statics, dt, id, dx, dy, t);
      MoveAllUnfolds(s, movers, statics, dt);
    }
  }

  lemma MoveAllUnfolds(s: Scene, movers: seq<EntityId>, statics: seq<EntityId>, dt: real)
    requires dt >= 0.0 && movers != []
    ensures MoveAll(s, movers, statics, dt) == MoveAll(MoveBody(s, movers[0], statics, dt), movers[1..], statics, dt)
  {
  }

  /** The head of the mover list ends the step as its own move left it. */
  lemma FirstMoverKeeps(s: Scene, movers: seq<EntityId>, statics: seq<EntityId>, dt: real)
    requires dt >= 0.0 && movers != [] && movers[0] !in movers[1..] && IsMover(s, movers[0])
    ensures var r := MoveAll(s, movers, statics, dt);
      var b := MoveBody(s, movers[0], statics, dt);
      && GetTransform(r, movers[0]).Some? && GetVelocity2D(r, movers[0]).Some?
      && GetTransform(b, movers[0]).Some? && GetVelocity2D(b, movers[0]).Some?
      && Pos(r, movers[0]) == Pos(b, movers[0]) && Vel(r, movers[0]) == Vel(b, movers[0])
  {
    MoveAllUnfolds(s, movers, statics, dt);
    LaterMoversKeep(MoveBody(s, movers[0], statics, dt), movers[1..], statics, dt, movers[0]);
  }

  /** A mover that no static body blocks at either of its targets ends the
      step displaced by its steered velocity times `dt`, with the steered
      velocity, whatever other boxes lie in the way: the obstacles are only
      the entities holding a transform, a box shape and a static body when
      the step starts. Static bodies are taken not to carry a velocity, so
      that they are not movers themselves. */
  lemma StepClearPath(s: Scene, dt: real, id: EntityId, dx: real, dy: real)
    requires dt >= 0.0 && Valid(s) && id in s.order && IsMover(s, id)
    requires !HasComponent(s, StaticBodyKind, id)
    requires forall w | w in s.order && HasComponent(s, StaticBodyKind, w) :: !HasComponent(s, Velocity2DKind, w)
    requires SteeredBy(s, id, dt, dx, dy)
    requires ClearPath(s, id, View(s, {TransformKind, Box2DKind, StaticBodyKind}), dx, dy)
    ensures var r := Step(s, dt);
      && GetTransform(r, id).Some? && GetVelocity2D(r, id).Some?
      && Pos(r, id) == Vec3(Pos(s, id).x + dx, Pos(s, id).y + dy, Pos(s, id).z)
      && Vel(r, id) == SteeredVelocity(s, id, dt)
  {
    var statics := View(s, {TransformKind, Box2DKind, StaticBodyKind});
    var movers := View(s, MoverKinds);
    ViewDistinctLive(s, MoverKinds);
    assert HoldsAll(s, id, MoverKinds);
    forall m | m in movers
      ensures m !in statics
    {
      assert HasComponent(s, Velocity2DKind, m);
    }
    MoveAllClear(s, movers, statics, dt, id, dx, dy, Vec3(Pos(s, id).x + dx, Pos(s, id).y + dy, Pos(s, id).z));
  }

  // ---------------------------------------------------------------------
  // The accumulator

  /** The system's only state. */
  datatype Physics2DSystem = Physics2DSystem(accumulator: real)

  /** `n` steps in a row. */
  function StepTimes(s: Scene, n: nat): Scene
    decreases n
  {
    if n == 0 then s else StepTimes(Step(s, FixedDt), n - 1)
  }

  /** The `while` of `onUpdate` from `steps` steps already run: a step runs
      while a whole fixed step is banked and fewer than five have run. */
  function RunSteps(s: Scene, acc: real, steps: nat): (r: (Scene, real, nat))
    requires steps <= MaxSteps
    ensures steps <= r.2 <= MaxSteps
    ensures r.1 == acc - (r.2 - steps) as real * FixedDt
    ensures r.1 < FixedDt || r.2 == MaxSteps
    ensures acc >= 0.0 ==> r.1 >= 0.0
    ensures r.0 == StepTimes(s, r.2 - steps)
    decreases MaxSteps - steps
  {
    if acc >= FixedDt && steps < MaxSteps then
      var r := RunSteps(Step(s, FixedDt), acc - FixedDt, steps + 1);
      assert StepTimes(s, r.2 - steps) == StepTimes(Step(s, FixedDt), r.2 - (steps + 1));
      r
    else (s, acc, steps)
  }

  /** `onUpdate`: bank `dt`, then run the whole steps. */
  function OnUpdate(sys: Physics2DSystem, s: Scene, dt: real): (r: (Physics2DSystem, Scene))
    ensures exists n: nat | n <= MaxSteps ::
      && r.1 == StepTimes(s, n)
      && r.0.accumulator == sys.accumulator + dt - n as real * FixedDt
      && (r.0.accumulator < FixedDt || n == MaxSteps)
    ensures sys.accumulator + dt >= 0.0 ==> r.0.accumulator >= 0.0
  {
    var (s1, acc, n) := RunSteps(s, sys.accumulator + dt, 0);
    (Physics2DSystem(acc), s1)
  }

  /** The step count is fixed by the banked time: with `a` banked, the
      frame runs `min(5, floor(a * 120))` steps. */
  lemma StepCountIsWholeSteps(s: Scene, a: real, n: nat)
    requires a >= 0.0 && n <= MaxSteps
    requires a - n as real * FixedDt >= 0.0
    requires a - n as real * FixedDt < FixedDt || n == MaxSteps
    ensures RunSteps(s, a, 0).2 == n
  {
  }

  /** Five steps at most: a long frame leaves the surplus banked. */
  lemma LongFrameBanksSurplus(sys: Physics2DSystem, s: Scene, dt: real)
    requires sys.accumulator >= 0.0 && sys.accumulator + dt >= 6.0 * FixedDt
    ensures OnUpdate(sys, s, dt).0.accumulator >= FixedDt
  {
    var a := sys.accumulator + dt;
    var r := RunSteps(s, a, 0);
    assert r.2 as real * FixedDt <= 5.0 * FixedDt;
  }
}
