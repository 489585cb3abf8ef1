/** The kinematic collision layer on top of the scene store
    (src/Melkam/physics/Collider.cpp): box derivation from shape components,
    the layer/mask filter, the cached contact state, the candidate sweep, the
    steps both move routines share, `MoveAndCollide` and the contact queries.
    The slide loop is in module `Sliding`. One definition covers the 2D and
    the 3D variant of each routine; `is2D` selects the shapes, the velocity
    component and the sweep, exactly where the two copies in the source
    differ. */
module Collision {
  import opened Wrappers
  import opened Components
  import opened SceneStore
  import opened EntityHandle
  import opened Geometry

  // ---------------------------------------------------------------------
  // Boxes from shapes

  /** `b` has extent `size` on each axis and is centred on `c`. */
  predicate Fits(b: Aabb, c: Vec3, size: Vec3) {
    && b.x.hi - b.x.lo == size.x && b.x.lo + b.x.hi == 2.0 * c.x
    && b.y.hi - b.y.lo == size.y && b.y.lo + b.y.hi == 2.0 * c.y
    && b.z.hi - b.z.lo == size.z && b.z.lo + b.z.hi == 2.0 * c.z
  }

  /** Whether the entity carries a shape of the requested dimensionality. */
  predicate HasShape(s: Scene, id: EntityId, is2D: bool) {
    if is2D then GetBox2D(s, id).Some? || GetCircle2D(s, id).Some?
    else GetBox3D(s, id).Some? || GetSphere3D(s, id).Some?
  }

  /** `getAabb2D` / `getAabb3D`: the box around `pos`. A box shape wins over a
      circle or sphere; without either there is no box. A 2D box is flat in z. */
  function GetAabb(s: Scene, id: EntityId, pos: Vec3, is2D: bool): (r: Option<Aabb>)
    ensures r.Some? <==> HasShape(s, id, is2D)
    ensures is2D && GetBox2D(s, id).Some? ==>
      r.Some? && Fits(r.value, pos, Vec3(GetBox2D(s, id).value.sizeX, GetBox2D(s, id).value.sizeY, 0.0))
    ensures is2D && GetBox2D(s, id).None? && GetCircle2D(s, id).Some? ==>
      var d := 2.0 * GetCircle2D(s, id).value.radius;
      r.Some? && Fits(r.value, pos, Vec3(d, d, 0.0))
    ensures !is2D && GetBox3D(s, id).Some? ==>
      r.Some? && Fits(r.value, pos, GetBox3D(s, id).value.size)
    ensures !is2D && GetBox3D(s, id).None? && GetSphere3D(s, id).Some? ==>
      var d := 2.0 * GetSphere3D(s, id).value.radius;
      r.Some? && Fits(r.value, pos, Vec3(d, d, d))
  {
    ShapeBox(GetBox2D(s, id), GetCircle2D(s, id), GetBox3D(s, id), GetSphere3D(s, id), pos, is2D)
  }

  /** The box-around-`pos` choice over the shape components alone. */
  function ShapeBox(box2: Option<BoxShape2D>, circle: Option<CircleShape2D>, box3: Option<BoxShape3D>,
                    sphere: Option<SphereShape3D>, pos: Vec3, is2D: bool): Option<Aabb>
  {
    if is2D then
      match box2
      case Some(b) => Some(Around(pos, Vec3(b.sizeX * 0.5, b.sizeY * 0.5, 0.0)))
      case None =>
        match circle
        case Some(c) => Some(Around(pos, Vec3(c.radius, c.radius, 0.0)))
        case None => None
    else
      match box3
      case Some(b) => Some(Around(pos, Vec3(b.size.x * 0.5, b.size.y * 0.5, b.size.z * 0.5)))
      case None =>
        match sphere
        case Some(c) => Some(Around(pos, Vec3(c.radius, c.radius, c.radius)))
        case None => None
  }

  /** Strict intersection in the requested dimensionality. */
  predicate IntersectsIn(is2D: bool, a: Aabb, b: Aabb) {
    if is2D then Intersects2(a, b) else Intersects3(a, b)
  }

  /** Closed contact in the requested dimensionality. */
  predicate TouchesIn(is2D: bool, a: Aabb, b: Aabb) {
    Touch(a.x, b.x) && Touch(a.y, b.y) && (is2D || Touch(a.z, b.z))
  }

  /** A unit normal along one axis, flat in 2D. */
  predicate UnitAxis(n: Vec3, is2D: bool) {
    || (Abs(n.x) == 1.0 && n.y == 0.0 && n.z == 0.0)
    || (n.x == 0.0 && Abs(n.y) == 1.0 && n.z == 0.0)
    || (!is2D && n.x == 0.0 && n.y == 0.0 && Abs(n.z) == 1.0)
  }

  /** The sweep of the variant: every hit lies within the move and reports a
      unit axis normal. */
  function SweepIn(is2D: bool, m: Aabb, t: Aabb, d: Vec3): (r: Option<Hit>)
    ensures r.Some? ==> 0.0 <= r.value.time <= 1.0 && UnitAxis(r.value.normal, is2D)
  {
    if is2D then Sweep2(m, t, d.x, d.y) else Sweep3(m, t, d)
  }

  // ---------------------------------------------------------------------
  // Layer filter

  /** A missing layer component acts as layer 1 colliding with everything. */
  function LayerOrDefault(l: Option<CollisionLayer>): (r: CollisionLayer)
    ensures l.Some? ==> r == l.value
    ensures l.None? ==> r.layer == 1 && r.mask == 0xFFFF_FFFF
  {
    l.GetOr(DefaultLayer)
  }

  /** `shouldCollide`: each side's mask must admit the other side's layer. */
  predicate ShouldCollide(a: Option<CollisionLayer>, b: Option<CollisionLayer>) {
    var (la, lb) := (LayerOrDefault(a), LayerOrDefault(b));
    la.mask & lb.layer != 0 && lb.mask & la.layer != 0
  }

  lemma ShouldCollideSymmetric(a: Option<CollisionLayer>, b: Option<CollisionLayer>)
    ensures ShouldCollide(a, b) <==> ShouldCollide(b, a)
  {
  }

  /** The fallback for a missing component is the component's own default. */
  lemma MissingLayerIsDefault(a: Option<CollisionLayer>, b: Option<CollisionLayer>)
    ensures ShouldCollide(None, b) <==> ShouldCollide(Some(DefaultLayer), b)
    ensures ShouldCollide(a, None) <==> ShouldCollide(a, Some(DefaultLayer))
  {
  }

  /** Two entities without layers collide; layers 1 and 2 that only accept
      themselves do not. */
  lemma LayerExamples()
    ensures ShouldCollide(None, None)
    ensures !ShouldCollide(Some(CollisionLayer(1, 1)), Some(CollisionLayer(2, 2)))
    ensures !ShouldCollide(Some(CollisionLayer(1, 0xFFFF_FFFF)), Some(CollisionLayer(2, 2)))
    ensures ShouldCollide(Some(CollisionLayer(1, 2)), Some(CollisionLayer(2, 1)))
  {
  }

  // ---------------------------------------------------------------------
  // Contact state

  /** The fixed `floorDot` threshold of the slide settings. */
  const FloorDot: real := 0.7

  /** Floor, wall and ceiling classification of a contact normal. 2D works in
      screen coordinates, where y grows downwards, so floor and ceiling swap
      sides on y; walls look at x only in 2D, at x or z in 3D. */
  predicate FloorNormal(n: Vec3, is2D: bool) {
    if is2D then n.y <= -FloorDot else n.y >= FloorDot
  }

  predicate CeilingNormal(n: Vec3, is2D: bool) {
    if is2D then n.y >= FloorDot else n.y <= -FloorDot
  }

  predicate WallNormal(n: Vec3, is2D: bool) {
    Abs(n.x) >= FloorDot || (!is2D && Abs(n.z) >= FloorDot)
  }

  /** The cached flags agree with the cached normal. */
  predicate ContactMatches(c: Collider, is2D: bool) {
    && c.onFloor == FloorNormal(c.lastNormal, is2D)
    && c.onCeiling == CeilingNormal(c.lastNormal, is2D)
    && c.onWall == WallNormal(c.lastNormal, is2D)
  }

  /** `clearContactState`: zero normal, no flags; the collider's own settings
      stay. */
  function ClearContact(c: Collider): (r: Collider)
    ensures r.lastNormal == Zero3 && !r.onFloor && !r.onWall && !r.onCeiling
    ensures r.is2D == c.is2D && r.isTrigger == c.isTrigger
    ensures ContactMatches(r, true) && ContactMatches(r, false)
  {
    c.(lastNormal := Zero3, onFloor := false, onWall := false, onCeiling := false)
  }

  /** `updateContactState`: the flags are derived from the new normal alone,
      so they describe only the last contact. */
  function UpdateContact(c: Collider, n: Vec3, is2D: bool): (r: Collider)
    ensures r.lastNormal == n && ContactMatches(r, is2D)
    ensures r.is2D == c.is2D && r.isTrigger == c.isTrigger
  {
    c.(lastNormal := n,
       onFloor := FloorNormal(n, is2D),
       onCeiling := CeilingNormal(n, is2D),
       onWall := WallNormal(n, is2D))
  }

  /** The flags do not depend on the previous contact. */
  lemma UpdateForgetsPrevious(c1: Collider, c2: Collider, n: Vec3, is2D: bool)
    requires c1.is2D == c2.is2D && c1.isTrigger == c2.isTrigger
    ensures UpdateContact(c1, n, is2D) == UpdateContact(c2, n, is2D)
  {
  }

  /** A normal is never both floor and ceiling; 2D and 3D mirror each other
      on y. */
  lemma FloorAndCeilingExclusive(n: Vec3, is2D: bool)
    ensures !(FloorNormal(n, is2D) && CeilingNormal(n, is2D))
    ensures FloorNormal(n, true) <==> FloorNormal(Vec3(n.x, -n.y, n.z), false)
    ensures CeilingNormal(n, true) <==> CeilingNormal(Vec3(n.x, -n.y, n.z), false)
  {
  }

  /** The unit normals a sweep produces: pushing up off a surface below is a
      floor in 3D (y up) but a ceiling in 2D (y down); a side normal is a wall. */
  lemma AxisNormalContacts()
    ensures FloorNormal(AxisNormal(1, 1.0), false) && CeilingNormal(AxisNormal(1, 1.0), true)
    ensures FloorNormal(AxisNormal(1, -1.0), true) && CeilingNormal(AxisNormal(1, -1.0), false)
    ensures WallNormal(AxisNormal(0, -1.0), true) && !FloorNormal(AxisNormal(0, -1.0), true)
    ensures WallNormal(AxisNormal(2, 1.0), false) && !WallNormal(AxisNormal(2, 1.0), true)
  {
  }

  // ---------------------------------------------------------------------
  // Slide settings

  /** The tunables of the slide loop; `floorDot` is the constant above. */
  datatype SlideSettings = SlideSettings(epsilon: real, maxSlides: int)

  const DefaultSettings: SlideSettings := SlideSettings(0.001, 4)

  const MinEpsilon: real := 0.00001

  /** The settings the source can reach: the default and any clamped update. */
  predicate SettingsOk(st: SlideSettings) {
    st.epsilon >= MinEpsilon && st.maxSlides >= 1
  }

  lemma DefaultSettingsOk()
    ensures SettingsOk(DefaultSettings)
  {
  }

  /** `SetSlideSettings`: epsilon is raised to 1e-5 and the slide count to 1
      when smaller; larger values are kept. */
  function SetSlideSettings(epsilon: real, maxSlides: int): (r: SlideSettings)
    ensures SettingsOk(r)
    ensures epsilon >= MinEpsilon ==> r.epsilon == epsilon
    ensures epsilon < MinEpsilon ==> r.epsilon == MinEpsilon
    ensures maxSlides >= 1 ==> r.maxSlides == maxSlides
    ensures maxSlides < 1 ==> r.maxSlides == 1
  {
    SlideSettings(if epsilon < MinEpsilon then MinEpsilon else epsilon,
                  if maxSlides < 1 then 1 else maxSlides)
  }

  // ---------------------------------------------------------------------
  // Candidates and the earliest hit

  /** A hit against one candidate: whose box, when, and with which normal. */
  datatype Contact = Contact(id: EntityId, time: real, normal: Vec3, box: Aabb)

  /** The box of `other` when the candidate filter admits it against mover
      `self`: another entity, with a collider of the same dimensionality, a
      transform, a compatible layer and a shape. */
  function TargetBox(s: Scene, self: EntityId, other: EntityId, is2D: bool): (r: Option<Aabb>)
    ensures r.Some? <==>
      && other != self
      && GetCollider(s, other).Some? && GetCollider(s, other).value.is2D == is2D
      && GetTransform(s, other).Some?
      && ShouldCollide(GetLayer(s, self), GetLayer(s, other))
      && HasShape(s, other, is2D)
    ensures r.Some? ==> r == GetAabb(s, other, GetTransform(s, other).value.position, is2D)
  {
    if other == self then None
    else match (GetCollider(s, other), GetTransform(s, other))
      case (Some(c), Some(t)) =>
        if c.is2D != is2D then None
        else if !ShouldCollide(GetLayer(s, self), GetLayer(s, other)) then None
        else GetAabb(s, other, t.position, is2D)
      case _ => None
  }

  /** What every reported contact satisfies. */
  predicate GoodContact(c: Contact, is2D: bool) {
    0.0 <= c.time <= 1.0 && UnitAxis(c.normal, is2D)
  }

  /** The sweep of the mover against one candidate. */
  function Probe(s: Scene, self: EntityId, is2D: bool, mover: Aabb, d: Vec3, other: EntityId): (r: Option<Contact>)
    ensures r.Some? ==> r.value.id == other && GoodContact(r.value, is2D)
    ensures r.Some? <==>
      (TargetBox(s, self, other, is2D).Some? &&
       SweepIn(is2D, mover, TargetBox(s, self, other, is2D).value, d).Some?)
  {
    match TargetBox(s, self, other, is2D)
    case None => None
    case Some(b) =>
      match SweepIn(is2D, mover, b, d)
      case None => None
      case Some(h) => Some(Contact(other, h.time, h.normal, b))
  }

  function Probes(s: Scene, self: EntityId, is2D: bool, mover: Aabb, d: Vec3, ids: seq<EntityId>): (r: seq<Option<Contact>>)
    ensures |r| == |ids|
    ensures forall i | 0 <= i < |ids| :: r[i] == Probe(s, self, is2D, mover, d, ids[i])
  {
    seq(|ids|, i requires 0 <= i < |ids| => Probe(s, self, is2D, mover, d, ids[i]))
  }

  /** The time to beat: the best hit so far, or the end of the move. */
  function BestTime(best: Option<Contact>): real {
    if best.Some? then best.value.time else 1.0
  }

  /** A probe result strictly earlier than `t`. */
  predicate Beats(p: Option<Contact>, t: real) {
    p.Some? && p.value.time < t
  }

  /** The candidate loop: a probe replaces the best so far only when strictly
      earlier, so a hit exactly at the end of the move never counts. */
  function Scan(ps: seq<Option<Contact>>, best: Option<Contact>): (r: Option<Contact>)
    ensures BestTime(r) <= BestTime(best)
    ensures forall i | 0 <= i < |ps| :: !Beats(ps[i], BestTime(r))
    ensures r == best || (r in ps && Beats(r, BestTime(best)))
    decreases |ps|
  {
    if |ps| == 0 then best
    else
      var next := if Beats(ps[0], BestTime(best)) then ps[0] else best;
      var r := Scan(ps[1..], next);
      assert forall i | 1 <= i < |ps| :: ps[i] == ps[1..][i - 1];
      r
  }

  /** A probe result at or before `t`. */
  predicate Reaches(p: Option<Contact>, t: real) {
    p.Some? && p.value.time <= t
  }

  /** Among equally early hits the first one wins: every earlier candidate
      misses the winning time. */
  lemma {:induction false} ScanPicksFirst(ps: seq<Option<Contact>>, best: Option<Contact>)
    requires Scan(ps, best) != best
    ensures exists i | 0 <= i < |ps| ::
      (ps[i] == Scan(ps, best) && forall j | 0 <= j < i :: !Reaches(ps[j], BestTime(Scan(ps, best))))
    decreases |ps|
  {
    var r := Scan(ps, best);
    var next := if Beats(ps[0], BestTime(best)) then ps[0] else best;
    assert r == Scan(ps[1..], next);
    if r == next {
      assert ps[0] == r;
    } else {
      ScanPicksFirst(ps[1..], next);
      var i :| 0 <= i < |ps[1..]| && ps[1..][i] == r &&
        forall j | 0 <= j < i :: !Reaches(ps[1..][j], BestTime(r));
      assert Beats(r, BestTime(next));
      assert ps[i + 1] == r;
      forall j | 0 <= j < i + 1
        ensures !Reaches(ps[j], BestTime(r))
      {
        if j > 0 { assert ps[j] == ps[1..][j - 1]; }
      }
    }
  }

  /** The earliest contact of the mover against the candidates `all`. */
  function EarliestContact(s: Scene, self: EntityId, is2D: bool, mover: Aabb, d: Vec3, all: seq<EntityId>): (r: Option<Contact>)
    ensures r.Some? ==> GoodContact(r.value, is2D) && r.value.time < 1.0 && r.value.id in all
    ensures r.Some? ==> Probe(s, self, is2D, mover, d, r.value.id) == r
    ensures forall o | o in all :: !Beats(Probe(s, self, is2D, mover, d, o), BestTime(r))
  {
    var ps := Probes(s, self, is2D, mover, d, all);
    var r := Scan(ps, None);
    assert r.Some? ==> exists i | 0 <= i < |all| :: ps[i] == r;
    assert forall o | o in all :: exists i | 0 <= i < |all| :: all[i] == o;
    r
  }

  // ---------------------------------------------------------------------
  // Depenetration and velocity

  /** The smaller of three reals. */
  function Min3(a: real, b: real, c: real): real { Min(a, Min(b, c)) }

  /** The push applied after a hit at time 0 when the boxes still intersect,
      paired with the normal it reports: the signed per-axis resolve on the
      axis with the smallest |resolve| (2D ties to Y, 3D ties to X, then Y),
      and that resolve's sign on that axis. */
  function Depenetrate(is2D: bool, m: Aabb, t: Aabb): (r: Option<(Vec3, Vec3)>)
    ensures r.Some? <==> IntersectsIn(is2D, m, t)
    ensures r.Some? ==> r.value.1 == (if is2D then OverlapNormal2(m, t) else OverlapNormal3(m, t)).value
    ensures r.Some? && is2D ==>
      r.value.0 == Times(r.value.1, Min(Abs(Resolve(m.x, t.x)), Abs(Resolve(m.y, t.y))))
    ensures r.Some? && !is2D ==>
      r.value.0 == Times(r.value.1, Min3(Abs(Resolve(m.x, t.x)), Abs(Resolve(m.y, t.y)), Abs(Resolve(m.z, t.z))))
    ensures r.Some? ==> TouchesIn(is2D, ShiftBox(m, r.value.0), t)
    ensures r.Some? ==> UnitAxis(r.value.1, is2D)
  {
    if is2D then Depenetrate2(m, t) else Depenetrate3(m, t)
  }

  /** The push by `r` along `axis` and the unit normal it reports: the push
      is the normal scaled by `|r|`. */
  function AxisPush(axis: nat, r: real): (p: (Vec3, Vec3))
    requires axis <= 2
    ensures p.0 == AxisNormal(axis, r)
    ensures p.1 == AxisNormal(axis, SignOf(r))
    ensures p.0 == Times(p.1, Abs(r))
    ensures UnitAxis(p.1, false) && (axis < 2 ==> UnitAxis(p.1, true))
  {
    assert SignOf(r) * Abs(r) == r;
    (AxisNormal(axis, r), AxisNormal(axis, SignOf(r)))
  }

  /** The 2D depenetration step. */
  function Depenetrate2(m: Aabb, t: Aabb): (r: Option<(Vec3, Vec3)>)
    ensures r.Some? <==> Intersects2(m, t)
    ensures r.Some? ==> r.value.1 == OverlapNormal2(m, t).value
    ensures r.Some? ==> r.value.0 == Times(r.value.1, Min(Abs(Resolve(m.x, t.x)), Abs(Resolve(m.y, t.y))))
    ensures r.Some? ==> TouchesIn(true, ShiftBox(m, r.value.0), t)
    ensures r.Some? ==> UnitAxis(r.value.1, true)
  {
    if !Intersects2(m, t) then None
    else
      PushStaysInside(m.x, t.x);
      PushStaysInside(m.y, t.y);
      var (rx, ry) := (Resolve(m.x, t.x), Resolve(m.y, t.y));
      if Abs(rx) < Abs(ry) then Some(AxisPush(0, rx)) else Some(AxisPush(1, ry))
  }

  /** The 3D depenetration step. */
  function Depenetrate3(m: Aabb, t: Aabb): (r: Option<(Vec3, Vec3)>)
    ensures r.Some? <==> Intersects3(m, t)
    ensures r.Some? ==> r.value.1 == OverlapNormal3(m, t).value
    ensures r.Some? ==>
      r.value.0 == Times(r.value.1, Min3(Abs(Resolve(m.x, t.x)), Abs(Resolve(m.y, t.y)), Abs(Resolve(m.z, t.z))))
    ensures r.Some? ==> TouchesIn(false, ShiftBox(m, r.value.0), t)
    ensures r.Some? ==> UnitAxis(r.value.1, false)
  {
    if !Intersects3(m, t) then None
    else
      PushStaysInside(m.x, t.x);
      PushStaysInside(m.y, t.y);
      PushStaysInside(m.z, t.z);
      var (rx, ry, rz) := (Resolve(m.x, t.x), Resolve(m.y, t.y), Resolve(m.z, t.z));
      var (ax, ay, az) := (Abs(rx), Abs(ry), Abs(rz));
      if ax <= ay && ax <= az then Some(AxisPush(0, rx))
      else if ay <= ax && ay <= az then Some(AxisPush(1, ry))
      else Some(AxisPush(2, rz))
  }

  /** The velocity after a contact: `v - n (v . n)`. */
  function SlideAlong(v: Vec3, n: Vec3): Vec3 {
    var k := Dot(v, n);
    Vec3(v.x - n.x * k, v.y - n.y * k, v.z - n.z * k)
  }

  /** Against a unit axis normal, sliding removes exactly the velocity along
      that axis and keeps the rest. */
  lemma SlideRemovesNormal(v: Vec3, axis: nat, sign: real)
    requires axis <= 2 && (sign == 1.0 || sign == -1.0)
    ensures var r := SlideAlong(v, AxisNormal(axis, sign));
      && Dot(r, AxisNormal(axis, sign)) == 0.0
      && (axis != 0 ==> r.x == v.x) && (axis != 1 ==> r.y == v.y) && (axis != 2 ==> r.z == v.z)
  {
  }

  /** Sliding a flat velocity along a unit axis normal leaves it flat and
      with no part along the normal. */
  lemma SlideAcrossAxis(v: Vec3, n: Vec3, is2D: bool)
    requires UnitAxis(n, is2D) && v == Flatten(v, is2D)
    ensures var r := SlideAlong(v, n);
      Dot(r, n) == 0.0 && r == Flatten(r, is2D)
  {
    if n.x == 1.0 || n.x == -1.0 {
      assert SlideAlong(v, n) == Vec3(0.0, v.y, v.z);
    } else if n.y == 1.0 || n.y == -1.0 {
      assert SlideAlong(v, n) == Vec3(v.x, 0.0, v.z);
    } else {
      assert n.z == 1.0 || n.z == -1.0;
      assert SlideAlong(v, n) == Vec3(v.x, v.y, 0.0);
    }
  }

  /** Landing on a floor: (5, -5, z) against (0, 1, 0) keeps x and z and
      stops the fall. */
  lemma SlideExample(z: real)
    ensures SlideAlong(Vec3(5.0, -5.0, z), Vec3(0.0, 1.0, 0.0)) == Vec3(5.0, 0.0, z)
  {
  }

  /** A 2D quantity lives in the x/y plane. */
  function Flatten(v: Vec3, is2D: bool): (r: Vec3)
    ensures is2D ==> r.z == 0.0 && r.x == v.x && r.y == v.y
    ensures !is2D ==> r == v
  {
    if is2D then Vec3(v.x, v.y, 0.0) else v
  }

  // ---------------------------------------------------------------------
  // Writing the mover back

  /** `r` differs from `s` at most in the components of kinds `ks` of entity
      `id`; the entity bookkeeping is the same. */
  ghost predicate ChangesOnly(s: Scene, r: Scene, id: EntityId, ks: set<Kind>) {
    && r.order == s.order && r.live == s.live && r.nextId == s.nextId
    && r.systems == s.systems && r.builder == s.builder && r.name == s.name
    && (WellTyped(s) ==> WellTyped(r))
    && forall k, x | x != id || k !in ks :: TryGetComponent(r, k, x) == TryGetComponent(s, k, x)
  }

  function Position(s: Scene, id: EntityId): Vec3
    requires GetTransform(s, id).Some?
  {
    GetTransform(s, id).value.position
  }

  /** Replace the position, keeping rotation and scale. */
  function MoveTo(s: Scene, id: EntityId, p: Vec3): (r: Scene)
    requires GetTransform(s, id).Some?
    ensures GetTransform(r, id) == Some(GetTransform(s, id).value.(position := p))
    ensures GetCollider(r, id) == GetCollider(s, id)
    ensures ChangesOnly(s, r, id, {TransformKind})
  {
    var r := AddComponent(s, id, TransformC(GetTransform(s, id).value.(position := p)));
    assert TryGetComponent(r, ColliderKind, id) == TryGetComponent(s, ColliderKind, id);
    r
  }

  /** Overwrite the mover's collider. */
  function SetCollider(s: Scene, id: EntityId, c: Collider): (r: Scene)
    ensures GetCollider(r, id) == Some(c)
    ensures GetTransform(r, id) == GetTransform(s, id)
    ensures ChangesOnly(s, r, id, {ColliderKind})
  {
    var r := AddComponent(s, id, ColliderC(c));
    assert TryGetComponent(r, TransformKind, id) == TryGetComponent(s, TransformKind, id);
    r
  }

  function VelocityKind(is2D: bool): Kind {
    if is2D then Velocity2DKind else Velocity3DKind
  }

  /** The velocity component the variant reads, as a vector. */
  function ReadVelocity(s: Scene, id: EntityId, is2D: bool): (r: Option<Vec3>)
    ensures r.Some? ==> r.value == Flatten(r.value, is2D)
  {
    if is2D then
      match GetVelocity2D(s, id)
      case Some(v) => Some(Vec3(v.vx, v.vy, 0.0))
      case None => None
    else
      match GetVelocity3D(s, id)
      case Some(v) => Some(v.v)
      case None => None
  }

  function WriteVelocity(s: Scene, id: EntityId, v: Vec3, is2D: bool): (r: Scene)
    ensures ReadVelocity(r, id, is2D) == Some(Flatten(v, is2D))
    ensures GetTransform(r, id) == GetTransform(s, id) && GetCollider(r, id) == GetCollider(s, id)
    ensures ChangesOnly(s, r, id, {VelocityKind(is2D)})
  {
    var r := if is2D then AddComponent(s, id, Velocity2DC(Velocity2D(v.x, v.y)))
             else AddComponent(s, id, Velocity3DC(Velocity3D(v)));
    assert TryGetComponent(r, TransformKind, id) == TryGetComponent(s, TransformKind, id);
    assert TryGetComponent(r, ColliderKind, id) == TryGetComponent(s, ColliderKind, id);
    r
  }

  // ---------------------------------------------------------------------
  // Steps shared by the two move routines

  /** Where a hit leaves the mover, and the normal it reports. The mover
      advances to the time of impact; after a hit later than 0 it is nudged
      `eps` along the normal; after a hit at 0 that still intersects it is
      pushed by the depenetration step, whose axis sign becomes the normal. */
  function Settle(s: Scene, id: EntityId, is2D: bool, pos: Vec3, d: Vec3, c: Contact, eps: real): (r: (Vec3, Vec3))
    ensures c.time > 0.0 ==> r == (Plus(Plus(pos, Times(d, c.time)), Times(c.normal, eps)), c.normal)
    ensures c.time <= 0.0 ==>
      var p := Plus(pos, Times(d, c.time));
      var b := GetAabb(s, id, p, is2D);
      if b.Some? && IntersectsIn(is2D, b.value, c.box)
      then r == (Plus(p, Depenetrate(is2D, b.value, c.box).value.0), Depenetrate(is2D, b.value, c.box).value.1)
      else r == (p, c.normal)
    ensures UnitAxis(c.normal, is2D) ==> UnitAxis(r.1, is2D)
  {
    var p := Plus(pos, Times(d, c.time));
    if c.time > 0.0 then (Plus(p, Times(c.normal, eps)), c.normal)
    else
      match GetAabb(s, id, p, is2D)
      case None => (p, c.normal)
      case Some(b) =>
        match Depenetrate(is2D, b, c.box)
        case None => (p, c.normal)
        case Some((delta, n)) => (Plus(p, delta), n)
  }

  lemma ChangesOnlyTrans(a: Scene, b: Scene, c: Scene, id: EntityId, ks1: set<Kind>, ks2: set<Kind>, ks: set<Kind>)
    requires ChangesOnly(a, b, id, ks1) && ChangesOnly(b, c, id, ks2) && ks1 <= ks && ks2 <= ks
    ensures ChangesOnly(a, c, id, ks)
  {
  }

  /** Writing the mover's transform and collider leaves its shapes alone. */
  lemma BodyKeepsShape(a: Scene, b: Scene, id: EntityId, is2D: bool)
    requires ChangesOnly(a, b, id, {TransformKind, ColliderKind})
    ensures HasShape(a, id, is2D) == HasShape(b, id, is2D)
    ensures forall p :: GetAabb(a, id, p, is2D) == GetAabb(b, id, p, is2D)
  {
    assert GetBox2D(a, id) == GetBox2D(b, id) by {
      assert TryGetComponent(a, Box2DKind, id) == TryGetComponent(b, Box2DKind, id);
    }
    assert GetCircle2D(a, id) == GetCircle2D(b, id) by {
      assert TryGetComponent(a, Circle2DKind, id) == TryGetComponent(b, Circle2DKind, id);
    }
    assert GetBox3D(a, id) == GetBox3D(b, id) by {
      assert TryGetComponent(a, Box3DKind, id) == TryGetComponent(b, Box3DKind, id);
    }
    assert GetSphere3D(a, id) == GetSphere3D(b, id) by {
      assert TryGetComponent(a, Sphere3DKind, id) == TryGetComponent(b, Sphere3DKind, id);
    }
  }

  /** The contact state is cleared before anything else happens. */
  function ClearMover(s: Scene, id: EntityId): (r: Scene)
    requires GetCollider(s, id).Some?
    ensures GetCollider(r, id) == Some(ClearContact(GetCollider(s, id).value))
    ensures GetTransform(r, id) == GetTransform(s, id)
    ensures ChangesOnly(s, r, id, {ColliderKind})
  {
    SetCollider(s, id, ClearContact(GetCollider(s, id).value))
  }

  /** Two scenes that agree on every component of `x` agree on everything
      the candidate filter reads about it. */
  lemma SameEntityLooksSame(a: Scene, b: Scene, x: EntityId, is2D: bool)
    requires forall k :: TryGetComponent(a, k, x) == TryGetComponent(b, k, x)
    ensures GetCollider(a, x) == GetCollider(b, x) && GetTransform(a, x) == GetTransform(b, x)
    ensures GetLayer(a, x) == GetLayer(b, x)
    ensures forall p :: GetAabb(a, x, p, is2D) == GetAabb(b, x, p, is2D)
  {
    assert TryGetComponent(a, ColliderKind, x) == TryGetComponent(b, ColliderKind, x);
    assert TryGetComponent(a, TransformKind, x) == TryGetComponent(b, TransformKind, x);
    assert TryGetComponent(a, LayerKind, x) == TryGetComponent(b, LayerKind, x);
    assert GetBox2D(a, x) == GetBox2D(b, x) by {
      assert TryGetComponent(a, Box2DKind, x) == TryGetComponent(b, Box2DKind, x);
    }
    assert GetCircle2D(a, x) == GetCircle2D(b, x) by {
      assert TryGetComponent(a, Circle2DKind, x) == TryGetComponent(b, Circle2DKind, x);
    }
    assert GetBox3D(a, x) == GetBox3D(b, x) by {
      assert TryGetComponent(a, Box3DKind, x) == TryGetComponent(b, Box3DKind, x);
    }
    assert GetSphere3D(a, x) == GetSphere3D(b, x) by {
      assert TryGetComponent(a, Sphere3DKind, x) == TryGetComponent(b, Sphere3DKind, x);
    }
  }

  /** Candidates do not see the mover's own transform, collider or velocity:
      the filter reads the other entity's components and only the mover's
      layer. */
  lemma ProbeIgnoresMoverBody(a: Scene, b: Scene, self: EntityId, is2D: bool, mover: Aabb, d: Vec3, other: EntityId)
    requires ChangesOnly(a, b, self, {TransformKind, ColliderKind, VelocityKind(is2D)})
    ensures Probe(a, self, is2D, mover, d, other) == Probe(b, self, is2D, mover, d, other)
  {
    if other != self {
      assert GetLayer(a, self) == GetLayer(b, self) by {
        assert TryGetComponent(a, LayerKind, self) == TryGetComponent(b, LayerKind, self);
      }
      SameEntityLooksSame(a, b, other, is2D);
    }
  }

  /** No candidate in the scene is hit before the end of the move `d`. */
  predicate NothingInTheWay(s: Scene, self: EntityId, is2D: bool, mover: Aabb, d: Vec3) {
    forall o | o in s.order :: !Beats(Probe(s, self, is2D, mover, d, o), 1.0)
  }

  /** Clearing the mover's contact state changes nothing a round reads
      before its first hit. */
  lemma ClearKeepsView(s: Scene, id: EntityId, is2D: bool, mover: Aabb, d: Vec3)
    requires GetTransform(s, id).Some? && GetCollider(s, id).Some?
    ensures var s1 := ClearMover(s, id);
      && GetTransform(s1, id) == GetTransform(s, id)
      && HasShape(s1, id, is2D) == HasShape(s, id, is2D)
      && (forall p :: GetAabb(s1, id, p, is2D) == GetAabb(s, id, p, is2D))
      && forall o :: Probe(s1, id, is2D, mover, d, o) == Probe(s, id, is2D, mover, d, o)
  {
    var s1 := ClearMover(s, id);
    assert GetTransform(s1, id) == GetTransform(s, id) by {
      assert TryGetComponent(s1, TransformKind, id) == TryGetComponent(s, TransformKind, id);
    }
    BodyKeepsShape(s, s1, id, is2D);
    forall o
      ensures Probe(s1, id, is2D, mover, d, o) == Probe(s, id, is2D, mover, d, o)
    {
      ProbeIgnoresMoverBody(s, s1, id, is2D, mover, d, o);
    }
  }

  // ---------------------------------------------------------------------
  // MoveAndCollide

  /** What a single collide step reports. `travelSq` is the squared length
      of the distance covered before the hit. */
  datatype CollisionInfo = CollisionInfo(hit: bool, collider: EntityId, normal: Vec3, travelSq: real)

  /** The report of a step that hit nothing or did not run. */
  const NoCollision := CollisionInfo(false, InvalidEntity, Zero3, 0.0)

  function LengthSq(v: Vec3): (r: real)
    ensures r >= 0.0
  {
    Dot(v, v)
  }

  /** Scaling a vector by a fraction in [0, 1] never lengthens it. */
  lemma ShorterWhenScaled(v: Vec3, t: real)
    requires 0.0 <= t <= 1.0
    ensures LengthSq(Times(v, t)) == t * t * LengthSq(v) <= LengthSq(v)
  {
    assert LengthSq(Times(v, t)) == t * t * LengthSq(v);
    assert t * t <= 1.0 by {
      assert t * t <= t * 1.0;
    }
    assert t * t * LengthSq(v) <= 1.0 * LengthSq(v) by {
      assert LengthSq(v) >= 0.0;
    }
  }

  /** The entry checks of `MoveAndCollide2D/3D`: a bound handle, a transform,
      a collider of the variant's dimensionality and a positive step. No
      velocity is needed. */
  predicate CollideReady(s: Scene, e: Entity, dt: real, is2D: bool) {
    && e.bound && GetTransform(s, e.id).Some?
    && GetCollider(s, e.id).Some? && GetCollider(s, e.id).value.is2D == is2D
    && dt > 0.0
  }

  /** The write-back after a hit: move to where the hit leaves the mover,
      record the contact, and report it. */
  function CollideHit(s: Scene, id: EntityId, is2D: bool, pos: Vec3, d: Vec3, c: Contact, eps: real): (r: (Scene, CollisionInfo))
    requires GetTransform(s, id).Some? && GetCollider(s, id).Some? && pos == Position(s, id)
    requires GoodContact(c, is2D)
    ensures ChangesOnly(s, r.0, id, {TransformKind, ColliderKind})
    ensures GetTransform(r.0, id).Some? && GetCollider(r.0, id).Some?
    ensures GetCollider(r.0, id).value == UpdateContact(GetCollider(s, id).value, r.1.normal, is2D)
    ensures r.1.hit && r.1.collider == c.id && UnitAxis(r.1.normal, is2D)
    ensures r.1.travelSq == LengthSq(Times(d, c.time)) <= LengthSq(d)
    ensures c.time > 0.0 ==>
      Position(r.0, id) == Plus(Plus(pos, Times(d, c.time)), Times(c.normal, eps)) && r.1.normal == c.normal
  {
    var (p, n) := Settle(s, id, is2D, pos, d, c, eps);
    var s1 := MoveTo(s, id, p);
    assert GetCollider(s1, id) == GetCollider(s, id) by {
      assert TryGetComponent(s1, ColliderKind, id) == TryGetComponent(s, ColliderKind, id);
    }
    var s2 := SetCollider(s1, id, UpdateContact(GetCollider(s, id).value, n, is2D));
    assert GetTransform(s2, id) == GetTransform(s1, id) by {
      assert TryGetComponent(s2, TransformKind, id) == TryGetComponent(s1, TransformKind, id);
    }
    ChangesOnlyTrans(s, s1, s2, id, {TransformKind}, {ColliderKind}, {TransformKind, ColliderKind});
    ShorterWhenScaled(d, c.time);
    (s2, CollisionInfo(true, c.id, n, LengthSq(Times(d, c.time))))
  }

  /** `MoveAndCollide2D` / `MoveAndCollide3D`: a single move by `motion`
      (not scaled by `dt`, which is only checked to be positive) that stops
      at the first hit. The contact state is cleared first. A mover without
      a shape stays put; with nothing hit it makes the whole move and still
      reports `false`; a hit moves it to the time of impact (nudged or
      pushed out as in the slide), records the contact and reports it. A hit
      whose entity is the invalid id counts as no hit, as in the source's
      test of the hit entity. */
  function MoveAndCollide(s: Scene, e: Entity, motion: Vec3, dt: real, st: SlideSettings, is2D: bool): (r: (Scene, bool, CollisionInfo))
    ensures !CollideReady(s, e, dt, is2D) ==> r == (s, false, NoCollision)
    ensures r.1 == r.2.hit && (!r.1 ==> r.2 == NoCollision)
    ensures ChangesOnly(s, r.0, e.id, {TransformKind, ColliderKind})
    ensures CollideReady(s, e, dt, is2D) ==>
      && GetTransform(r.0, e.id).Some? && GetCollider(r.0, e.id).Some?
      && ContactMatches(GetCollider(r.0, e.id).value, is2D)
    ensures r.1 ==>
      && GetCollider(r.0, e.id).value.lastNormal == r.2.normal
      && UnitAxis(r.2.normal, is2D)
      && r.2.collider in s.order && r.2.collider != e.id
    ensures CollideReady(s, e, dt, is2D) && !r.1 ==>
      GetCollider(r.0, e.id) == Some(ClearContact(GetCollider(s, e.id).value))
    ensures CollideReady(s, e, dt, is2D) && !HasShape(s, e.id, is2D) ==>
      !r.1 && Position(r.0, e.id) == Position(s, e.id)
    ensures r.1 ==> r.2.travelSq <= LengthSq(Flatten(motion, is2D))
  {
    if !CollideReady(s, e, dt, is2D) then (s, false, NoCollision)
    else
      var id := e.id;
      var s1 := ClearMover(s, id);
      var d := Flatten(motion, is2D);
      var pos := Position(s, id);
      assert GetTransform(s1, id) == GetTransform(s, id) by {
        assert TryGetComponent(s1, TransformKind, id) == TryGetComponent(s, TransformKind, id);
      }
      BodyKeepsShape(s, s1, id, is2D);
      var all := View(s1, {TransformKind, ColliderKind});
      match GetAabb(s1, id, pos, is2D)
      case None => (s1, false, NoCollision)
      case Some(mover) =>
        var c := EarliestContact(s1, id, is2D, mover, d, all);
        if c.None? || c.value.id == InvalidEntity then
          var s2 := MoveTo(s1, id, Plus(pos, d));
          assert GetCollider(s2, id) == GetCollider(s1, id) by {
            assert TryGetComponent(s2, ColliderKind, id) == TryGetComponent(s1, ColliderKind, id);
          }
          ChangesOnlyTrans(s, s1, s2, id, {ColliderKind}, {TransformKind}, {TransformKind, ColliderKind});
          (s2, false, NoCollision)
        else
          var (s2, info) := CollideHit(s1, id, is2D, pos, d, c.value, st.epsilon);
          ChangesOnlyTrans(s, s1, s2, id, {ColliderKind}, {TransformKind, ColliderKind}, {TransformKind, ColliderKind});
          (s2, true, info)
  }

  /** With nothing in the way, a collide step makes the whole move and
      reports no hit. */
  lemma CollideFreeMotion(s: Scene, e: Entity, motion: Vec3, dt: real, st: SlideSettings, is2D: bool)
    requires CollideReady(s, e, dt, is2D) && HasShape(s, e.id, is2D)
    requires NothingInTheWay(s, e.id, is2D, GetAabb(s, e.id, Position(s, e.id), is2D).value, Flatten(motion, is2D))
    ensures var r := MoveAndCollide(s, e, motion, dt, st, is2D);
      && !r.1
      && Position(r.0, e.id) == Plus(Position(s, e.id), Flatten(motion, is2D))
  {
    var d := Flatten(motion, is2D);
    var s1 := ClearMover(s, e.id);
    var mover := GetAabb(s, e.id, Position(s, e.id), is2D).value;
    ClearKeepsView(s, e.id, is2D, mover, d);
    var s2 := MoveTo(s1, e.id, Plus(Position(s, e.id), d));
    assert MoveAndCollide(s, e, motion, dt, st, is2D) == (s2, false, NoCollision);
  }

  /** A reported hit is the earliest of every entity in the scene: its probe
      exists, the reported travel is the move up to its time, and no entity
      is hit strictly earlier. */
  lemma CollideReportsEarliest(s: Scene, e: Entity, motion: Vec3, dt: real, st: SlideSettings, is2D: bool)
    requires CollideReady(s, e, dt, is2D) && MoveAndCollide(s, e, motion, dt, st, is2D).1
    ensures HasShape(s, e.id, is2D)
    ensures var r := MoveAndCollide(s, e, motion, dt, st, is2D);
      var d := Flatten(motion, is2D);
      var mover := GetAabb(s, e.id, Position(s, e.id), is2D).value;
      var p := Probe(s, e.id, is2D, mover, d, r.2.collider);
      && p.Some?
      && r.2.travelSq == LengthSq(Times(d, p.value.time))
      && forall o | o in s.order :: !Beats(Probe(s, e.id, is2D, mover, d, o), p.value.time)
  {
    var d := Flatten(motion, is2D);
    var s1 := ClearMover(s, e.id);
    var mover := GetAabb(s, e.id, Position(s, e.id), is2D).value;
    ClearKeepsView(s, e.id, is2D, mover, d);
    var all := View(s1, {TransformKind, ColliderKind});
    var c := EarliestContact(s1, e.id, is2D, mover, d, all).value;
    assert MoveAndCollide(s, e, motion, dt, st, is2D).2 == CollideHit(s1, e.id, is2D, Position(s, e.id), d, c, st.epsilon).1;
    forall o | o in s.order
      ensures !Beats(Probe(s, e.id, is2D, mover, d, o), c.time)
    {
      if o !in all {
        OutsideViewNoProbe(s1, e.id, is2D, mover, d, o);
      }
    }
  }

  /** An entity outside the transform-and-collider view is never a
      candidate. */
  lemma OutsideViewNoProbe(s: Scene, self: EntityId, is2D: bool, mover: Aabb, d: Vec3, o: EntityId)
    requires o in s.order && o !in View(s, {TransformKind, ColliderKind})
    ensures Probe(s, self, is2D, mover, d, o).None?
  {
    assert !HoldsAll(s, o, {TransformKind, ColliderKind});
    assert !HasComponent(s, TransformKind, o) || !HasComponent(s, ColliderKind, o);
  }

  // ---------------------------------------------------------------------
  // Contact queries

  /** The collider seen through a handle; an unbound handle sees none. */
  function ColliderOf(s: Scene, e: Entity): (r: Option<Collider>)
    ensures r.Some? <==> e.bound && GetCollider(s, e.id).Some?
    ensures r.Some? ==> r == GetCollider(s, e.id)
  {
    if e.bound then GetCollider(s, e.id) else None
  }

  /** `IsOnFloor`: the stored flag, or false without a collider. */
  function IsOnFloor(s: Scene, e: Entity): (r: bool)
    ensures r ==> ColliderOf(s, e).Some?
    ensures ColliderOf(s, e).Some? ==> r == ColliderOf(s, e).value.onFloor
  {
    match ColliderOf(s, e)
    case Some(c) => c.onFloor
    case None => false
  }

  /** `IsOnWall`: the stored flag, or false without a collider. */
  function IsOnWall(s: Scene, e: Entity): (r: bool)
    ensures r ==> ColliderOf(s, e).Some?
    ensures ColliderOf(s, e).Some? ==> r == ColliderOf(s, e).value.onWall
  {
    match ColliderOf(s, e)
    case Some(c) => c.onWall
    case None => false
  }

  /** `IsOnCeiling`: the stored flag, or false without a collider. */
  function IsOnCeiling(s: Scene, e: Entity): (r: bool)
    ensures r ==> ColliderOf(s, e).Some?
    ensures ColliderOf(s, e).Some? ==> r == ColliderOf(s, e).value.onCeiling
  {
    match ColliderOf(s, e)
    case Some(c) => c.onCeiling
    case None => false
  }

  /** `GetFloorNormal`: the last contact normal, or zero without a collider. */
  function GetFloorNormal(s: Scene, e: Entity): (n: Vec3)
    ensures ColliderOf(s, e).None? ==> n == Zero3
    ensures ColliderOf(s, e).Some? ==> n == ColliderOf(s, e).value.lastNormal
  {
    match ColliderOf(s, e)
    case Some(c) => c.lastNormal
    case None => Zero3
  }

  /** Once a collider's flags match its normal, the three queries are the
      classification of the reported normal. */
  lemma QueriesClassifyNormal(s: Scene, e: Entity, is2D: bool)
    requires ColliderOf(s, e).Some? && ContactMatches(ColliderOf(s, e).value, is2D)
    ensures IsOnFloor(s, e) == FloorNormal(GetFloorNormal(s, e), is2D)
    ensures IsOnCeiling(s, e) == CeilingNormal(GetFloorNormal(s, e), is2D)
    ensures IsOnWall(s, e) == WallNormal(GetFloorNormal(s, e), is2D)
    ensures !(IsOnFloor(s, e) && IsOnCeiling(s, e))
  {
    FloorAndCeilingExclusive(GetFloorNormal(s, e), is2D);
  }
}
