/** `MoveAndSlide2D` / `MoveAndSlide3D` (src/Melkam/physics/Collider.cpp:
    581-725): the slide loop on top of the collision layer. A round sweeps
    the rest of the move against every candidate, settles at the earliest
    hit and slides the velocity along its normal; the loop state carries the
    normals hit so far, so the final velocity can be stated as the starting
    one slid along each of them in turn. */
module Sliding {
  import opened Wrappers
  import opened Components
  import opened SceneStore
  import opened EntityHandle
  import opened Geometry
  import opened Collision

  // ---------------------------------------------------------------------
  // One round of the slide loop

  /** The loop state: the scene (the mover's transform and collider are
      written in place), the working velocity, the unused fraction of the
      move, whether the mover moved, whether to go on, whether the loop gave
      up for want of a shape, the rounds run so far, and the normals the
      hits reported, first to last. */
  datatype Slide = Slide(scene: Scene, vel: Vec3, remaining: real, moved: bool,
                         going: bool, aborted: bool, rounds: nat, hits: seq<Vec3>)

  /** A velocity slid along each normal in turn, first to last. */
  function SlideAll(v: Vec3, ns: seq<Vec3>): Vec3
    decreases |ns|
  {
    if ns == [] then v else SlideAll(SlideAlong(v, ns[0]), ns[1..])
  }

  lemma {:induction false} SlideAllSnoc(v: Vec3, ns: seq<Vec3>, n: Vec3)
    ensures SlideAll(v, ns + [n]) == SlideAlong(SlideAll(v, ns), n)
    decreases |ns|
  {
    if ns == [] {
      assert SlideAll(v, [n]) == SlideAll(SlideAlong(v, n), []);
    } else {
      assert (ns + [n])[1..] == ns[1..] + [n];
      SlideAllSnoc(SlideAlong(v, ns[0]), ns[1..], n);
    }
  }

  /** The last reported normal, or zero before any hit. */
  function LastHit(hits: seq<Vec3>): Vec3 {
    if hits == [] then Zero3 else hits[|hits| - 1]
  }

  /** The move still to make: velocity times step times the unused fraction. */
  function Displacement(v: Vec3, dt: real, remaining: real): Vec3 {
    Vec3(v.x * dt * remaining, v.y * dt * remaining, v.z * dt * remaining)
  }

  /** Every component of the move within `eps`: the loop stops. */
  predicate Negligible(d: Vec3, eps: real, is2D: bool) {
    Abs(d.x) <= eps && Abs(d.y) <= eps && (is2D || Abs(d.z) <= eps)
  }

  /** The unused fraction after a hit at `t`. */
  function Shrink(remaining: real, t: real): (r: real)
    requires 0.0 <= t <= 1.0
    ensures 0.0 <= remaining ==> 0.0 <= r <= remaining
  {
    assert 0.0 <= remaining ==> remaining * t >= 0.0 && remaining * (1.0 - t) >= 0.0;
    remaining * (1.0 - t)
  }

  /** What the loop keeps true of its state. */
  ghost predicate SlideInv(x: Slide, id: EntityId, is2D: bool) {
    && GetTransform(x.scene, id).Some? && GetCollider(x.scene, id).Some?
    && ContactMatches(GetCollider(x.scene, id).value, is2D)
    && x.vel == Flatten(x.vel, is2D)
    && 0.0 <= x.remaining <= 1.0
    && (x.aborted ==> !x.going)
    && Dot(x.vel, GetCollider(x.scene, id).value.lastNormal) == 0.0
  }

  /** How one round relates its state to the next: only the mover's transform
      and collider change, the invariant is kept, the unused fraction never
      grows, a move is never forgotten, and a give-up leaves the scene as
      it was. */
  ghost predicate RoundStep(x: Slide, r: Slide, id: EntityId, is2D: bool) {
    && ChangesOnly(x.scene, r.scene, id, {TransformKind, ColliderKind})
    && SlideInv(r, id, is2D)
    && r.remaining <= x.remaining
    && r.rounds == x.rounds + 1
    && (x.moved ==> r.moved)
    && (r.aborted ==> r.scene == x.scene)
  }

  /** The rest of a round that hit `c`. The working velocity loses its part
      along the reported normal. */
  function AfterHit(st: SlideSettings, id: EntityId, is2D: bool, x: Slide, pos: Vec3, d: Vec3, c: Contact): (r: Slide)
    requires SlideInv(x, id, is2D) && x.going && GoodContact(c, is2D) && c.time < 1.0
    requires pos == Position(x.scene, id)
    ensures RoundStep(x, r, id, is2D)
    ensures r.moved && !r.aborted
    ensures r.going <==> r.remaining > st.epsilon
    ensures r.remaining == Shrink(x.remaining, c.time)
    ensures Dot(r.vel, GetCollider(r.scene, id).value.lastNormal) == 0.0
    ensures var (p, n) := Settle(x.scene, id, is2D, pos, d, c, st.epsilon);
      && Position(r.scene, id) == p
      && GetCollider(r.scene, id) == Some(UpdateContact(GetCollider(x.scene, id).value, n, is2D))
      && r.vel == SlideAlong(x.vel, n)
      && r.hits == x.hits + [n]
    ensures OneHit(Seen(x, id), Seen(r, id), is2D)
  {
    var (p, n) := Settle(x.scene, id, is2D, pos, d, c, st.epsilon);
    var s1 := MoveTo(x.scene, id, p);
    assert GetCollider(s1, id) == GetCollider(x.scene, id) by {
      assert TryGetComponent(s1, ColliderKind, id) == TryGetComponent(x.scene, ColliderKind, id);
    }
    var s2 := SetCollider(s1, id, UpdateContact(GetCollider(s1, id).value, n, is2D));
    assert GetTransform(s2, id) == GetTransform(s1, id) by {
      assert TryGetComponent(s2, TransformKind, id) == TryGetComponent(s1, TransformKind, id);
    }
    ChangesOnlyTrans(x.scene, s1, s2, id, {TransformKind}, {ColliderKind}, {TransformKind, ColliderKind});
    SlideAcrossAxis(x.vel, n, is2D);
    var rem := Shrink(x.remaining, c.time);
    var r := Slide(s2, SlideAlong(x.vel, n), rem, true, rem > st.epsilon, false, x.rounds + 1, x.hits + [n]);
    assert r.hits[..|x.hits|] == x.hits;
    r
  }

  /** One pass of the loop body. */
  function Round(st: SlideSettings, id: EntityId, is2D: bool, dt: real, all: seq<EntityId>, x: Slide): (r: Slide)
    requires SlideInv(x, id, is2D) && x.going
    ensures RoundStep(x, r, id, is2D)
    ensures r.aborted ==> !HasShape(x.scene, id, is2D)
    ensures r.going ==> HasShape(x.scene, id, is2D)
    ensures !HasShape(x.scene, id, is2D) ==> r.scene == x.scene && r.moved == x.moved
    ensures OneHit(Seen(x, id), Seen(r, id), is2D)
  {
    var d := Displacement(x.vel, dt, x.remaining);
    var pos := Position(x.scene, id);
    var x1 := x.(rounds := x.rounds + 1);
    if Negligible(d, st.epsilon, is2D) then x1.(going := false)
    else
      match GetAabb(x.scene, id, pos, is2D)
      case None => x1.(going := false, aborted := true)
      case Some(mover) =>
        match EarliestContact(x.scene, id, is2D, mover, d, all)
        case None => x1.(scene := MoveTo(x.scene, id, Plus(pos, d)), moved := true, going := false)
        case Some(c) => AfterHit(st, id, is2D, x, pos, d, c)
  }

  /** The slide loop from iteration `iter`: rounds run while the previous
      round asked to go on and fewer than `maxSlides` have started. */
  function SlideLoop(st: SlideSettings, id: EntityId, is2D: bool, dt: real, all: seq<EntityId>, iter: int, x: Slide): (r: Slide)
    requires SlideInv(x, id, is2D)
    ensures SlideInv(r, id, is2D)
    ensures ChangesOnly(x.scene, r.scene, id, {TransformKind, ColliderKind})
    ensures r.remaining <= x.remaining && (x.moved ==> r.moved)
    ensures iter <= st.maxSlides ==> r.rounds <= x.rounds + (st.maxSlides - iter)
    ensures r.aborted ==> r.scene == x.scene && (x.aborted || !HasShape(x.scene, id, is2D))
    ensures !HasShape(x.scene, id, is2D) ==> r.scene == x.scene && r.moved == x.moved
    ensures ManyHits(Seen(x, id), Seen(r, id), is2D)
    decreases st.maxSlides - iter
  {
    if iter >= st.maxSlides || !x.going then
      NoRoundsNoHits(Seen(x, id), is2D);
      x
    else
      var x1 := Round(st, id, is2D, dt, all, x);
      var r := SlideLoop(st, id, is2D, dt, all, iter + 1, x1);
      assert ChangesOnly(x.scene, r.scene, id, {TransformKind, ColliderKind}) by {
        var ks := {TransformKind, ColliderKind};
        ChangesOnlyTrans(x.scene, x1.scene, r.scene, id, ks, ks, ks);
      }
      assert r.aborted ==> r.scene == x.scene by {
        if r.aborted && !x1.aborted {
          BodyKeepsShape(x.scene, x1.scene, id, is2D);
        }
      }
      assert !HasShape(x.scene, id, is2D) ==> r.scene == x.scene && r.moved == x.moved by {
        BodyKeepsShape(x.scene, x1.scene, id, is2D);
      }
      OneThenMany(Seen(x, id), Seen(x1, id), Seen(r, id), is2D);
      r
  }

  /** The part of the loop state the hit list speaks about: the hits, the
      working velocity, the mover's reported normal and the round count. */
  datatype HitView = HitView(hits: seq<Vec3>, vel: Vec3, normal: Vec3, rounds: nat)

  function Seen(x: Slide, id: EntityId): HitView
    requires GetCollider(x.scene, id).Some?
  {
    HitView(x.hits, x.vel, GetCollider(x.scene, id).value.lastNormal, x.rounds)
  }

  /** What one round does to the hit list: either no hit, with velocity and
      reported normal kept, or one more hit whose unit-axis normal is the
      reported one and along which the velocity was slid. */
  predicate OneHit(a: HitView, b: HitView, is2D: bool) {
    || (b.hits == a.hits && b.vel == a.vel && b.normal == a.normal)
    || (&& |b.hits| == |a.hits| + 1 && b.hits[..|a.hits|] == a.hits
        && var n := b.hits[|a.hits|];
        && UnitAxis(n, is2D) && b.vel == SlideAlong(a.vel, n) && b.normal == n)
  }

  /** What any number of rounds do to the hit list: it only grows, by at
      most one hit a round; every new normal is a unit axis; the velocity
      is the earlier one slid along the new normals in order; and the
      reported normal is the newest hit, or kept when there was none. */
  predicate ManyHits(a: HitView, b: HitView, is2D: bool) {
    && |a.hits| <= |b.hits| && b.hits[..|a.hits|] == a.hits
    && |b.hits| - |a.hits| <= b.rounds - a.rounds
    && (forall i | |a.hits| <= i < |b.hits| :: UnitAxis(b.hits[i], is2D))
    && b.vel == SlideAll(a.vel, b.hits[|a.hits|..])
    && b.normal == if |b.hits| == |a.hits| then a.normal else b.hits[|b.hits| - 1]
  }

  lemma NoRoundsNoHits(a: HitView, is2D: bool)
    ensures ManyHits(a, a, is2D)
  {
    assert a.hits[..|a.hits|] == a.hits;
    assert a.hits[|a.hits|..] == [];
  }

  /** One round followed by any number of rounds. */
  lemma {:induction false} OneThenMany(a: HitView, b: HitView, c: HitView, is2D: bool)
    requires OneHit(a, b, is2D) && b.rounds == a.rounds + 1 && ManyHits(b, c, is2D)
    ensures ManyHits(a, c, is2D)
  {
    var k := |a.hits|;
    if |b.hits| != k {
      var n := b.hits[k];
      assert b.hits == a.hits + [n] by {
        assert b.hits == b.hits[..k] + [n];
      }
      HitsPrepend(a.hits, n, c.hits, a.vel);
      forall i | k <= i < |c.hits|
        ensures UnitAxis(c.hits[i], is2D)
      {
        if i == k {
          assert c.hits[i] == n;
        }
      }
    }
  }

  /** A hit list that starts with `xs` and then `n` slides along `n` first. */
  lemma HitsPrepend(xs: seq<Vec3>, n: Vec3, ys: seq<Vec3>, v: Vec3)
    requires |xs| + 1 <= |ys| && ys[..|xs| + 1] == xs + [n]
    ensures ys[..|xs|] == xs && ys[|xs|] == n
    ensures SlideAll(v, ys[|xs|..]) == SlideAll(SlideAlong(v, n), ys[|xs| + 1..])
  {
    var k := |xs|;
    assert ys[..k] == ys[..k + 1][..k];
    assert ys[k] == ys[..k + 1][k];
    assert ys[k..][1..] == ys[k + 1..];
  }

  // ---------------------------------------------------------------------
  // MoveAndSlide

  /** The entry checks of `MoveAndSlide2D/3D`: a bound handle, a transform,
      the variant's velocity component, a collider of the variant's
      dimensionality, and a positive step. */
  predicate SlideReady(s: Scene, e: Entity, dt: real, is2D: bool) {
    && e.bound && GetTransform(s, e.id).Some? && ReadVelocity(s, e.id, is2D).Some?
    && GetCollider(s, e.id).Some? && GetCollider(s, e.id).value.is2D == is2D
    && dt > 0.0
  }

  /** The clear-then-loop part of `MoveAndSlide2D/3D`, before the velocity
      is written back. The candidate list is the creation-order view of
      entities with a transform and a collider, taken once. */
  function RunSlide(s: Scene, id: EntityId, dt: real, st: SlideSettings, is2D: bool): (x: Slide)
    requires GetTransform(s, id).Some? && GetCollider(s, id).Some? && ReadVelocity(s, id, is2D).Some?
    ensures SlideInv(x, id, is2D)
    ensures ChangesOnly(s, x.scene, id, {TransformKind, ColliderKind})
    ensures !HasShape(s, id, is2D) ==> !x.moved && Position(x.scene, id) == Position(s, id)
    ensures x.aborted ==> !HasShape(s, id, is2D)
    ensures st.maxSlides >= 0 ==> x.rounds <= st.maxSlides
    ensures st.maxSlides >= 0 ==> |x.hits| <= st.maxSlides
    ensures forall h | h in x.hits :: UnitAxis(h, is2D)
    ensures x.vel == SlideAll(ReadVelocity(s, id, is2D).value, x.hits)
    ensures GetCollider(x.scene, id).value.lastNormal == LastHit(x.hits)
  {
    var s1 := ClearMover(s, id);
    var all := View(s1, {TransformKind, ColliderKind});
    var x := SlideLoop(st, id, is2D, dt, all, 0, Slide(s1, ReadVelocity(s, id, is2D).value, 1.0, false, true, false, 0, []));
    assert x.hits[0..] == x.hits;
    assert HasShape(s, id, is2D) == HasShape(s1, id, is2D) by {
      BodyKeepsShape(s, s1, id, is2D);
    }
    assert GetTransform(s1, id) == GetTransform(s, id) by {
      assert TryGetComponent(s1, TransformKind, id) == TryGetComponent(s, TransformKind, id);
    }
    var ks := {TransformKind, ColliderKind};
    assert ChangesOnly(s, x.scene, id, ks) by {
      ChangesOnlyTrans(s, s1, x.scene, id, {ColliderKind}, ks, ks);
    }
    x
  }

  /** The normals the hits of a move reported, first to last. */
  function SlideHits(s: Scene, e: Entity, dt: real, st: SlideSettings, is2D: bool): (hits: seq<Vec3>)
    requires SlideReady(s, e, dt, is2D)
    ensures forall h | h in hits :: UnitAxis(h, is2D)
  {
    RunSlide(s, e.id, dt, st, is2D).hits
  }

  /** `MoveAndSlide2D` / `MoveAndSlide3D`: move by velocity times `dt`,
      sliding along whatever is hit, for at most `maxSlides` rounds; write the
      slid velocity back and report whether the mover moved. A mover without
      a shape gives up with `false` and its velocity unwritten. */
  function MoveAndSlide(s: Scene, e: Entity, dt: real, st: SlideSettings, is2D: bool): (r: (Scene, bool))
    ensures !SlideReady(s, e, dt, is2D) ==> r == (s, false)
    ensures ChangesOnly(s, r.0, e.id, {TransformKind, ColliderKind, VelocityKind(is2D)})
    ensures SlideReady(s, e, dt, is2D) ==>
      GetCollider(r.0, e.id).Some? && ContactMatches(GetCollider(r.0, e.id).value, is2D) &&
      GetTransform(r.0, e.id).Some?
    ensures SlideReady(s, e, dt, is2D) && !HasShape(s, e.id, is2D) ==>
      !r.1 && Position(r.0, e.id) == Position(s, e.id)
    ensures SlideReady(s, e, dt, is2D) && HasShape(s, e.id, is2D) ==>
      && ReadVelocity(r.0, e.id, is2D).Some?
      && Dot(ReadVelocity(r.0, e.id, is2D).value, GetCollider(r.0, e.id).value.lastNormal) == 0.0
    ensures SlideReady(s, e, dt, is2D) && HasShape(s, e.id, is2D) ==>
      var hits := SlideHits(s, e, dt, st, is2D);
      && ReadVelocity(r.0, e.id, is2D) == Some(SlideAll(ReadVelocity(s, e.id, is2D).value, hits))
      && GetCollider(r.0, e.id).value.lastNormal == LastHit(hits)
      && (forall h | h in hits :: UnitAxis(h, is2D))
      && (st.maxSlides >= 0 ==> |hits| <= st.maxSlides)
  {
    if !SlideReady(s, e, dt, is2D) then (s, false)
    else
      var x := RunSlide(s, e.id, dt, st, is2D);
      var body := {TransformKind, ColliderKind, VelocityKind(is2D)};
      if x.aborted then
        assert ChangesOnly(s, x.scene, e.id, body) by {
          ChangesOnlyTrans(s, x.scene, x.scene, e.id, {TransformKind, ColliderKind}, {}, body);
        }
        (x.scene, false)
      else
        var r := WriteVelocity(x.scene, e.id, x.vel, is2D);
        assert ChangesOnly(s, r, e.id, body) by {
          ChangesOnlyTrans(s, x.scene, r, e.id, {TransformKind, ColliderKind}, {VelocityKind(is2D)}, body);
        }
        assert GetCollider(r, e.id) == GetCollider(x.scene, e.id) by {
          assert TryGetComponent(r, ColliderKind, e.id) == TryGetComponent(x.scene, ColliderKind, e.id);
        }
        assert GetTransform(r, e.id) == GetTransform(x.scene, e.id) by {
          assert TryGetComponent(r, TransformKind, e.id) == TryGetComponent(x.scene, TransformKind, e.id);
        }
        (r, x.moved)
  }

  /** The loop part of standing still: one round that finds nothing to do. */
  lemma StillSlide(s: Scene, id: EntityId, dt: real, st: SlideSettings, is2D: bool)
    requires GetTransform(s, id).Some? && GetCollider(s, id).Some? && ReadVelocity(s, id, is2D) == Some(Zero3)
    requires SettingsOk(st)
    ensures RunSlide(s, id, dt, st, is2D) == Slide(ClearMover(s, id), Zero3, 1.0, false, false, false, 1, [])
  {
    var s1 := ClearMover(s, id);
    var all := View(s1, {TransformKind, ColliderKind});
    var x0 := Slide(s1, Zero3, 1.0, false, true, false, 0, []);
    assert Displacement(Zero3, dt, 1.0) == Zero3;
    NegligibleRound(st, id, is2D, dt, all, x0);
  }

  /** A round whose move is negligible only stops the loop. */
  lemma NegligibleRound(st: SlideSettings, id: EntityId, is2D: bool, dt: real, all: seq<EntityId>, x: Slide)
    requires SlideInv(x, id, is2D) && x.going
    requires Negligible(Displacement(x.vel, dt, x.remaining), st.epsilon, is2D)
    ensures Round(st, id, is2D, dt, all, x) == x.(going := false, rounds := x.rounds + 1)
    ensures st.maxSlides >= 1 && x.rounds == 0 ==>
      SlideLoop(st, id, is2D, dt, all, 0, x) == x.(going := false, rounds := 1)
  {
    if st.maxSlides >= 1 {
      var x1 := Round(st, id, is2D, dt, all, x);
      assert SlideLoop(st, id, is2D, dt, all, 0, x) == SlideLoop(st, id, is2D, dt, all, 1, x1);
    }
  }

  /** A mover that stands still stays where it is and reports no movement;
      its velocity is written back unchanged and its contact state is
      cleared. */
  lemma SlideStandsStill(s: Scene, e: Entity, dt: real, st: SlideSettings, is2D: bool)
    requires SlideReady(s, e, dt, is2D) && SettingsOk(st)
    requires ReadVelocity(s, e.id, is2D) == Some(Zero3)
    ensures !MoveAndSlide(s, e, dt, st, is2D).1
    ensures Position(MoveAndSlide(s, e, dt, st, is2D).0, e.id) == Position(s, e.id)
    ensures ReadVelocity(MoveAndSlide(s, e, dt, st, is2D).0, e.id, is2D) == Some(Zero3)
    ensures GetCollider(MoveAndSlide(s, e, dt, st, is2D).0, e.id) == Some(ClearContact(GetCollider(s, e.id).value))
  {
    StillResult(s, e, dt, st, is2D);
    assert Flatten(Zero3, is2D) == Zero3;
  }

  lemma StillResult(s: Scene, e: Entity, dt: real, st: SlideSettings, is2D: bool)
    requires SlideReady(s, e, dt, is2D) && SettingsOk(st)
    requires ReadVelocity(s, e.id, is2D) == Some(Zero3)
    ensures MoveAndSlide(s, e, dt, st, is2D) == (WriteVelocity(ClearMover(s, e.id), e.id, Zero3, is2D), false)
  {
    StillSlide(s, e.id, dt, st, is2D);
  }

  /** A round with nothing in the way makes the whole move and stops. */
  lemma FreeRound(st: SlideSettings, id: EntityId, is2D: bool, dt: real, all: seq<EntityId>, x: Slide)
    requires SlideInv(x, id, is2D) && x.going && HasShape(x.scene, id, is2D)
    requires var d := Displacement(x.vel, dt, x.remaining);
      && !Negligible(d, st.epsilon, is2D)
      && forall o | o in all ::
           !Beats(Probe(x.scene, id, is2D, GetAabb(x.scene, id, Position(x.scene, id), is2D).value, d, o), 1.0)
    ensures Round(st, id, is2D, dt, all, x)
      == x.(scene := MoveTo(x.scene, id, Plus(Position(x.scene, id), Displacement(x.vel, dt, x.remaining))),
            moved := true, going := false, rounds := x.rounds + 1)
    ensures st.maxSlides >= 1 ==> SlideLoop(st, id, is2D, dt, all, 0, x) == Round(st, id, is2D, dt, all, x)
  {
    var d := Displacement(x.vel, dt, x.remaining);
    var mover := GetAabb(x.scene, id, Position(x.scene, id), is2D).value;
    var c := EarliestContact(x.scene, id, is2D, mover, d, all);
    if c.Some? {
      assert Beats(Probe(x.scene, id, is2D, mover, d, c.value.id), 1.0);
      assert false;
    }
    LoneRound(st, id, is2D, dt, all, x);
  }

  /** A first round that stops the slide is the whole loop. */
  lemma LoneRound(st: SlideSettings, id: EntityId, is2D: bool, dt: real, all: seq<EntityId>, x: Slide)
    requires SlideInv(x, id, is2D) && x.going && !Round(st, id, is2D, dt, all, x).going
    ensures st.maxSlides >= 1 ==> SlideLoop(st, id, is2D, dt, all, 0, x) == Round(st, id, is2D, dt, all, x)
  {
    var r := Round(st, id, is2D, dt, all, x);
    assert SlideLoop(st, id, is2D, dt, all, 1, r) == r;
  }

  /** The loop part of a free flight: one round, the whole move. */
  lemma FreeSlide(s: Scene, id: EntityId, dt: real, st: SlideSettings, is2D: bool)
    requires GetTransform(s, id).Some? && GetCollider(s, id).Some? && ReadVelocity(s, id, is2D).Some?
    requires HasShape(s, id, is2D) && SettingsOk(st)
    requires var d := Displacement(ReadVelocity(s, id, is2D).value, dt, 1.0);
      && !Negligible(d, st.epsilon, is2D)
      && NothingInTheWay(s, id, is2D, GetAabb(s, id, Position(s, id), is2D).value, d)
    ensures var v := ReadVelocity(s, id, is2D).value;
      var s1 := ClearMover(s, id);
      RunSlide(s, id, dt, st, is2D)
        == Slide(MoveTo(s1, id, Plus(Position(s, id), Displacement(v, dt, 1.0))), v, 1.0, true, false, false, 1, [])
  {
    var v := ReadVelocity(s, id, is2D).value;
    var d := Displacement(v, dt, 1.0);
    var s1 := ClearMover(s, id);
    ClearKeepsView(s, id, is2D, GetAabb(s, id, Position(s, id), is2D).value, d);
    FreeRound(st, id, is2D, dt, View(s1, {TransformKind, ColliderKind}), Slide(s1, v, 1.0, false, true, false, 0, []));
  }

  /** With nothing in the way, the mover travels the whole of velocity times
      `dt` in a single round, keeps its velocity and reports a move. */
  lemma SlideFreeFlight(s: Scene, e: Entity, dt: real, st: SlideSettings, is2D: bool)
    requires SlideReady(s, e, dt, is2D) && SettingsOk(st) && HasShape(s, e.id, is2D)
    requires var d := Displacement(ReadVelocity(s, e.id, is2D).value, dt, 1.0);
      && !Negligible(d, st.epsilon, is2D)
      && NothingInTheWay(s, e.id, is2D, GetAabb(s, e.id, Position(s, e.id), is2D).value, d)
    ensures var r := MoveAndSlide(s, e, dt, st, is2D);
      var v := ReadVelocity(s, e.id, is2D).value;
      && r.1
      && Position(r.0, e.id) == Plus(Position(s, e.id), Displacement(v, dt, 1.0))
      && ReadVelocity(r.0, e.id, is2D) == Some(v)
  {
    FreeSlide(s, e.id, dt, st, is2D);
    var x1 := RunSlide(s, e.id, dt, st, is2D);
    var r := WriteVelocity(x1.scene, e.id, x1.vel, is2D);
    assert MoveAndSlide(s, e, dt, st, is2D) == (r, true);
    assert GetTransform(r, e.id) == GetTransform(x1.scene, e.id) by {
      assert TryGetComponent(r, TransformKind, e.id) == TryGetComponent(x1.scene, TransformKind, e.id);
    }
  }

  // ---------------------------------------------------------------------
  // Contact queries after a move

  /** After either move routine ran on a ready mover, the queries describe
      the last contact only; after a collide step that hit, the floor normal
      is the reported normal. */
  lemma QueriesAfterMove(s: Scene, e: Entity, motion: Vec3, dt: real, st: SlideSettings, is2D: bool)
    ensures var r := MoveAndSlide(s, e, dt, st, is2D).0;
      SlideReady(s, e, dt, is2D) ==>
        && IsOnFloor(r, e) == FloorNormal(GetFloorNormal(r, e), is2D)
        && IsOnCeiling(r, e) == CeilingNormal(GetFloorNormal(r, e), is2D)
        && IsOnWall(r, e) == WallNormal(GetFloorNormal(r, e), is2D)
    ensures var r := MoveAndCollide(s, e, motion, dt, st, is2D);
      CollideReady(s, e, dt, is2D) ==>
        && IsOnFloor(r.0, e) == FloorNormal(GetFloorNormal(r.0, e), is2D)
        && IsOnCeiling(r.0, e) == CeilingNormal(GetFloorNormal(r.0, e), is2D)
        && IsOnWall(r.0, e) == WallNormal(GetFloorNormal(r.0, e), is2D)
        && GetFloorNormal(r.0, e) == (if r.1 then r.2.normal else Zero3)
  {
    if SlideReady(s, e, dt, is2D) {
      QueriesClassifyNormal(MoveAndSlide(s, e, dt, st, is2D).0, e, is2D);
    }
    if CollideReady(s, e, dt, is2D) {
      QueriesClassifyNormal(MoveAndCollide(s, e, motion, dt, st, is2D).0, e, is2D);
    }
  }
}
