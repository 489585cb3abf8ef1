/** Axis-aligned box geometry of the collision layer over the reals
    (src/Melkam/physics/Collider.cpp:19-35, 46-54, 152-408): strict
    intersection, the minimum-overlap penetration normal and the per-axis
    entry/exit sweep. A box is a span per axis; 2D code reads only x and y. */
module Geometry {
  import opened Wrappers
  import opened Components

  function Plus(a: Vec3, b: Vec3): Vec3 { Vec3(a.x + b.x, a.y + b.y, a.z + b.z) }
  function Times(a: Vec3, k: real): Vec3 { Vec3(a.x * k, a.y * k, a.z * k) }
  function Dot(a: Vec3, b: Vec3): real { a.x * b.x + a.y * b.y + a.z * b.z }

  function Abs(x: real): real { if x < 0.0 then -x else x }

  /** -1 for a positive displacement, +1 otherwise: the sign a sweep normal
      takes on an axis the mover travels along. */
  function Against(d: real): real { if d > 0.0 then -1.0 else 1.0 }

  /** The closed interval [lo, hi] a box covers on one axis. */
  datatype Span = Span(lo: real, hi: real)

  datatype Aabb = Aabb(x: Span, y: Span, z: Span)

  function Shift(a: Span, k: real): Span { Span(a.lo + k, a.hi + k) }

  function ShiftBox(b: Aabb, d: Vec3): Aabb {
    Aabb(Shift(b.x, d.x), Shift(b.y, d.y), Shift(b.z, d.z))
  }

  /** The box around `center` with half-extents `half`. */
  function Around(center: Vec3, half: Vec3): (r: Aabb)
    ensures r.x.hi - r.x.lo == 2.0 * half.x && r.x.lo + half.x == center.x
    ensures r.y.hi - r.y.lo == 2.0 * half.y && r.y.lo + half.y == center.y
    ensures r.z.hi - r.z.lo == 2.0 * half.z && r.z.lo + half.z == center.z
  {
    Aabb(Span(center.x - half.x, center.x + half.x),
         Span(center.y - half.y, center.y + half.y),
         Span(center.z - half.z, center.z + half.z))
  }

  /** Strict overlap on one axis: touching spans do not overlap. */
  predicate Overlap(a: Span, b: Span) { a.lo < b.hi && a.hi > b.lo }

  /** Separated or only touching: the zero-displacement early exit. */
  predicate Apart(a: Span, b: Span) { a.hi <= b.lo || a.lo >= b.hi }

  /** Closed overlap: the spans share at least a point. */
  predicate Touch(a: Span, b: Span) { a.lo <= b.hi && a.hi >= b.lo }

  lemma ApartIsNotOverlap(a: Span, b: Span)
    ensures Apart(a, b) <==> !Overlap(a, b)
  {
  }

  predicate Intersects2(a: Aabb, b: Aabb) { Overlap(a.x, b.x) && Overlap(a.y, b.y) }

  predicate Intersects3(a: Aabb, b: Aabb) {
    Overlap(a.x, b.x) && Overlap(a.y, b.y) && Overlap(a.z, b.z)
  }

  lemma IntersectsSymmetric(a: Aabb, b: Aabb)
    ensures Intersects2(a, b) <==> Intersects2(b, a)
    ensures Intersects3(a, b) <==> Intersects3(b, a)
  {
  }

  /** Boxes that share only an edge or a face do not intersect. */
  lemma TouchingIsNotIntersecting(a: Aabb, b: Aabb)
    requires a.x.hi == b.x.lo
    ensures !Intersects2(a, b) && !Intersects3(a, b)
  {
  }

  // ---------------------------------------------------------------------
  // Penetration normal

  /** The signed per-axis push the source computes for an overlapping pair:
      minus the overlap seen from `a`'s low side when that is the smaller one,
      else the overlap seen from `a`'s high side. */
  function Resolve(a: Span, b: Span): (r: real)
    ensures Overlap(a, b) ==> (r < 0.0 <==> b.hi - a.lo < a.hi - b.lo)
  {
    var o1 := b.hi - a.lo;
    var o2 := a.hi - b.lo;
    if o1 < o2 then -o1 else o2
  }

  /** On overlapping spans the push has the size of the smaller overlap. */
  lemma ResolveIsSmallestOverlap(a: Span, b: Span)
    requires Overlap(a, b)
    ensures Abs(Resolve(a, b)) == Min(b.hi - a.lo, a.hi - b.lo)
    ensures Abs(Resolve(a, b)) > 0.0
  {
  }

  function Min(x: real, y: real): real { if x < y then x else y }

  /** The push points toward the target's interior: applied to overlapping
      spans it leaves them overlapping, or exactly touching when the two
      overlaps are equal. It never separates them. */
  lemma PushStaysInside(a: Span, b: Span)
    requires Overlap(a, b)
    ensures Touch(Shift(a, Resolve(a, b)), b)
    ensures (b.hi - a.lo != a.hi - b.lo) ==> Overlap(Shift(a, Resolve(a, b)), b)
  {
  }

  /** The documented instance: mover [0,2] against target [1,5] is pushed by +1
      to [1,3], deeper inside. */
  lemma InwardPushExample()
    ensures Resolve(Span(0.0, 2.0), Span(1.0, 5.0)) == 1.0
    ensures Shift(Span(0.0, 2.0), 1.0) == Span(1.0, 3.0)
    ensures Overlap(Span(1.0, 3.0), Span(1.0, 5.0))
  {
  }

  function AxisNormal(axis: nat, sign: real): Vec3 {
    if axis == 0 then Vec3(sign, 0.0, 0.0)
    else if axis == 1 then Vec3(0.0, sign, 0.0)
    else Vec3(0.0, 0.0, sign)
  }

  function SignOf(r: real): real { if r < 0.0 then -1.0 else 1.0 }

  /** 2D: on intersecting boxes, a unit normal on the axis with the smaller
      |push|, ties going to Y; None when they do not intersect. */
  function OverlapNormal2(a: Aabb, b: Aabb): (r: Option<Vec3>)
    ensures r.Some? <==> Intersects2(a, b)
    ensures r.Some? && Abs(Resolve(a.x, b.x)) < Abs(Resolve(a.y, b.y)) ==>
      r.value == AxisNormal(0, SignOf(Resolve(a.x, b.x)))
    ensures r.Some? && Abs(Resolve(a.x, b.x)) >= Abs(Resolve(a.y, b.y)) ==>
      r.value == AxisNormal(1, SignOf(Resolve(a.y, b.y)))
  {
    if !Intersects2(a, b) then None
    else
      var rx := Resolve(a.x, b.x);
      var ry := Resolve(a.y, b.y);
      if Abs(rx) < Abs(ry) then Some(Vec3(SignOf(rx), 0.0, 0.0))
      else Some(Vec3(0.0, SignOf(ry), 0.0))
  }

  /** 3D: the axis of smallest |push|, ties going to X, then Y. */
  function OverlapNormal3(a: Aabb, b: Aabb): (r: Option<Vec3>)
    ensures r.Some? <==> Intersects3(a, b)
    ensures r.Some? ==> var (ax, ay, az) := (Abs(Resolve(a.x, b.x)), Abs(Resolve(a.y, b.y)), Abs(Resolve(a.z, b.z)));
      && (ax <= ay && ax <= az ==> r.value == AxisNormal(0, SignOf(Resolve(a.x, b.x))))
      && (!(ax <= ay && ax <= az) && ay <= az ==> r.value == AxisNormal(1, SignOf(Resolve(a.y, b.y))))
      && (!(ax <= ay && ax <= az) && ay > az ==> r.value == AxisNormal(2, SignOf(Resolve(a.z, b.z))))
  {
    if !Intersects3(a, b) then None
    else
      var rx := Resolve(a.x, b.x);
      var ry := Resolve(a.y, b.y);
      var rz := Resolve(a.z, b.z);
      var (ax, ay, az) := (Abs(rx), Abs(ry), Abs(rz));
      if ax <= ay && ax <= az then Some(Vec3(SignOf(rx), 0.0, 0.0))
      else if ay <= ax && ay <= az then Some(Vec3(0.0, SignOf(ry), 0.0))
      else Some(Vec3(0.0, 0.0, SignOf(rz)))
  }

  /** Equal pushes on X and Y: 2D picks Y, 3D picks X. */
  lemma TieBreaksDiffer()
    ensures var a := Aabb(Span(0.0, 2.0), Span(0.0, 2.0), Span(0.0, 2.0));
      var b := Aabb(Span(1.0, 5.0), Span(1.0, 5.0), Span(-10.0, 10.0));
      OverlapNormal2(a, b) == Some(Vec3(0.0, 1.0, 0.0)) &&
      OverlapNormal3(a, b) == Some(Vec3(1.0, 0.0, 0.0))
  {
  }

  // ---------------------------------------------------------------------
  // Swept boxes

  /** A time on the extended line: the sweep's -inf/+inf sentinels stand for
      an axis that constrains nothing. */
  datatype Time = NegInf | At(t: real) | PosInf

  function Rank(a: Time): int {
    match a
    case NegInf => 0
    case At(_) => 1
    case PosInf => 2
  }

  /** Strict order of the extended line. */
  predicate Before(a: Time, b: Time) {
    Rank(a) < Rank(b) || (a.At? && b.At? && a.t < b.t)
  }

  lemma NotBeforeTransitive(a: Time, b: Time, c: Time)
    requires !Before(a, b) && !Before(b, c)
    ensures !Before(a, c)
  {
  }

  /** `std::max`: the first argument unless it is smaller. */
  function Latest(a: Time, b: Time): (r: Time)
    ensures !Before(r, a) && !Before(r, b) && (r == a || r == b)
  {
    if Before(a, b) then b else a
  }

  /** `std::min`: the first argument unless the second is smaller. */
  function Earliest(a: Time, b: Time): (r: Time)
    ensures !Before(a, r) && !Before(b, r) && (r == a || r == b)
  {
    if Before(b, a) then b else a
  }

  /** When the moving span starts overlapping the target along displacement
      `d`; unconstrained when it does not move on this axis. */
  function Entry(a: Span, b: Span, d: real): (r: Time)
    ensures d == 0.0 <==> r == NegInf
  {
    if d == 0.0 then NegInf
    else if d > 0.0 then At((b.lo - a.hi) / d)
    else At((b.hi - a.lo) / d)
  }

  /** When it stops overlapping. */
  function Exit(a: Span, b: Span, d: real): (r: Time)
    ensures d == 0.0 <==> r == PosInf
  {
    if d == 0.0 then PosInf
    else if d > 0.0 then At((b.hi - a.lo) / d)
    else At((b.lo - a.hi) / d)
  }

  lemma DivCompare(x: real, d: real, u: real)
    requires d != 0.0
    ensures d > 0.0 ==> (x / d < u <==> x < u * d) && (x / d <= u <==> x <= u * d)
    ensures d < 0.0 ==> (x / d < u <==> x > u * d) && (x / d <= u <==> x >= u * d)
  {
    var q := x / d;
    assert x == q * d;
    assert (u - q) * d == u * d - q * d;
  }

  /** The entry/exit pair is exact: the moved span overlaps the target at time
      `u` precisely when `u` lies strictly between entry and exit, and touches
      it precisely when `u` lies between them inclusively. */
  lemma AxisTimes(a: Span, b: Span, d: real, u: real)
    requires d != 0.0
    ensures Overlap(Shift(a, u * d), b) <==> Before(Entry(a, b, d), At(u)) && Before(At(u), Exit(a, b, d))
    ensures Touch(Shift(a, u * d), b) <==> !Before(At(u), Entry(a, b, d)) && !Before(Exit(a, b, d), At(u))
  {
    if d > 0.0 {
      DivCompare(b.lo - a.hi, d, u);
      DivCompare(b.hi - a.lo, d, u);
    } else {
      DivCompare(b.hi - a.lo, d, u);
      DivCompare(b.lo - a.hi, d, u);
    }
  }

  datatype Hit = Hit(time: real, normal: Vec3)

  function Entry2(m: Aabb, t: Aabb, dx: real, dy: real): (r: Time)
    ensures !Before(r, Entry(m.x, t.x, dx)) && !Before(r, Entry(m.y, t.y, dy))
    ensures r == Entry(m.x, t.x, dx) || r == Entry(m.y, t.y, dy)
  {
    Latest(Entry(m.x, t.x, dx), Entry(m.y, t.y, dy))
  }

  function Exit2(m: Aabb, t: Aabb, dx: real, dy: real): (r: Time)
    ensures !Before(Exit(m.x, t.x, dx), r) && !Before(Exit(m.y, t.y, dy), r)
    ensures r == Exit(m.x, t.x, dx) || r == Exit(m.y, t.y, dy)
  {
    Earliest(Exit(m.x, t.x, dx), Exit(m.y, t.y, dy))
  }

  /** The entry/exit stage of the 2D sweep: a hit when the latest entry lies in
      [0, 1] and not after the earliest exit, with a unit normal against the
      motion on the axis that enters last (ties to Y). */
  function Swept2(m: Aabb, t: Aabb, dx: real, dy: real): (r: Option<Hit>)
    ensures r.Some? ==> Entry2(m, t, dx, dy) == At(r.value.time) && !Before(Exit2(m, t, dx, dy), Entry2(m, t, dx, dy))
    ensures r.Some? ==> 0.0 <= r.value.time <= 1.0
    ensures r.None? ==>
      Before(Exit2(m, t, dx, dy), Entry2(m, t, dx, dy)) ||
      Before(At(1.0), Entry2(m, t, dx, dy)) || Before(Entry2(m, t, dx, dy), At(0.0))
    ensures r.Some? ==>
      (dx != 0.0 && r.value.normal == AxisNormal(0, Against(dx)) && Before(Entry(m.y, t.y, dy), Entry(m.x, t.x, dx))) ||
      (dy != 0.0 && r.value.normal == AxisNormal(1, Against(dy)) && !Before(Entry(m.y, t.y, dy), Entry(m.x, t.x, dx)))
  {
    var (xe, ye) := (Entry(m.x, t.x, dx), Entry(m.y, t.y, dy));
    var entry := Entry2(m, t, dx, dy);
    var exit := Exit2(m, t, dx, dy);
    if Before(exit, entry) || Before(At(1.0), entry) || Before(entry, At(0.0)) then None
    else
      var n := if Before(ye, xe) then Vec3(Against(dx), 0.0, 0.0) else Vec3(0.0, Against(dy), 0.0);
      match entry
      case At(time) => Some(Hit(time, n))
      case _ => None
  }

  /** `sweepAabb2D`: None for no motion or for a non-moving axis on which the
      spans are apart; time 0 with the penetration normal for boxes already
      intersecting; otherwise the entry/exit stage. */
  function Sweep2(m: Aabb, t: Aabb, dx: real, dy: real): (r: Option<Hit>)
    ensures dx == 0.0 && dy == 0.0 ==> r == None
    ensures dx == 0.0 && Apart(m.x, t.x) ==> r == None
    ensures dy == 0.0 && Apart(m.y, t.y) ==> r == None
    ensures r.Some? && Intersects2(m, t) ==> r == Some(Hit(0.0, OverlapNormal2(m, t).value))
    ensures !Intersects2(m, t) && (dx != 0.0 || dy != 0.0) &&
      (dx == 0.0 ==> !Apart(m.x, t.x)) && (dy == 0.0 ==> !Apart(m.y, t.y))
      ==> r == Swept2(m, t, dx, dy)
    ensures r.Some? && !Intersects2(m, t) ==> r == Swept2(m, t, dx, dy)
  {
    if dx == 0.0 && dy == 0.0 then None
    else if dx == 0.0 && Apart(m.x, t.x) then None
    else if dy == 0.0 && Apart(m.y, t.y) then None
    else if Intersects2(m, t) then Some(Hit(0.0, OverlapNormal2(m, t).value))
    else Swept2(m, t, dx, dy)
  }

  /** The latest entry and earliest exit over the three axes. */
  function Entry3(m: Aabb, t: Aabb, d: Vec3): (r: Time)
  {
    Latest(Entry(m.x, t.x, d.x), Latest(Entry(m.y, t.y, d.y), Entry(m.z, t.z, d.z)))
  }

  function Exit3(m: Aabb, t: Aabb, d: Vec3): (r: Time)
  {
    Earliest(Exit(m.x, t.x, d.x), Earliest(Exit(m.y, t.y, d.y), Exit(m.z, t.z, d.z)))
  }

  /** A unit normal against the motion on the axis that enters last, ties
      going to X, then Y. */
  function LastAxisNormal3(m: Aabb, t: Aabb, d: Vec3): (n: Vec3)
    ensures var (xe, ye, ze) := (Entry(m.x, t.x, d.x), Entry(m.y, t.y, d.y), Entry(m.z, t.z, d.z));
      Entry3(m, t, d).At? ==>
      (d.x != 0.0 && n == AxisNormal(0, Against(d.x)) && !Before(xe, ye) && !Before(xe, ze)) ||
      (d.y != 0.0 && n == AxisNormal(1, Against(d.y)) && !Before(ye, xe) && !Before(ye, ze)) ||
      (d.z != 0.0 && n == AxisNormal(2, Against(d.z)) && !Before(ze, xe) && !Before(ze, ye))
  {
    var (xe, ye, ze) := (Entry(m.x, t.x, d.x), Entry(m.y, t.y, d.y), Entry(m.z, t.z, d.z));
    if !Before(xe, ye) && !Before(xe, ze) then Vec3(Against(d.x), 0.0, 0.0)
    else if !Before(ye, xe) && !Before(ye, ze) then Vec3(0.0, Against(d.y), 0.0)
    else Vec3(0.0, 0.0, Against(d.z))
  }

  /** The entry/exit stage of the 3D sweep. */
  function Swept3(m: Aabb, t: Aabb, d: Vec3): (r: Option<Hit>)
    ensures r.Some? <==> !Before(Exit3(m, t, d), Entry3(m, t, d)) && !Before(At(1.0), Entry3(m, t, d)) && !Before(Entry3(m, t, d), At(0.0))
    ensures r.Some? ==> Entry3(m, t, d) == At(r.value.time) && 0.0 <= r.value.time <= 1.0
    ensures r.Some? ==> r.value.normal == LastAxisNormal3(m, t, d)
  {
    var entry := Entry3(m, t, d);
    var exit := Exit3(m, t, d);
    if Before(exit, entry) || Before(At(1.0), entry) || Before(entry, At(0.0)) then None
    else
      match entry
      case At(time) => Some(Hit(time, LastAxisNormal3(m, t, d)))
      case _ => None
  }

  /** `sweepAabb3D`: as in 2D over three axes; the last-entering axis wins with
      ties going to X, then Y. */
  function Sweep3(m: Aabb, t: Aabb, d: Vec3): (r: Option<Hit>)
    ensures d.x == 0.0 && d.y == 0.0 && d.z == 0.0 ==> r == None
    ensures d.x == 0.0 && Apart(m.x, t.x) ==> r == None
    ensures d.y == 0.0 && Apart(m.y, t.y) ==> r == None
    ensures d.z == 0.0 && Apart(m.z, t.z) ==> r == None
    ensures r.Some? && Intersects3(m, t) ==> r == Some(Hit(0.0, OverlapNormal3(m, t).value))
    ensures !Intersects3(m, t) && (d.x != 0.0 || d.y != 0.0 || d.z != 0.0) &&
      (d.x == 0.0 ==> !Apart(m.x, t.x)) && (d.y == 0.0 ==> !Apart(m.y, t.y)) && (d.z == 0.0 ==> !Apart(m.z, t.z))
      ==> r == Swept3(m, t, d)
    ensures r.Some? && !Intersects3(m, t) ==> r == Swept3(m, t, d)
  {
    if d.x == 0.0 && d.y == 0.0 && d.z == 0.0 then None
    else if d.x == 0.0 && Apart(m.x, t.x) then None
    else if d.y == 0.0 && Apart(m.y, t.y) then None
    else if d.z == 0.0 && Apart(m.z, t.z) then None
    else if Intersects3(m, t) then Some(Hit(0.0, OverlapNormal3(m, t).value))
    else Swept3(m, t, d)
  }

  /** The mover shifted by the fraction `w` of its displacement strictly
      intersects the target. */
  predicate MeetsAt2(m: Aabb, t: Aabb, dx: real, dy: real, w: real) {
    MeetsAxis(m.x, t.x, dx, w) && MeetsAxis(m.y, t.y, dy, w)
  }

  predicate MeetsAt3(m: Aabb, t: Aabb, d: Vec3, w: real) {
    MeetsAxis(m.x, t.x, d.x, w) && MeetsAxis(m.y, t.y, d.y, w) && MeetsAxis(m.z, t.z, d.z, w)
  }

  /** On one axis, the span moved by the fraction `w` of `d` strictly
      overlaps the target ... */
  predicate MeetsAxis(a: Span, b: Span, d: real, w: real) {
    Overlap(Shift(a, w * d), b)
  }

  /** ... or touches it. */
  predicate TouchesAxis(a: Span, b: Span, d: real, w: real) {
    Touch(Shift(a, w * d), b)
  }

  lemma ShiftZero(a: Span, w: real)
    ensures Shift(a, w * 0.0) == a && Shift(a, 0.0 * w) == a
  {
  }

  /** On a single axis, the moved span meets the target at `w` only inside
      the axis' open entry/exit window; an axis without motion meets it at no
      time unless the spans already overlap. */
  lemma AxisInside(a: Span, b: Span, d: real, w: real)
    ensures MeetsAxis(a, b, d, w) ==>
      Before(Entry(a, b, d), At(w)) && Before(At(w), Exit(a, b, d)) && (d == 0.0 ==> Overlap(a, b))
  {
    if d != 0.0 { AxisTimes(a, b, d, w); } else { ShiftZero(a, w); }
  }

  /** Inside the open window the moved span does meet the target. */
  lemma AxisEnters(a: Span, b: Span, d: real, w: real)
    ensures Before(Entry(a, b, d), At(w)) && Before(At(w), Exit(a, b, d)) && (d == 0.0 ==> Overlap(a, b)) ==>
      MeetsAxis(a, b, d, w)
  {
    if d != 0.0 { AxisTimes(a, b, d, w); } else { ShiftZero(a, w); }
  }

  /** The worked examples: a unit box at the origin moving right towards the
      unit box at x = 3 hits it after 40% of a move of 5, with normal (-1, 0),
      and exactly at the end of a move of 2. */
  lemma SweepExamples2()
    ensures var m := Aabb(Span(0.0, 1.0), Span(0.0, 1.0), Span(0.0, 0.0));
      var t := Aabb(Span(3.0, 4.0), Span(0.0, 1.0), Span(0.0, 0.0));
      Sweep2(m, t, 5.0, 0.0) == Some(Hit(0.4, Vec3(-1.0, 0.0, 0.0))) &&
      Sweep2(m, t, 2.0, 0.0) == Some(Hit(1.0, Vec3(-1.0, 0.0, 0.0))) &&
      Sweep2(m, t, 1.0, 0.0) == None
  {
  }

  /** The latest of three entries is not after `w` exactly when none of them is. */
  lemma LatestOfThree(w: real, e1: Time, e2: Time, e3: Time)
    ensures !Before(At(w), Latest(e1, Latest(e2, e3))) <==>
      !Before(At(w), e1) && !Before(At(w), e2) && !Before(At(w), e3)
  {
  }

  /** The earliest of three exits is not before `w` exactly when none of them is. */
  lemma EarliestOfThree(w: real, x1: Time, x2: Time, x3: Time)
    ensures !Before(Earliest(x1, Earliest(x2, x3)), At(w)) <==>
      !Before(x1, At(w)) && !Before(x2, At(w)) && !Before(x3, At(w))
  {
  }

  /** The latest of three entries is before `w` exactly when all of them are. */
  lemma LatestBeforeOfThree(w: real, e1: Time, e2: Time, e3: Time)
    ensures Before(Latest(e1, Latest(e2, e3)), At(w)) <==>
      Before(e1, At(w)) && Before(e2, At(w)) && Before(e3, At(w))
  {
  }

  /** The earliest of three exits is after `w` exactly when all of them are. */
  lemma EarliestAfterOfThree(w: real, x1: Time, x2: Time, x3: Time)
    ensures Before(At(w), Earliest(x1, Earliest(x2, x3))) <==>
      Before(At(w), x1) && Before(At(w), x2) && Before(At(w), x3)
  {
  }

  /** Order facts the contact lemmas share, stated over bare times. */
  lemma WithinWindow(es: seq<Time>, xs: seq<Time>, entry: Time, exit: Time, w: real)
    requires forall e | e in es :: !Before(entry, e)
    requires forall x | x in xs :: !Before(x, exit)
    requires entry == At(w) && !Before(exit, entry)
    ensures forall e | e in es :: !Before(At(w), e)
    ensures forall x | x in xs :: !Before(x, At(w))
  {
    forall x | x in xs ensures !Before(x, At(w)) { NotBeforeTransitive(x, exit, At(w)); }
  }

  lemma NoneBefore(es: seq<Time>, entry: Time, time: real, w: real)
    requires entry in es && entry == At(time) && w < time
    ensures exists e | e in es :: !Before(e, At(w))
  {
  }

  /** A hit reported by the entry/exit stage is a moment of contact: the moved
      mover touches the target on both axes. */
  lemma SweptTouches2(m: Aabb, t: Aabb, dx: real, dy: real)
    requires Swept2(m, t, dx, dy).Some?
    requires dx == 0.0 ==> Overlap(m.x, t.x)
    requires dy == 0.0 ==> Overlap(m.y, t.y)
    ensures var w := Swept2(m, t, dx, dy).value.time;
      TouchesAxis(m.x, t.x, dx, w) && TouchesAxis(m.y, t.y, dy, w)
  {
    var w := Swept2(m, t, dx, dy).value.time;
    var (xe, ye) := (Entry(m.x, t.x, dx), Entry(m.y, t.y, dy));
    var (xx, yx) := (Exit(m.x, t.x, dx), Exit(m.y, t.y, dy));
    WithinWindow([xe, ye], [xx, yx], Entry2(m, t, dx, dy), Exit2(m, t, dx, dy), w);
    assert xe in [xe, ye] && ye in [xe, ye] && xx in [xx, yx] && yx in [xx, yx];
    AxisTouch(m.x, t.x, dx, w);
    AxisTouch(m.y, t.y, dy, w);
  }

  /** ... and no earlier moment of the move is a strict intersection. */
  lemma SweptIsEarliest2(m: Aabb, t: Aabb, dx: real, dy: real, w: real)
    requires Swept2(m, t, dx, dy).Some? && w < Swept2(m, t, dx, dy).value.time
    ensures !MeetsAt2(m, t, dx, dy, w)
  {
    var (xe, ye) := (Entry(m.x, t.x, dx), Entry(m.y, t.y, dy));
    NoneBefore([xe, ye], Entry2(m, t, dx, dy), Swept2(m, t, dx, dy).value.time, w);
    AxisInside(m.x, t.x, dx, w);
    AxisInside(m.y, t.y, dy, w);
  }

  /** Conversely, a move that strictly intersects the target at some fraction
      in [0, 1] is reported. */
  lemma SweepFindsEveryHit2(m: Aabb, t: Aabb, dx: real, dy: real, w: real)
    requires dx != 0.0 || dy != 0.0
    requires 0.0 <= w <= 1.0 && MeetsAt2(m, t, dx, dy, w)
    ensures Sweep2(m, t, dx, dy).Some?
  {
    AxisInside(m.x, t.x, dx, w);
    AxisInside(m.y, t.y, dy, w);
    AxisEnters(m.x, t.x, dx, 0.0);
    AxisEnters(m.y, t.y, dy, 0.0);
    ShiftZero(m.x, dx);
    ShiftZero(m.y, dy);
  }

  /** Being inside an axis' closed window means touching on that axis. */
  lemma AxisTouch(a: Span, b: Span, d: real, w: real)
    requires !Before(At(w), Entry(a, b, d)) && !Before(Exit(a, b, d), At(w))
    requires d == 0.0 ==> Overlap(a, b)
    ensures TouchesAxis(a, b, d, w)
  {
    if d != 0.0 { AxisTimes(a, b, d, w); } else { ShiftZero(a, w); }
  }

  /** Inside the combined closed window, the moved mover touches the target
      on every axis. */
  lemma WindowTouches3(m: Aabb, t: Aabb, d: Vec3, w: real)
    requires !Before(At(w), Entry3(m, t, d)) && !Before(Exit3(m, t, d), At(w))
    requires d.x == 0.0 ==> Overlap(m.x, t.x)
    requires d.y == 0.0 ==> Overlap(m.y, t.y)
    requires d.z == 0.0 ==> Overlap(m.z, t.z)
    ensures TouchesAxis(m.x, t.x, d.x, w) && TouchesAxis(m.y, t.y, d.y, w) && TouchesAxis(m.z, t.z, d.z, w)
  {
    LatestOfThree(w, Entry(m.x, t.x, d.x), Entry(m.y, t.y, d.y), Entry(m.z, t.z, d.z));
    EarliestOfThree(w, Exit(m.x, t.x, d.x), Exit(m.y, t.y, d.y), Exit(m.z, t.z, d.z));
    AxisTouch(m.x, t.x, d.x, w);
    AxisTouch(m.y, t.y, d.y, w);
    AxisTouch(m.z, t.z, d.z, w);
  }

  lemma SweptWindow3(m: Aabb, t: Aabb, d: Vec3)
    requires Swept3(m, t, d).Some?
    ensures !Before(At(Swept3(m, t, d).value.time), Entry3(m, t, d))
    ensures !Before(Exit3(m, t, d), At(Swept3(m, t, d).value.time))
  {
  }

  /** A hit reported by the 3D entry/exit stage is a moment of contact. */
  lemma SweptTouches3(m: Aabb, t: Aabb, d: Vec3, w: real)
    requires Swept3(m, t, d).Some? && w == Swept3(m, t, d).value.time
    requires d.x == 0.0 ==> Overlap(m.x, t.x)
    requires d.y == 0.0 ==> Overlap(m.y, t.y)
    requires d.z == 0.0 ==> Overlap(m.z, t.z)
    ensures TouchesAxis(m.x, t.x, d.x, w) && TouchesAxis(m.y, t.y, d.y, w) && TouchesAxis(m.z, t.z, d.z, w)
  {
    SweptWindow3(m, t, d);
    WindowTouches3(m, t, d, w);
  }

  lemma AxisMissesBefore(a: Span, b: Span, d: real, w: real)
    ensures Before(At(w), Entry(a, b, d)) ==> !MeetsAxis(a, b, d, w)
  {
    AxisInside(a, b, d, w);
  }

  /** Before the combined entry time, the moved mover misses the target on
      at least one axis. */
  lemma MissesBeforeEntry3(m: Aabb, t: Aabb, d: Vec3, w: real)
    requires Before(At(w), Entry3(m, t, d))
    ensures !MeetsAt3(m, t, d, w)
  {
    LatestOfThree(w, Entry(m.x, t.x, d.x), Entry(m.y, t.y, d.y), Entry(m.z, t.z, d.z));
    AxisMissesBefore(m.x, t.x, d.x, w);
    AxisMissesBefore(m.y, t.y, d.y, w);
    AxisMissesBefore(m.z, t.z, d.z, w);
  }

  lemma SweptIsEarliest3(m: Aabb, t: Aabb, d: Vec3, w: real)
    requires Swept3(m, t, d).Some? && w < Swept3(m, t, d).value.time
    ensures !MeetsAt3(m, t, d, w)
  {
    MissesBeforeEntry3(m, t, d, w);
  }

  lemma SweepFindsEveryHit3(m: Aabb, t: Aabb, d: Vec3, w: real)
    requires d.x != 0.0 || d.y != 0.0 || d.z != 0.0
    requires 0.0 <= w <= 1.0 && MeetsAt3(m, t, d, w)
    ensures Sweep3(m, t, d).Some?
  {
    var (xe, ye, ze) := (Entry(m.x, t.x, d.x), Entry(m.y, t.y, d.y), Entry(m.z, t.z, d.z));
    var (xx, yx, zx) := (Exit(m.x, t.x, d.x), Exit(m.y, t.y, d.y), Exit(m.z, t.z, d.z));
    AxisInside(m.x, t.x, d.x, w);
    AxisInside(m.y, t.y, d.y, w);
    AxisInside(m.z, t.z, d.z, w);
    if !Intersects3(m, t) {
      LatestBeforeOfThree(w, xe, ye, ze);
      EarliestAfterOfThree(w, xx, yx, zx);
      LatestBeforeOfThree(0.0, xe, ye, ze);
      EarliestAfterOfThree(0.0, xx, yx, zx);
      if Before(Entry3(m, t, d), At(0.0)) {
        AxisEnters(m.x, t.x, d.x, 0.0);
        AxisEnters(m.y, t.y, d.y, 0.0);
        AxisEnters(m.z, t.z, d.z, 0.0);
        ShiftZero(m.x, d.x);
        ShiftZero(m.y, d.y);
        ShiftZero(m.z, d.z);
        assert false;
      }
    }
  }

}
