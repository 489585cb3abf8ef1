/** Control rectangles (src/Melkam/ui/Ui.cpp:187-395, 533-553): anchored
    placement clamped into the parent, the VBox/HBox container layout, the
    resolution of an entity's rectangle through its parents, and the wheel
    scroll clamp. */
module UiLayout {
  import opened Wrappers
  import opened Components
  import opened SceneStore
  import opened EntityHandle
  import opened Seqs
  import opened UiTree

  // ---------------------------------------------------------------------
  // Anchored rectangles

  /** The part of a parent extent an anchor fraction selects. */
  function Share(extent: real, anchor: real): real { extent * anchor }

  /** The rectangle the anchors and offsets ask for, grown to the minimum
      size, before any clamping. */
  function Anchored(p: Rect, c: Control): (r: Rect)
    ensures r.w >= c.minW && r.h >= c.minH
  {
    Rect(p.x + Share(p.w, c.anchorLeft) + c.offsetLeft,
         p.y + Share(p.h, c.anchorTop) + c.offsetTop,
         Max(Share(p.w, c.anchorRight - c.anchorLeft) + (c.offsetRight - c.offsetLeft), c.minW),
         Max(Share(p.h, c.anchorBottom - c.anchorTop) + (c.offsetBottom - c.offsetTop), c.minH))
  }

  /** `r` lies wholly within `p`. */
  predicate InsideOf(p: Rect, r: Rect) {
    && r.x >= p.x && r.y >= p.y && r.w >= 0.0 && r.h >= 0.0
    && r.x + r.w <= p.x + p.w && r.y + r.h <= p.y + p.h
  }

  /** What the clamp guarantees: the origin is inside the parent's top-left
      corner, sizes are non-negative, and a non-empty extent ends within the
      parent. */
  predicate ClampedTo(p: Rect, r: Rect) {
    && r.x >= p.x && r.y >= p.y && r.w >= 0.0 && r.h >= 0.0
    && (r.w == 0.0 || r.x + r.w <= p.x + p.w)
    && (r.h == 0.0 || r.y + r.h <= p.y + p.h)
  }

  /** The clamp into the parent: move the origin right/down into the parent,
      shrink the size to the room left, never below zero. */
  function ClampTo(p: Rect, r: Rect): (c: Rect)
    ensures ClampedTo(p, c)
    ensures c.x == Max(r.x, p.x) && c.y == Max(r.y, p.y)
    ensures c.w <= Max(r.w, 0.0) && c.h <= Max(r.h, 0.0)
    ensures p.x + p.w - c.x >= r.w ==> c.w == Max(r.w, 0.0)
    ensures p.y + p.h - c.y >= r.h ==> c.h == Max(r.h, 0.0)
    ensures InsideOf(p, r) ==> c == r
  {
    var x := Max(r.x, p.x);
    var y := Max(r.y, p.y);
    Rect(x, y, Max(0.0, Min(r.w, p.w - (x - p.x))), Max(0.0, Min(r.h, p.h - (y - p.y))))
  }

  /** The clamp changes exactly the rectangles it does not already accept;
      hence clamping twice is clamping once. */
  lemma ClampFixedPoints(p: Rect, r: Rect)
    ensures ClampTo(p, r) == r <==> ClampedTo(p, r)
    ensures ClampTo(p, ClampTo(p, r)) == ClampTo(p, r)
  {
  }

  /** `resolveRect` for a control outside any container: anchor, apply the
      minimum size, then clamp into the parent rectangle. */
  function AnchorRect(p: Rect, c: Control): (r: Rect)
    ensures ClampedTo(p, r)
    ensures p.x + p.w - r.x >= c.minW ==> r.w >= c.minW
    ensures p.y + p.h - r.y >= c.minH ==> r.h >= c.minH
    ensures InsideOf(p, Anchored(p, c)) ==> r == Anchored(p, c)
  {
    ClampTo(p, Anchored(p, c))
  }

  /** The minimum size is applied before the clamp, so a parent too small for
      it wins: a 200-wide minimum in a 50-wide parent ends up 50 wide. */
  lemma ClampBeatsMinimumSize()
    ensures var c := DefaultControl.(minW := 200.0);
      var r := AnchorRect(Rect(0.0, 0.0, 50.0, 50.0), c);
      r.w == 50.0 && r.w < c.minW
  {
    var c := DefaultControl.(minW := 200.0);
    var p := Rect(0.0, 0.0, 50.0, 50.0);
    assert Share(50.0, 0.0) == 0.0;
    assert Anchored(p, c) == Rect(0.0, 0.0, 200.0, 30.0);
  }

  /** A control anchored to all four edges with no offsets covers its
      parent exactly. */
  lemma FullAnchorsCoverParent(p: Rect, c: Control)
    requires p.w >= 0.0 && p.h >= 0.0
    requires c.anchorLeft == 0.0 && c.anchorTop == 0.0 && c.anchorRight == 1.0 && c.anchorBottom == 1.0
    requires c.offsetLeft == 0.0 && c.offsetTop == 0.0 && c.offsetRight == 0.0 && c.offsetBottom == 0.0
    requires c.minW <= p.w && c.minH <= p.h
    ensures AnchorRect(p, c) == p
  {
    assert Anchored(p, c) == p;
  }

  // ---------------------------------------------------------------------
  // VBox / HBox layout

  /** The axis a container stacks its children along: a VBox is Vertical. */
  datatype Axis = Horizontal | Vertical

  function Across(a: Axis): Axis {
    if a == Vertical then Horizontal else Vertical
  }

  function MinAlong(c: Control, a: Axis): real {
    if a == Vertical then c.minH else c.minW
  }

  function FlagsAlong(c: Control, a: Axis): bv32 {
    if a == Vertical then c.sizeFlagsV else c.sizeFlagsH
  }

  predicate HasFlag(flags: bv32, f: bv32) { flags & f != 0 }

  predicate Expands(c: Control, a: Axis) { HasFlag(FlagsAlong(c, a), SizeExpand) }

  /** A child's size along the stacking axis before any extra: its minimum,
      never negative. */
  function BaseSize(c: Control, a: Axis): (r: real)
    ensures r >= 0.0 && r >= MinAlong(c, a)
  {
    Max(MinAlong(c, a), 0.0)
  }

  function TotalBase(cs: seq<Control>, a: Axis): (r: real)
    ensures r >= 0.0
    decreases |cs|
  {
    if cs == [] then 0.0 else BaseSize(cs[0], a) + TotalBase(cs[1..], a)
  }

  function ExpandCount(cs: seq<Control>, a: Axis): (r: nat)
    ensures r <= |cs|
    decreases |cs|
  {
    if cs == [] then 0 else (if Expands(cs[0], a) then 1 else 0) + ExpandCount(cs[1..], a)
  }

  /** `per` given to each of `n` children, added up. */
  function Spread(per: real, n: nat): real {
    if n == 0 then 0.0 else per + Spread(per, n - 1)
  }

  /** The spacing between `n` children, added up. */
  function Gaps(spacing: real, n: nat): real {
    if n <= 1 then 0.0 else spacing + Gaps(spacing, n - 1)
  }

  /** The sums are the products the source computes: `per * n` and
      `spacing * (n - 1)`. */
  lemma {:induction false} SpreadIsProduct(per: real, n: nat)
    ensures Spread(per, n) == per * (n as real)
    ensures n >= 1 ==> Gaps(per, n) == per * ((n - 1) as real)
  {
    if n > 0 {
      SpreadIsProduct(per, n - 1);
    }
  }

  /** The space the children need before any is expanded. */
  function Fixed(cs: seq<Control>, a: Axis, spacing: real): real {
    TotalBase(cs, a) + Gaps(spacing, |cs|)
  }

  /** The extra each expanding child receives: the room left over after the
      fixed part, shared evenly, or nothing when no child expands. */
  function ExtraPer(cs: seq<Control>, a: Axis, avail: real, spacing: real): (r: real)
    ensures r >= 0.0
    ensures ExpandCount(cs, a) == 0 ==> r == 0.0
    ensures ExpandCount(cs, a) > 0 ==> Spread(r, ExpandCount(cs, a)) == Max(0.0, avail - Fixed(cs, a, spacing))
  {
    var extra := Max(0.0, avail - Fixed(cs, a, spacing));
    var n := ExpandCount(cs, a);
    if n > 0 then
      SpreadIsProduct(extra / (n as real), n);
      extra / (n as real)
    else 0.0
  }

  /** A child's extent along the stacking axis. */
  function MainSize(c: Control, a: Axis, per: real): (r: real)
    requires per >= 0.0
    ensures r >= BaseSize(c, a)
  {
    BaseSize(c, a) + (if Expands(c, a) then per else 0.0)
  }

  /** A child's extent across the stacking axis: the whole available breadth
      when it fills or expands that way, otherwise its minimum there; a zero
      result falls back to the available breadth. */
  function CrossSize(c: Control, a: Axis, avail: real): (r: real)
    ensures avail >= 0.0 ==> r >= 0.0
    ensures HasFlag(FlagsAlong(c, Across(a)), SizeFill) || Expands(c, Across(a)) ==> r == avail
    ensures MinAlong(c, Across(a)) <= 0.0 ==> r == avail
  {
    var f := FlagsAlong(c, Across(a));
    var size := if HasFlag(f, SizeFill) || HasFlag(f, SizeExpand) then avail else Max(0.0, MinAlong(c, Across(a)));
    if size > 0.0 then size else avail
  }

  /** A child's place along the stacking axis: start and extent. */
  datatype Slot = Slot(pos: real, size: real)

  function End(sl: Slot): real { sl.pos + sl.size }

  /** The stacking walk: each child starts at the cursor, and the cursor then
      moves past it and one spacing. */
  function Slots(cs: seq<Control>, a: Axis, per: real, cursor: real, spacing: real): (r: seq<Slot>)
    requires per >= 0.0
    ensures |r| == |cs|
    ensures forall i | 0 <= i < |r| :: r[i].size == MainSize(cs[i], a, per)
    ensures |r| > 0 ==> r[0].pos == cursor
    ensures forall i, j | 0 <= i && j == i + 1 < |r| :: r[j].pos == End(r[i]) + spacing
    decreases |cs|
  {
    if cs == [] then []
    else
      var sz := MainSize(cs[0], a, per);
      var rest := Slots(cs[1..], a, per, cursor + sz + spacing, spacing);
      assert forall i | 1 <= i < |cs| :: cs[1..][i - 1] == cs[i];
      [Slot(cursor, sz)] + rest
  }

  function SumMain(cs: seq<Control>, a: Axis, per: real): real
    requires per >= 0.0
    decreases |cs|
  {
    if cs == [] then 0.0 else MainSize(cs[0], a, per) + SumMain(cs[1..], a, per)
  }

  /** The stack ends at the cursor plus the children's extents and the
      spacing between them. */
  lemma {:induction false} SlotsEnd(cs: seq<Control>, a: Axis, per: real, cursor: real, spacing: real)
    requires per >= 0.0 && |cs| > 0
    ensures End(LastSlot(cs, a, per, cursor, spacing)) == cursor + SumMain(cs, a, per) + Gaps(spacing, |cs|)
    decreases |cs|
  {
    if |cs| > 1 {
      var sz := MainSize(cs[0], a, per);
      SlotsEnd(cs[1..], a, per, cursor + sz + spacing, spacing);
      LastSlotStep(cs, a, per, cursor, spacing);
      assert SumMain(cs, a, per) == sz + SumMain(cs[1..], a, per);
      assert Gaps(spacing, |cs|) == spacing + Gaps(spacing, |cs[1..]|);
    } else {
      assert Slots(cs, a, per, cursor, spacing) == [Slot(cursor, MainSize(cs[0], a, per))];
    }
  }

  function LastSlot(cs: seq<Control>, a: Axis, per: real, cursor: real, spacing: real): Slot
    requires per >= 0.0 && |cs| > 0
  {
    var r := Slots(cs, a, per, cursor, spacing); r[|r| - 1]
  }

  lemma LastSlotStep(cs: seq<Control>, a: Axis, per: real, cursor: real, spacing: real)
    requires per >= 0.0 && |cs| > 1
    ensures LastSlot(cs, a, per, cursor, spacing) ==
      LastSlot(cs[1..], a, per, cursor + MainSize(cs[0], a, per) + spacing, spacing)
  {
    var rest := Slots(cs[1..], a, per, cursor + MainSize(cs[0], a, per) + spacing, spacing);
    assert Slots(cs, a, per, cursor, spacing) == [Slot(cursor, MainSize(cs[0], a, per))] + rest;
  }

  /** The extents add up to the minimums plus one share of extra per
      expanding child. */
  lemma {:induction false} SumMainSplits(cs: seq<Control>, a: Axis, per: real)
    requires per >= 0.0
    ensures SumMain(cs, a, per) == TotalBase(cs, a) + Spread(per, ExpandCount(cs, a))
    decreases |cs|
  {
    if cs != [] {
      SumMainSplits(cs[1..], a, per);
    }
  }

  /** With at least one expanding child the stack reaches exactly the end of
      the available space (or the end of its fixed part, if that is longer);
      without one it is exactly as long as its fixed part. */
  lemma StackLength(cs: seq<Control>, a: Axis, avail: real, cursor: real, spacing: real)
    requires |cs| > 0
    ensures End(LastSlot(cs, a, ExtraPer(cs, a, avail, spacing), cursor, spacing)) == cursor + (if ExpandCount(cs, a) > 0 then Max(avail, Fixed(cs, a, spacing))
                                   else Fixed(cs, a, spacing))
  {
    var per := ExtraPer(cs, a, avail, spacing);
    SlotsEnd(cs, a, per, cursor, spacing);
    SumMainSplits(cs, a, per);
  }

  /** A rectangle seen along the stacking axis. */
  function MainOf(a: Axis, r: Rect): Slot {
    if a == Vertical then Slot(r.y, r.h) else Slot(r.x, r.w)
  }

  /** A rectangle seen across the stacking axis. */
  function CrossOf(a: Axis, r: Rect): Slot {
    if a == Vertical then Slot(r.x, r.w) else Slot(r.y, r.h)
  }

  function Place(a: Axis, main: Slot, cross: Slot): (r: Rect)
    ensures MainOf(a, r) == main && CrossOf(a, r) == cross
  {
    if a == Vertical then Rect(cross.pos, main.pos, cross.size, main.size)
    else Rect(main.pos, cross.pos, main.size, cross.size)
  }

  /** The room inside the padding, along `a`. */
  function Avail(p: Rect, pad: real, a: Axis): (r: real)
    ensures r >= 0.0
  {
    Max(0.0, (if a == Vertical then p.h else p.w) - pad * 2.0)
  }

  /** The first coordinate inside the padding, along `a`. */
  function Start(p: Rect, pad: real, a: Axis): real {
    (if a == Vertical then p.y else p.x) + pad
  }

  /** The main-axis plan of a container's children. */
  function Plan(p: Rect, box: BoxContainer, a: Axis, cs: seq<Control>): (r: seq<Slot>)
    ensures |r| == |cs|
  {
    Slots(cs, a, ExtraPer(cs, a, Avail(p, box.padding, a), box.spacing), Start(p, box.padding, a), box.spacing)
  }

  /** The children's rectangles before the scroll offset: stacked along the
      axis from the padded start, each across the axis at the padded
      start. */
  function Placed(p: Rect, box: BoxContainer, a: Axis, cs: seq<Control>): (r: seq<Rect>)
    ensures |r| == |cs|
    ensures forall i | 0 <= i < |r| :: MainOf(a, r[i]) == Plan(p, box, a, cs)[i]
    ensures forall i | 0 <= i < |r| ::
      CrossOf(a, r[i]) == Slot(Start(p, box.padding, Across(a)), CrossSize(cs[i], a, Avail(p, box.padding, Across(a))))
  {
    var plan := Plan(p, box, a, cs);
    var cross := Start(p, box.padding, Across(a));
    var breadth := Avail(p, box.padding, Across(a));
    seq(|cs|, i requires 0 <= i < |cs| => Place(a, plan[i], Slot(cross, CrossSize(cs[i], a, breadth))))
  }

  /** The layout's main-axis promises: children keep at least their minimum
      extent, an expanding child gets exactly one share more, each starts one
      spacing after the previous one ends, and the first starts at the
      padding. */
  lemma PlacedStacks(p: Rect, box: BoxContainer, a: Axis, cs: seq<Control>)
    ensures var r := Placed(p, box, a, cs);
      var per := ExtraPer(cs, a, Avail(p, box.padding, a), box.spacing);
      && (|r| > 0 ==> MainOf(a, r[0]).pos == Start(p, box.padding, a))
      && (forall i, j | 0 <= i && j == i + 1 < |r| :: MainOf(a, r[j]).pos == End(MainOf(a, r[i])) + box.spacing)
      && (forall i | 0 <= i < |r| :: MainOf(a, r[i]).size >= BaseSize(cs[i], a))
      && (forall i | 0 <= i < |r| && Expands(cs[i], a) :: MainOf(a, r[i]).size == BaseSize(cs[i], a) + per)
  {
  }

  /** A largest far edge: the running maximum the source keeps, from a
      starting value. */
  function FarEdge(ends: seq<real>, acc: real): (r: real)
    ensures r >= acc && forall i | 0 <= i < |ends| :: r >= ends[i]
    ensures r == acc || exists i | 0 <= i < |ends| :: r == ends[i]
    decreases |ends|
  {
    if ends == [] then acc
    else
      var r := FarEdge(ends[1..], Max(acc, ends[0]));
      assert forall i | 1 <= i < |ends| :: ends[1..][i - 1] == ends[i];
      r
  }

  datatype Layout = Layout(rects: seq<Rect>, contentW: real, contentH: real)

  /** The rectangles moved back by a scroll offset, if there is one. */
  function Shifted(rs: seq<Rect>, scroll: Option<ScrollContainer>): (r: seq<Rect>)
    ensures |r| == |rs|
    ensures scroll.None? ==> r == rs
    ensures scroll.Some? ==> forall i | 0 <= i < |rs| ::
      r[i] == Rect(rs[i].x - scroll.value.scrollX, rs[i].y - scroll.value.scrollY, rs[i].w, rs[i].h)
  {
    if scroll.None? then rs
    else seq(|rs|, i requires 0 <= i < |rs| => Rect(rs[i].x - scroll.value.scrollX, rs[i].y - scroll.value.scrollY, rs[i].w, rs[i].h))
  }

  /** How far the rectangles reach right of and below `origin`, counting at
      least the padding; never negative. */
  function Content(rs: seq<Rect>, origin: Rect, pad: real): (r: (real, real))
    ensures r.0 >= 0.0 && r.1 >= 0.0
    ensures forall i | 0 <= i < |rs| :: r.0 >= rs[i].x + rs[i].w - origin.x && r.1 >= rs[i].y + rs[i].h - origin.y
  {
    var rights := seq(|rs|, i requires 0 <= i < |rs| => rs[i].x + rs[i].w);
    var bottoms := seq(|rs|, i requires 0 <= i < |rs| => rs[i].y + rs[i].h);
    assert forall i | 0 <= i < |rs| :: rights[i] == rs[i].x + rs[i].w && bottoms[i] == rs[i].y + rs[i].h;
    (Max(0.0, FarEdge(rights, origin.x + pad) - origin.x), Max(0.0, FarEdge(bottoms, origin.y + pad) - origin.y))
  }

  /** The container layout. Every child rectangle is shifted back by the
      scroll offset of the nearest enclosing scroll container, if any; the
      content size (measured before the shift, from the parent's origin) is
      what the source stores into that scroll container. */
  function BoxLayout(p: Rect, box: BoxContainer, a: Axis, cs: seq<Control>, scroll: Option<ScrollContainer>): (r: Layout)
    ensures |r.rects| == |cs|
    ensures r.rects == Shifted(Placed(p, box, a, cs), scroll)
    ensures (r.contentW, r.contentH) == Content(Placed(p, box, a, cs), p, box.padding)
  {
    var placed := Placed(p, box, a, cs);
    var content := Content(placed, p, box.padding);
    Layout(Shifted(placed, scroll), content.0, content.1)
  }

  // ---------------------------------------------------------------------
  // Resolving an entity's rectangle

  /** The parent's children that have a Control, in child order: the
      entities a container lays out. */
  function ControlChildren(s: Scene, p: EntityId): (r: seq<EntityId>)
    ensures forall x :: x in r <==> x in ChildrenOf(s, p) && GetControl(s, x).Some?
  {
    Filter(ChildrenOf(s, p), x => GetControl(s, x).Some?)
  }

  function Controls(s: Scene, ids: seq<EntityId>): (r: seq<Control>)
    requires forall x | x in ids :: GetControl(s, x).Some?
    ensures |r| == |ids| && forall i | 0 <= i < |ids| :: r[i] == GetControl(s, ids[i]).value
  {
    seq(|ids|, i requires 0 <= i < |ids| => GetControl(s, ids[i]).value)
  }

  /** The first position of `x` in `xs`. */
  function IndexOf(xs: seq<EntityId>, x: EntityId): (r: nat)
    requires x in xs
    ensures r < |xs| && xs[r] == x && forall j | 0 <= j < r :: xs[j] != x
  {
    if xs[0] == x then 0 else 1 + IndexOf(xs[1..], x)
  }

  /** The first id of `a` holding a ScrollContainer. */
  function FirstScroll(s: Scene, a: seq<EntityId>): Option<EntityId> {
    FirstWhere(a, (x: EntityId) => GetScroll(s, x).Some?)
  }

  /** `findScrollContainer`: walk up from `e` to the first valid entity
      holding a ScrollContainer. */
  function FindScroll(s: Scene, e: Entity, fuel: nat): (r: Option<EntityId>)
    ensures r == FirstScroll(s, Ancestry(s, e, fuel))
    decreases fuel
  {
    if fuel == 0 || !HandleValid(s, e) then None
    else if GetScroll(s, e.id).Some? then Some(e.id)
    else
      var rest := Ancestry(s, Parent(s, e), fuel - 1);
      assert Ancestry(s, e, fuel) == [e.id] + rest;
      assert ([e.id] + rest)[1..] == rest;
      FindScroll(s, Parent(s, e), fuel - 1)
  }

  /** The parent a container layout applies to: a valid parent holding a
      VBox or an HBox. */
  predicate InContainer(s: Scene, e: Entity) {
    var p := Parent(s, e);
    HandleValid(s, p) && (GetVBox(s, p.id).Some? || GetHBox(s, p.id).Some?) && e.id in ControlChildren(s, p.id)
  }

  /** The rectangle a control is resolved against: the parent's own resolved
      rectangle when the parent is a valid control, otherwise the viewport. */
  function ParentRect(s: Scene, e: Entity, viewport: Rect, fuel: nat): Rect
    decreases fuel, 0
  {
    var p := Parent(s, e);
    if fuel > 0 && HandleValid(s, p) && GetControl(s, p.id).Some? then ResolveRect(s, p, viewport, fuel - 1)
    else viewport
  }

  /** `resolveRect`. A child laid out by its parent container gets the
      layout's rectangle; any other control is anchored into its parent
      rectangle; an entity without a Control gets the parent rectangle
      itself. `fuel` bounds the upward recursion. */
  function ResolveRect(s: Scene, e: Entity, viewport: Rect, fuel: nat): (r: Rect)
    ensures !InContainer(s, e) && GetControl(s, e.id).Some? ==>
      r == AnchorRect(ParentRect(s, e, viewport, fuel), GetControl(s, e.id).value)
    ensures !InContainer(s, e) && GetControl(s, e.id).None? ==> r == ParentRect(s, e, viewport, fuel)
    ensures InContainer(s, e) ==> r == ContainerSlot(s, e, ParentRect(s, e, viewport, fuel), fuel)
    decreases fuel, 1
  {
    var pr := ParentRect(s, e, viewport, fuel);
    if InContainer(s, e) then
      ContainerSlot(s, e, pr, fuel)
    else match GetControl(s, e.id)
      case Some(c) => AnchorRect(pr, c)
      case None => pr
  }

  /** The rectangle the parent container's layout gives `e`. */
  function ContainerSlot(s: Scene, e: Entity, pr: Rect, fuel: nat): (r: Rect)
    requires InContainer(s, e)
    ensures var p := Parent(s, e);
      var kids := ControlChildren(s, p.id);
      r == ContainerLayout(s, p, pr, fuel).rects[IndexOf(kids, e.id)]
  {
    var kids := ControlChildren(s, Parent(s, e).id);
    ContainerLayout(s, Parent(s, e), pr, fuel).rects[IndexOf(kids, e.id)]
  }

  /** The layout of a container's Control children within its rectangle;
      VBox wins when the parent has both. */
  function ContainerLayout(s: Scene, p: Entity, pr: Rect, fuel: nat): (r: Layout)
    requires GetVBox(s, p.id).Some? || GetHBox(s, p.id).Some?
    ensures |r.rects| == |ControlChildren(s, p.id)|
  {
    var a := if GetVBox(s, p.id).Some? then Vertical else Horizontal;
    var box := if a == Vertical then GetVBox(s, p.id).value else GetHBox(s, p.id).value;
    var kids := ControlChildren(s, p.id);
    var scroll := match FindScroll(s, p, fuel)
      case Some(x) => GetScroll(s, x)
      case None => None;
    BoxLayout(pr, box, a, Controls(s, kids), scroll)
  }

  /** A control outside a container never leaves its parent's rectangle
      through the top or the left, and a non-empty one ends within it. */
  lemma ResolvedWithinParent(s: Scene, e: Entity, viewport: Rect, fuel: nat)
    requires !InContainer(s, e) && GetControl(s, e.id).Some?
    ensures ClampedTo(ParentRect(s, e, viewport, fuel), ResolveRect(s, e, viewport, fuel))
  {
  }

  // ---------------------------------------------------------------------
  // Wheel scrolling

  function WheelStep(wheel: real, speed: real): real { wheel * speed }

  function MaxScroll(contentH: real, viewH: real): (r: real)
    ensures r >= 0.0
  {
    Max(0.0, contentH - viewH)
  }

  /** The scroll position clamped to [0, content height - view height]. */
  function ClampScroll(y: real, contentH: real, viewH: real): (r: real)
    ensures 0.0 <= r <= MaxScroll(contentH, viewH)
    ensures 0.0 <= y <= MaxScroll(contentH, viewH) ==> r == y
    ensures y < 0.0 ==> r == 0.0
    ensures y > MaxScroll(contentH, viewH) ==> r == MaxScroll(contentH, viewH)
  {
    Max(0.0, Min(y, MaxScroll(contentH, viewH)))
  }

  function Abs(x: real): real { if x < 0.0 then -x else x }

  /** The wheel pass for one scroll container: only a wheel movement above
      0.001 over the container's rectangle scrolls it, by the movement times
      the wheel speed, clamped. */
  function WheelScroll(sc: ScrollContainer, rect: Rect, wheel: real, mx: real, my: real): (r: ScrollContainer)
    ensures Abs(wheel) <= 0.001 || !Contains(rect, mx, my) ==> r == sc
    ensures Abs(wheel) > 0.001 && Contains(rect, mx, my) ==>
      r == sc.(scrollY := ClampScroll(sc.scrollY - WheelStep(wheel, sc.wheelSpeed), sc.contentHeight, rect.h))
  {
    if Abs(wheel) > 0.001 && Contains(rect, mx, my) then
      sc.(scrollY := ClampScroll(sc.scrollY - WheelStep(wheel, sc.wheelSpeed), sc.contentHeight, rect.h))
    else sc
  }

  /** A scroll position within range stays within range, and a wheel step
      over the container always lands in range. */
  lemma WheelKeepsRange(sc: ScrollContainer, rect: Rect, wheel: real, mx: real, my: real)
    ensures var r := WheelScroll(sc, rect, wheel, mx, my);
      0.0 <= sc.scrollY <= MaxScroll(sc.contentHeight, rect.h) ==>
        0.0 <= r.scrollY <= MaxScroll(r.contentHeight, rect.h)
    ensures Abs(wheel) > 0.001 && Contains(rect, mx, my) ==>
      0.0 <= WheelScroll(sc, rect, wheel, mx, my).scrollY <= MaxScroll(sc.contentHeight, rect.h)
    ensures WheelScroll(sc, rect, wheel, mx, my).(scrollY := sc.scrollY) == sc
  {
  }

  /** Clamping an already clamped position changes nothing. */
  lemma ClampScrollIdempotent(y: real, contentH: real, viewH: real)
    ensures ClampScroll(ClampScroll(y, contentH, viewH), contentH, viewH) == ClampScroll(y, contentH, viewH)
  {
  }
}
