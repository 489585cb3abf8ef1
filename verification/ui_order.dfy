/** Draw and focus ordering (src/Melkam/ui/Ui.cpp:402-426, 470-531, 559-593,
    1055-1063): the canvas layer and tree depth of a control, the item lists
    sorted by (layer, depth), the text-edit focus on a click, and the button
    callback registry. */
module UiOrder {
  import opened Wrappers
  import opened Components
  import opened SceneStore
  import opened EntityHandle
  import opened Seqs
  import opened UiTree
  import opened UiLayout

  // ---------------------------------------------------------------------
  // Layer and depth

  /** The first id of `a` holding a CanvasLayer. */
  function FirstLayer(s: Scene, a: seq<EntityId>): Option<EntityId> {
    FirstWhere(a, (x: EntityId) => GetCanvasLayer(s, x).Some?)
  }

  /** `resolveLayer`: the layer of the nearest ancestor-or-self holding a
      CanvasLayer, or 0 when the walk finds none. */
  function ResolveLayer(s: Scene, e: Entity, fuel: nat): (r: int)
    ensures FirstLayer(s, Ancestry(s, e, fuel)).None? ==> r == 0
    ensures FirstLayer(s, Ancestry(s, e, fuel)).Some? ==>
      r == GetCanvasLayer(s, FirstLayer(s, Ancestry(s, e, fuel)).value).value.layer
    decreases fuel
  {
    if fuel == 0 || !HandleValid(s, e) then 0
    else match GetCanvasLayer(s, e.id)
      case Some(c) => c.layer
      case None =>
        var rest := Ancestry(s, Parent(s, e), fuel - 1);
        assert Ancestry(s, e, fuel) == [e.id] + rest;
        assert ([e.id] + rest)[1..] == rest;
        ResolveLayer(s, Parent(s, e), fuel - 1)
  }

  /** The number of valid handles on the walk up from `e`, `e` included. */
  function CountValid(s: Scene, e: Entity, fuel: nat): (r: nat)
    ensures r == |Ancestry(s, e, fuel)|
    decreases fuel
  {
    if fuel == 0 || !HandleValid(s, e) then 0 else 1 + CountValid(s, Parent(s, e), fuel - 1)
  }

  /** `resolveDepth`: how many valid ancestors lie above the entity. */
  function ResolveDepth(s: Scene, e: Entity, fuel: nat): (r: nat)
    ensures HandleValid(s, e) ==> r + 1 == |Ancestry(s, e, fuel + 1)|
  {
    CountValid(s, Parent(s, e), fuel)
  }

  /** A child of a valid parent lies one level deeper than the parent; a root
      (or the child of an invalid parent) lies at depth 0. */
  lemma ChildIsOneDeeper(s: Scene, e: Entity, fuel: nat)
    requires HandleValid(s, e)
    ensures HandleValid(s, Parent(s, e)) ==> ResolveDepth(s, e, fuel + 1) == ResolveDepth(s, Parent(s, e), fuel) + 1
    ensures !HandleValid(s, Parent(s, e)) ==> ResolveDepth(s, e, fuel) == 0
  {
  }

  /** A control with its own CanvasLayer takes that layer; one without takes
      its valid parent's. */
  lemma LayerIsInherited(s: Scene, e: Entity, fuel: nat)
    requires HandleValid(s, e)
    ensures GetCanvasLayer(s, e.id).Some? ==> ResolveLayer(s, e, fuel + 1) == GetCanvasLayer(s, e.id).value.layer
    ensures GetCanvasLayer(s, e.id).None? ==> ResolveLayer(s, e, fuel + 1) == ResolveLayer(s, Parent(s, e), fuel)
  {
  }

  // ---------------------------------------------------------------------
  // Item lists and their order

  /** One entry of the draw or text-edit list. */
  datatype Item = Item(id: EntityId, rect: Rect, layer: int, depth: int)

  /** The comparison of the sort: by layer, then by depth. */
  predicate KeyBefore(a: Item, b: Item) {
    a.layer < b.layer || (a.layer == b.layer && a.depth < b.depth)
  }

  /** `a` may precede `b` in a sorted list. */
  predicate KeyAtMost(a: Item, b: Item) {
    !KeyBefore(b, a)
  }

  predicate SortedByKey(xs: seq<Item>) {
    forall i, j | 0 <= i < j < |xs| :: KeyAtMost(xs[i], xs[j])
  }

  /** Insert into a sorted list after every item with a smaller or equal
      key. */
  function Insert(x: Item, xs: seq<Item>): (r: seq<Item>)
    requires SortedByKey(xs)
    ensures SortedByKey(r)
    ensures multiset(r) == multiset(xs) + multiset{x}
    decreases |xs|
  {
    if xs == [] then [x]
    else if KeyBefore(x, xs[0]) then
      assert forall y | y in xs :: KeyAtMost(x, y) by {
        forall y | y in xs ensures KeyAtMost(x, y) {
          var k :| 0 <= k < |xs| && xs[k] == y;
          if k > 0 { assert KeyAtMost(xs[0], xs[k]); }
        }
      }
      [x] + xs
    else
      assert SortedByKey(xs[1..]) by {
        forall i, j | 0 <= i < j < |xs[1..]| ensures KeyAtMost(xs[1..][i], xs[1..][j]) {
          assert xs[1..][i] == xs[i + 1] && xs[1..][j] == xs[j + 1];
        }
      }
      var rest := Insert(x, xs[1..]);
      assert xs == [xs[0]] + xs[1..];
      assert forall y | y in multiset(rest) :: KeyAtMost(xs[0], y) by {
        forall y | y in multiset(rest) ensures KeyAtMost(xs[0], y) {
          if y != x {
            assert y in multiset(xs[1..]);
            var k :| 0 <= k < |xs[1..]| && xs[1..][k] == y;
            assert xs[1..][k] == xs[k + 1];
          }
        }
      }
      SortedCons(xs[0], rest);
      [xs[0]] + rest
  }

  lemma SortedCons(h: Item, t: seq<Item>)
    requires SortedByKey(t)
    requires forall y | y in multiset(t) :: KeyAtMost(h, y)
    ensures SortedByKey([h] + t)
  {
    var r := [h] + t;
    forall i, j | 0 <= i < j < |r| ensures KeyAtMost(r[i], r[j]) {
      assert r[j] == t[j - 1];
      if i == 0 {
        assert t[j - 1] in multiset(t);
      } else {
        assert r[i] == t[i - 1];
      }
    }
  }

  /** The sort of the draw and text-edit lists: a permutation, non-decreasing
      by (layer, depth). */
  function SortItems(xs: seq<Item>): (r: seq<Item>)
    ensures SortedByKey(r)
    ensures multiset(r) == multiset(xs)
    decreases |xs|
  {
    if xs == [] then []
    else
      assert xs == [xs[0]] + xs[1..];
      Insert(xs[0], SortItems(xs[1..]))
  }

  predicate SameKey(a: Item, b: Item) {
    a.layer == b.layer && a.depth == b.depth
  }

  /** The sort may put items with equal keys in either order, but the keys
      it leaves at each position are determined: any two sorted
      arrangements of the same items agree key by key. */
  lemma {:induction false} SortedKeysAgree(xs: seq<Item>, ys: seq<Item>)
    requires SortedByKey(xs) && SortedByKey(ys) && multiset(xs) == multiset(ys)
    ensures |xs| == |ys|
    ensures forall i | 0 <= i < |xs| :: SameKey(xs[i], ys[i])
    decreases |xs|
  {
    assert |xs| == |multiset(xs)| == |multiset(ys)| == |ys|;
    if xs != [] {
      var x0 := xs[0];
      var j := HeadsShareKey(xs, ys);
      var ys' := ys[..j] + ys[j + 1..];
      RemoveOne(xs, ys, j);
      SortedTail(xs);
      SortedRemove(ys, j);
      SortedKeysAgree(xs[1..], ys');
      forall k | 0 <= k < |xs| ensures SameKey(xs[k], ys[k]) {
        if 0 < k <= j {
          assert xs[1..][k - 1] == xs[k] && ys'[k - 1] == ys[k - 1];
        } else if j < k {
          assert xs[1..][k - 1] == xs[k] && ys'[k - 1] == ys[k];
        }
      }
    }
  }

  /** The first items of two sorted arrangements share a key, and so does
      everything in `ys` up to where `xs`'s first item sits. */
  lemma HeadsShareKey(xs: seq<Item>, ys: seq<Item>) returns (j: nat)
    requires SortedByKey(xs) && SortedByKey(ys) && multiset(xs) == multiset(ys) && |xs| > 0
    ensures j < |ys| && ys[j] == xs[0]
    ensures forall k | 0 <= k <= j :: SameKey(ys[k], xs[0])
  {
    var x0 := xs[0];
    assert x0 in multiset(ys);
    j :| 0 <= j < |ys| && ys[j] == x0;
    assert ys[0] in multiset(xs);
    var i :| 0 <= i < |xs| && xs[i] == ys[0];
    assert KeyAtMost(x0, ys[0]) by { if i > 0 { assert KeyAtMost(xs[0], xs[i]); } }
    assert KeyAtMost(ys[0], x0) by { if j > 0 { assert KeyAtMost(ys[0], ys[j]); } }
    forall k | 0 <= k <= j ensures SameKey(ys[k], x0) {
      if 0 < k { assert KeyAtMost(ys[0], ys[k]); }
      if k < j { assert KeyAtMost(ys[k], ys[j]); }
    }
  }

  /** Taking the first item off `xs` and the same item off `ys` keeps the
      multisets equal. */
  lemma RemoveOne(xs: seq<Item>, ys: seq<Item>, j: nat)
    requires multiset(xs) == multiset(ys) && |xs| > 0 && j < |ys| && ys[j] == xs[0]
    ensures multiset(xs[1..]) == multiset(ys[..j] + ys[j + 1..])
  {
    assert ys == ys[..j] + [xs[0]] + ys[j + 1..];
    assert xs == [xs[0]] + xs[1..];
    assert multiset(ys) == multiset(ys[..j]) + multiset{xs[0]} + multiset(ys[j + 1..]);
    assert multiset(xs) == multiset{xs[0]} + multiset(xs[1..]);
    assert multiset(ys[..j] + ys[j + 1..]) == multiset(ys[..j]) + multiset(ys[j + 1..]);
    assert multiset(xs[1..]) == multiset(xs) - multiset{xs[0]};
    assert multiset(ys) - multiset{xs[0]} == multiset(ys[..j]) + multiset(ys[j + 1..]);
  }

  lemma SortedTail(xs: seq<Item>)
    requires SortedByKey(xs) && |xs| > 0
    ensures SortedByKey(xs[1..])
  {
    forall i, j | 0 <= i < j < |xs[1..]| ensures KeyAtMost(xs[1..][i], xs[1..][j]) {
      assert xs[1..][i] == xs[i + 1] && xs[1..][j] == xs[j + 1];
    }
  }

  lemma SortedRemove(xs: seq<Item>, k: nat)
    requires SortedByKey(xs) && k < |xs|
    ensures SortedByKey(xs[..k] + xs[k + 1..])
  {
    var r := xs[..k] + xs[k + 1..];
    forall i, j | 0 <= i < j < |r| ensures KeyAtMost(r[i], r[j]) {
      var i' := if i < k then i else i + 1;
      var j' := if j < k then j else j + 1;
      assert r[i] == xs[i'] && r[j] == xs[j'];
    }
  }

  /** A control that takes part in layout, drawing and focus. */
  predicate VisibleControl(s: Scene, x: EntityId) {
    GetControl(s, x).Some? && GetControl(s, x).value.visible
  }

  /** `it` carries the rectangle, layer and depth the scene gives its id. */
  predicate Describes(s: Scene, it: Item, viewport: Rect, fuel: nat) {
    var e := Entity(true, it.id);
    it.rect == ResolveRect(s, e, viewport, fuel) && it.layer == ResolveLayer(s, e, fuel) && it.depth == ResolveDepth(s, e, fuel)
  }

  /** The draw items: every visible control, in creation order. */
  function DrawItems(s: Scene, viewport: Rect, fuel: nat): (r: seq<Item>)
    ensures forall x :: x in Ids(r) <==> x in s.order && HoldsAll(s, x, {ControlKind}) && VisibleControl(s, x)
    ensures forall it | it in r :: Describes(s, it, viewport, fuel)
  {
    ItemsOf(s, Filter(View(s, {ControlKind}), x => VisibleControl(s, x)), viewport, fuel)
  }

  /** The text-edit items: visible controls that also hold a TextEdit. */
  function TextEditItems(s: Scene, viewport: Rect, fuel: nat): (r: seq<Item>)
    ensures forall x :: x in Ids(r) <==> x in s.order && HoldsAll(s, x, {ControlKind, TextEditKind}) && VisibleControl(s, x)
    ensures forall it | it in r :: Describes(s, it, viewport, fuel)
  {
    ItemsOf(s, Filter(View(s, {ControlKind, TextEditKind}), x => VisibleControl(s, x)), viewport, fuel)
  }

  function Ids(items: seq<Item>): (r: seq<EntityId>)
    ensures |r| == |items| && forall i | 0 <= i < |items| :: r[i] == items[i].id
  {
    seq(|items|, i requires 0 <= i < |items| => items[i].id)
  }

  /** One item per id, in the same order. */
  function ItemsOf(s: Scene, ids: seq<EntityId>, viewport: Rect, fuel: nat): (r: seq<Item>)
    ensures Ids(r) == ids
    ensures forall it | it in r :: Describes(s, it, viewport, fuel)
  {
    var r := seq(|ids|, i requires 0 <= i < |ids| =>
      var e := Entity(true, ids[i]);
      Item(ids[i], ResolveRect(s, e, viewport, fuel), ResolveLayer(s, e, fuel), ResolveDepth(s, e, fuel)));
    assert Ids(r) == ids;
    r
  }

  // ---------------------------------------------------------------------
  // Focus

  /** The position of the last item whose rectangle contains the point. */
  function LastHit(items: seq<Item>, mx: real, my: real): (r: Option<nat>)
    ensures r.Some? ==> r.value < |items| && Contains(items[r.value].rect, mx, my)
    ensures r.Some? ==> forall j | r.value < j < |items| :: !Contains(items[j].rect, mx, my)
    ensures r.None? ==> forall j | 0 <= j < |items| :: !Contains(items[j].rect, mx, my)
    decreases |items|
  {
    if items == [] then None
    else if Contains(items[|items| - 1].rect, mx, my) then Some(|items| - 1)
    else LastHit(items[..|items| - 1], mx, my)
  }

  /** The focus after a frame: on a click, the last item of the sorted list
      under the mouse, or no entity; without a click, unchanged. */
  function Focus(focused: EntityId, pressed: bool, sorted: seq<Item>, mx: real, my: real): (r: EntityId)
    ensures !pressed ==> r == focused
    ensures pressed && LastHit(sorted, mx, my).None? ==> r == InvalidEntity
    ensures pressed && LastHit(sorted, mx, my).Some? ==> r == sorted[LastHit(sorted, mx, my).value].id
  {
    if !pressed then focused
    else match LastHit(sorted, mx, my)
      case None => InvalidEntity
      case Some(k) => sorted[k].id
  }

  /** In a sorted list the hit chosen is on top: no item under the mouse has
      a greater (layer, depth). */
  lemma FocusIsOnTop(sorted: seq<Item>, mx: real, my: real)
    requires SortedByKey(sorted)
    ensures var h := LastHit(sorted, mx, my);
      h.Some? ==> forall j | 0 <= j < |sorted| && Contains(sorted[j].rect, mx, my) :: KeyAtMost(sorted[j], sorted[h.value])
  {
  }

  /** The sort may order equal keys either way, but the key of the focused
      item is the same for every sorted arrangement. */
  lemma FocusKeyIsDetermined(xs: seq<Item>, ys: seq<Item>, mx: real, my: real)
    requires SortedByKey(xs) && SortedByKey(ys) && multiset(xs) == multiset(ys)
    ensures LastHit(xs, mx, my).Some? <==> LastHit(ys, mx, my).Some?
    ensures LastHit(xs, mx, my).Some? ==>
      var (a, b) := (xs[LastHit(xs, mx, my).value], ys[LastHit(ys, mx, my).value]);
      a.layer == b.layer && a.depth == b.depth
  {
    var hx := LastHit(xs, mx, my);
    var hy := LastHit(ys, mx, my);
    if hx.Some? {
      assert xs[hx.value] in multiset(ys);
      var k :| 0 <= k < |ys| && ys[k] == xs[hx.value];
      assert hy.Some?;
    }
    if hy.Some? {
      assert ys[hy.value] in multiset(xs);
      var k :| 0 <= k < |xs| && xs[k] == ys[hy.value];
      assert hx.Some?;
    }
    if hx.Some? {
      FocusIsOnTop(xs, mx, my);
      FocusIsOnTop(ys, mx, my);
      var a := xs[hx.value];
      var b := ys[hy.value];
      assert b in multiset(xs);
      var i :| 0 <= i < |xs| && xs[i] == b;
      assert a in multiset(ys);
      var j :| 0 <= j < |ys| && ys[j] == a;
      assert KeyAtMost(b, a) && KeyAtMost(a, b);
    }
  }

  // ---------------------------------------------------------------------
  // Button callbacks

  /** A registered callback, identified by a label. */
  type CallbackId = nat

  /** `ConnectButtonPressed`: append to the button's callback list; an invalid
      handle registers nothing. */
  function ConnectButtonPressed(reg: map<EntityId, seq<CallbackId>>, s: Scene, button: Entity, f: CallbackId): (r: map<EntityId, seq<CallbackId>>)
    ensures !HandleValid(s, button) ==> r == reg
    ensures HandleValid(s, button) ==>
      r.Keys == reg.Keys + {button.id} &&
      r[button.id] == (if button.id in reg then reg[button.id] else []) + [f] &&
      forall x | x in reg && x != button.id :: r[x] == reg[x]
  {
    if !HandleValid(s, button) then reg
    else reg[button.id := (if button.id in reg then reg[button.id] else []) + [f]]
  }

  /** Callbacks are kept in the order they were connected. */
  lemma CallbacksKeepOrder(reg: map<EntityId, seq<CallbackId>>, s: Scene, button: Entity, f: CallbackId, g: CallbackId)
    requires HandleValid(s, button) && button.id !in reg
    ensures ConnectButtonPressed(ConnectButtonPressed(reg, s, button, f), s, button, g)[button.id] == [f, g]
  {
  }
}
