/** The pieces every part of the UI layer shares (src/Melkam/ui/Ui.cpp):
    screen rectangles, the inclusive hit test, and the upward walk the UI
    makes from an entity through its valid ancestors. */
module UiTree {
  import opened Wrappers
  import opened Components
  import opened SceneStore
  import opened EntityHandle

  /** A screen rectangle: origin and size. */
  datatype Rect = Rect(x: real, y: real, w: real, h: real)

  /** `std::max` and `std::min` on floats. */
  function Max(a: real, b: real): real { if a < b then b else a }
  function Min(a: real, b: real): real { if b < a then b else a }

  /** `contains`: inclusive on every edge. */
  predicate Contains(r: Rect, px: real, py: real) {
    px >= r.x && py >= r.y && px <= r.x + r.w && py <= r.y + r.h
  }

  /** Every corner of a rectangle of non-negative size is inside it, and a
      point past any edge is not. */
  lemma ContainsEdges(r: Rect, px: real, py: real)
    requires r.w >= 0.0 && r.h >= 0.0
    ensures Contains(r, r.x, r.y) && Contains(r, r.x + r.w, r.y + r.h)
    ensures Contains(r, r.x + r.w, r.y) && Contains(r, r.x, r.y + r.h)
    ensures px < r.x || px > r.x + r.w || py < r.y || py > r.y + r.h ==> !Contains(r, px, py)
  {
  }

  /** A zero-size rectangle still contains its one point. */
  lemma EmptyRectHitsItsOrigin(r: Rect, px: real, py: real)
    requires r.w == 0.0 && r.h == 0.0
    ensures Contains(r, px, py) <==> px == r.x && py == r.y
  {
  }

  /** The ids the UI's upward walks visit, in order: the entity itself, then
      each parent in turn, for as long as the handle is valid. `fuel` bounds
      the walk; the source walks until it meets an invalid handle. */
  function Ancestry(s: Scene, e: Entity, fuel: nat): (r: seq<EntityId>)
    ensures |r| <= fuel
    ensures forall x | x in r :: IsValid(s, x)
    ensures fuel > 0 && HandleValid(s, e) ==> |r| > 0 && r[0] == e.id
    ensures !HandleValid(s, e) ==> r == []
    decreases fuel
  {
    if fuel == 0 || !HandleValid(s, e) then [] else [e.id] + Ancestry(s, Parent(s, e), fuel - 1)
  }

  /** `c`'s Node names `p` as its parent. */
  predicate ParentLink(s: Scene, c: EntityId, p: EntityId) {
    GetNode(s, c).Some? && GetNode(s, c).value.parent == p
  }

  /** Each id of `a` after the first is the stored parent of the one before
      it. */
  predicate LinkedUpwards(s: Scene, a: seq<EntityId>)
    decreases |a|
  {
    |a| <= 1 || (ParentLink(s, a[0], a[1]) && LinkedUpwards(s, a[1..]))
  }

  /** The upward walk follows the stored parent links. */
  lemma {:induction false} AncestryFollowsParents(s: Scene, e: Entity, fuel: nat)
    ensures LinkedUpwards(s, Ancestry(s, e, fuel))
    decreases fuel
  {
    if fuel > 0 && HandleValid(s, e) {
      var p := Parent(s, e);
      AncestryFollowsParents(s, p, fuel - 1);
      var rest := Ancestry(s, p, fuel - 1);
      assert Ancestry(s, e, fuel) == [e.id] + rest;
      assert ([e.id] + rest)[1..] == rest;
      if |rest| > 0 {
        assert HandleValid(s, p);
        assert ParentLink(s, e.id, p.id);
      }
    }
  }

  /** The first id of `a` satisfying `p`: the search every upward walk of the
      UI makes over the ancestry. */
  function FirstWhere(a: seq<EntityId>, p: EntityId -> bool): (r: Option<EntityId>)
    ensures r.Some? ==> exists i | 0 <= i < |a| :: a[i] == r.value && p(a[i]) && forall j | 0 <= j < i :: !p(a[j])
    ensures r.None? ==> forall i | 0 <= i < |a| :: !p(a[i])
    decreases |a|
  {
    if a == [] then None
    else if p(a[0]) then Some(a[0])
    else
      var r := FirstWhere(a[1..], p);
      assert forall i | 1 <= i < |a| :: a[1..][i - 1] == a[i];
      r
  }
}
