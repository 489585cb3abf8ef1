/** The entity handle: a (scene, id) pair that forwards to the scene
    (src/Melkam/scene/Entity.cpp, include/Melkam/scene/Entity.inl). Scenes are
    values here, so a handle records only whether it is bound to a scene; every
    operation takes the scene the handle points at. */
module EntityHandle {
  import opened Wrappers
  import opened Components
  import opened SceneStore
  import H = Hierarchy

  datatype Entity = Entity(bound: bool, id: EntityId)

  /** The default-constructed handle: no scene, id 0. */
  const NullEntity := Entity(false, InvalidEntity)

  /** Bound to a scene in which the id is live. */
  predicate HandleValid(s: Scene, e: Entity) {
    e.bound && IsValid(s, e.id)
  }

  lemma NullNeverValid(s: Scene)
    ensures !HandleValid(s, NullEntity)
  {
  }

  /** The Name component's text, or the empty string when the handle is unbound
      or the entity has no name. */
  function Name(s: Scene, e: Entity): (r: string)
    ensures !e.bound ==> r == ""
    ensures e.bound && GetName(s, e.id).Some? ==> r == GetName(s, e.id).value
    ensures e.bound && GetName(s, e.id).None? ==> r == ""
  {
    if !e.bound then ""
    else match GetName(s, e.id)
      case Some(v) => v
      case None => ""
  }

  /** Overwrite the name, or attach a Name component when there is none. An
      unbound handle does nothing. */
  function SetName(s: Scene, e: Entity, name: string): (r: Scene)
    ensures !e.bound ==> r == s
    ensures forall k, x | k != NameKind || x != e.id ::
      TryGetComponent(r, k, x) == TryGetComponent(s, k, x)
    ensures r.live == s.live && r.order == s.order
  {
    if !e.bound then s else AddComponent(s, e.id, NameC(name))
  }

  /** Reading back a name just set gives that name. */
  lemma SetNameThenName(s: Scene, e: Entity, name: string)
    requires e.bound
    ensures Name(SetName(s, e, name), e) == name
  {
  }

  /** The parent handle: null when unbound, without a Node, or at the root.
      The parent's liveness is not checked. */
  function Parent(s: Scene, e: Entity): (r: Entity)
    ensures r == NullEntity || (r.bound && r.id != InvalidEntity)
    ensures !e.bound || GetNode(s, e.id).None? ==> r == NullEntity
    ensures e.bound && GetNode(s, e.id).Some? ==>
      (r.bound <==> GetNode(s, e.id).value.parent != InvalidEntity)
    ensures r.bound ==> GetNode(s, e.id).Some? && r.id == GetNode(s, e.id).value.parent
  {
    if !e.bound then NullEntity
    else match GetNode(s, e.id)
      case None => NullEntity
      case Some(n) => if n.parent == InvalidEntity then NullEntity else Entity(true, n.parent)
  }

  /** Handles for the ids in the Node's child list, in list order; empty when
      unbound or without a Node. */
  function Children(s: Scene, e: Entity): (r: seq<Entity>)
    ensures !e.bound ==> r == []
    ensures forall c | c in r :: c.bound
    ensures e.bound ==> |r| == |ChildrenOf(s, e.id)|
    ensures e.bound ==> forall i | 0 <= i < |r| :: r[i].id == ChildrenOf(s, e.id)[i]
  {
    if !e.bound then []
    else seq(|ChildrenOf(s, e.id)|, i requires 0 <= i < |ChildrenOf(s, e.id)| => Entity(true, ChildrenOf(s, e.id)[i]))
  }

  /** With consistent links, `c` is among `e`'s children exactly when `e` is
      `c`'s parent. */
  lemma ChildrenMatchParent(s: Scene, e: Entity, c: EntityId)
    requires H.Consistent(Nodes(s))
    requires e.bound && e.id in Nodes(s) && c in Nodes(s)
    ensures Entity(true, c) in Children(s, e) <==> Parent(s, Entity(true, c)) == e
  {
    var kids := ChildrenOf(s, e.id);
    var r := Children(s, e);
    if Entity(true, c) in r {
      var i :| 0 <= i < |r| && r[i] == Entity(true, c);
      assert kids[i] == c;
    }
    if Parent(s, Entity(true, c)) == e {
      assert Nodes(s)[c].parent == e.id;
      assert c in kids;
      var i :| 0 <= i < |kids| && kids[i] == c;
      assert r[i] == Entity(true, c);
    }
  }

  /** After `SetParent` with a live parent, the child's parent handle names that
      parent; with a parent that is not live it is null. */
  lemma SetParentThenParent(s: Scene, child: EntityId, parent: EntityId)
    requires H.Consistent(Nodes(s))
    requires IsValid(s, child) && child in Nodes(s)
    requires IsValid(s, parent) ==> parent in Nodes(s) && parent != child
    ensures Parent(SetParent(s, child, parent), Entity(true, child)) ==
      (if IsValid(s, parent) && parent != InvalidEntity then Entity(true, parent) else NullEntity)
  {
    SetParentLinks(s, child, parent);
  }

  // Component forwarding (Entity.inl:3-36)

  /** `addComponent`: the value is stored under the handle's id, and no other
      (kind, id) slot of the store changes. The source dereferences the scene
      pointer without a check, so a bound handle is required. */
  function AddComponentVia(s: Scene, e: Entity, c: Component): (r: Scene)
    requires e.bound
    ensures TryGetComponentVia(r, e, KindOf(c)) == Some(c)
    ensures forall k, x | k != KindOf(c) || x != e.id ::
      TryGetComponent(r, k, x) == TryGetComponent(s, k, x)
    ensures r.live == s.live && r.order == s.order && r.nextId == s.nextId
  {
    AddComponent(s, e.id, c)
  }

  /** `hasComponent`: true exactly when a lookup through the handle finds a
      component, so never on an unbound handle. */
  function HasComponentVia(s: Scene, e: Entity, k: Kind): (r: bool)
    ensures r <==> TryGetComponentVia(s, e, k).Some?
    ensures !e.bound ==> !r
  {
    e.bound && HasComponent(s, k, e.id)
  }

  /** `tryGetComponent`: nothing on an unbound handle, otherwise what the
      scene stores for (kind, id). */
  function TryGetComponentVia(s: Scene, e: Entity, k: Kind): (r: Option<Component>)
    ensures !e.bound ==> r == None
    ensures e.bound ==> (r.Some? <==> HasComponent(s, k, e.id))
    ensures r.Some? ==> k in s.tables && e.id in s.tables[k] && r.value == s.tables[k][e.id]
  {
    if e.bound then TryGetComponent(s, k, e.id) else None
  }

  /** `removeComponent`: a no-op on an unbound handle; otherwise the handle's
      (kind, id) slot is emptied and every other slot is kept. */
  function RemoveComponentVia(s: Scene, e: Entity, k: Kind): (r: Scene)
    ensures !HasComponentVia(r, e, k)
    ensures !e.bound ==> r == s
    ensures forall k', x | k' != k || x != e.id ::
      TryGetComponent(r, k', x) == TryGetComponent(s, k', x)
    ensures r.live == s.live && r.order == s.order && r.nextId == s.nextId
  {
    if e.bound then RemoveComponent(s, k, e.id) else s
  }

  /** A bound handle behaves exactly as the scene operations on its id: the
      forwarding adds nothing and loses nothing. */
  lemma ForwardingAgrees(s: Scene, e: Entity, k: Kind, c: Component)
    requires e.bound
    ensures HasComponentVia(s, e, k) == HasComponent(s, k, e.id)
    ensures TryGetComponentVia(s, e, k) == TryGetComponent(s, k, e.id)
    ensures forall k', x :: TryGetComponent(AddComponentVia(s, e, c), k', x) == TryGetComponent(AddComponent(s, e.id, c), k', x)
    ensures forall k', x :: TryGetComponent(RemoveComponentVia(s, e, k), k', x) == TryGetComponent(RemoveComponent(s, k, e.id), k', x)
  {
  }

  /** An unbound handle sees nothing and changes nothing. */
  lemma UnboundIsInert(s: Scene, e: Entity, k: Kind)
    requires !e.bound
    ensures !HasComponentVia(s, e, k) && TryGetComponentVia(s, e, k) == None
    ensures RemoveComponentVia(s, e, k) == s
  {
  }

  /** Removing what was just added leaves the entity without that kind, and the
      rest of the store as before. */
  lemma AddThenRemove(s: Scene, e: Entity, c: Component)
    requires e.bound
    ensures var r := RemoveComponentVia(AddComponentVia(s, e, c), e, KindOf(c));
      !HasComponentVia(r, e, KindOf(c)) &&
      forall k, x | k != KindOf(c) || x != e.id :: TryGetComponent(r, k, x) == TryGetComponent(s, k, x)
  {
  }
}
