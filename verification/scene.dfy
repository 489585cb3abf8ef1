/** The scene: entity ids handed out by a counter, a type-erased component store
    (one table per component kind), the creation-order list and live set, the
    parent/child links held in Node components, and the ordered system list
    (include/Melkam/scene/Scene.hpp, src/Melkam/scene/Scene.cpp). Every mutating
    operation of the source becomes a function returning the new scene. */
module SceneStore {
  import opened Wrappers
  import opened Components
  import opened Seqs
  import H = Hierarchy

  /** A registered system. Its behaviour is code the model cannot see; the model
      records the calls the scheduler makes to it. */
  type SystemId = nat

  /** The builder callback installed with `setBuilder`, identified by a label. */
  type BuilderId = nat

  type Table = map<EntityId, Component>

  datatype Scene = Scene(
    name: string,
    nextId: nat,
    order: seq<EntityId>,
    live: set<EntityId>,
    tables: map<Kind, Table>,
    systems: seq<SystemId>,
    builder: Option<BuilderId>)

  function NewScene(name: string): Scene {
    Scene(name, InvalidEntity, [], {}, map[], [], None)
  }

  /** Each table holds only values of its own kind. */
  ghost predicate WellTyped(s: Scene) {
    forall k, id | k in s.tables && id in s.tables[k] :: KindOf(s.tables[k][id]) == k
  }

  /** The bookkeeping invariant: creation order and live set list the same ids,
      each once, all of them issued by the counter (so never 0). */
  ghost predicate Valid(s: Scene) {
    && (forall x :: x in s.order <==> x in s.live)
    && NoDup(s.order)
    && (forall x | x in s.live :: 0 < x <= s.nextId)
    && WellTyped(s)
  }

  predicate IsValid(s: Scene, id: EntityId) {
    id in s.live
  }

  /** Id 0 is never live. */
  lemma ZeroNeverLive(s: Scene)
    requires Valid(s)
    ensures !IsValid(s, InvalidEntity)
  {
  }

  // ---------------------------------------------------------------------
  // Type-indexed storage (Scene.hpp:66-117, 143-171)

  predicate HasComponent(s: Scene, k: Kind, id: EntityId) {
    k in s.tables && id in s.tables[k]
  }

  /** The stored value, or None when the kind's table was never created or has
      no entry for the id; nothing is fabricated. */
  function TryGetComponent(s: Scene, k: Kind, id: EntityId): (r: Option<Component>)
    ensures r.Some? <==> HasComponent(s, k, id)
    ensures WellTyped(s) && r.Some? ==> KindOf(r.value) == k
  {
    if HasComponent(s, k, id) then Some(s.tables[k][id]) else None
  }

  /** Insert, or overwrite the value of the same (kind, id); the kind's table is
      created on first use. Liveness is not checked. */
  function AddComponent(s: Scene, id: EntityId, c: Component): (r: Scene)
    ensures TryGetComponent(r, KindOf(c), id) == Some(c)
    ensures forall k, x | k != KindOf(c) || x != id ::
      TryGetComponent(r, k, x) == TryGetComponent(s, k, x)
    ensures r.order == s.order && r.live == s.live && r.nextId == s.nextId
    ensures r.systems == s.systems && r.builder == s.builder && r.name == s.name
    ensures WellTyped(s) ==> WellTyped(r)
  {
    var k := KindOf(c);
    var t := if k in s.tables then s.tables[k] else map[];
    s.(tables := s.tables[k := t[id := c]])
  }

  /** Erase only (kind, id); a no-op when it is absent. */
  function RemoveComponent(s: Scene, k: Kind, id: EntityId): (r: Scene)
    ensures !HasComponent(r, k, id)
    ensures forall k', x | k' != k || x != id ::
      TryGetComponent(r, k', x) == TryGetComponent(s, k', x)
    ensures !HasComponent(s, k, id) ==> r == s
    ensures r.order == s.order && r.live == s.live && r.nextId == s.nextId
    ensures r.systems == s.systems && r.builder == s.builder
    ensures WellTyped(s) ==> WellTyped(r)
  {
    if HasComponent(s, k, id) then s.(tables := s.tables[k := s.tables[k] - {id}]) else s
  }

  // Typed accessors: the value when a component of that type is stored.

  function GetName(s: Scene, id: EntityId): Option<string> {
    match TryGetComponent(s, NameKind, id)
    case Some(NameC(v)) => Some(v)
    case _ => None
  }

  function GetTransform(s: Scene, id: EntityId): Option<Transform> {
    match TryGetComponent(s, TransformKind, id)
    case Some(TransformC(v)) => Some(v)
    case _ => None
  }

  function GetCollider(s: Scene, id: EntityId): Option<Collider> {
    match TryGetComponent(s, ColliderKind, id)
    case Some(ColliderC(v)) => Some(v)
    case _ => None
  }

  function GetLayer(s: Scene, id: EntityId): Option<CollisionLayer> {
    match TryGetComponent(s, LayerKind, id)
    case Some(LayerC(v)) => Some(v)
    case _ => None
  }

  function GetBox2D(s: Scene, id: EntityId): Option<BoxShape2D> {
    match TryGetComponent(s, Box2DKind, id)
    case Some(Box2DC(v)) => Some(v)
    case _ => None
  }

  function GetCircle2D(s: Scene, id: EntityId): Option<CircleShape2D> {
    match TryGetComponent(s, Circle2DKind, id)
    case Some(Circle2DC(v)) => Some(v)
    case _ => None
  }

  function GetBox3D(s: Scene, id: EntityId): Option<BoxShape3D> {
    match TryGetComponent(s, Box3DKind, id)
    case Some(Box3DC(v)) => Some(v)
    case _ => None
  }

  function GetSphere3D(s: Scene, id: EntityId): Option<SphereShape3D> {
    match TryGetComponent(s, Sphere3DKind, id)
    case Some(Sphere3DC(v)) => Some(v)
    case _ => None
  }

  function GetVelocity2D(s: Scene, id: EntityId): Option<Velocity2D> {
    match TryGetComponent(s, Velocity2DKind, id)
    case Some(Velocity2DC(v)) => Some(v)
    case _ => None
  }

  function GetVelocity3D(s: Scene, id: EntityId): Option<Velocity3D> {
    match TryGetComponent(s, Velocity3DKind, id)
    case Some(Velocity3DC(v)) => Some(v)
    case _ => None
  }

  function GetController2D(s: Scene, id: EntityId): Option<CharacterController2D> {
    match TryGetComponent(s, Controller2DKind, id)
    case Some(Controller2DC(v)) => Some(v)
    case _ => None
  }

  function GetInput2D(s: Scene, id: EntityId): Option<Input2D> {
    match TryGetComponent(s, Input2DKind, id)
    case Some(Input2DC(v)) => Some(v)
    case _ => None
  }

  function GetCanvasLayer(s: Scene, id: EntityId): Option<CanvasLayer> {
    match TryGetComponent(s, CanvasLayerKind, id)
    case Some(CanvasLayerC(v)) => Some(v)
    case _ => None
  }

  function GetControl(s: Scene, id: EntityId): Option<Control> {
    match TryGetComponent(s, ControlKind, id)
    case Some(ControlC(v)) => Some(v)
    case _ => None
  }

  function GetVBox(s: Scene, id: EntityId): Option<BoxContainer> {
    match TryGetComponent(s, VBoxKind, id)
    case Some(VBoxC(v)) => Some(v)
    case _ => None
  }

  function GetHBox(s: Scene, id: EntityId): Option<BoxContainer> {
    match TryGetComponent(s, HBoxKind, id)
    case Some(HBoxC(v)) => Some(v)
    case _ => None
  }

  function GetScroll(s: Scene, id: EntityId): Option<ScrollContainer> {
    match TryGetComponent(s, ScrollKind, id)
    case Some(ScrollC(v)) => Some(v)
    case _ => None
  }

  function GetStyle(s: Scene, id: EntityId): Option<UiStyle> {
    match TryGetComponent(s, StyleKind, id)
    case Some(StyleC(v)) => Some(v)
    case _ => None
  }

  function GetTabBar(s: Scene, id: EntityId): Option<TabBar> {
    match TryGetComponent(s, TabBarKind, id)
    case Some(TabBarC(v)) => Some(v)
    case _ => None
  }

  // ---------------------------------------------------------------------
  // The Node table seen as a link map

  function NodeTable(s: Scene): Table {
    if NodeKind in s.tables then s.tables[NodeKind] else map[]
  }

  function Nodes(s: Scene): H.Nodes {
    map id | id in NodeTable(s) && NodeTable(s)[id].NodeC? :: NodeTable(s)[id].node
  }

  function GetNode(s: Scene, id: EntityId): (r: Option<Node>)
    ensures r.Some? ==> HasComponent(s, NodeKind, id)
  {
    if id in Nodes(s) then Some(Nodes(s)[id]) else None
  }

  function SetNode(s: Scene, id: EntityId, n: Node): Scene {
    AddComponent(s, id, NodeC(n))
  }

  lemma NodesAfterSetNode(s: Scene, id: EntityId, n: Node)
    ensures Nodes(SetNode(s, id, n)) == Nodes(s)[id := n]
  {
    var s' := SetNode(s, id, n);
    assert NodeTable(s') == NodeTable(s)[id := NodeC(n)];
  }

  /** Tables other than the Node table do not affect the link map. */
  lemma NodesFramed(s: Scene, s': Scene)
    requires NodeTable(s) == NodeTable(s')
    ensures Nodes(s) == Nodes(s')
  {
  }

  /** The part of a scene that a write to the Node table leaves alone. */
  ghost predicate SameButNodes(s: Scene, r: Scene) {
    && (forall k, x | k != NodeKind :: TryGetComponent(r, k, x) == TryGetComponent(s, k, x))
    && r.order == s.order && r.live == s.live && r.nextId == s.nextId
    && r.systems == s.systems && r.builder == s.builder && r.name == s.name
    && (WellTyped(s) ==> WellTyped(r))
  }

  function DetachIn(s: Scene, q: EntityId, c: EntityId): (r: Scene)
    ensures SameButNodes(s, r)
  {
    match GetNode(s, q)
    case Some(qn) => SetNode(s, q, qn.(children := RemoveAll(qn.children, c)))
    case None => s
  }

  function WithParentIn(s: Scene, c: EntityId, p: EntityId): (r: Scene)
    ensures SameButNodes(s, r)
  {
    match GetNode(s, c)
    case Some(cn) => SetNode(s, c, cn.(parent := p))
    case None => s
  }

  function AttachIn(s: Scene, p: EntityId, c: EntityId): (r: Scene)
    ensures SameButNodes(s, r)
  {
    match GetNode(s, p)
    case Some(pn) => SetNode(s, p, pn.(children := pn.children + [c]))
    case None => s
  }

  function ClearParentsIn(s: Scene, kids: seq<EntityId>): (r: Scene)
    ensures SameButNodes(s, r)
    decreases |kids|
  {
    if kids == [] then s else ClearParentsIn(WithParentIn(s, kids[0], InvalidEntity), kids[1..])
  }

  /** Each single-node write above does to the link map what the matching
      `Hierarchy` rewiring says, and touches nothing else. */
  lemma NodeWrites(s: Scene, a: EntityId, b: EntityId)
    ensures Nodes(DetachIn(s, a, b)) == H.Detach(Nodes(s), a, b)
    ensures Nodes(WithParentIn(s, a, b)) == H.WithParent(Nodes(s), a, b)
    ensures Nodes(AttachIn(s, a, b)) == H.Attach(Nodes(s), a, b)
  {
    if a in Nodes(s) {
      NodesAfterSetNode(s, a, Nodes(s)[a].(children := RemoveAll(Nodes(s)[a].children, b)));
      NodesAfterSetNode(s, a, Nodes(s)[a].(parent := b));
      NodesAfterSetNode(s, a, Nodes(s)[a].(children := Nodes(s)[a].children + [b]));
    }
  }

  lemma {:induction false} ClearParentsInEffect(s: Scene, kids: seq<EntityId>)
    ensures Nodes(ClearParentsIn(s, kids)) == H.ClearParents(Nodes(s), kids)
    decreases |kids|
  {
    if kids != [] {
      NodeWrites(s, kids[0], InvalidEntity);
      ClearParentsInEffect(WithParentIn(s, kids[0], InvalidEntity), kids[1..]);
    }
  }

  // ---------------------------------------------------------------------
  // Entity lifecycle (Scene.cpp:18-76)

  /** Allocate the next id, append it to creation order, mark it live, and give
      it a Name, a default Node and a default Transform. */
  function CreateEntity(s: Scene, name: string := "Entity"): (r: (Scene, EntityId))
    ensures r.1 == s.nextId + 1 && r.0.nextId == r.1
    ensures Valid(s) ==> forall x | x in s.live :: x < r.1
    ensures r.0.order == s.order + [r.1] && r.0.live == s.live + {r.1}
    ensures GetName(r.0, r.1) == Some(name)
    ensures GetNode(r.0, r.1) == Some(DefaultNode)
    ensures Nodes(r.0) == Nodes(s)[r.1 := DefaultNode]
    ensures GetTransform(r.0, r.1) == Some(DefaultTransform)
    ensures forall k, x | x != r.1 || (k != NameKind && k != NodeKind && k != TransformKind) ::
      TryGetComponent(r.0, k, x) == TryGetComponent(s, k, x)
    ensures r.0.systems == s.systems && r.0.builder == s.builder
  {
    var id := s.nextId + 1;
    var s1 := s.(nextId := id, order := s.order + [id], live := s.live + {id});
    var s2 := AddComponent(s1, id, NameC(name));
    var s3 := AddComponent(s2, id, NodeC(DefaultNode));
    var s4 := AddComponent(s3, id, TransformC(DefaultTransform));
    assert Nodes(s4) == Nodes(s3) by { NodesFramed(s3, s4); }
    assert Nodes(s3) == Nodes(s2)[id := DefaultNode] by { NodesAfterSetNode(s2, id, DefaultNode); }
    assert Nodes(s2) == Nodes(s) by { NodesFramed(s, s1); NodesFramed(s1, s2); }
    (s4, id)
  }

  lemma CreateKeepsValid(s: Scene, name: string)
    requires Valid(s)
    ensures Valid(CreateEntity(s, name).0)
  {
    var (s', id) := CreateEntity(s, name);
    assert id !in s.order;
    forall i, j | 0 <= i < j < |s'.order| ensures s'.order[i] != s'.order[j] {
      if j == |s.order| { assert s'.order[i] == s.order[i]; assert s.order[i] in s.order; }
    }
    forall k, x | k in s'.tables && x in s'.tables[k] ensures KindOf(s'.tables[k][x]) == k {
      assert TryGetComponent(s', k, x).Some?;
    }
  }

  /** All Node entries belong to ids already issued. */
  ghost predicate NodesIssued(s: Scene) {
    forall x | x in Nodes(s) :: x <= s.nextId
  }

  /** A fresh entity is a root with no children, so it cannot break the links. */
  lemma CreateKeepsConsistent(s: Scene, name: string)
    requires H.Consistent(Nodes(s)) && NodesIssued(s)
    ensures H.Consistent(Nodes(CreateEntity(s, name).0))
    ensures NodesIssued(CreateEntity(s, name).0)
  {
    var (s', id) := CreateEntity(s, name);
    assert id !in Nodes(s);
    H.AddRootKeepsConsistent(Nodes(s), id);
  }

  /** The parent actually used by `SetParent`: a handle that is not live
      (id 0 included) stands for "no parent". */
  function EffectiveParent(s: Scene, parent: EntityId): (p: EntityId)
    ensures p == InvalidEntity || (p == parent && IsValid(s, parent))
    ensures Valid(s) ==> (p == InvalidEntity <==> !IsValid(s, parent))
  {
    if IsValid(s, parent) then parent else InvalidEntity
  }

  /** Make `child` a child of `parent`. A non-live child, or one without a Node,
      is left alone; a parent handle that is not live detaches the child to the
      root level instead of being rejected; a request for the current parent is
      a no-op. Otherwise the child leaves its old parent's list, takes the new
      parent and is appended to the end of its list. No cycle check is made. */
  function SetParent(s: Scene, child: EntityId, parent: EntityId): (r: Scene)
    ensures SameButNodes(s, r)
    ensures !IsValid(s, child) || child !in Nodes(s) ==> r == s
  {
    if !IsValid(s, child) then s
    else
      var p := EffectiveParent(s, parent);
      match GetNode(s, child)
      case None => s
      case Some(cn) =>
        if cn.parent == p then s
        else
          var s1 := if cn.parent != InvalidEntity then DetachIn(s, cn.parent, child) else s;
          var s2 := WithParentIn(s1, child, p);
          if p != InvalidEntity then AttachIn(s2, p, child) else s2
  }

  /** On the link map, `SetParent` is `Hierarchy.Reparent` with the effective
      parent. */
  lemma SetParentNodes(s: Scene, child: EntityId, parent: EntityId)
    requires IsValid(s, child) && child in Nodes(s)
    ensures Nodes(SetParent(s, child, parent)) == H.Reparent(Nodes(s), child, EffectiveParent(s, parent))
  {
    var p := EffectiveParent(s, parent);
    var cn := Nodes(s)[child];
    if cn.parent != p {
      var s1 := if cn.parent != InvalidEntity then DetachIn(s, cn.parent, child) else s;
      NodeWrites(s, cn.parent, child);
      var s2 := WithParentIn(s1, child, p);
      NodeWrites(s1, child, p);
      NodeWrites(s2, p, child);
    }
  }

  /** After `SetParent` the child's parent is the effective parent, and when that
      is an entity with a Node, the child sits at the end of its list and in no
      other list. */
  lemma SetParentLinks(s: Scene, child: EntityId, parent: EntityId)
    requires H.Consistent(Nodes(s))
    requires IsValid(s, child) && child in Nodes(s)
    requires IsValid(s, parent) ==> parent in Nodes(s) && parent != child
    ensures var n' := Nodes(SetParent(s, child, parent));
      && child in n' && n'[child].parent == EffectiveParent(s, parent)
      && (forall a | a in n' && a != EffectiveParent(s, parent) :: child !in n'[a].children)
      && (IsValid(s, parent) ==> child in n'[parent].children)
  {
    SetParentNodes(s, child, parent);
    var p := EffectiveParent(s, parent);
    var n := Nodes(s);
    H.ReparentShape(n, child, p);
    if p != InvalidEntity {
      H.ReparentLinksBothWays(n, child, p);
    } else if n[child].parent != p {
      H.ReparentKeepsPointBack(n, child, p);
    } else {
      forall a | a in n && a != p ensures child !in n[a].children { assert n[child].parent != a; }
    }
  }

  /** `SetParent` keeps the links consistent and, unless the new parent lies in
      the child's own subtree, keeps the forest acyclic. */
  lemma SetParentKeepsForest(s: Scene, child: EntityId, parent: EntityId, rank: map<EntityId, nat>)
    requires H.Consistent(Nodes(s)) && H.Ranked(Nodes(s), rank)
    requires IsValid(s, parent) ==> parent in Nodes(s) && !H.Under(Nodes(s), rank, parent, child)
    ensures H.Consistent(Nodes(SetParent(s, child, parent)))
    ensures H.Acyclic(Nodes(SetParent(s, child, parent)))
  {
    if IsValid(s, child) && child in Nodes(s) {
      SetParentNodes(s, child, parent);
      var n := Nodes(s);
      var p := EffectiveParent(s, parent);
      H.ReparentKeepsConsistent(n, child, p);
      H.ReparentKeepsRanked(n, rank, child, p);
    }
  }

  /** Asking twice is asking once. */
  lemma SetParentIdempotent(s: Scene, child: EntityId, parent: EntityId)
    requires H.Consistent(Nodes(s))
    requires IsValid(s, parent) ==> parent in Nodes(s) && parent != child
    ensures SetParent(SetParent(s, child, parent), child, parent) == SetParent(s, child, parent)
  {
    if IsValid(s, child) && child in Nodes(s) {
      SetParentLinks(s, child, parent);
      var r := SetParent(s, child, parent);
      assert EffectiveParent(r, parent) == EffectiveParent(s, parent);
      assert GetNode(r, child).value.parent == EffectiveParent(r, parent);
    }
  }

  /** `createChild`: a new entity, attached under `parent` when that is live
      and left a root otherwise. */
  function CreateChild(s: Scene, parent: EntityId, name: string := "Entity"): (r: (Scene, EntityId))
    ensures r.1 == CreateEntity(s, name).1
    ensures IsValid(r.0, r.1) && GetNode(r.0, r.1).Some? && GetName(r.0, r.1) == Some(name)
    ensures IsValid(s, parent) ==> GetNode(r.0, r.1).value.parent == parent
    ensures !IsValid(s, parent) && parent != r.1 ==> GetNode(r.0, r.1).value.parent == InvalidEntity
  {
    var (s1, c) := CreateEntity(s, name);
    SetParentNodes(s1, c, parent);
    H.ReparentShape(Nodes(s1), c, EffectiveParent(s1, parent));
    (SetParent(s1, c, parent), c)
  }

  /** Erase the id from every table that exists; the tables stay. */
  function EraseEverywhere(s: Scene, id: EntityId): (r: Scene)
    ensures forall k :: !HasComponent(r, k, id)
    ensures forall k, x | x != id :: TryGetComponent(r, k, x) == TryGetComponent(s, k, x)
    ensures r.order == s.order && r.live == s.live && r.nextId == s.nextId
    ensures r.systems == s.systems && r.builder == s.builder
    ensures WellTyped(s) ==> WellTyped(r)
  {
    s.(tables := map k | k in s.tables :: s.tables[k] - {id})
  }

  /** The link surgery of destruction: detach from the parent, then clear the
      parent of every child listed in the (already updated) node. */
  function UnlinkIn(s: Scene, id: EntityId): (r: Scene)
    ensures SameButNodes(s, r)
  {
    match GetNode(s, id)
    case None => s
    case Some(n) =>
      var sa := if n.parent != InvalidEntity then DetachIn(s, n.parent, id) else s;
      var kids := match GetNode(sa, id) case Some(m) => m.children case None => [];
      ClearParentsIn(sa, kids)
  }

  /** No-op on a non-live id; otherwise unlink it from its parent, make its
      children roots, erase it from every table, the live set and the creation
      order. */
  function DestroyEntity(s: Scene, id: EntityId): (r: Scene)
    ensures !IsValid(s, id) ==> r == s
    ensures !IsValid(r, id) && r.live == s.live - {id}
    ensures IsValid(s, id) ==> r.order == RemoveAll(s.order, id) && id !in r.order
    ensures IsValid(s, id) ==> forall k :: !HasComponent(r, k, id)
    ensures WellTyped(s) ==> WellTyped(r)
    ensures r.nextId == s.nextId && r.systems == s.systems && r.builder == s.builder
    ensures forall k, x | x != id && k != NodeKind ::
      TryGetComponent(r, k, x) == TryGetComponent(s, k, x)
  {
    if !IsValid(s, id) then s
    else
      var s1 := UnlinkIn(s, id);
      var s2 := EraseEverywhere(s1, id);
      s2.(live := s2.live - {id}, order := RemoveAll(s2.order, id))
  }

  /** Destroying twice is destroying once. */
  lemma DestroyIdempotent(s: Scene, id: EntityId)
    ensures DestroyEntity(DestroyEntity(s, id), id) == DestroyEntity(s, id)
  {
  }

  lemma DestroyKeepsValid(s: Scene, id: EntityId)
    requires Valid(s)
    ensures Valid(DestroyEntity(s, id))
  {
    if IsValid(s, id) {
      RemoveAllKeepsNoDup(s.order, id);
    }
  }

  /** On the link map, destruction is `Hierarchy.DestroyLinks`. */
  lemma DestroyNodes(s: Scene, id: EntityId)
    requires IsValid(s, id) && id in Nodes(s)
    ensures Nodes(DestroyEntity(s, id)) == H.DestroyLinks(Nodes(s), id)
  {
    var s1 := UnlinkIn(s, id);
    UnlinkNodes(s, id);
    EraseNodes(s1, id);
    assert NodeTable(DestroyEntity(s, id)) == NodeTable(EraseEverywhere(s1, id));
  }

  lemma UnlinkNodes(s: Scene, id: EntityId)
    requires id in Nodes(s)
    ensures Nodes(UnlinkIn(s, id)) == H.Unlink(Nodes(s), id)
  {
    var n := Nodes(s)[id];
    var sa := if n.parent != InvalidEntity then DetachIn(s, n.parent, id) else s;
    NodeWrites(s, n.parent, id);
    var kids := match GetNode(sa, id) case Some(m) => m.children case None => [];
    ClearParentsInEffect(sa, kids);
  }

  lemma EraseNodes(s: Scene, id: EntityId)
    ensures Nodes(EraseEverywhere(s, id)) == Nodes(s) - {id}
  {
    assert NodeTable(EraseEverywhere(s, id)) == NodeTable(s) - {id};
  }

  // ---------------------------------------------------------------------
  // Queries (Scene.hpp:52-64, Scene.cpp:126-138)

  predicate HoldsAll(s: Scene, id: EntityId, kinds: set<Kind>) {
    forall k | k in kinds :: HasComponent(s, k, id)
  }

  /** The entities, in creation order, holding every kind asked for. */
  function View(s: Scene, kinds: set<Kind>): (r: seq<EntityId>)
    ensures forall x :: x in r <==> x in s.order && HoldsAll(s, x, kinds)
    ensures IsSubsequence(r, s.order)
  {
    Filter(s.order, x => HoldsAll(s, x, kinds))
  }

  /** A view lists each entity once, and only live ones. */
  lemma ViewDistinctLive(s: Scene, kinds: set<Kind>)
    requires Valid(s)
    ensures NoDup(View(s, kinds))
    ensures forall x | x in View(s, kinds) :: IsValid(s, x)
  {
    SubsequenceKeepsNoDup(View(s, kinds), s.order);
  }

  /** Components attached to an id that is not (or no longer) live never show
      up in a view. */
  lemma ViewSkipsDead(s: Scene, kinds: set<Kind>, x: EntityId)
    requires Valid(s) && !IsValid(s, x)
    ensures x !in View(s, kinds)
  {
  }

  predicate IsRoot(s: Scene, id: EntityId) {
    GetNode(s, id).Some? && GetNode(s, id).value.parent == InvalidEntity
  }

  /** Entities in creation order whose Node has no parent. */
  function RootEntities(s: Scene): (r: seq<EntityId>)
    ensures forall x :: x in r <==> x in s.order && IsRoot(s, x)
    ensures IsSubsequence(r, s.order)
  {
    Filter(s.order, x => IsRoot(s, x))
  }

  // ---------------------------------------------------------------------
  // Depth-first traversal and the update schedule (Scene.cpp:140-172, 219-250)

  /** One callback of a traversal: `Pre` before the children, `Post` after. */
  datatype Visit = Pre(id: EntityId) | Post(id: EntityId)

  function ChildrenOf(s: Scene, id: EntityId): seq<EntityId> {
    match GetNode(s, id)
    case Some(n) => n.children
    case None => []
  }

  /** Visit one entity: nothing when it is not live, else `Pre`, the walk of
      each live child in child-list order, then `Post`. The source recurses
      without bound; `fuel` caps the depth. The exact shape, children in
      list order, is `WalkUnfolds`. */
  function Walk(s: Scene, id: EntityId, fuel: nat): (t: seq<Visit>)
    ensures forall v | v in t :: IsValid(s, v.id)
    ensures !IsValid(s, id) || fuel == 0 ==> t == []
    ensures IsValid(s, id) && fuel > 0 ==> |t| >= 2 && t[0] == Pre(id) && t[|t| - 1] == Post(id)
    ensures IsValid(s, id) && fuel > 1 ==> forall c | c in ChildrenOf(s, id) && IsValid(s, c) :: Pre(c) in t
    decreases fuel, 0
  {
    if !IsValid(s, id) || fuel == 0 then []
    else [Pre(id)] + WalkEach(s, ChildrenOf(s, id), fuel - 1) + [Post(id)]
  }

  /** The loop over a child list: the walks of its live ids one after the
      other, in list order (`WalkEachIsFlatten`, `WalkEachOrder`). */
  function WalkEach(s: Scene, ids: seq<EntityId>, fuel: nat): (t: seq<Visit>)
    ensures forall v | v in t :: IsValid(s, v.id)
    ensures ids == [] ==> t == []
    ensures fuel > 0 ==> forall c | c in ids && IsValid(s, c) :: Pre(c) in t
    decreases fuel, 1, |ids|
  {
    if ids == [] then []
    else (if IsValid(s, ids[0]) then Walk(s, ids[0], fuel) else []) + WalkEach(s, ids[1..], fuel)
  }

  /** Walk every root in creation order. */
  function Traverse(s: Scene, fuel: nat): (t: seq<Visit>)
    ensures forall v | v in t :: IsValid(s, v.id)
    ensures fuel > 0 ==> forall r | r in s.order && IsRoot(s, r) && IsValid(s, r) :: Pre(r) in t
  {
    WalkEach(s, RootEntities(s), fuel)
  }

  /** The walk of each id of a list, in list order; an id that is not live
      contributes nothing. */
  function Subwalks(s: Scene, ids: seq<EntityId>, fuel: nat): seq<seq<Visit>> {
    seq(|ids|, i requires 0 <= i < |ids| => if IsValid(s, ids[i]) then Walk(s, ids[i], fuel) else [])
  }

  /** A list's walk is the walks of its live ids laid end to end, in list
      order. */
  lemma {:induction false} WalkEachIsFlatten(s: Scene, ids: seq<EntityId>, fuel: nat)
    ensures WalkEach(s, ids, fuel) == Flatten(Subwalks(s, ids, fuel))
    decreases |ids|
  {
    if ids != [] {
      var head := if IsValid(s, ids[0]) then Walk(s, ids[0], fuel) else [];
      assert Subwalks(s, ids, fuel) == [head] + Subwalks(s, ids[1..], fuel);
      FlattenCons(head, Subwalks(s, ids[1..], fuel));
      WalkEachIsFlatten(s, ids[1..], fuel);
    }
  }

  /** A live entity's walk: `Pre`, then the walk of each live child in
      child-list order, then `Post`. */
  lemma WalkUnfolds(s: Scene, id: EntityId, fuel: nat)
    requires IsValid(s, id) && fuel > 0
    ensures Walk(s, id, fuel) == [Pre(id)] + Flatten(Subwalks(s, ChildrenOf(s, id), fuel - 1)) + [Post(id)]
  {
    WalkEachIsFlatten(s, ChildrenOf(s, id), fuel - 1);
  }

  /** The traversal walks the roots in creation order, one after the other. */
  lemma TraverseRootsInOrder(s: Scene, fuel: nat)
    ensures Traverse(s, fuel) == Flatten(Subwalks(s, RootEntities(s), fuel))
  {
    WalkEachIsFlatten(s, RootEntities(s), fuel);
  }

  /** Walking a list split in two is walking the halves one after the other. */
  lemma {:induction false} WalkEachAppend(s: Scene, a: seq<EntityId>, b: seq<EntityId>, fuel: nat)
    ensures WalkEach(s, a + b, fuel) == WalkEach(s, a, fuel) + WalkEach(s, b, fuel)
    decreases |a|
  {
    if a == [] {
      assert a + b == b;
    } else {
      assert (a + b)[0] == a[0] && (a + b)[1..] == a[1..] + b;
      WalkEachAppend(s, a[1..], b, fuel);
    }
  }

  /** Each id of a list is walked in its place: after all that the ids
      before it produce, and before all that the ids after it produce. */
  lemma WalkEachOrder(s: Scene, ids: seq<EntityId>, j: nat, fuel: nat)
    requires j < |ids|
    ensures WalkEach(s, ids, fuel) ==
      WalkEach(s, ids[..j], fuel) + (if IsValid(s, ids[j]) then Walk(s, ids[j], fuel) else []) + WalkEach(s, ids[j + 1..], fuel)
  {
    var rest := [ids[j]] + ids[j + 1..];
    assert ids == ids[..j] + rest;
    WalkEachAppend(s, ids[..j], rest, fuel);
    assert rest[0] == ids[j] && rest[1..] == ids[j + 1..];
  }

  /** Whatever the walk of a live id of the list holds, the walk of the list
      holds too. */
  lemma WalkInWalkEach(s: Scene, ids: seq<EntityId>, j: nat, fuel: nat)
    requires j < |ids| && IsValid(s, ids[j])
    ensures forall v | v in Walk(s, ids[j], fuel) :: v in WalkEach(s, ids, fuel)
  {
    WalkEachOrder(s, ids, j, fuel);
  }

  /** Every visit of a list's walk comes from the walk of one live id of it. */
  lemma {:induction false} FromWalkEach(s: Scene, ids: seq<EntityId>, fuel: nat, v: Visit) returns (j: nat)
    requires v in WalkEach(s, ids, fuel)
    ensures j < |ids| && IsValid(s, ids[j]) && v in Walk(s, ids[j], fuel)
    decreases |ids|
  {
    if IsValid(s, ids[0]) && v in Walk(s, ids[0], fuel) {
      j := 0;
    } else {
      var k := FromWalkEach(s, ids[1..], fuel, v);
      assert ids[1..][k] == ids[k + 1];
      j := k + 1;
    }
  }

  /** The children a walk descends into: live, with a Node naming the walked
      entity as parent. */
  lemma ChildVisit(s: Scene, a: EntityId, fuel: nat, v: Visit) returns (c: EntityId)
    requires H.Consistent(Nodes(s))
    requires v in Walk(s, a, fuel) && v != Pre(a) && v != Post(a)
    ensures fuel > 0 && a in Nodes(s) && c in Nodes(s) && Nodes(s)[c].parent == a
    ensures c in Nodes(s)[a].children && IsValid(s, c) && v in Walk(s, c, fuel - 1)
  {
    var kids := ChildrenOf(s, a);
    var inner := WalkEach(s, kids, fuel - 1);
    assert Walk(s, a, fuel) == [Pre(a)] + inner + [Post(a)];
    assert v in inner;
    var j := FromWalkEach(s, kids, fuel - 1, v);
    c := kids[j];
    assert GetNode(s, a).Some?;
  }

  // Which entities a traversal enters, and how often (Scene.cpp:164-172, 220-250)

  /** `x` lies at or below `a`, and every entity on the parent chain from `x`
      up to `a` is live. */
  ghost predicate LivePath(s: Scene, rank: map<EntityId, nat>, x: EntityId, a: EntityId)
    requires H.Ranked(Nodes(s), rank) && x in Nodes(s)
    decreases rank[x]
  {
    IsValid(s, x) && (x == a || (H.HasParentIn(Nodes(s), x) && LivePath(s, rank, Nodes(s)[x].parent, a)))
  }

  /** `x` is live with a Node, and so is every entity on its parent chain,
      up to a root. */
  ghost predicate LiveFromRoot(s: Scene, rank: map<EntityId, nat>, x: EntityId)
    requires H.Ranked(Nodes(s), rank)
    decreases if x in Nodes(s) then rank[x] + 1 else 0
  {
    x in Nodes(s) && IsValid(s, x) &&
    (Nodes(s)[x].parent == InvalidEntity || (H.HasParentIn(Nodes(s), x) && LiveFromRoot(s, rank, Nodes(s)[x].parent)))
  }

  /** Each entity is entered at most once. */
  ghost predicate PreOnce(t: seq<Visit>) {
    forall i, j | 0 <= i < j < |t| && t[i].Pre? :: t[i] != t[j]
  }

  lemma {:induction false} LivePathTop(s: Scene, rank: map<EntityId, nat>, x: EntityId, a: EntityId)
    requires H.Ranked(Nodes(s), rank) && x in Nodes(s) && LivePath(s, rank, x, a)
    ensures a in Nodes(s) && IsValid(s, a) && rank[a] <= rank[x]
    decreases rank[x]
  {
    if x != a {
      LivePathTop(s, rank, Nodes(s)[x].parent, a);
    }
  }

  /** The child of `a` on the way down to `x`. */
  lemma {:induction false} ChildToward(s: Scene, rank: map<EntityId, nat>, x: EntityId, a: EntityId) returns (c: EntityId)
    requires H.Ranked(Nodes(s), rank) && x in Nodes(s) && LivePath(s, rank, x, a) && x != a
    ensures c in Nodes(s) && H.HasParentIn(Nodes(s), c) && Nodes(s)[c].parent == a
    ensures LivePath(s, rank, x, c) && IsValid(s, c)
    decreases rank[x]
  {
    var p := Nodes(s)[x].parent;
    if p == a {
      c := x;
    } else {
      c := ChildToward(s, rank, p, a);
    }
  }

  /** With fuel to spare, the walk from `a` enters every entity below it
      whose chain up to `a` is live. */
  lemma {:induction false} WalkReaches(s: Scene, rank: map<EntityId, nat>, a: EntityId, x: EntityId, fuel: nat)
    requires H.Consistent(Nodes(s)) && H.Ranked(Nodes(s), rank)
    requires a in Nodes(s) && x in Nodes(s) && LivePath(s, rank, x, a)
    requires fuel + rank[a] > rank[x]
    ensures Pre(x) in Walk(s, a, fuel)
    decreases fuel
  {
    LivePathTop(s, rank, x, a);
    assert GetNode(s, a) == Some(Nodes(s)[a]);
    if x != a {
      var c := ChildToward(s, rank, x, a);
      var kids := ChildrenOf(s, a);
      assert c in kids;
      var j :| 0 <= j < |kids| && kids[j] == c;
      WalkReaches(s, rank, c, x, fuel - 1);
      WalkInWalkEach(s, kids, j, fuel - 1);
    }
  }

  /** Every entity a walk enters hangs below the walked one. */
  lemma {:induction false} WalkStaysBelow(s: Scene, rank: map<EntityId, nat>, a: EntityId, fuel: nat, x: EntityId)
    requires H.Consistent(Nodes(s)) && H.Ranked(Nodes(s), rank)
    requires a in Nodes(s) && Pre(x) in Walk(s, a, fuel)
    ensures x in Nodes(s) && H.Under(Nodes(s), rank, x, a) && rank[a] <= rank[x]
    ensures x != a ==> rank[a] < rank[x]
    decreases fuel
  {
    if x != a {
      var c := ChildVisit(s, a, fuel, Pre(x));
      WalkStaysBelow(s, rank, c, fuel - 1, x);
      UnderStep(Nodes(s), rank, x, c, a);
    }
  }

  lemma {:induction false} UnderStep(n: H.Nodes, rank: map<EntityId, nat>, x: EntityId, c: EntityId, a: EntityId)
    requires H.Ranked(n, rank) && x in n && H.Under(n, rank, x, c)
    requires H.HasParentIn(n, c) && n[c].parent == a
    ensures H.Under(n, rank, x, a)
    decreases rank[x]
  {
    if x != c {
      UnderStep(n, rank, n[x].parent, c, a);
    }
  }

  /** Following parents, whatever lies below `x` is ordered: of two entities
      above it, one is above the other. */
  lemma {:induction false} UnderChain(n: H.Nodes, rank: map<EntityId, nat>, x: EntityId, c1: EntityId, c2: EntityId)
    requires H.Ranked(n, rank) && x in n && H.Under(n, rank, x, c1) && H.Under(n, rank, x, c2)
    ensures c1 in n && c2 in n
    ensures H.Under(n, rank, c1, c2) || H.Under(n, rank, c2, c1)
    decreases rank[x]
  {
    if x != c1 && x != c2 {
      UnderChain(n, rank, n[x].parent, c1, c2);
    } else if x == c1 && x != c2 {
      UnderRank(n, rank, x, c2);
    } else if x == c2 && x != c1 {
      UnderRank(n, rank, x, c1);
    }
  }

  lemma {:induction false} UnderRank(n: H.Nodes, rank: map<EntityId, nat>, x: EntityId, c: EntityId)
    requires H.Ranked(n, rank) && x in n && H.Under(n, rank, x, c)
    ensures c in n && rank[c] <= rank[x]
    ensures x != c ==> rank[c] < rank[x]
    decreases rank[x]
  {
    if x != c {
      UnderRank(n, rank, n[x].parent, c);
    }
  }

  /** Two entities with the same parent field have nothing below them in
      common, unless they are the same entity. */
  lemma SiblingsDisjoint(n: H.Nodes, rank: map<EntityId, nat>, c1: EntityId, c2: EntityId, x: EntityId)
    requires H.Ranked(n, rank) && c1 in n && c2 in n && n[c1].parent == n[c2].parent
    requires x in n && H.Under(n, rank, x, c1) && H.Under(n, rank, x, c2)
    ensures c1 == c2
  {
    UnderChain(n, rank, x, c1, c2);
    if c1 != c2 {
      if H.Under(n, rank, c1, c2) {
        UnderRank(n, rank, n[c1].parent, c2);
      } else {
        UnderRank(n, rank, n[c2].parent, c1);
      }
    }
  }

  lemma PreOnceAppend(a: seq<Visit>, b: seq<Visit>)
    requires PreOnce(a) && PreOnce(b)
    requires forall x | Pre(x) in a :: Pre(x) !in b
    ensures PreOnce(a + b)
  {
    var t := a + b;
    forall i, j | 0 <= i < j < |t| && t[i].Pre? ensures t[i] != t[j] {
      if j < |a| {
        assert t[i] == a[i] && t[j] == a[j];
      } else if |a| <= i {
        assert t[i] == b[i - |a|] && t[j] == b[j - |a|];
      } else {
        assert t[i] == a[i] && t[j] == b[j - |a|];
        assert Pre(t[i].id) in a;
      }
    }
  }

  lemma {:induction false} WalkOnce(s: Scene, rank: map<EntityId, nat>, a: EntityId, fuel: nat)
    requires H.Consistent(Nodes(s)) && H.Ranked(Nodes(s), rank) && a in Nodes(s)
    ensures PreOnce(Walk(s, a, fuel))
    decreases fuel, 0
  {
    if IsValid(s, a) && fuel > 0 {
      var n := Nodes(s);
      var kids := ChildrenOf(s, a);
      assert GetNode(s, a) == Some(n[a]);
      var inner := WalkEach(s, kids, fuel - 1);
      WalkEachOnce(s, rank, kids, fuel - 1, a);
      forall x | Pre(x) in [Pre(a)] ensures Pre(x) !in inner {
        if Pre(x) in inner {
          var j := FromWalkEach(s, kids, fuel - 1, Pre(x));
          var c := kids[j];
          assert H.HasParentIn(n, c) && n[c].parent == a;
          WalkStaysBelow(s, rank, c, fuel - 1, x);
        }
      }
      PreOnceAppend([Pre(a)], inner);
      PreOnceAppend([Pre(a)] + inner, [Post(a)]);
    }
  }

  lemma {:induction false} WalkEachOnce(s: Scene, rank: map<EntityId, nat>, ids: seq<EntityId>, fuel: nat, p: EntityId)
    requires H.Consistent(Nodes(s)) && H.Ranked(Nodes(s), rank) && NoDup(ids)
    requires forall c | c in ids :: c in Nodes(s) && Nodes(s)[c].parent == p
    ensures PreOnce(WalkEach(s, ids, fuel))
    decreases fuel, 1, |ids|
  {
    if ids != [] {
      var c := ids[0];
      var head := if IsValid(s, c) then Walk(s, c, fuel) else [];
      var tail := WalkEach(s, ids[1..], fuel);
      WalkOnce(s, rank, c, fuel);
      assert NoDup(ids[1..]) by {
        forall i, j | 0 <= i < j < |ids[1..]| ensures ids[1..][i] != ids[1..][j] {
          assert ids[1..][i] == ids[i + 1] && ids[1..][j] == ids[j + 1];
        }
      }
      WalkEachOnce(s, rank, ids[1..], fuel, p);
      forall x | Pre(x) in head ensures Pre(x) !in tail {
        if Pre(x) in tail {
          WalkStaysBelow(s, rank, c, fuel, x);
          var k := FromWalkEach(s, ids[1..], fuel, Pre(x));
          var d := ids[1..][k];
          assert d == ids[k + 1] && d in ids;
          WalkStaysBelow(s, rank, d, fuel, x);
          SiblingsDisjoint(Nodes(s), rank, c, d, x);
        }
      }
      PreOnceAppend(head, tail);
    }
  }

  /** The top of a live chain is a live root. */
  lemma {:induction false} RootAbove(s: Scene, rank: map<EntityId, nat>, x: EntityId) returns (r: EntityId)
    requires H.Ranked(Nodes(s), rank) && LiveFromRoot(s, rank, x)
    ensures r in Nodes(s) && IsValid(s, r) && Nodes(s)[r].parent == InvalidEntity
    ensures LivePath(s, rank, x, r)
    decreases rank[x]
  {
    if Nodes(s)[x].parent == InvalidEntity {
      r := x;
    } else {
      r := RootAbove(s, rank, Nodes(s)[x].parent);
    }
  }

  lemma {:induction false} WalkKeepsLiveChain(s: Scene, rank: map<EntityId, nat>, a: EntityId, fuel: nat, x: EntityId)
    requires H.Consistent(Nodes(s)) && H.Ranked(Nodes(s), rank)
    requires LiveFromRoot(s, rank, a) && Pre(x) in Walk(s, a, fuel)
    ensures LiveFromRoot(s, rank, x)
    decreases fuel
  {
    if x != a {
      var c := ChildVisit(s, a, fuel, Pre(x));
      assert H.HasParentIn(Nodes(s), c);
      WalkKeepsLiveChain(s, rank, c, fuel - 1, x);
    }
  }

  /** The traversal of `update` enters exactly the live entities whose chain
      of parents is live up to a root, each of them once, provided the links
      are consistent and acyclic and the fuel exceeds every rank. */
  lemma TraverseEntersReachable(s: Scene, rank: map<EntityId, nat>, fuel: nat, x: EntityId)
    requires Valid(s) && H.Consistent(Nodes(s)) && H.Ranked(Nodes(s), rank)
    requires forall a | a in Nodes(s) :: rank[a] < fuel
    ensures Pre(x) in Traverse(s, fuel) <==> LiveFromRoot(s, rank, x)
    ensures PreOnce(Traverse(s, fuel))
  {
    var roots := RootEntities(s);
    if Pre(x) in Traverse(s, fuel) {
      var j := FromWalkEach(s, roots, fuel, Pre(x));
      assert IsRoot(s, roots[j]);
      WalkKeepsLiveChain(s, rank, roots[j], fuel, x);
    }
    if LiveFromRoot(s, rank, x) {
      var r := RootAbove(s, rank, x);
      assert IsRoot(s, r) && r in s.order;
      var j :| 0 <= j < |roots| && roots[j] == r;
      WalkReaches(s, rank, r, x, fuel);
      WalkInWalkEach(s, roots, j, fuel);
    }
    SubsequenceKeepsNoDup(roots, s.order);
    WalkEachOnce(s, rank, roots, fuel, InvalidEntity);
  }

  /** Replays a trace against a stack of open entities (top first): `Pre`
      pushes, `Post` must close the top. None when a `Post` does not match. */
  function Replay(t: seq<Visit>, stack: seq<EntityId>): Option<seq<EntityId>>
    decreases |t|
  {
    if t == [] then Some(stack)
    else match t[0]
      case Pre(x) => Replay(t[1..], [x] + stack)
      case Post(x) => if stack != [] && stack[0] == x then Replay(t[1..], stack[1..]) else None
  }

  lemma {:induction false} ReplayAppend(a: seq<Visit>, b: seq<Visit>, stack: seq<EntityId>)
    ensures Replay(a + b, stack) ==
      match Replay(a, stack) case None => None case Some(m) => Replay(b, m)
    decreases |a|
  {
    if a == [] {
      assert a + b == b;
    } else {
      assert (a + b)[0] == a[0] && (a + b)[1..] == a[1..] + b;
      match a[0]
      case Pre(x) => ReplayAppend(a[1..], b, [x] + stack);
      case Post(x) => if stack != [] && stack[0] == x { ReplayAppend(a[1..], b, stack[1..]); }
    }
  }

  /** Every `Pre` is closed by the matching `Post`, properly nested, whatever
      was open before. */
  ghost predicate Nested(t: seq<Visit>) {
    forall stack: seq<EntityId> :: Replay(t, stack) == Some(stack)
  }

  lemma {:induction false} WalkNested(s: Scene, id: EntityId, fuel: nat)
    ensures Nested(Walk(s, id, fuel))
    decreases fuel, 0
  {
    if IsValid(s, id) && fuel > 0 {
      var inner := WalkEach(s, ChildrenOf(s, id), fuel - 1);
      WalkEachNested(s, ChildrenOf(s, id), fuel - 1);
      forall stack: seq<EntityId> ensures Replay(Walk(s, id, fuel), stack) == Some(stack) {
        ReplayAppend([Pre(id)] + inner, [Post(id)], stack);
        ReplayAppend([Pre(id)], inner, stack);
        assert Replay([Pre(id)], stack) == Some([id] + stack);
        assert Replay(inner, [id] + stack) == Some([id] + stack);
        assert ([id] + stack)[1..] == stack;
      }
    }
  }

  lemma {:induction false} WalkEachNested(s: Scene, ids: seq<EntityId>, fuel: nat)
    ensures Nested(WalkEach(s, ids, fuel))
    decreases fuel, 1, |ids|
  {
    if ids != [] {
      var head := if IsValid(s, ids[0]) then Walk(s, ids[0], fuel) else [];
      var tail := WalkEach(s, ids[1..], fuel);
      WalkNested(s, ids[0], fuel);
      WalkEachNested(s, ids[1..], fuel);
      forall stack: seq<EntityId> ensures Replay(head + tail, stack) == Some(stack) {
        ReplayAppend(head, tail, stack);
        assert Replay(head, stack) == Some(stack);
      }
    }
  }

  /** The traversal brackets every visited entity correctly. */
  lemma TraverseNested(s: Scene, fuel: nat)
    ensures Nested(Traverse(s, fuel))
  {
    WalkEachNested(s, RootEntities(s), fuel);
  }

  /** A call the scheduler makes on a system. */
  datatype Call =
    | OnUpdate(sys: SystemId, dt: real)
    | OnPreUpdate(sys: SystemId, entity: EntityId, dt: real)
    | OnPostUpdate(sys: SystemId, entity: EntityId, dt: real)

  function HookFor(sys: SystemId, v: Visit, dt: real): Call {
    match v
    case Pre(x) => OnPreUpdate(sys, x, dt)
    case Post(x) => OnPostUpdate(sys, x, dt)
  }

  /** One traversal callback fans out to every system in registration order. */
  function Broadcast(systems: seq<SystemId>, v: Visit, dt: real): (r: seq<Call>)
    ensures |r| == |systems|
    ensures forall i | 0 <= i < |r| :: r[i] == HookFor(systems[i], v, dt)
  {
    if systems == [] then [] else [HookFor(systems[0], v, dt)] + Broadcast(systems[1..], v, dt)
  }

  /** The broadcast of each visit of a trace, in trace order. */
  function PerVisit(systems: seq<SystemId>, t: seq<Visit>, dt: real): seq<seq<Call>> {
    seq(|t|, i requires 0 <= i < |t| => Broadcast(systems, t[i], dt))
  }

  lemma PerVisitCons(systems: seq<SystemId>, t: seq<Visit>, dt: real)
    requires t != []
    ensures Flatten(PerVisit(systems, t, dt)) == Broadcast(systems, t[0], dt) + Flatten(PerVisit(systems, t[1..], dt))
  {
    assert PerVisit(systems, t, dt) == [Broadcast(systems, t[0], dt)] + PerVisit(systems, t[1..], dt);
    FlattenCons(Broadcast(systems, t[0], dt), PerVisit(systems, t[1..], dt));
  }

  /** The hook calls of a traversal: for each visit in trace order, every
      system's pre or post hook in registration order. */
  function Hooks(systems: seq<SystemId>, t: seq<Visit>, dt: real): (r: seq<Call>)
    ensures |r| == |systems| * |t|
    ensures r == Flatten(PerVisit(systems, t, dt))
    ensures forall c | c in r ::
      !c.OnUpdate? && c.sys in systems && (if c.OnPreUpdate? then Pre(c.entity) in t else Post(c.entity) in t)
  {
    if t == [] then []
    else
      var b := Broadcast(systems, t[0], dt);
      var rest := Hooks(systems, t[1..], dt);
      assert |systems| * |t| == |systems| + |systems| * (|t| - 1);
      assert forall c | c in b ::
        !c.OnUpdate? && c.sys in systems && (if c.OnPreUpdate? then Pre(c.entity) in t else Post(c.entity) in t);
      PerVisitCons(systems, t, dt);
      b + rest
  }

  /** `update(dt)`: every system's `onUpdate` in registration order, then the
      hooks of the traversal: on each entry every system's pre hook, on each
      exit every system's post hook. */
  function Update(s: Scene, dt: real, fuel: nat): (r: seq<Call>)
    ensures |r| == |s.systems| * (1 + |Traverse(s, fuel)|)
    ensures forall i | 0 <= i < |s.systems| :: r[i] == OnUpdate(s.systems[i], dt)
    ensures r[|s.systems|..] == Hooks(s.systems, Traverse(s, fuel), dt)
    ensures forall c | c in r[|s.systems|..] :: !c.OnUpdate? && IsValid(s, c.entity)
  {
    var t := Traverse(s, fuel);
    var first := seq(|s.systems|, i requires 0 <= i < |s.systems| => OnUpdate(s.systems[i], dt));
    var rest := Hooks(s.systems, t, dt);
    assert (first + rest)[|s.systems|..] == rest;
    first + rest
  }

  lemma FirstHooks(systems: seq<SystemId>, t: seq<Visit>, dt: real)
    requires t != []
    ensures |Hooks(systems, t, dt)| >= |systems|
    ensures forall j | 0 <= j < |systems| :: Hooks(systems, t, dt)[j] == HookFor(systems[j], t[0], dt)
  {
    assert Hooks(systems, t, dt) == Broadcast(systems, t[0], dt) + Hooks(systems, t[1..], dt);
  }

  /** The first hook calls of an update are the pre hooks of the first live
      root, one per system in registration order. */
  lemma UpdateEntersFirstRoot(s: Scene, dt: real, fuel: nat)
    requires fuel > 0 && RootEntities(s) != [] && IsValid(s, RootEntities(s)[0])
    ensures var u := Update(s, dt, fuel); var n := |s.systems|;
      |u| >= 2 * n && forall j | 0 <= j < n :: u[n + j] == OnPreUpdate(s.systems[j], RootEntities(s)[0], dt)
  {
    var roots := RootEntities(s);
    var t := Traverse(s, fuel);
    var w := Walk(s, roots[0], fuel);
    assert t == w + WalkEach(s, roots[1..], fuel);
    assert t[0] == w[0] == Pre(roots[0]);
    FirstHooks(s.systems, t, dt);
    var n := |s.systems|;
    var u := Update(s, dt, fuel);
    assert u[n..] == Hooks(s.systems, t, dt);
  }

  // ---------------------------------------------------------------------
  // Systems, builder, clear and rebuild (Scene.cpp:174-212)

  /** A null system is ignored; otherwise it joins the end of the list. */
  function AddSystem(s: Scene, sys: Option<SystemId>): (r: Scene)
    ensures sys.None? ==> r == s
    ensures sys.Some? ==> r.systems == s.systems + [sys.value]
    ensures r.order == s.order && r.live == s.live && r.tables == s.tables && r.nextId == s.nextId
    ensures r.name == s.name && r.builder == s.builder
  {
    if sys.None? then s else s.(systems := s.systems + [sys.value])
  }

  /** The system added last runs its `onUpdate` after all earlier ones. */
  lemma AddSystemRunsLast(s: Scene, sys: SystemId, dt: real, fuel: nat)
    ensures var u := Update(AddSystem(s, Some(sys)), dt, fuel);
      |u| > |s.systems| && u[|s.systems|] == OnUpdate(sys, dt) &&
      u[..|s.systems|] == Update(s, dt, fuel)[..|s.systems|]
  {
    var u := Update(AddSystem(s, Some(sys)), dt, fuel);
    var n := |s.systems|;
    assert u[..n] == Update(s, dt, fuel)[..n] by {
      forall i | 0 <= i < n ensures u[..n][i] == Update(s, dt, fuel)[..n][i] {
        assert u[i] == OnUpdate(s.systems[i], dt);
      }
    }
  }

  function ClearSystems(s: Scene): (r: Scene)
    ensures r.systems == [] && r.tables == s.tables && r.order == s.order && r.live == s.live
  {
    s.(systems := [])
  }

  /** Without systems an update makes no calls at all. */
  lemma ClearSystemsSilencesUpdate(s: Scene, dt: real, fuel: nat)
    ensures Update(ClearSystems(s), dt, fuel) == []
  {
  }

  function SetBuilder(s: Scene, b: Option<BuilderId>): (r: Scene)
    ensures r.builder == b && r.systems == s.systems && r.tables == s.tables && r.order == s.order
    ensures r.name == s.name && r.live == s.live && r.nextId == s.nextId
  {
    s.(builder := b)
  }

  /** Drop every component table, entity and system and reset the counter; the
      name and the builder stay. */
  function Clear(s: Scene): (r: Scene)
    ensures forall k, x :: !HasComponent(r, k, x)
    ensures r.order == [] && r.live == {} && r.systems == [] && r.nextId == 0
    ensures r.name == s.name && r.builder == s.builder
    ensures Valid(r)
  {
    Scene(s.name, InvalidEntity, [], {}, map[], [], s.builder)
  }

  /** Ids restart at 1 after a clear. */
  lemma IdsRestartAfterClear(s: Scene, name: string)
    ensures CreateEntity(Clear(s), name).1 == 1
  {
  }

  /** Without a builder nothing happens and the answer is false; with one the
      scene is cleared and `build` (the callback, a parameter here) repopulates
      it. */
  function Rebuild(s: Scene, build: Scene -> Scene): (r: (bool, Scene))
    ensures r.0 <==> s.builder.Some?
    ensures !r.0 ==> r.1 == s
    ensures r.0 ==> r.1 == build(Clear(s))
  {
    if s.builder.None? then (false, s) else (true, build(Clear(s)))
  }

  /** A rebuild whose callback creates one entity leaves exactly that entity,
      under id 1, whatever the scene held before. */
  lemma RebuildStartsAfresh(s: Scene, build: Scene -> Scene, name: string)
    requires s.builder.Some?
    requires forall t :: build(t) == CreateEntity(t, name).0
    ensures var r := Rebuild(s, build);
      r.0 && r.1.order == [1] && r.1.live == {1} && r.1.systems == []
  {
    var c := Clear(s);
    assert Rebuild(s, build).1 == CreateEntity(c, name).0;
  }
}
