/** The parent/child links of the scene graph as a map from entity to Node,
    the link rewiring done by `setParent` and `destroyEntity`
    (src/Melkam/scene/Scene.cpp), and the invariants those rewirings keep.
    The source checks neither consistency nor acyclicity; the lemmas here say
    under which caller discipline they survive. */
module Hierarchy {
  import opened Components
  import opened Seqs

  type Nodes = map<EntityId, Node>

  // ---------------------------------------------------------------------
  // Elementary rewirings (each one mirrors one pointer write of the source)

  /** Erase `c` from the child list of `q`, if `q` has a Node. */
  function Detach(n: Nodes, q: EntityId, c: EntityId): Nodes {
    if q in n then n[q := n[q].(children := RemoveAll(n[q].children, c))] else n
  }

  /** Overwrite the parent field of `c`, if `c` has a Node. */
  function WithParent(n: Nodes, c: EntityId, p: EntityId): Nodes {
    if c in n then n[c := n[c].(parent := p)] else n
  }

  /** Append `c` to the child list of `p`, if `p` has a Node. */
  function Attach(n: Nodes, p: EntityId, c: EntityId): Nodes {
    if p in n then n[p := n[p].(children := n[p].children + [c])] else n
  }

  /** The link part of `setParent(child, parent)` once the child is known to be
      live with a Node and the parent id has been normalised (Scene.cpp:93-123). */
  function Reparent(n: Nodes, c: EntityId, p: EntityId): Nodes
    requires c in n
  {
    if n[c].parent == p then n
    else
      var n1 := if n[c].parent != InvalidEntity then Detach(n, n[c].parent, c) else n;
      var n2 := WithParent(n1, c, p);
      if p != InvalidEntity then Attach(n2, p, c) else n2
  }

  /** Set the parent field of every listed child to 0, in list order. */
  function ClearParents(n: Nodes, kids: seq<EntityId>): Nodes
    decreases |kids|
  {
    if kids == [] then n else ClearParents(WithParent(n, kids[0], InvalidEntity), kids[1..])
  }

  /** The link part of `destroyEntity(id)` for an entity with a Node
      (Scene.cpp:45-67), followed by erasing its Node. */
  function DestroyLinks(n: Nodes, id: EntityId): Nodes
    requires id in n
  {
    Unlink(n, id) - {id}
  }

  /** The rewiring before the Node is erased: detach from the parent, then
      clear the parent of every child the (updated) Node lists. */
  function Unlink(n: Nodes, id: EntityId): Nodes
    requires id in n
  {
    var n1 := if n[id].parent != InvalidEntity then Detach(n, n[id].parent, id) else n;
    ClearParents(n1, n1[id].children)
  }

  // ---------------------------------------------------------------------
  // Invariants

  /** Every non-root node's parent has a Node that lists it. */
  ghost predicate ParentsListChildren(n: Nodes) {
    forall a | a in n && n[a].parent != InvalidEntity ::
      n[a].parent in n && a in n[n[a].parent].children
  }

  /** Every listed child has a Node whose parent field points back. */
  ghost predicate ChildrenPointBack(n: Nodes) {
    forall a, c | a in n && c in n[a].children :: c in n && n[c].parent == a
  }

  ghost predicate ChildListsDistinct(n: Nodes) {
    forall a | a in n :: NoDup(n[a].children)
  }

  /** The links are mutually consistent: the scene-graph invariant. Id 0 is
      never live, so it carries no Node either. */
  ghost predicate Consistent(n: Nodes) {
    && InvalidEntity !in n
    && ParentsListChildren(n) && ChildrenPointBack(n) && ChildListsDistinct(n)
  }

  ghost predicate HasParentIn(n: Nodes, a: EntityId) {
    a in n && n[a].parent != InvalidEntity && n[a].parent in n
  }

  /** `rank` strictly increases from every parent to its child: a witness that
      following parent links always ends, i.e. the graph is a forest. */
  ghost predicate Ranked(n: Nodes, rank: map<EntityId, nat>) {
    && (forall a | a in n :: a in rank)
    && (forall a | HasParentIn(n, a) :: rank[n[a].parent] < rank[a])
  }

  ghost predicate Acyclic(n: Nodes) {
    exists rank :: Ranked(n, rank)
  }

  /** `x` is `c` or lies below `c` (follow parent links from `x`). */
  ghost predicate Under(n: Nodes, rank: map<EntityId, nat>, x: EntityId, c: EntityId)
    requires Ranked(n, rank) && x in n
    decreases rank[x]
  {
    x == c || (HasParentIn(n, x) && Under(n, rank, n[x].parent, c))
  }

  // ---------------------------------------------------------------------
  // What each rewiring does to parent fields and child lists

  lemma {:induction false} ClearParentsEffect(n: Nodes, kids: seq<EntityId>)
    ensures ClearParents(n, kids).Keys == n.Keys
    ensures forall x | x in n :: ClearParents(n, kids)[x].children == n[x].children
    ensures forall x | x in n ::
      ClearParents(n, kids)[x].parent == (if x in kids then InvalidEntity else n[x].parent)
    decreases |kids|
  {
    if kids != [] {
      var n1 := WithParent(n, kids[0], InvalidEntity);
      ClearParentsEffect(n1, kids[1..]);
      forall x | x in n
        ensures ClearParents(n, kids)[x].parent == (if x in kids then InvalidEntity else n[x].parent)
      {
        assert x in kids <==> x == kids[0] || x in kids[1..];
      }
    }
  }

  /** The child list `a` has after `Reparent(n, c, p)` when the parent changes:
      the old parent loses `c`, the new parent gains it at the end. */
  function ChildrenAfter(n: Nodes, c: EntityId, p: EntityId, a: EntityId): seq<EntityId>
    requires c in n && a in n
  {
    var q := n[c].parent;
    var base := if a == q && q != InvalidEntity then RemoveAll(n[a].children, c) else n[a].children;
    if a == p && p != InvalidEntity then base + [c] else base
  }

  /** After `Reparent`, only the child's parent field has changed, and only the
      old and new parents' child lists. */
  lemma ReparentShape(n: Nodes, c: EntityId, p: EntityId)
    requires c in n
    ensures Reparent(n, c, p).Keys == n.Keys
    ensures Reparent(n, c, p)[c].parent == p
    ensures forall x | x in n && x != c :: Reparent(n, c, p)[x].parent == n[x].parent
    ensures n[c].parent != p ==>
      forall a | a in n :: Reparent(n, c, p)[a].children == ChildrenAfter(n, c, p, a)
  {
    var q := n[c].parent;
    if q != p {
      var n1 := if q != InvalidEntity then Detach(n, q, c) else n;
      DetachEffect(n, q, c);
      var n2 := WithParent(n1, c, p);
      WithParentEffect(n1, c, p);
      AttachEffect(n2, p, c);
    }
  }

  lemma DetachEffect(n: Nodes, q: EntityId, c: EntityId)
    ensures Detach(n, q, c).Keys == n.Keys
    ensures forall x | x in n :: Detach(n, q, c)[x].parent == n[x].parent
    ensures forall x | x in n ::
      Detach(n, q, c)[x].children == (if x == q then RemoveAll(n[x].children, c) else n[x].children)
  {
  }

  lemma WithParentEffect(n: Nodes, c: EntityId, p: EntityId)
    ensures WithParent(n, c, p).Keys == n.Keys
    ensures forall x | x in n :: WithParent(n, c, p)[x].parent == (if x == c then p else n[x].parent)
    ensures forall x | x in n :: WithParent(n, c, p)[x].children == n[x].children
  {
  }

  lemma AttachEffect(n: Nodes, p: EntityId, c: EntityId)
    ensures Attach(n, p, c).Keys == n.Keys
    ensures forall x | x in n :: Attach(n, p, c)[x].parent == n[x].parent
    ensures forall x | x in n ::
      Attach(n, p, c)[x].children == (if x == p then n[x].children + [c] else n[x].children)
  {
  }

  /** A fresh root with no children cannot break the links. */
  lemma AddRootKeepsConsistent(n: Nodes, id: EntityId)
    requires Consistent(n) && id !in n && id != InvalidEntity
    ensures Consistent(n[id := DefaultNode])
  {
    var n' := n[id := DefaultNode];
    forall a, c | a in n' && c in n'[a].children ensures c in n' && n'[c].parent == a {
      assert a != id && c in n[a].children;
    }
    forall a | a in n' && n'[a].parent != InvalidEntity
      ensures n'[a].parent in n' && a in n'[n'[a].parent].children
    {
      assert a != id;
    }
  }

  /** Setting a parent links both ways: the child points at `p`, `p` lists the
      child, and no other node lists it any more. */
  lemma ReparentLinksBothWays(n: Nodes, c: EntityId, p: EntityId)
    requires Consistent(n) && c in n
    requires p != InvalidEntity && p in n
    ensures Reparent(n, c, p)[c].parent == p
    ensures c in Reparent(n, c, p)[p].children
    ensures forall a | a in n && a != p :: c !in Reparent(n, c, p)[a].children
  {
    var n' := Reparent(n, c, p);
    var q := n[c].parent;
    ReparentShape(n, c, p);
    if q == p {
      assert c in n[p].children;
      forall a | a in n && a != p ensures c !in n'[a].children {
        assert n[c].parent != a;
      }
    } else {
      forall a | a in n && a != p ensures c !in n'[a].children {
        assert n'[a].children == ChildrenAfter(n, c, p, a);
        if a != q {
          assert n[c].parent != a;
        }
      }
    }
  }

  // ---------------------------------------------------------------------
  // Preservation

  lemma ReparentKeepsParentsList(n: Nodes, c: EntityId, p: EntityId)
    requires Consistent(n) && c in n && n[c].parent != p
    requires p == InvalidEntity || (p in n && p != c)
    ensures ParentsListChildren(Reparent(n, c, p))
  {
    var n' := Reparent(n, c, p);
    var q := n[c].parent;
    ReparentShape(n, c, p);
    forall a | a in n' && n'[a].parent != InvalidEntity
      ensures n'[a].parent in n' && a in n'[n'[a].parent].children
    {
      if a == c {
        assert n'[p].children == ChildrenAfter(n, c, p, p);
      } else {
        var b := n[a].parent;
        assert n'[a].parent == b;
        assert b in n && a in n[b].children;
        assert n'[b].children == ChildrenAfter(n, c, p, b);
      }
    }
  }

  lemma ReparentKeepsPointBack(n: Nodes, c: EntityId, p: EntityId)
    requires Consistent(n) && c in n && n[c].parent != p
    requires p == InvalidEntity || (p in n && p != c)
    ensures ChildrenPointBack(Reparent(n, c, p))
  {
    var n' := Reparent(n, c, p);
    ReparentShape(n, c, p);
    forall a, x | a in n' && x in n'[a].children ensures x in n' && n'[x].parent == a {
      assert n'[a].children == ChildrenAfter(n, c, p, a);
      if x != c {
        assert x in n[a].children;
        assert n[x].parent == a;
      }
    }
  }

  lemma ReparentKeepsDistinct(n: Nodes, c: EntityId, p: EntityId)
    requires Consistent(n) && c in n && n[c].parent != p
    requires p == InvalidEntity || (p in n && p != c)
    ensures ChildListsDistinct(Reparent(n, c, p))
  {
    var n' := Reparent(n, c, p);
    var q := n[c].parent;
    ReparentShape(n, c, p);
    forall a | a in n' ensures NoDup(n'[a].children) {
      assert n'[a].children == ChildrenAfter(n, c, p, a);
      var base := if a == q && q != InvalidEntity then RemoveAll(n[a].children, c) else n[a].children;
      assert NoDup(base) by {
        if a == q && q != InvalidEntity { RemoveAllKeepsNoDup(n[a].children, c); }
      }
      if a == p && p != InvalidEntity {
        assert c !in base by {
          assert n[c].parent != a;
        }
        var r := base + [c];
        forall i, j | 0 <= i < j < |r| ensures r[i] != r[j] {
          if j == |base| { assert r[i] == base[i]; assert base[i] in base; }
          else { assert r[i] == base[i] && r[j] == base[j]; }
        }
      }
    }
  }

  /** Under the caller discipline the source does not check (the new parent is
      root, or has a Node and is not the child itself), `setParent` keeps the
      links consistent. */
  lemma ReparentKeepsConsistent(n: Nodes, c: EntityId, p: EntityId)
    requires Consistent(n) && c in n
    requires p == InvalidEntity || (p in n && p != c)
    ensures Consistent(Reparent(n, c, p))
  {
    if n[c].parent != p {
      ReparentKeepsParentsList(n, c, p);
      ReparentKeepsPointBack(n, c, p);
      ReparentKeepsDistinct(n, c, p);
    }
  }

  lemma ReparentKeepsRanked(n: Nodes, rank: map<EntityId, nat>, c: EntityId, p: EntityId)
    requires Ranked(n, rank) && c in n
    requires p == InvalidEntity || p !in n || !Under(n, rank, p, c)
    ensures Acyclic(Reparent(n, c, p))
  {
    var n' := Reparent(n, c, p);
    ReparentShape(n, c, p);
    if p == InvalidEntity || p !in n {
      assert Ranked(n', rank);
    } else {
      var rank' := map x | x in rank ::
        if x in n && Under(n, rank, x, c) then rank[x] + rank[p] + 1 else rank[x];
      forall a | HasParentIn(n', a) ensures rank'[n'[a].parent] < rank'[a] {
        if a != c {
          assert HasParentIn(n, a);
          assert Under(n, rank, a, c) == Under(n, rank, n[a].parent, c);
        } else {
          assert Under(n, rank, c, c);
        }
      }
      assert Ranked(n', rank');
    }
  }

  /** What `DestroyLinks` leaves: the id's Node is gone, its former children
      are roots, and its former parent's list no longer holds it. */
  lemma DestroyShape(n: Nodes, id: EntityId)
    requires id in n
    ensures DestroyLinks(n, id).Keys == n.Keys - {id}
    ensures forall a | a in DestroyLinks(n, id) ::
      DestroyLinks(n, id)[a].parent ==
        (if a in n[id].children then InvalidEntity else n[a].parent)
    ensures forall a | a in DestroyLinks(n, id) ::
      DestroyLinks(n, id)[a].children ==
        (if a == n[id].parent && a != InvalidEntity then RemoveAll(n[a].children, id)
         else n[a].children)
  {
    var q := n[id].parent;
    var n1 := if q != InvalidEntity then Detach(n, q, id) else n;
    var kids := n1[id].children;
    var n2 := ClearParents(n1, kids);
    ClearParentsEffect(n1, kids);
    assert n1.Keys == n.Keys;
    assert DestroyLinks(n, id) == n2 - {id};
    forall a | a in n && a != id
      ensures n2[a].parent == (if a in n[id].children then InvalidEntity else n[a].parent)
      ensures n2[a].children ==
        (if a == q && a != InvalidEntity then RemoveAll(n[a].children, id) else n[a].children)
    {
      assert n1[a].parent == n[a].parent;
      assert a in kids <==> a in n[id].children;
    }
  }

  /** Destroying an entity leaves every other link consistent: its former
      parent forgets it and its former children become roots. */
  lemma DestroyKeepsConsistent(n: Nodes, id: EntityId)
    requires Consistent(n) && id in n
    ensures Consistent(DestroyLinks(n, id))
  {
    var n' := DestroyLinks(n, id);
    DestroyShape(n, id);
    forall a | a in n' && n'[a].parent != InvalidEntity
      ensures n'[a].parent in n' && a in n'[n'[a].parent].children
    {
      var b := n[a].parent;
      assert n'[a].parent == b;
      assert b != id;
      assert a in n[b].children;
    }
    forall a, x | a in n' && x in n'[a].children ensures x in n' && n'[x].parent == a {
      assert x in n[a].children;
      assert n[x].parent == a;
      assert x != id;
      assert x !in n[id].children;
    }
    forall a | a in n' ensures NoDup(n'[a].children) {
      RemoveAllKeepsNoDup(n[a].children, id);
    }
  }

  lemma DestroyKeepsRanked(n: Nodes, rank: map<EntityId, nat>, id: EntityId)
    requires Ranked(n, rank) && id in n
    ensures Ranked(DestroyLinks(n, id), rank)
  {
    var q := n[id].parent;
    var n1 := if q != InvalidEntity then Detach(n, q, id) else n;
    ClearParentsEffect(n1, n1[id].children);
    assert forall a | a in n :: n1[a].parent == n[a].parent;
  }

  /** After destruction no remaining Node mentions the destroyed id, as parent
      or as child. */
  lemma DestroyForgetsId(n: Nodes, id: EntityId)
    requires Consistent(n) && id in n
    ensures id !in DestroyLinks(n, id)
    ensures forall a | a in DestroyLinks(n, id) ::
      DestroyLinks(n, id)[a].parent != id && id !in DestroyLinks(n, id)[a].children
  {
    var q := n[id].parent;
    var n1 := if q != InvalidEntity then Detach(n, q, id) else n;
    var kids := n1[id].children;
    ClearParentsEffect(n1, kids);
    assert forall a | a in n && a != q :: n1[a].children == n[a].children;
    forall a | a in DestroyLinks(n, id)
      ensures DestroyLinks(n, id)[a].parent != id && id !in DestroyLinks(n, id)[a].children
    {
      if n[a].parent == id {
        assert a in n[id].children;
        if q != InvalidEntity && q == id {
          assert a != id;
        }
        assert a in kids;
      }
    }
  }
}
