/** Adding parents and moving them: bdrv_root_attach_child, bdrv_attach_child and
    bdrv_replace_node of block.c. */
module BlockRewire {
  import opened Basics
  import opened BlockPerm
  import opened BlockGraph
  import opened BlockUpdate
  import opened BlockLoosen
  import opened BlockOps

  // ----- comparing two shapes below a node -----

  /** Node `y` and its child edges are the same in both graphs. */
  ghost predicate Agree(g: Graph, h: Graph, y: NodeId) {
    && y in g.nodes && y in h.nodes
    && g.nodes[y].drv == h.nodes[y].drv && g.nodes[y].flags == h.nodes[y].flags
    && g.nodes[y].aligned == h.nodes[y].aligned && g.nodes[y].hook == h.nodes[y].hook
    && g.nodes[y].children == h.nodes[y].children
    && forall e :: e in g.nodes[y].children ==>
                     && e in g.edges && e in h.edges
                     && g.edges[e].child == h.edges[e].child && g.edges[e].role == h.edges[e].role
                     && g.edges[e].child in g.nodes && g.edges[e].child in h.nodes
                     && g.nodes[g.edges[e].child].forceShare == h.nodes[g.edges[e].child].forceShare
  }

  /** The part of that which reachability looks at. */
  ghost predicate AgreeShape(g: Graph, h: Graph, y: NodeId) {
    && y in g.nodes && y in h.nodes
    && g.nodes[y].drv == h.nodes[y].drv && g.nodes[y].children == h.nodes[y].children
    && forall e :: e in g.nodes[y].children ==> e in g.edges && e in h.edges && g.edges[e].child == h.edges[e].child
  }

  lemma {:induction false} ReachAgree(g: Graph, h: Graph, b: NodeId)
    requires Valid(g) && Valid(h) && b in g.nodes
    requires forall y {:trigger AgreeShape(g, h, y)} :: y in Reach(g, b) ==> AgreeShape(g, h, y)
    ensures b in h.nodes && Reach(h, b) == Reach(g, b)
    decreases g.rank[b], 1, 0
  {
    assert AgreeShape(g, h, b);
    if g.nodes[b].drv {
      ReachFromAgree(g, h, b, 0);
    }
  }

  lemma {:induction false} ReachFromAgree(g: Graph, h: Graph, b: NodeId, i: nat)
    requires Valid(g) && Valid(h) && b in g.nodes && i <= |g.nodes[b].children| && AgreeShape(g, h, b)
    requires forall y {:trigger AgreeShape(g, h, y)} :: y in ReachFrom(g, b, i) ==> AgreeShape(g, h, y)
    ensures ReachFrom(h, b, i) == ReachFrom(g, b, i)
    decreases g.rank[b], 0, |g.nodes[b].children| - i
  {
    if i < |g.nodes[b].children| {
      ChildEdge(g, b, i);
      assert g.nodes[b].children[i] in g.nodes[b].children;
      ReachAgree(g, h, g.edges[g.nodes[b].children[i]].child);
      ReachFromAgree(g, h, b, i + 1);
    }
  }

  /** Exactness carries over when the node's use and its child edges do. */
  lemma ExactAgree(g: Graph, h: Graph, p: State, q: State, y: NodeId, out: set<EdgeId>)
    requires Valid(g) && Valid(h) && ValidState(g, p) && ValidState(h, q) && Agree(g, h, y)
    requires NodeUse(g, p, y, out) == NodeUse(h, q, y, {})
    requires forall e :: e in g.nodes[y].children ==> e in p && e in q && p[e].use == q[e].use
    requires Exact(g, p, y, out)
    ensures Exact(h, q, y, {})
  {
    if g.nodes[y].drv {
      DeliveredAgree(g, h, p, q, y, NodeUse(g, p, y, out));
    }
  }

  lemma DeliveredAgree(g: Graph, h: Graph, p: State, q: State, y: NodeId, u: Use)
    requires Valid(g) && Valid(h) && ValidState(g, p) && ValidState(h, q) && Agree(g, h, y)
    requires forall e :: e in g.nodes[y].children ==> e in p && e in q && p[e].use == q[e].use
    requires Delivered(g, p, y, u)
    ensures Delivered(h, q, y, u)
  {
    forall k | 0 <= k < |h.nodes[y].children|
      ensures DeliveredAt(h, q, y, k, u)
    {
      ChildEdge(g, y, k);
      ChildEdge(h, y, k);
      assert DeliveredAt(g, p, y, k, u);
      assert g.nodes[y].children[k] in g.nodes[y].children;
    }
  }

  // ----- bdrv_root_attach_child -----

  /** A new parent edge, at the head of the node's parent list, owned by no node. */
  function AttachShape(g: Graph, id: EdgeId, c: Edge): Graph
    requires c.child in g.nodes
  {
    g.(nodes := g.nodes[c.child := g.nodes[c.child].(parents := [id] + g.nodes[c.child].parents)],
       edges := g.edges[id := c])
  }

  /** None when the permissions cannot be granted; the graph is then as it was. */
  function Attach(s: Block, id: EdgeId, c: Edge, u: Use): (Block, bool)
    requires Consistent(s) && id !in s.g.edges && c.owner == None && c.child in s.g.nodes && Sharing(u)
  {
    var r := CheckUpdate(s.g, s.p, c.child, u, {});
    if r.verdict != Granted then (s.(p := AbortNode(s.g, r.state, c.child)), false)
    else
      AttachValid(s.g, id, c);
      AttachState(s.g, r.state, id, c, u);
      var h, q := AttachShape(s.g, id, c), r.state[id := EdgePerm(u, None)];
      (Block(h, SetNode(h, q, c.child, NodeUse(h, q, c.child, {}))), true)
  }

  lemma AttachValid(g: Graph, id: EdgeId, c: Edge)
    requires Valid(g) && id !in g.edges && c.owner == None && c.child in g.nodes
    ensures Valid(AttachShape(g, id, c))
  {
    var h := AttachShape(g, id, c);
    forall x | x in h.edges
      ensures ValidEdge(h, x) && Falls(h, x)
    {
      if x != id {
        assert ValidEdge(g, x) && Falls(g, x);
      }
    }
    forall b | b in h.nodes
      ensures ValidNode(h, b)
    {
      assert ValidNode(g, b);
    }
  }

  lemma AttachState(g: Graph, q: State, id: EdgeId, c: Edge, u: Use)
    requires Valid(g) && ValidState(g, q) && id !in g.edges && c.child in g.nodes && Sharing(u)
    ensures ValidState(AttachShape(g, id, c), q[id := EdgePerm(u, None)])
  {
    var q' := q[id := EdgePerm(u, None)];
    forall x | x in q'
      ensures Shares(q'[x])
    {
      if x != id {
        assert Shares(q[x]);
      }
    }
  }

  /** After a granted check, what is below the node is exact in the graph with the new edge. */
  lemma AttachExact(s: Block, id: EdgeId, c: Edge, u: Use)
    requires Consistent(s) && id !in s.g.edges && c.owner == None && c.child in s.g.nodes && Sharing(u)
    requires CheckUpdate(s.g, s.p, c.child, u, {}).verdict == Granted
    ensures var h, q := AttachShape(s.g, id, c), CheckUpdate(s.g, s.p, c.child, u, {}).state[id := EdgePerm(u, None)];
            Valid(h) && ValidState(h, q) && ExactBelow(h, q, c.child) && Reach(h, c.child) == Reach(s.g, c.child)
  {
    var g, p, b := s.g, s.p, c.child;
    var q0 := CheckUpdate(g, p, b, u, {}).state;
    var h, q := AttachShape(g, id, c), q0[id := EdgePerm(u, None)];
    AttachValid(g, id, c);
    AttachState(g, q0, id, c, u);
    forall y | y in Reach(g, b)
      ensures Agree(g, h, y) && AgreeShape(g, h, y)
    {
      ReachRank(g, b, y);
      AttachAgree(g, id, c, y);
    }
    ReachAgree(g, h, b);
    assert ValidNode(g, b);
    forall x | x in g.nodes[b].parents
      ensures q0[x].use == p[x].use
    {
      CheckUpdateOrigin(g, p, b, u, {}, x);
      NotBelow(g, b, x);
    }
    var cum := Join(u, NodeUse(g, p, b, {}));
    CumulativeSame(p, q, g.nodes[b].parents, {}, {});
    assert h.nodes[b].parents[1..] == g.nodes[b].parents;
    assert NodeUse(h, q, b, {}) == cum;
    forall y | y in Reach(h, b) && y in h.nodes
      ensures Exact(h, q, y, {})
    {
      assert Agree(g, h, y) && ValidNode(g, y);
      if y == b {
        if g.nodes[b].drv {
          CheckNodeDelivers(g, p, b, cum, {});
          DeliveredAgree(g, h, q0, q, b, cum);
        }
      } else {
        CheckUpdateExact(g, p, b, u, {}, {}, y);
        CumulativeSame(q0, q, g.nodes[y].parents, {}, {});
        ExactAgree(g, h, q0, q, y, {});
      }
    }
  }

  lemma AttachAgree(g: Graph, id: EdgeId, c: Edge, y: NodeId)
    requires Valid(g) && id !in g.edges && c.child in g.nodes
    ensures y in g.nodes ==> Agree(g, AttachShape(g, id, c), y)
  {
    if y in g.nodes {
      assert ValidNode(g, y);
      forall e | e in g.nodes[y].children
        ensures e in g.edges && g.edges[e].child in g.nodes
      {
        EdgeEnds(g, e);
      }
    }
  }

  /** bdrv_root_attach_child on any consistent graph: it adds exactly the new parent with its
      permissions, or changes nothing; the graph is consistent either way. */
  lemma AttachKeepsCompat(s: Block, id: EdgeId, c: Edge, u: Use)
    requires Consistent(s) && id !in s.g.edges && c.owner == None && c.child in s.g.nodes && Sharing(u)
    ensures var (t, ok) := Attach(s, id, c, u);
            && Consistent(t) && (!ok ==> t == s)
            && (ok ==> t.g == AttachShape(s.g, id, c) && t.p[id].use == u)
  {
    var g, p, b := s.g, s.p, c.child;
    var r := CheckUpdate(g, p, b, u, {});
    if r.verdict != Granted {
      CheckUpdateThenAbort(g, p, b, u, {});
    } else {
      var h, q := AttachShape(g, id, c), r.state[id := EdgePerm(u, None)];
      AttachExact(s, id, c, u);
      SetNodeAt(h, q, b);
      AttachNoBackups(s, id, c, u);
      AttachCompat(s, id, c, u);
      CompatSame(h, q, SetNode(h, q, b, NodeUse(h, q, b, {})));
    }
  }

  /** It also keeps a sound graph sound. */
  lemma AttachSound(s: Block, id: EdgeId, c: Edge, u: Use)
    requires Sound(s) && id !in s.g.edges && c.owner == None && c.child in s.g.nodes && Sharing(u)
    ensures Sound(Attach(s, id, c, u).0)
  {
    var g, p, b := s.g, s.p, c.child;
    var r := CheckUpdate(g, p, b, u, {});
    AttachKeepsCompat(s, id, c, u);
    if r.verdict == Granted {
      var h, q := AttachShape(g, id, c), r.state[id := EdgePerm(u, None)];
      AttachExact(s, id, c, u);
      var t := SetNode(h, q, b, NodeUse(h, q, b, {}));
      SetNodeAt(h, q, b);
      forall y | y in h.nodes
        ensures Tight(h, t, y)
      {
        if y in Reach(h, b) {
          assert Exact(h, q, y, {});
          ExactIsTight(h, q, y);
        } else {
          AttachTight(s, id, c, u, y);
        }
        TightSame(h, q, t, y);
      }
    }
  }

  lemma AttachNoBackups(s: Block, id: EdgeId, c: Edge, u: Use)
    requires Consistent(s) && id !in s.g.edges && c.owner == None && c.child in s.g.nodes && Sharing(u)
    requires CheckUpdate(s.g, s.p, c.child, u, {}).verdict == Granted
    ensures var h, q := AttachShape(s.g, id, c), CheckUpdate(s.g, s.p, c.child, u, {}).state[id := EdgePerm(u, None)];
            Valid(h) && ValidState(h, q) && NoBackups(SetNode(h, q, c.child, NodeUse(h, q, c.child, {})))
  {
    var b := c.child;
    var h, q := AttachShape(s.g, id, c), CheckUpdate(s.g, s.p, b, u, {}).state[id := EdgePerm(u, None)];
    AttachExact(s, id, c, u);
    SetNodeAt(h, q, b);
    forall x | x in h.edges
      ensures SetNode(h, q, b, NodeUse(h, q, b, {}))[x].backup == None
    {
      if x != id {
        CheckUpdateOrigin(s.g, s.p, b, u, {}, x);
      }
    }
  }

  lemma AttachCompat(s: Block, id: EdgeId, c: Edge, u: Use)
    requires Consistent(s) && id !in s.g.edges && c.owner == None && c.child in s.g.nodes && Sharing(u)
    requires CheckUpdate(s.g, s.p, c.child, u, {}).verdict == Granted
    ensures var h, q := AttachShape(s.g, id, c), CheckUpdate(s.g, s.p, c.child, u, {}).state[id := EdgePerm(u, None)];
            ValidState(h, q) && Compat(h, q, {})
  {
    var g, p, b := s.g, s.p, c.child;
    var q0 := CheckUpdate(g, p, b, u, {}).state;
    var h, q := AttachShape(g, id, c), q0[id := EdgePerm(u, None)];
    AttachState(g, q0, id, c, u);
    CheckUpdateCompat(g, p, b, u, {}, {});
    assert ValidNode(g, b);
    forall x: EdgeId, y: EdgeId | Siblings(h, x, y, {})
      ensures Fits(q, x, y)
    {
      if x != id && y != id {
        assert Siblings(g, x, y, {}) && Fits(q0, x, y);
      } else {
        var z := if x == id then y else x;
        EdgeEnds(g, z);
        CheckUpdateOrigin(g, p, b, u, {}, z);
        NotBelow(g, b, z);
        assert Compatible(u, p[z].use);
      }
    }
  }

  lemma AttachTight(s: Block, id: EdgeId, c: Edge, u: Use, y: NodeId)
    requires Sound(s) && id !in s.g.edges && c.owner == None && c.child in s.g.nodes && Sharing(u)
    requires CheckUpdate(s.g, s.p, c.child, u, {}).verdict == Granted
    requires y in s.g.nodes && y !in Reach(s.g, c.child)
    ensures var h, q := AttachShape(s.g, id, c), CheckUpdate(s.g, s.p, c.child, u, {}).state[id := EdgePerm(u, None)];
            Valid(h) && ValidState(h, q) && Tight(h, q, y)
  {
    var g, p, b := s.g, s.p, c.child;
    var q0 := CheckUpdate(g, p, b, u, {}).state;
    var h, q := AttachShape(g, id, c), q0[id := EdgePerm(u, None)];
    AttachValid(g, id, c);
    AttachState(g, q0, id, c, u);
    assert Tight(g, p, y) && ValidNode(g, y);
    forall x | x in g.edges && (g.edges[x].child == y || g.edges[x].owner == Some(y))
      ensures p[x].use == q[x].use
    {
      CheckUpdateOrigin(g, p, b, u, {}, x);
      if Below(g, b, x) {
        ReachClosed(g, b, x);
      }
    }
    CumulativeSame(p, q, g.nodes[y].parents, {}, {});
    AttachAgree(g, id, c, y);
    forall x | x in h.nodes[y].children
      ensures x in g.nodes[y].children && SameEdge(g, h, p, q, x)
    {
      EdgeEnds(g, x);
    }
    TightCarry(g, h, p, q, y);
  }

  // ----- keeping the graph acyclic -----

  /** Lift everything that `b` does not reach above everything it reaches. */
  function Rerank(g: Graph, b: NodeId): map<NodeId, nat>
    requires Valid(g) && b in g.nodes
  {
    map x | x in g.rank :: if x in Reach(g, b) then g.rank[x] else g.rank[x] + g.rank[b] + 1
  }

  /** An edge may lead to `b` if its owner is out of reach of `b`, and stay otherwise. */
  lemma RerankFalls(g: Graph, b: NodeId, o: NodeId, c: NodeId)
    requires Valid(g) && b in g.nodes && o in g.nodes && c in g.nodes
    requires (o !in Reach(g, b) && c == b)
             || exists e :: e in g.edges && g.edges[e].owner == Some(o) && g.edges[e].child == c
    ensures Rerank(g, b)[o] > Rerank(g, b)[c]
  {
    if o !in Reach(g, b) && c == b {
    } else {
      var e :| e in g.edges && g.edges[e].owner == Some(o) && g.edges[e].child == c;
      EdgeEnds(g, e);
      if o in Reach(g, b) {
        assert ValidNode(g, o);
        ReachClosed(g, b, e);
      } else if c in Reach(g, b) {
        ReachRank(g, b, c);
      }
    }
  }

  // ----- bdrv_attach_child: a root attach, then the edge enters the parent's child list -----

  function LinkShape(g: Graph, id: EdgeId, parent: NodeId): Graph
    requires Valid(g) && id in g.edges && parent in g.nodes && g.edges[id].child in g.nodes
  {
    g.(nodes := g.nodes[parent := g.nodes[parent].(children := [id] + g.nodes[parent].children)],
       edges := g.edges[id := g.edges[id].(owner := Some(parent))],
       rank := Rerank(g, g.edges[id].child))
  }

  /** The edge may enter the child list: the parent has a driver that looks after its children, the
      role is one the driver function accepts, and the child does not reach the parent. */
  ghost predicate Linkable(g: Graph, parent: NodeId, b: NodeId, role: Role)
    requires Valid(g)
  {
    && parent in g.nodes && b in g.nodes && g.nodes[parent].drv && g.nodes[parent].hook == None
    && ValidRole(role) && parent !in Reach(g, b)
  }

  lemma LinkValid(g: Graph, id: EdgeId, parent: NodeId)
    requires Valid(g) && id in g.edges && g.edges[id].owner == None && g.edges[id].child in g.nodes
    requires Linkable(g, parent, g.edges[id].child, g.edges[id].role)
    ensures Valid(LinkShape(g, id, parent))
  {
    var h := LinkShape(g, id, parent);
    var b := g.edges[id].child;
    forall x | x in h.edges
      ensures ValidEdge(h, x) && Falls(h, x)
    {
      assert ValidEdge(g, x);
      if x == id {
        RerankFalls(g, b, parent, b);
      } else if g.edges[x].owner.Some? {
        RerankFalls(g, b, g.edges[x].owner.value, g.edges[x].child);
      }
    }
    forall y | y in h.nodes
      ensures ValidNode(h, y)
    {
      assert ValidNode(g, y);
    }
  }

  lemma LinkConsistent(s: Block, id: EdgeId, parent: NodeId)
    requires Consistent(s) && id in s.g.edges && s.g.edges[id].owner == None && s.g.edges[id].child in s.g.nodes
    requires Linkable(s.g, parent, s.g.edges[id].child, s.g.edges[id].role)
    ensures Consistent(Block(LinkShape(s.g, id, parent), s.p))
  {
    var h := LinkShape(s.g, id, parent);
    LinkValid(s.g, id, parent);
    forall x: EdgeId, y: EdgeId | Siblings(h, x, y, {})
      ensures Fits(s.p, x, y)
    {
      assert Siblings(s.g, x, y, {});
    }
  }

  lemma LinkSound(s: Block, id: EdgeId, parent: NodeId)
    requires Sound(s) && id in s.g.edges && s.g.edges[id].owner == None && s.g.edges[id].child in s.g.nodes
    requires Linkable(s.g, parent, s.g.edges[id].child, s.g.edges[id].role)
    requires s.p[id].use == ChildPerm(s.g.nodes[parent].flags, s.g.edges[id].role,
                                      s.g.nodes[s.g.edges[id].child].forceShare, NodeUse(s.g, s.p, parent, {}))
    ensures Sound(Block(LinkShape(s.g, id, parent), s.p))
  {
    var g, p := s.g, s.p;
    var h := LinkShape(g, id, parent);
    LinkConsistent(s, id, parent);
    forall y | y in h.nodes
      ensures Tight(h, p, y)
    {
      assert Tight(g, p, y) && ValidNode(g, y);
      if y == parent {
        LinkTightParent(s, id, parent);
      } else {
        forall x | x in h.nodes[y].children
          ensures x in g.nodes[y].children && SameEdge(g, h, p, p, x)
        {
          EdgeEnds(g, x);
        }
        TightCarry(g, h, p, p, y);
      }
    }
  }

  lemma LinkTightParent(s: Block, id: EdgeId, parent: NodeId)
    requires Sound(s) && id in s.g.edges && s.g.edges[id].owner == None && s.g.edges[id].child in s.g.nodes
    requires Linkable(s.g, parent, s.g.edges[id].child, s.g.edges[id].role)
    requires s.p[id].use == ChildPerm(s.g.nodes[parent].flags, s.g.edges[id].role,
                                      s.g.nodes[s.g.edges[id].child].forceShare, NodeUse(s.g, s.p, parent, {}))
    ensures Valid(LinkShape(s.g, id, parent)) && Tight(LinkShape(s.g, id, parent), s.p, parent)
  {
    var g, p := s.g, s.p;
    var h := LinkShape(g, id, parent);
    LinkValid(g, id, parent);
    var u := NodeUse(g, p, parent, {});
    assert Tight(g, p, parent);
    forall k | 0 <= k < |h.nodes[parent].children|
      ensures CoversAt(h, p, parent, k, u)
    {
      ChildEdge(h, parent, k);
      if k > 0 {
        ChildEdge(g, parent, k - 1);
        assert CoversAt(g, p, parent, k - 1, u);
      }
    }
  }

  /** bdrv_attach_child */
  function AttachChild(s: Block, id: EdgeId, parent: NodeId, c: Edge): (Block, bool)
    requires Consistent(s) && id !in s.g.edges && c.owner == None && c.child in s.g.nodes
    requires Linkable(s.g, parent, c.child, c.role)
  {
    var u := ChildPerm(s.g.nodes[parent].flags, c.role, s.g.nodes[c.child].forceShare, NodeUse(s.g, s.p, parent, {}));
    var (t, ok) := Attach(s, id, c, u);
    AttachKeepsCompat(s, id, c, u);
    if ok then (Block(LinkShape(t.g, id, parent), t.p), true) else (t, false)
  }

  /** bdrv_attach_child on any consistent graph: the new edge, owned by `parent` and with what
      `parent` wants of it, enters both lists, or nothing changes. */
  lemma AttachChildKeepsCompat(s: Block, id: EdgeId, parent: NodeId, c: Edge)
    requires Consistent(s) && id !in s.g.edges && c.owner == None && c.child in s.g.nodes
    requires Linkable(s.g, parent, c.child, c.role)
    ensures var (t, ok) := AttachChild(s, id, parent, c);
            && Consistent(t) && (!ok ==> t == s)
            && (ok ==>
                  && t.g.edges == s.g.edges[id := c.(owner := Some(parent))] && t.g.nodes.Keys == s.g.nodes.Keys
                  && t.g.nodes[parent].children == [id] + s.g.nodes[parent].children
                  && t.g.nodes[c.child].parents == [id] + s.g.nodes[c.child].parents
                  && t.p[id].use == Wanted(t.g, id, NodeUse(s.g, s.p, parent, {})))
  {
    var u := ChildPerm(s.g.nodes[parent].flags, c.role, s.g.nodes[c.child].forceShare, NodeUse(s.g, s.p, parent, {}));
    var (t, ok) := Attach(s, id, c, u);
    AttachKeepsCompat(s, id, c, u);
    if ok {
      AttachExact(s, id, c, u);
      LinkConsistent(t, id, parent);
    }
  }

  lemma AttachChildSound(s: Block, id: EdgeId, parent: NodeId, c: Edge)
    requires Sound(s) && id !in s.g.edges && c.owner == None && c.child in s.g.nodes
    requires Linkable(s.g, parent, c.child, c.role)
    ensures Sound(AttachChild(s, id, parent, c).0)
  {
    var g, p, b := s.g, s.p, c.child;
    var u := ChildPerm(g.nodes[parent].flags, c.role, g.nodes[b].forceShare, NodeUse(g, p, parent, {}));
    var (t, ok) := Attach(s, id, c, u);
    AttachSound(s, id, c, u);
    AttachKeepsCompat(s, id, c, u);
    if ok {
      AttachExact(s, id, c, u);
      AttachParentUse(s, id, c, u, parent);
      LinkSound(t, id, parent);
    }
  }

  /** The parent's own cumulative use is not touched by attaching below it. */
  lemma AttachParentUse(s: Block, id: EdgeId, c: Edge, u: Use, y: NodeId)
    requires Consistent(s) && id !in s.g.edges && c.owner == None && c.child in s.g.nodes && Sharing(u)
    requires y in s.g.nodes && y !in Reach(s.g, c.child) && Attach(s, id, c, u).1
    ensures var t := Attach(s, id, c, u).0;
            Valid(t.g) && ValidState(t.g, t.p) && y in t.g.nodes && NodeUse(t.g, t.p, y, {}) == NodeUse(s.g, s.p, y, {})
  {
    var g, p, b := s.g, s.p, c.child;
    AttachKeepsCompat(s, id, c, u);
    AttachExact(s, id, c, u);
    var q0 := CheckUpdate(g, p, b, u, {}).state;
    var h, q := AttachShape(g, id, c), q0[id := EdgePerm(u, None)];
    SetNodeAt(h, q, b);
    assert ValidNode(g, y);
    forall x | x in g.nodes[y].parents
      ensures q[x].use == p[x].use
    {
      CheckUpdateOrigin(g, p, b, u, {}, x);
      if Below(g, b, x) {
        ReachClosed(g, b, x);
      }
    }
    CumulativeSame(p, Attach(s, id, c, u).0.p, g.nodes[y].parents, {}, {});
  }
}
