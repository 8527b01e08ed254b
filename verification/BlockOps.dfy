/** The graph operations of block.c built on the permission update, and what every one of them
    keeps: the graph stays acyclic, any two parents of a node stay compatible, no update is left
    half done, and every node's children stay at least as restricted as it wants them. */
module BlockOps {
  import opened Basics
  import opened BlockPerm
  import opened BlockGraph
  import opened BlockUpdate
  import opened BlockLoosen

  datatype Block = Block(g: Graph, p: State)

  ghost predicate AllTight(g: Graph, p: State)
    requires Valid(g) && ValidState(g, p)
  {
    forall y {:trigger Tight(g, p, y)} :: y in g.nodes ==> Tight(g, p, y)
  }

  /** What every operation keeps, on any graph: the lists agree and the graph is acyclic, no update
      is half done, and any two parents of a node are compatible. */
  ghost predicate Consistent(s: Block) {
    Valid(s.g) && ValidState(s.g, s.p) && NoBackups(s.p) && Compat(s.g, s.p, {})
  }

  /** The stronger invariant under which taking a parent away never tightens: every node's children
      are also at least as restricted as the node wants them. */
  ghost predicate Sound(s: Block) {
    Consistent(s) && AllTight(s.g, s.p)
  }

  // ----- bdrv_child_try_set_perm -----

  /** The new graph, and whether the caller is told of an error (a failed attempt that would only
      have loosened restrictions is kept from the caller). */
  function TrySet(s: Block, e: EdgeId, u: Use): (Block, bool)
    requires Valid(s.g) && ValidState(s.g, s.p) && e in s.g.edges && Sharing(u)
  {
    var r := CheckEdge(s.g, s.p, e, u, {});
    if r.verdict != Granted then (s.(p := AbortEdge(s.g, r.state, e)), r.tighten)
    else (s.(p := SetEdge(s.g, r.state, e, u)), false)
  }

  /** A granted check followed by the set: exactly the checked permissions, no backup left. */
  lemma CommitEdge(g: Graph, p: State, e: EdgeId, u: Use)
    requires Valid(g) && ValidState(g, p) && NoBackups(p) && e in g.edges && Sharing(u)
    requires CheckEdge(g, p, e, u, {}).verdict == Granted
    ensures var q := CheckEdge(g, p, e, u, {}).state;
            var t := SetEdge(g, q, e, u);
            SameUses(q, t) && NoBackups(t) && t[e].use == u
  {
    EdgeEnds(g, e);
    var b := g.edges[e].child;
    var q := CheckEdge(g, p, e, u, {}).state;
    forall y | y in Reach(g, b) && y in g.nodes
      ensures Exact(g, q, y, {})
    {
      ReachRank(g, b, y);
      CheckEdgeExact(g, p, e, u, {}, {}, y);
    }
    assert Shares(q[e]);
    SetEdgeAt(g, q, e);
    forall x | x in g.edges
      ensures SetEdge(g, q, e, u)[x].backup == None
    {
      CheckEdgeOrigin(g, p, e, u, {}, x);
    }
  }

  /** bdrv_child_try_set_perm on any graph whose parents are pairwise compatible: either the
      request is in force and the parents of every node are still pairwise compatible, or the
      state is as it was. */
  lemma TrySetKeepsCompat(s: Block, e: EdgeId, u: Use)
    requires Consistent(s) && e in s.g.edges && Sharing(u)
    ensures var (t, err) := TrySet(s, e, u);
            && t.g == s.g && Consistent(t)
            && (t == s || t.p[e].use == u)
            && (err ==> t == s)
  {
    EdgeEnds(s.g, e);
    var r := CheckEdge(s.g, s.p, e, u, {});
    CheckEdgeCompat(s.g, s.p, e, u, {}, {});
    if r.verdict != Granted {
      CheckEdgeThenAbort(s.g, s.p, e, u, {});
    } else {
      CommitEdge(s.g, s.p, e, u);
      CompatSame(s.g, r.state, SetEdge(s.g, r.state, e, u));
    }
  }

  lemma CompatSame(g: Graph, p: State, q: State)
    requires ValidState(g, p) && ValidState(g, q) && SameUses(p, q) && Compat(g, p, {})
    ensures Compat(g, q, {})
  {
    forall a, b | Siblings(g, a, b, {})
      ensures Fits(q, a, b)
    {
      assert Fits(p, a, b);
    }
  }

  /** Requests that keep the owner's children covered: those of users that are not nodes, and
      those at least as strict as the owner wants (bdrv_child_refresh_perms asks for exactly that). */
  ghost predicate Justified(g: Graph, p: State, e: EdgeId, u: Use)
    requires Valid(g) && ValidState(g, p) && e in g.edges
  {
    g.edges[e].owner.Some? ==> g.edges[e].owner.value in g.nodes
                               && Looser(Wanted(g, e, NodeUse(g, p, g.edges[e].owner.value, {})), u)
  }

  lemma TrySetSound(s: Block, e: EdgeId, u: Use)
    requires Sound(s) && e in s.g.edges && Sharing(u) && Justified(s.g, s.p, e, u)
    ensures Sound(TrySet(s, e, u).0)
  {
    var g, p := s.g, s.p;
    EdgeEnds(g, e);
    TrySetKeepsCompat(s, e, u);
    var r := CheckEdge(g, p, e, u, {});
    if r.verdict != Granted {
      CheckEdgeThenAbort(g, p, e, u, {});
    } else {
      var t := SetEdge(g, r.state, e, u);
      CommitEdge(g, p, e, u);
      forall y | y in g.nodes
        ensures Tight(g, t, y)
      {
        assert Tight(g, p, y);
        if g.edges[e].owner == Some(y) {
          TrySetOwner(g, p, e, u);
        } else {
          CheckEdgeTight(g, p, e, u, {}, y);
        }
        TightSame(g, r.state, t, y);
      }
    }
  }

  /** The owner of the edge: only this child edge of it changed, and to something justified. */
  lemma TrySetOwner(g: Graph, p: State, e: EdgeId, u: Use)
    requires Valid(g) && ValidState(g, p) && e in g.edges && Sharing(u) && Justified(g, p, e, u)
    requires g.edges[e].owner.Some? && g.edges[e].owner.value in g.nodes && Tight(g, p, g.edges[e].owner.value)
    requires CheckEdge(g, p, e, u, {}).verdict == Granted
    ensures Tight(g, CheckEdge(g, p, e, u, {}).state, g.edges[e].owner.value)
  {
    EdgeEnds(g, e);
    var y := g.edges[e].owner.value;
    var b := g.edges[e].child;
    var q := CheckEdge(g, p, e, u, {}).state;
    assert ValidNode(g, y);
    forall x | x in g.nodes[y].parents
      ensures q[x].use == p[x].use
    {
      CheckEdgeOrigin(g, p, e, u, {}, x);
      if Below(g, b, x) {
        ReachClosed(g, b, x);
        ReachRank(g, b, y);
      }
    }
    CumulativeSame(p, q, g.nodes[y].parents, {}, {});
    if g.nodes[y].drv {
      var w := NodeUse(g, p, y, {});
      forall k | 0 <= k < |g.nodes[y].children|
        ensures CoversAt(g, q, y, k, w)
      {
        ChildEdge(g, y, k);
        var x := g.nodes[y].children[k];
        assert CoversAt(g, p, y, k, w);
        CheckEdgeOrigin(g, p, e, u, {}, x);
        NotBelow(g, b, x);
      }
    }
  }

  // ----- taking a parent away: bdrv_detach_child and bdrv_replace_child(child, NULL) -----

  /** The edge is gone from the lists at both of its ends. */
  function DetachShape(g: Graph, e: EdgeId): Graph {
    g.(nodes := map b | b in g.nodes :: g.nodes[b].(children := Without(g.nodes[b].children, {e}),
                                                    parents := Without(g.nodes[b].parents, {e})),
       edges := g.edges - {e})
  }

  lemma DetachValid(g: Graph, e: EdgeId)
    requires Valid(g)
    ensures Valid(DetachShape(g, e))
  {
    var h := DetachShape(g, e);
    forall x | x in h.edges
      ensures ValidEdge(h, x) && Falls(h, x)
    {
      assert ValidEdge(g, x) && Falls(g, x);
    }
    forall b | b in h.nodes
      ensures ValidNode(h, b)
    {
      assert ValidNode(g, b);
      WithoutNoDup(g.nodes[b].children, {e});
      WithoutNoDup(g.nodes[b].parents, {e});
    }
  }

  /** Fewer parents use less and share more. */
  lemma {:induction false} CumulativeFewer(p: State, q: State, list: seq<EdgeId>, drop: set<EdgeId>)
    requires forall x :: x in list ==> x in p && (x !in drop ==> x in q && q[x].use == p[x].use)
    ensures Looser(Cumulative(q, Without(list, drop), {}), Cumulative(p, list, {}))
    ensures Cumulative(q, Without(list, drop), {}) == Cumulative(p, list, drop)
  {
    if list != [] {
      CumulativeFewer(p, q, list[1..], drop);
      if list[0] !in drop {
        assert Without(list, drop)[1..] == Without(list[1..], drop);
      } else {
        assert Without(list, drop) == Without(list[1..], drop);
      }
    }
  }

  /** A node stays tight when its use loosens and its remaining child edges are as they were. */
  lemma TightCarry(g: Graph, h: Graph, p: State, q: State, y: NodeId)
    requires Valid(g) && Valid(h) && ValidState(g, p) && ValidState(h, q) && y in g.nodes && y in h.nodes
    requires Tight(g, p, y) && h.nodes[y].drv == g.nodes[y].drv && h.nodes[y].flags == g.nodes[y].flags
    requires Looser(NodeUse(h, q, y, {}), NodeUse(g, p, y, {}))
    requires forall e :: e in h.nodes[y].children ==> e in g.nodes[y].children && SameEdge(g, h, p, q, e)
    ensures Tight(h, q, y)
  {
    if g.nodes[y].drv {
      var u, v := NodeUse(g, p, y, {}), NodeUse(h, q, y, {});
      CoversLooser(g, p, y, 0, u, v);
      forall k | 0 <= k < |h.nodes[y].children|
        ensures CoversAt(h, q, y, k, v)
      {
        ChildEdge(h, y, k);
        var e := h.nodes[y].children[k];
        assert SameEdge(g, h, p, q, e);
        var j :| 0 <= j < |g.nodes[y].children| && g.nodes[y].children[j] == e;
        ChildEdge(g, y, j);
        assert CoversAt(g, p, y, j, v);
      }
    }
  }

  /** What an owner sees of a child edge is the same in both graphs. */
  ghost predicate SameEdge(g: Graph, h: Graph, p: State, q: State, e: EdgeId) {
    && e in g.edges && e in h.edges && e in p && e in q
    && g.edges[e].role == h.edges[e].role
    && g.edges[e].child in g.nodes && h.edges[e].child in h.nodes
    && g.nodes[g.edges[e].child].forceShare == h.nodes[h.edges[e].child].forceShare
    && p[e].use == q[e].use
  }

  lemma DetachLeavesConsistent(s: Block, e: EdgeId)
    requires Consistent(s) && e in s.g.edges
    ensures Consistent(Block(DetachShape(s.g, e), s.p - {e}))
  {
    var g, p := s.g, s.p;
    var h, q := DetachShape(g, e), p - {e};
    DetachValid(g, e);
    forall x | x in q
      ensures Shares(q[x])
    {
      assert Shares(p[x]);
    }
    forall a, b | Siblings(h, a, b, {})
      ensures Fits(q, a, b)
    {
      assert Siblings(g, a, b, {}) && Fits(p, a, b);
    }
  }

  lemma DetachLeavesSound(s: Block, e: EdgeId)
    requires Sound(s) && e in s.g.edges
    ensures Sound(Block(DetachShape(s.g, e), s.p - {e}))
  {
    var g, p := s.g, s.p;
    var h, q := DetachShape(g, e), p - {e};
    DetachLeavesConsistent(s, e);
    forall y | y in h.nodes
      ensures Tight(h, q, y)
    {
      assert Tight(g, p, y) && ValidNode(g, y);
      CumulativeFewer(p, q, g.nodes[y].parents, {e});
      forall x | x in h.nodes[y].children
        ensures x in g.nodes[y].children && SameEdge(g, h, p, q, x)
      {
        EdgeEnds(g, x);
      }
      TightCarry(g, h, p, q, y);
    }
  }

  /** The update of the old node in bdrv_replace_child, and of the node in bdrv_inactivate_recurse:
      check the node's own cumulative use; set it if granted, drop it if not. */
  function Settle(s: Block, b: NodeId): (Block, bool)
    requires Valid(s.g) && ValidState(s.g, s.p) && b in s.g.nodes
  {
    var u := NodeUse(s.g, s.p, b, {});
    var r := CheckNode(s.g, s.p, b, u, {});
    if r.verdict != Granted then (s.(p := AbortNode(s.g, r.state, b)), r.tighten)
    else (s.(p := SetNode(s.g, r.state, b, u)), r.tighten)
  }

  /** Settling a node keeps the graph consistent, whatever the check finds. */
  lemma SettleConsistent(s: Block, b: NodeId)
    requires Consistent(s) && b in s.g.nodes
    ensures Consistent(Settle(s, b).0) && Settle(s, b).0.g == s.g
  {
    var g, p := s.g, s.p;
    var u := NodeUse(g, p, b, {});
    var r := CheckNode(g, p, b, u, {});
    if r.verdict != Granted {
      CheckNodeThenAbort(g, p, b, u, {});
    } else {
      CheckNodeCompat(g, p, b, u, {}, {});
      CommitNode(g, p, b, u);
      CompatSame(g, r.state, SetNode(g, r.state, b, u));
    }
  }

  /** Settling a node of a sound graph never tightens, never meets a sharing conflict, and leaves
      the graph sound. */
  lemma SettleSound(s: Block, b: NodeId)
    requires Sound(s) && b in s.g.nodes
    ensures Sound(Settle(s, b).0) && !Settle(s, b).1
    ensures CheckNode(s.g, s.p, b, NodeUse(s.g, s.p, b, {}), {}).verdict != SharingConflict
  {
    var g, p := s.g, s.p;
    var u := NodeUse(g, p, b, {});
    var r := CheckNode(g, p, b, u, {});
    LoosenNode(g, p, b, u, {});
    SettleConsistent(s, b);
    if r.verdict != Granted {
      CheckNodeThenAbort(g, p, b, u, {});
    } else {
      CommitNode(g, p, b, u);
      var t := SetNode(g, r.state, b, u);
      forall y | y in g.nodes
        ensures Tight(g, t, y)
      {
        assert Tight(g, p, y);
        if y in Reach(g, b) {
          assert Exact(g, r.state, y, {});
          ExactIsTight(g, r.state, y);
        } else {
          CheckNodeElsewhere(g, p, b, u, y);
          TightSame(g, p, r.state, y);
        }
        TightSame(g, r.state, t, y);
      }
    }
  }

  lemma CheckNodeElsewhere(g: Graph, p: State, b: NodeId, u: Use, y: NodeId)
    requires Valid(g) && ValidState(g, p) && b in g.nodes && y in g.nodes && y !in Reach(g, b) && Sharing(u)
    ensures forall x :: x in g.edges && (g.edges[x].child == y || g.edges[x].owner == Some(y)) ==>
                          p[x].use == CheckNode(g, p, b, u, {}).state[x].use
  {
    forall x | x in g.edges && (g.edges[x].child == y || g.edges[x].owner == Some(y))
      ensures p[x].use == CheckNode(g, p, b, u, {}).state[x].use
    {
      CheckNodeOrigin(g, p, b, u, {}, x);
      if Below(g, b, x) {
        ReachClosed(g, b, x);
      }
    }
  }

  lemma CommitNode(g: Graph, p: State, b: NodeId, u: Use)
    requires Valid(g) && ValidState(g, p) && NoBackups(p) && b in g.nodes && u == NodeUse(g, p, b, {})
    requires CheckNode(g, p, b, u, {}).verdict == Granted
    ensures var q := CheckNode(g, p, b, u, {}).state;
            var t := SetNode(g, q, b, u);
            SameUses(q, t) && NoBackups(t) && ExactBelow(g, q, b)
  {
    var q := CheckNode(g, p, b, u, {}).state;
    assert ValidNode(g, b);
    forall x | x in g.nodes[b].parents
      ensures q[x].use == p[x].use
    {
      CheckNodeOrigin(g, p, b, u, {}, x);
      NotBelow(g, b, x);
    }
    CumulativeSame(p, q, g.nodes[b].parents, {}, {});
    forall y | y in Reach(g, b) && y in g.nodes
      ensures Exact(g, q, y, {})
    {
      if y == b {
        if g.nodes[b].drv {
          CheckNodeDelivers(g, p, b, u, {});
        }
      } else {
        CheckNodeExact(g, p, b, u, {}, {}, y);
      }
    }
    SetNodeAt(g, q, b);
    forall x | x in g.edges
      ensures SetNode(g, q, b, u)[x].backup == None
    {
      CheckNodeOrigin(g, p, b, u, {}, x);
    }
  }

  /** bdrv_detach_child: unlink the edge, then settle the node that lost a parent.  The second result
      is tighten_restrictions, which bdrv_replace_child asserts to be false. */
  function Detach(s: Block, e: EdgeId): (Block, bool)
    requires Consistent(s) && e in s.g.edges
  {
    DetachLeavesConsistent(s, e);
    EdgeEnds(s.g, e);
    Settle(Block(DetachShape(s.g, e), s.p - {e}), s.g.edges[e].child)
  }

  lemma DetachKeepsCompat(s: Block, e: EdgeId)
    requires Consistent(s) && e in s.g.edges
    ensures Consistent(Detach(s, e).0) && Detach(s, e).0.g == DetachShape(s.g, e)
  {
    DetachLeavesConsistent(s, e);
    EdgeEnds(s.g, e);
    SettleConsistent(Block(DetachShape(s.g, e), s.p - {e}), s.g.edges[e].child);
  }

  /** The assertion in bdrv_replace_child holds: after a parent is taken away the recursive check
      meets no sharing conflict anywhere below and leaves tighten_restrictions false. */
  lemma DetachNeverTightens(s: Block, e: EdgeId)
    requires Sound(s) && e in s.g.edges
    ensures !Detach(s, e).1 && Sound(Detach(s, e).0)
    ensures var h, q := DetachShape(s.g, e), s.p - {e};
            && Valid(h) && ValidState(h, q) && s.g.edges[e].child in h.nodes
            && CheckNode(h, q, s.g.edges[e].child, NodeUse(h, q, s.g.edges[e].child, {}), {}).verdict != SharingConflict
  {
    DetachLeavesSound(s, e);
    EdgeEnds(s.g, e);
    SettleSound(Block(DetachShape(s.g, e), s.p - {e}), s.g.edges[e].child);
  }
}
