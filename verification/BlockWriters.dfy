/** Writers of read-only nodes: bdrv_check_perm refuses them, and no operation on the graph lets one
    in by another way. */
module BlockWriters {
  import opened Basics
  import opened BlockPerm
  import opened BlockGraph
  import opened BlockUpdate
  import opened BlockLoosen
  import opened BlockOps
  import opened BlockRewire
  import opened BlockReplace
  import opened BlockInactivate
  import opened BlockRuns

  predicate Writes(u: Use) {
    Write in u.perm || WriteUnchanged in u.perm
  }

  /** A node that never refuses less than it accepts: its size is aligned, and its driver's own check,
      if it has one, accepts no use at all and everything looser than what it accepts */
  ghost predicate Agreeable(n: Node) {
    && n.aligned
    && (n.hook.Some? ==>
          && NOTHING in n.hook.value
          && forall u, v {:trigger Looser(u, v)} :: v in n.hook.value && Looser(u, v) ==> u in n.hook.value)
  }

  /** Nobody writes to the node if it is read-only or inactive; and an agreeable node agrees to what
      its parents use. */
  ghost predicate ProtectedAt(g: Graph, p: State, b: NodeId)
    requires Valid(g) && ValidState(g, p) && b in g.nodes
  {
    && (Writes(NodeUse(g, p, b, {})) ==> Writable(g.nodes[b].flags))
    && (Agreeable(g.nodes[b]) ==> TakesUse(g.nodes[b], NodeUse(g, p, b, {})))
  }

  ghost predicate Protected(s: Block)
    requires Valid(s.g) && ValidState(s.g, s.p)
  {
    forall b {:trigger ProtectedAt(s.g, s.p, b)} :: b in s.g.nodes ==> ProtectedAt(s.g, s.p, b)
  }

  lemma ExactProtected(g: Graph, p: State, b: NodeId)
    requires Valid(g) && ValidState(g, p) && b in g.nodes && Exact(g, p, b, {})
    ensures ProtectedAt(g, p, b)
  {
  }

  /** A node stays protected while its use does not grow. */
  lemma LessProtected(g: Graph, p: State, h: Graph, q: State, b: NodeId)
    requires Valid(g) && ValidState(g, p) && Valid(h) && ValidState(h, q) && b in g.nodes && b in h.nodes
    requires ProtectedAt(g, p, b) && Likewise(g.nodes[b], h.nodes[b])
    requires Looser(NodeUse(h, q, b, {}), NodeUse(g, p, b, {}))
    ensures ProtectedAt(h, q, b)
  {
  }

  /** Two nodes that refuse the same uses */
  predicate Likewise(n: Node, m: Node) {
    m == n.(children := m.children, parents := m.parents)
  }

  lemma SameUse(g: Graph, p: State, q: State, b: NodeId)
    requires Valid(g) && ValidState(g, p) && ValidState(g, q) && b in g.nodes
    requires forall x :: x in g.nodes[b].parents ==> x in p && x in q && p[x].use == q[x].use
    ensures NodeUse(g, p, b, {}) == NodeUse(g, q, b, {})
  {
    assert ValidNode(g, b);
    CumulativeSame(p, q, g.nodes[b].parents, {}, {});
  }

  lemma SameUsesUse(g: Graph, p: State, q: State, b: NodeId)
    requires Valid(g) && ValidState(g, p) && ValidState(g, q) && b in g.nodes && SameUses(p, q)
    ensures NodeUse(g, p, b, {}) == NodeUse(g, q, b, {})
  {
    assert ValidNode(g, b);
    SameUse(g, p, q, b);
  }

  // ----- bdrv_child_try_set_perm -----

  lemma TrySetProtected(s: Block, e: EdgeId, u: Use)
    requires Consistent(s) && Protected(s) && e in s.g.edges && Sharing(u)
    ensures var t := TrySet(s, e, u).0; ValidState(t.g, t.p) && Protected(t)
  {
    var g, p := s.g, s.p;
    TrySetKeepsCompat(s, e, u);
    var r := CheckEdge(g, p, e, u, {});
    if r.verdict != Granted {
      CheckEdgeThenAbort(g, p, e, u, {});
    } else {
      CommitEdge(g, p, e, u);
      var t := SetEdge(g, r.state, e, u);
      forall y | y in g.nodes
        ensures ProtectedAt(g, t, y)
      {
        assert ProtectedAt(g, p, y);
        CheckedProtected(g, p, e, u, y);
        SameUsesUse(g, r.state, t, y);
      }
    }
  }

  lemma CheckedProtected(g: Graph, p: State, e: EdgeId, u: Use, y: NodeId)
    requires Valid(g) && ValidState(g, p) && e in g.edges && Sharing(u) && y in g.nodes && ProtectedAt(g, p, y)
    requires CheckEdge(g, p, e, u, {}).verdict == Granted
    ensures ProtectedAt(g, CheckEdge(g, p, e, u, {}).state, y)
  {
    EdgeEnds(g, e);
    var b, q := g.edges[e].child, CheckEdge(g, p, e, u, {}).state;
    if y in Reach(g, b) {
      ReachRank(g, b, y);
      CheckEdgeExact(g, p, e, u, {}, {}, y);
      ExactProtected(g, q, y);
    } else {
      assert ValidNode(g, y);
      forall x | x in g.nodes[y].parents
        ensures q[x].use == p[x].use
      {
        CheckEdgeOrigin(g, p, e, u, {}, x);
        if Below(g, b, x) {
          ReachClosed(g, b, x);
        }
      }
      SameUse(g, p, q, y);
    }
  }

  /** A request that is granted is one that every node below the edge agrees to, under the cumulative
      use it then has. */
  lemma GrantedEverywhere(s: Block, e: EdgeId, u: Use, y: NodeId)
    requires Consistent(s) && e in s.g.edges && Sharing(u) && y in s.g.nodes
    requires s.g.edges[e].child in s.g.nodes && y in Reach(s.g, s.g.edges[e].child)
    requires CheckEdge(s.g, s.p, e, u, {}).verdict == Granted
    ensures var t := TrySet(s, e, u).0;
            ValidState(t.g, t.p) && t.p[e].use == u && TakesUse(t.g.nodes[y], NodeUse(t.g, t.p, y, {}))
  {
    var g, p := s.g, s.p;
    TrySetKeepsCompat(s, e, u);
    EdgeEnds(g, e);
    ReachRank(g, g.edges[e].child, y);
    CheckEdgeExact(g, p, e, u, {}, {}, y);
    CommitEdge(g, p, e, u);
    SameUsesUse(g, CheckEdge(g, p, e, u, {}).state, SetEdge(g, CheckEdge(g, p, e, u, {}).state, e, u), y);
  }

  /** A request that clashes with no other parent and, joined with what they use, takes nothing new of
      the node and unshares nothing */
  ghost predicate Loosens(s: Block, e: EdgeId, u: Use)
    requires Consistent(s) && e in s.g.edges && s.g.edges[e].child in s.g.nodes
  {
    var b := s.g.edges[e].child;
    assert ValidNode(s.g, b);
    && !Conflicts(s.p, s.g.nodes[b].parents, {e}, u)
    && Looser(Join(u, NodeUse(s.g, s.p, b, {e})), NodeUse(s.g, s.p, b, {}))
  }

  /** A failure is kept from the caller only if the request would have loosened the use of the node,
      and always then if children are covered: no node below reports a tightening either. */
  lemma HiddenExactly(s: Block, e: EdgeId, u: Use)
    requires Consistent(s) && e in s.g.edges && Sharing(u) && s.g.edges[e].child in s.g.nodes
    requires CheckEdge(s.g, s.p, e, u, {}).verdict != Granted
    ensures !TrySet(s, e, u).1 ==> Loosens(s, e, u)
    ensures Sound(s) ==> (!TrySet(s, e, u).1 <==> Loosens(s, e, u))
  {
    var g, p, b := s.g, s.p, s.g.edges[e].child;
    assert {} + {e} == {e} && ValidNode(g, b);
    var w := Join(u, NodeUse(g, p, b, {e}));
    assert CheckEdge(g, p, e, u, {}) == CheckUpdate(g, p, b, u, {e});
    if !Conflicts(p, g.nodes[b].parents, {e}, u) {
      assert CheckUpdate(g, p, b, u, {e}) == CheckNode(g, p, b, w, {e});
      if Sound(s) && Looser(w, NodeUse(g, p, b, {})) {
        LoosenNode(g, p, b, w, {e});
      }
    }
  }

  // ----- settling a node, detaching -----

  lemma SettleProtected(s: Block, b: NodeId)
    requires Consistent(s) && Protected(s) && b in s.g.nodes
    ensures var t := Settle(s, b).0; t.g == s.g && ValidState(t.g, t.p) && Protected(t)
  {
    var g, p := s.g, s.p;
    var u := NodeUse(g, p, b, {});
    var r := CheckNode(g, p, b, u, {});
    if r.verdict != Granted {
      CheckNodeThenAbort(g, p, b, u, {});
    } else {
      CommitNode(g, p, b, u);
      var t := SetNode(g, r.state, b, u);
      forall y | y in g.nodes
        ensures ProtectedAt(g, t, y)
      {
        assert ProtectedAt(g, p, y);
        if y in Reach(g, b) {
          assert Exact(g, r.state, y, {});
          ExactProtected(g, r.state, y);
        } else {
          CheckNodeElsewhere(g, p, b, u, y);
          assert ValidNode(g, y);
          SameUse(g, p, r.state, y);
        }
        SameUsesUse(g, r.state, t, y);
      }
    }
  }

  lemma DetachProtected(s: Block, e: EdgeId)
    requires Consistent(s) && Protected(s) && e in s.g.edges
    ensures var t := Detach(s, e).0; Valid(t.g) && ValidState(t.g, t.p) && Protected(t)
  {
    EdgeEnds(s.g, e);
    DetachLeavesProtected(s, e);
    SettleProtected(Block(DetachShape(s.g, e), s.p - {e}), s.g.edges[e].child);
  }

  lemma DetachLeavesProtected(s: Block, e: EdgeId)
    requires Consistent(s) && Protected(s) && e in s.g.edges
    ensures var t := Block(DetachShape(s.g, e), s.p - {e}); Consistent(t) && Protected(t)
  {
    var g, p := s.g, s.p;
    var h, q := DetachShape(g, e), p - {e};
    DetachLeavesConsistent(s, e);
    forall y | y in h.nodes
      ensures ProtectedAt(h, q, y)
    {
      assert ProtectedAt(g, p, y) && ValidNode(g, y);
      CumulativeFewer(p, q, g.nodes[y].parents, {e});
      LessProtected(g, p, h, q, y);
    }
  }

  // ----- attaching -----

  lemma AttachProtected(s: Block, id: EdgeId, c: Edge, u: Use)
    requires Consistent(s) && Protected(s) && id !in s.g.edges && c.owner == None && c.child in s.g.nodes && Sharing(u)
    ensures var t := Attach(s, id, c, u).0; Consistent(t) && Protected(t)
  {
    var g, p, b := s.g, s.p, c.child;
    AttachKeepsCompat(s, id, c, u);
    var r := CheckUpdate(g, p, b, u, {});
    if r.verdict == Granted {
      var h, q := AttachShape(g, id, c), r.state[id := EdgePerm(u, None)];
      AttachExact(s, id, c, u);
      SetNodeAt(h, q, b);
      var t := SetNode(h, q, b, NodeUse(h, q, b, {}));
      forall y | y in h.nodes
        ensures ProtectedAt(h, t, y)
      {
        if y in Reach(h, b) {
          assert Exact(h, q, y, {});
          ExactProtected(h, q, y);
        } else {
          AttachElsewhere(s, id, c, u, y);
        }
        SameUsesUse(h, q, t, y);
      }
    }
  }

  lemma AttachElsewhere(s: Block, id: EdgeId, c: Edge, u: Use, y: NodeId)
    requires Consistent(s) && Protected(s) && id !in s.g.edges && c.owner == None && c.child in s.g.nodes && Sharing(u)
    requires CheckUpdate(s.g, s.p, c.child, u, {}).verdict == Granted && y in s.g.nodes && y !in Reach(s.g, c.child)
    ensures var h, q := AttachShape(s.g, id, c), CheckUpdate(s.g, s.p, c.child, u, {}).state[id := EdgePerm(u, None)];
            Valid(h) && ValidState(h, q) && ProtectedAt(h, q, y)
  {
    var g, p, b := s.g, s.p, c.child;
    var q0 := CheckUpdate(g, p, b, u, {}).state;
    var h, q := AttachShape(g, id, c), q0[id := EdgePerm(u, None)];
    AttachValid(g, id, c);
    AttachState(g, q0, id, c, u);
    assert ProtectedAt(g, p, y) && ValidNode(g, y);
    forall x | x in g.nodes[y].parents
      ensures p[x].use == q[x].use
    {
      CheckUpdateOrigin(g, p, b, u, {}, x);
      if Below(g, b, x) {
        ReachClosed(g, b, x);
      }
    }
    CumulativeSame(p, q, g.nodes[y].parents, {}, {});
    LessProtected(g, p, h, q, y);
  }

  lemma AttachChildProtected(s: Block, id: EdgeId, parent: NodeId, c: Edge)
    requires Consistent(s) && Protected(s) && id !in s.g.edges && c.owner == None && c.child in s.g.nodes
    requires Linkable(s.g, parent, c.child, c.role)
    ensures var t := AttachChild(s, id, parent, c).0; Consistent(t) && Protected(t)
  {
    var u := ChildPerm(s.g.nodes[parent].flags, c.role, s.g.nodes[c.child].forceShare, NodeUse(s.g, s.p, parent, {}));
    AttachChildKeepsCompat(s, id, parent, c);
    AttachKeepsCompat(s, id, c, u);
    AttachProtected(s, id, c, u);
    var (a, ok) := Attach(s, id, c, u);
    if ok {
      var h := LinkShape(a.g, id, parent);
      forall y | y in h.nodes
        ensures ProtectedAt(h, a.p, y)
      {
        assert ProtectedAt(a.g, a.p, y) && ValidNode(a.g, y);
        LessProtected(a.g, a.p, h, a.p, y);
      }
    }
  }

  // ----- bdrv_replace_node -----

  lemma ReplaceProtected(s: Block, from: NodeId, to: NodeId)
    requires Consistent(s) && Protected(s) && from in s.g.nodes && to in s.g.nodes
    ensures var t := Replace(s, from, to).0; Valid(t.g) && ValidState(t.g, t.p) && Protected(t)
  {
    ReplaceKeepsCompat(s, from, to);
    var (t, ok) := Replace(s, from, to);
    if ok {
      var h, q := RedirectShape(s.g, MovedEdges(s.g, from, to), to), ReplaceCheck(s, from, to).state;
      ReplaceExact(s, from, to);
      ReplaceNoBackups(s, from, to);
      forall y | y in t.g.nodes
        ensures ProtectedAt(t.g, t.p, y)
      {
        if y in Reach(h, to) {
          assert Exact(h, q, y, {});
          ExactProtected(h, q, y);
        } else {
          ReplaceElsewhereProtected(s, from, to, y);
        }
        SameUsesUse(h, q, t.p, y);
      }
    }
  }

  lemma ReplaceElsewhereProtected(s: Block, from: NodeId, to: NodeId, y: NodeId)
    requires ReplaceChecked(s, from, to) && Protected(s) && y in s.g.nodes && y !in Reach(s.g, to)
    ensures var h, q := RedirectShape(s.g, MovedEdges(s.g, from, to), to), ReplaceCheck(s, from, to).state;
            Valid(h) && ValidState(h, q) && ProtectedAt(h, q, y)
  {
    var g, p := s.g, s.p;
    var moved := MovedEdges(g, from, to);
    var h, q := RedirectShape(g, moved, to), ReplaceCheck(s, from, to).state;
    RedirectUse(s, from, to, q, y);
    assert ProtectedAt(g, p, y);
    ReplaceOuterUse(s, from, to, y);
    LessProtected(g, p, h, q, y);
  }

  // ----- runs -----

  lemma ApplyProtected(s: Block, op: Op)
    requires Consistent(s) && Protected(s) && Allowed(s, op) && !op.InactivateNodes? && Apply(s, op).Goes?
    ensures Consistent(Apply(s, op).s) && Protected(Apply(s, op).s)
  {
    ApplyConsistent(s, op);
    match op
    case NewNode(id, n) => AddedProtected(s, id, n);
    case SetPerm(e, u) => TrySetProtected(s, e, u);
    case Refresh(e) => TrySetProtected(s, e, RefreshUse(s, e));
    case AttachRoot(e, c, u) => AttachProtected(s, e, c, u);
    case AttachBelow(e, parent, c) => AttachChildProtected(s, e, parent, c);
    case DetachEdge(e) => DetachProtected(s, e);
    case ReplaceNode(from, to) => ReplaceProtected(s, from, to);
  }

  lemma AddedProtected(s: Block, id: NodeId, n: Node)
    requires Consistent(s) && Protected(s) && id !in s.g.nodes && Unlinked(n) && Consistent(Added(s, id, n))
    ensures Protected(Added(s, id, n))
  {
    var h := Added(s, id, n).g;
    forall y | y in h.nodes
      ensures ProtectedAt(h, s.p, y)
    {
      if y != id {
        assert ProtectedAt(s.g, s.p, y);
      }
    }
  }

  /** After any run of operations other than inactivation, nobody has write access to a node that is
      read-only. */
  lemma {:induction false} NoWriterOfReadOnly(states: seq<Block>, ops: seq<Op>)
    requires Run(states, ops) && forall k :: 0 <= k < |ops| ==> !ops[k].InactivateNodes?
    ensures Consistent(states[|ops|]) && Protected(states[|ops|])
  {
    if |ops| > 0 {
      var n := |ops| - 1;
      NoWriterOfReadOnly(states[..n + 1], ops[..n]);
      assert Step(states[n], ops[n], states[n + 1]);
      ApplyProtected(states[n], ops[n]);
    }
  }
}
