/** Loosening where every node is agreeable: it is granted at every depth, and no edge ends up with
    more than it had. */
module BlockShrink {
  import opened Basics
  import opened BlockPerm
  import opened BlockGraph
  import opened BlockUpdate
  import opened BlockLoosen
  import opened BlockOps
  import opened BlockInactivate
  import opened BlockWriters

  /** No edge has more in `q` than in `p`. */
  ghost predicate Shrinks(p: State, q: State) {
    p.Keys == q.Keys && forall x {:trigger q[x]} :: x in p ==> Looser(q[x].use, p[x].use)
  }

  lemma ShrinksOn(p: State, q: State, r: State)
    requires Shrinks(p, q) && Shrinks(q, r)
    ensures Shrinks(p, r)
  {
    forall x | x in p
      ensures Looser(r[x].use, p[x].use)
    {
      assert Looser(q[x].use, p[x].use);
    }
  }

  lemma {:induction false} CumulativeShrinks(p: State, q: State, list: seq<EdgeId>)
    requires Shrinks(p, q) && forall e :: e in list ==> e in p
    ensures Looser(Cumulative(q, list, {}), Cumulative(p, list, {}))
  {
    if list != [] {
      assert Looser(q[list[0]].use, p[list[0]].use);
      CumulativeShrinks(p, q, list[1..]);
    }
  }

  lemma UseShrinks(g: Graph, p: State, q: State, b: NodeId)
    requires Valid(g) && ValidState(g, p) && ValidState(g, q) && Shrinks(p, q) && b in g.nodes
    ensures Looser(NodeUse(g, q, b, {}), NodeUse(g, p, b, {}))
  {
    assert ValidNode(g, b);
    CumulativeShrinks(p, q, g.nodes[b].parents);
  }

  ghost predicate Agrees(g: Graph, p: State, b: NodeId)
    requires Valid(g) && ValidState(g, p) && b in g.nodes
  {
    Agreeable(g.nodes[b]) && TakesUse(g.nodes[b], NodeUse(g, p, b, {}))
  }

  /** Every node agrees to its use, and to any that is looser. */
  ghost predicate AllAgree(g: Graph, p: State)
    requires Valid(g) && ValidState(g, p)
  {
    forall b {:trigger Agrees(g, p, b)} :: b in g.nodes ==> Agrees(g, p, b)
  }

  ghost predicate AllAgreeable(g: Graph) {
    forall b {:trigger Agreeable(g.nodes[b])} :: b in g.nodes ==> Agreeable(g.nodes[b])
  }

  lemma ProtectedAgree(s: Block)
    requires Valid(s.g) && ValidState(s.g, s.p) && Protected(s) && AllAgreeable(s.g)
    ensures AllAgree(s.g, s.p)
  {
    forall b | b in s.g.nodes
      ensures Agrees(s.g, s.p, b)
    {
      assert ProtectedAt(s.g, s.p, b) && Agreeable(s.g.nodes[b]);
    }
  }

  lemma AgreeShrinks(g: Graph, p: State, q: State)
    requires Valid(g) && ValidState(g, p) && ValidState(g, q) && Shrinks(p, q) && AllAgree(g, p)
    ensures AllAgree(g, q)
  {
    forall b | b in g.nodes
      ensures Agrees(g, q, b)
    {
      assert Agrees(g, p, b);
      UseShrinks(g, p, q, b);
    }
  }

  // ----- the recursion -----

  /** The children of a node reach no further than it does. */
  lemma ReachChild(g: Graph, b: NodeId, k: nat)
    requires Valid(g) && b in g.nodes && g.nodes[b].drv && k < |g.nodes[b].children|
    ensures g.nodes[b].children[k] in g.edges && g.edges[g.nodes[b].children[k]].child in g.nodes
    ensures Reach(g, g.edges[g.nodes[b].children[k]].child) <= Reach(g, b)
  {
    ReachFromChild(g, b, 0, k);
  }

  /** `q` is an assignment of permissions that everybody could live with: no two parents of a node clash,
      every node agrees, and below `b` children have at least what is wanted of them. */
  ghost predicate Bound(g: Graph, q: State, b: NodeId)
    requires Valid(g) && b in g.nodes
  {
    ValidState(g, q) && Compat(g, q, {}) && AllAgree(g, q) && TightBelow(g, q, b)
  }

  lemma {:induction false} CumulativeLess(p: State, q: State, list: seq<EdgeId>, skip: set<EdgeId>)
    requires Shrinks(q, p) && forall e :: e in list ==> e in p
    ensures Looser(Cumulative(p, list, skip), Cumulative(q, list, {}))
  {
    if list != [] {
      assert Looser(p[list[0]].use, q[list[0]].use);
      CumulativeLess(p, q, list[1..], skip);
    }
  }

  /** A request is granted, at every depth, if there is an assignment that everybody could live with and
      that is nowhere less strict than the request and than what is in force. */
  lemma {:induction false} BoundEdge(g: Graph, p: State, q: State, e: EdgeId, u: Use, skip: set<EdgeId>)
    requires Valid(g) && ValidState(g, p) && e in g.edges && Sharing(u) && g.edges[e].child in g.nodes
    requires Bound(g, q, g.edges[e].child) && Shrinks(q, p) && Looser(u, q[e].use)
    ensures var r := CheckEdge(g, p, e, u, skip); r.verdict == Granted && Shrinks(q, r.state)
    decreases g.rank[g.edges[e].child], 3, 0
  {
    var b := g.edges[e].child;
    var parents := g.nodes[b].parents;
    EdgeEnds(g, e);
    assert ValidNode(g, b);
    forall x | x in parents && x !in skip + {e}
      ensures Compatible(u, p[x].use)
    {
      assert Siblings(g, e, x, {}) && Siblings(g, x, e, {}) && Fits(q, e, x) && Fits(q, x, e);
      assert Looser(p[x].use, q[x].use);
    }
    var w := Join(u, NodeUse(g, p, b, skip + {e}));
    CumulativeLess(p, q, parents, skip + {e});
    CumulativeRecord(q, q, parents, {}, e, q[e].use);
    JoinedLess(g, p, q, b, e, u, skip);
    BoundNode(g, p, q, b, w, skip + {e});
    assert CheckUpdate(g, p, b, u, skip + {e}) == CheckNode(g, p, b, w, skip + {e});
  }

  lemma JoinedLess(g: Graph, p: State, q: State, b: NodeId, e: EdgeId, u: Use, skip: set<EdgeId>)
    requires Valid(g) && ValidState(g, p) && ValidState(g, q) && b in g.nodes && e in g.nodes[b].parents
    requires Shrinks(q, p) && e in q && Looser(u, q[e].use)
    ensures Looser(Join(u, NodeUse(g, p, b, skip + {e})), NodeUse(g, q, b, {}))
  {
    assert ValidNode(g, b);
    CumulativeLess(p, q, g.nodes[b].parents, skip + {e});
    CumulativeRecord(q, q, g.nodes[b].parents, {}, e, q[e].use);
  }

  lemma {:induction false} BoundNode(g: Graph, p: State, q: State, b: NodeId, u: Use, skip: set<EdgeId>)
    requires Valid(g) && ValidState(g, p) && b in g.nodes && Sharing(u)
    requires Bound(g, q, b) && Shrinks(q, p) && Looser(u, NodeUse(g, q, b, {}))
    ensures var r := CheckNode(g, p, b, u, skip); r.verdict == Granted && Shrinks(q, r.state)
    decreases g.rank[b], 1, 0
  {
    var n := g.nodes[b];
    assert Agrees(g, q, b);
    if n.drv && n.hook.None? {
      assert Tight(g, q, b);
      CoversLooser(g, q, b, 0, NodeUse(g, q, b, {}), u);
      BoundChildren(g, p, q, b, 0, u, skip);
    }
  }

  lemma {:induction false} BoundChildren(g: Graph, p: State, q: State, b: NodeId, i: nat, u: Use, skip: set<EdgeId>)
    requires Valid(g) && ValidState(g, p) && b in g.nodes && i <= |g.nodes[b].children| && Sharing(u)
    requires g.nodes[b].drv && Bound(g, q, b) && Shrinks(q, p) && Covers(g, q, b, i, u)
    ensures var r := CheckChildren(g, p, b, i, u, skip); r.verdict == Granted && Shrinks(q, r.state)
    decreases g.rank[b], 0, |g.nodes[b].children| - i
  {
    if i < |g.nodes[b].children| {
      ChildEdge(g, b, i);
      ReachChild(g, b, i);
      var e := g.nodes[b].children[i];
      assert CoversAt(g, q, b, i, u);
      forall k | i + 1 <= k < |g.nodes[b].children|
        ensures CoversAt(g, q, b, k, u)
      {
        assert g.nodes[b].children[k] == g.nodes[b].children[k];
      }
      BoundEdge(g, p, q, e, Wanted(g, e, u), skip);
      BoundChildren(g, CheckEdge(g, p, e, Wanted(g, e, u), skip).state, q, b, i + 1, u, skip);
    }
  }

  /** In particular a request that loosens is granted where the permissions in force are such an
      assignment, and no edge anywhere ends up with more than it had. */
  lemma ShrinkEdge(g: Graph, p: State, e: EdgeId, u: Use, skip: set<EdgeId>)
    requires Valid(g) && ValidState(g, p) && e in g.edges && Compat(g, p, {}) && Sharing(u) && AllAgree(g, p)
    requires g.edges[e].child in g.nodes && Looser(u, p[e].use) && TightBelow(g, p, g.edges[e].child)
    ensures var r := CheckEdge(g, p, e, u, skip); r.verdict == Granted && Shrinks(p, r.state)
  {
    BoundEdge(g, p, p, e, u, skip);
  }

  lemma ShrinkNode(g: Graph, p: State, b: NodeId, u: Use, skip: set<EdgeId>)
    requires Valid(g) && ValidState(g, p) && b in g.nodes && Compat(g, p, {}) && Sharing(u) && AllAgree(g, p)
    requires Looser(u, NodeUse(g, p, b, {})) && TightBelow(g, p, b)
    ensures var r := CheckNode(g, p, b, u, skip); r.verdict == Granted && Shrinks(p, r.state)
  {
    BoundNode(g, p, p, b, u, skip);
  }

  // ----- giving up permissions, settling -----

  /** A user that gives up its permissions succeeds. */
  lemma QuitGranted(s: Block, e: EdgeId)
    requires Sound(s) && AllAgree(s.g, s.p) && e in s.g.edges && s.g.edges[e].owner == None
    ensures var (t, err) := TrySet(s, e, NOTHING);
            && !err && t.g == s.g && Sound(t) && t.p.Keys == s.p.Keys && e in t.p
            && t.p[e].use == NOTHING && Shrinks(s.p, t.p) && AllAgree(t.g, t.p)
            && RootsKept(s, t, e)
  {
    var g, p := s.g, s.p;
    EdgeEnds(g, e);
    NothingIsLooser(p[e].use);
    ShrinkEdge(g, p, e, NOTHING, {});
    TrySetKeepsCompat(s, e, NOTHING);
    TrySetSound(s, e, NOTHING);
    CommitEdge(g, p, e, NOTHING);
    var t := TrySet(s, e, NOTHING).0;
    var q := CheckEdge(g, p, e, NOTHING, {}).state;
    assert SameUses(q, t.p);
    AgreeShrinks(g, p, t.p);
    forall x | x in g.edges && g.edges[x].owner == None && x != e
      ensures t.p[x].use == p[x].use
    {
      CheckEdgeOrigin(g, p, e, NOTHING, {}, x);
    }
  }

  /** Users that are not nodes, other than `e`, have what they had. */
  ghost predicate RootsKept(s: Block, t: Block, e: EdgeId) {
    && s.g.edges == t.g.edges && s.p.Keys == t.p.Keys
    && forall x {:trigger t.p[x]} :: x in s.g.edges && x in s.p && s.g.edges[x].owner == None && x != e ==>
         t.p[x].use == s.p[x].use
  }

  /** Settling a node is granted, and its children then have exactly what it wants. */
  lemma SettleGranted(s: Block, b: NodeId)
    requires Sound(s) && AllAgree(s.g, s.p) && b in s.g.nodes
    ensures var t := Settle(s, b).0;
            && t.g == s.g && Sound(t) && Shrinks(s.p, t.p) && AllAgree(t.g, t.p)
            && (s.g.nodes[b].drv ==> Delivered(t.g, t.p, b, NodeUse(s.g, s.p, b, {})))
            && forall x :: x in s.g.edges && s.g.edges[x].owner == None ==> t.p[x].use == s.p[x].use
  {
    var g, p := s.g, s.p;
    var u := NodeUse(g, p, b, {});
    ShrinkNode(g, p, b, u, {});
    SettleSound(s, b);
    SettleConsistent(s, b);
    CommitNode(g, p, b, u);
    var t := Settle(s, b).0;
    var q := CheckNode(g, p, b, u, {}).state;
    assert SameUses(q, t.p);
    AgreeShrinks(g, p, t.p);
    if g.nodes[b].drv {
      CheckNodeDelivers(g, p, b, u, {});
      forall k | 0 <= k < |g.nodes[b].children|
        ensures DeliveredAt(g, t.p, b, k, u)
      {
        ChildEdge(g, b, k);
        assert DeliveredAt(g, q, b, k, u);
      }
    }
    forall x | x in g.edges && g.edges[x].owner == None
      ensures t.p[x].use == p[x].use
    {
      CheckNodeOrigin(g, p, b, u, {}, x);
    }
  }

  /** Taking a parent away leaves every node agreeing. */
  lemma DetachAgrees(s: Block, e: EdgeId)
    requires Sound(s) && AllAgree(s.g, s.p) && e in s.g.edges
    ensures var h, q := DetachShape(s.g, e), s.p - {e};
            Sound(Block(h, q)) && AllAgree(h, q)
  {
    var h, q := DetachShape(s.g, e), s.p - {e};
    DetachLeavesSound(s, e);
    forall b | b in h.nodes
      ensures Agrees(h, q, b)
    {
      assert Agrees(s.g, s.p, b) && ValidNode(s.g, b);
      CumulativeFewer(s.p, q, s.g.nodes[b].parents, {e});
    }
  }

  /** bdrv_detach_child on a sound graph whose nodes agree: the edge is gone, every node below the one that
      lost a parent asks exactly what its remaining parents need, nobody has more than before, and users
      that are not nodes have what they had. */
  lemma DetachSettles(s: Block, e: EdgeId)
    requires Sound(s) && AllAgree(s.g, s.p) && e in s.g.edges
    ensures var (t, tighten) := Detach(s, e);
            && !tighten && Sound(t) && AllAgree(t.g, t.p)
            && t.g.edges == s.g.edges - {e} && t.g.nodes.Keys == s.g.nodes.Keys
            && s.g.edges[e].child in t.g.nodes && ExactBelow(t.g, t.p, s.g.edges[e].child)
            && Shrinks(s.p - {e}, t.p)
            && forall x :: x in t.g.edges && t.g.edges[x].owner == None ==> t.p[x].use == s.p[x].use
  {
    var h, q, c := DetachShape(s.g, e), s.p - {e}, s.g.edges[e].child;
    DetachAgrees(s, e);
    DetachNeverTightens(s, e);
    EdgeEnds(s.g, e);
    SettleGranted(Block(h, q), c);
    SettleExact(Block(h, q), c);
  }

  lemma SettleExact(s: Block, b: NodeId)
    requires Sound(s) && AllAgree(s.g, s.p) && b in s.g.nodes
    ensures var t := Settle(s, b).0;
            t.g == s.g && Sound(t) && ExactBelow(t.g, t.p, b)
  {
    var g, p := s.g, s.p;
    var u := NodeUse(g, p, b, {});
    ShrinkNode(g, p, b, u, {});
    SettleSound(s, b);
    SettleConsistent(s, b);
    CommitNode(g, p, b, u);
    ExactBelowSame(g, CheckNode(g, p, b, u, {}).state, Settle(s, b).0.p, b);
  }
}
