/** Loosening never tightens: why bdrv_replace_child may assert that dropping a parent leaves
    `tighten_restrictions` false. */
module BlockLoosen {
  import opened Basics
  import opened BlockPerm
  import opened BlockGraph
  import opened BlockUpdate

  /** The children of `x` have at least what `x` wants of them.  (They may have more: an update
      that would only loosen is dropped when it fails.) */
  ghost predicate Tight(g: Graph, p: State, x: NodeId)
    requires Valid(g) && ValidState(g, p) && x in g.nodes
  {
    g.nodes[x].drv ==> Covers(g, p, x, 0, NodeUse(g, p, x, {}))
  }

  /** The children from the i-th on have at least what `x` wants under use `u`. */
  ghost predicate Covers(g: Graph, p: State, x: NodeId, i: nat, u: Use)
    requires Valid(g) && ValidState(g, p) && x in g.nodes
  {
    forall k {:trigger g.nodes[x].children[k]} :: i <= k < |g.nodes[x].children| ==> CoversAt(g, p, x, k, u)
  }

  ghost predicate CoversAt(g: Graph, p: State, x: NodeId, k: nat, u: Use)
    requires Valid(g) && ValidState(g, p) && x in g.nodes && k < |g.nodes[x].children|
  {
    ChildEdge(g, x, k);
    var e := g.nodes[x].children[k];
    Looser(Wanted(g, e, u), p[e].use)
  }

  ghost predicate TightBelow(g: Graph, p: State, b: NodeId)
    requires Valid(g) && ValidState(g, p) && b in g.nodes
  {
    forall y {:trigger Tight(g, p, y)} :: y in Reach(g, b) && y in g.nodes ==> Tight(g, p, y)
  }

  lemma ExactIsTight(g: Graph, p: State, x: NodeId)
    requires Valid(g) && ValidState(g, p) && x in g.nodes && Exact(g, p, x, {})
    ensures Tight(g, p, x)
  {
    if g.nodes[x].drv {
      var u := NodeUse(g, p, x, {});
      forall k | 0 <= k < |g.nodes[x].children|
        ensures CoversAt(g, p, x, k, u)
      {
        assert DeliveredAt(g, p, x, k, u);
      }
    }
  }

  /** Tightness of `x` looks only at edges into `x` and out of `x`. */
  lemma TightSame(g: Graph, p: State, q: State, x: NodeId)
    requires Valid(g) && ValidState(g, p) && ValidState(g, q) && x in g.nodes && Tight(g, p, x)
    requires forall e :: e in g.edges && (g.edges[e].child == x || g.edges[e].owner == Some(x)) ==> p[e].use == q[e].use
    ensures Tight(g, q, x)
  {
    assert ValidNode(g, x);
    CumulativeSame(p, q, g.nodes[x].parents, {}, {});
    if g.nodes[x].drv {
      var u := NodeUse(g, p, x, {});
      forall k | 0 <= k < |g.nodes[x].children|
        ensures CoversAt(g, q, x, k, u)
      {
        ChildEdge(g, x, k);
        assert CoversAt(g, p, x, k, u);
      }
    }
  }

  /** A node wants no more of its children under a looser use. */
  lemma CoversLooser(g: Graph, p: State, x: NodeId, i: nat, u: Use, v: Use)
    requires Valid(g) && ValidState(g, p) && x in g.nodes && Covers(g, p, x, i, u) && Looser(v, u)
    ensures Covers(g, p, x, i, v)
  {
    forall k | i <= k < |g.nodes[x].children|
      ensures CoversAt(g, p, x, k, v)
    {
      ChildEdge(g, x, k);
      var e := g.nodes[x].children[k];
      assert CoversAt(g, p, x, k, u) && ValidEdge(g, e);
      ChildPermMonotone(g.nodes[x].flags, g.edges[e].role, g.nodes[g.edges[e].child].forceShare, v, u);
    }
  }

  /** A granted check of edge `e` keeps every node tight, except that the owner of `e` must be
      looked at separately. */
  lemma CheckEdgeTight(g: Graph, p: State, e: EdgeId, u: Use, skip: set<EdgeId>, y: NodeId)
    requires Valid(g) && ValidState(g, p) && e in g.edges && y in g.nodes && Sharing(u)
    requires g.edges[e].child in g.nodes && SkipSplit(g, skip, {}, g.rank[g.edges[e].child] + 1)
    requires CheckEdge(g, p, e, u, skip).verdict == Granted
    requires g.edges[e].owner != Some(y) && (Tight(g, p, y) || y in Reach(g, g.edges[e].child))
    ensures Tight(g, CheckEdge(g, p, e, u, skip).state, y)
  {
    var b := g.edges[e].child;
    var q := CheckEdge(g, p, e, u, skip).state;
    if y in Reach(g, b) {
      CheckEdgeExact(g, p, e, u, skip, {}, y);
      ExactIsTight(g, q, y);
    } else {
      forall x | x in g.edges && (g.edges[x].child == y || g.edges[x].owner == Some(y))
        ensures p[x].use == q[x].use
      {
        CheckEdgeOrigin(g, p, e, u, skip, x);
        if Below(g, b, x) {
          ReachClosed(g, b, x);
        }
      }
      TightSame(g, p, q, y);
    }
  }

  // ----- the recursion -----

  lemma {:induction false} LoosenEdge(g: Graph, p: State, e: EdgeId, u: Use, skip: set<EdgeId>)
    requires Valid(g) && ValidState(g, p) && e in g.edges && Compat(g, p, {}) && Sharing(u)
    requires g.edges[e].child in g.nodes && SkipSplit(g, skip, {}, g.rank[g.edges[e].child] + 1)
    requires Looser(u, p[e].use) && TightBelow(g, p, g.edges[e].child)
    ensures var r := CheckEdge(g, p, e, u, skip); !r.tighten && r.verdict != SharingConflict
    decreases g.rank[g.edges[e].child], 3, 0
  {
    var b := g.edges[e].child;
    var parents := g.nodes[b].parents;
    EdgeEnds(g, e);
    assert ValidNode(g, b);
    forall x | x in parents && x != e
      ensures Compatible(u, p[x].use) && x !in skip
    {
      assert Siblings(g, e, x, {}) && Siblings(g, x, e, {});
      assert Fits(p, e, x) && Fits(p, x, e);
    }
    CumulativeSame(p, p, parents, skip + {e}, {} + {e});
    CumulativeRecord(p, p, parents, {}, e, p[e].use);
    LoosenNode(g, p, b, Join(u, NodeUse(g, p, b, skip + {e})), skip + {e});
  }

  lemma {:induction false} LoosenNode(g: Graph, p: State, b: NodeId, u: Use, skip: set<EdgeId>)
    requires Valid(g) && ValidState(g, p) && b in g.nodes && Compat(g, p, {}) && Sharing(u)
    requires SkipSplit(g, skip, {}, g.rank[b])
    requires Looser(u, NodeUse(g, p, b, {})) && TightBelow(g, p, b)
    ensures var r := CheckNode(g, p, b, u, skip); !r.tighten && r.verdict != SharingConflict
    decreases g.rank[b], 1, 0
  {
    var n := g.nodes[b];
    if !Refuses(n, u) && n.drv && n.hook.None? {
      assert Tight(g, p, b);
      CoversLooser(g, p, b, 0, NodeUse(g, p, b, {}), u);
      forall y | y in ReachFrom(g, b, 0) && y in g.nodes
        ensures Tight(g, p, y)
      {
      }
      LoosenChildren(g, p, b, 0, u, skip);
    }
  }

  lemma {:induction false} LoosenChildren(g: Graph, p: State, b: NodeId, i: nat, u: Use, skip: set<EdgeId>)
    requires Valid(g) && ValidState(g, p) && b in g.nodes && i <= |g.nodes[b].children| && Compat(g, p, {})
             && Sharing(u)
    requires g.nodes[b].drv && SkipSplit(g, skip, {}, g.rank[b]) && Covers(g, p, b, i, u)
    requires forall y {:trigger Tight(g, p, y)} :: y in ReachFrom(g, b, i) && y in g.nodes ==> Tight(g, p, y)
    ensures var r := CheckChildren(g, p, b, i, u, skip); !r.tighten && r.verdict != SharingConflict
    decreases g.rank[b], 0, |g.nodes[b].children| - i
  {
    if i < |g.nodes[b].children| {
      ChildEdge(g, b, i);
      var e := g.nodes[b].children[i];
      var w := Wanted(g, e, u);
      var r := CheckEdge(g, p, e, w, skip);
      assert CoversAt(g, p, b, i, u);
      LoosenEdge(g, p, e, w, skip);
      if r.verdict == Granted {
        CheckEdgeCompat(g, p, e, w, skip, {});
        LoosenRest(g, p, b, i, u, skip);
        LoosenChildren(g, r.state, b, i + 1, u, skip);
      }
    }
  }

  /** After one child is done, the later ones are as they were, and nothing below is loose. */
  lemma {:induction false} LoosenRest(g: Graph, p: State, b: NodeId, i: nat, u: Use, skip: set<EdgeId>)
    requires Valid(g) && ValidState(g, p) && b in g.nodes && i < |g.nodes[b].children| && Covers(g, p, b, i, u)
             && Sharing(u)
    requires g.nodes[b].children[i] in g.edges && g.edges[g.nodes[b].children[i]].owner == Some(b)
    requires g.nodes[b].drv && SkipSplit(g, skip, {}, g.rank[b])
    requires forall y {:trigger Tight(g, p, y)} :: y in ReachFrom(g, b, i) && y in g.nodes ==> Tight(g, p, y)
    requires CheckEdge(g, p, g.nodes[b].children[i], Wanted(g, g.nodes[b].children[i], u), skip).verdict == Granted
    ensures var q := CheckEdge(g, p, g.nodes[b].children[i], Wanted(g, g.nodes[b].children[i], u), skip).state;
            && Covers(g, q, b, i + 1, u)
            && forall y {:trigger Tight(g, q, y)} :: y in ReachFrom(g, b, i + 1) && y in g.nodes ==> Tight(g, q, y)
  {
    ChildEdge(g, b, i);
    var e := g.nodes[b].children[i];
    var w := Wanted(g, e, u);
    var q := CheckEdge(g, p, e, w, skip).state;
    forall k | i + 1 <= k < |g.nodes[b].children|
      ensures CoversAt(g, q, b, k, u)
    {
      ChildEdge(g, b, k);
      var x := g.nodes[b].children[k];
      assert ValidNode(g, b) && CoversAt(g, p, b, k, u);
      CheckEdgeOrigin(g, p, e, w, skip, x);
      NotBelow(g, g.edges[e].child, x);
    }
    forall y | y in ReachFrom(g, b, i + 1) && y in g.nodes
      ensures Tight(g, q, y)
    {
      ReachFromRank(g, b, i + 1, y);
      assert Tight(g, p, y);
      CheckEdgeTight(g, p, e, w, skip, y);
    }
  }
}
