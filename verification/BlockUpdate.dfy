/** What the two-phase permission update does to the whole graph: check then abort is the
    identity, a granted check is final, and pairwise compatibility is kept. */
module BlockUpdate {
  import opened Basics
  import opened BlockPerm
  import opened BlockGraph

  // ----- below and above -----

  /** What is below a child is below its parent. */
  lemma BelowChild(g: Graph, b: NodeId, i: nat, x: EdgeId)
    requires Valid(g) && b in g.nodes && i < |g.nodes[b].children| && g.nodes[b].drv && x in g.edges
    ensures var e := g.nodes[b].children[i];
            && e in g.edges && g.edges[e].child in g.nodes && Below(g, b, e)
            && (Below(g, g.edges[e].child, x) ==> Below(g, b, x))
  {
    ChildEdge(g, b, i);
    ReachFromChild(g, b, 0, i);
  }

  /** An edge into `b`, or owned above it, is not below `b`. */
  lemma NotBelow(g: Graph, b: NodeId, x: EdgeId)
    requires Valid(g) && b in g.nodes && x in g.edges
    requires g.edges[x].child == b || (g.edges[x].owner.Some? ==>
                                         g.edges[x].owner.value in g.rank && g.rank[g.edges[x].owner.value] > g.rank[b])
    ensures !Below(g, b, x)
  {
    EdgeEnds(g, x);
    if Below(g, b, x) {
      ReachRank(g, b, g.edges[x].owner.value);
    }
  }

  /** The edge is visited when the children of `b` from the i-th on are. */
  ghost predicate Covered(g: Graph, b: NodeId, i: nat, x: EdgeId)
    requires Valid(g) && b in g.nodes && x in g.edges
  {
    exists k :: i <= k < |g.nodes[b].children| && CoveredBy(g, g.nodes[b].children[k], x)
  }

  ghost predicate CoveredBy(g: Graph, e: EdgeId, x: EdgeId)
    requires Valid(g) && x in g.edges
  {
    e in g.edges && g.edges[e].child in g.nodes && (x == e || Below(g, g.edges[e].child, x))
  }

  lemma BelowCovered(g: Graph, b: NodeId, x: EdgeId)
    requires Valid(g) && b in g.nodes && x in g.edges && Below(g, b, x)
    ensures g.nodes[b].drv ==> Covered(g, b, 0, x)
  {
    EdgeEnds(g, x);
    var o := g.edges[x].owner.value;
    if g.nodes[b].drv {
      if o == b {
        var k :| 0 <= k < |g.nodes[b].children| && g.nodes[b].children[k] == x;
        ChildEdge(g, b, k);
        assert CoveredBy(g, g.nodes[b].children[k], x);
      } else {
        var k := ReachFromSplit(g, b, 0, o);
        assert CoveredBy(g, g.nodes[b].children[k], x);
      }
    }
  }

  // ----- the check keeps what it needs to undo itself -----

  lemma {:induction false} CheckEdgeOrigin(g: Graph, p: State, e: EdgeId, u: Use, skip: set<EdgeId>, x: EdgeId)
    requires Valid(g) && ValidState(g, p) && e in g.edges && x in g.edges && Sharing(u)
    ensures g.edges[e].child in g.nodes
    ensures var q := CheckEdge(g, p, e, u, skip).state;
            && Origin(q[x]) == Origin(p[x])
            && (q[x] != p[x] ==> x == e || Below(g, g.edges[e].child, x))
    decreases (EdgeEnds(g, e); g.rank[g.edges[e].child]), 3, 0
  {
    EdgeEnds(g, e);
    CheckUpdateOrigin(g, p, g.edges[e].child, u, skip + {e}, x);
  }

  lemma {:induction false} CheckUpdateOrigin(g: Graph, p: State, b: NodeId, u: Use, skip: set<EdgeId>, x: EdgeId)
    requires Valid(g) && ValidState(g, p) && b in g.nodes && x in g.edges && Sharing(u)
    ensures var q := CheckUpdate(g, p, b, u, skip).state;
            Origin(q[x]) == Origin(p[x]) && (q[x] != p[x] ==> Below(g, b, x))
    decreases g.rank[b], 2, 0
  {
    assert ValidNode(g, b);
    if !Conflicts(p, g.nodes[b].parents, skip, u) {
      CheckNodeOrigin(g, p, b, Join(u, NodeUse(g, p, b, skip)), skip, x);
    }
  }

  lemma {:induction false} CheckNodeOrigin(g: Graph, p: State, b: NodeId, u: Use, skip: set<EdgeId>, x: EdgeId)
    requires Valid(g) && ValidState(g, p) && b in g.nodes && x in g.edges && Sharing(u)
    ensures var q := CheckNode(g, p, b, u, skip).state;
            Origin(q[x]) == Origin(p[x]) && (q[x] != p[x] ==> Below(g, b, x))
    decreases g.rank[b], 1, 0
  {
    var n := g.nodes[b];
    if !Refuses(n, u) && n.drv && n.hook.None? {
      CheckChildrenOrigin(g, p, b, 0, u, skip, x);
    }
  }

  lemma {:induction false} CheckChildrenOrigin(g: Graph, p: State, b: NodeId, i: nat, u: Use, skip: set<EdgeId>,
        x: EdgeId)
    requires Valid(g) && ValidState(g, p) && b in g.nodes && i <= |g.nodes[b].children| && x in g.edges && Sharing(u)
    requires g.nodes[b].drv
    ensures var q := CheckChildren(g, p, b, i, u, skip).state;
            Origin(q[x]) == Origin(p[x]) && (q[x] != p[x] ==> Below(g, b, x))
    decreases g.rank[b], 0, |g.nodes[b].children| - i
  {
    if i < |g.nodes[b].children| {
      ChildEdge(g, b, i);
      var e := g.nodes[b].children[i];
      var r := CheckEdge(g, p, e, Wanted(g, e, u), skip);
      CheckEdgeOrigin(g, p, e, Wanted(g, e, u), skip, x);
      BelowChild(g, b, i, x);
      if r.verdict == Granted {
        CheckChildrenOrigin(g, r.state, b, i + 1, u, skip, x);
      }
    }
  }

  // ----- abort restores exactly what is below -----

  lemma {:induction false} AbortEdgeAt(g: Graph, p: State, e: EdgeId, x: EdgeId)
    requires Valid(g) && ValidState(g, p) && e in g.edges && x in g.edges
    ensures g.edges[e].child in g.nodes
    ensures AbortEdge(g, p, e)[x]
            == if x == e || Below(g, g.edges[e].child, x) then Restored(p[x]) else p[x]
    decreases (EdgeEnds(g, e); g.rank[g.edges[e].child]), 3, 0
  {
    EdgeEnds(g, e);
    assert Shares(p[e]);
    Patched(g, p, e, Restored(p[e]));
    AbortNodeAt(g, p[e := Restored(p[e])], g.edges[e].child, x);
  }

  lemma {:induction false} AbortNodeAt(g: Graph, p: State, b: NodeId, x: EdgeId)
    requires Valid(g) && ValidState(g, p) && b in g.nodes && x in g.edges
    ensures AbortNode(g, p, b)[x] == if Below(g, b, x) then Restored(p[x]) else p[x]
    decreases g.rank[b], 1, 0
  {
    if g.nodes[b].drv {
      AbortChildrenAt(g, p, b, 0, x);
      if Below(g, b, x) {
        BelowCovered(g, b, x);
      }
    }
  }

  lemma {:induction false} AbortChildrenAt(g: Graph, p: State, b: NodeId, i: nat, x: EdgeId)
    requires Valid(g) && ValidState(g, p) && b in g.nodes && i <= |g.nodes[b].children| && x in g.edges
    requires g.nodes[b].drv
    ensures var q := AbortChildren(g, p, b, i);
            && (q[x] == p[x] || q[x] == Restored(p[x]))
            && (!Below(g, b, x) ==> q[x] == p[x])
            && (Covered(g, b, i, x) ==> q[x] == Restored(p[x]))
    decreases g.rank[b], 0, |g.nodes[b].children| - i
  {
    if i < |g.nodes[b].children| {
      ChildEdge(g, b, i);
      var e := g.nodes[b].children[i];
      AbortEdgeAt(g, p, e, x);
      BelowChild(g, b, i, x);
      AbortChildrenAt(g, AbortEdge(g, p, e), b, i + 1, x);
      if Covered(g, b, i, x) && !Covered(g, b, i + 1, x) {
        assert CoveredBy(g, e, x);
      }
    }
  }

  // ----- check then abort is the identity -----

  ghost predicate NoBackups(p: State) {
    forall e :: e in p ==> p[e].backup == None
  }

  /** bdrv_child_check_perm, whether it is granted or fails at any depth, followed by
      bdrv_child_abort_perm_update restores every edge. */
  lemma CheckEdgeThenAbort(g: Graph, p: State, e: EdgeId, u: Use, skip: set<EdgeId>)
    requires Valid(g) && ValidState(g, p) && NoBackups(p) && e in g.edges && Sharing(u)
    ensures AbortEdge(g, CheckEdge(g, p, e, u, skip).state, e) == p
  {
    var q := CheckEdge(g, p, e, u, skip).state;
    forall x | x in p
      ensures AbortEdge(g, q, e)[x] == p[x]
    {
      CheckEdgeOrigin(g, p, e, u, skip, x);
      AbortEdgeAt(g, q, e, x);
    }
  }

  /** The same for bdrv_check_perm and bdrv_abort_perm_update. */
  lemma CheckNodeThenAbort(g: Graph, p: State, b: NodeId, u: Use, skip: set<EdgeId>)
    requires Valid(g) && ValidState(g, p) && NoBackups(p) && b in g.nodes && Sharing(u)
    ensures AbortNode(g, CheckNode(g, p, b, u, skip).state, b) == p
  {
    var q := CheckNode(g, p, b, u, skip).state;
    forall x | x in p
      ensures AbortNode(g, q, b)[x] == p[x]
    {
      CheckNodeOrigin(g, p, b, u, skip, x);
      AbortNodeAt(g, q, b, x);
    }
  }

  /** The same for bdrv_check_update_perm and bdrv_abort_perm_update. */
  lemma CheckUpdateThenAbort(g: Graph, p: State, b: NodeId, u: Use, skip: set<EdgeId>)
    requires Valid(g) && ValidState(g, p) && NoBackups(p) && b in g.nodes && Sharing(u)
    ensures AbortNode(g, CheckUpdate(g, p, b, u, skip).state, b) == p
  {
    var q := CheckUpdate(g, p, b, u, skip).state;
    forall x | x in p
      ensures AbortNode(g, q, b)[x] == p[x]
    {
      CheckUpdateOrigin(g, p, b, u, skip, x);
      AbortNodeAt(g, q, b, x);
    }
  }

  // ----- pairwise compatibility -----

  predicate Fits(p: State, a: EdgeId, b: EdgeId)
    requires a in p && b in p
  {
    p[a].use.perm <= p[b].use.shared
  }

  /** Two parents of one node, neither of them in `out` */
  predicate Siblings(g: Graph, a: EdgeId, b: EdgeId, out: set<EdgeId>) {
    a in g.edges && b in g.edges && a != b && a !in out && b !in out && g.edges[a].child == g.edges[b].child
  }

  /** Any two parents of one node, outside `out`, can live together. */
  ghost predicate Compat(g: Graph, p: State, out: set<EdgeId>)
    requires ValidState(g, p)
  {
    forall a, b {:trigger Fits(p, a, b)} :: Siblings(g, a, b, out) ==> Fits(p, a, b)
  }

  /** The ignore list of a recursive call: the edges being moved, and edges of the current path,
      none of which leads below rank `r`. */
  ghost predicate SkipSplit(g: Graph, skip: set<EdgeId>, out: set<EdgeId>, r: nat) {
    && out <= skip
    && forall x :: x in skip && x !in out ==>
                     x in g.edges && g.edges[x].child in g.rank && g.rank[g.edges[x].child] >= r
  }

  ghost predicate NoneBelow(g: Graph, b: NodeId, out: set<EdgeId>)
    requires Valid(g) && b in g.nodes
  {
    forall x :: x in out && x in g.edges ==> !Below(g, b, x)
  }

  lemma NoneBelowChild(g: Graph, b: NodeId, i: nat, out: set<EdgeId>)
    requires Valid(g) && b in g.nodes && i < |g.nodes[b].children| && g.nodes[b].drv
    requires NoneBelow(g, b, out)
    ensures var e := g.nodes[b].children[i];
            && e in g.edges && g.edges[e].child in g.nodes && e !in out
            && NoneBelow(g, g.edges[e].child, out)
  {
    ChildEdge(g, b, i);
    BelowChild(g, b, i, g.nodes[b].children[i]);
    forall x | x in out && x in g.edges
      ensures !Below(g, g.edges[g.nodes[b].children[i]].child, x)
    {
      BelowChild(g, b, i, x);
    }
  }

  lemma {:induction false} CheckEdgeCompat(g: Graph, p: State, e: EdgeId, u: Use, skip: set<EdgeId>, out: set<EdgeId>)
    requires Valid(g) && ValidState(g, p) && e in g.edges && Compat(g, p, out) && Sharing(u)
    requires g.edges[e].child in g.nodes && NoneBelow(g, g.edges[e].child, out) && e !in out
    requires SkipSplit(g, skip, out, g.rank[g.edges[e].child] + 1)
    ensures Compat(g, CheckEdge(g, p, e, u, skip).state, out)
    decreases g.rank[g.edges[e].child], 3, 0
  {
    var b := g.edges[e].child;
    var r := CheckUpdate(g, p, b, u, skip + {e});
    CheckUpdateCompat(g, p, b, u, skip + {e}, out);
    if r.verdict == Granted {
      forall x | x in g.edges && x != e && x !in out && g.edges[x].child == b
        ensures Compatible(u, r.state[x].use)
      {
        CheckUpdateOrigin(g, p, b, u, skip + {e}, x);
        NotBelow(g, b, x);
        EdgeEnds(g, x);
      }
      var q := r.state[e := Recorded(r.state[e], u)];
      forall x, y | Siblings(g, x, y, out)
        ensures Fits(q, x, y)
      {
        assert Fits(r.state, x, y);
      }
    }
  }

  lemma {:induction false} CheckUpdateCompat(g: Graph, p: State, b: NodeId, u: Use, skip: set<EdgeId>, out: set<EdgeId>)
    requires Valid(g) && ValidState(g, p) && b in g.nodes && Compat(g, p, out) && Sharing(u)
    requires NoneBelow(g, b, out) && SkipSplit(g, skip, out, g.rank[b])
    ensures Compat(g, CheckUpdate(g, p, b, u, skip).state, out)
    decreases g.rank[b], 2, 0
  {
    assert ValidNode(g, b);
    if !Conflicts(p, g.nodes[b].parents, skip, u) {
      CheckNodeCompat(g, p, b, Join(u, NodeUse(g, p, b, skip)), skip, out);
    }
  }

  lemma {:induction false} CheckNodeCompat(g: Graph, p: State, b: NodeId, u: Use, skip: set<EdgeId>, out: set<EdgeId>)
    requires Valid(g) && ValidState(g, p) && b in g.nodes && Compat(g, p, out) && Sharing(u)
    requires NoneBelow(g, b, out) && SkipSplit(g, skip, out, g.rank[b])
    ensures Compat(g, CheckNode(g, p, b, u, skip).state, out)
    decreases g.rank[b], 1, 0
  {
    var n := g.nodes[b];
    if !Refuses(n, u) && n.drv && n.hook.None? {
      CheckChildrenCompat(g, p, b, 0, u, skip, out);
    }
  }

  lemma {:induction false} CheckChildrenCompat(g: Graph, p: State, b: NodeId, i: nat, u: Use, skip: set<EdgeId>,
        out: set<EdgeId>)
    requires Valid(g) && ValidState(g, p) && b in g.nodes && i <= |g.nodes[b].children| && Compat(g, p, out)
             && Sharing(u)
    requires g.nodes[b].drv && NoneBelow(g, b, out) && SkipSplit(g, skip, out, g.rank[b])
    ensures Compat(g, CheckChildren(g, p, b, i, u, skip).state, out)
    decreases g.rank[b], 0, |g.nodes[b].children| - i
  {
    if i < |g.nodes[b].children| {
      ChildEdge(g, b, i);
      NoneBelowChild(g, b, i, out);
      var e := g.nodes[b].children[i];
      var r := CheckEdge(g, p, e, Wanted(g, e, u), skip);
      CheckEdgeCompat(g, p, e, Wanted(g, e, u), skip, out);
      if r.verdict == Granted {
        CheckChildrenCompat(g, r.state, b, i + 1, u, skip, out);
      }
    }
  }

  // ----- a granted check is final -----

  /** A permission is in the cumulative use exactly when some parent outside `skip` uses it, and
      is shared exactly when all of them share it. */
  lemma {:induction false} CumulativeSpec(p: State, list: seq<EdgeId>, skip: set<EdgeId>, x: Perm)
    requires forall e :: e in list ==> e in p
    ensures x in Cumulative(p, list, skip).perm <==> exists e :: e in list && e !in skip && x in p[e].use.perm
    ensures x in Cumulative(p, list, skip).shared <==> forall e :: e in list && e !in skip ==> x in p[e].use.shared
  {
    if list == [] {
      assert x in ALL;
    } else {
      CumulativeSpec(p, list[1..], skip, x);
      assert list == [list[0]] + list[1..];
    }
  }

  /** Only the uses of the counted parents matter. */
  lemma CumulativeSame(p: State, q: State, list: seq<EdgeId>, s: set<EdgeId>, t: set<EdgeId>)
    requires forall e :: e in list ==> e in p && e in q
    requires forall e :: e in list ==> (e in s <==> e in t) && (e !in s ==> p[e].use == q[e].use)
    ensures Cumulative(p, list, s) == Cumulative(q, list, t)
  {
    if list != [] {
      CumulativeSame(p, q, list[1..], s, t);
    }
  }

  /** Recording `u` on edge `e` makes the cumulative use `u` joined with the others'. */
  lemma {:induction false} CumulativeRecord(p: State, q: State, list: seq<EdgeId>, s: set<EdgeId>, e: EdgeId, u: Use)
    requires forall x :: x in list ==> x in p && x in q
    requires e in list && e !in s && q[e].use == u
    requires forall x :: x in list && x != e ==> p[x].use == q[x].use
    ensures Cumulative(q, list, s) == Join(u, Cumulative(p, list, s + {e}))
  {
    if list[0] == e {
      if e in list[1..] {
        CumulativeRecord(p, q, list[1..], s, e, u);
      } else {
        CumulativeSame(p, q, list[1..], s + {e}, s);
      }
    } else {
      CumulativeRecord(p, q, list[1..], s, e, u);
    }
  }

  /** `x` agrees to its parents' cumulative use, and its children have exactly what it wants of them
      under that use. */
  ghost predicate Exact(g: Graph, p: State, x: NodeId, out: set<EdgeId>)
    requires Valid(g) && ValidState(g, p) && x in g.nodes
  {
    && TakesUse(g.nodes[x], NodeUse(g, p, x, out))
    && (g.nodes[x].drv ==> Delivered(g, p, x, NodeUse(g, p, x, out)))
  }

  ghost predicate Delivered(g: Graph, p: State, x: NodeId, u: Use)
    requires Valid(g) && ValidState(g, p) && x in g.nodes
  {
    forall k {:trigger g.nodes[x].children[k]} :: 0 <= k < |g.nodes[x].children| ==> DeliveredAt(g, p, x, k, u)
  }

  ghost predicate DeliveredAt(g: Graph, p: State, x: NodeId, k: nat, u: Use)
    requires Valid(g) && ValidState(g, p) && x in g.nodes && k < |g.nodes[x].children|
  {
    ChildEdge(g, x, k);
    var e := g.nodes[x].children[k];
    p[e].use == Wanted(g, e, u)
  }

  /** Exactness of `x` looks only at edges into `x` and out of `x`. */
  lemma ExactSame(g: Graph, p: State, q: State, x: NodeId, out: set<EdgeId>)
    requires Valid(g) && ValidState(g, p) && ValidState(g, q) && x in g.nodes && Exact(g, p, x, out)
    requires forall e :: e in g.edges && (g.edges[e].child == x || g.edges[e].owner == Some(x)) ==> p[e].use == q[e].use
    ensures Exact(g, q, x, out)
  {
    assert ValidNode(g, x);
    CumulativeSame(p, q, g.nodes[x].parents, out, out);
    if g.nodes[x].drv {
      var u := NodeUse(g, p, x, out);
      forall k | 0 <= k < |g.nodes[x].children|
        ensures DeliveredAt(g, q, x, k, u)
      {
        ChildEdge(g, x, k);
        assert DeliveredAt(g, p, x, k, u);
      }
    }
  }

  lemma {:induction false} CheckEdgeExact(g: Graph, p: State, e: EdgeId, u: Use, skip: set<EdgeId>, out: set<EdgeId>,
        x: NodeId)
    requires Valid(g) && ValidState(g, p) && e in g.edges && x in g.nodes && Sharing(u)
    requires g.edges[e].child in g.nodes && NoneBelow(g, g.edges[e].child, out) && e !in out
    requires SkipSplit(g, skip, out, g.rank[g.edges[e].child] + 1)
    requires CheckEdge(g, p, e, u, skip).verdict == Granted
    requires g.edges[e].owner != Some(x)
    requires Exact(g, p, x, out) || x in Reach(g, g.edges[e].child)
    ensures Exact(g, CheckEdge(g, p, e, u, skip).state, x, out)
    decreases g.rank[g.edges[e].child], 3, 0
  {
    var b := g.edges[e].child;
    var r := CheckUpdate(g, p, b, u, skip + {e});
    var q := CheckEdge(g, p, e, u, skip).state;
    if x == b {
      CheckedIsExact(g, p, e, u, skip, out);
    } else {
      CheckUpdateExact(g, p, b, u, skip + {e}, out, x);
      assert g.edges[e].child != x;
      ExactSame(g, r.state, q, x, out);
    }
  }

  /** A granted check is one the node itself agrees to. */
  lemma GrantedTakes(g: Graph, p: State, b: NodeId, u: Use, skip: set<EdgeId>)
    requires Valid(g) && ValidState(g, p) && b in g.nodes && Sharing(u)
    requires CheckUpdate(g, p, b, u, skip).verdict == Granted
    ensures TakesUse(g.nodes[b], Join(u, NodeUse(g, p, b, skip)))
  {
    assert ValidNode(g, b);
  }

  /** The child node itself: its children got what it wants under the new use joined with the
      use of its other parents, and that is its cumulative use once the edge is recorded. */
  lemma {:induction false} CheckedIsExact(g: Graph, p: State, e: EdgeId, u: Use, skip: set<EdgeId>, out: set<EdgeId>)
    requires Valid(g) && ValidState(g, p) && e in g.edges && Sharing(u)
    requires g.edges[e].child in g.nodes && NoneBelow(g, g.edges[e].child, out) && e !in out
    requires SkipSplit(g, skip, out, g.rank[g.edges[e].child] + 1)
    requires CheckEdge(g, p, e, u, skip).verdict == Granted
    ensures Exact(g, CheckEdge(g, p, e, u, skip).state, g.edges[e].child, out)
    decreases g.rank[g.edges[e].child], 2, 1
  {
    var b := g.edges[e].child;
    var r := CheckUpdate(g, p, b, u, skip + {e});
    var q := CheckEdge(g, p, e, u, skip).state;
    var parents := g.nodes[b].parents;
    EdgeEnds(g, e);
    assert ValidNode(g, b);
    forall y | y in parents && y != e
      ensures q[y].use == p[y].use && (y in skip + {e} <==> y in out + {e})
    {
      CheckUpdateOrigin(g, p, b, u, skip + {e}, y);
      NotBelow(g, b, y);
    }
    CumulativeSame(p, p, parents, skip + {e}, out + {e});
    CumulativeRecord(p, q, parents, out, e, u);
    var cum := Join(u, NodeUse(g, p, b, skip + {e}));
    assert NodeUse(g, q, b, out) == cum;
    GrantedTakes(g, p, b, u, skip + {e});
    if g.nodes[b].drv {
      CheckNodeDelivers(g, p, b, cum, skip + {e});
      forall k | 0 <= k < |g.nodes[b].children|
        ensures DeliveredAt(g, q, b, k, cum)
      {
        ChildEdge(g, b, k);
        assert DeliveredAt(g, r.state, b, k, cum);
      }
    }
  }

  lemma {:induction false} CheckUpdateExact(g: Graph, p: State, b: NodeId, u: Use, skip: set<EdgeId>,
        out: set<EdgeId>, x: NodeId)
    requires Valid(g) && ValidState(g, p) && b in g.nodes && x in g.nodes && x != b && Sharing(u)
    requires NoneBelow(g, b, out) && SkipSplit(g, skip, out, g.rank[b])
    requires CheckUpdate(g, p, b, u, skip).verdict == Granted
    requires Exact(g, p, x, out) || x in Reach(g, b)
    ensures Exact(g, CheckUpdate(g, p, b, u, skip).state, x, out)
    decreases g.rank[b], 2, 0
  {
    assert ValidNode(g, b);
    CheckNodeExact(g, p, b, Join(u, NodeUse(g, p, b, skip)), skip, out, x);
  }

  lemma {:induction false} CheckNodeExact(g: Graph, p: State, b: NodeId, u: Use, skip: set<EdgeId>, out: set<EdgeId>,
        x: NodeId)
    requires Valid(g) && ValidState(g, p) && b in g.nodes && x in g.nodes && x != b && Sharing(u)
    requires NoneBelow(g, b, out) && SkipSplit(g, skip, out, g.rank[b])
    requires CheckNode(g, p, b, u, skip).verdict == Granted
    requires Exact(g, p, x, out) || x in Reach(g, b)
    ensures Exact(g, CheckNode(g, p, b, u, skip).state, x, out)
    decreases g.rank[b], 1, 1
  {
    var n := g.nodes[b];
    assert ValidNode(g, b);
    if n.drv && n.hook.None? {
      CheckChildrenExact(g, p, b, 0, u, skip, out, x);
    }
  }

  lemma {:induction false} CheckChildrenExact(g: Graph, p: State, b: NodeId, i: nat, u: Use, skip: set<EdgeId>,
        out: set<EdgeId>, x: NodeId)
    requires Valid(g) && ValidState(g, p) && b in g.nodes && i <= |g.nodes[b].children| && x in g.nodes && x != b
             && Sharing(u)
    requires g.nodes[b].drv && NoneBelow(g, b, out) && SkipSplit(g, skip, out, g.rank[b])
    requires CheckChildren(g, p, b, i, u, skip).verdict == Granted
    requires Exact(g, p, x, out) || x in ReachFrom(g, b, i)
    ensures Exact(g, CheckChildren(g, p, b, i, u, skip).state, x, out)
    decreases g.rank[b], 0, |g.nodes[b].children| - i
  {
    if i < |g.nodes[b].children| {
      ChildEdge(g, b, i);
      NoneBelowChild(g, b, i, out);
      var e := g.nodes[b].children[i];
      var r := CheckEdge(g, p, e, Wanted(g, e, u), skip);
      if Exact(g, p, x, out) || x in Reach(g, g.edges[e].child) {
        CheckEdgeExact(g, p, e, Wanted(g, e, u), skip, out, x);
      }
      CheckChildrenExact(g, r.state, b, i + 1, u, skip, out, x);
    }
  }

  /** A granted bdrv_check_perm leaves every child of the node with what the node wants. */
  lemma {:induction false} CheckNodeDelivers(g: Graph, p: State, b: NodeId, u: Use, skip: set<EdgeId>)
    requires Valid(g) && ValidState(g, p) && b in g.nodes && g.nodes[b].drv && Sharing(u)
    requires CheckNode(g, p, b, u, skip).verdict == Granted
    ensures Delivered(g, CheckNode(g, p, b, u, skip).state, b, u)
    decreases g.rank[b], 1, 0
  {
    assert ValidNode(g, b);
    if g.nodes[b].hook.None? {
      forall k | 0 <= k < |g.nodes[b].children|
        ensures DeliveredAt(g, CheckNode(g, p, b, u, skip).state, b, k, u)
      {
        CheckChildrenDelivers(g, p, b, 0, u, skip, k);
      }
    }
  }

  lemma {:induction false} CheckChildrenDelivers(g: Graph, p: State, b: NodeId, i: nat, u: Use, skip: set<EdgeId>,
        k: nat)
    requires Valid(g) && ValidState(g, p) && b in g.nodes && i <= |g.nodes[b].children| && g.nodes[b].drv && Sharing(u)
    requires CheckChildren(g, p, b, i, u, skip).verdict == Granted
    requires k < |g.nodes[b].children|
    requires i <= k || DeliveredAt(g, p, b, k, u)
    ensures DeliveredAt(g, CheckChildren(g, p, b, i, u, skip).state, b, k, u)
    decreases g.rank[b], 0, |g.nodes[b].children| - i
  {
    if i < |g.nodes[b].children| {
      ChildEdge(g, b, i);
      ChildEdge(g, b, k);
      var e := g.nodes[b].children[i];
      var y := g.nodes[b].children[k];
      var r := CheckEdge(g, p, e, Wanted(g, e, u), skip);
      CheckEdgeOrigin(g, p, e, Wanted(g, e, u), skip, y);
      NotBelow(g, g.edges[e].child, y);
      CheckChildrenDelivers(g, r.state, b, i + 1, u, skip, k);
    }
  }

  // ----- setting a checked update changes no permission -----

  function Cleared(ep: EdgePerm): EdgePerm {
    EdgePerm(ep.use, None)
  }

  ghost predicate ExactBelow(g: Graph, p: State, b: NodeId)
    requires Valid(g) && ValidState(g, p) && b in g.nodes
  {
    forall y {:trigger Exact(g, p, y, {})} :: y in Reach(g, b) && y in g.nodes ==> Exact(g, p, y, {})
  }

  ghost predicate SameUses(p: State, q: State) {
    p.Keys == q.Keys && forall e :: e in p ==> p[e].use == q[e].use
  }

  lemma ExactBelowSame(g: Graph, p: State, q: State, b: NodeId)
    requires Valid(g) && ValidState(g, p) && ValidState(g, q) && b in g.nodes
    requires SameUses(p, q) && ExactBelow(g, p, b)
    ensures ExactBelow(g, q, b)
  {
    forall y | y in Reach(g, b) && y in g.nodes
      ensures Exact(g, q, y, {})
    {
      assert Exact(g, p, y, {});
      ExactSame(g, p, q, y, {});
    }
  }

  lemma ExactBelowChild(g: Graph, p: State, b: NodeId, i: nat)
    requires Valid(g) && ValidState(g, p) && b in g.nodes && i < |g.nodes[b].children| && g.nodes[b].drv
    requires ExactBelow(g, p, b)
    ensures var e := g.nodes[b].children[i];
            e in g.edges && g.edges[e].child in g.nodes && ExactBelow(g, p, g.edges[e].child)
  {
    ReachFromChild(g, b, 0, i);
  }

  lemma DeliveredSame(g: Graph, p: State, q: State, b: NodeId, u: Use)
    requires Valid(g) && ValidState(g, p) && ValidState(g, q) && b in g.nodes
    requires SameUses(p, q) && Delivered(g, p, b, u)
    ensures Delivered(g, q, b, u)
  {
    forall k | 0 <= k < |g.nodes[b].children|
      ensures DeliveredAt(g, q, b, k, u)
    {
      ChildEdge(g, b, k);
      assert DeliveredAt(g, p, b, k, u);
    }
  }

  lemma {:induction false} SetEdgeAt(g: Graph, p: State, e: EdgeId)
    requires Valid(g) && ValidState(g, p) && e in g.edges
    requires g.edges[e].child in g.nodes && ExactBelow(g, p, g.edges[e].child) && Shares(p[e])
    ensures var q := SetEdge(g, p, e, p[e].use);
            && SameUses(p, q)
            && forall x :: x in g.edges ==>
                             q[x] == if x == e || Below(g, g.edges[e].child, x) then Cleared(p[x]) else p[x]
    decreases g.rank[g.edges[e].child], 3, 0
  {
    var b := g.edges[e].child;
    var q := p[e := Cleared(p[e])];
    Patched(g, p, e, Cleared(p[e]));
    ExactBelowSame(g, p, q, b);
    SetNodeAt(g, q, b);
  }

  lemma {:induction false} SetNodeAt(g: Graph, p: State, b: NodeId)
    requires Valid(g) && ValidState(g, p) && b in g.nodes && ExactBelow(g, p, b)
    ensures var q := SetNode(g, p, b, NodeUse(g, p, b, {}));
            && SameUses(p, q)
            && forall x :: x in g.edges ==> q[x] == if Below(g, b, x) then Cleared(p[x]) else p[x]
    decreases g.rank[b], 1, 0
  {
    if g.nodes[b].drv {
      var u := NodeUse(g, p, b, {});
      assert Exact(g, p, b, {});
      SetChildrenAt(g, p, b, 0, u);
      forall x | x in g.edges && Below(g, b, x)
        ensures Covered(g, b, 0, x)
      {
        BelowCovered(g, b, x);
      }
    } else {
      forall x | x in g.edges
        ensures !Below(g, b, x)
      {
      }
    }
  }

  lemma {:induction false} SetChildrenAt(g: Graph, p: State, b: NodeId, i: nat, u: Use)
    requires Valid(g) && ValidState(g, p) && b in g.nodes && i <= |g.nodes[b].children| && g.nodes[b].drv && Sharing(u)
    requires ExactBelow(g, p, b) && Delivered(g, p, b, u)
    ensures var q := SetChildren(g, p, b, i, u);
            && SameUses(p, q)
            && forall x :: x in g.edges ==>
                             && (q[x] == p[x] || q[x] == Cleared(p[x]))
                             && (!Below(g, b, x) ==> q[x] == p[x])
                             && (Covered(g, b, i, x) ==> q[x] == Cleared(p[x]))
    decreases g.rank[b], 0, |g.nodes[b].children| - i
  {
    if i < |g.nodes[b].children| {
      ChildEdge(g, b, i);
      ExactBelowChild(g, p, b, i);
      var e := g.nodes[b].children[i];
      assert DeliveredAt(g, p, b, i, u) && Shares(p[e]);
      SetEdgeAt(g, p, e);
      var q := SetEdge(g, p, e, p[e].use);
      ExactBelowSame(g, p, q, b);
      DeliveredSame(g, p, q, b, u);
      SetChildrenAt(g, q, b, i + 1, u);
      forall x | x in g.edges
        ensures CoveredBy(g, e, x) ==> Below(g, b, x)
        ensures Covered(g, b, i, x) ==> CoveredBy(g, e, x) || Covered(g, b, i + 1, x)
      {
        BelowChild(g, b, i, x);
      }
    }
  }
}
