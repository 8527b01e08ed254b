/** Which requests for permissions are granted.  The check walks over the graph, writing permissions as it
    goes; here its verdict is given by conditions on the graph and the permissions before the call. */
module BlockGrants {
  import opened Basics
  import opened BlockPerm
  import opened BlockGraph
  import opened BlockUpdate
  import opened BlockOps
  import opened BlockRewire
  import opened BlockReplace
  import opened BlockInactivate
  import opened BlockWriters
  import opened BlockShrink

  // ----- what the node itself says -----

  /** Writing takes a node that is neither read-only nor inactive, and RESIZE if its size is not aligned;
      a driver with a check of its own must accept. */
  predicate Accepts(n: Node, u: Use) {
    && (Write in u.perm || WriteUnchanged in u.perm ==>
          n.flags.rdwr && !n.flags.inactive && (Resize in u.perm || n.aligned))
    && (n.drv && n.hook.Some? ==> u in n.hook.value)
  }

  lemma AcceptsIs(n: Node, u: Use)
    ensures TakesUse(n, u) <==> Accepts(n, u)
  {
  }

  /** No parent in the list, other than those in `out`, minds use `u` or is minded by it. */
  ghost predicate Welcome(p: State, list: seq<EdgeId>, out: set<EdgeId>, u: Use)
    requires forall x :: x in list ==> x in p
  {
    forall x :: x in list && x !in out ==> u.perm <= p[x].use.shared && p[x].use.perm <= u.shared
  }

  // ----- what the nodes below say -----

  /** Node `b` accepts cumulative use `u`; what it then wants of each child is welcome there; and each child
      is willing in turn.  Edges in `out` are about to leave and do not count.  Each child is judged by the
      permissions before the call. */
  ghost predicate Willing(g: Graph, p: State, b: NodeId, u: Use, out: set<EdgeId>)
    requires Valid(g) && ValidState(g, p) && b in g.nodes && Sharing(u)
    decreases g.rank[b], 1
  {
    && Accepts(g.nodes[b], u)
    && forall k {:trigger WillingChild(g, p, b, k, u, out)} :: 0 <= k < |g.nodes[b].children| ==>
         WillingChild(g, p, b, k, u, out)
  }

  ghost predicate WillingChild(g: Graph, p: State, b: NodeId, k: nat, u: Use, out: set<EdgeId>)
    requires Valid(g) && ValidState(g, p) && b in g.nodes && Sharing(u) && k < |g.nodes[b].children|
    decreases g.rank[b], 0
  {
    ChildEdge(g, b, k);
    var e := g.nodes[b].children[k];
    var c, w := g.edges[e].child, Wanted(g, e, u);
    assert ValidNode(g, c);
    Welcome(p, g.nodes[c].parents, out + {e}, w) && Willing(g, p, c, Join(w, NodeUse(g, p, c, out + {e})), out)
  }

  /** No node below `b` can be reached through two different children of one node. */
  ghost predicate Separate(g: Graph, b: NodeId)
    requires Valid(g) && b in g.nodes
  {
    forall y, i, j {:trigger Apart(g, y, i, j)} ::
      y in Reach(g, b) && y in g.nodes && 0 <= i < j < |g.nodes[y].children| ==> Apart(g, y, i, j)
  }

  ghost predicate Apart(g: Graph, y: NodeId, i: nat, j: nat)
    requires Valid(g) && y in g.nodes && i < |g.nodes[y].children| && j < |g.nodes[y].children|
  {
    Reach(g, Child(g, y, i)) !! Reach(g, Child(g, y, j))
  }

  lemma SeparateChild(g: Graph, b: NodeId, k: nat)
    requires Valid(g) && b in g.nodes && Separate(g, b) && k < |g.nodes[b].children|
    ensures g.nodes[b].drv && Reach(g, Child(g, b, k)) <= Reach(g, b) && Separate(g, Child(g, b, k))
  {
    assert ValidNode(g, b);
    ReachChild(g, b, k);
  }

  // ----- the verdict depends on the permissions of edges into what is reached only -----

  ghost predicate SameInto(g: Graph, p: State, q: State, reach: set<NodeId>) {
    forall x {:trigger p[x]} :: x in g.edges && x in p && x in q && g.edges[x].child in reach ==> p[x].use == q[x].use
  }

  lemma WelcomeSame(g: Graph, p: State, q: State, c: NodeId, out: set<EdgeId>, u: Use)
    requires Valid(g) && ValidState(g, p) && ValidState(g, q) && c in g.nodes && SameInto(g, p, q, {c})
    ensures ValidNode(g, c)
    ensures Welcome(p, g.nodes[c].parents, out, u) <==> Welcome(q, g.nodes[c].parents, out, u)
    ensures NodeUse(g, p, c, out) == NodeUse(g, q, c, out)
  {
    assert ValidNode(g, c);
    CumulativeSame(p, q, g.nodes[c].parents, out, out);
  }

  lemma {:induction false} WillingSame(g: Graph, p: State, q: State, b: NodeId, u: Use, out: set<EdgeId>)
    requires Valid(g) && ValidState(g, p) && ValidState(g, q) && b in g.nodes && Sharing(u)
    requires SameInto(g, p, q, Reach(g, b))
    ensures Willing(g, p, b, u, out) <==> Willing(g, q, b, u, out)
    decreases g.rank[b], 1
  {
    forall k | 0 <= k < |g.nodes[b].children|
      ensures WillingChild(g, p, b, k, u, out) <==> WillingChild(g, q, b, k, u, out)
    {
      assert ValidNode(g, b);
      ReachChild(g, b, k);
      ChildSame(g, p, q, b, k, u, out);
    }
  }

  lemma {:induction false} ChildSame(g: Graph, p: State, q: State, b: NodeId, k: nat, u: Use, out: set<EdgeId>)
    requires Valid(g) && ValidState(g, p) && ValidState(g, q) && b in g.nodes && Sharing(u)
    requires k < |g.nodes[b].children| && SameInto(g, p, q, Reach(g, Child(g, b, k)))
    ensures WillingChild(g, p, b, k, u, out) <==> WillingChild(g, q, b, k, u, out)
    decreases g.rank[b], 0
  {
    ChildEdge(g, b, k);
    var e, c := g.nodes[b].children[k], Child(g, b, k);
    var w := Wanted(g, e, u);
    WelcomeSame(g, p, q, c, out + {e}, w);
    WillingSame(g, p, q, c, Join(w, NodeUse(g, p, c, out + {e})), out);
  }

  // ----- the walk comes to the same verdict -----

  /** On the way down only the edges of the path and those about to leave are ignored. */
  lemma SkipIs(g: Graph, p: State, b: NodeId, e: EdgeId, u: Use, skip: set<EdgeId>, out: set<EdgeId>)
    requires Valid(g) && ValidState(g, p) && b in g.nodes && SkipSplit(g, skip, out, g.rank[b] + 1)
    ensures ValidNode(g, b)
    ensures Conflicts(p, g.nodes[b].parents, skip + {e}, u) <==> !Welcome(p, g.nodes[b].parents, out + {e}, u)
    ensures NodeUse(g, p, b, skip + {e}) == NodeUse(g, p, b, out + {e})
  {
    assert ValidNode(g, b);
    forall x | x in g.nodes[b].parents
      ensures x in skip + {e} <==> x in out + {e}
    {
    }
    CumulativeSame(p, p, g.nodes[b].parents, skip + {e}, out + {e});
  }

  lemma {:induction false} GrantEdge(g: Graph, p: State, e: EdgeId, u: Use, skip: set<EdgeId>, out: set<EdgeId>)
    requires Valid(g) && ValidState(g, p) && e in g.edges && Sharing(u) && g.edges[e].child in g.nodes
    requires Separate(g, g.edges[e].child) && SkipSplit(g, skip, out, g.rank[g.edges[e].child] + 1)
    ensures var b := g.edges[e].child;
            && ValidNode(g, b)
            && (CheckEdge(g, p, e, u, skip).verdict == Granted <==>
                Welcome(p, g.nodes[b].parents, out + {e}, u)
                && Willing(g, p, b, Join(u, NodeUse(g, p, b, out + {e})), out))
    decreases g.rank[g.edges[e].child], 3, 0
  {
    var b := g.edges[e].child;
    SkipIs(g, p, b, e, u, skip, out);
    EdgeEnds(g, e);
    GrantNode(g, p, b, Join(u, NodeUse(g, p, b, skip + {e})), skip + {e}, out);
  }

  lemma {:induction false} GrantNode(g: Graph, p: State, b: NodeId, u: Use, skip: set<EdgeId>, out: set<EdgeId>)
    requires Valid(g) && ValidState(g, p) && b in g.nodes && Sharing(u)
    requires Separate(g, b) && SkipSplit(g, skip, out, g.rank[b])
    ensures CheckNode(g, p, b, u, skip).verdict == Granted <==> Willing(g, p, b, u, out)
    decreases g.rank[b], 1, 0
  {
    AcceptsIs(g.nodes[b], u);
    assert ValidNode(g, b);
    if g.nodes[b].drv && g.nodes[b].hook.None? && !Refuses(g.nodes[b], u) {
      GrantChildren(g, p, b, 0, u, skip, out);
    }
  }

  ghost predicate WillingFrom(g: Graph, p: State, b: NodeId, i: nat, u: Use, out: set<EdgeId>)
    requires Valid(g) && ValidState(g, p) && b in g.nodes && Sharing(u)
  {
    forall k {:trigger WillingChild(g, p, b, k, u, out)} :: i <= k < |g.nodes[b].children| ==>
      WillingChild(g, p, b, k, u, out)
  }

  lemma {:induction false} GrantChildren(g: Graph, p: State, b: NodeId, i: nat, u: Use, skip: set<EdgeId>,
        out: set<EdgeId>)
    requires Valid(g) && ValidState(g, p) && b in g.nodes && Sharing(u) && i <= |g.nodes[b].children|
    requires Separate(g, b) && SkipSplit(g, skip, out, g.rank[b])
    ensures CheckChildren(g, p, b, i, u, skip).verdict == Granted <==> WillingFrom(g, p, b, i, u, out)
    decreases g.rank[b], 0, |g.nodes[b].children| - i
  {
    if i < |g.nodes[b].children| {
      ChildEdge(g, b, i);
      SeparateChild(g, b, i);
      var e := g.nodes[b].children[i];
      var r := CheckEdge(g, p, e, Wanted(g, e, u), skip);
      GrantEdge(g, p, e, Wanted(g, e, u), skip, out);
      assert r.verdict == Granted <==> WillingChild(g, p, b, i, u, out);
      if r.verdict == Granted {
        GrantChildren(g, r.state, b, i + 1, u, skip, out);
        LaterSame(g, p, b, i, u, skip, out);
      }
    }
  }

  /** Later children are not affected by the check of an earlier one. */
  lemma LaterSame(g: Graph, p: State, b: NodeId, i: nat, u: Use, skip: set<EdgeId>, out: set<EdgeId>)
    requires Valid(g) && ValidState(g, p) && b in g.nodes && Sharing(u) && i < |g.nodes[b].children|
    requires Separate(g, b) && g.nodes[b].children[i] in g.edges && g.edges[g.nodes[b].children[i]].owner == Some(b)
    ensures var q := CheckEdge(g, p, g.nodes[b].children[i], Wanted(g, g.nodes[b].children[i], u), skip).state;
            WillingFrom(g, p, b, i + 1, u, out) <==> WillingFrom(g, q, b, i + 1, u, out)
  {
    var e := g.nodes[b].children[i];
    var q := CheckEdge(g, p, e, Wanted(g, e, u), skip).state;
    forall k | i + 1 <= k < |g.nodes[b].children|
      ensures WillingChild(g, p, b, k, u, out) <==> WillingChild(g, q, b, k, u, out)
    {
      UntouchedInto(g, p, b, i, k, Wanted(g, e, u), skip);
      ChildSame(g, p, q, b, k, u, out);
    }
  }

  lemma UntouchedInto(g: Graph, p: State, b: NodeId, i: nat, k: nat, w: Use, skip: set<EdgeId>)
    requires Valid(g) && ValidState(g, p) && b in g.nodes && Sharing(w) && i < k < |g.nodes[b].children|
    requires Separate(g, b) && g.nodes[b].children[i] in g.edges
    ensures SameInto(g, p, CheckEdge(g, p, g.nodes[b].children[i], w, skip).state, Reach(g, Child(g, b, k)))
  {
    var e := g.nodes[b].children[i];
    var q := CheckEdge(g, p, e, w, skip).state;
    assert b in Reach(g, b) && Apart(g, b, i, k);
    forall x | x in g.edges && x in p && x in q && g.edges[x].child in Reach(g, Child(g, b, k))
      ensures p[x].use == q[x].use
    {
      CheckEdgeOrigin(g, p, e, w, skip, x);
      if q[x] != p[x] && x != e {
        ReachClosed(g, Child(g, b, i), x);
      }
    }
  }

  // ----- the operations -----

  /** The request can be granted: the other parents welcome it, and the nodes below are willing. */
  ghost predicate Grantable(s: Block, b: NodeId, u: Use, out: set<EdgeId>)
    requires Valid(s.g) && ValidState(s.g, s.p) && b in s.g.nodes && Sharing(u)
  {
    assert ValidNode(s.g, b);
    Welcome(s.p, s.g.nodes[b].parents, out, u) && Willing(s.g, s.p, b, Join(u, NodeUse(s.g, s.p, b, out)), {})
  }

  /** bdrv_child_try_set_perm does what was asked if and only if it can be granted, and otherwise leaves
      everything as it was -- wherever no node below can be reached in two ways. */
  lemma TrySetExactly(s: Block, e: EdgeId, u: Use)
    requires Consistent(s) && e in s.g.edges && Sharing(u) && s.g.edges[e].child in s.g.nodes
    requires Separate(s.g, s.g.edges[e].child)
    ensures var (t, err) := TrySet(s, e, u);
            if Grantable(s, s.g.edges[e].child, u, {e}) then !err && e in t.p && t.p[e].use == u else t == s
  {
    var b := s.g.edges[e].child;
    GrantEdge(s.g, s.p, e, u, {}, {});
    assert {} + {e} == {e};
    if Grantable(s, b, u, {e}) {
      CommitEdge(s.g, s.p, e, u);
    } else {
      CheckEdgeThenAbort(s.g, s.p, e, u, {});
    }
  }

  /** On a node without children, in so many words */
  lemma LeafExactly(s: Block, e: EdgeId, u: Use)
    requires Consistent(s) && e in s.g.edges && Sharing(u) && s.g.edges[e].child in s.g.nodes
    requires s.g.nodes[s.g.edges[e].child].children == []
    ensures var (t, err), n, w :=
              TrySet(s, e, u), s.g.nodes[s.g.edges[e].child], Join(u, NodeUse(s.g, s.p, s.g.edges[e].child, {e}));
            if (forall x :: x in n.parents && x in s.p && x != e ==> Compatible(u, s.p[x].use)) && Accepts(n, w) then
              t == s.(p := s.p[e := EdgePerm(u, None)]) && !err
            else t == s
  {
    var b := s.g.edges[e].child;
    TrySetExactly(s, e, u);
    LeafGrantable(s, e, u);
    if Grantable(s, b, u, {e}) {
      LeafState(s, e, u);
    }
  }

  lemma LeafGrantable(s: Block, e: EdgeId, u: Use)
    requires Consistent(s) && e in s.g.edges && Sharing(u) && s.g.edges[e].child in s.g.nodes
    requires s.g.nodes[s.g.edges[e].child].children == []
    ensures var n, w := s.g.nodes[s.g.edges[e].child], Join(u, NodeUse(s.g, s.p, s.g.edges[e].child, {e}));
            Grantable(s, s.g.edges[e].child, u, {e}) <==>
            (forall x :: x in n.parents && x in s.p && x != e ==> Compatible(u, s.p[x].use)) && Accepts(n, w)
  {
    assert ValidNode(s.g, s.g.edges[e].child);
  }

  lemma LeafState(s: Block, e: EdgeId, u: Use)
    requires Consistent(s) && e in s.g.edges && Sharing(u) && s.g.edges[e].child in s.g.nodes
    requires s.g.nodes[s.g.edges[e].child].children == [] && Grantable(s, s.g.edges[e].child, u, {e})
    ensures TrySet(s, e, u).0 == s.(p := s.p[e := EdgePerm(u, None)])
  {
    GrantEdge(s.g, s.p, e, u, {}, {});
    assert {} + {e} == {e};
    CommitEdge(s.g, s.p, e, u);
    var q := CheckEdge(s.g, s.p, e, u, {}).state;
    var t := SetEdge(s.g, q, e, u);
    forall x | x in s.g.edges && x != e
      ensures t[x] == s.p[x]
    {
      LeafElse(s, e, u, x);
      assert q[x].use == t[x].use;
    }
    assert t == s.p[e := EdgePerm(u, None)];
  }

  lemma LeafElse(s: Block, e: EdgeId, u: Use, x: EdgeId)
    requires Consistent(s) && e in s.g.edges && Sharing(u) && s.g.edges[e].child in s.g.nodes
    requires s.g.nodes[s.g.edges[e].child].children == [] && x in s.g.edges && x != e
    ensures CheckEdge(s.g, s.p, e, u, {}).state[x] == s.p[x] && s.p[x].backup == None
  {
    var b := s.g.edges[e].child;
    CheckEdgeOrigin(s.g, s.p, e, u, {}, x);
    EdgeEnds(s.g, x);
    assert s.g.edges[x].owner != Some(b);
    assert Reach(s.g, b) == {b};
  }

  /** bdrv_root_attach_child */
  lemma AttachExactly(s: Block, id: EdgeId, c: Edge, u: Use)
    requires Consistent(s) && id !in s.g.edges && c.owner == None && c.child in s.g.nodes && Sharing(u)
    requires Separate(s.g, c.child)
    ensures Attach(s, id, c, u).1 <==> Grantable(s, c.child, u, {})
  {
    UpdateGrant(s, c.child, u, {});
  }

  /** bdrv_replace_node moves exactly the parents of `from` that may leave it and whose owner `to` does not
      reach; a parent with stay_at_node never moves. */
  lemma ReplaceMoves(s: Block, from: NodeId, to: NodeId, e: EdgeId)
    requires Consistent(s) && from in s.g.nodes && to in s.g.nodes && e in s.g.edges
    ensures var (t, ok), c := Replace(s, from, to), s.g.edges[e];
            && e in t.g.edges
            && t.g.edges[e] == if ok && c.child == from && !c.stayAtNode
                                  && (c.owner.None? || c.owner.value !in Reach(s.g, to)) then c.(child := to) else c
  {
    ReplaceKeepsCompat(s, from, to);
    EdgeEnds(s.g, e);
  }

  /** It succeeds if and only if none of these is frozen, the other parents of `to` welcome them all
      together, and the nodes below are willing. */
  lemma ReplaceExactly(s: Block, from: NodeId, to: NodeId)
    requires Consistent(s) && from in s.g.nodes && to in s.g.nodes && Separate(s.g, to)
    ensures ValidNode(s.g, to) && Sharing(Cumulative(s.p, MovedEdges(s.g, from, to), {}))
    ensures var moved := MovedEdges(s.g, from, to);
            var u, out := Cumulative(s.p, moved, {}), SetOf(moved);
            Replace(s, from, to).1 <==>
            && (forall e :: e in moved ==> !s.g.edges[e].frozen)
            && Welcome(s.p, s.g.nodes[to].parents, out, u)
            && Willing(s.g, s.p, to, Join(u, NodeUse(s.g, s.p, to, out)), out)
  {
    var moved := MovedEdges(s.g, from, to);
    CumulativeShares(s.p, moved, {});
    UpdateGrant(s, to, Cumulative(s.p, moved, {}), SetOf(moved));
  }

  lemma UpdateGrant(s: Block, b: NodeId, u: Use, out: set<EdgeId>)
    requires Consistent(s) && b in s.g.nodes && Sharing(u) && Separate(s.g, b)
    ensures ValidNode(s.g, b)
    ensures CheckUpdate(s.g, s.p, b, u, out).verdict == Granted <==>
            Welcome(s.p, s.g.nodes[b].parents, out, u)
            && Willing(s.g, s.p, b, Join(u, NodeUse(s.g, s.p, b, out)), out)
  {
    assert ValidNode(s.g, b);
    GrantNode(s.g, s.p, b, Join(u, NodeUse(s.g, s.p, b, out)), out, out);
  }

  /** A request is granted in any graph if everybody could live with an assignment of permissions that is
      nowhere less strict than the request and than what is in force; nothing beyond it is handed out. */
  lemma TrySetBound(s: Block, q: State, e: EdgeId, u: Use)
    requires Consistent(s) && e in s.g.edges && Sharing(u) && s.g.edges[e].child in s.g.nodes
    requires Bound(s.g, q, s.g.edges[e].child) && Shrinks(q, s.p) && Looser(u, q[e].use)
    ensures var (t, err) := TrySet(s, e, u); !err && e in t.p && t.p[e].use == u && Shrinks(q, t.p)
  {
    BoundEdge(s.g, s.p, q, e, u, {});
    CommitEdge(s.g, s.p, e, u);
  }

  // ----- writers of misaligned nodes -----

  /** After a request was granted, every node below accepts what its parents use together: in particular
      nobody writes there without RESIZE if the size is not aligned. */
  lemma AcceptedBelow(s: Block, e: EdgeId, u: Use, y: NodeId)
    requires Consistent(s) && e in s.g.edges && Sharing(u) && y in s.g.nodes
    requires s.g.edges[e].child in s.g.nodes && y in Reach(s.g, s.g.edges[e].child) && TrySet(s, e, u).0 != s
    ensures var t := TrySet(s, e, u).0;
            ValidState(t.g, t.p) && t.g == s.g && Accepts(t.g.nodes[y], NodeUse(t.g, t.p, y, {}))
  {
    TrySetKeepsCompat(s, e, u);
    if CheckEdge(s.g, s.p, e, u, {}).verdict != Granted {
      CheckEdgeThenAbort(s.g, s.p, e, u, {});
    } else {
      GrantedEverywhere(s, e, u, y);
      AcceptsIs(s.g.nodes[y], NodeUse(s.g, TrySet(s, e, u).0.p, y, {}));
    }
  }

  /** A misaligned node with a user that writes and another that resizes */
  ghost predicate TwoUsers(s: Block) {
    && s.g.nodes == map[0 := Node(true, None, Flags(true, false, false), false, false, [], [0, 1])]
    && s.g.edges == map[0 := Edge(None, 0, Role(true, false, false, false), false, false, false),
                        1 := Edge(None, 0, Role(true, false, false, false), false, false, false)]
    && s.g.rank == map[0 := 0]
    && s.p == map[0 := EdgePerm(Use({Write}, ALL), None), 1 := EdgePerm(Use({Resize}, ALL), None)]
  }

  lemma TwoUsersUse(s: Block)
    requires TwoUsers(s)
    ensures Consistent(s) && NodeUse(s.g, s.p, 0, {}) == Use({Write, Resize}, ALL)
  {
    assert s.g.nodes[0].parents[0] == 0 && s.g.nodes[0].parents[1] == 1;
    assert ValidEdge(s.g, 0) && ValidEdge(s.g, 1) && ValidNode(s.g, 0) && Shares(s.p[0]) && Shares(s.p[1]);
    assert [0, 1][1..] == [1] && [1][1..] == [];
    assert Cumulative(s.p, [], {}) == Use({}, ALL);
    assert Cumulative(s.p, [1], {}) == Use({Resize}, ALL);
  }

  /** It does not stay so: when the user that resizes is detached, the other one is left writing without
      RESIZE.  The check that follows refuses, but has nothing to take away. */
  lemma AlignmentLost(s: Block)
    requires TwoUsers(s)
    ensures Consistent(s) && Accepts(s.g.nodes[0], NodeUse(s.g, s.p, 0, {}))
    ensures var (t, tighten) := Detach(s, 1);
            && Consistent(t) && !tighten && 0 in t.g.nodes && t.g.nodes[0].aligned == s.g.nodes[0].aligned
            && !Accepts(t.g.nodes[0], NodeUse(t.g, t.p, 0, {}))
  {
    TwoUsersUse(s);
    DetachKeepsCompat(s, 1);
    DetachLeavesConsistent(s, 1);
    var h, q := DetachShape(s.g, 1), s.p - {1};
    assert Without([0, 1], {1}) == [0] by {
      assert [0, 1][1..] == [1] && [1][1..] == [];
      assert Without([1], {1}) == [];
    }
    assert h.nodes[0].parents == [0] && h.nodes[0].children == [];
    assert [0][1..] == [];
    assert Cumulative(q, [], {}) == Use({}, ALL);
    assert NodeUse(h, q, 0, {}) == Use({Write}, ALL);
    var r := CheckNode(h, q, 0, Use({Write}, ALL), {});
    assert r.verdict == NodeRefusal && r.state == q;
    assert AbortNode(h, q, 0) == q;
  }
}
