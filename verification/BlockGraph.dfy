/** The block graph of block.c and the two-phase permission update that recurses over it. */
module BlockGraph {
  import opened Basics
  import opened BlockPerm

  type NodeId = nat
  type EdgeId = nat

  /** BlockDriverState.  `hook` stands for a driver's own .bdrv_check_perm: the set of cumulative
      uses it accepts.  `aligned` says the image size is a multiple of the request alignment. */
  datatype Node = Node(drv: bool, hook: Option<set<Use>>, flags: Flags, forceShare: bool, aligned: bool,
                       children: seq<EdgeId>, parents: seq<EdgeId>)

  /** BdrvChild, without the permission fields.  `owner` is the node whose child list holds it;
      a user that is not a node (a guest device, a job) owns an edge with no owner.  `quits` says that
      such a user gives up its permissions when the node is inactivated. */
  datatype Edge = Edge(owner: Option<NodeId>, child: NodeId, role: Role, stayAtNode: bool, frozen: bool, quits: bool)

  /** The shape of the graph.  `rank` is a height measure: it falls along every edge. */
  datatype Graph = Graph(nodes: map<NodeId, Node>, edges: map<EdgeId, Edge>, rank: map<NodeId, nat>)

  /** The permission fields of an edge; `backup` is set while an update is in progress. */
  datatype EdgePerm = EdgePerm(use: Use, backup: Option<Use>)

  type State = map<EdgeId, EdgePerm>

  // ----- well-formedness -----

  ghost predicate ValidEdge(g: Graph, e: EdgeId)
    requires e in g.edges
  {
    var c := g.edges[e];
    && c.child in g.nodes && e in g.nodes[c.child].parents
    && (c.owner.Some? ==>
          && c.owner.value in g.nodes && e in g.nodes[c.owner.value].children
          && ValidRole(c.role))
  }

  ghost predicate ValidNode(g: Graph, b: NodeId)
    requires b in g.nodes
  {
    var n := g.nodes[b];
    && NoDup(n.children) && NoDup(n.parents)
    && (forall e :: e in n.children ==> e in g.edges && g.edges[e].owner == Some(b))
    && (forall e :: e in n.parents ==> e in g.edges && g.edges[e].child == b)
       // a node without driver has no children; nor do the drivers that implement .bdrv_check_perm
    && (!n.drv || n.hook.Some? ==> n.children == [])
  }

  /** The lists and the edges agree. */
  ghost predicate WellFormed(g: Graph) {
    && (forall e {:trigger ValidEdge(g, e)} :: e in g.edges ==> ValidEdge(g, e))
    && (forall b {:trigger ValidNode(g, b)} :: b in g.nodes ==> ValidNode(g, b))
  }

  ghost predicate Ranked(g: Graph) {
    && g.rank.Keys == g.nodes.Keys
    && forall e {:trigger Falls(g, e)} :: e in g.edges ==> Falls(g, e)
  }

  predicate Falls(g: Graph, e: EdgeId)
    requires e in g.edges
  {
    var c := g.edges[e];
    c.owner.Some? && c.owner.value in g.rank && c.child in g.rank ==> g.rank[c.owner.value] > g.rank[c.child]
  }

  ghost predicate Valid(g: Graph) {
    WellFormed(g) && Ranked(g)
  }

  /** Every edge has its permissions, and every request shares WRITE_UNCHANGED. */
  ghost predicate ValidState(g: Graph, p: State) {
    && p.Keys == g.edges.Keys
    && forall e {:trigger Shares(p[e])} :: e in p ==> Shares(p[e])
  }

  predicate Shares(ep: EdgePerm) {
    Sharing(ep.use) && (ep.backup.Some? ==> Sharing(ep.backup.value))
  }

  lemma Patched(g: Graph, p: State, e: EdgeId, ep: EdgePerm)
    requires ValidState(g, p) && e in g.edges && Shares(ep)
    ensures ValidState(g, p[e := ep])
  {
    forall x | x in p
      ensures Shares(p[e := ep][x])
    {
      assert Shares(p[x]);
    }
  }

  // ----- cumulative permissions -----

  function Join(a: Use, b: Use): Use {
    Use(a.perm + b.perm, a.shared * b.shared)
  }

  lemma JoinNothing(a: Use)
    ensures Join(a, Use({}, ALL)) == a && Join(Use({}, ALL), a) == a
  {
    forall x
      ensures x in a.shared <==> x in a.shared * ALL
    {
      EveryPerm(x);
    }
  }

  /** What a list of parent edges uses and shares together, leaving out those in `skip` */
  function Cumulative(p: State, list: seq<EdgeId>, skip: set<EdgeId>): Use
    requires forall e :: e in list ==> e in p
  {
    if list == [] then Use({}, ALL)
    else
      var rest := Cumulative(p, list[1..], skip);
      if list[0] in skip then rest else Join(p[list[0]].use, rest)
  }

  lemma {:induction false} CumulativeShares(p: State, list: seq<EdgeId>, skip: set<EdgeId>)
    requires forall e :: e in list ==> e in p
    requires forall e {:trigger Shares(p[e])} :: e in p ==> Shares(p[e])
    ensures Sharing(Cumulative(p, list, skip))
  {
    if list != [] {
      assert list[0] in p && Shares(p[list[0]]);
      CumulativeShares(p, list[1..], skip);
    }
  }

  /** bdrv_get_cumulative_perm, leaving out the edges in `skip` */
  function NodeUse(g: Graph, p: State, b: NodeId, skip: set<EdgeId>): (u: Use)
    requires Valid(g) && ValidState(g, p) && b in g.nodes
    ensures Sharing(u)
  {
    assert ValidNode(g, b);
    CumulativeShares(p, g.nodes[b].parents, skip);
    Cumulative(p, g.nodes[b].parents, skip)
  }

  /** Some parent outside `skip` cannot live with `u`. */
  predicate Conflicts(p: State, list: seq<EdgeId>, skip: set<EdgeId>, u: Use)
    requires forall e :: e in list ==> e in p
  {
    exists e :: e in list && e !in skip && !Compatible(u, p[e].use)
  }

  /** What the node itself refuses: writing to a read-only or inactive node, or writing without
      RESIZE to an image whose size is not aligned. */
  predicate Refuses(n: Node, u: Use) {
    && (Write in u.perm || WriteUnchanged in u.perm)
    && (!Writable(n.flags) || (Resize !in u.perm && !n.aligned))
  }

  /** The node, and its driver's own check if it has one, agree to cumulative use `u`. */
  predicate TakesUse(n: Node, u: Use) {
    !Refuses(n, u) && (n.drv && n.hook.Some? ==> u in n.hook.value)
  }

  /** What the node asks of its child `e` under cumulative use `u`. */
  function Wanted(g: Graph, e: EdgeId, u: Use): (r: Use)
    requires Valid(g) && e in g.edges && g.edges[e].owner.Some?
    ensures Sharing(u) ==> Sharing(r)
  {
    var c := g.edges[e];
    assert ValidEdge(g, e);
    ChildPerm(g.nodes[c.owner.value].flags, c.role, g.nodes[c.child].forceShare, u)
  }

  // ----- phase one: check, writing the new permissions and keeping a backup -----

  datatype Verdict = Granted | SharingConflict | NodeRefusal

  datatype Result = Result(state: State, verdict: Verdict, tighten: bool)

  /** bdrv_check_perm tightens when it takes a new permission or unshares one. */
  predicate Tightens(u: Use, current: Use) {
    !Looser(u, current)
  }

  /** The tail of bdrv_child_check_perm */
  function Recorded(ep: EdgePerm, u: Use): EdgePerm {
    EdgePerm(u, if ep.backup.Some? then ep.backup else Some(ep.use))
  }

  lemma EdgeEnds(g: Graph, e: EdgeId)
    requires Valid(g) && e in g.edges
    ensures g.edges[e].child in g.nodes && g.edges[e].child in g.rank
    ensures e in g.nodes[g.edges[e].child].parents
    ensures g.edges[e].owner.Some? ==>
              var o := g.edges[e].owner.value;
              o in g.nodes && o in g.rank && e in g.nodes[o].children && g.rank[o] > g.rank[g.edges[e].child]
  {
    assert ValidEdge(g, e) && Falls(g, e);
  }

  lemma ChildEdge(g: Graph, b: NodeId, i: nat)
    requires Valid(g) && b in g.nodes && i < |g.nodes[b].children|
    ensures var e := g.nodes[b].children[i];
            && e in g.edges && g.edges[e].owner == Some(b)
            && g.edges[e].child in g.nodes && g.edges[e].child in g.rank
            && g.rank[g.edges[e].child] < g.rank[b]
  {
    var e := g.nodes[b].children[i];
    assert ValidNode(g, b) && e in g.nodes[b].children;
    EdgeEnds(g, e);
  }

  /** bdrv_child_check_perm */
  function CheckEdge(g: Graph, p: State, e: EdgeId, u: Use, skip: set<EdgeId>): (r: Result)
    requires Valid(g) && ValidState(g, p) && e in g.edges && Sharing(u)
    ensures ValidState(g, r.state)
    decreases (EdgeEnds(g, e); g.rank[g.edges[e].child]), 3, 0
  {
    EdgeEnds(g, e);
    var r := CheckUpdate(g, p, g.edges[e].child, u, skip + {e});
    if r.verdict != Granted then r
    else
      assert Shares(r.state[e]);
      Patched(g, r.state, e, Recorded(r.state[e], u));
      r.(state := r.state[e := Recorded(r.state[e], u)])
  }

  /** bdrv_check_update_perm */
  function CheckUpdate(g: Graph, p: State, b: NodeId, u: Use, skip: set<EdgeId>): (r: Result)
    requires Valid(g) && ValidState(g, p) && b in g.nodes && Sharing(u)
    ensures ValidState(g, r.state)
    decreases g.rank[b], 2, 0
  {
    assert ValidNode(g, b);
    if Conflicts(p, g.nodes[b].parents, skip, u) then Result(p, SharingConflict, true)
    else CheckNode(g, p, b, Join(u, NodeUse(g, p, b, skip)), skip)
  }

  /** bdrv_check_perm */
  function CheckNode(g: Graph, p: State, b: NodeId, u: Use, skip: set<EdgeId>): (r: Result)
    requires Valid(g) && ValidState(g, p) && b in g.nodes && Sharing(u)
    ensures ValidState(g, r.state)
    decreases g.rank[b], 1, 0
  {
    var n := g.nodes[b];
    var tighten := Tightens(u, NodeUse(g, p, b, {}));
    if Refuses(n, u) then Result(p, NodeRefusal, tighten)
    else if !n.drv then Result(p, Granted, tighten)
    else if n.hook.Some? then Result(p, if u in n.hook.value then Granted else NodeRefusal, tighten)
    else
      var r := CheckChildren(g, p, b, 0, u, skip);
      r.(tighten := tighten || r.tighten)
  }

  /** The loop of bdrv_check_perm over the children, from the i-th on */
  function CheckChildren(g: Graph, p: State, b: NodeId, i: nat, u: Use, skip: set<EdgeId>): (r: Result)
    requires Valid(g) && ValidState(g, p) && b in g.nodes && i <= |g.nodes[b].children| && Sharing(u)
    ensures ValidState(g, r.state)
    decreases g.rank[b], 0, |g.nodes[b].children| - i
  {
    if i == |g.nodes[b].children| then Result(p, Granted, false)
    else
      ChildEdge(g, b, i);
      var e := g.nodes[b].children[i];
      var r := CheckEdge(g, p, e, Wanted(g, e, u), skip);
      if r.verdict != Granted then r
      else
        var rest := CheckChildren(g, r.state, b, i + 1, u, skip);
        rest.(tighten := r.tighten || rest.tighten)
  }

  // ----- phase two: abort or set -----

  /** The permissions before the update started. */
  function Origin(ep: EdgePerm): Use {
    if ep.backup.Some? then ep.backup.value else ep.use
  }

  function Restored(ep: EdgePerm): EdgePerm {
    EdgePerm(Origin(ep), None)
  }

  /** bdrv_child_abort_perm_update */
  function AbortEdge(g: Graph, p: State, e: EdgeId): (r: State)
    requires Valid(g) && ValidState(g, p) && e in g.edges
    ensures ValidState(g, r)
    decreases (EdgeEnds(g, e); g.rank[g.edges[e].child]), 3, 0
  {
    EdgeEnds(g, e);
    assert Shares(p[e]);
    Patched(g, p, e, Restored(p[e]));
    AbortNode(g, p[e := Restored(p[e])], g.edges[e].child)
  }

  /** bdrv_abort_perm_update */
  function AbortNode(g: Graph, p: State, b: NodeId): (r: State)
    requires Valid(g) && ValidState(g, p) && b in g.nodes
    ensures ValidState(g, r)
    decreases g.rank[b], 1, 0
  {
    if !g.nodes[b].drv then p else AbortChildren(g, p, b, 0)
  }

  function AbortChildren(g: Graph, p: State, b: NodeId, i: nat): (r: State)
    requires Valid(g) && ValidState(g, p) && b in g.nodes && i <= |g.nodes[b].children|
    ensures ValidState(g, r)
    decreases g.rank[b], 0, |g.nodes[b].children| - i
  {
    if i == |g.nodes[b].children| then p
    else
      ChildEdge(g, b, i);
      AbortChildren(g, AbortEdge(g, p, g.nodes[b].children[i]), b, i + 1)
  }

  /** bdrv_child_set_perm */
  function SetEdge(g: Graph, p: State, e: EdgeId, u: Use): (r: State)
    requires Valid(g) && ValidState(g, p) && e in g.edges && Sharing(u)
    ensures ValidState(g, r)
    decreases (EdgeEnds(g, e); g.rank[g.edges[e].child]), 3, 0
  {
    EdgeEnds(g, e);
    var b := g.edges[e].child;
    var q := p[e := EdgePerm(u, None)];
    Patched(g, p, e, EdgePerm(u, None));
    SetNode(g, q, b, NodeUse(g, q, b, {}))
  }

  /** bdrv_set_perm */
  function SetNode(g: Graph, p: State, b: NodeId, u: Use): (r: State)
    requires Valid(g) && ValidState(g, p) && b in g.nodes && Sharing(u)
    ensures ValidState(g, r)
    decreases g.rank[b], 1, 0
  {
    if !g.nodes[b].drv then p else SetChildren(g, p, b, 0, u)
  }

  function SetChildren(g: Graph, p: State, b: NodeId, i: nat, u: Use): (r: State)
    requires Valid(g) && ValidState(g, p) && b in g.nodes && i <= |g.nodes[b].children| && Sharing(u)
    ensures ValidState(g, r)
    decreases g.rank[b], 0, |g.nodes[b].children| - i
  {
    if i == |g.nodes[b].children| then p
    else
      ChildEdge(g, b, i);
      var e := g.nodes[b].children[i];
      SetChildren(g, SetEdge(g, p, e, Wanted(g, e, u)), b, i + 1, u)
  }

  // ----- what lies below a node -----

  /** Nodes that an update of `b` can visit. */
  function Reach(g: Graph, b: NodeId): set<NodeId>
    requires Valid(g) && b in g.nodes
    decreases g.rank[b], 1, 0
  {
    {b} + if g.nodes[b].drv then ReachFrom(g, b, 0) else {}
  }

  function ReachFrom(g: Graph, b: NodeId, i: nat): set<NodeId>
    requires Valid(g) && b in g.nodes && i <= |g.nodes[b].children|
    decreases g.rank[b], 0, |g.nodes[b].children| - i
  {
    if i == |g.nodes[b].children| then {}
    else
      ChildEdge(g, b, i);
      Reach(g, g.edges[g.nodes[b].children[i]].child) + ReachFrom(g, b, i + 1)
  }

  /** The edge is owned by a node an update of `b` can visit. */
  predicate Below(g: Graph, b: NodeId, e: EdgeId)
    requires Valid(g) && b in g.nodes && e in g.edges
  {
    var o := g.edges[e].owner;
    o.Some? && o.value in g.nodes && o.value in Reach(g, b) && g.nodes[o.value].drv
  }

  /** Everything in reach other than `b` itself ranks lower. */
  lemma {:induction false} ReachRank(g: Graph, b: NodeId, x: NodeId)
    requires Valid(g) && b in g.nodes && x in Reach(g, b)
    ensures x in g.nodes && x in g.rank && (x == b || g.rank[x] < g.rank[b])
    decreases g.rank[b], 1, 0
  {
    if x != b {
      ReachFromRank(g, b, 0, x);
    }
  }

  lemma {:induction false} ReachFromRank(g: Graph, b: NodeId, i: nat, x: NodeId)
    requires Valid(g) && b in g.nodes && i <= |g.nodes[b].children| && x in ReachFrom(g, b, i)
    ensures x in g.nodes && x in g.rank && g.rank[x] < g.rank[b]
    decreases g.rank[b], 0, |g.nodes[b].children| - i
  {
    ChildEdge(g, b, i);
    var c := g.edges[g.nodes[b].children[i]].child;
    if x in Reach(g, c) {
      ReachRank(g, c, x);
    } else {
      ReachFromRank(g, b, i + 1, x);
    }
  }

  lemma {:induction false} ReachFromChild(g: Graph, b: NodeId, i: nat, k: nat)
    requires Valid(g) && b in g.nodes && i <= k < |g.nodes[b].children|
    ensures g.nodes[b].children[k] in g.edges && g.edges[g.nodes[b].children[k]].child in g.nodes
    ensures Reach(g, g.edges[g.nodes[b].children[k]].child) <= ReachFrom(g, b, i)
    decreases k - i
  {
    ChildEdge(g, b, k);
    if i < k {
      ReachFromChild(g, b, i + 1, k);
    }
  }

  /** Reach is what it says: the node, and what its children reach. */
  lemma {:induction false} ReachFromSplit(g: Graph, b: NodeId, i: nat, x: NodeId) returns (k: nat)
    requires Valid(g) && b in g.nodes && i <= |g.nodes[b].children| && x in ReachFrom(g, b, i)
    ensures i <= k < |g.nodes[b].children|
    ensures g.nodes[b].children[k] in g.edges && g.edges[g.nodes[b].children[k]].child in g.nodes
    ensures x in Reach(g, g.edges[g.nodes[b].children[k]].child)
    decreases |g.nodes[b].children| - i
  {
    ChildEdge(g, b, i);
    k := i;
    if x !in Reach(g, g.edges[g.nodes[b].children[i]].child) {
      k := ReachFromSplit(g, b, i + 1, x);
    }
  }

  /** Reach is closed under edges of nodes that have a driver. */
  lemma {:induction false} ReachClosed(g: Graph, b: NodeId, e: EdgeId)
    requires Valid(g) && b in g.nodes && e in g.edges && Below(g, b, e)
    ensures g.edges[e].child in Reach(g, b)
    decreases g.rank[b]
  {
    EdgeEnds(g, e);
    var o := g.edges[e].owner.value;
    if o == b {
      var k :| 0 <= k < |g.nodes[b].children| && g.nodes[b].children[k] == e;
      ReachFromChild(g, b, 0, k);
    } else {
      var k := ReachFromSplit(g, b, 0, o);
      ChildEdge(g, b, k);
      ReachClosed(g, g.edges[g.nodes[b].children[k]].child, e);
      ReachFromChild(g, b, 0, k);
    }
  }
}
