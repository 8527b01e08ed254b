/** Every sequence of operations on the block graph, from the empty graph on. */
module BlockRuns {
  import opened Basics
  import opened BlockPerm
  import opened BlockGraph
  import opened BlockUpdate
  import opened BlockLoosen
  import opened BlockOps
  import opened BlockRewire
  import opened BlockReplace
  import opened BlockInactivate

  datatype Op =
    | NewNode(id: NodeId, node: Node)
    | SetPerm(e: EdgeId, u: Use)
    | Refresh(e: EdgeId)
    | AttachRoot(e: EdgeId, c: Edge, u: Use)
    | AttachBelow(e: EdgeId, parent: NodeId, c: Edge)
    | DetachEdge(e: EdgeId)
    | ReplaceNode(from: NodeId, to: NodeId)
    | InactivateNodes(list: seq<NodeId>)

  /** A node that is not linked yet */
  predicate Unlinked(n: Node) {
    n.children == [] && n.parents == []
  }

  function Added(s: Block, id: NodeId, n: Node): Block {
    s.(g := Graph(s.g.nodes[id := n], s.g.edges, s.g.rank[id := 0]))
  }

  /** What the operations demand of their callers.  A user that is not a node asks for what it
      likes, as long as it shares WRITE_UNCHANGED; a node's edges get what the node wants. */
  ghost predicate Allowed(s: Block, op: Op)
    requires Consistent(s)
  {
    match op
    case NewNode(id, n) => id !in s.g.nodes && Unlinked(n)
    case SetPerm(e, u) => e in s.g.edges && s.g.edges[e].owner == None && Sharing(u)
    case Refresh(e) => e in s.g.edges && s.g.edges[e].owner.Some?
    case AttachRoot(e, c, u) => e !in s.g.edges && c.owner == None && c.child in s.g.nodes && Sharing(u)
    case AttachBelow(e, parent, c) =>
      e !in s.g.edges && c.owner == None && c.child in s.g.nodes && Linkable(s.g, parent, c.child, c.role)
    case DetachEdge(e) => e in s.g.edges
    case ReplaceNode(from, to) => from in s.g.nodes && to in s.g.nodes
    case InactivateNodes(list) => AllDrivers(s.g) && forall k :: 0 <= k < |list| ==> list[k] in s.g.nodes
  }

  /** bdrv_child_refresh_perms */
  function RefreshUse(s: Block, e: EdgeId): (u: Use)
    requires Valid(s.g) && ValidState(s.g, s.p) && e in s.g.edges && s.g.edges[e].owner.Some?
    ensures Sharing(u)
  {
    EdgeEnds(s.g, e);
    Wanted(s.g, e, NodeUse(s.g, s.p, s.g.edges[e].owner.value, {}))
  }

  /** An operation returns, or one of its assertions ends the program. */
  datatype Next = Goes(s: Block) | Dies

  function Apply(s: Block, op: Op): Next
    requires Consistent(s) && Allowed(s, op)
  {
    match op
    case NewNode(id, n) => Goes(Added(s, id, n))
    case SetPerm(e, u) => Goes(TrySet(s, e, u).0)
    case Refresh(e) => Goes(TrySet(s, e, RefreshUse(s, e)).0)
    case AttachRoot(e, c, u) => Goes(Attach(s, e, c, u).0)
    case AttachBelow(e, parent, c) => Goes(AttachChild(s, e, parent, c).0)
    case DetachEdge(e) => if Detach(s, e).1 then Dies else Goes(Detach(s, e).0)
    case ReplaceNode(from, to) => Goes(Replace(s, from, to).0)
    case InactivateNodes(list) =>
      var r := InactivateAll(s, [], list);
      if r.AssertionFails? then Dies else Goes(r.s)
  }

  lemma AddedValid(s: Block, id: NodeId, n: Node)
    requires Consistent(s) && id !in s.g.nodes && Unlinked(n)
    ensures Valid(Added(s, id, n).g) && ValidState(Added(s, id, n).g, s.p)
  {
    var g, h := s.g, Added(s, id, n).g;
    forall e | e in h.edges
      ensures ValidEdge(h, e) && Falls(h, e)
    {
      assert ValidEdge(g, e) && Falls(g, e);
    }
    forall b | b in h.nodes
      ensures ValidNode(h, b)
    {
      if b != id {
        assert ValidNode(g, b);
      }
    }
  }

  /** A new node changes nothing for the others. */
  lemma AddedConsistent(s: Block, id: NodeId, n: Node)
    requires Consistent(s) && id !in s.g.nodes && Unlinked(n)
    ensures Consistent(Added(s, id, n))
  {
    AddedValid(s, id, n);
    forall a: EdgeId, b: EdgeId | Siblings(Added(s, id, n).g, a, b, {})
      ensures Fits(s.p, a, b)
    {
      assert Siblings(s.g, a, b, {});
    }
  }

  lemma AddedSound(s: Block, id: NodeId, n: Node)
    requires Sound(s) && id !in s.g.nodes && Unlinked(n)
    ensures Sound(Added(s, id, n))
  {
    AddedConsistent(s, id, n);
    forall y | y in Added(s, id, n).g.nodes
      ensures Tight(Added(s, id, n).g, s.p, y)
    {
      if y != id {
        assert Tight(s.g, s.p, y);
        AddedTight(s, id, n, y);
      }
    }
  }

  lemma AddedTight(s: Block, id: NodeId, n: Node, y: NodeId)
    requires Sound(s) && id !in s.g.nodes && Unlinked(n) && y in s.g.nodes && Tight(s.g, s.p, y)
    requires Valid(Added(s, id, n).g) && ValidState(Added(s, id, n).g, s.p)
    ensures Tight(Added(s, id, n).g, s.p, y)
  {
    var g, h := s.g, Added(s, id, n).g;
    assert ValidNode(g, y);
    forall e | e in h.nodes[y].children
      ensures SameEdge(g, h, s.p, s.p, e)
    {
      EdgeEnds(g, e);
    }
    TightCarry(g, h, s.p, s.p, y);
  }

  lemma RefreshJustified(s: Block, e: EdgeId)
    requires Sound(s) && e in s.g.edges && s.g.edges[e].owner.Some?
    ensures Justified(s.g, s.p, e, RefreshUse(s, e))
  {
    EdgeEnds(s.g, e);
  }

  /** Every operation keeps the graph consistent, whatever was done to it before. */
  lemma ApplyConsistent(s: Block, op: Op)
    requires Consistent(s) && Allowed(s, op) && Apply(s, op).Goes?
    ensures Consistent(Apply(s, op).s)
  {
    match op
    case NewNode(id, n) => AddedConsistent(s, id, n);
    case SetPerm(e, u) => TrySetKeepsCompat(s, e, u);
    case Refresh(e) => TrySetKeepsCompat(s, e, RefreshUse(s, e));
    case AttachRoot(e, c, u) => AttachKeepsCompat(s, e, c, u);
    case AttachBelow(e, parent, c) => AttachChildKeepsCompat(s, e, parent, c);
    case DetachEdge(e) => DetachKeepsCompat(s, e);
    case ReplaceNode(from, to) => ReplaceKeepsCompat(s, from, to);
    case InactivateNodes(list) =>
  }

  /** Nodes are replaced only where the moved edges stay covered (see ReplaceSoundExactly). */
  ghost predicate Covered(s: Block, op: Op)
    requires Consistent(s) && Allowed(s, op)
  {
    op.ReplaceNode? ==> MoveCovered(s, op.from, op.to)
  }

  /** Covered operations keep the graph sound too, and only the order of inactivation can end the
      program. */
  lemma ApplySound(s: Block, op: Op)
    requires Sound(s) && Allowed(s, op) && Covered(s, op)
    ensures Apply(s, op).Goes? ==> Sound(Apply(s, op).s)
    ensures Apply(s, op).Dies? <==> op.InactivateNodes? && WalkAll(s.g, [], op.list).Stuck?
  {
    match op
    case NewNode(id, n) => AddedSound(s, id, n);
    case SetPerm(e, u) => TrySetSound(s, e, u);
    case Refresh(e) =>
      RefreshJustified(s, e);
      TrySetSound(s, e, RefreshUse(s, e));
    case AttachRoot(e, c, u) => AttachSound(s, e, c, u);
    case AttachBelow(e, parent, c) => AttachChildSound(s, e, parent, c);
    case DetachEdge(e) => DetachNeverTightens(s, e);
    case ReplaceNode(from, to) => ReplaceSound(s, from, to);
    case InactivateNodes(list) => AllFollow(s, [], list);
  }

  // ----- runs -----

  /** One operation.  Consistency is not part of what a run asks for: see RunConsistent. */
  ghost predicate Step(s: Block, op: Op, t: Block) {
    Consistent(s) ==> Allowed(s, op) && Apply(s, op) == Goes(t)
  }

  /** Operations from the empty graph on, up to the first assertion that fails, if one does */
  ghost predicate Run(states: seq<Block>, ops: seq<Op>) {
    && |states| == |ops| + 1 && states[0] == Block(Graph(map[], map[], map[]), map[])
    && forall k :: 0 <= k < |ops| ==> Step(states[k], ops[k], states[k + 1])
  }

  /** After any run of operations the graph is acyclic, any two parents of a node are compatible,
      and no update is left half done. */
  lemma {:induction false} RunConsistent(states: seq<Block>, ops: seq<Op>)
    requires Run(states, ops)
    ensures Consistent(states[|ops|])
  {
    if |ops| > 0 {
      var n := |ops| - 1;
      RunConsistent(states[..n + 1], ops[..n]);
      assert Step(states[n], ops[n], states[n + 1]);
      ApplyConsistent(states[n], ops[n]);
    }
  }

  /** In particular any two uses of a node are compatible with each other. */
  lemma UsesCompatible(states: seq<Block>, ops: seq<Op>, a: EdgeId, b: EdgeId)
    requires Run(states, ops)
    requires var g := states[|ops|].g; a in g.edges && b in g.edges && a != b && g.edges[a].child == g.edges[b].child
    ensures var s := states[|ops|]; a in s.p && b in s.p && s.p[a].use.perm <= s.p[b].use.shared
  {
    RunConsistent(states, ops);
    var s := states[|ops|];
    assert Siblings(s.g, a, b, {}) && Fits(s.p, a, b);
  }

  /** Every replacement of the run was covered. */
  ghost predicate CoveredRun(states: seq<Block>, ops: seq<Op>)
    requires |states| == |ops| + 1
  {
    forall k :: 0 <= k < |ops| && Consistent(states[k]) && Allowed(states[k], ops[k]) ==> Covered(states[k], ops[k])
  }

  /** After such a run every node's children are covered as well. */
  lemma {:induction false} RunSound(states: seq<Block>, ops: seq<Op>)
    requires Run(states, ops) && CoveredRun(states, ops)
    ensures Sound(states[|ops|])
  {
    if |ops| > 0 {
      var n := |ops| - 1;
      RunSound(states[..n + 1], ops[..n]);
      assert Step(states[n], ops[n], states[n + 1]) && Covered(states[n], ops[n]);
      ApplySound(states[n], ops[n]);
    }
  }

  /** So after such a run taking a parent away never fails the assertion of bdrv_replace_child. */
  lemma DetachIsSafe(states: seq<Block>, ops: seq<Op>, e: EdgeId)
    requires Run(states, ops) && CoveredRun(states, ops) && e in states[|ops|].g.edges
    ensures var s := states[|ops|]; Sound(s) && Apply(s, DetachEdge(e)).Goes? && Sound(Apply(s, DetachEdge(e)).s)
  {
    RunSound(states, ops);
    DetachNeverTightens(states[|ops|], e);
  }

  // ----- a run that ends in a failing assertion -----

  /** Attaching to a node that has neither parents nor children */
  lemma AttachLeaf(s: Block, id: EdgeId, c: Edge, u: Use)
    requires Consistent(s) && id !in s.g.edges && c.owner == None && c.child in s.g.nodes && Sharing(u)
    requires Unlinked(s.g.nodes[c.child]) && s.g.nodes[c.child].hook == None && !Refuses(s.g.nodes[c.child], u)
    ensures Attach(s, id, c, u) == (Block(AttachShape(s.g, id, c), s.p[id := EdgePerm(u, None)]), true)
  {
    var b := c.child;
    var h, q := AttachShape(s.g, id, c), s.p[id := EdgePerm(u, None)];
    JoinNothing(u);
    assert CheckUpdate(s.g, s.p, b, u, {}) == CheckNode(s.g, s.p, b, u, {});
    assert CheckNode(s.g, s.p, b, u, {}).verdict == Granted && CheckNode(s.g, s.p, b, u, {}).state == s.p;
    AttachValid(s.g, id, c);
    AttachState(s.g, s.p, id, c, u);
    assert h.nodes[b].children == [] && SetNode(h, q, b, NodeUse(h, q, b, {})) == q;
  }

  lemma Longer(states: seq<Block>, ops: seq<Op>, op: Op, t: Block)
    requires Run(states, ops) && Consistent(states[|ops|]) && Allowed(states[|ops|], op)
    requires Apply(states[|ops|], op) == Goes(t)
    ensures Run(states + [t], ops + [op])
  {
    var ss, oo := states + [t], ops + [op];
    forall k | 0 <= k < |oo|
      ensures Step(ss[k], oo[k], ss[k + 1])
    {
      if k < |ops| {
        assert Step(states[k], ops[k], states[k + 1]);
      }
    }
  }

  /** A new node as `BlockReplace.LostGraph` has it, not linked yet */
  function Bare(forceShare: bool): Node {
    Node(true, None, Flags(false, false, false), forceShare, true, [], [])
  }

  /** Nodes 0 and 1, and a user of node 0 that takes nothing */
  lemma LostPair() returns (states: seq<Block>, ops: seq<Op>)
    ensures Run(states, ops)
    ensures var s, n := states[|ops|], Bare(false);
            && s.g.nodes == map[0 := n.(parents := [1]), 1 := Bare(true)]
            && s.g.edges == map[1 := LostGraph().edges[1]] && s.g.rank == map[0 := 0, 1 := 0]
            && s.p == map[1 := EdgePerm(NOTHING, None)]
  {
    var e := Block(Graph(map[], map[], map[]), map[]);
    states, ops := [e], [];
    RunConsistent(states, ops);
    var s1 := Added(e, 0, Bare(false));
    Longer(states, ops, NewNode(0, Bare(false)), s1);
    states, ops := states + [s1], ops + [NewNode(0, Bare(false))];
    RunConsistent(states, ops);
    var s2 := Added(s1, 1, Bare(true));
    Longer(states, ops, NewNode(1, Bare(true)), s2);
    states, ops := states + [s2], ops + [NewNode(1, Bare(true))];
    RunConsistent(states, ops);
    var c := LostGraph().edges[1];
    AttachLeaf(s2, 1, c, NOTHING);
    var s3 := Block(AttachShape(s2.g, 1, c), s2.p[1 := EdgePerm(NOTHING, None)]);
    Longer(states, ops, AttachRoot(1, c, NOTHING), s3);
    states, ops := states + [s3], ops + [AttachRoot(1, c, NOTHING)];
    assert [1] + [] == [1];
  }

  /** Node 1 becomes a child of node 0, and node 2 is added: the graph of `BlockReplace.ForceShareLost`. */
  lemma LostReached() returns (states: seq<Block>, ops: seq<Op>)
    ensures Run(states, ops) && states[|ops|] == Block(LostGraph(), LostState())
  {
    states, ops := LostPair();
    RunConsistent(states, ops);
    var s := states[|ops|];
    var c := LostGraph().edges[0].(owner := None);
    var t := LostLinked(s, c);
    Longer(states, ops, AttachBelow(0, 0, c), t);
    states, ops := states + [t], ops + [AttachBelow(0, 0, c)];
    RunConsistent(states, ops);
    var r := Added(t, 2, Bare(false));
    assert r.g == LostGraph() && r.p == LostState();
    Longer(states, ops, NewNode(2, Bare(false)), r);
    states, ops := states + [r], ops + [NewNode(2, Bare(false))];
  }

  lemma LostLinked(s: Block, c: Edge) returns (t: Block)
    requires Consistent(s) && c == LostGraph().edges[0].(owner := None)
    requires s.g.nodes == map[0 := Bare(false).(parents := [1]), 1 := Bare(true)]
    requires s.g.edges == map[1 := LostGraph().edges[1]] && s.g.rank == map[0 := 0, 1 := 0]
    requires s.p == map[1 := EdgePerm(NOTHING, None)]
    ensures Linkable(s.g, 0, 1, c.role) && AttachChild(s, 0, 0, c) == (t, true)
    ensures t.g.nodes == map[0 := LostGraph().nodes[0], 1 := LostGraph().nodes[1]]
    ensures t.g.edges == LostGraph().edges && t.g.rank == map[0 := 1, 1 := 0] && t.p == LostState()
  {
    LeafReach(s.g, 1);
    LostAsked(s, c.role);
    var u := Use({ConsistentRead}, ALL);
    AttachLeaf(s, 0, c, u);
    var h := AttachShape(s.g, 0, c);
    AttachValid(s.g, 0, c);
    assert [0] + [] == [0];
    LostLink(h, c);
    t := Block(LinkShape(h, 0, 0), s.p[0 := EdgePerm(u, None)]);
  }

  lemma LostLink(h: Graph, c: Edge)
    requires Valid(h) && c == LostGraph().edges[0].(owner := None)
    requires h.nodes == map[0 := Bare(false).(parents := [1]), 1 := Bare(true).(parents := [0])]
    requires h.edges == map[0 := c, 1 := LostGraph().edges[1]] && h.rank == map[0 := 0, 1 := 0]
    ensures var l := LinkShape(h, 0, 0);
            && l.nodes == map[0 := LostGraph().nodes[0], 1 := LostGraph().nodes[1]]
            && l.edges == LostGraph().edges && l.rank == map[0 := 1, 1 := 0]
  {
    LeafReach(h, 1);
    assert [0] + [] == [0];
  }

  lemma LeafReach(g: Graph, b: NodeId)
    requires Valid(g) && b in g.nodes && g.nodes[b].children == []
    ensures Reach(g, b) == {b}
  {
  }

  /** What node 0 wants of a force-shared child that holds its metadata */
  lemma LostAsked(s: Block, role: Role)
    requires Consistent(s) && 0 in s.g.nodes && s.g.nodes[0] == Bare(false).(parents := [1])
    requires s.p == map[1 := EdgePerm(NOTHING, None)] && role == Role(false, true, false, false)
    ensures ChildPerm(s.g.nodes[0].flags, role, true, NodeUse(s.g, s.p, 0, {})) == Use({ConsistentRead}, ALL)
  {
    assert [1][1..] == [];
    assert Cumulative(s.p, [], {}) == NOTHING;
    JoinNothing(NOTHING);
  }

  /** So a run from the empty graph ends with the assertion in bdrv_replace_child failing: nodes are
      created and linked, the force-shared one is replaced, and a user is detached. */
  lemma ForceShareReached() returns (states: seq<Block>, ops: seq<Op>)
    ensures Run(states, ops) && Consistent(states[|ops|]) && Allowed(states[|ops|], DetachEdge(1))
    ensures Apply(states[|ops|], DetachEdge(1)).Dies?
  {
    states, ops := LostReached();
    RunConsistent(states, ops);
    ForceShareLost();
    var t := Replace(states[|ops|], 1, 2).0;
    Longer(states, ops, ReplaceNode(1, 2), t);
    states, ops := states + [t], ops + [ReplaceNode(1, 2)];
  }
}
