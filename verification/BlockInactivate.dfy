/** bdrv_inactivate_recurse and bdrv_inactivate_all of block.c: nodes are inactivated parents
    first, by recursion from whichever parent is inactivated last. */
module BlockInactivate {
  import opened Basics
  import opened BlockPerm
  import opened BlockGraph
  import opened BlockUpdate
  import opened BlockLoosen
  import opened BlockOps
  import opened BlockRewire

  ghost predicate AllDrivers(g: Graph) {
    forall b :: b in g.nodes ==> g.nodes[b].drv
  }

  /** A consistent graph in which every node has a driver */
  ghost predicate Driven(s: Block) {
    Consistent(s) && AllDrivers(s.g)
  }

  type DrivenBlock = s: Block | Driven(s) ghost witness Block(Graph(map[], map[], map[]), map[])

  /** A sound one */
  ghost predicate Ready(s: Block) {
    Sound(s) && AllDrivers(s.g)
  }

  type ReadyBlock = s: Block | Ready(s) ghost witness Block(Graph(map[], map[], map[]), map[])

  /** `log` lists the nodes inactivated so far, in order. */
  datatype Outcome = Done(s: DrivenBlock, log: seq<NodeId>) | AssertionFails

  predicate Inactive(g: Graph, b: NodeId)
    requires b in g.nodes
  {
    g.nodes[b].flags.inactive
  }

  /** Node `x` owns an edge to node `b`: a parent that is itself a node. */
  predicate ParentOf(g: Graph, x: NodeId, b: NodeId) {
    exists e :: e in g.edges && g.edges[e].owner == Some(x) && g.edges[e].child == b
  }

  /** bdrv_has_bds_parent(bs, true) */
  predicate HasActiveParent(g: Graph, b: NodeId) {
    exists x :: x in g.nodes && ParentOf(g, x, b) && !Inactive(g, x)
  }

  /** bdrv_has_bds_parent(bs, false) */
  predicate HasParent(g: Graph, b: NodeId) {
    exists x :: x in g.nodes && ParentOf(g, x, b)
  }

  // ----- setting BDRV_O_INACTIVE -----

  function Mark(g: Graph, b: NodeId): Graph
    requires b in g.nodes
  {
    g.(nodes := g.nodes[b := g.nodes[b].(flags := g.nodes[b].flags.(inactive := true))])
  }

  /** Two graphs that differ at most in inactive flags. */
  ghost predicate SameShape(g: Graph, h: Graph) {
    && g.edges == h.edges && g.rank == h.rank && g.nodes.Keys == h.nodes.Keys
    && forall y {:trigger SameNode(g.nodes[y], h.nodes[y])} :: y in g.nodes ==> SameNode(g.nodes[y], h.nodes[y])
  }

  predicate SameNode(n: Node, m: Node) {
    m == n.(flags := n.flags.(inactive := m.flags.inactive))
  }

  lemma ReachSameShape(g: Graph, h: Graph, b: NodeId)
    requires Valid(g) && Valid(h) && SameShape(g, h) && b in g.nodes
    ensures Reach(h, b) == Reach(g, b)
  {
    forall y | y in Reach(g, b)
      ensures AgreeShape(g, h, y)
    {
      ReachRank(g, b, y);
      assert ValidNode(g, y) && SameNode(g.nodes[y], h.nodes[y]);
    }
    ReachAgree(g, h, b);
  }

  lemma MarkValid(g: Graph, b: NodeId)
    requires Valid(g) && b in g.nodes
    ensures Valid(Mark(g, b)) && SameShape(g, Mark(g, b))
  {
    var h := Mark(g, b);
    forall x | x in h.edges
      ensures ValidEdge(h, x) && Falls(h, x)
    {
      assert ValidEdge(g, x) && Falls(g, x);
    }
    forall y | y in h.nodes
      ensures ValidNode(h, y)
    {
      assert ValidNode(g, y);
    }
  }

  lemma MarkConsistent(s: Block, b: NodeId)
    requires Consistent(s) && b in s.g.nodes
    ensures Consistent(Block(Mark(s.g, b), s.p))
  {
    MarkValid(s.g, b);
    forall x: EdgeId, y: EdgeId | Siblings(Mark(s.g, b), x, y, {})
      ensures Fits(s.p, x, y)
    {
      assert Siblings(s.g, x, y, {});
    }
  }

  /** An inactive node wants no more of its children than an active one. */
  lemma MarkSound(s: Block, b: NodeId)
    requires Sound(s) && b in s.g.nodes
    ensures Sound(Block(Mark(s.g, b), s.p))
  {
    var g, p, h := s.g, s.p, Mark(s.g, b);
    MarkConsistent(s, b);
    forall y | y in h.nodes
      ensures Tight(h, p, y)
    {
      assert Tight(g, p, y);
      if g.nodes[y].drv {
        var u := NodeUse(g, p, y, {});
        forall k | 0 <= k < |h.nodes[y].children|
          ensures CoversAt(h, p, y, k, u)
        {
          ChildEdge(g, y, k);
          var e := g.nodes[y].children[k];
          assert CoversAt(g, p, y, k, u) && ValidEdge(g, e);
          InactiveLooser(g.nodes[y].flags, g.edges[e].role, g.nodes[g.edges[e].child].forceShare, u);
        }
      }
    }
  }

  // ----- the recursion -----

  lemma SameShapeChain(f: Graph, g: Graph, h: Graph)
    requires SameShape(f, g) && SameShape(g, h)
    ensures SameShape(f, h)
  {
    forall y | y in f.nodes
      ensures SameNode(f.nodes[y], h.nodes[y])
    {
      assert SameNode(f.nodes[y], g.nodes[y]) && SameNode(g.nodes[y], h.nodes[y]);
    }
  }

  const NOTHING: Use := Use({}, ALL)

  /** A user that blk_root_inactivate makes give up its permissions, if it has any */
  predicate Gives(s: Block, e: EdgeId) {
    && e in s.g.edges && s.g.edges[e].owner == None && s.g.edges[e].quits
    && e in s.p && s.p[e].use != NOTHING
  }

  /** The users of node `b` are told, from the i-th parent on.  The second result says that one of
      them could not give up its permissions, which ends the program. */
  function TellUsers(s: Block, b: NodeId, i: nat): (r: (Block, bool))
    requires Consistent(s) && b in s.g.nodes && i <= |s.g.nodes[b].parents|
    ensures Consistent(r.0) && r.0.g == s.g
    decreases |s.g.nodes[b].parents| - i
  {
    if i == |s.g.nodes[b].parents| then (s, false)
    else
      var e := s.g.nodes[b].parents[i];
      if Gives(s, e) then
        TrySetKeepsCompat(s, e, NOTHING);
        var (t, err) := TrySet(s, e, NOTHING);
        if err then (t, true) else TellUsers(t, b, i + 1)
      else TellUsers(s, b, i + 1)
  }

  lemma NothingIsLooser(u: Use)
    ensures Looser(NOTHING, u)
  {
    forall x | x in u.shared
      ensures x in ALL
    {
      EveryPerm(x);
    }
  }

  /** Where children are covered, giving up permissions never fails. */
  lemma {:induction false} TellUsersSound(s: Block, b: NodeId, i: nat)
    requires Sound(s) && b in s.g.nodes && i <= |s.g.nodes[b].parents|
    ensures Sound(TellUsers(s, b, i).0) && !TellUsers(s, b, i).1
    decreases |s.g.nodes[b].parents| - i
  {
    if i < |s.g.nodes[b].parents| {
      var e := s.g.nodes[b].parents[i];
      if Gives(s, e) {
        EdgeEnds(s.g, e);
        NothingIsLooser(s.p[e].use);
        LoosenEdge(s.g, s.p, e, NOTHING, {});
        TrySetKeepsCompat(s, e, NOTHING);
        TrySetSound(s, e, NOTHING);
        TellUsersSound(TrySet(s, e, NOTHING).0, b, i + 1);
      } else {
        TellUsersSound(s, b, i + 1);
      }
    }
  }

  /** Inactivate one node: tell its users, set its flag, then update permissions, which differ for
      inactive nodes.  The second result says that an assertion fails. */
  function InactivateOne(s: DrivenBlock, b: NodeId): (Block, bool)
    requires b in s.g.nodes
  {
    var (t, fails) := TellUsers(s, b, 0);
    MarkValid(t.g, b);
    if fails then (t, true) else Settle(Block(Mark(t.g, b), t.p), b)
  }

  lemma InactivateOneDriven(s: DrivenBlock, b: NodeId)
    requires b in s.g.nodes
    ensures var (t, fails) := InactivateOne(s, b);
            !fails ==> Driven(t) && t.g == Mark(s.g, b) && SameShape(s.g, t.g)
  {
    var t := TellUsers(s, b, 0).0;
    MarkValid(t.g, b);
    MarkConsistent(t, b);
    SettleConsistent(Block(Mark(t.g, b), t.p), b);
  }

  /** On a sound graph the permission update asserted not to tighten does not. */
  lemma InactivateOneReady(s: ReadyBlock, b: NodeId)
    requires b in s.g.nodes
    ensures var (t, fails) := InactivateOne(s, b);
            Ready(t) && t.g == Mark(s.g, b) && SameShape(s.g, t.g) && !fails
  {
    var t := TellUsers(s, b, 0).0;
    TellUsersSound(s, b, 0);
    MarkValid(t.g, b);
    MarkSound(t, b);
    SettleSound(Block(Mark(t.g, b), t.p), b);
  }

  /** bdrv_inactivate_recurse; AssertionFails when one of its assertions does. */
  function Inactivate(s: DrivenBlock, log: seq<NodeId>, b: NodeId): (r: Outcome)
    requires b in s.g.nodes
    ensures r.Done? ==> SameShape(s.g, r.s.g)
    decreases s.g.rank[b], 1, 0
  {
    if HasActiveParent(s.g, b) then Done(s, log)
    else if Inactive(s.g, b) then AssertionFails
    else
      InactivateOneDriven(s, b);
      var (t, fails) := InactivateOne(s, b);
      if fails then AssertionFails
      else
        var r := InactivateChildren(t, log + [b], b, 0);
        assert r.Done? ==> SameShape(s.g, r.s.g) by {
          if r.Done? {
            SameShapeChain(s.g, t.g, r.s.g);
          }
        }
        r
  }

  function InactivateChildren(s: DrivenBlock, log: seq<NodeId>, b: NodeId, i: nat): (r: Outcome)
    requires b in s.g.nodes && i <= |s.g.nodes[b].children|
    ensures r.Done? ==> SameShape(s.g, r.s.g)
    decreases s.g.rank[b], 0, |s.g.nodes[b].children| - i
  {
    if i == |s.g.nodes[b].children| then Done(s, log)
    else
      ChildEdge(s.g, b, i);
      var r := Inactivate(s, log, s.g.edges[s.g.nodes[b].children[i]].child);
      if r.AssertionFails? then AssertionFails
      else
        assert SameNode(s.g.nodes[b], r.s.g.nodes[b]);
        var r2 := InactivateChildren(r.s, r.log, b, i + 1);
        assert r2.Done? ==> SameShape(s.g, r2.s.g) by {
          if r2.Done? {
            SameShapeChain(s.g, r.s.g, r2.s.g);
          }
        }
        r2
  }

  /** bdrv_inactivate_all over the nodes that bdrv_first and bdrv_next deliver */
  function InactivateAll(s: DrivenBlock, log: seq<NodeId>, list: seq<NodeId>): (r: Outcome)
    requires forall k :: 0 <= k < |list| ==> list[k] in s.g.nodes
    ensures r.Done? ==> SameShape(s.g, r.s.g)
    decreases list
  {
    if list == [] then Done(s, log)
    else if HasParent(s.g, list[0]) then InactivateAll(s, log, list[1..])
    else
      var r := Inactivate(s, log, list[0]);
      if r.AssertionFails? then AssertionFails
      else
        var r2 := InactivateAll(r.s, r.log, list[1..]);
        assert r2.Done? ==> SameShape(s.g, r2.s.g) by {
          if r2.Done? {
            SameShapeChain(s.g, r.s.g, r2.s.g);
          }
        }
        r2
  }

  function Child(g: Graph, b: NodeId, k: nat): (c: NodeId)
    requires Valid(g) && b in g.nodes && k < |g.nodes[b].children|
    ensures c in g.nodes && c in g.rank && g.rank[c] < g.rank[b]
  {
    ChildEdge(g, b, k);
    g.edges[g.nodes[b].children[k]].child
  }

  /** One round of the loop over the children */
  lemma InactivateFirst(s: DrivenBlock, log: seq<NodeId>, b: NodeId, i: nat)
    requires b in s.g.nodes && i < |s.g.nodes[b].children|
    ensures var r := Inactivate(s, log, Child(s.g, b, i));
            if r.AssertionFails? then InactivateChildren(s, log, b, i).AssertionFails?
            else
              && b in r.s.g.nodes && r.s.g.nodes[b].children == s.g.nodes[b].children && r.s.g.rank == s.g.rank
              && InactivateChildren(s, log, b, i) == InactivateChildren(r.s, r.log, b, i + 1)
  {
    var r := Inactivate(s, log, Child(s.g, b, i));
    if r.Done? {
      assert SameNode(s.g.nodes[b], r.s.g.nodes[b]);
    }
  }

  // ----- the order of the recursion, without the permissions -----

  /** Which nodes the recursion inactivates, and in which order; Stuck where an assertion fails. */
  datatype Walk = Walked(g: Graph, log: seq<NodeId>) | Stuck

  function WalkNode(g: Graph, log: seq<NodeId>, b: NodeId): (r: Walk)
    requires Valid(g) && b in g.nodes
    ensures r.Walked? ==> Valid(r.g) && SameShape(g, r.g)
    decreases g.rank[b], 1, 0
  {
    if HasActiveParent(g, b) then Walked(g, log)
    else if Inactive(g, b) then Stuck
    else
      MarkValid(g, b);
      var r := WalkChildren(Mark(g, b), log + [b], b, 0);
      assert r.Walked? ==> SameShape(g, r.g) by {
        if r.Walked? {
          SameShapeChain(g, Mark(g, b), r.g);
        }
      }
      r
  }

  function WalkChildren(g: Graph, log: seq<NodeId>, b: NodeId, i: nat): (r: Walk)
    requires Valid(g) && b in g.nodes && i <= |g.nodes[b].children|
    ensures r.Walked? ==> Valid(r.g) && SameShape(g, r.g)
    decreases g.rank[b], 0, |g.nodes[b].children| - i
  {
    if i == |g.nodes[b].children| then Walked(g, log)
    else
      var r := WalkNode(g, log, Child(g, b, i));
      if r.Stuck? then Stuck
      else
        assert SameNode(g.nodes[b], r.g.nodes[b]);
        var q := WalkChildren(r.g, r.log, b, i + 1);
        assert q.Walked? ==> SameShape(g, q.g) by {
          if q.Walked? {
            SameShapeChain(g, r.g, q.g);
          }
        }
        q
  }

  function WalkAll(g: Graph, log: seq<NodeId>, list: seq<NodeId>): (r: Walk)
    requires Valid(g) && forall k :: 0 <= k < |list| ==> list[k] in g.nodes
    ensures r.Walked? ==> Valid(r.g) && SameShape(g, r.g)
    decreases list
  {
    if list == [] then Walked(g, log)
    else if HasParent(g, list[0]) then WalkAll(g, log, list[1..])
    else
      var r := WalkNode(g, log, list[0]);
      if r.Stuck? then Stuck
      else
        var q := WalkAll(r.g, r.log, list[1..]);
        assert q.Walked? ==> SameShape(g, q.g) by {
          if q.Walked? {
            SameShapeChain(g, r.g, q.g);
          }
        }
        q
  }

  ghost predicate Follows(r: Outcome, w: Walk) {
    if w.Walked? then r.Done? && Sound(r.s) && r.s.g == w.g && r.log == w.log else r.AssertionFails?
  }

  /** On a sound graph the permission updates never stop the recursion nor change its course, and the
      graph stays sound. */
  lemma {:induction false} InactivateFollows(s: ReadyBlock, log: seq<NodeId>, b: NodeId)
    requires b in s.g.nodes
    ensures Follows(Inactivate(s, log, b), WalkNode(s.g, log, b))
    decreases s.g.rank[b], 1, 0
  {
    if !HasActiveParent(s.g, b) && !Inactive(s.g, b) {
      InactivateOneReady(s, b);
      ChildrenFollow(InactivateOne(s, b).0, log + [b], b, 0);
    }
  }

  lemma {:induction false} ChildrenFollow(s: ReadyBlock, log: seq<NodeId>, b: NodeId, i: nat)
    requires b in s.g.nodes && i <= |s.g.nodes[b].children|
    ensures Follows(InactivateChildren(s, log, b, i), WalkChildren(s.g, log, b, i))
    decreases s.g.rank[b], 0, |s.g.nodes[b].children| - i
  {
    if i < |s.g.nodes[b].children| {
      RestFollows(s, log, b, i);
    }
  }

  lemma {:induction false} RestFollows(s: ReadyBlock, log: seq<NodeId>, b: NodeId, i: nat)
    requires b in s.g.nodes && i < |s.g.nodes[b].children|
    ensures Follows(InactivateChildren(s, log, b, i), WalkChildren(s.g, log, b, i))
    decreases s.g.rank[b], 0, |s.g.nodes[b].children| - i, 0
  {
    var r := Inactivate(s, log, Child(s.g, b, i));
    InactivateFollows(s, log, Child(s.g, b, i));
    FollowFirst(s, log, b, i, r);
    if r.Done? {
      ChildrenFollow(r.s, r.log, b, i + 1);
    }
  }

  lemma FollowFirst(s: ReadyBlock, log: seq<NodeId>, b: NodeId, i: nat, r: Outcome)
    requires b in s.g.nodes && i < |s.g.nodes[b].children| && r == Inactivate(s, log, Child(s.g, b, i))
    requires Follows(r, WalkNode(s.g, log, Child(s.g, b, i)))
    ensures r.AssertionFails? ==>
              InactivateChildren(s, log, b, i).AssertionFails? && WalkChildren(s.g, log, b, i).Stuck?
    ensures r.Done? ==>
              && Ready(r.s) && b in r.s.g.nodes && r.s.g.rank == s.g.rank
              && r.s.g.nodes[b].children == s.g.nodes[b].children
              && InactivateChildren(s, log, b, i) == InactivateChildren(r.s, r.log, b, i + 1)
              && WalkChildren(s.g, log, b, i) == WalkChildren(r.s.g, r.log, b, i + 1)
  {
    InactivateFirst(s, log, b, i);
    WalkFirst(s.g, log, b, i);
  }

  lemma WalkFirst(g: Graph, log: seq<NodeId>, b: NodeId, i: nat)
    requires Valid(g) && b in g.nodes && i < |g.nodes[b].children|
    ensures var r := WalkNode(g, log, Child(g, b, i));
            if r.Stuck? then WalkChildren(g, log, b, i).Stuck?
            else
              && r.g.nodes[b].children == g.nodes[b].children && r.g.rank == g.rank
              && WalkChildren(g, log, b, i) == WalkChildren(r.g, r.log, b, i + 1)
  {
    var r := WalkNode(g, log, Child(g, b, i));
    if r.Walked? {
      assert SameNode(g.nodes[b], r.g.nodes[b]);
    }
  }

  lemma {:induction false} AllFollow(s: ReadyBlock, log: seq<NodeId>, list: seq<NodeId>)
    requires forall k :: 0 <= k < |list| ==> list[k] in s.g.nodes
    ensures Follows(InactivateAll(s, log, list), WalkAll(s.g, log, list))
    decreases list
  {
    if list != [] {
      if HasParent(s.g, list[0]) {
        AllFollow(s, log, list[1..]);
      } else {
        InactivateFollows(s, log, list[0]);
        var r := Inactivate(s, log, list[0]);
        if r.Done? {
          AllFollow(r.s, r.log, list[1..]);
        }
      }
    }
  }

  // ----- what the log says -----

  /** The log lists exactly the inactive nodes, each once and after all of its parents. */
  ghost predicate Ordered(g: Graph, log: seq<NodeId>) {
    && (forall b {:trigger b in log} :: b in log <==> b in g.nodes && Inactive(g, b))
    && (forall i, j :: 0 <= i < j < |log| ==> log[i] != log[j])
    && (forall j, x :: 0 <= j < |log| && ParentOf(g, x, log[j]) ==> x in log[..j])
  }

  /** No child of a node can be reached from an earlier child of the same node. */
  ghost predicate LaterUnreached(g: Graph)
    requires Valid(g)
  {
    forall b, i, j {:trigger LaterAt(g, b, i, j)} ::
      b in g.nodes && 0 <= i < j < |g.nodes[b].children| ==> LaterAt(g, b, i, j)
  }

  ghost predicate LaterAt(g: Graph, b: NodeId, i: nat, j: nat)
    requires Valid(g) && b in g.nodes && i < j < |g.nodes[b].children|
  {
    ChildEdge(g, b, i);
    ChildEdge(g, b, j);
    g.edges[g.nodes[b].children[j]].child !in Reach(g, g.edges[g.nodes[b].children[i]].child)
  }

  /** Active, with node parents, all of them inactive: such a node still has to be visited. */
  predicate Orphan(g: Graph, c: NodeId) {
    c in g.nodes && !Inactive(g, c) && HasParent(g, c) && !HasActiveParent(g, c)
  }

  /** From `g` to `h` only nodes of `r` were inactivated, and none was reactivated. */
  ghost predicate Progress(g: Graph, h: Graph, r: set<NodeId>) {
    && g.edges == h.edges && g.nodes.Keys == h.nodes.Keys
    && forall y {:trigger Inactive(h, y)} :: y in g.nodes ==>
                                               && (Inactive(g, y) ==> Inactive(h, y))
                                               && (Inactive(h, y) && !Inactive(g, y) ==> y in r)
  }

  /** Every node waiting in `h` was waiting in `g` already, and none of `visited` waits. */
  ghost predicate Settled(g: Graph, h: Graph, visited: set<NodeId>) {
    forall c {:trigger Orphan(h, c)} :: Orphan(h, c) ==> Orphan(g, c) && c !in visited
  }

  /** What a successful stretch of the recursion does: only nodes of `reach` are inactivated, the
      log grows in order, and after it nobody new waits. */
  ghost predicate Stretch(g: Graph, r: Walk, reach: set<NodeId>, visited: set<NodeId>) {
    r.Walked? && Ordered(r.g, r.log) && Progress(g, r.g, reach) && Settled(g, r.g, visited)
  }

  lemma StretchChain(f: Graph, q: Walk, r: Walk, a: set<NodeId>, b: set<NodeId>, u: set<NodeId>, v: set<NodeId>)
    requires Stretch(f, q, a, u) && Stretch(q.g, r, b, v)
    ensures Stretch(f, r, a + b, u + v)
  {
    ProgressChain(f, q.g, r.g, a, b);
    forall c | Orphan(r.g, c)
      ensures Orphan(f, c) && c !in u + v
    {
      assert Orphan(q.g, c);
    }
  }

  lemma StretchJoin(f: Graph, q: Walk, r: Walk, a: set<NodeId>, b: set<NodeId>, u: set<NodeId>, v: set<NodeId>,
                    c: set<NodeId>, w: set<NodeId>)
    requires Stretch(f, q, a, u) && Stretch(q.g, r, b, v) && c == a + b && w == u + v
    ensures Stretch(f, r, c, w)
  {
    StretchChain(f, q, r, a, b, u, v);
  }

  lemma MarkOrdered(g: Graph, log: seq<NodeId>, b: NodeId)
    requires b in g.nodes && Ordered(g, log) && !Inactive(g, b) && !HasActiveParent(g, b)
    requires forall x :: ParentOf(g, x, b) ==> x in g.nodes
    ensures Ordered(Mark(g, b), log + [b])
  {
    var h, log2 := Mark(g, b), log + [b];
    assert b !in log;
    forall c
      ensures c in log2 <==> c in h.nodes && Inactive(h, c)
    {
      assert c in log2 <==> c in log || c == b;
    }
    forall j, x | 0 <= j < |log2| && ParentOf(h, x, log2[j])
      ensures x in log2[..j]
    {
      assert ParentOf(g, x, log2[j]);
      if j < |log| {
        assert log2[..j] == log[..j];
      } else {
        assert log2[..j] == log;
      }
    }
  }

  /** Marking `b` makes nobody wait except the children of `b`. */
  lemma MarkOrphans(g: Graph, b: NodeId, c: NodeId)
    requires Valid(g) && b in g.nodes && Valid(Mark(g, b)) && Orphan(Mark(g, b), c)
    requires c !in ChildrenFrom(Mark(g, b), b, 0)
    ensures Orphan(g, c) && c != b
  {
    var h := Mark(g, b);
    if ParentOf(h, b, c) {
      ParentHasChild(h, b, c);
    }
    forall x | x in g.nodes && ParentOf(g, x, c)
      ensures Inactive(g, x)
    {
      assert ParentOf(h, x, c);
    }
    var z :| z in h.nodes && ParentOf(h, z, c);
    assert ParentOf(g, z, c);
  }

  lemma OwnerIsNode(g: Graph, x: NodeId, b: NodeId)
    requires Valid(g) && ParentOf(g, x, b)
    ensures x in g.nodes && b in g.nodes
  {
    var e :| e in g.edges && g.edges[e].owner == Some(x) && g.edges[e].child == b;
    EdgeEnds(g, e);
  }

  /** The child nodes of `b` from the i-th on */
  function ChildrenFrom(g: Graph, b: NodeId, i: nat): (r: set<NodeId>)
    requires Valid(g) && b in g.nodes && i <= |g.nodes[b].children|
    ensures forall k {:trigger Child(g, b, k)} :: i <= k < |g.nodes[b].children| ==> Child(g, b, k) in r
    decreases |g.nodes[b].children| - i
  {
    if i == |g.nodes[b].children| then {} else {Child(g, b, i)} + ChildrenFrom(g, b, i + 1)
  }

  lemma ParentHasChild(g: Graph, b: NodeId, c: NodeId)
    requires Valid(g) && b in g.nodes && ParentOf(g, b, c)
    ensures c in ChildrenFrom(g, b, 0)
  {
    var e :| e in g.edges && g.edges[e].owner == Some(b) && g.edges[e].child == c;
    EdgeEnds(g, e);
    var k :| 0 <= k < |g.nodes[b].children| && g.nodes[b].children[k] == e;
    assert Child(g, b, k) == c;
  }

  /** One call of bdrv_inactivate_recurse in which no assertion fails */
  lemma {:induction false} WalkStretch(g: Graph, log: seq<NodeId>, b: NodeId)
    requires Valid(g) && b in g.nodes && Ordered(g, log) && WalkNode(g, log, b).Walked?
    ensures Stretch(g, WalkNode(g, log, b), Reach(g, b), {b})
    ensures !HasActiveParent(g, b) ==> Inactive(WalkNode(g, log, b).g, b)
    decreases g.rank[b], 1, 0
  {
    if !HasActiveParent(g, b) {
      var h := Mark(g, b);
      MarkStretch(g, log, b);
      ChildrenStretch(h, log + [b], b, 0);
      var r := WalkChildren(h, log + [b], b, 0);
      ReachFromSame(g, h, b, 0);
      assert ValidNode(g, b);
      ProgressChain(g, h, r.g, {b}, ReachFrom(g, b, 0));
      assert Inactive(r.g, b) by {
        assert Inactive(h, b);
      }
      forall c | Orphan(r.g, c)
        ensures Orphan(g, c) && c != b
      {
        assert Orphan(h, c) && c !in ChildrenFrom(h, b, 0);
        MarkOrphans(g, b, c);
      }
    }
  }

  /** One round of the loop over the children */
  lemma FirstChild(g: Graph, log: seq<NodeId>, b: NodeId, i: nat)
    requires Valid(g) && b in g.nodes && i < |g.nodes[b].children|
    ensures var r := WalkNode(g, log, Child(g, b, i));
            if r.Stuck? then WalkChildren(g, log, b, i).Stuck?
            else
              && r.g.nodes[b].children == g.nodes[b].children && r.g.rank == g.rank
              && WalkChildren(g, log, b, i) == WalkChildren(r.g, r.log, b, i + 1)
              && ReachFrom(r.g, b, i + 1) == ReachFrom(g, b, i + 1)
              && ChildrenFrom(r.g, b, i + 1) == ChildrenFrom(g, b, i + 1)
  {
    var r := WalkNode(g, log, Child(g, b, i));
    WalkFirst(g, log, b, i);
    if r.Walked? {
      ReachFromSame(g, r.g, b, i + 1);
    }
  }

  lemma {:induction false} ChildrenStretch(g: Graph, log: seq<NodeId>, b: NodeId, i: nat)
    requires Valid(g) && b in g.nodes && i <= |g.nodes[b].children|
    requires Ordered(g, log) && WalkChildren(g, log, b, i).Walked?
    ensures Stretch(g, WalkChildren(g, log, b, i), ReachFrom(g, b, i), ChildrenFrom(g, b, i))
    decreases g.rank[b], 0, |g.nodes[b].children| - i
  {
    if i < |g.nodes[b].children| {
      RestStretch(g, log, b, i);
    }
  }

  lemma {:induction false} RestStretch(g: Graph, log: seq<NodeId>, b: NodeId, i: nat)
    requires Valid(g) && b in g.nodes && i < |g.nodes[b].children|
    requires Ordered(g, log) && WalkChildren(g, log, b, i).Walked?
    ensures Stretch(g, WalkChildren(g, log, b, i), ReachFrom(g, b, i), ChildrenFrom(g, b, i))
    decreases g.rank[b], 0, |g.nodes[b].children| - i, 0
  {
    var c := Child(g, b, i);
    FirstChild(g, log, b, i);
    WalkStretch(g, log, c);
    var r := WalkNode(g, log, c);
    ChildrenStretch(r.g, r.log, b, i + 1);
    StretchJoin(g, r, WalkChildren(r.g, r.log, b, i + 1), Reach(g, c), ReachFrom(g, b, i + 1),
                {c}, ChildrenFrom(g, b, i + 1), ReachFrom(g, b, i), ChildrenFrom(g, b, i));
  }

  /** Setting the flag of `b` extends the log in order; the children of `b` are still active. */
  lemma MarkStretch(g: Graph, log: seq<NodeId>, b: NodeId)
    requires Valid(g) && b in g.nodes && Ordered(g, log) && !Inactive(g, b) && !HasActiveParent(g, b)
    ensures Valid(Mark(g, b)) && SameShape(g, Mark(g, b))
    ensures Ordered(Mark(g, b), log + [b]) && ActiveFrom(Mark(g, b), b, 0)
    ensures Progress(g, Mark(g, b), {b})
  {
    var h := Mark(g, b);
    MarkValid(g, b);
    forall x | ParentOf(g, x, b)
      ensures x in g.nodes
    {
      OwnerIsNode(g, x, b);
    }
    MarkOrdered(g, log, b);
    forall k | 0 <= k < |g.nodes[b].children|
      ensures !Inactive(h, Child(h, b, k))
    {
      ChildStaysActive(g, log, b, k);
    }
  }

  lemma LaterSame(g: Graph, h: Graph)
    requires Valid(g) && Valid(h) && SameShape(g, h) && LaterUnreached(g)
    ensures LaterUnreached(h)
  {
    forall b, i, j | b in h.nodes && 0 <= i < j < |h.nodes[b].children|
      ensures LaterAt(h, b, i, j)
    {
      assert SameNode(g.nodes[b], h.nodes[b]) && LaterAt(g, b, i, j);
      ReachSameShape(g, h, Child(g, b, i));
    }
  }

  /** While `b` was active none of its children could be inactive. */
  lemma ChildStaysActive(g: Graph, log: seq<NodeId>, b: NodeId, k: nat)
    requires Valid(g) && b in g.nodes && Ordered(g, log) && !Inactive(g, b) && k < |g.nodes[b].children|
    ensures Valid(Mark(g, b)) && !Inactive(Mark(g, b), Child(Mark(g, b), b, k))
  {
    MarkValid(g, b);
    ChildEdge(g, b, k);
    var c := Child(g, b, k);
    assert ParentOf(g, b, c);
    assert b !in log;
    assert c !in log;
  }

  /** The children of `b` from the i-th on are active. */
  ghost predicate ActiveFrom(g: Graph, b: NodeId, i: nat)
    requires Valid(g) && b in g.nodes
  {
    forall k {:trigger Child(g, b, k)} :: i <= k < |g.nodes[b].children| ==> !Inactive(g, Child(g, b, k))
  }

  lemma ActiveRest(g: Graph, h: Graph, b: NodeId, i: nat)
    requires Valid(g) && Valid(h) && SameShape(g, h) && b in g.nodes && i < |g.nodes[b].children|
    requires LaterUnreached(g) && ActiveFrom(g, b, i) && Progress(g, h, Reach(g, Child(g, b, i)))
    ensures ActiveFrom(h, b, i + 1)
  {
    assert SameNode(g.nodes[b], h.nodes[b]);
    forall k | i + 1 <= k < |g.nodes[b].children|
      ensures !Inactive(h, Child(h, b, k))
    {
      assert LaterAt(g, b, i, k) && Child(h, b, k) == Child(g, b, k);
    }
  }

  /** One call of bdrv_inactivate_recurse on an active node: no assertion fails. */
  lemma {:induction false} WalkDone(g: Graph, log: seq<NodeId>, b: NodeId)
    requires Valid(g) && b in g.nodes && Ordered(g, log) && LaterUnreached(g) && !Inactive(g, b)
    ensures WalkNode(g, log, b).Walked?
    decreases g.rank[b], 1, 0
  {
    if !HasActiveParent(g, b) {
      MarkStretch(g, log, b);
      LaterSame(g, Mark(g, b));
      ChildrenDone(Mark(g, b), log + [b], b, 0);
    }
  }

  lemma {:induction false} ChildrenDone(g: Graph, log: seq<NodeId>, b: NodeId, i: nat)
    requires Valid(g) && b in g.nodes && i <= |g.nodes[b].children|
    requires Ordered(g, log) && LaterUnreached(g) && ActiveFrom(g, b, i)
    ensures WalkChildren(g, log, b, i).Walked?
    decreases g.rank[b], 0, |g.nodes[b].children| - i
  {
    if i < |g.nodes[b].children| {
      var c := Child(g, b, i);
      WalkDone(g, log, c);
      WalkStretch(g, log, c);
      var r := WalkNode(g, log, c);
      LaterSame(g, r.g);
      ActiveRest(g, r.g, b, i);
      assert SameNode(g.nodes[b], r.g.nodes[b]);
      ChildrenDone(r.g, r.log, b, i + 1);
    }
  }

  lemma ProgressChain(f: Graph, g: Graph, h: Graph, q: set<NodeId>, r: set<NodeId>)
    requires Progress(f, g, q) && Progress(g, h, r)
    ensures Progress(f, h, q + r)
  {
    forall y | y in f.nodes
      ensures Inactive(f, y) ==> Inactive(h, y)
      ensures Inactive(h, y) && !Inactive(f, y) ==> y in q + r
    {
      assert Inactive(g, y) || !Inactive(g, y);
    }
  }

  lemma {:induction false} ReachFromSame(g: Graph, h: Graph, b: NodeId, i: nat)
    requires Valid(g) && Valid(h) && SameShape(g, h) && b in g.nodes && i <= |g.nodes[b].children|
    ensures SameNode(g.nodes[b], h.nodes[b])
    ensures ReachFrom(h, b, i) == ReachFrom(g, b, i) && ChildrenFrom(h, b, i) == ChildrenFrom(g, b, i)
    decreases |g.nodes[b].children| - i
  {
    assert SameNode(g.nodes[b], h.nodes[b]);
    if i < |g.nodes[b].children| {
      ReachSameShape(g, h, Child(g, b, i));
      ReachFromSame(g, h, b, i + 1);
    }
  }

  // ----- bdrv_inactivate_all -----

  /** Every active node that no node owns is in the list; the list has no duplicates, and the
      parentless nodes in it are active. */
  ghost predicate ListsRoots(g: Graph, list: seq<NodeId>) {
    && (forall b {:trigger HasParent(g, b)} :: b in g.nodes && !HasParent(g, b) && !Inactive(g, b) ==> b in list)
    && (forall i, j :: 0 <= i < j < |list| ==> list[i] != list[j])
    && (forall k :: 0 <= k < |list| ==> list[k] in g.nodes && (!HasParent(g, list[k]) ==> !Inactive(g, list[k])))
  }

  lemma {:induction false} ReachHasParent(g: Graph, b: NodeId, x: NodeId)
    requires Valid(g) && b in g.nodes && x in Reach(g, b) && x != b
    ensures HasParent(g, x)
    decreases g.rank[b]
  {
    var k := ReachFromSplit(g, b, 0, x);
    ChildEdge(g, b, k);
    if x == Child(g, b, k) {
      assert ParentOf(g, b, x);
    } else {
      ReachHasParent(g, Child(g, b, k), x);
    }
  }

  lemma RootsRest(g: Graph, h: Graph, list: seq<NodeId>)
    requires Valid(g) && list != [] && ListsRoots(g, list) && list[0] in g.nodes && !HasParent(g, list[0])
    requires Progress(g, h, Reach(g, list[0])) && list[0] in h.nodes && Inactive(h, list[0])
    ensures ListsRoots(h, list[1..])
  {
    var rest := list[1..];
    forall b | b in h.nodes && !HasParent(h, b) && !Inactive(h, b)
      ensures b in rest
    {
      SameParents(g, h, b);
      assert b in list && b != list[0];
    }
    forall k | 0 <= k < |rest|
      ensures rest[k] in h.nodes && (!HasParent(h, rest[k]) ==> !Inactive(h, rest[k]))
    {
      var b := rest[k];
      assert b == list[k + 1];
      SameParents(g, h, b);
      if b in Reach(g, list[0]) {
        ReachHasParent(g, list[0], b);
      }
    }
  }

  lemma SameParents(g: Graph, h: Graph, b: NodeId)
    requires g.edges == h.edges && g.nodes.Keys == h.nodes.Keys
    ensures HasParent(h, b) <==> HasParent(g, b)
  {
    assert forall x :: ParentOf(h, x, b) <==> ParentOf(g, x, b);
  }

  /** In the right order no assertion fails. */
  lemma {:induction false} AllOrders(g: Graph, log: seq<NodeId>, list: seq<NodeId>)
    requires Valid(g) && Ordered(g, log) && LaterUnreached(g) && ListsRoots(g, list)
    requires forall c :: !Orphan(g, c)
    ensures WalkAll(g, log, list).Walked?
    decreases list
  {
    if list != [] {
      if HasParent(g, list[0]) {
        assert list == [list[0]] + list[1..];
        AllOrders(g, log, list[1..]);
      } else {
        var b := list[0];
        WalkDone(g, log, b);
        WalkStretch(g, log, b);
        var r := WalkNode(g, log, b);
        LaterSame(g, r.g);
        RootsRest(g, r.g, list);
        AllOrders(r.g, r.log, list[1..]);
      }
    }
  }

  /** In any order, if no assertion fails, every node is inactive in the end, and the log is in order. */
  lemma {:induction false} AllEnds(g: Graph, log: seq<NodeId>, list: seq<NodeId>)
    requires Valid(g) && Ordered(g, log) && ListsRoots(g, list) && WalkAll(g, log, list).Walked?
    requires forall c :: !Orphan(g, c)
    ensures var r := WalkAll(g, log, list);
            Ordered(r.g, r.log) && forall b :: b in r.g.nodes ==> Inactive(r.g, b)
    decreases list
  {
    if list == [] {
      forall b | b in g.nodes
        ensures Inactive(g, b)
      {
        NoneLeft(g, b);
      }
    } else if HasParent(g, list[0]) {
      assert list == [list[0]] + list[1..];
      AllEnds(g, log, list[1..]);
    } else {
      var r := WalkNode(g, log, list[0]);
      WalkStretch(g, log, list[0]);
      RootsRest(g, r.g, list);
      AllEnds(r.g, r.log, list[1..]);
    }
  }

  lemma NoOrphans(g: Graph)
    requires forall b :: b in g.nodes ==> !Inactive(g, b)
    ensures forall c :: !Orphan(g, c)
  {
    forall c
      ensures !Orphan(g, c)
    {
      if c in g.nodes && HasParent(g, c) {
        var x :| x in g.nodes && ParentOf(g, x, c);
        assert HasActiveParent(g, c);
      }
    }
  }

  function Higher(g: Graph, b: NodeId): set<NodeId>
    requires b in g.rank
  {
    set x | x in g.rank && g.rank[x] > g.rank[b]
  }

  /** Going up from an active node one meets an active root or a node that waits. */
  lemma {:induction false} NoneLeft(g: Graph, b: NodeId)
    requires Valid(g) && b in g.nodes && ListsRoots(g, [])
    requires forall c :: !Orphan(g, c)
    ensures Inactive(g, b)
    decreases Higher(g, b)
  {
    if !Inactive(g, b) {
      assert !Orphan(g, b);
      assert HasParent(g, b);
      var x :| x in g.nodes && ParentOf(g, x, b) && !Inactive(g, x);
      var e :| e in g.edges && g.edges[e].owner == Some(x) && g.edges[e].child == b;
      EdgeEnds(g, e);
      assert x in Higher(g, b);
      NoneLeft(g, x);
    }
  }

  /** bdrv_inactivate_all, started with every node active and given each parentless node once: no
      assertion fails, every node is inactivated exactly once, and each only after all of the nodes
      that own an edge to it -- provided that no node has a child that is reachable from an earlier
      child of the same node. */
  lemma InactivateAllInOrder(s: ReadyBlock, list: seq<NodeId>)
    requires LaterUnreached(s.g) && ListsRoots(s.g, list)
    requires forall b :: b in s.g.nodes ==> !Inactive(s.g, b)
    ensures var r := InactivateAll(s, [], list);
            && r.Done? && Sound(r.s) && Ordered(r.s.g, r.log)
            && forall b :: b in s.g.nodes ==> b in r.s.g.nodes && Inactive(r.s.g, b) && b in r.log
  {
    NoOrphans(s.g);
    AllOrders(s.g, [], list);
    AllEnds(s.g, [], list);
    AllFollow(s, [], list);
  }

  // ----- the order of siblings matters -----

  /** Filter node 0 over nodes 1 and 2, in that order, and filter node 1 over node 2. */
  function Triangle(a: bool, b: bool, c: bool): Graph {
    var role := Role(false, false, true, false);
    Graph(map[0 := Node(true, None, Flags(true, a, false), false, true, [0, 1], []),
              1 := Node(true, None, Flags(true, b, false), false, true, [2], [0]),
              2 := Node(true, None, Flags(true, c, false), false, true, [], [1, 2])],
          map[0 := Edge(Some(0), 1, role, false, false, false),
              1 := Edge(Some(0), 2, role, false, false, false),
              2 := Edge(Some(1), 2, role, false, false, false)],
          map[0 := 2, 1 := 1, 2 := 0])
  }

  lemma TriangleEdges(a: bool, b: bool, c: bool)
    ensures var g := Triangle(a, b, c);
            && ValidEdge(g, 0) && ValidEdge(g, 1) && ValidEdge(g, 2)
            && Falls(g, 0) && Falls(g, 1) && Falls(g, 2)
  {
    var g := Triangle(a, b, c);
    assert g.nodes[0].children[0] == 0 && g.nodes[0].children[1] == 1 && g.nodes[1].children[0] == 2;
    assert g.nodes[1].parents[0] == 0 && g.nodes[2].parents[0] == 1 && g.nodes[2].parents[1] == 2;
  }

  lemma TriangleValid(a: bool, b: bool, c: bool)
    ensures Valid(Triangle(a, b, c))
  {
    TriangleEdges(a, b, c);
    TriangleNodes(a, b, c);
  }

  lemma TriangleNodes(a: bool, b: bool, c: bool)
    ensures var g := Triangle(a, b, c); ValidNode(g, 0) && ValidNode(g, 1) && ValidNode(g, 2)
  {
  }

  lemma TriangleParents(a: bool, b: bool, c: bool)
    ensures var g := Triangle(a, b, c);
            && !HasActiveParent(g, 0) && !HasParent(g, 0)
            && (HasActiveParent(g, 1) <==> !a)
            && (HasActiveParent(g, 2) <==> !a || !b)
  {
    var g := Triangle(a, b, c);
    assert g.edges[0].owner == Some(0) && g.edges[1].owner == Some(0) && g.edges[2].owner == Some(1);
    assert ParentOf(g, 0, 1) && ParentOf(g, 0, 2) && ParentOf(g, 1, 2);
    forall x
      ensures !ParentOf(g, x, 0) && (ParentOf(g, x, 1) ==> x == 0) && (ParentOf(g, x, 2) ==> x == 0 || x == 1)
    {
    }
  }

  /** Below node 1 the recursion inactivates node 1 and then node 2. */
  lemma TriangleInner(log: seq<NodeId>)
    ensures Valid(Triangle(true, false, false))
    ensures WalkNode(Triangle(true, false, false), log, 1) == Walked(Triangle(true, true, true), log + [1] + [2])
  {
    var g1, g2, g3 := Triangle(true, false, false), Triangle(true, true, false), Triangle(true, true, true);
    TriangleValid(true, false, false);
    TriangleValid(true, true, false);
    TriangleValid(true, true, true);
    TriangleParents(true, false, false);
    TriangleParents(true, true, false);
    assert Mark(g1, 1) == g2 && Mark(g2, 2) == g3;
    assert WalkChildren(g3, log + [1] + [2], 2, 0) == Walked(g3, log + [1] + [2]);
    assert Child(g2, 1, 0) == 2;
    assert WalkChildren(g3, log + [1] + [2], 1, 1) == Walked(g3, log + [1] + [2]);
  }

  /** Back at node 0, its second child is already inactive and has no active parent left. */
  lemma TriangleAgain(log: seq<NodeId>)
    ensures Valid(Triangle(true, true, true)) && WalkChildren(Triangle(true, true, true), log, 0, 1) == Stuck
  {
    TriangleValid(true, true, true);
    TriangleParents(true, true, true);
    assert Child(Triangle(true, true, true), 0, 1) == 2;
  }

  lemma TriangleOuter(log: seq<NodeId>)
    ensures Valid(Triangle(true, false, false)) && WalkChildren(Triangle(true, false, false), log, 0, 0) == Stuck
  {
    TriangleInner(log);
    TriangleAgain(log + [1] + [2]);
    assert Child(Triangle(true, false, false), 0, 0) == 1;
  }

  /** A recursion that stops below the first root stops the whole operation. */
  lemma StuckBelow(g: Graph, h: Graph, log: seq<NodeId>, b: NodeId)
    requires Valid(g) && Valid(h) && b in g.nodes && h == Mark(g, b)
    requires !HasParent(g, b) && !Inactive(g, b)
    requires WalkChildren(h, log + [b], b, 0) == Stuck
    ensures WalkAll(g, log, [b]) == Stuck
  {
    assert !HasActiveParent(g, b);
    assert WalkNode(g, log, b) == Stuck;
  }

  /** No node owns two edges to the same node. */
  ghost predicate NoParallel(g: Graph) {
    forall e, f :: Alongside(g, e, f) ==> g.edges[e].child != g.edges[f].child
  }

  /** Two edges of one node */
  predicate Alongside(g: Graph, e: EdgeId, f: EdgeId) {
    e in g.edges && f in g.edges && e != f && g.edges[e].owner.Some? && g.edges[e].owner == g.edges[f].owner
  }

  lemma TriangleNoParallel(a: bool, b: bool, c: bool)
    ensures NoParallel(Triangle(a, b, c))
  {
    var g := Triangle(a, b, c);
    assert g.edges[0].child == 1 && g.edges[1].child == 2 && g.edges[2].owner == Some(1);
  }

  lemma TriangleRoots(g: Graph, root: NodeId)
    requires g == Triangle(false, false, false) && root == 0
    ensures ListsRoots(g, [root])
  {
    TriangleParents(false, false, false);
    forall b | b in g.nodes && !HasParent(g, b)
      ensures b == 0
    {
      assert !HasActiveParent(g, b);
    }
  }

  lemma TriangleMark(g: Graph, root: NodeId)
    requires g == Triangle(false, false, false) && root == 0
    ensures Triangle(true, false, false) == Mark(g, root)
  {
  }

  lemma TriangleWalk(g: Graph, root: NodeId, log: seq<NodeId>)
    requires g == Triangle(false, false, false) && root == 0
    ensures Valid(g) && WalkAll(g, log, [root]) == Stuck
  {
    TriangleValid(false, false, false);
    TriangleParents(false, false, false);
    TriangleOuter(log + [root]);
    TriangleMark(g, root);
    StuckBelow(g, Mark(g, root), log, root);
  }

  /** In this graph, which has no parallel edges, node 2 is inactivated below node 1 and then
      visited again as the second child of node 0, with no active parent left:
      bdrv_inactivate_recurse fails its assertion, whatever the permissions. */
  lemma TriangleStuck(s: ReadyBlock, root: NodeId)
    requires s.g == Triangle(false, false, false) && root == 0
    ensures NoParallel(s.g) && ListsRoots(s.g, [root])
    ensures InactivateAll(s, [], [root]) == AssertionFails
  {
    TriangleNoParallel(false, false, false);
    TriangleRoots(s.g, root);
    TriangleWalk(s.g, root, []);
    AllFollow(s, [], [root]);
  }

  /** Parents that ask for nothing add up to nothing. */
  lemma {:induction false} IdleUse(p: State, list: seq<EdgeId>)
    requires forall e :: e in list ==> e in p && p[e].use == Use({}, ALL)
    ensures Cumulative(p, list, {}) == Use({}, ALL)
  {
    if list != [] {
      IdleUse(p, list[1..]);
    }
  }

  lemma IdleTight(s: Block, b: NodeId)
    requires Valid(s.g) && ValidState(s.g, s.p) && b in s.g.nodes
    requires forall e :: e in s.p ==> s.p[e].use == Use({}, ALL)
    requires forall e :: e in s.g.edges ==> s.g.edges[e].role == Role(false, false, true, false)
    ensures Tight(s.g, s.p, b)
  {
    assert ValidNode(s.g, b);
    IdleUse(s.p, s.g.nodes[b].parents);
    forall k | 0 <= k < |s.g.nodes[b].children|
      ensures CoversAt(s.g, s.p, b, k, Use({}, ALL))
    {
      ChildEdge(s.g, b, k);
      EveryPerm(GraphMod);
    }
  }

  /** Such a state exists: no user of the graph asks for anything. */
  lemma TriangleReady(s: Block)
    requires s.g == Triangle(false, false, false)
    requires s.p == map e | e in s.g.edges :: EdgePerm(Use({}, ALL), None)
    ensures Ready(s)
  {
    TriangleValid(false, false, false);
    forall e | e in s.p
      ensures Shares(s.p[e])
    {
    }
    forall b | b in s.g.nodes
      ensures Tight(s.g, s.p, b)
    {
      IdleTight(s, b);
    }
  }
}
