/** When bdrv_inactivate_all of block.c is safe.  The order of child lists and of the nodes that
    bdrv_next delivers is that in which users happened to attach and create them.  In whatever order
    they come, no assertion fails -- if and only if the graph has no shortcut: no node has an edge to
    a child that it also reaches through another of its edges. */
module BlockShortcuts {
  import opened Basics
  import opened BlockGraph
  import opened BlockUpdate
  import opened BlockLoosen
  import opened BlockOps
  import opened BlockInactivate

  // ----- other orders of the same graph -----

  /** Two graphs that differ at most in the order of their child lists */
  ghost predicate Reordered(g: Graph, h: Graph) {
    && g.edges == h.edges && g.rank == h.rank && g.nodes.Keys == h.nodes.Keys
    && forall y {:trigger Permuted(g.nodes[y], h.nodes[y])} :: y in g.nodes ==> Permuted(g.nodes[y], h.nodes[y])
  }

  ghost predicate Permuted(n: Node, m: Node) {
    && m == n.(children := m.children) && NoDup(m.children) && |m.children| == |n.children|
    && forall e {:trigger e in m.children} {:trigger e in n.children} :: e in m.children <==> e in n.children
  }

  lemma ReorderedValid(g: Graph, h: Graph)
    requires Valid(g) && Reordered(g, h)
    ensures Valid(h)
  {
    forall x | x in h.edges
      ensures ValidEdge(h, x) && Falls(h, x)
    {
      EdgeEnds(g, x);
      var c := g.edges[x];
      assert ValidEdge(g, x) && Falls(g, x) && Permuted(g.nodes[c.child], h.nodes[c.child]);
      if c.owner.Some? {
        assert Permuted(g.nodes[c.owner.value], h.nodes[c.owner.value]);
      }
    }
    forall y | y in h.nodes
      ensures ValidNode(h, y)
    {
      assert ValidNode(g, y) && Permuted(g.nodes[y], h.nodes[y]);
    }
  }

  lemma ReorderedBack(g: Graph, h: Graph)
    requires Valid(g) && Reordered(g, h)
    ensures Reordered(h, g)
  {
    forall y | y in h.nodes
      ensures Permuted(h.nodes[y], g.nodes[y])
    {
      assert ValidNode(g, y) && Permuted(g.nodes[y], h.nodes[y]);
    }
  }

  lemma {:induction false} ReachReordered(g: Graph, h: Graph, b: NodeId, x: NodeId)
    requires Valid(g) && Valid(h) && Reordered(g, h) && b in g.nodes && x in Reach(g, b)
    ensures x in Reach(h, b)
    decreases g.rank[b]
  {
    assert Permuted(g.nodes[b], h.nodes[b]);
    if x != b {
      var k := ReachFromSplit(g, b, 0, x);
      var c := Child(g, b, k);
      var e := g.nodes[b].children[k];
      ReachReordered(g, h, c, x);
      assert e in h.nodes[b].children;
      var m :| 0 <= m < |h.nodes[b].children| && h.nodes[b].children[m] == e;
      ReachFromChild(h, b, 0, m);
    }
  }

  lemma ReachOrderless(g: Graph, h: Graph, b: NodeId)
    requires Valid(g) && Valid(h) && Reordered(g, h) && b in g.nodes
    ensures Reach(h, b) == Reach(g, b)
  {
    ReorderedBack(g, h);
    forall x
      ensures x in Reach(g, b) <==> x in Reach(h, b)
    {
      if x in Reach(g, b) {
        ReachReordered(g, h, b, x);
      }
      if x in Reach(h, b) {
        ReachReordered(h, g, b, x);
      }
    }
  }

  /** The order of the children makes no difference to permissions. */
  lemma ReorderedReady(s: ReadyBlock, h: Graph)
    requires Reordered(s.g, h)
    ensures Ready(Block(h, s.p))
  {
    var g, p := s.g, s.p;
    ReorderedValid(g, h);
    forall b | b in h.nodes
      ensures h.nodes[b].drv
    {
      assert Permuted(g.nodes[b], h.nodes[b]) && g.nodes[b].drv;
    }
    forall x: EdgeId, y: EdgeId | Siblings(h, x, y, {})
      ensures Fits(p, x, y)
    {
      assert Siblings(g, x, y, {});
    }
    forall y | y in h.nodes
      ensures Tight(h, p, y)
    {
      ReorderedTight(g, h, p, y);
    }
  }

  lemma ReorderedTight(g: Graph, h: Graph, p: State, y: NodeId)
    requires Valid(g) && Valid(h) && Reordered(g, h) && ValidState(g, p) && AllTight(g, p) && y in g.nodes
    ensures Tight(h, p, y)
  {
    assert Permuted(g.nodes[y], h.nodes[y]) && Tight(g, p, y);
    if g.nodes[y].drv {
      var u := NodeUse(g, p, y, {});
      forall k | 0 <= k < |h.nodes[y].children|
        ensures CoversAt(h, p, y, k, u)
      {
        ChildEdge(h, y, k);
        var e := h.nodes[y].children[k];
        assert e in h.nodes[y].children;
        assert e in g.nodes[y].children;
        var m :| 0 <= m < |g.nodes[y].children| && g.nodes[y].children[m] == e;
        assert CoversAt(g, p, y, m, u);
        var c := g.edges[e].child;
        assert Permuted(g.nodes[c], h.nodes[c]);
      }
    }
  }

  // ----- shortcuts -----

  /** Edges `e` and `f` belong to one node, and the child of `f` is also reached through `e`. */
  ghost predicate Shortcut(g: Graph, e: EdgeId, f: EdgeId)
    requires Valid(g)
  {
    && e in g.edges && f in g.edges && e != f && g.edges[e].owner.Some? && g.edges[f].owner == g.edges[e].owner
    && g.edges[e].child in g.nodes && g.edges[f].child in Reach(g, g.edges[e].child)
  }

  ghost predicate Reduced(g: Graph)
    requires Valid(g)
  {
    forall e, f {:trigger Shortcut(g, e, f)} :: !Shortcut(g, e, f)
  }

  lemma ReducedLater(g: Graph, h: Graph)
    requires Valid(g) && Valid(h) && Reordered(g, h) && Reduced(g)
    ensures LaterUnreached(h)
  {
    forall b, i, j | b in h.nodes && 0 <= i < j < |h.nodes[b].children|
      ensures LaterAt(h, b, i, j)
    {
      ChildEdge(h, b, i);
      ChildEdge(h, b, j);
      var e, f := h.nodes[b].children[i], h.nodes[b].children[j];
      assert ValidNode(h, b) && !Shortcut(g, e, f);
      ReachOrderless(g, h, g.edges[e].child);
    }
  }

  // ----- an order in which a shortcut makes the assertion fail -----

  /** The nodes from which `b` can be reached */
  function Above(g: Graph, b: NodeId): set<NodeId>
    requires Valid(g)
  {
    set a | a in g.nodes && b in Reach(g, a)
  }

  /** Whatever is above an inactive node is inactive. */
  lemma {:induction false} AboveInactive(g: Graph, log: seq<NodeId>, b: NodeId, a: NodeId)
    requires Valid(g) && Ordered(g, log) && b in g.nodes && Inactive(g, b) && a in Above(g, b)
    ensures Inactive(g, a)
    decreases g.rank[a]
  {
    if a != b {
      var k := ReachFromSplit(g, a, 0, b);
      var c := Child(g, a, k);
      ChildEdge(g, a, k);
      AboveInactive(g, log, b, c);
      assert c in log;
      var j :| 0 <= j < |log| && log[j] == c;
      assert ParentOf(g, a, log[j]);
      assert a in log;
    }
  }

  lemma AboveSame(g: Graph, h: Graph, b: NodeId)
    requires Valid(g) && Valid(h) && SameShape(g, h)
    ensures Above(h, b) == Above(g, b)
  {
    forall a | a in g.nodes
      ensures b in Reach(h, a) <==> b in Reach(g, a)
    {
      ReachSameShape(g, h, a);
    }
  }

  /** Every node lists the children above `b` last, and `b` lists the edge `f` last. */
  ghost predicate Adverse(g: Graph, b: NodeId, f: EdgeId)
    requires Valid(g)
  {
    && b in g.nodes && g.nodes[b].children != [] && g.nodes[b].children[|g.nodes[b].children| - 1] == f
    && forall x, i, j {:trigger Child(g, x, i), Child(g, x, j)} ::
         x in g.nodes && 0 <= i < j < |g.nodes[x].children| && Child(g, x, i) in Above(g, b) ==>
           Child(g, x, j) in Above(g, b)
  }

  lemma AdverseSame(g: Graph, h: Graph, b: NodeId, f: EdgeId)
    requires Valid(g) && Valid(h) && SameShape(g, h) && Adverse(g, b, f)
    ensures Adverse(h, b, f)
  {
    AboveSame(g, h, b);
    assert SameNode(g.nodes[b], h.nodes[b]);
    forall x, i, j | x in h.nodes && 0 <= i < j < |h.nodes[x].children| && Child(h, x, i) in Above(h, b)
      ensures Child(h, x, j) in Above(h, b)
    {
      assert SameNode(g.nodes[x], h.nodes[x]);
      assert Child(g, x, i) == Child(h, x, i) && Child(g, x, j) == Child(h, x, j);
    }
  }

  /** `b` is still active, and the recursion will not visit anything that is not above `b`, except
      the nodes of `next`, before it visits `b`. */
  ghost predicate Poised(g: Graph, log: seq<NodeId>, b: NodeId, f: EdgeId, next: set<NodeId>)
    requires Valid(g)
  {
    && Ordered(g, log) && Adverse(g, b, f) && !Inactive(g, b)
    && (forall x {:trigger HasParent(g, x)} :: x in g.nodes && !HasParent(g, x) && !Inactive(g, x) ==> x in Above(g, b))
    && (forall c {:trigger Orphan(g, c)} :: Orphan(g, c) ==> c in Above(g, b) || c in next)
  }

  lemma PoisedStep(g: Graph, log: seq<NodeId>, r: Walk, b: NodeId, f: EdgeId, next: set<NodeId>,
                   reach: set<NodeId>, visited: set<NodeId>)
    requires Valid(g) && Poised(g, log, b, f, next) && Stretch(g, r, reach, visited)
    requires Valid(r.g) && SameShape(g, r.g) && !Inactive(r.g, b)
    ensures Poised(r.g, r.log, b, f, next - visited)
  {
    AboveSame(g, r.g, b);
    AdverseSame(g, r.g, b, f);
    forall x | x in r.g.nodes && !HasParent(r.g, x) && !Inactive(r.g, x)
      ensures x in Above(r.g, b)
    {
      SameParents(g, r.g, x);
    }
    forall c | Orphan(r.g, c)
      ensures c in Above(r.g, b) || c in next - visited
    {
      assert Orphan(g, c);
    }
  }

  /** `b` is inactive and nothing waits but perhaps its children from the i-th on. */
  ghost predicate Cornered(g: Graph, log: seq<NodeId>, b: NodeId, i: nat)
    requires Valid(g) && b in g.nodes && i <= |g.nodes[b].children|
  {
    && Ordered(g, log)
    && (forall x {:trigger HasParent(g, x)} :: x in g.nodes && !HasParent(g, x) ==> Inactive(g, x))
    && (forall c {:trigger Orphan(g, c)} :: Orphan(g, c) ==> c in ChildrenFrom(g, b, i))
  }

  /** The last child of `b` does not wait, or is the k-th too, which is still to be visited. */
  predicate Doomed(g: Graph, b: NodeId, i: nat, k: nat)
    requires Valid(g) && b in g.nodes && k < |g.nodes[b].children| - 1
  {
    var c := Child(g, b, |g.nodes[b].children| - 1);
    !Orphan(g, c) || (i <= k && Child(g, b, k) == c)
  }

  lemma LastStuck(g: Graph, log: seq<NodeId>, b: NodeId)
    requires Valid(g) && b in g.nodes && |g.nodes[b].children| > 0 && Cornered(g, log, b, |g.nodes[b].children| - 1)
    requires !Orphan(g, Child(g, b, |g.nodes[b].children| - 1))
    ensures WalkNode(g, log, Child(g, b, |g.nodes[b].children| - 1)).Stuck?
  {
    var c := Child(g, b, |g.nodes[b].children| - 1);
    assert ChildrenFrom(g, b, |g.nodes[b].children| - 1) == {c};
    forall x | x in g.nodes
      ensures Inactive(g, x)
    {
      NoneLeft(g, x);
    }
  }

  /** Once all its other children are visited, everything is inactive; then the last edge of `b` is
      followed to an inactive node. */
  lemma {:induction false} ChildrenStuck(g: Graph, log: seq<NodeId>, b: NodeId, i: nat, k: nat)
    requires Valid(g) && b in g.nodes && i < |g.nodes[b].children| && k < |g.nodes[b].children| - 1
    requires Cornered(g, log, b, i) && Doomed(g, b, i, k)
    ensures WalkChildren(g, log, b, i).Stuck?
    decreases |g.nodes[b].children| - i
  {
    FirstChild(g, log, b, i);
    if i == |g.nodes[b].children| - 1 {
      LastStuck(g, log, b);
    } else if WalkNode(g, log, Child(g, b, i)).Walked? {
      var r := WalkNode(g, log, Child(g, b, i));
      WalkStretch(g, log, Child(g, b, i));
      CorneredStep(g, log, r, b, i);
      DoomedStep(g, r.g, b, i, k);
      ChildrenStuck(r.g, r.log, b, i + 1, k);
    }
  }

  lemma DoomedStep(g: Graph, h: Graph, b: NodeId, i: nat, k: nat)
    requires Valid(g) && Valid(h) && b in g.nodes && i < |g.nodes[b].children| && k < |g.nodes[b].children| - 1
    requires SameShape(g, h) && Settled(g, h, {Child(g, b, i)}) && Doomed(g, b, i, k)
    ensures SameNode(g.nodes[b], h.nodes[b]) && Doomed(h, b, i + 1, k)
  {
    assert SameNode(g.nodes[b], h.nodes[b]);
    var last: nat := |g.nodes[b].children| - 1;
    var c := Child(g, b, last);
    assert c == Child(h, b, last) && Child(h, b, k) == Child(g, b, k);
    if Orphan(h, c) {
      assert Orphan(g, c);
    }
  }

  lemma CorneredStep(g: Graph, log: seq<NodeId>, r: Walk, b: NodeId, i: nat)
    requires Valid(g) && b in g.nodes && i < |g.nodes[b].children| && Cornered(g, log, b, i)
    requires Stretch(g, r, Reach(g, Child(g, b, i)), {Child(g, b, i)}) && Valid(r.g) && SameShape(g, r.g)
    ensures SameNode(g.nodes[b], r.g.nodes[b]) && Cornered(r.g, r.log, b, i + 1)
  {
    var d := Child(g, b, i);
    ReachFromSame(g, r.g, b, i + 1);
    forall x | x in r.g.nodes && !HasParent(r.g, x)
      ensures Inactive(r.g, x)
    {
      SameParents(g, r.g, x);
    }
    forall x | Orphan(r.g, x)
      ensures x in ChildrenFrom(r.g, b, i + 1)
    {
      assert Orphan(g, x) && x != d;
    }
  }

  /** When `b` is inactivated, only its children may wait. */
  lemma MarkCorners(g: Graph, log: seq<NodeId>, b: NodeId, f: EdgeId)
    requires Valid(g) && Poised(g, log, b, f, {}) && !HasActiveParent(g, b)
    ensures Valid(Mark(g, b)) && Cornered(Mark(g, b), log + [b], b, 0)
  {
    var h := Mark(g, b);
    MarkStretch(g, log, b);
    AboveSame(g, h, b);
    forall x | x in h.nodes && !HasParent(h, x)
      ensures Inactive(h, x)
    {
      SameParents(g, h, x);
      if x in Above(g, b) {
        AboveInactive(h, log + [b], b, x);
      }
    }
    forall c | Orphan(h, c)
      ensures c in ChildrenFrom(h, b, 0)
    {
      if c in Above(g, b) {
        AboveInactive(h, log + [b], b, c);
      }
      if c !in ChildrenFrom(h, b, 0) {
        MarkOrphans(g, b, c);
      }
    }
  }

  /** Somebody reachable from `d` is a parent of `x`. */
  lemma {:induction false} ReachParent(g: Graph, d: NodeId, x: NodeId) returns (q: NodeId)
    requires Valid(g) && d in g.nodes && x in Reach(g, d) && x != d
    ensures q in Reach(g, d) && q in g.nodes && ParentOf(g, q, x)
    decreases g.rank[d]
  {
    var k := ReachFromSplit(g, d, 0, x);
    ChildEdge(g, d, k);
    ReachFromChild(g, d, 0, k);
    if x == Child(g, d, k) {
      q := d;
      assert ParentOf(g, q, x);
    } else {
      q := ReachParent(g, Child(g, d, k), x);
    }
  }

  lemma ReachDown(g: Graph, b: NodeId, k: nat, q: NodeId)
    requires Valid(g) && b in g.nodes && k < |g.nodes[b].children| && q in Reach(g, Child(g, b, k))
    ensures q in g.nodes && q in Reach(g, b) && q != b
  {
    ReachRank(g, Child(g, b, k), q);
    ReachFromChild(g, b, 0, k);
    assert ValidNode(g, b);
  }

  /** The recursion does not get past `b`. */
  lemma MarkStuck(g: Graph, log: seq<NodeId>, b: NodeId, f: EdgeId, e: EdgeId)
    requires Valid(g) && Poised(g, log, b, f, {}) && !HasActiveParent(g, b)
    requires Shortcut(g, e, f) && g.edges[f].owner == Some(b)
    ensures WalkNode(g, log, b).Stuck?
  {
    var h := Mark(g, b);
    MarkCorners(g, log, b, f);
    EdgeEnds(g, e);
    var k :| 0 <= k < |g.nodes[b].children| && g.nodes[b].children[k] == e;
    var last: nat := |g.nodes[b].children| - 1;
    var c, d := Child(h, b, last), Child(h, b, k);
    assert d == Child(g, b, k) == g.edges[e].child && c == g.edges[f].child;
    if c != d {
      var q := ReachParent(g, d, c);
      ReachDown(g, b, k, q);
      if Inactive(g, q) {
        AboveInactive(g, log, q, b);
      }
      assert ParentOf(h, q, c) && !Inactive(h, q);
      assert HasActiveParent(h, c);
    }
    ChildrenStuck(h, log + [b], b, 0, k);
  }

  /** A node above `b` is visited: if no assertion fails, `b` is still active afterwards. */
  lemma {:induction false} NodeKeepsActive(g: Graph, log: seq<NodeId>, b: NodeId, f: EdgeId, e: EdgeId, a: NodeId)
    requires Valid(g) && Poised(g, log, b, f, {}) && Shortcut(g, e, f) && g.edges[f].owner == Some(b)
    requires a in Above(g, b)
    ensures var r := WalkNode(g, log, a); r.Walked? ==> !Inactive(r.g, b)
    decreases g.rank[a], 1, 0
  {
    if !HasActiveParent(g, a) && !Inactive(g, a) {
      if a == b {
        MarkStuck(g, log, b, f, e);
      } else {
        var h := Mark(g, a);
        MarkPoised(g, log, b, f, a);
        ShortcutSame(g, h, e, f);
        AboveSame(g, h, b);
        ChildrenKeepActive(h, log + [a], b, f, e, a, 0);
      }
    }
  }

  lemma ShortcutSame(g: Graph, h: Graph, e: EdgeId, f: EdgeId)
    requires Valid(g) && Valid(h) && SameShape(g, h) && Shortcut(g, e, f)
    ensures Shortcut(h, e, f)
  {
    ReachSameShape(g, h, g.edges[e].child);
  }

  lemma MarkPoised(g: Graph, log: seq<NodeId>, b: NodeId, f: EdgeId, a: NodeId)
    requires Valid(g) && Poised(g, log, b, f, {}) && a in g.nodes && a != b
    requires !HasActiveParent(g, a) && !Inactive(g, a)
    ensures Valid(Mark(g, a)) && SameShape(g, Mark(g, a))
    ensures Poised(Mark(g, a), log + [a], b, f, ChildrenFrom(Mark(g, a), a, 0))
  {
    var h := Mark(g, a);
    MarkStretch(g, log, a);
    AboveSame(g, h, b);
    AdverseSame(g, h, b, f);
    forall x | x in h.nodes && !HasParent(h, x) && !Inactive(h, x)
      ensures x in Above(h, b)
    {
      SameParents(g, h, x);
    }
    forall c | Orphan(h, c)
      ensures c in Above(h, b) || c in ChildrenFrom(h, a, 0)
    {
      if c !in ChildrenFrom(h, a, 0) {
        MarkOrphans(g, a, c);
      }
    }
  }

  lemma {:induction false} ChildrenKeepActive(g: Graph, log: seq<NodeId>, b: NodeId, f: EdgeId, e: EdgeId, a: NodeId,
        i: nat)
    requires Valid(g) && a in g.nodes && i <= |g.nodes[a].children| && Poised(g, log, b, f, ChildrenFrom(g, a, i))
    requires Shortcut(g, e, f) && g.edges[f].owner == Some(b)
    ensures var r := WalkChildren(g, log, a, i); r.Walked? ==> !Inactive(r.g, b)
    decreases g.rank[a], 0, |g.nodes[a].children| - i
  {
    if i < |g.nodes[a].children| {
      RestKeepsActive(g, log, b, f, e, a, i);
    }
  }

  lemma {:induction false} RestKeepsActive(g: Graph, log: seq<NodeId>, b: NodeId, f: EdgeId, e: EdgeId, a: NodeId,
        i: nat)
    requires Valid(g) && a in g.nodes && i < |g.nodes[a].children| && Poised(g, log, b, f, ChildrenFrom(g, a, i))
    requires Shortcut(g, e, f) && g.edges[f].owner == Some(b)
    ensures var r := WalkChildren(g, log, a, i); r.Walked? ==> !Inactive(r.g, b)
    decreases g.rank[a], 0, |g.nodes[a].children| - i, 1
  {
    FirstChild(g, log, a, i);
    var r := WalkNode(g, log, Child(g, a, i));
    if r.Walked? {
      FirstKeepsActive(g, log, b, f, e, a, i);
      ChildrenKeepActive(r.g, r.log, b, f, e, a, i + 1);
    }
  }

  lemma {:induction false} FirstKeepsActive(g: Graph, log: seq<NodeId>, b: NodeId, f: EdgeId, e: EdgeId, a: NodeId,
        i: nat)
    requires Valid(g) && a in g.nodes && i < |g.nodes[a].children| && Poised(g, log, b, f, ChildrenFrom(g, a, i))
    requires Shortcut(g, e, f) && g.edges[f].owner == Some(b) && WalkNode(g, log, Child(g, a, i)).Walked?
    ensures var r := WalkNode(g, log, Child(g, a, i));
            && r.g.nodes[a].children == g.nodes[a].children
            && Poised(r.g, r.log, b, f, ChildrenFrom(r.g, a, i + 1)) && Shortcut(r.g, e, f)
    decreases g.rank[a], 0, |g.nodes[a].children| - i, 0
  {
    var c := Child(g, a, i);
    var r := WalkNode(g, log, c);
    WalkStretch(g, log, c);
    if c in Above(g, b) {
      RestAbove(g, b, f, a, i);
      NodeKeepsActive(g, log, b, f, e, c);
    }
    FirstChild(g, log, a, i);
    PoisedStep(g, log, r, b, f, ChildrenFrom(g, a, i), Reach(g, c), {c});
    ShortcutSame(g, r.g, e, f);
  }

  lemma {:induction false} RestAbove(g: Graph, b: NodeId, f: EdgeId, a: NodeId, i: nat)
    requires Valid(g) && Adverse(g, b, f) && a in g.nodes && i < |g.nodes[a].children|
    requires Child(g, a, i) in Above(g, b)
    ensures forall c :: c in ChildrenFrom(g, a, i) ==> c in Above(g, b)
    decreases |g.nodes[a].children| - i
  {
    if i + 1 < |g.nodes[a].children| {
      assert Child(g, a, i + 1) in Above(g, b);
      RestAbove(g, b, f, a, i + 1);
    }
  }

  /** The roots above `b` come last. */
  ghost predicate RootsLast(g: Graph, list: seq<NodeId>, b: NodeId)
    requires Valid(g)
  {
    forall i, j :: 0 <= i < j < |list| && list[i] in Above(g, b) && !HasParent(g, list[j]) && list[j] in g.nodes ==>
                     list[j] in Above(g, b)
  }

  lemma {:induction false} AllStuck(g: Graph, log: seq<NodeId>, list: seq<NodeId>, b: NodeId, f: EdgeId, e: EdgeId)
    requires Valid(g) && Ordered(g, log) && ListsRoots(g, list) && (forall c :: !Orphan(g, c))
    requires Adverse(g, b, f) && RootsLast(g, list, b) && !Inactive(g, b)
    requires Shortcut(g, e, f) && g.edges[f].owner == Some(b)
    ensures WalkAll(g, log, list).Stuck?
    decreases list
  {
    if list == [] {
      NoneLeft(g, b);
    } else if HasParent(g, list[0]) {
      assert list == [list[0]] + list[1..];
      AllStuck(g, log, list[1..], b, f, e);
    } else if WalkNode(g, log, list[0]).Walked? {
      var r := WalkNode(g, log, list[0]);
      WalkStretch(g, log, list[0]);
      RootKeepsActive(g, log, list, b, f, e);
      RootsRest(g, r.g, list);
      AboveSame(g, r.g, b);
      AdverseSame(g, r.g, b, f);
      ShortcutSame(g, r.g, e, f);
      RootsLastRest(g, r.g, list, b);
      AllStuck(r.g, r.log, list[1..], b, f, e);
    }
  }

  lemma RootsLastRest(g: Graph, h: Graph, list: seq<NodeId>, b: NodeId)
    requires Valid(g) && Valid(h) && SameShape(g, h) && list != [] && RootsLast(g, list, b)
    ensures RootsLast(h, list[1..], b)
  {
    AboveSame(g, h, b);
    var rest := list[1..];
    forall i, j | 0 <= i < j < |rest| && rest[i] in Above(h, b) && !HasParent(h, rest[j]) && rest[j] in h.nodes
      ensures rest[j] in Above(h, b)
    {
      SameParents(g, h, rest[j]);
      assert rest[i] == list[i + 1] && rest[j] == list[j + 1];
    }
  }

  lemma RootKeepsActive(g: Graph, log: seq<NodeId>, list: seq<NodeId>, b: NodeId, f: EdgeId, e: EdgeId)
    requires Valid(g) && Ordered(g, log) && ListsRoots(g, list) && (forall c :: !Orphan(g, c))
    requires Adverse(g, b, f) && RootsLast(g, list, b) && !Inactive(g, b)
    requires Shortcut(g, e, f) && g.edges[f].owner == Some(b)
    requires list != [] && list[0] in g.nodes && !HasParent(g, list[0]) && WalkNode(g, log, list[0]).Walked?
    ensures !Inactive(WalkNode(g, log, list[0]).g, b)
  {
    var a := list[0];
    if a in Above(g, b) {
      forall x | x in g.nodes && !HasParent(g, x) && !Inactive(g, x)
        ensures x in Above(g, b)
      {
        var j :| 0 <= j < |list| && list[j] == x;
        assert list[0] in Above(g, b);
      }
      NodeKeepsActive(g, log, b, f, e, a);
    } else {
      WalkStretch(g, log, a);
    }
  }

  // ----- putting lists into that order -----

  /** The same list with the elements of `late` last */
  function Arrange(s: seq<nat>, late: set<nat>): seq<nat> {
    if s == [] then [] else if s[0] in late then Arrange(s[1..], late) + [s[0]] else [s[0]] + Arrange(s[1..], late)
  }

  lemma {:induction false} Arranged(s: seq<nat>, late: set<nat>)
    requires NoDup(s)
    ensures var r := Arrange(s, late);
            && NoDup(r) && |r| == |s| && (forall x :: x in r <==> x in s)
            && forall i, j :: 0 <= i < j < |r| && r[i] in late ==> r[j] in late
  {
    if s != [] {
      var q := Arrange(s[1..], late);
      Arranged(s[1..], late);
      assert s == [s[0]] + s[1..];
      assert s[0] !in s[1..];
      assert s[0] !in q;
    }
  }

  /** The edges that come last: those to nodes above `b`, and `f` */
  function LateEdges(g: Graph, b: NodeId, f: EdgeId): set<EdgeId>
    requires Valid(g)
  {
    set x | x in g.edges && (x == f || g.edges[x].child in Above(g, b))
  }

  function AdverseOrder(g: Graph, b: NodeId, f: EdgeId): Graph
    requires Valid(g)
  {
    g.(nodes := map y | y in g.nodes :: g.nodes[y].(children := Arrange(g.nodes[y].children, LateEdges(g, b, f))))
  }

  lemma AdverseOrderReordered(g: Graph, b: NodeId, f: EdgeId)
    requires Valid(g)
    ensures Reordered(g, AdverseOrder(g, b, f)) && Valid(AdverseOrder(g, b, f))
  {
    var h := AdverseOrder(g, b, f);
    forall y | y in g.nodes
      ensures Permuted(g.nodes[y], h.nodes[y])
    {
      assert ValidNode(g, y);
      Arranged(g.nodes[y].children, LateEdges(g, b, f));
    }
    ReorderedValid(g, h);
  }

  lemma AboveReordered(g: Graph, h: Graph, b: NodeId)
    requires Valid(g) && Valid(h) && Reordered(g, h)
    ensures Above(h, b) == Above(g, b)
  {
    forall a | a in g.nodes
      ensures b in Reach(h, a) <==> b in Reach(g, a)
    {
      ReachOrderless(g, h, a);
    }
  }

  /** No child of `b` is above `b`. */
  lemma ChildNotAbove(g: Graph, b: NodeId, k: nat)
    requires Valid(g) && b in g.nodes && k < |g.nodes[b].children|
    ensures Child(g, b, k) !in Above(g, b)
  {
    var c := Child(g, b, k);
    if c in Above(g, b) {
      ReachRank(g, c, b);
    }
  }

  lemma AdverseOrderIs(g: Graph, b: NodeId, f: EdgeId)
    requires Valid(g) && f in g.edges && g.edges[f].owner == Some(b) && b in g.nodes
    ensures Valid(AdverseOrder(g, b, f)) && Adverse(AdverseOrder(g, b, f), b, f)
  {
    var h, late := AdverseOrder(g, b, f), LateEdges(g, b, f);
    AdverseOrderReordered(g, b, f);
    AboveReordered(g, h, b);
    assert ValidNode(g, b) && Permuted(g.nodes[b], h.nodes[b]);
    EdgeEnds(g, f);
    Arranged(g.nodes[b].children, late);
    LastIs(h, b, f, late);
    forall x, i, j | x in h.nodes && 0 <= i < j < |h.nodes[x].children| && Child(h, x, i) in Above(h, b)
      ensures Child(h, x, j) in Above(h, b)
    {
      ChildEdge(h, x, i);
      ChildEdge(h, x, j);
      assert ValidNode(g, x);
      Arranged(g.nodes[x].children, late);
      assert h.nodes[x].children[i] in late;
      assert h.nodes[x].children[j] in late;
      if h.nodes[x].children[j] == f {
        ChildNotAbove(h, b, i);
      }
    }
  }

  lemma LastIs(h: Graph, b: NodeId, f: EdgeId, late: set<EdgeId>)
    requires Valid(h) && b in h.nodes && f in h.nodes[b].children && f in late
    requires forall x :: x in late ==> x in h.edges && (x == f || h.edges[x].child in Above(h, b))
    requires var r := h.nodes[b].children; forall i, j :: 0 <= i < j < |r| && r[i] in late ==> r[j] in late
    ensures h.nodes[b].children[|h.nodes[b].children| - 1] == f
  {
    var r := h.nodes[b].children;
    var i :| 0 <= i < |r| && r[i] == f;
    var last: nat := |r| - 1;
    assert r[last] in late;
    ChildEdge(h, b, last);
    ChildNotAbove(h, b, last);
  }

  // ----- the result -----

  ghost predicate AllActive(g: Graph) {
    forall b :: b in g.nodes ==> !Inactive(g, b)
  }

  /** No assertion fails, and every node is inactivated once, after all of its parents. */
  ghost predicate InactivatesInOrder(t: ReadyBlock, list: seq<NodeId>)
    requires ListsRoots(t.g, list)
  {
    var r := InactivateAll(t, [], list);
    && r.Done? && Ordered(r.s.g, r.log)
    && forall b :: b in t.g.nodes ==> b in r.s.g.nodes && Inactive(r.s.g, b) && b in r.log
  }

  ghost predicate SafeInAnyOrder(s: ReadyBlock) {
    forall t: ReadyBlock, list: seq<NodeId> {:trigger InactivatesInOrder(t, list)} ::
      Reordered(s.g, t.g) && ListsRoots(t.g, list) ==> InactivatesInOrder(t, list)
  }

  lemma ReorderedActive(g: Graph, h: Graph)
    requires Reordered(g, h) && AllActive(g)
    ensures AllActive(h) && forall c :: !Orphan(h, c)
  {
    forall b | b in h.nodes
      ensures !Inactive(h, b)
    {
      assert Permuted(g.nodes[b], h.nodes[b]) && !Inactive(g, b);
    }
  }

  lemma {:induction false} ListOf(all: set<NodeId>) returns (list: seq<NodeId>)
    ensures NoDup(list) && forall x :: x in list <==> x in all
  {
    list := [];
    if all != {} {
      var x :| x in all;
      var rest := ListOf(all - {x});
      list := [x] + rest;
    }
  }

  /** With a shortcut there are orders of the lists in which an assertion fails. */
  lemma ShortcutFails(s: ReadyBlock, e: EdgeId, f: EdgeId) returns (t: ReadyBlock, list: seq<NodeId>)
    requires AllActive(s.g) && Shortcut(s.g, e, f)
    ensures Reordered(s.g, t.g) && ListsRoots(t.g, list) && InactivateAll(t, [], list).AssertionFails?
  {
    EdgeEnds(s.g, f);
    var b := s.g.edges[f].owner.value;
    var h := AdverseOrder(s.g, b, f);
    AdverseOrderReordered(s.g, b, f);
    AdverseOrderIs(s.g, b, f);
    ReorderedReady(s, h);
    ReorderedActive(s.g, h);
    t := Block(h, s.p);
    ReachOrderless(s.g, h, h.edges[e].child);
    list := ListOf(h.nodes.Keys);
    Arranged(list, Above(h, b));
    list := Arrange(list, Above(h, b));
    AllStuck(h, [], list, b, f, e);
    AllFollow(t, [], list);
  }

  /** bdrv_inactivate_all, started with every node active, works in whatever order the lists are, if
      and only if the graph has no shortcut. */
  lemma SafeExactly(s: ReadyBlock)
    requires AllActive(s.g)
    ensures SafeInAnyOrder(s) <==> Reduced(s.g)
  {
    if Reduced(s.g) {
      forall t: ReadyBlock, list: seq<NodeId> | Reordered(s.g, t.g) && ListsRoots(t.g, list)
        ensures InactivatesInOrder(t, list)
      {
        ReducedLater(s.g, t.g);
        ReorderedActive(s.g, t.g);
        InactivateAllInOrder(t, list);
      }
    } else {
      var e, f :| Shortcut(s.g, e, f);
      var t, list := ShortcutFails(s, e, f);
      assert !InactivatesInOrder(t, list);
    }
  }
}
