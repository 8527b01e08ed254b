/** The block graph as the program works on it: permissions of edges are written in place during a
    check and written again when it is aborted or set. */
module BlockLayer {
  import opened Basics
  import opened BlockPerm
  import opened BlockGraph
  import opened BlockUpdate
  import opened BlockOps
  import opened BlockRewire
  import opened BlockReplace
  import opened BlockInactivate

  lemma JoinAssoc(a: Use, b: Use, c: Use)
    ensures Join(Join(a, b), c) == Join(a, Join(b, c))
  {
  }

  lemma NothingLeft(a: Perms, b: Perms)
    ensures a - b == {} <==> a <= b
  {
    if a - b == {} {
      forall x | x in a
        ensures x in b
      {
        assert x !in a - b;
      }
    }
  }

  /** A set of nodes that the children of its members do not leave */
  ghost predicate Closed(g: Graph, found: set<NodeId>)
    requires Valid(g)
  {
    forall v {:trigger ClosedAt(g, found, v)} :: v in found && v in g.nodes ==> ClosedAt(g, found, v)
  }

  ghost predicate ClosedAt(g: Graph, found: set<NodeId>, v: NodeId)
    requires Valid(g) && v in g.nodes
  {
    forall k {:trigger g.nodes[v].children[k]} :: 0 <= k < |g.nodes[v].children| ==> ChildIn(g, found, v, k)
  }

  ghost predicate ChildIn(g: Graph, found: set<NodeId>, v: NodeId, k: nat)
    requires Valid(g) && v in g.nodes && k < |g.nodes[v].children|
  {
    ChildEdge(g, v, k);
    g.edges[g.nodes[v].children[k]].child in found
  }

  lemma {:induction false} ClosedReach(g: Graph, found: set<NodeId>, b: NodeId)
    requires Valid(g) && Closed(g, found) && b in found && b in g.nodes
    ensures Reach(g, b) <= found
    decreases g.rank[b], 1, 0
  {
    assert ClosedAt(g, found, b);
    ClosedReachFrom(g, found, b, 0);
  }

  lemma {:induction false} ClosedReachFrom(g: Graph, found: set<NodeId>, b: NodeId, i: nat)
    requires Valid(g) && Closed(g, found) && b in g.nodes && i <= |g.nodes[b].children| && ClosedAt(g, found, b)
    ensures ReachFrom(g, b, i) <= found
    decreases g.rank[b], 0, |g.nodes[b].children| - i
  {
    if i < |g.nodes[b].children| {
      ChildEdge(g, b, i);
      assert g.nodes[b].children[i] == g.nodes[b].children[i];
      assert ChildIn(g, found, b, i);
      ClosedReach(g, found, g.edges[g.nodes[b].children[i]].child);
      ClosedReachFrom(g, found, b, i + 1);
    }
  }

  lemma ClosedMore(g: Graph, a: set<NodeId>, b: set<NodeId>, v: NodeId)
    requires Valid(g) && v in g.nodes && a <= b && ClosedAt(g, a, v)
    ensures ClosedAt(g, b, v)
  {
    forall k | 0 <= k < |g.nodes[v].children|
      ensures ChildIn(g, b, v, k)
    {
      assert g.nodes[v].children[k] == g.nodes[v].children[k];
      assert ChildIn(g, a, v, k);
    }
  }

  /** A child of a node in reach is in reach. */
  lemma ReachChild(g: Graph, b: NodeId, v: NodeId, k: nat)
    requires Valid(g) && b in g.nodes && v in g.nodes && v in Reach(g, b) && k < |g.nodes[v].children|
    ensures g.nodes[v].children[k] in g.edges && g.edges[g.nodes[v].children[k]].owner == Some(v)
    ensures g.edges[g.nodes[v].children[k]].child in Reach(g, b) && g.edges[g.nodes[v].children[k]].child in g.nodes
  {
    ChildEdge(g, v, k);
    assert ValidNode(g, v);
    ReachClosed(g, b, g.nodes[v].children[k]);
  }

  // ----- lists of parents -----

  lemma {:induction false} WithoutTwice(list: seq<EdgeId>, a: set<EdgeId>, b: set<EdgeId>)
    ensures Without(Without(list, a), b) == Without(list, a + b)
  {
    if list != [] {
      WithoutTwice(list[1..], a, b);
      WithoutJoin(if list[0] in a then [] else [list[0]], Without(list[1..], a), b);
    }
  }

  lemma {:induction false} WithoutJoin(x: seq<EdgeId>, y: seq<EdgeId>, drop: set<EdgeId>)
    ensures Without(x + y, drop) == Without(x, drop) + Without(y, drop)
  {
    if x == [] {
      assert x + y == y;
    } else {
      assert (x + y)[1..] == x[1..] + y;
      WithoutJoin(x[1..], y, drop);
    }
  }

  /** bdrv_replace_child_noperm: one edge leaves its node and becomes the first parent of `to`. */
  function MoveOne(g: Graph, e: EdgeId, to: NodeId): Graph
    requires e in g.edges
  {
    g.(nodes := map b | b in g.nodes :: RedirectNode(g.nodes[b], [e], b == to),
       edges := g.edges[e := g.edges[e].(child := to)])
  }

  /** The shape after the edges in `moved` were moved, before ranks are assigned anew */
  function MoveAll(g: Graph, moved: seq<EdgeId>, to: NodeId): Graph {
    g.(nodes := map b | b in g.nodes :: RedirectNode(g.nodes[b], moved, b == to),
       edges := map e | e in g.edges :: if e in moved then g.edges[e].(child := to) else g.edges[e])
  }

  lemma MoveNextList(list: seq<EdgeId>, e: EdgeId, moved: seq<EdgeId>, front: seq<EdgeId>)
    requires e !in front
    ensures Without(front + Without(list, SetOf(moved)), SetOf([e])) == front + Without(list, SetOf([e] + moved))
  {
    WithoutTwice(list, SetOf(moved), SetOf([e]));
    SetOfMore(e, moved);
    WithoutJoin(front, Without(list, SetOf(moved)), SetOf([e]));
    WithoutNone(front, SetOf([e]));
  }

  lemma SetOfMore(e: EdgeId, moved: seq<EdgeId>)
    ensures SetOf(moved) + SetOf([e]) == SetOf([e] + moved)
  {
  }

  lemma Regroup(a: seq<EdgeId>, b: seq<EdgeId>, c: seq<EdgeId>)
    ensures a + (b + c) == a + b + c
  {
  }

  /** The parents of a node once the edges in `moved` have gone to the node `here` tells of */
  function ParentsAfter(list: seq<EdgeId>, moved: seq<EdgeId>, here: bool): seq<EdgeId> {
    (if here then moved else []) + Without(list, SetOf(moved))
  }

  lemma MoveNextParents(list: seq<EdgeId>, e: EdgeId, moved: seq<EdgeId>, here: bool)
    requires e !in moved
    ensures ParentsAfter(ParentsAfter(list, moved, here), [e], here) == ParentsAfter(list, [e] + moved, here)
  {
    var front := if here then moved else [];
    MoveNextList(list, e, moved, front);
    Regroup(if here then [e] else [], front, Without(list, SetOf([e] + moved)));
  }

  lemma MoveNextNode(n: Node, e: EdgeId, moved: seq<EdgeId>, here: bool)
    requires e !in moved
    ensures RedirectNode(RedirectNode(n, moved, here), [e], here) == RedirectNode(n, [e] + moved, here)
  {
    MoveNextParents(n.parents, e, moved, here);
    assert RedirectNode(n, moved, here).parents == ParentsAfter(n.parents, moved, here);
  }

  predicate AnyFrozen(g: Graph, list: seq<EdgeId>) {
    exists e :: e in list && e in g.edges && g.edges[e].frozen
  }

  lemma {:induction false} MovedJoin(g: Graph, x: seq<EdgeId>, y: seq<EdgeId>, to: NodeId)
    requires Valid(g) && to in g.nodes && (forall e :: e in x ==> e in g.edges) && (forall e :: e in y ==> e in g.edges)
    ensures Moved(g, x + y, to) == Moved(g, x, to) + Moved(g, y, to)
  {
    if x == [] {
      assert x + y == y;
    } else {
      assert (x + y)[1..] == x[1..] + y;
      MovedJoin(g, x[1..], y, to);
    }
  }

  lemma MovedOne(g: Graph, c: EdgeId, to: NodeId)
    requires Valid(g) && to in g.nodes && c in g.edges
    ensures Moved(g, [c], to) == if ShouldUpdate(g, c, to) then [c] else []
  {
    assert Moved(g, [c][1..], to) == [];
  }

  /** One step of collecting the edges to be moved */
  lemma MovedStep(g: Graph, x: seq<EdgeId>, c: EdgeId, to: NodeId)
    requires Valid(g) && to in g.nodes && c in g.edges && forall e :: e in x ==> e in g.edges
    ensures Moved(g, x + [c], to) == Moved(g, x, to) + (if ShouldUpdate(g, c, to) then [c] else [])
  {
    MovedJoin(g, x, [c], to);
    MovedOne(g, c, to);
  }

  /** Moving one more edge in front of those that were moved */
  lemma MoveNext(g: Graph, e: EdgeId, moved: seq<EdgeId>, to: NodeId)
    requires e in g.edges && e !in moved
    ensures MoveOne(MoveAll(g, moved, to), e, to) == MoveAll(g, [e] + moved, to)
  {
    var h, l, r := MoveAll(g, moved, to), MoveOne(MoveAll(g, moved, to), e, to), MoveAll(g, [e] + moved, to);
    forall b | b in g.nodes
      ensures l.nodes[b] == r.nodes[b]
    {
      MoveNextNode(g.nodes[b], e, moved, b == to);
    }
    assert l.nodes == r.nodes && l.edges == r.edges;
  }

  lemma CumulativeOneMore(p: State, list: seq<EdgeId>, c: EdgeId)
    requires c in p && forall e :: e in list ==> e in p
    ensures Cumulative(p, list + [c], {}) == Join(Cumulative(p, list, {}), p[c].use)
  {
    CumulativeAppend(p, list, [c]);
    assert Cumulative(p, [c], {}) == Join(p[c].use, Cumulative(p, [c][1..], {}));
    JoinNothing(p[c].use);
  }

  /** A search that saw all of its set without meeting the edge */
  lemma SearchDone(g: Graph, e: EdgeId, to: NodeId, found: set<NodeId>)
    requires Valid(g) && e in g.edges && to in g.nodes && to in found && Closed(g, found)
    requires forall v {:trigger g.nodes[v]} :: v in found && v in g.nodes ==> e !in g.nodes[v].children
    ensures g.edges[e].owner.Some? ==> g.edges[e].owner.value !in Reach(g, to)
  {
    ClosedReach(g, found, to);
    EdgeEnds(g, e);
  }

  lemma MoveNothing(g: Graph, to: NodeId)
    ensures MoveAll(g, [], to) == g
  {
    forall b | b in g.nodes
      ensures RedirectNode(g.nodes[b], [], b == to) == g.nodes[b]
    {
      WithoutNone(g.nodes[b].parents, SetOf([]));
    }
    assert MoveAll(g, [], to).nodes == g.nodes;
  }

  // ----- parents that are nodes -----

  /** A parent of `b` in its list of parents */
  lemma ListedParent(g: Graph, b: NodeId, x: NodeId)
    requires Valid(g) && b in g.nodes
    ensures ParentOf(g, x, b) <==> exists i :: 0 <= i < |g.nodes[b].parents| && OwnedAt(g, b, i, x)
  {
    assert ValidNode(g, b);
    if ParentOf(g, x, b) {
      var e :| e in g.edges && g.edges[e].owner == Some(x) && g.edges[e].child == b;
      assert ValidEdge(g, e);
      var i :| 0 <= i < |g.nodes[b].parents| && g.nodes[b].parents[i] == e;
      assert OwnedAt(g, b, i, x);
    }
    if i :| 0 <= i < |g.nodes[b].parents| && OwnedAt(g, b, i, x) {
      assert g.nodes[b].parents[i] in g.nodes[b].parents;
    }
  }

  predicate OwnedAt(g: Graph, b: NodeId, i: nat, x: NodeId)
    requires b in g.nodes && i < |g.nodes[b].parents|
  {
    g.nodes[b].parents[i] in g.edges && g.edges[g.nodes[b].parents[i]].owner == Some(x)
  }

  class Layer {
    var g: Graph
    var p: State
    ghost var log: seq<NodeId>  // the nodes inactivated so far

    constructor (g: Graph, p: State)
      ensures this.g == g && this.p == p && log == []
    {
      this.g, this.p, log := g, p, [];
    }

    /** bdrv_get_cumulative_perm */
    method CumulativePerm(b: NodeId) returns (u: Use)
      requires Valid(g) && ValidState(g, p) && b in g.nodes
      ensures u == NodeUse(g, p, b, {})
      ensures forall x :: x in u.perm <==> exists e :: e in g.nodes[b].parents && e in p && x in p[e].use.perm
      ensures forall x :: x in u.shared <==> forall e :: e in g.nodes[b].parents && e in p ==> x in p[e].use.shared
    {
      assert ValidNode(g, b);
      var list := g.nodes[b].parents;
      u := Use({}, ALL);
      JoinNothing(Cumulative(p, list, {}));
      var i := 0;
      while i < |list|
        invariant 0 <= i <= |list| && Join(u, Cumulative(p, list[i..], {})) == Cumulative(p, list, {})
      {
        var c := list[i];
        assert list[i..][0] == c && list[i..][1..] == list[i + 1..];
        JoinAssoc(u, p[c].use, Cumulative(p, list[i + 1..], {}));
        u := Use(u.perm + p[c].use.perm, u.shared * p[c].use.shared);
        i := i + 1;
      }
      JoinNothing(u);
      forall x
        ensures x in u.perm <==> exists e :: e in list && x in p[e].use.perm
        ensures x in u.shared <==> forall e :: e in list ==> x in p[e].use.shared
      {
        CumulativeSpec(p, list, {}, x);
      }
    }

    // ----- check -----

    /** bdrv_child_check_perm */
    method ChildCheckPerm(e: EdgeId, u: Use, skip: set<EdgeId>) returns (verdict: Verdict, tighten: bool)
      requires Valid(g) && ValidState(g, p) && e in g.edges && Sharing(u)
      modifies this`p
      ensures CheckEdge(g, old(p), e, u, skip) == Result(p, verdict, tighten)
      decreases (EdgeEnds(g, e); g.rank[g.edges[e].child]), 3, 0
    {
      EdgeEnds(g, e);
      verdict, tighten := CheckUpdatePerm(g.edges[e].child, u, skip + {e});
      if verdict != Granted {
        return;
      }
      p := p[e := EdgePerm(u, if p[e].backup.Some? then p[e].backup else Some(p[e].use))];
    }

    /** bdrv_check_update_perm */
    method CheckUpdatePerm(b: NodeId, u: Use, skip: set<EdgeId>) returns (verdict: Verdict, tighten: bool)
      requires Valid(g) && ValidState(g, p) && b in g.nodes && Sharing(u)
      modifies this`p
      ensures CheckUpdate(g, old(p), b, u, skip) == Result(p, verdict, tighten)
      decreases g.rank[b], 2, 0
    {
      assert ValidNode(g, b);
      var list := g.nodes[b].parents;
      var cumulative := u;
      var i := 0;
      JoinNothing(u);
      while i < |list|
        invariant 0 <= i <= |list| && p == old(p)
        invariant Join(cumulative, Cumulative(p, list[i..], skip)) == Join(u, Cumulative(p, list, skip))
        invariant forall k :: 0 <= k < i && list[k] !in skip ==> Compatible(u, p[list[k]].use)
      {
        var c := list[i];
        assert c in list && list[i..][0] == c && list[i..][1..] == list[i + 1..];
        if c !in skip {
          if !(u.perm <= p[c].use.shared) || !(p[c].use.perm <= u.shared) {
            return SharingConflict, true;
          }
          JoinAssoc(cumulative, p[c].use, Cumulative(p, list[i + 1..], skip));
          cumulative := Use(cumulative.perm + p[c].use.perm, cumulative.shared * p[c].use.shared);
        }
        i := i + 1;
      }
      JoinNothing(cumulative);
      assert cumulative == Join(u, NodeUse(g, p, b, skip));
      assert !Conflicts(p, list, skip, u);
      verdict, tighten := CheckPerm(b, cumulative, skip);
    }

    /** bdrv_check_perm */
    method CheckPerm(b: NodeId, u: Use, skip: set<EdgeId>) returns (verdict: Verdict, tighten: bool)
      requires Valid(g) && ValidState(g, p) && b in g.nodes && Sharing(u)
      modifies this`p
      ensures CheckNode(g, old(p), b, u, skip) == Result(p, verdict, tighten)
      decreases g.rank[b], 1, 0
    {
      var current := CumulativePerm(b);
      var added, removed := u.perm - current.perm, current.shared - u.shared;
      tighten := added != {} || removed != {};
      NothingLeft(u.perm, current.perm);
      NothingLeft(current.shared, u.shared);
      assert tighten == Tightens(u, current);
      var n := g.nodes[b];
      if (Write in u.perm || WriteUnchanged in u.perm) && !Writable(n.flags) {
        return NodeRefusal, tighten;
      }
      if (Write in u.perm || WriteUnchanged in u.perm) && Resize !in u.perm && !n.aligned {
        return NodeRefusal, tighten;
      }
      if !n.drv {
        return Granted, tighten;
      }
      if n.hook.Some? {
        return if u in n.hook.value then Granted else NodeRefusal, tighten;
      }
      var childTighten;
      verdict, childTighten := CheckAllChildren(b, u, skip);
      tighten := tighten || childTighten;
    }

    /** Its loop over the children */
    method CheckAllChildren(b: NodeId, u: Use, skip: set<EdgeId>) returns (verdict: Verdict, tighten: bool)
      requires Valid(g) && ValidState(g, p) && b in g.nodes && Sharing(u)
      modifies this`p
      ensures CheckChildren(g, old(p), b, 0, u, skip) == Result(p, verdict, tighten)
      decreases g.rank[b], 0, 0
    {
      verdict, tighten := Granted, false;
      ghost var whole := CheckChildren(g, p, b, 0, u, skip);
      var i: nat := 0;
      while i < |g.nodes[b].children|
        invariant g == old(g) && i <= |g.nodes[b].children| && ValidState(g, p) && verdict == Granted
        invariant var rest := CheckChildren(g, p, b, i, u, skip); whole == rest.(tighten := tighten || rest.tighten)
        decreases |g.nodes[b].children| - i
      {
        ChildEdge(g, b, i);
        var c := g.nodes[b].children[i];
        var childTighten;
        verdict, childTighten := ChildCheckPerm(c, Wanted(g, c, u), skip);
        tighten := tighten || childTighten;
        if verdict != Granted {
          return;
        }
        i := i + 1;
      }
    }

    // ----- abort -----

    /** bdrv_child_abort_perm_update */
    method ChildAbort(e: EdgeId)
      requires Valid(g) && ValidState(g, p) && e in g.edges
      modifies this`p
      ensures p == AbortEdge(g, old(p), e) && ValidState(g, p)
      decreases (EdgeEnds(g, e); g.rank[g.edges[e].child]), 3, 0
    {
      EdgeEnds(g, e);
      assert Shares(p[e]);
      Patched(g, p, e, Restored(p[e]));
      if p[e].backup.Some? {
        p := p[e := EdgePerm(p[e].backup.value, None)];
      }
      assert p == old(p)[e := Restored(old(p)[e])];
      Abort(g.edges[e].child);
    }

    /** bdrv_abort_perm_update */
    method Abort(b: NodeId)
      requires Valid(g) && ValidState(g, p) && b in g.nodes
      modifies this`p
      ensures p == AbortNode(g, old(p), b) && ValidState(g, p)
      decreases g.rank[b], 1, 0
    {
      if !g.nodes[b].drv {
        return;
      }
      ghost var whole := AbortChildren(g, p, b, 0);
      var i: nat := 0;
      while i < |g.nodes[b].children|
        invariant g == old(g) && i <= |g.nodes[b].children| && ValidState(g, p) && AbortChildren(g, p, b, i) == whole
        decreases |g.nodes[b].children| - i
      {
        ChildEdge(g, b, i);
        ChildAbort(g.nodes[b].children[i]);
        i := i + 1;
      }
    }

    // ----- set -----

    /** bdrv_child_set_perm */
    method ChildSet(e: EdgeId, u: Use)
      requires Valid(g) && ValidState(g, p) && e in g.edges && Sharing(u)
      modifies this`p
      ensures p == SetEdge(g, old(p), e, u) && ValidState(g, p)
      decreases (EdgeEnds(g, e); g.rank[g.edges[e].child]), 3, 0
    {
      EdgeEnds(g, e);
      Patched(g, p, e, EdgePerm(u, None));
      p := p[e := EdgePerm(u, None)];
      var w := CumulativePerm(g.edges[e].child);
      Set(g.edges[e].child, w);
    }

    /** bdrv_set_perm */
    method Set(b: NodeId, u: Use)
      requires Valid(g) && ValidState(g, p) && b in g.nodes && Sharing(u)
      modifies this`p
      ensures p == SetNode(g, old(p), b, u) && ValidState(g, p)
      decreases g.rank[b], 1, 0
    {
      if !g.nodes[b].drv {
        return;
      }
      ghost var whole := SetChildren(g, p, b, 0, u);
      var i: nat := 0;
      while i < |g.nodes[b].children|
        invariant g == old(g) && i <= |g.nodes[b].children| && ValidState(g, p) && SetChildren(g, p, b, i, u) == whole
        decreases |g.nodes[b].children| - i
      {
        ChildEdge(g, b, i);
        var c := g.nodes[b].children[i];
        ChildSet(c, Wanted(g, c, u));
        i := i + 1;
      }
    }

    // ----- operations -----

    /** bdrv_child_try_set_perm: 0 and the request is in force, or the state is as it was. */
    method ChildTrySetPerm(e: EdgeId, u: Use) returns (err: bool)
      requires Valid(g) && ValidState(g, p) && NoBackups(p) && Compat(g, p, {}) && e in g.edges && Sharing(u)
      modifies this`p
      ensures (Block(g, p), err) == old(TrySet(Block(g, p), e, u))
      ensures ValidState(g, p) && NoBackups(p) && Compat(g, p, {}) && (p == old(p) || p[e].use == u)
    {
      TrySetKeepsCompat(Block(g, p), e, u);
      var verdict, tighten := ChildCheckPerm(e, u, {});
      if verdict != Granted {
        ChildAbort(e);
        return tighten;
      }
      ChildSet(e, u);
      err := false;
    }

    /** The tail of bdrv_replace_child for the old node.  Its assertion, that `tighten` is false, holds
        where children are covered. */
    method SettleNode(b: NodeId) returns (tighten: bool)
      requires Consistent(Block(g, p)) && b in g.nodes
      modifies this`p
      ensures (Block(g, p), tighten) == old(Settle(Block(g, p), b)) && Consistent(Block(g, p))
      ensures old(Sound(Block(g, p))) ==> !tighten && Sound(Block(g, p))
    {
      SettleConsistent(Block(g, p), b);
      if Sound(Block(g, p)) {
        SettleSound(Block(g, p), b);
      }
      var u := CumulativePerm(b);
      var verdict;
      verdict, tighten := CheckPerm(b, u, {});
      if verdict != Granted {
        Abort(b);
      } else {
        Set(b, u);
      }
    }

    /** bdrv_detach_child */
    method DetachChild(e: EdgeId) returns (tighten: bool)
      requires Consistent(Block(g, p)) && e in g.edges
      modifies this
      ensures (Block(g, p), tighten) == old(Detach(Block(g, p), e)) && Consistent(Block(g, p))
      ensures old(Sound(Block(g, p))) ==> !tighten && Sound(Block(g, p))
    {
      DetachLeavesConsistent(Block(g, p), e);
      if Sound(Block(g, p)) {
        DetachLeavesSound(Block(g, p), e);
      }
      EdgeEnds(g, e);
      var b := g.edges[e].child;
      g, p := DetachShape(g, e), p - {e};
      tighten := SettleNode(b);
    }

    /** should_update_child: breadth-first search from `to` for the owner of the edge */
    method ShouldUpdateChild(e: EdgeId, to: NodeId) returns (r: bool)
      requires Valid(g) && e in g.edges && to in g.nodes
      ensures r == ShouldUpdate(g, e, to)
    {
      if g.edges[e].stayAtNode {
        return false;
      }
      r := true;
      var found, queue := {to}, [to];
      ghost var reach := Reach(g, to);
      while queue != []
        invariant found <= reach && to in found && (forall v :: v in queue ==> v in found)
        invariant !r ==> g.edges[e].owner.Some? && g.edges[e].owner.value in reach
        invariant r ==> forall v {:trigger ClosedAt(g, found, v)} ::
                    v in found && v in g.nodes && v !in queue ==> ClosedAt(g, found, v) && e !in g.nodes[v].children
        decreases reach - found, |queue|
      {
        var v := queue[0];
        ghost var before, rest, was := found, queue[1..], r;
        ReachRank(g, to, v);
        assert ValidNode(g, v);
        r, found, queue := Visit(e, v, r, found, queue[1..], to);
        if r {
          forall w | w in found && w in g.nodes && w !in queue
            ensures ClosedAt(g, found, w) && e !in g.nodes[w].children
          {
            if w != v {
              assert w in before && w !in rest;
              assert ClosedAt(g, before, w);
              ClosedMore(g, before, found, w);
            }
          }
        }
      }
      if r {
        forall v | v in found && v in g.nodes
          ensures ClosedAt(g, found, v) && e !in g.nodes[v].children
        {
          assert v !in queue;
        }
        SearchDone(g, e, to, found);
      }
    }

    /** One round of the search: the children of `v` */
    method Visit(e: EdgeId, v: NodeId, r0: bool, found0: set<NodeId>, queue0: seq<NodeId>, ghost to: NodeId)
      returns (r: bool, found: set<NodeId>, queue: seq<NodeId>)
      requires Valid(g) && e in g.edges && to in g.nodes && v in g.nodes && v in Reach(g, to)
      requires found0 <= Reach(g, to) && forall x :: x in queue0 ==> x in found0
      ensures found0 <= found <= Reach(g, to) && (forall x :: x in queue ==> x in found)
      ensures queue0 <= queue && (found == found0 ==> queue == queue0)
      ensures forall x :: x in found ==> x in found0 || x in queue
      ensures r == (r0 && e !in g.nodes[v].children) && (r ==> ClosedAt(g, found, v))
    {
      r, found, queue := r0, found0, queue0;
      var list := g.nodes[v].children;
      var i: nat := 0;
      while i < |list|
        invariant i <= |list| && r == r0 && e !in list[..i]
        invariant found0 <= found <= Reach(g, to) && (forall x :: x in queue ==> x in found)
        invariant queue0 <= queue && (found == found0 ==> queue == queue0)
        invariant forall x :: x in found ==> x in found0 || x in queue
        invariant forall k :: 0 <= k < i ==> ChildIn(g, found, v, k)
        decreases |list| - i
      {
        ReachChild(g, to, v, i);
        var c := list[i];
        if c == e {
          r := false;
          break;
        }
        var b := g.edges[c].child;
        ghost var before := found;
        if b !in found {
          queue := queue + [b];
          found := found + {b};
        }
        forall k | 0 <= k < i
          ensures ChildIn(g, found, v, k)
        {
          assert ChildIn(g, before, v, k);
        }
        i := i + 1;
      }
      assert r ==> list[..i] == list;
    }

    /** The first loop of bdrv_replace_node: which parents are moved */
    method ParentsToMove(list: seq<EdgeId>, to: NodeId) returns (ok: bool, moved: seq<EdgeId>)
      requires Valid(g) && to in g.nodes && forall e :: e in list ==> e in g.edges
      ensures ok == !AnyFrozen(g, Moved(g, list, to)) && (ok ==> moved == Moved(g, list, to))
    {
      ok, moved := true, [];
      var i: nat := 0;
      while i < |list|
        invariant i <= |list| && moved == Moved(g, list[..i], to) && !AnyFrozen(g, moved)
        decreases |list| - i
      {
        var c := list[i];
        assert list[..i + 1] == list[..i] + [c];
        MovedStep(g, list[..i], c, to);
        var should := ShouldUpdateChild(c, to);
        if should {
          if g.edges[c].frozen {
            assert c in Moved(g, list, to);
            return false, moved;
          }
          moved := moved + [c];
        }
        i := i + 1;
      }
      assert list[..i] == list;
    }

    /** What the parents to be moved use together, summed up in the same loop of the program */
    method CumulativeOf(list: seq<EdgeId>) returns (u: Use)
      requires forall e :: e in list ==> e in p
      ensures u == Cumulative(p, list, {})
    {
      u := Use({}, ALL);
      var i: nat := 0;
      while i < |list|
        invariant i <= |list| && u == Cumulative(p, list[..i], {})
        decreases |list| - i
      {
        var c := list[i];
        assert list[..i + 1] == list[..i] + [c];
        CumulativeOneMore(p, list[..i], c);
        u := Use(u.perm + p[c].use.perm, u.shared * p[c].use.shared);
        i := i + 1;
      }
      assert list[..i] == list;
    }

    /** Its last loop, which walks the collected list backwards */
    method MoveParents(moved: seq<EdgeId>, to: NodeId)
      requires Valid(g) && to in g.nodes && NoDup(moved) && forall e :: e in moved ==> e in g.edges
      modifies this`g
      ensures g == RedirectShape(old(g), moved, to)
    {
      ghost var g0 := g;
      var rank := Rerank(g, to);
      var k: nat := |moved|;
      MoveNothing(g, to);
      assert moved[k..] == [];
      while k > 0
        invariant k <= |moved| && g == MoveAll(g0, moved[k..], to)
        decreases k
      {
        k := k - 1;
        assert moved[k..] == [moved[k]] + moved[k + 1..];
        assert moved[k] in moved;
        MoveNext(g0, moved[k], moved[k + 1..], to);
        g := MoveOne(g, moved[k], to);
      }
      assert moved[k..] == moved;
      g := g.(rank := rank);
    }

    /** bdrv_replace_node: all parents that may move are moved at once, or none. */
    method ReplaceNode(from: NodeId, to: NodeId) returns (ok: bool)
      requires Valid(g) && ValidState(g, p) && NoBackups(p) && Compat(g, p, {}) && from in g.nodes && to in g.nodes
      modifies this
      ensures (Block(g, p), ok) == old(Replace(Block(g, p), from, to))
      ensures Valid(g) && ValidState(g, p) && NoBackups(p) && Compat(g, p, {}) && (!ok ==> g == old(g) && p == old(p))
    {
      ReplaceKeepsCompat(Block(g, p), from, to);
      assert ValidNode(g, from);
      var moved;
      ok, moved := ParentsToMove(g.nodes[from].parents, to);
      if !ok {
        return;
      }
      var u := CumulativeOf(moved);
      CumulativeShares(p, moved, {});
      var verdict, tighten := CheckUpdatePerm(to, u, SetOf(moved));
      if verdict != Granted {
        Abort(to);
        return false;
      }
      MovedNoDup(g, g.nodes[from].parents, to);
      RedirectValid(g, from, to);
      RedirectState(g, p, moved, to);
      MoveParents(moved, to);
      var w := CumulativePerm(to);
      Set(to, w);
    }

    /** bdrv_root_attach_child: a new parent, or nothing changes. */
    method RootAttachChild(id: EdgeId, c: Edge, u: Use) returns (ok: bool)
      requires Consistent(Block(g, p)) && id !in g.edges && c.owner == None && c.child in g.nodes && Sharing(u)
      modifies this
      ensures (Block(g, p), ok) == old(Attach(Block(g, p), id, c, u))
      ensures Consistent(Block(g, p)) && (!ok ==> g == old(g) && p == old(p))
      ensures ok ==> g == AttachShape(old(g), id, c) && p[id].use == u
    {
      AttachKeepsCompat(Block(g, p), id, c, u);
      var verdict, tighten := CheckUpdatePerm(c.child, u, {});
      if verdict != Granted {
        Abort(c.child);
        return false;
      }
      AttachValid(g, id, c);
      AttachState(g, p, id, c, u);
      g, p := AttachShape(g, id, c), p[id := EdgePerm(u, None)];
      var w := CumulativePerm(c.child);
      Set(c.child, w);
      ok := true;
    }

    /** bdrv_attach_child: the new edge gets what `parent` wants of it and enters its child list. */
    method AttachChild(id: EdgeId, parent: NodeId, c: Edge) returns (ok: bool)
      requires Consistent(Block(g, p)) && id !in g.edges && c.owner == None && c.child in g.nodes
      requires Linkable(g, parent, c.child, c.role)
      modifies this
      ensures (Block(g, p), ok) == old(BlockRewire.AttachChild(Block(g, p), id, parent, c))
      ensures Consistent(Block(g, p)) && (!ok ==> g == old(g) && p == old(p))
    {
      AttachChildKeepsCompat(Block(g, p), id, parent, c);
      var w := CumulativePerm(parent);
      var u := ChildPerm(g.nodes[parent].flags, c.role, g.nodes[c.child].forceShare, w);
      ok := RootAttachChild(id, c, u);
      if ok {
        g := LinkShape(g, id, parent);
      }
    }

    // ----- inactivation -----

    /** bdrv_has_bds_parent */
    method HasBdsParent(b: NodeId, onlyActive: bool) returns (r: bool)
      requires Valid(g) && b in g.nodes
      ensures r == if onlyActive then HasActiveParent(g, b) else HasParent(g, b)
    {
      assert ValidNode(g, b);
      var list := g.nodes[b].parents;
      var i: nat := 0;
      while i < |list|
        invariant i <= |list|
        invariant forall k :: 0 <= k < i && g.edges[list[k]].owner.Some? ==>
                    onlyActive && g.edges[list[k]].owner.value in g.nodes && Inactive(g, g.edges[list[k]].owner.value)
        decreases |list| - i
      {
        var c := list[i];
        if g.edges[c].owner.Some? {
          EdgeEnds(g, c);
          var x := g.edges[c].owner.value;
          if !onlyActive || !Inactive(g, x) {
            assert ParentOf(g, x, b);
            return true;
          }
        }
        i := i + 1;
      }
      forall x | x in g.nodes && ParentOf(g, x, b)
        ensures onlyActive && Inactive(g, x)
      {
        ListedParent(g, b, x);
      }
      r := false;
    }

    /** bdrv_inactivate_recurse, for drivers whose own hooks succeed; `ok` is false when one of its
        assertions fails. */
    method InactivateRecurse(b: NodeId) returns (ok: bool)
      requires Driven(Block(g, p)) && b in g.nodes
      modifies this
      ensures ok == old(Inactivate(Block(g, p), log, b)).Done?
      ensures ok ==> Driven(Block(g, p)) && Done(Block(g, p), log) == old(Inactivate(Block(g, p), log, b))
      decreases g.rank[b], 1
    {
      var covered := HasBdsParent(b, true);
      if covered {
        return true;
      }
      if Inactive(g, b) {
        return false;
      }
      InactivateOneDriven(Block(g, p), b);
      var fails := InactivateNode(b);
      log := log + [b];
      if fails {
        return false;
      }
      ok := InactivateBelow(b);
    }

    /** Its part that inactivates the node itself */
    method InactivateNode(b: NodeId) returns (fails: bool)
      requires Driven(Block(g, p)) && b in g.nodes
      modifies this`g, this`p
      ensures (Block(g, p), fails) == old(InactivateOne(Block(g, p), b))
    {
      fails := TellParents(b);
      if fails {
        return;
      }
      MarkConsistent(Block(g, p), b);
      g := Mark(g, b);
      fails := SettleNode(b);
    }

    /** Its loop over the parents: users that can give up their permissions do. */
    method TellParents(b: NodeId) returns (fails: bool)
      requires Consistent(Block(g, p)) && b in g.nodes
      modifies this`p
      ensures (Block(g, p), fails) == old(TellUsers(Block(g, p), b, 0)) && Consistent(Block(g, p))
    {
      ghost var whole := TellUsers(Block(g, p), b, 0);
      var list := g.nodes[b].parents;
      var i: nat := 0;
      while i < |list|
        invariant Consistent(Block(g, p)) && i <= |list| && TellUsers(Block(g, p), b, i) == whole
        decreases |list| - i
      {
        if Gives(Block(g, p), list[i]) {
          fails := ChildTrySetPerm(list[i], NOTHING);
          if fails {
            return;
          }
        }
        i := i + 1;
      }
      fails := false;
    }

    /** Its loop over the children */
    method InactivateBelow(b: NodeId) returns (ok: bool)
      requires Driven(Block(g, p)) && b in g.nodes
      modifies this
      ensures ok == old(InactivateChildren(Block(g, p), log, b, 0)).Done?
      ensures ok ==>
                Driven(Block(g, p)) && Done(Block(g, p), log) == old(InactivateChildren(Block(g, p), log, b, 0))
      decreases g.rank[b], 0
    {
      ghost var whole := InactivateChildren(Block(g, p), log, b, 0);
      var n := |g.nodes[b].children|;
      var i: nat := 0;
      while i < n
        invariant Driven(Block(g, p)) && g.rank == old(g.rank) && i <= n && b in g.nodes && n == |g.nodes[b].children|
        invariant InactivateChildren(Block(g, p), log, b, i) == whole
        decreases n - i
      {
        InactivateFirst(Block(g, p), log, b, i);
        ok := InactivateRecurse(Child(g, b, i));
        if !ok {
          return;
        }
        i := i + 1;
      }
      ok := true;
    }

    /** bdrv_inactivate_all, over the nodes that bdrv_first and bdrv_next deliver */
    method InactivateNodes(list: seq<NodeId>) returns (ok: bool)
      requires Driven(Block(g, p)) && (forall k :: 0 <= k < |list| ==> list[k] in g.nodes)
      modifies this
      ensures ok == old(InactivateAll(Block(g, p), log, list)).Done?
      ensures ok ==> Driven(Block(g, p)) && Done(Block(g, p), log) == old(InactivateAll(Block(g, p), log, list))
    {
      ghost var whole := InactivateAll(Block(g, p), log, list);
      var i: nat := 0;
      while i < |list|
        invariant Driven(Block(g, p)) && i <= |list| && (forall k :: 0 <= k < |list| ==> list[k] in g.nodes)
        invariant InactivateAll(Block(g, p), log, list[i..]) == whole
        decreases |list| - i
      {
        assert list[i..][0] == list[i] && list[i..][1..] == list[i + 1..];
        var child := HasBdsParent(list[i], false);
        if !child {
          ghost var was := g;
          ok := InactivateRecurse(list[i]);
          if !ok {
            return;
          }
          assert SameShape(was, g);
        }
        i := i + 1;
      }
      ok := true;
    }

    /** bdrv_inactivate_all on a graph where every node is active and no child of a node is reachable
        from an earlier one: the three assertions hold, and all nodes are inactive afterwards, each
        inactivated once and after all of its parents. */
    method InactivateEverything(list: seq<NodeId>)
      requires Ready(Block(g, p)) && log == [] && LaterUnreached(g) && ListsRoots(g, list)
      requires forall b :: b in g.nodes ==> !Inactive(g, b)
      modifies this
      ensures Ready(Block(g, p)) && SameShape(old(g), g) && Ordered(g, log)
      ensures forall b :: b in g.nodes ==> Inactive(g, b)
    {
      InactivateAllInOrder(Block(g, p), list);
      var ok := InactivateNodes(list);
      assert ok;
    }
  }
}
