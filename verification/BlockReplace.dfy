/** bdrv_replace_node of block.c: every parent of one node that may be moved is moved to another
    node, all at once. */
module BlockReplace {
  import opened Basics
  import opened BlockPerm
  import opened BlockGraph
  import opened BlockUpdate
  import opened BlockLoosen
  import opened BlockOps
  import opened BlockRewire

  /** should_update_child: the edge may leave its node, and `to` does not reach its owner. */
  predicate ShouldUpdate(g: Graph, e: EdgeId, to: NodeId)
    requires Valid(g) && e in g.edges && to in g.nodes
  {
    !g.edges[e].stayAtNode && (g.edges[e].owner.Some? ==> g.edges[e].owner.value !in Reach(g, to))
  }

  /** The parents of `from` that are to be moved, in list order */
  function Moved(g: Graph, list: seq<EdgeId>, to: NodeId): (r: seq<EdgeId>)
    requires Valid(g) && to in g.nodes && forall e :: e in list ==> e in g.edges
    ensures forall e :: e in r <==> e in list && ShouldUpdate(g, e, to)
  {
    if list == [] then []
    else (if ShouldUpdate(g, list[0], to) then [list[0]] else []) + Moved(g, list[1..], to)
  }

  lemma {:induction false} MovedNoDup(g: Graph, list: seq<EdgeId>, to: NodeId)
    requires Valid(g) && to in g.nodes && NoDup(list) && forall e :: e in list ==> e in g.edges
    ensures NoDup(Moved(g, list, to))
  {
    if list != [] {
      assert forall x :: x in list[1..] ==> x != list[0];
      MovedNoDup(g, list[1..], to);
    }
  }

  function MovedEdges(g: Graph, from: NodeId, to: NodeId): (r: seq<EdgeId>)
    requires Valid(g) && from in g.nodes && to in g.nodes
    ensures forall e :: e in r ==> e in g.edges && g.edges[e].child == from && ShouldUpdate(g, e, to)
  {
    assert ValidNode(g, from);
    Moved(g, g.nodes[from].parents, to)
  }

  function SetOf(list: seq<EdgeId>): (r: set<EdgeId>)
    ensures forall e :: e in r <==> e in list
  {
    set e | e in list
  }

  function RedirectNode(n: Node, moved: seq<EdgeId>, here: bool): Node {
    n.(parents := (if here then moved else []) + Without(n.parents, SetOf(moved)))
  }

  function RedirectShape(g: Graph, moved: seq<EdgeId>, to: NodeId): Graph
    requires Valid(g) && to in g.nodes
  {
    Graph(map b | b in g.nodes :: RedirectNode(g.nodes[b], moved, b == to),
          map e | e in g.edges :: if e in moved then g.edges[e].(child := to) else g.edges[e],
          Rerank(g, to))
  }

  lemma RedirectEdgeValid(g: Graph, from: NodeId, to: NodeId, x: EdgeId)
    requires Valid(g) && from in g.nodes && to in g.nodes && x in g.edges
    ensures var h := RedirectShape(g, MovedEdges(g, from, to), to);
            ValidEdge(h, x) && Falls(h, x)
  {
    var moved := MovedEdges(g, from, to);
    var h := RedirectShape(g, moved, to);
    EdgeEnds(g, x);
    assert ValidEdge(g, x);
    assert x in h.nodes[h.edges[x].child].parents;
    if g.edges[x].owner.Some? {
      RerankFalls(g, to, g.edges[x].owner.value, h.edges[x].child);
    }
  }

  lemma NoDupAppend(a: seq<EdgeId>, b: seq<EdgeId>)
    requires NoDup(a) && NoDup(b) && forall x :: x in a ==> x !in b
    ensures NoDup(a + b)
  {
    forall i, j | 0 <= i < j < |a + b|
      ensures (a + b)[i] != (a + b)[j]
    {
      if i < |a| <= j {
        assert a[i] in a && b[j - |a|] in b;
      }
    }
  }

  lemma RedirectNodeValid(g: Graph, from: NodeId, to: NodeId, b: NodeId)
    requires Valid(g) && from in g.nodes && to in g.nodes && b in g.nodes
    ensures ValidNode(RedirectShape(g, MovedEdges(g, from, to), to), b)
  {
    var moved := MovedEdges(g, from, to);
    assert ValidNode(g, from) && ValidNode(g, b);
    MovedNoDup(g, g.nodes[from].parents, to);
    WithoutNoDup(g.nodes[b].parents, SetOf(moved));
    NoDupAppend(moved, Without(g.nodes[b].parents, SetOf(moved)));
  }

  /** bdrv_replace_node redirects all chosen parents at once and the graph stays well-formed and
      acyclic: no chosen edge has an owner that `to` can reach. */
  lemma RedirectValid(g: Graph, from: NodeId, to: NodeId)
    requires Valid(g) && from in g.nodes && to in g.nodes
    ensures Valid(RedirectShape(g, MovedEdges(g, from, to), to))
  {
    var h := RedirectShape(g, MovedEdges(g, from, to), to);
    forall x | x in h.edges
      ensures ValidEdge(h, x) && Falls(h, x)
    {
      RedirectEdgeValid(g, from, to, x);
    }
    forall b | b in h.nodes
      ensures ValidNode(h, b)
    {
      RedirectNodeValid(g, from, to, b);
    }
  }

  lemma RedirectState(g: Graph, q: State, moved: seq<EdgeId>, to: NodeId)
    requires Valid(g) && to in g.nodes && ValidState(g, q)
    ensures ValidState(RedirectShape(g, moved, to), q)
  {
  }

  /** bdrv_replace_node.  Fails, changing nothing, when a chosen parent is frozen or when the
      moved permissions cannot be granted on `to`. */
  function Replace(s: Block, from: NodeId, to: NodeId): (Block, bool)
    requires Valid(s.g) && ValidState(s.g, s.p) && from in s.g.nodes && to in s.g.nodes
  {
    var moved := MovedEdges(s.g, from, to);
    if exists e :: e in moved && s.g.edges[e].frozen then (s, false)
    else
      CumulativeShares(s.p, moved, {});
      var r := CheckUpdate(s.g, s.p, to, Cumulative(s.p, moved, {}), SetOf(moved));
      if r.verdict != Granted then (s.(p := AbortNode(s.g, r.state, to)), false)
      else
        var h := RedirectShape(s.g, moved, to);
        RedirectValid(s.g, from, to);
        RedirectState(s.g, r.state, moved, to);
        (Block(h, SetNode(h, r.state, to, NodeUse(h, r.state, to, {}))), true)
  }

  // ----- the check, seen from the graph after the move -----

  /** The facts shared by the lemmas below. */
  ghost predicate ReplaceChecked(s: Block, from: NodeId, to: NodeId) {
    && Consistent(s) && from in s.g.nodes && to in s.g.nodes
    && ReplaceCheck(s, from, to).verdict == Granted
  }

  function ReplaceCheck(s: Block, from: NodeId, to: NodeId): Result
    requires Valid(s.g) && ValidState(s.g, s.p) && from in s.g.nodes && to in s.g.nodes
  {
    var moved := MovedEdges(s.g, from, to);
    CumulativeShares(s.p, moved, {});
    CheckUpdate(s.g, s.p, to, Cumulative(s.p, moved, {}), SetOf(moved))
  }

  lemma MovedOutside(g: Graph, from: NodeId, to: NodeId)
    requires Valid(g) && from in g.nodes && to in g.nodes
    ensures NoneBelow(g, to, SetOf(MovedEdges(g, from, to)))
  {
  }

  /** An edge that is not below `to` keeps its permissions. */
  lemma ReplaceElsewhere(s: Block, from: NodeId, to: NodeId, x: EdgeId)
    requires Valid(s.g) && ValidState(s.g, s.p) && from in s.g.nodes && to in s.g.nodes
    requires x in s.g.edges && !Below(s.g, to, x)
    ensures ReplaceCheck(s, from, to).state[x] == s.p[x]
  {
    var moved := MovedEdges(s.g, from, to);
    CumulativeShares(s.p, moved, {});
    CheckUpdateOrigin(s.g, s.p, to, Cumulative(s.p, moved, {}), SetOf(moved), x);
  }

  lemma {:induction false} CumulativeAppend(p: State, a: seq<EdgeId>, b: seq<EdgeId>)
    requires forall e :: e in a + b ==> e in p
    ensures (forall e :: e in a ==> e in a + b) && (forall e :: e in b ==> e in a + b)
    ensures Cumulative(p, a + b, {}) == Join(Cumulative(p, a, {}), Cumulative(p, b, {}))
  {
    if a == [] {
      assert a + b == b;
      var u := Cumulative(p, b, {});
      assert ALL * u.shared == u.shared by {
        forall x | x in u.shared
          ensures x in ALL
        {
          EveryPerm(x);
        }
      }
    } else {
      assert (a + b)[1..] == a[1..] + b;
      CumulativeAppend(p, a[1..], b);
    }
  }

  /** The cumulative use of a node after the move. */
  lemma RedirectUse(s: Block, from: NodeId, to: NodeId, q: State, y: NodeId)
    requires Valid(s.g) && ValidState(s.g, s.p) && ValidState(s.g, q) && from in s.g.nodes && to in s.g.nodes
             && y in s.g.nodes
    ensures var moved := MovedEdges(s.g, from, to);
            var h := RedirectShape(s.g, moved, to);
            && Valid(h) && ValidState(h, q)
            && NodeUse(h, q, y, {})
               == (if y == to then Join(Cumulative(q, moved, {}), NodeUse(s.g, q, y, SetOf(moved)))
                   else NodeUse(s.g, q, y, SetOf(moved)))
  {
    var g := s.g;
    var moved := MovedEdges(g, from, to);
    var h := RedirectShape(g, moved, to);
    RedirectValid(g, from, to);
    RedirectState(g, q, moved, to);
    assert ValidNode(g, y) && ValidNode(h, y);
    var rest := Without(g.nodes[y].parents, SetOf(moved));
    CumulativeFewer(q, q, g.nodes[y].parents, SetOf(moved));
    if y == to {
      assert h.nodes[y].parents == moved + rest;
      CumulativeAppend(q, moved, rest);
    } else {
      assert h.nodes[y].parents == [] + rest == rest;
    }
  }

  lemma RedirectAgree(g: Graph, from: NodeId, to: NodeId, y: NodeId)
    requires Valid(g) && from in g.nodes && to in g.nodes && y in Reach(g, to)
    ensures Agree(g, RedirectShape(g, MovedEdges(g, from, to), to), y)
  {
    ReachRank(g, to, y);
    assert ValidNode(g, y);
    forall e | e in g.nodes[y].children
      ensures e in g.edges && g.edges[e].child in g.nodes && e !in MovedEdges(g, from, to)
    {
      EdgeEnds(g, e);
    }
  }

  /** Below `to`, the checked state is exact in the redirected graph. */
  lemma ReplaceExact(s: Block, from: NodeId, to: NodeId)
    requires ReplaceChecked(s, from, to)
    ensures var h, q := RedirectShape(s.g, MovedEdges(s.g, from, to), to), ReplaceCheck(s, from, to).state;
            Valid(h) && ValidState(h, q) && Reach(h, to) == Reach(s.g, to) && ExactBelow(h, q, to)
  {
    var g := s.g;
    var moved := MovedEdges(g, from, to);
    var h, q := RedirectShape(g, moved, to), ReplaceCheck(s, from, to).state;
    RedirectValid(g, from, to);
    RedirectState(g, q, moved, to);
    forall y | y in Reach(g, to)
      ensures Agree(g, h, y) && AgreeShape(g, h, y)
    {
      RedirectAgree(g, from, to, y);
    }
    ReachAgree(g, h, to);
    forall y | y in Reach(h, to) && y in h.nodes
      ensures Exact(h, q, y, {})
    {
      ReplaceExactAt(s, from, to, y);
    }
  }

  lemma ReplaceExactAt(s: Block, from: NodeId, to: NodeId, y: NodeId)
    requires ReplaceChecked(s, from, to) && y in s.g.nodes && y in Reach(s.g, to)
    ensures var h, q := RedirectShape(s.g, MovedEdges(s.g, from, to), to), ReplaceCheck(s, from, to).state;
            Valid(h) && ValidState(h, q) && Exact(h, q, y, {})
  {
    var g, p := s.g, s.p;
    var moved := MovedEdges(g, from, to);
    var h, q := RedirectShape(g, moved, to), ReplaceCheck(s, from, to).state;
    RedirectAgree(g, from, to, y);
    RedirectUse(s, from, to, q, y);
    if y == to {
      ReplaceExactTo(s, from, to);
    } else {
      CumulativeShares(p, moved, {});
      MovedOutside(g, from, to);
      CheckUpdateExact(g, p, to, Cumulative(p, moved, {}), SetOf(moved), SetOf(moved), y);
      ExactAgree(g, h, q, q, y, SetOf(moved));
    }
  }

  /** The new node's cumulative use is the one that was checked. */
  lemma ReplaceUse(s: Block, from: NodeId, to: NodeId)
    requires ReplaceChecked(s, from, to)
    ensures var moved := MovedEdges(s.g, from, to);
            var h, q := RedirectShape(s.g, moved, to), ReplaceCheck(s, from, to).state;
            && Valid(h) && ValidState(h, q)
            && NodeUse(h, q, to, {}) == Join(Cumulative(s.p, moved, {}), NodeUse(s.g, s.p, to, SetOf(moved)))
  {
    var g, p := s.g, s.p;
    var moved := MovedEdges(g, from, to);
    var q := ReplaceCheck(s, from, to).state;
    RedirectUse(s, from, to, q, to);
    assert ValidNode(g, to);
    forall x | x in moved || x in g.nodes[to].parents
      ensures q[x].use == p[x].use
    {
      if x in g.nodes[to].parents {
        NotBelow(g, to, x);
      }
      ReplaceElsewhere(s, from, to, x);
    }
    CumulativeSame(p, q, moved, {}, {});
    CumulativeSame(p, q, g.nodes[to].parents, SetOf(moved), SetOf(moved));
  }

  lemma ReplaceExactTo(s: Block, from: NodeId, to: NodeId)
    requires ReplaceChecked(s, from, to) && to in Reach(s.g, to)
    ensures var h, q := RedirectShape(s.g, MovedEdges(s.g, from, to), to), ReplaceCheck(s, from, to).state;
            Valid(h) && ValidState(h, q) && Exact(h, q, to, {})
  {
    var g, p := s.g, s.p;
    var moved := MovedEdges(g, from, to);
    var h, q := RedirectShape(g, moved, to), ReplaceCheck(s, from, to).state;
    CumulativeShares(p, moved, {});
    var u := Cumulative(p, moved, {});
    var cum := Join(u, NodeUse(g, p, to, SetOf(moved)));
    RedirectAgree(g, from, to, to);
    ReplaceUse(s, from, to);
    GrantedTakes(g, p, to, u, SetOf(moved));
    if g.nodes[to].drv {
      assert ValidNode(g, to);
      CheckNodeDelivers(g, p, to, cum, SetOf(moved));
      DeliveredAgree(g, h, q, q, to, cum);
    }
  }

  lemma ReplaceNoBackups(s: Block, from: NodeId, to: NodeId)
    requires ReplaceChecked(s, from, to)
    ensures var h, q := RedirectShape(s.g, MovedEdges(s.g, from, to), to), ReplaceCheck(s, from, to).state;
            && Valid(h) && ValidState(h, q)
            && var t := SetNode(h, q, to, NodeUse(h, q, to, {}));
            SameUses(q, t) && NoBackups(t)
  {
    var g := s.g;
    var h, q := RedirectShape(g, MovedEdges(g, from, to), to), ReplaceCheck(s, from, to).state;
    ReplaceExact(s, from, to);
    SetNodeAt(h, q, to);
    forall x | x in h.edges
      ensures SetNode(h, q, to, NodeUse(h, q, to, {}))[x].backup == None
    {
      if !Below(g, to, x) {
        ReplaceElsewhere(s, from, to, x);
      } else {
        assert x !in MovedEdges(g, from, to);
      }
    }
  }

  lemma {:induction false} CumulativeBounds(p: State, list: seq<EdgeId>, e: EdgeId)
    requires forall x :: x in list ==> x in p
    requires e in list
    ensures Looser(p[e].use, Cumulative(p, list, {}))
  {
    if list[0] != e {
      CumulativeBounds(p, list[1..], e);
    } else if e in list[1..] {
      CumulativeBounds(p, list[1..], e);
    }
  }

  /** Moved edges were compatible at `from`; with the parents already at `to` they are checked. */
  lemma ReplaceCompat(s: Block, from: NodeId, to: NodeId)
    requires ReplaceChecked(s, from, to)
    ensures var h, q := RedirectShape(s.g, MovedEdges(s.g, from, to), to), ReplaceCheck(s, from, to).state;
            Valid(h) && ValidState(h, q) && Compat(h, q, {})
  {
    var g, p := s.g, s.p;
    var moved := MovedEdges(g, from, to);
    var out := SetOf(moved);
    var h, q := RedirectShape(g, moved, to), ReplaceCheck(s, from, to).state;
    CumulativeShares(p, moved, {});
    var u := Cumulative(p, moved, {});
    RedirectValid(g, from, to);
    RedirectState(g, q, moved, to);
    MovedOutside(g, from, to);
    CompatFewer(g, p, out);
    CheckUpdateCompat(g, p, to, u, out, out);
    assert ValidNode(g, to);
    forall x: EdgeId, y: EdgeId | Siblings(h, x, y, {})
      ensures Fits(q, x, y)
    {
      if x in moved && y in moved {
        assert Siblings(g, x, y, {}) && Fits(p, x, y);
        ReplaceElsewhere(s, from, to, x);
        ReplaceElsewhere(s, from, to, y);
      } else if x !in moved && y !in moved {
        assert Siblings(g, x, y, out) && Fits(q, x, y);
      } else {
        var m, z := if x in moved then x else y, if x in moved then y else x;
        EdgeEnds(g, z);
        NotBelow(g, to, z);
        ReplaceElsewhere(s, from, to, m);
        ReplaceElsewhere(s, from, to, z);
        CumulativeBounds(p, moved, m);
        assert Compatible(u, p[z].use);
      }
    }
  }

  lemma CompatFewer(g: Graph, p: State, out: set<EdgeId>)
    requires ValidState(g, p) && Compat(g, p, {})
    ensures Compat(g, p, out)
  {
    forall x: EdgeId, y: EdgeId | Siblings(g, x, y, out)
      ensures Fits(p, x, y)
    {
      assert Siblings(g, x, y, {});
    }
  }

  /** bdrv_replace_node keeps the graph well-formed and acyclic and the parents of every node
      pairwise compatible, on any graph, whether it succeeds or fails; if it fails nothing changed. */
  lemma ReplaceKeepsCompat(s: Block, from: NodeId, to: NodeId)
    requires Consistent(s) && from in s.g.nodes && to in s.g.nodes
    ensures var (t, ok) := Replace(s, from, to);
            && Consistent(t) && (!ok ==> t == s)
            && (ok ==>
                  && t.g.edges.Keys == s.g.edges.Keys && t.g.nodes.Keys == s.g.nodes.Keys
                  && forall e :: e in s.g.edges ==>
                         t.g.edges[e] == if Moves(s.g, from, to, e) then s.g.edges[e].(child := to) else s.g.edges[e])
  {
    var moved := MovedEdges(s.g, from, to);
    if !exists e :: e in moved && s.g.edges[e].frozen {
      CumulativeShares(s.p, moved, {});
      if ReplaceCheck(s, from, to).verdict != Granted {
        CheckUpdateThenAbort(s.g, s.p, to, Cumulative(s.p, moved, {}), SetOf(moved));
      } else {
        var h, q := RedirectShape(s.g, moved, to), ReplaceCheck(s, from, to).state;
        ReplaceNoBackups(s, from, to);
        ReplaceCompat(s, from, to);
        CompatSame(h, q, SetNode(h, q, to, NodeUse(h, q, to, {})));
        forall e | e in s.g.edges
          ensures e in moved <==> Moves(s.g, from, to, e)
        {
          EdgeEnds(s.g, e);
        }
      }
    }
  }

  /** The edge leads to `from` and is chosen. */
  predicate Moves(g: Graph, from: NodeId, to: NodeId, e: EdgeId)
    requires Valid(g) && to in g.nodes && e in g.edges
  {
    g.edges[e].child == from && ShouldUpdate(g, e, to)
  }

  // ----- when the children stay covered -----

  /** Each moved edge, as it stands, already has what its owner would want of `to`. */
  ghost predicate MoveCovered(s: Block, from: NodeId, to: NodeId)
    requires Valid(s.g) && ValidState(s.g, s.p) && from in s.g.nodes && to in s.g.nodes
  {
    forall e {:trigger EdgeCovered(s, to, e)} :: e in MovedEdges(s.g, from, to) ==> EdgeCovered(s, to, e)
  }

  ghost predicate EdgeCovered(s: Block, to: NodeId, e: EdgeId)
    requires Valid(s.g) && ValidState(s.g, s.p) && to in s.g.nodes && e in s.g.edges
  {
    var c := s.g.edges[e];
    c.owner.Some? ==>
      (EdgeEnds(s.g, e);
       assert ValidEdge(s.g, e);
       Looser(ChildPerm(s.g.nodes[c.owner.value].flags, c.role, s.g.nodes[to].forceShare,
                        NodeUse(s.g, s.p, c.owner.value, {})), s.p[e].use))
  }

  /** It is enough that `to` is force-shared whenever `from` is. */
  lemma ForceShareCovers(s: Block, from: NodeId, to: NodeId)
    requires Sound(s) && from in s.g.nodes && to in s.g.nodes
    requires s.g.nodes[from].forceShare ==> s.g.nodes[to].forceShare
    ensures MoveCovered(s, from, to)
  {
    var g, p := s.g, s.p;
    forall e | e in MovedEdges(g, from, to)
      ensures EdgeCovered(s, to, e)
    {
      if g.edges[e].owner.Some? {
        EdgeEnds(g, e);
        var o := g.edges[e].owner.value;
        assert Tight(g, p, o) && ValidNode(g, o) && ValidEdge(g, e);
        var k :| 0 <= k < |g.nodes[o].children| && g.nodes[o].children[k] == e;
        assert CoversAt(g, p, o, k, NodeUse(g, p, o, {}));
      }
    }
  }

  /** The children of a node outside the reach of `to`, after the move: covered exactly when its
      moved edges are. */
  lemma ReplaceTightAt(s: Block, from: NodeId, to: NodeId, y: NodeId)
    requires Sound(s) && ReplaceChecked(s, from, to) && y in s.g.nodes && y !in Reach(s.g, to)
    requires MoveCovered(s, from, to)
    ensures var h, q := RedirectShape(s.g, MovedEdges(s.g, from, to), to), ReplaceCheck(s, from, to).state;
            Valid(h) && ValidState(h, q) && Tight(h, q, y)
  {
    var g, p := s.g, s.p;
    var moved := MovedEdges(g, from, to);
    var h, q := RedirectShape(g, moved, to), ReplaceCheck(s, from, to).state;
    RedirectUse(s, from, to, q, y);
    ReplaceOuterUse(s, from, to, y);
    assert Tight(g, p, y) && ValidNode(g, y);
    if g.nodes[y].drv {
      var u, v := NodeUse(g, p, y, {}), NodeUse(h, q, y, {});
      CoversLooser(g, p, y, 0, u, v);
      forall k | 0 <= k < |h.nodes[y].children|
        ensures CoversAt(h, q, y, k, v)
      {
        ChildEdge(g, y, k);
        ChildEdge(h, y, k);
        var e := g.nodes[y].children[k];
        assert CoversAt(g, p, y, k, v) && ValidEdge(g, e);
        ReplaceElsewhere(s, from, to, e);
        if e in moved {
          assert EdgeCovered(s, to, e);
          ChildPermMonotone(g.nodes[y].flags, g.edges[e].role, g.nodes[to].forceShare, v, u);
        }
      }
    }
  }

  /** Out of reach of `to`, a node's use can only loosen (it may have lost parents). */
  lemma ReplaceOuterUse(s: Block, from: NodeId, to: NodeId, y: NodeId)
    requires Valid(s.g) && ValidState(s.g, s.p) && from in s.g.nodes && to in s.g.nodes
    requires y in s.g.nodes && y !in Reach(s.g, to)
    ensures var q := ReplaceCheck(s, from, to).state;
            Looser(NodeUse(s.g, q, y, SetOf(MovedEdges(s.g, from, to))), NodeUse(s.g, s.p, y, {}))
  {
    var g, p := s.g, s.p;
    var moved := MovedEdges(g, from, to);
    var q := ReplaceCheck(s, from, to).state;
    assert ValidNode(g, y);
    forall x | x in g.nodes[y].parents
      ensures q[x].use == p[x].use
    {
      if Below(g, to, x) {
        ReachClosed(g, to, x);
      }
      ReplaceElsewhere(s, from, to, x);
    }
    CumulativeFewer(p, q, g.nodes[y].parents, SetOf(moved));
    CumulativeFewer(q, q, g.nodes[y].parents, SetOf(moved));
  }

  /** bdrv_replace_node keeps the whole invariant when the moved edges are covered. */
  lemma ReplaceSound(s: Block, from: NodeId, to: NodeId)
    requires Sound(s) && from in s.g.nodes && to in s.g.nodes && MoveCovered(s, from, to)
    ensures Sound(Replace(s, from, to).0)
  {
    ReplaceKeepsCompat(s, from, to);
    var (t, ok) := Replace(s, from, to);
    if ok {
      var h, q := RedirectShape(s.g, MovedEdges(s.g, from, to), to), ReplaceCheck(s, from, to).state;
      ReplaceExact(s, from, to);
      ReplaceNoBackups(s, from, to);
      forall y | y in t.g.nodes
        ensures Tight(t.g, t.p, y)
      {
        if y in Reach(s.g, to) {
          assert Exact(h, q, y, {});
          ExactIsTight(h, q, y);
        } else {
          ReplaceTightAt(s, from, to, y);
        }
        TightSame(h, q, t.p, y);
      }
    }
  }

  /** And it keeps the invariant only then: a moved edge that is not covered is one its owner
      holds more loosely than it wants. */
  lemma ReplaceSoundExactly(s: Block, from: NodeId, to: NodeId)
    requires Sound(s) && from in s.g.nodes && to in s.g.nodes && Replace(s, from, to).1
    ensures Sound(Replace(s, from, to).0) <==> MoveCovered(s, from, to)
  {
    if MoveCovered(s, from, to) {
      ReplaceSound(s, from, to);
    }
    if Sound(Replace(s, from, to).0) {
      forall e | e in MovedEdges(s.g, from, to)
        ensures EdgeCovered(s, to, e)
      {
        ReplaceCoveredAt(s, from, to, e);
      }
    }
  }

  lemma ReplaceCoveredAt(s: Block, from: NodeId, to: NodeId, e: EdgeId)
    requires Sound(s) && from in s.g.nodes && to in s.g.nodes && Replace(s, from, to).1
    requires Sound(Replace(s, from, to).0) && e in MovedEdges(s.g, from, to)
    ensures EdgeCovered(s, to, e)
  {
    var g, p := s.g, s.p;
    var t := Replace(s, from, to).0;
    var moved := MovedEdges(g, from, to);
    EdgeEnds(g, e);
    if g.edges[e].owner.Some? {
      var o := g.edges[e].owner.value;
      var q := ReplaceCheck(s, from, to).state;
      ReplaceNoBackups(s, from, to);
      ReplaceElsewhere(s, from, to, e);
      assert ValidNode(g, o) && ValidEdge(g, e) && Tight(t.g, t.p, o);
      RedirectUse(s, from, to, q, o);
      forall x | x in g.nodes[o].parents
        ensures x !in moved && q[x].use == p[x].use
      {
        if Below(g, to, x) {
          ReachClosed(g, to, x);
        }
        ReplaceElsewhere(s, from, to, x);
      }
      CumulativeSame(p, q, g.nodes[o].parents, {}, SetOf(moved));
      CumulativeSame(q, t.p, t.g.nodes[o].parents, {}, {}) by {
        assert ValidNode(t.g, o);
      }
      var k :| 0 <= k < |g.nodes[o].children| && g.nodes[o].children[k] == e;
      ChildEdge(t.g, o, k);
      assert CoversAt(t.g, t.p, o, k, NodeUse(t.g, t.p, o, {}));
    }
  }

  // ----- the case that is lost -----

  /** A format node (0) over a force-shared file node (1), which is replaced by a node that is
      not force-shared (2); edge 1 is a guest device on top. */
  function LostGraph(): Graph {
    var f := Flags(false, false, false);
    Graph(map[0 := Node(true, None, f, false, true, [0], [1]),
              1 := Node(true, None, f, true, true, [], [0]),
              2 := Node(true, None, f, false, true, [], [])],
          map[0 := Edge(Some(0), 1, Role(false, true, false, false), false, false, false),
              1 := Edge(None, 0, Role(true, false, false, false), false, false, false)],
          map[0 := 1, 1 := 0, 2 := 0])
  }

  function LostState(): State {
    map[0 := EdgePerm(Use({ConsistentRead}, ALL), None), 1 := EdgePerm(Use({}, ALL), None)]
  }

  lemma LostValid()
    ensures Valid(LostGraph()) && ValidState(LostGraph(), LostState())
  {
    var g, p := LostGraph(), LostState();
    assert g.nodes[0].children[0] == 0 && g.nodes[0].parents[0] == 1 && g.nodes[1].parents[0] == 0;
    assert ValidEdge(g, 0) && ValidEdge(g, 1) && Falls(g, 0) && Falls(g, 1);
    assert ValidNode(g, 0) && ValidNode(g, 1) && ValidNode(g, 2);
  }

  lemma LostUse()
    ensures var p := LostState();
            && Cumulative(p, [1], {}) == Use({}, ALL)
            && Cumulative(p, [0], {}) == Use({ConsistentRead}, ALL)
  {
    var p := LostState();
    assert [1][1..] == [] && [0][1..] == [];
    assert Cumulative(p, [], {}) == Use({}, ALL);
  }

  lemma LostGraphSound()
    ensures Sound(Block(LostGraph(), LostState()))
  {
    var g, p := LostGraph(), LostState();
    LostValid();
    LostUse();
    forall a: EdgeId, b: EdgeId | Siblings(g, a, b, {})
      ensures Fits(p, a, b)
    {
    }
    forall y | y in g.nodes
      ensures Tight(g, p, y)
    {
      if y == 0 {
        LostTight();
      }
    }
  }

  lemma LostTight()
    ensures Valid(LostGraph()) && ValidState(LostGraph(), LostState()) && Tight(LostGraph(), LostState(), 0)
  {
    LostValid();
    LostUse();
    var g, p := LostGraph(), LostState();
    forall k | 0 <= k < |g.nodes[0].children|
      ensures CoversAt(g, p, 0, k, Use({}, ALL))
    {
      assert g.nodes[0].children[k] == 0;
    }
  }

  /** Unsharing, on its first child, a permission that all parents of that child share now is
      reported as tightening, whatever the rest of the check does. */
  lemma UnsharingTightens(g: Graph, p: State, b: NodeId, u: Use, x: Perm)
    requires Valid(g) && ValidState(g, p) && b in g.nodes && Sharing(u)
    requires g.nodes[b].drv && g.nodes[b].hook == None && !Refuses(g.nodes[b], u) && |g.nodes[b].children| > 0
    requires var e := g.nodes[b].children[0];
             && e in g.edges && g.edges[e].owner == Some(b) && g.edges[e].child in g.nodes
             && x !in Wanted(g, e, u).shared && x in NodeUse(g, p, g.edges[e].child, {}).shared
    ensures CheckNode(g, p, b, u, {}).tighten
  {
    var e := g.nodes[b].children[0];
    var w := Wanted(g, e, u);
    assert ValidNode(g, g.edges[e].child);
    assert CheckUpdate(g, p, g.edges[e].child, w, {} + {e}).tighten;
    assert CheckEdge(g, p, e, w, {}).tighten;
    assert CheckChildren(g, p, b, 0, u, {}).tighten;
  }

  lemma LostReplace()
    ensures var s := Block(LostGraph(), LostState());
            && Sound(s) && MovedEdges(s.g, 1, 2) == [0]
            && Replace(s, 1, 2) == (Block(RedirectShape(s.g, [0], 2), s.p), true)
  {
    LostGraphSound();
    LostUse();
    var s := Block(LostGraph(), LostState());
    var g, p := s.g, s.p;
    assert Reach(g, 2) == {2} by {
      assert |g.nodes[2].children| == 0;
    }
    assert g.nodes[1].parents[1..] == [];
    assert MovedEdges(g, 1, 2) == [0];
    CumulativeShares(p, [0], {});
    assert CheckNode(g, p, 2, Join(Use({ConsistentRead}, ALL), NodeUse(g, p, 2, {0})), {0}).verdict == Granted;
    assert ReplaceCheck(s, 1, 2) .verdict == Granted && ReplaceCheck(s, 1, 2).state == p;
    var h := RedirectShape(g, [0], 2);
    RedirectValid(g, 1, 2);
    assert |h.nodes[2].children| == 0;
  }

  /** The condition matters: replacing a force-shared node by one that is not leaves a sound graph
      unsound, and then taking a parent away does tighten, so the assertion in bdrv_replace_child
      fails. */
  lemma ForceShareLost()
    ensures var s := Block(LostGraph(), LostState());
            && Sound(s) && Replace(s, 1, 2).1 && !MoveCovered(s, 1, 2)
            && var t := Replace(s, 1, 2).0;
            Consistent(t) && !Sound(t) && 1 in t.g.edges && Detach(t, 1).1
  {
    LostReplace();
    LostUse();
    var s := Block(LostGraph(), LostState());
    var t := Replace(s, 1, 2).0;
    ReplaceKeepsCompat(s, 1, 2);
    var h, q := DetachShape(t.g, 1), t.p - {1};
    DetachValid(t.g, 1);
    LostRedirected();
    LostShape(t.g);
    assert q == map[0 := EdgePerm(Use({ConsistentRead}, ALL), None)];
    LostDetached(h, q);
    LostUncovered();
    ReplaceSoundExactly(s, 1, 2);
  }

  lemma LostUncovered()
    requires Sound(Block(LostGraph(), LostState())) && MovedEdges(LostGraph(), 1, 2) == [0]
    ensures !MoveCovered(Block(LostGraph(), LostState()), 1, 2)
  {
    LostUse();
    assert 0 in MovedEdges(LostGraph(), 1, 2);
    assert !EdgeCovered(Block(LostGraph(), LostState()), 2, 0);
  }

  lemma LostDetached(h: Graph, q: State)
    requires Valid(h) && h.edges.Keys == {0} && q == map[0 := EdgePerm(Use({ConsistentRead}, ALL), None)]
    requires 0 in h.nodes && h.nodes[0] == LostGraph().nodes[0].(parents := [])
    requires 2 in h.nodes && h.nodes[2] == LostGraph().nodes[2].(parents := [0])
    requires h.edges[0] == LostGraph().edges[0].(child := 2)
    ensures ValidState(h, q) && Settle(Block(h, q), 0).1
  {
    assert Cumulative(q, [0], {}) == Use({ConsistentRead}, ALL) by {
      assert [0][1..] == [];
      assert Cumulative(q, [], {}) == Use({}, ALL);
    }
    UnsharingTightens(h, q, 0, Use({}, ALL), Write);
  }

  lemma WithoutOne(x: EdgeId, drop: set<EdgeId>)
    ensures Without([x], drop) == if x in drop then [] else [x]
  {
    assert [x][1..] == [];
  }

  lemma LostRedirected()
    requires Valid(LostGraph())
    ensures var r := RedirectShape(LostGraph(), [0], 2);
            && r.edges.Keys == {0, 1} && r.edges[0] == LostGraph().edges[0].(child := 2)
            && 0 in r.nodes && r.nodes[0] == LostGraph().nodes[0]
            && 2 in r.nodes && r.nodes[2] == LostGraph().nodes[2].(parents := [0])
  {
    WithoutOne(1, SetOf([0]));
  }

  lemma LostShape(r: Graph)
    requires r.edges.Keys == {0, 1} && r.edges[0] == LostGraph().edges[0].(child := 2)
    requires 0 in r.nodes && r.nodes[0] == LostGraph().nodes[0]
    requires 2 in r.nodes && r.nodes[2] == LostGraph().nodes[2].(parents := [0])
    ensures var h := DetachShape(r, 1);
            && h.edges.Keys == {0} && h.edges[0] == LostGraph().edges[0].(child := 2)
            && 0 in h.nodes && h.nodes[0] == LostGraph().nodes[0].(parents := [])
            && 2 in h.nodes && h.nodes[2] == LostGraph().nodes[2].(parents := [0])
  {
    WithoutOne(0, {1});
    WithoutOne(1, {1});
    assert 1 !in DetachShape(r, 1).edges && 0 in DetachShape(r, 1).edges;
  }
}
