/** Writers of inactive nodes: inactivating a node takes write access away from everybody but the
    users that are not told or do not quit. */
module BlockDormant {
  import opened Basics
  import opened BlockPerm
  import opened BlockGraph
  import opened BlockUpdate
  import opened BlockLoosen
  import opened BlockOps
  import opened BlockRewire
  import opened BlockReplace
  import opened BlockInactivate
  import opened BlockRuns
  import opened BlockWriters
  import opened BlockShrink

  // ----- inactive nodes do not write to their children -----

  ghost predicate QuietEdge(g: Graph, p: State, e: EdgeId)
    requires e in g.edges && e in p
  {
    var o := g.edges[e].owner;
    o.Some? && o.value in g.nodes && Inactive(g, o.value) ==> !Writes(p[e].use)
  }

  ghost predicate Quiet(s: Block)
    requires Valid(s.g) && ValidState(s.g, s.p)
  {
    forall e {:trigger QuietEdge(s.g, s.p, e)} :: e in s.g.edges ==> QuietEdge(s.g, s.p, e)
  }

  lemma InactiveWants(f: Flags, role: Role, forceShare: bool, u: Use)
    requires ValidRole(role) && f.inactive && !Writes(u)
    ensures !Writes(ChildPerm(f, role, forceShare, u))
  {
    DefaultPermsAre(f, role, u, Write);
    DefaultPermsAre(f, role, u, WriteUnchanged);
  }

  /** Somebody writes to a node just when one of its parents does. */
  lemma WritersOf(g: Graph, p: State, b: NodeId)
    requires Valid(g) && ValidState(g, p) && b in g.nodes
    ensures Writes(NodeUse(g, p, b, {})) <==> exists e :: e in g.nodes[b].parents && e in p && Writes(p[e].use)
  {
    assert ValidNode(g, b);
    CumulativeSpec(p, g.nodes[b].parents, {}, Write);
    CumulativeSpec(p, g.nodes[b].parents, {}, WriteUnchanged);
  }

  /** An edge whose owner has delivered is quiet. */
  lemma DeliveredQuiet(g: Graph, p: State, e: EdgeId, u: Use)
    requires Valid(g) && ValidState(g, p) && e in g.edges && g.edges[e].owner.Some?
    requires g.edges[e].owner.value in g.nodes && Delivered(g, p, g.edges[e].owner.value, u)
    requires Inactive(g, g.edges[e].owner.value) ==> !Writes(u)
    ensures QuietEdge(g, p, e)
  {
    EdgeEnds(g, e);
    var o := g.edges[e].owner.value;
    var k :| 0 <= k < |g.nodes[o].children| && g.nodes[o].children[k] == e;
    assert DeliveredAt(g, p, o, k, u) && ValidEdge(g, e);
    if Inactive(g, o) {
      InactiveWants(g.nodes[o].flags, g.edges[e].role, g.nodes[g.edges[e].child].forceShare, u);
    }
  }

  lemma ExactQuiet(g: Graph, p: State, e: EdgeId)
    requires Valid(g) && ValidState(g, p) && e in g.edges && g.edges[e].owner.Some?
    requires g.edges[e].owner.value in g.nodes && Exact(g, p, g.edges[e].owner.value, {})
    ensures QuietEdge(g, p, e)
  {
    var o := g.edges[e].owner.value;
    EdgeEnds(g, e);
    assert ValidNode(g, o);
    ExactProtected(g, p, o);
    DeliveredQuiet(g, p, e, NodeUse(g, p, o, {}));
  }

  // ----- the other operations keep them quiet -----

  lemma TrySetQuiet(s: Block, e: EdgeId, u: Use)
    requires Consistent(s) && Quiet(s) && e in s.g.edges && Sharing(u)
    requires QuietEdge(s.g, s.p[e := EdgePerm(u, None)], e)
    ensures var t := TrySet(s, e, u).0; ValidState(t.g, t.p) && t.g == s.g && Quiet(t)
  {
    var g, p := s.g, s.p;
    TrySetKeepsCompat(s, e, u);
    EdgeEnds(g, e);
    var b, r, t := g.edges[e].child, CheckEdge(g, p, e, u, {}), TrySet(s, e, u).0;
    if r.verdict != Granted {
      CheckEdgeThenAbort(g, p, e, u, {});
    } else {
      CommitEdge(g, p, e, u);
      forall x | x in g.edges
        ensures QuietEdge(g, t.p, x)
      {
        assert QuietEdge(g, p, x) && r.state[x].use == t.p[x].use;
        CheckEdgeOrigin(g, p, e, u, {}, x);
        if x != e && Below(g, b, x) {
          ReachRank(g, b, g.edges[x].owner.value);
          CheckEdgeExact(g, p, e, u, {}, {}, g.edges[x].owner.value);
          ExactQuiet(g, r.state, x);
        }
      }
    }
  }

  lemma SettleQuiet(s: Block, b: NodeId)
    requires Consistent(s) && Quiet(s) && b in s.g.nodes
    ensures var t := Settle(s, b).0; ValidState(t.g, t.p) && t.g == s.g && Quiet(t)
  {
    var g, p := s.g, s.p;
    var u := NodeUse(g, p, b, {});
    var r, t := CheckNode(g, p, b, u, {}), Settle(s, b).0;
    SettleConsistent(s, b);
    if r.verdict != Granted {
      CheckNodeThenAbort(g, p, b, u, {});
    } else {
      CommitNode(g, p, b, u);
      forall x | x in g.edges
        ensures QuietEdge(g, t.p, x)
      {
        assert QuietEdge(g, p, x) && r.state[x].use == t.p[x].use;
        CheckNodeOrigin(g, p, b, u, {}, x);
        if Below(g, b, x) {
          assert Exact(g, r.state, g.edges[x].owner.value, {});
          ExactQuiet(g, r.state, x);
        }
      }
    }
  }

  lemma DetachQuiet(s: Block, e: EdgeId)
    requires Consistent(s) && Quiet(s) && e in s.g.edges
    ensures var t := Detach(s, e).0; Consistent(t) && Quiet(t)
  {
    var h, q := DetachShape(s.g, e), s.p - {e};
    DetachKeepsCompat(s, e);
    DetachLeavesConsistent(s, e);
    EdgeEnds(s.g, e);
    forall x | x in h.edges
      ensures QuietEdge(h, q, x)
    {
      assert QuietEdge(s.g, s.p, x);
    }
    SettleQuiet(Block(h, q), s.g.edges[e].child);
  }

  lemma AttachQuiet(s: Block, id: EdgeId, c: Edge, u: Use)
    requires Consistent(s) && Quiet(s) && id !in s.g.edges && c.owner == None && c.child in s.g.nodes && Sharing(u)
    ensures var t := Attach(s, id, c, u).0; Consistent(t) && Quiet(t)
  {
    var g, p, b := s.g, s.p, c.child;
    AttachKeepsCompat(s, id, c, u);
    var r := CheckUpdate(g, p, b, u, {});
    if r.verdict == Granted {
      var h, q := AttachShape(g, id, c), r.state[id := EdgePerm(u, None)];
      AttachExact(s, id, c, u);
      SetNodeAt(h, q, b);
      var t := SetNode(h, q, b, NodeUse(h, q, b, {}));
      forall x | x in h.edges
        ensures QuietEdge(h, t, x)
      {
        assert q[x].use == t[x].use;
        if x != id {
          assert QuietEdge(g, p, x);
          CheckUpdateOrigin(g, p, b, u, {}, x);
          if Below(g, b, x) {
            assert Exact(h, q, g.edges[x].owner.value, {});
            ExactQuiet(h, q, x);
          }
        }
      }
    }
  }

  lemma AttachChildQuiet(s: Block, id: EdgeId, parent: NodeId, c: Edge)
    requires Consistent(s) && Protected(s) && Quiet(s) && id !in s.g.edges && c.owner == None && c.child in s.g.nodes
    requires Linkable(s.g, parent, c.child, c.role)
    ensures var t := AttachChild(s, id, parent, c).0; Consistent(t) && Quiet(t)
  {
    var v := NodeUse(s.g, s.p, parent, {});
    var u := ChildPerm(s.g.nodes[parent].flags, c.role, s.g.nodes[c.child].forceShare, v);
    AttachChildKeepsCompat(s, id, parent, c);
    AttachKeepsCompat(s, id, c, u);
    AttachQuiet(s, id, c, u);
    var (a, ok) := Attach(s, id, c, u);
    if ok {
      assert ProtectedAt(s.g, s.p, parent);
      if Inactive(s.g, parent) {
        InactiveWants(s.g.nodes[parent].flags, c.role, s.g.nodes[c.child].forceShare, v);
      }
      LinkQuiet(a, id, parent);
    }
  }

  lemma LinkQuiet(a: Block, id: EdgeId, parent: NodeId)
    requires Consistent(a) && Quiet(a) && id in a.g.edges && parent in a.g.nodes && a.g.edges[id].child in a.g.nodes
    requires Inactive(a.g, parent) ==> !Writes(a.p[id].use)
    ensures var h := LinkShape(a.g, id, parent);
            forall x :: x in h.edges && x in a.p ==> QuietEdge(h, a.p, x)
  {
    var h := LinkShape(a.g, id, parent);
    forall x | x in h.edges && x in a.p
      ensures QuietEdge(h, a.p, x)
    {
      if x != id {
        assert QuietEdge(a.g, a.p, x);
      }
    }
  }

  lemma ReplaceQuiet(s: Block, from: NodeId, to: NodeId)
    requires Consistent(s) && Quiet(s) && from in s.g.nodes && to in s.g.nodes
    ensures var t := Replace(s, from, to).0; Consistent(t) && Quiet(t)
  {
    ReplaceKeepsCompat(s, from, to);
    var (t, ok) := Replace(s, from, to);
    if ok {
      var h, q := RedirectShape(s.g, MovedEdges(s.g, from, to), to), ReplaceCheck(s, from, to).state;
      ReplaceExact(s, from, to);
      ReplaceNoBackups(s, from, to);
      forall x | x in t.g.edges
        ensures QuietEdge(t.g, t.p, x)
      {
        assert QuietEdge(s.g, s.p, x) && q[x].use == t.p[x].use;
        if Below(s.g, to, x) {
          assert Exact(h, q, s.g.edges[x].owner.value, {});
          ExactQuiet(h, q, x);
        } else {
          ReplaceElsewhere(s, from, to, x);
        }
      }
    }
  }

  lemma RefreshQuiet(s: Block, e: EdgeId)
    requires Consistent(s) && Protected(s) && Quiet(s) && e in s.g.edges && s.g.edges[e].owner.Some?
    ensures QuietEdge(s.g, s.p[e := EdgePerm(RefreshUse(s, e), None)], e)
  {
    EdgeEnds(s.g, e);
    var o := s.g.edges[e].owner.value;
    assert ProtectedAt(s.g, s.p, o) && ValidEdge(s.g, e);
    if Inactive(s.g, o) {
      InactiveWants(s.g.nodes[o].flags, s.g.edges[e].role, s.g.nodes[s.g.edges[e].child].forceShare,
                    NodeUse(s.g, s.p, o, {}));
    }
  }

  lemma ApplyQuiet(s: Block, op: Op)
    requires Consistent(s) && Protected(s) && Quiet(s) && Allowed(s, op) && !op.InactivateNodes? && Apply(s, op).Goes?
    ensures Consistent(Apply(s, op).s) && Quiet(Apply(s, op).s)
  {
    ApplyConsistent(s, op);
    match op
    case NewNode(id, n) =>
      forall x | x in s.g.edges
        ensures QuietEdge(Added(s, id, n).g, s.p, x)
      {
        EdgeEnds(s.g, x);
        assert QuietEdge(s.g, s.p, x);
      }
    case SetPerm(e, u) => TrySetQuiet(s, e, u);
    case Refresh(e) =>
      RefreshQuiet(s, e);
      TrySetQuiet(s, e, RefreshUse(s, e));
    case AttachRoot(e, c, u) => AttachQuiet(s, e, c, u);
    case AttachBelow(e, parent, c) => AttachChildQuiet(s, e, parent, c);
    case DetachEdge(e) => DetachQuiet(s, e);
    case ReplaceNode(from, to) => ReplaceQuiet(s, from, to);
  }

  // ----- users that stay -----

  /** A user that is not a node and does not give up its permissions */
  predicate Stubborn(g: Graph, e: EdgeId) {
    e in g.edges && g.edges[e].owner == None && !g.edges[e].quits
  }

  /** Its node is inactive. */
  predicate Lingers(g: Graph, e: EdgeId) {
    Stubborn(g, e) && g.edges[e].child in g.nodes && Inactive(g, g.edges[e].child)
  }

  /** None of them writes to an inactive node. */
  ghost predicate Docile(s: Block)
    requires Valid(s.g) && ValidState(s.g, s.p)
  {
    forall e :: Lingers(s.g, e) ==> !Writes(s.p[e].use)
  }

  /** They have what they had, and inactive nodes stay inactive. */
  ghost predicate Kept(s: Block, t: Block) {
    && s.g.edges == t.g.edges && s.g.nodes.Keys == t.g.nodes.Keys && s.p.Keys == t.p.Keys
    && (forall b :: b in s.g.nodes && Inactive(s.g, b) ==> Inactive(t.g, b))
    && forall e {:trigger Stubborn(s.g, e)} :: Stubborn(s.g, e) && e in s.p ==> t.p[e].use == s.p[e].use
  }

  lemma KeptOn(s: Block, t: Block, r: Block)
    requires Kept(s, t) && Kept(t, r)
    ensures Kept(s, r)
  {
    forall e | Stubborn(s.g, e) && e in s.p
      ensures r.p[e].use == s.p[e].use
    {
      assert Stubborn(t.g, e);
    }
  }

  lemma DocileBefore(s: Block, t: Block)
    requires Valid(s.g) && ValidState(s.g, s.p) && Valid(t.g) && ValidState(t.g, t.p) && Kept(s, t) && Docile(t)
    ensures Docile(s)
  {
    forall e | Lingers(s.g, e)
      ensures !Writes(s.p[e].use)
    {
      assert Stubborn(s.g, e) && Lingers(t.g, e);
    }
  }

  lemma {:induction false} TellKept(s: Block, b: NodeId, i: nat)
    requires Consistent(s) && b in s.g.nodes && i <= |s.g.nodes[b].parents|
    ensures Kept(s, TellUsers(s, b, i).0)
    decreases |s.g.nodes[b].parents| - i
  {
    if i < |s.g.nodes[b].parents| {
      var e := s.g.nodes[b].parents[i];
      if Gives(s, e) {
        TrySetKeepsCompat(s, e, NOTHING);
        var (t, err) := TrySet(s, e, NOTHING);
        TrySetKept(s, e);
        if !err {
          TellKept(t, b, i + 1);
          KeptOn(s, t, TellUsers(t, b, i + 1).0);
        }
      } else {
        TellKept(s, b, i + 1);
      }
    }
  }

  lemma TrySetKept(s: Block, e: EdgeId)
    requires Consistent(s) && e in s.g.edges && s.g.edges[e].quits
    ensures Kept(s, TrySet(s, e, NOTHING).0)
  {
    var r, t := CheckEdge(s.g, s.p, e, NOTHING, {}), TrySet(s, e, NOTHING).0;
    TrySetKeepsCompat(s, e, NOTHING);
    if r.verdict != Granted {
      CheckEdgeThenAbort(s.g, s.p, e, NOTHING, {});
    } else {
      CommitEdge(s.g, s.p, e, NOTHING);
      forall x | Stubborn(s.g, x)
        ensures t.p[x].use == s.p[x].use
      {
        CheckEdgeOrigin(s.g, s.p, e, NOTHING, {}, x);
        assert r.state[x].use == t.p[x].use;
      }
    }
  }

  lemma SettleKept(s: Block, b: NodeId)
    requires Consistent(s) && b in s.g.nodes
    ensures Kept(s, Settle(s, b).0)
  {
    var u := NodeUse(s.g, s.p, b, {});
    var r, t := CheckNode(s.g, s.p, b, u, {}), Settle(s, b).0;
    SettleConsistent(s, b);
    if r.verdict != Granted {
      CheckNodeThenAbort(s.g, s.p, b, u, {});
    } else {
      CommitNode(s.g, s.p, b, u);
      forall x | Stubborn(s.g, x)
        ensures t.p[x].use == s.p[x].use
      {
        CheckNodeOrigin(s.g, s.p, b, u, {}, x);
        assert r.state[x].use == t.p[x].use;
      }
    }
  }

  // ----- inactivating one node -----

  /** All users that give up their permissions have done so. */
  lemma {:induction false} TellQuits(s: Block, b: NodeId, i: nat)
    requires Sound(s) && AllAgree(s.g, s.p) && b in s.g.nodes && i <= |s.g.nodes[b].parents|
    ensures var (t, fails) := TellUsers(s, b, i);
            && !fails && Sound(t) && t.g == s.g && Shrinks(s.p, t.p) && AllAgree(t.g, t.p)
            && forall k {:trigger s.g.nodes[b].parents[k]} :: i <= k < |s.g.nodes[b].parents| ==>
                 !Gives(t, s.g.nodes[b].parents[k])
    decreases |s.g.nodes[b].parents| - i
  {
    if i < |s.g.nodes[b].parents| {
      var e := s.g.nodes[b].parents[i];
      var t := if Gives(s, e) then TrySet(s, e, NOTHING).0 else s;
      if Gives(s, e) {
        QuitGranted(s, e);
      }
      TellQuits(t, b, i + 1);
      var r := TellUsers(t, b, i + 1).0;
      ShrinksOn(s.p, t.p, r.p);
      StillGone(t, r, e);
    }
  }

  /** Who has given up everything has nothing to give later. */
  lemma StillGone(t: Block, r: Block, e: EdgeId)
    requires ValidState(t.g, t.p) && r.g == t.g && Shrinks(t.p, r.p) && !Gives(t, e)
    ensures !Gives(r, e)
  {
    if e in t.p && t.p[e].use == NOTHING {
      assert Looser(r.p[e].use, t.p[e].use);
      NothingIsLooser(r.p[e].use);
      assert r.p[e].use == NOTHING;
    }
  }

  lemma ProtectedShrinks(g: Graph, p: State, q: State)
    requires Valid(g) && ValidState(g, p) && ValidState(g, q) && Shrinks(p, q) && Protected(Block(g, p))
    ensures Protected(Block(g, q))
  {
    forall y | y in g.nodes
      ensures ProtectedAt(g, q, y)
    {
      assert ProtectedAt(g, p, y);
      UseShrinks(g, p, q, y);
      LessProtected(g, p, g, q, y);
    }
  }

  lemma QuietShrinks(g: Graph, p: State, q: State)
    requires Valid(g) && ValidState(g, p) && ValidState(g, q) && Shrinks(p, q) && Quiet(Block(g, p))
    ensures Quiet(Block(g, q))
  {
    forall e | e in g.edges
      ensures QuietEdge(g, q, e)
    {
      assert QuietEdge(g, p, e) && Looser(q[e].use, p[e].use);
    }
  }

  /** Nobody writes to a node all of whose parents are inactive, gone or docile. */
  lemma NobodyLeft(t: Block, b: NodeId)
    requires Consistent(t) && Quiet(t) && b in t.g.nodes && !HasActiveParent(t.g, b)
    requires forall k {:trigger t.g.nodes[b].parents[k]} :: 0 <= k < |t.g.nodes[b].parents| ==>
               !Gives(t, t.g.nodes[b].parents[k])
    requires forall e :: Stubborn(t.g, e) && t.g.edges[e].child == b ==> !Writes(t.p[e].use)
    ensures !Writes(NodeUse(t.g, t.p, b, {}))
  {
    WritersOf(t.g, t.p, b);
    assert ValidNode(t.g, b);
    forall e | e in t.g.nodes[b].parents
      ensures !Writes(t.p[e].use)
    {
      EdgeEnds(t.g, e);
      assert QuietEdge(t.g, t.p, e);
      if t.g.edges[e].owner.Some? {
        assert ParentOf(t.g, t.g.edges[e].owner.value, b);
      } else if !Stubborn(t.g, e) {
        var k :| 0 <= k < |t.g.nodes[b].parents| && t.g.nodes[b].parents[k] == e;
        assert !Gives(t, t.g.nodes[b].parents[k]);
      }
    }
  }

  /** Marking a node to which nobody writes keeps everything protected. */
  lemma MarkProtected(t: Block, b: NodeId)
    requires Consistent(t) && Protected(t) && b in t.g.nodes && !Writes(NodeUse(t.g, t.p, b, {}))
    ensures var m := Block(Mark(t.g, b), t.p); Consistent(m) && Protected(m)
  {
    MarkConsistent(t, b);
    var h := Mark(t.g, b);
    forall y | y in h.nodes
      ensures ProtectedAt(h, t.p, y)
    {
      assert ProtectedAt(t.g, t.p, y);
      assert NodeUse(h, t.p, y, {}) == NodeUse(t.g, t.p, y, {});
      assert Agreeable(h.nodes[y]) <==> Agreeable(t.g.nodes[y]);
    }
  }

  lemma MarkAgreeable(g: Graph, b: NodeId)
    requires b in g.nodes && AllAgreeable(g)
    ensures AllAgreeable(Mark(g, b))
  {
    forall y | y in g.nodes
      ensures Agreeable(Mark(g, b).nodes[y])
    {
      assert Agreeable(g.nodes[y]);
    }
  }

  /** Then its children have what it wants, which is no writing: inactive nodes are quiet again. */
  lemma SettleMarked(t: Block, b: NodeId)
    requires Sound(t) && Protected(t) && Quiet(t) && AllAgreeable(t.g) && b in t.g.nodes && t.g.nodes[b].drv
    requires !Writes(NodeUse(t.g, t.p, b, {}))
    ensures var m := Block(Mark(t.g, b), t.p);
            && Consistent(m)
            && var r := Settle(m, b).0;
            r.g == m.g && Sound(r) && Protected(r) && Quiet(r)
  {
    var m := Block(Mark(t.g, b), t.p);
    MarkSound(t, b);
    MarkProtected(t, b);
    MarkAgreeable(t.g, b);
    ProtectedAgree(m);
    SettleGranted(m, b);
    var r := Settle(m, b).0;
    ProtectedShrinks(m.g, m.p, r.p);
    assert NodeUse(m.g, m.p, b, {}) == NodeUse(t.g, t.p, b, {});
    forall e | e in r.g.edges
      ensures QuietEdge(r.g, r.p, e)
    {
      assert QuietEdge(t.g, t.p, e) && Looser(r.p[e].use, t.p[e].use);
      if r.g.edges[e].owner == Some(b) {
        DeliveredQuiet(r.g, r.p, e, NodeUse(m.g, m.p, b, {}));
      }
    }
  }

  /** What inactivation is to keep, on the way from `s` to `t` */
  ghost predicate Dormant(s: Block, t: Block)
    requires Ready(s)
  {
    && Ready(t) && AllAgreeable(t.g) && Kept(s, t)
    && (Protected(s) && Quiet(s) && Docile(t) ==> Protected(t) && Quiet(t))
  }

  lemma DormantSelf(s: ReadyBlock)
    requires AllAgreeable(s.g)
    ensures Dormant(s, s)
  {
  }

  lemma DormantOn(s: Block, t: Block, r: Block)
    requires Ready(s) && Dormant(s, t) && Dormant(t, r)
    ensures Dormant(s, r)
  {
    KeptOn(s, t, r);
    if Docile(r) {
      DocileBefore(t, r);
    }
  }

  lemma OneDormant(s: ReadyBlock, b: NodeId)
    requires AllAgreeable(s.g) && b in s.g.nodes && !HasActiveParent(s.g, b)
    ensures Dormant(s, InactivateOne(s, b).0)
  {
    var (t, r) := (TellUsers(s, b, 0).0, InactivateOne(s, b).0);
    InactivateOneReady(s, b);
    MarkAgreeable(s.g, b);
    TellUsersSound(s, b, 0);
    TellKept(s, b, 0);
    OneKept(s, t, b);
    if Protected(s) && Quiet(s) && Docile(r) {
      ProtectedAgree(s);
      TellQuits(s, b, 0);
      ProtectedShrinks(s.g, s.p, t.p);
      QuietShrinks(s.g, s.p, t.p);
      forall e | Stubborn(t.g, e) && t.g.edges[e].child == b
        ensures !Writes(t.p[e].use)
      {
        assert Stubborn(s.g, e) && Lingers(r.g, e);
      }
      NobodyLeft(t, b);
      SettleMarked(t, b);
    }
  }

  lemma OneKept(s: ReadyBlock, t: Block, b: NodeId)
    requires b in s.g.nodes && t == TellUsers(s, b, 0).0 && Sound(t) && Kept(s, t)
    ensures Kept(s, InactivateOne(s, b).0)
  {
    OneIs(s, b);
    MarkKept(t, b);
    KeptOn(s, t, Settle(Block(Mark(t.g, b), t.p), b).0);
  }

  lemma OneIs(s: ReadyBlock, b: NodeId)
    requires b in s.g.nodes
    ensures var t := TellUsers(s, b, 0).0;
            && Valid(Mark(t.g, b)) && ValidState(Mark(t.g, b), t.p)
            && InactivateOne(s, b) == Settle(Block(Mark(t.g, b), t.p), b)
  {
    TellUsersSound(s, b, 0);
    MarkValid(TellUsers(s, b, 0).0.g, b);
  }

  lemma MarkKept(t: Block, b: NodeId)
    requires Consistent(t) && b in t.g.nodes
    ensures var m := Block(Mark(t.g, b), t.p); Consistent(m) && Kept(t, Settle(m, b).0)
  {
    var m := Block(Mark(t.g, b), t.p);
    MarkConsistent(t, b);
    SettleKept(m, b);
    assert Kept(t, m);
    KeptOn(t, m, Settle(m, b).0);
  }

  // ----- the whole recursion -----

  lemma {:induction false} NodeDormant(s: ReadyBlock, log: seq<NodeId>, b: NodeId)
    requires AllAgreeable(s.g) && b in s.g.nodes && Inactivate(s, log, b).Done?
    ensures Dormant(s, Inactivate(s, log, b).s)
    decreases s.g.rank[b], 1, 0
  {
    if !HasActiveParent(s.g, b) {
      var t := InactivateOne(s, b).0;
      InactivateOneReady(s, b);
      OneDormant(s, b);
      ChildrenDormant(t, log + [b], b, 0, InactivateChildren(t, log + [b], b, 0));
      DormantOn(s, t, Inactivate(s, log, b).s);
    }
  }

  lemma {:induction false} ChildrenDormant(s: ReadyBlock, log: seq<NodeId>, b: NodeId, i: nat, r: Outcome)
    requires AllAgreeable(s.g) && b in s.g.nodes && i <= |s.g.nodes[b].children|
    requires r == InactivateChildren(s, log, b, i) && r.Done?
    ensures Dormant(s, r.s)
    decreases s.g.rank[b], 0, |s.g.nodes[b].children| - i
  {
    if i == |s.g.nodes[b].children| {
      DormantSelf(s);
    } else {
      RestDormant(s, log, b, i, r);
    }
  }

  lemma {:induction false} RestDormant(s: ReadyBlock, log: seq<NodeId>, b: NodeId, i: nat, r: Outcome)
    requires AllAgreeable(s.g) && b in s.g.nodes && i < |s.g.nodes[b].children|
    requires r == InactivateChildren(s, log, b, i) && r.Done?
    ensures Dormant(s, r.s)
    decreases s.g.rank[b], 0, |s.g.nodes[b].children| - i, 1
  {
    var t, l := FirstDormant(s, log, b, i);
    ChildrenDormant(t, l, b, i + 1, r);
    DormantOn(s, t, r.s);
  }

  lemma {:induction false} FirstDormant(s: ReadyBlock, log: seq<NodeId>, b: NodeId, i: nat)
    returns (t: ReadyBlock, l: seq<NodeId>)
    requires AllAgreeable(s.g) && b in s.g.nodes && i < |s.g.nodes[b].children|
    requires InactivateChildren(s, log, b, i).Done?
    ensures Dormant(s, t) && b in t.g.nodes && t.g.nodes[b].children == s.g.nodes[b].children
    ensures t.g.rank == s.g.rank && InactivateChildren(s, log, b, i) == InactivateChildren(t, l, b, i + 1)
    decreases s.g.rank[b], 0, |s.g.nodes[b].children| - i, 0
  {
    InactivateFirst(s, log, b, i);
    var r := Inactivate(s, log, Child(s.g, b, i));
    NodeDormant(s, log, Child(s.g, b, i));
    t, l := r.s, r.log;
  }

  lemma {:induction false} AllDormant(s: ReadyBlock, log: seq<NodeId>, list: seq<NodeId>)
    requires AllAgreeable(s.g) && forall k :: 0 <= k < |list| ==> list[k] in s.g.nodes
    requires InactivateAll(s, log, list).Done?
    ensures Dormant(s, InactivateAll(s, log, list).s)
    decreases |list|
  {
    if list != [] {
      if HasParent(s.g, list[0]) {
        AllDormant(s, log, list[1..]);
      } else {
        var r := Inactivate(s, log, list[0]);
        NodeDormant(s, log, list[0]);
        AllDormant(r.s, r.log, list[1..]);
        DormantOn(s, r.s, InactivateAll(s, log, list).s);
      }
    }
  }

  /** No user that stays writes, before the call, to a node that is inactive in `h`. */
  ghost predicate Undisturbed(s: Block, h: Graph) {
    forall e :: Lingers(h, e) && e in s.p ==> !Writes(s.p[e].use)
  }

  lemma ProtectedDocile(t: Block)
    requires Valid(t.g) && ValidState(t.g, t.p) && Protected(t)
    ensures Docile(t)
  {
    forall e | Lingers(t.g, e)
      ensures !Writes(t.p[e].use)
    {
      EdgeEnds(t.g, e);
      WritersOf(t.g, t.p, t.g.edges[e].child);
      assert ProtectedAt(t.g, t.p, t.g.edges[e].child);
    }
  }

  lemma DocileIs(s: Block, t: Block)
    requires Valid(s.g) && ValidState(s.g, s.p) && Valid(t.g) && ValidState(t.g, t.p) && Kept(s, t)
    ensures Docile(t) <==> Undisturbed(s, t.g)
  {
    forall e | Lingers(t.g, e)
      ensures e in s.p && t.p[e].use == s.p[e].use
    {
      assert Stubborn(s.g, e);
    }
  }

  /** After bdrv_inactivate_all, nobody has write access to a read-only or inactive node if and only if
      no user that is not told, or does not quit, was writing to a node that the walk inactivates or
      that was inactive before.  Both the walk and these users are those of the state before the call. */
  lemma InactivateProtectsExactly(s: ReadyBlock, list: seq<NodeId>)
    requires AllAgreeable(s.g) && Protected(s) && Quiet(s) && forall k :: 0 <= k < |list| ==> list[k] in s.g.nodes
    requires WalkAll(s.g, [], list).Walked?
    ensures InactivateAll(s, [], list).Done?
    ensures var t := InactivateAll(s, [], list).s;
            var h := WalkAll(s.g, [], list).g;
            && t.g == h && Kept(s, t)
            && (Protected(t) <==> Undisturbed(s, h)) && (Undisturbed(s, h) ==> Quiet(t))
  {
    AllFollow(s, [], list);
    var t := InactivateAll(s, [], list).s;
    AllDormant(s, [], list);
    DocileIs(s, t);
    if Protected(t) {
      ProtectedDocile(t);
    }
  }

  /** Started with every node active, and given every node without node parents: nobody has write access
      any more if and only if no user that stays was a writer. */
  lemma AllInactiveExactly(s: ReadyBlock, list: seq<NodeId>)
    requires AllAgreeable(s.g) && Protected(s) && ListsRoots(s.g, list) && WalkAll(s.g, [], list).Walked?
    requires forall b :: b in s.g.nodes ==> !Inactive(s.g, b)
    ensures InactivateAll(s, [], list).Done?
    ensures var t := InactivateAll(s, [], list).s;
            && (forall b :: b in t.g.nodes ==> Inactive(t.g, b))
            && (Protected(t) <==> forall e :: Stubborn(s.g, e) && e in s.p ==> !Writes(s.p[e].use))
  {
    var h := WalkAll(s.g, [], list).g;
    NoOrphans(s.g);
    AllEnds(s.g, [], list);
    forall e | e in s.g.edges
      ensures QuietEdge(s.g, s.p, e) && s.g.edges[e].child in s.g.nodes
    {
      EdgeEnds(s.g, e);
    }
    InactivateProtectsExactly(s, list);
    forall e
      ensures Stubborn(s.g, e) <==> Lingers(h, e)
    {
    }
  }

  // ----- a user that stays -----

  /** A node with one user, which writes to it and does not give up its permissions, as a block job */
  ghost predicate JobOnNode(s: Block) {
    && s.g.nodes == map[0 := Node(true, None, Flags(true, false, false), false, true, [], [0])]
    && s.g.edges == map[0 := Edge(None, 0, Role(true, false, false, false), false, false, false)]
    && s.g.rank == map[0 := 0] && s.p == map[0 := EdgePerm(Use({Write}, ALL), None)]
  }

  lemma JobReady(s: Block)
    requires JobOnNode(s)
    ensures Ready(s) && AllAgreeable(s.g) && Protected(s) && Quiet(s)
  {
    assert s.g.nodes[0].parents[0] == 0;
    assert ValidEdge(s.g, 0) && Falls(s.g, 0) && ValidNode(s.g, 0) && Shares(s.p[0]);
    WritersOf(s.g, s.p, 0);
  }

  /** So the promise that nobody writes to an inactive node fails: the job is still a writer. */
  lemma JobStaysWriter(s: Block)
    requires JobOnNode(s)
    ensures Ready(s) && InactivateAll(s, [], [0]).Done?
    ensures var t := InactivateAll(s, [], [0]).s; Protected(s) && !Protected(t)
  {
    JobReady(s);
    var h := Mark(s.g, 0);
    MarkValid(s.g, 0);
    assert WalkNode(s.g, [], 0) == Walked(h, [] + [0]);
    assert WalkAll(s.g, [], [0]) == Walked(h, [] + [0]);
    InactivateProtectsExactly(s, [0]);
    assert Lingers(h, 0);
  }

  // ----- runs -----

  /** An inactivation where all nodes are agreeable and no user that stays writes to a node that it
      inactivates */
  ghost predicate OrderlyAt(s: Block, list: seq<NodeId>)
    requires Valid(s.g) && forall k :: 0 <= k < |list| ==> list[k] in s.g.nodes
  {
    AllAgreeable(s.g) && (WalkAll(s.g, [], list).Walked? ==> Undisturbed(s, WalkAll(s.g, [], list).g))
  }

  ghost predicate Orderly(states: seq<Block>, ops: seq<Op>) {
    && |states| == |ops| + 1
    && forall k {:trigger ops[k]} :: 0 <= k < |ops| && ops[k].InactivateNodes?
                                     && Consistent(states[k]) && Allowed(states[k], ops[k]) ==>
                                     OrderlyAt(states[k], ops[k].list)
  }

  /** After any covered run with orderly inactivations, nobody has write access to a node that is
      read-only or inactive. */
  lemma {:induction false} NoWriterOfInactive(states: seq<Block>, ops: seq<Op>)
    requires Run(states, ops) && CoveredRun(states, ops) && Orderly(states, ops)
    ensures Sound(states[|ops|]) && Protected(states[|ops|]) && Quiet(states[|ops|])
  {
    if |ops| > 0 {
      var n := |ops| - 1;
      var s, op := states[n], ops[n];
      NoWriterOfInactive(states[..n + 1], ops[..n]);
      RunSound(states, ops);
      assert Step(s, op, states[n + 1]);
      if op.InactivateNodes? {
        assert OrderlyAt(s, ops[n].list);
        AllFollow(s, [], op.list);
        InactivateProtectsExactly(s, op.list);
      } else {
        ApplyProtected(s, op);
        ApplyQuiet(s, op);
      }
    }
  }
}
