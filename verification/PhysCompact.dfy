/** Path compaction: phys_page_compact and address_space_dispatch_compact of exec.c.

    An entry whose node has a single child is redirected to that child; the index bits in between
    are no longer looked at, so that a page outside the child's block ends up where some page of
    that block does. */
module PhysCompact {
  import opened PhysTree
  import opened PhysSet

  /** What the loop over a node's slots leaves: how many are in use, and the last of them. */
  datatype Scan = Scan(t: Tree, valid: nat, last: nat)

  /** phys_page_compact, for an entry of height `h` */
  function Compact(t: Tree, loc: Loc, h: nat): (r: Tree)
    requires Shaped(t) && ValidLoc(t, loc)
    ensures Shaped(r) && |r.nodes| == |t.nodes| && r.places == t.places && r.levels == t.levels
    decreases h, FANOUT + 1, 0
  {
    var e := EntryAt(t, loc);
    if e.ptr == NIL || e.ptr >= |t.nodes| || h == 0 then t
    else
      var s := CompactSlots(t, e.ptr, 0, 0, FANOUT, h);
      if s.valid != 1 || s.last >= FANOUT then s.t
      else WriteAt(s.t, loc, Merged(EntryAt(s.t, loc), s.t.nodes[e.ptr][s.last]))
  }

  /** The entry that goes directly to where its only child goes */
  function Merged(e: Entry, child: Entry): Entry {
    Entry(if child.skip == 0 then 0 else e.skip + child.skip, child.ptr)
  }

  /** The loop of phys_page_compact over node `m`, from slot `i` */
  function CompactSlots(t: Tree, m: nat, i: nat, valid: nat, last: nat, h: nat): (r: Scan)
    requires Shaped(t) && m < |t.nodes| && i <= FANOUT && h > 0
    ensures Shaped(r.t) && |r.t.nodes| == |t.nodes| && r.t.places == t.places && r.t.levels == t.levels
    decreases h, FANOUT - i, 1
  {
    if i == FANOUT then Scan(t, valid, last)
    else if t.nodes[m][i].ptr == NIL then CompactSlots(t, m, i + 1, valid, last, h)
    else CompactSlots(CompactSlot(t, m, i, h), m, i + 1, valid + 1, i, h)
  }

  function CompactSlot(t: Tree, m: nat, i: nat, h: nat): (r: Tree)
    requires Shaped(t) && m < |t.nodes| && i < FANOUT && h > 0
    ensures Shaped(r) && |r.nodes| == |t.nodes| && r.places == t.places && r.levels == t.levels
    decreases h, 0, 0
  {
    if t.nodes[m][i].skip != 0 then Compact(t, Slot(m, i), h - 1) else t
  }

  /** address_space_dispatch_compact */
  function CompactAll(t: Tree): Tree
    requires Shaped(t)
  {
    if t.root.skip != 0 then Compact(t, Root, t.levels) else t
  }

  // ----- links that may skip levels -----

  /** The place lies below an entry of height `h` for block `b`. */
  predicate Under(pl: Place, h: nat, b: nat) {
    pl.level < h && Top(pl.block, h - 1 - pl.level) == b
  }

  predicate LooseEntry(t: Tree, e: Entry, h: nat, b: nat)
    requires |t.places| == |t.nodes|
  {
    e.skip == 0 || e.ptr == NIL
    || (e.skip <= h && e.ptr < |t.nodes| && t.places[e.ptr].level == h - e.skip && Under(t.places[e.ptr], h, b))
  }

  predicate LooseAt(t: Tree, loc: Loc)
    requires Shaped(t) && ValidLoc(t, loc)
  {
    LooseEntry(t, EntryAt(t, loc), Height(t, loc), Block(t, loc))
  }

  ghost predicate Loose(t: Tree) {
    && Shaped(t) && |t.nodes| <= NIL
    && forall loc {:trigger LooseAt(t, loc)} :: ValidLoc(t, loc) ==> LooseAt(t, loc)
  }

  lemma LinkedIsLoose(t: Tree)
    requires Linked(t) && |t.nodes| <= NIL
    ensures Loose(t)
  {
    forall loc | ValidLoc(t, loc)
      ensures LooseAt(t, loc)
    {
      assert LinkedAt(t, loc);
    }
  }

  lemma WriteLoose(t: Tree, loc: Loc, e: Entry)
    requires Loose(t) && ValidLoc(t, loc) && LooseEntry(t, e, Height(t, loc), Block(t, loc))
    ensures Loose(WriteAt(t, loc, e))
  {
    var u := WriteAt(t, loc, e);
    forall o | ValidLoc(u, o)
      ensures LooseAt(u, o)
    {
      assert LooseAt(t, o);
    }
  }

  // ----- what lies below different entries -----

  lemma TopTop(p: nat, a: nat, b: nat)
    ensures Top(Top(p, a), b) == Top(p, a + b)
  {
    if b > 0 {
      TopTop(p, a, b - 1);
    }
  }

  /** Below a slot is below the entry that owns the slot's node. */
  lemma UnderSlot(pl: Place, q: Place, i: nat, h: nat, b: nat)
    requires i < FANOUT && Under(q, h, b) && Under(pl, q.level, q.block * FANOUT + i)
    ensures Under(pl, h, b)
  {
    TopTop(pl.block, q.level - 1 - pl.level, 1);
    TopTop(pl.block, q.level - pl.level, h - 1 - q.level);
  }

  /** Two slots have nothing in common below them. */
  lemma UnderOne(pl: Place, h: nat, b: nat, c: nat)
    requires Under(pl, h, b) && b != c
    ensures !Under(pl, h, c)
  {
  }

  // ----- compaction changes only what lies below the entry -----

  /** What lies below the entry has not been compacted yet. */
  ghost predicate Fresh(t: Tree, h: nat, b: nat)
    requires Shaped(t)
  {
    forall o {:trigger LinkedAt(t, o)} ::
      ValidLoc(t, o) && o.Slot? && Under(t.places[o.node], h, b) ==> LinkedAt(t, o)
  }

  predicate Below(t: Tree, o: Loc, h: nat, b: nat)
    requires Shaped(t) && ValidLoc(t, o)
  {
    o.Slot? && Under(t.places[o.node], h, b)
  }

  /** The slots of `m` from the i-th on, and what lies below them, have not been compacted yet. */
  ghost predicate FreshFrom(t: Tree, m: nat, i: nat, h: nat, b: nat)
    requires Shaped(t) && m < |t.nodes|
  {
    forall j {:trigger FreshSlot(t, m, j, h, b)} :: i <= j < FANOUT ==> FreshSlot(t, m, j, h, b)
  }

  ghost predicate FreshSlot(t: Tree, m: nat, j: nat, h: nat, b: nat)
    requires Shaped(t) && m < |t.nodes| && j < FANOUT
  {
    LinkedAt(t, Slot(m, j)) && Fresh(t, h, b * FANOUT + j)
  }

  lemma FreshDown(t: Tree, m: nat, h: nat, b: nat)
    requires Shaped(t) && Fresh(t, h + 1, b) && m < |t.nodes| && t.places[m] == Place(h, b)
    ensures FreshFrom(t, m, 0, h, b)
  {
    forall j | 0 <= j < FANOUT
      ensures FreshSlot(t, m, j, h, b)
    {
      assert LinkedAt(t, Slot(m, j));
      forall o | ValidLoc(t, o) && o.Slot? && Under(t.places[o.node], h, b * FANOUT + j)
        ensures LinkedAt(t, o)
      {
        UnderSlot(t.places[o.node], t.places[m], j, h + 1, b);
      }
    }
  }

  /** Entries that compacting `loc` leaves alone */
  predicate Apart(t: Tree, loc: Loc, h: nat, o: Loc)
    requires Shaped(t) && ValidLoc(t, loc) && ValidLoc(t, o)
  {
    o != loc && !Below(t, o, h, Block(t, loc))
  }

  ghost predicate ApartFrom(t: Tree, m: nat, i: nat, h: nat, o: Loc)
    requires Shaped(t) && m < |t.nodes| && ValidLoc(t, o)
  {
    forall j {:trigger Apart(t, Slot(m, j), h, o)} :: i <= j < FANOUT ==> Apart(t, Slot(m, j), h, o)
  }

  lemma ApartDown(t: Tree, loc: Loc, m: nat, h: nat, o: Loc)
    requires Shaped(t) && ValidLoc(t, loc) && ValidLoc(t, o) && Apart(t, loc, h + 1, o)
    requires m < |t.nodes| && t.places[m] == Place(h, Block(t, loc))
    ensures ApartFrom(t, m, 0, h, o)
  {
    forall j | 0 <= j < FANOUT
      ensures Apart(t, Slot(m, j), h, o)
    {
    }
  }

  lemma {:induction false} CompactKeeps(t: Tree, loc: Loc, h: nat, o: Loc)
    requires Loose(t) && ValidLoc(t, loc) && h == Height(t, loc) && LinkedAt(t, loc) && Fresh(t, h, Block(t, loc))
    requires EntryAt(t, loc).skip != 0 && ValidLoc(t, o) && Apart(t, loc, h, o)
    ensures EntryAt(Compact(t, loc, h), o) == EntryAt(t, o)
    decreases h, FANOUT + 1, 0
  {
    var e := EntryAt(t, loc);
    if e.ptr != NIL {
      FreshDown(t, e.ptr, h - 1, Block(t, loc));
      ApartDown(t, loc, e.ptr, h - 1, o);
      SlotsKeepApart(t, e.ptr, 0, 0, FANOUT, h, o);
    }
  }

  lemma {:induction false} SlotsKeepApart(t: Tree, m: nat, i: nat, valid: nat, last: nat, h: nat, o: Loc)
    requires Loose(t) && m < |t.nodes| && i <= FANOUT && h > 0 && t.places[m].level == h - 1
    requires FreshFrom(t, m, i, h - 1, t.places[m].block)
    requires ValidLoc(t, o) && ApartFrom(t, m, i, h - 1, o)
    ensures EntryAt(CompactSlots(t, m, i, valid, last, h).t, o) == EntryAt(t, o)
    decreases h, FANOUT - i, 1
  {
    if i < FANOUT {
      if t.nodes[m][i].ptr == NIL {
        SlotsKeepApart(t, m, i + 1, valid, last, h, o);
      } else {
        var u := CompactSlot(t, m, i, h);
        SlotReady(t, m, i, h);
        assert Apart(t, Slot(m, i), h - 1, o);
        SlotKeepsApart(t, m, i, h, o);
        forall j | i + 1 <= j < FANOUT
          ensures Apart(u, Slot(m, j), h - 1, o)
        {
          assert Apart(t, Slot(m, j), h - 1, o);
        }
        SlotsKeepApart(u, m, i + 1, valid + 1, i, h, o);
      }
    }
  }

  lemma {:induction false} SlotKeepsApart(t: Tree, m: nat, i: nat, h: nat, o: Loc)
    requires Loose(t) && m < |t.nodes| && i < FANOUT && h > 0 && t.places[m].level == h - 1
    requires FreshFrom(t, m, i, h - 1, t.places[m].block)
    requires ValidLoc(t, o) && Apart(t, Slot(m, i), h - 1, o)
    ensures EntryAt(CompactSlot(t, m, i, h), o) == EntryAt(t, o)
    decreases h, 0, 0
  {
    assert FreshSlot(t, m, i, h - 1, t.places[m].block);
    if t.nodes[m][i].skip != 0 {
      CompactKeeps(t, Slot(m, i), h - 1, o);
    }
  }

  /** After one round the tree is still loosely linked and the rest still to be compacted. */
  lemma {:induction false} SlotReady(t: Tree, m: nat, i: nat, h: nat)
    requires Loose(t) && m < |t.nodes| && i < FANOUT && h > 0 && t.places[m].level == h - 1
    requires FreshFrom(t, m, i, h - 1, t.places[m].block)
    ensures var u := CompactSlot(t, m, i, h);
            Loose(u) && FreshFrom(u, m, i + 1, h - 1, u.places[m].block)
    decreases h, 0, 1
  {
    var u, b := CompactSlot(t, m, i, h), t.places[m].block;
    assert FreshSlot(t, m, i, h - 1, b);
    if t.nodes[m][i].skip != 0 {
      CompactLoose(t, Slot(m, i), h - 1);
    }
    forall j {:trigger FreshSlot(u, m, j, h - 1, b)} | i + 1 <= j < FANOUT
      ensures FreshSlot(u, m, j, h - 1, b)
    {
      assert FreshSlot(t, m, j, h - 1, b);
      SlotKeepsApart(t, m, i, h, Slot(m, j));
      forall o | ValidLoc(u, o) && o.Slot? && Under(u.places[o.node], h - 1, b * FANOUT + j)
        ensures LinkedAt(u, o)
      {
        assert LinkedAt(t, o);
        UnderOne(t.places[o.node], h - 1, b * FANOUT + j, b * FANOUT + i);
        SlotKeepsApart(t, m, i, h, o);
      }
    }
  }

  lemma {:induction false} CompactLoose(t: Tree, loc: Loc, h: nat)
    requires Loose(t) && ValidLoc(t, loc) && h == Height(t, loc) && LinkedAt(t, loc) && Fresh(t, h, Block(t, loc))
    requires EntryAt(t, loc).skip != 0
    ensures Loose(Compact(t, loc, h))
    decreases h, FANOUT + 1, 1
  {
    var e := EntryAt(t, loc);
    if e.ptr != NIL {
      FreshDown(t, e.ptr, h - 1, Block(t, loc));
      SlotsLoose(t, e.ptr, 0, 0, FANOUT, h);
      var s := CompactSlots(t, e.ptr, 0, 0, FANOUT, h);
      if s.valid == 1 && s.last < FANOUT {
        OwnApart(t, loc, e.ptr, h);
        SlotsKeepApart(t, e.ptr, 0, 0, FANOUT, h, loc);
        MergedLoose(s.t, loc, e.ptr, s.last, h);
        WriteLoose(s.t, loc, Merged(e, s.t.nodes[e.ptr][s.last]));
      }
    }
  }

  /** The entry itself is apart from the slots of its node. */
  lemma OwnApart(t: Tree, loc: Loc, m: nat, h: nat)
    requires Shaped(t) && ValidLoc(t, loc) && h == Height(t, loc) && h > 0 && m < |t.nodes|
    requires t.places[m].level == h - 1
    ensures ApartFrom(t, m, 0, h - 1, loc)
  {
  }

  lemma MergedLoose(t: Tree, loc: Loc, m: nat, i: nat, h: nat)
    requires Loose(t) && ValidLoc(t, loc) && h == Height(t, loc) && h > 0 && m < |t.nodes| && i < FANOUT
    requires EntryAt(t, loc) == Entry(1, m) && t.places[m] == Place(h - 1, Block(t, loc))
    ensures LooseEntry(t, Merged(EntryAt(t, loc), t.nodes[m][i]), h, Block(t, loc))
  {
    var c := t.nodes[m][i];
    assert LooseAt(t, Slot(m, i));
    if c.skip != 0 && c.ptr != NIL {
      UnderSlot(t.places[c.ptr], t.places[m], i, h, Block(t, loc));
    }
  }

  lemma {:induction false} SlotsLoose(t: Tree, m: nat, i: nat, valid: nat, last: nat, h: nat)
    requires Loose(t) && m < |t.nodes| && i <= FANOUT && h > 0 && t.places[m].level == h - 1
    requires FreshFrom(t, m, i, h - 1, t.places[m].block)
    ensures Loose(CompactSlots(t, m, i, valid, last, h).t)
    decreases h, FANOUT - i, 1
  {
    if i < FANOUT {
      if t.nodes[m][i].ptr == NIL {
        SlotsLoose(t, m, i + 1, valid, last, h);
      } else {
        SlotReady(t, m, i, h);
        SlotsLoose(CompactSlot(t, m, i, h), m, i + 1, valid + 1, i, h);
      }
    }
  }

  // ----- which slots are in use -----

  /** Compaction leaves no entry that is in use without a target, nor the other way round. */
  lemma {:induction false} CompactNil(t: Tree, loc: Loc, h: nat)
    requires Loose(t) && ValidLoc(t, loc) && h == Height(t, loc) && LinkedAt(t, loc) && Fresh(t, h, Block(t, loc))
    requires EntryAt(t, loc).skip != 0
    ensures EntryAt(Compact(t, loc, h), loc).ptr == NIL <==> EntryAt(t, loc).ptr == NIL
    decreases h, FANOUT + 1, 1
  {
    var e := EntryAt(t, loc);
    if e.ptr != NIL {
      FreshDown(t, e.ptr, h - 1, Block(t, loc));
      OwnApart(t, loc, e.ptr, h);
      SlotsKeepApart(t, e.ptr, 0, 0, FANOUT, h, loc);
      SlotsInUse(t, e.ptr, 0, 0, FANOUT, h, 0);
    }
  }

  /** What the scan finds: the number of slots in use, and the last of them. */
  lemma {:induction false} SlotsInUse(t: Tree, m: nat, i: nat, valid: nat, last: nat, h: nat, j: nat)
    requires Loose(t) && m < |t.nodes| && i <= FANOUT && h > 0 && t.places[m].level == h - 1 && j < FANOUT
    requires FreshFrom(t, m, i, h - 1, t.places[m].block)
    ensures var r := CompactSlots(t, m, i, valid, last, h);
            && r.valid >= valid
            && (r.valid == valid ==> r.last == last && (i <= j ==> t.nodes[m][j].ptr == NIL))
            && (r.valid == valid + 1 ==>
                  && i <= r.last < FANOUT && r.t.nodes[m][r.last].ptr != NIL
                  && (i <= j && j != r.last ==> t.nodes[m][j].ptr == NIL))
    decreases h, FANOUT - i, 1
  {
    if i < FANOUT {
      if t.nodes[m][i].ptr == NIL {
        SlotsInUse(t, m, i + 1, valid, last, h, j);
      } else {
        var u := CompactSlot(t, m, i, h);
        SlotReady(t, m, i, h);
        SlotInUse(t, m, i, h);
        SlotsInUse(u, m, i + 1, valid + 1, i, h, j);
        if j > i {
          SlotKeepsApart(t, m, i, h, Slot(m, j));
        }
        SlotsApart(u, m, i, h);
        SlotsKeepApart(u, m, i + 1, valid + 1, i, h, Slot(m, i));
      }
    }
  }

  lemma {:induction false} SlotInUse(t: Tree, m: nat, i: nat, h: nat)
    requires Loose(t) && m < |t.nodes| && i < FANOUT && h > 0 && t.places[m].level == h - 1
    requires FreshFrom(t, m, i, h - 1, t.places[m].block) && t.nodes[m][i].ptr != NIL
    ensures CompactSlot(t, m, i, h).nodes[m][i].ptr != NIL
    decreases h, 0, 0
  {
    assert FreshSlot(t, m, i, h - 1, t.places[m].block);
    if t.nodes[m][i].skip != 0 {
      CompactNil(t, Slot(m, i), h - 1);
      assert EntryAt(CompactSlot(t, m, i, h), Slot(m, i)).ptr != NIL;
    }
  }

  lemma SlotsApart(t: Tree, m: nat, i: nat, h: nat)
    requires Shaped(t) && m < |t.nodes| && i < FANOUT && h > 0 && t.places[m].level == h - 1
    ensures ApartFrom(t, m, i + 1, h - 1, Slot(m, i))
  {
  }

  // ----- walks -----

  /** Page `p` with everything above its lowest `h` digits replaced by `b` */
  function Graft(p: nat, h: nat, b: nat): nat {
    if h == 0 then b else Graft(p, h - 1, b * FANOUT + Digit(p, h - 1))
  }

  lemma {:induction false} GraftTop(p: nat, h: nat, b: nat)
    ensures Top(Graft(p, h, b), h) == b
  {
    if h > 0 {
      GraftTop(p, h - 1, b * FANOUT + Digit(p, h - 1));
    }
  }

  lemma {:induction false} GraftDigit(p: nat, h: nat, b: nat, j: nat)
    requires j < h
    ensures Digit(Graft(p, h, b), j) == Digit(p, j)
  {
    if j == h - 1 {
      GraftTop(p, h - 1, b * FANOUT + Digit(p, h - 1));
    } else {
      GraftDigit(p, h - 1, b * FANOUT + Digit(p, h - 1), j);
    }
  }

  /** A walk looks only at the digits below its height. */
  lemma {:induction false} GraftWalk(nodes: seq<seq<Entry>>, e: Entry, h: nat, p: nat, k: nat, b: nat)
    requires h <= k
    ensures Walk(nodes, e, h, Graft(p, k, b)) == Walk(nodes, e, h, p)
    decreases h
  {
    if 0 < e.skip <= h && e.ptr < |nodes| && |nodes[e.ptr]| == FANOUT {
      GraftDigit(p, k, b, h - e.skip);
      GraftWalk(nodes, nodes[e.ptr][Digit(p, h - e.skip)], h - e.skip, p, k, b);
    }
  }

  /** The trees agree below an entry. */
  ghost predicate AgreeBelow(t: Tree, u: Tree, h: nat, b: nat)
    requires Shaped(t) && Shaped(u) && |t.nodes| == |u.nodes|
  {
    forall o {:trigger Below(t, o, h, b)} :: ValidLoc(t, o) && Below(t, o, h, b) ==> EntryAt(u, o) == EntryAt(t, o)
  }

  lemma {:induction false} AgreeWalk(t: Tree, u: Tree, x: Entry, h: nat, b: nat, p: nat)
    requires Loose(t) && Shaped(u) && |t.nodes| == |u.nodes| && LooseEntry(t, x, h, b) && AgreeBelow(t, u, h, b)
    ensures Walk(u.nodes, x, h, p) == Walk(t.nodes, x, h, p)
    decreases h
  {
    if x.skip != 0 && x.ptr != NIL {
      var o := Slot(x.ptr, Digit(p, h - x.skip));
      assert Below(t, o, h, b) && LooseAt(t, o);
      forall y | ValidLoc(t, y) && Below(t, y, h - x.skip, Block(t, o))
        ensures EntryAt(u, y) == EntryAt(t, y)
      {
        UnderSlot(t.places[y.node], t.places[x.ptr], o.i, h, b);
        assert Below(t, y, h, b);
      }
      AgreeWalk(t, u, EntryAt(t, o), h - x.skip, Block(t, o), p);
    }
  }

  /** The merged entry walks like the only child. */
  lemma MergedWalk(nodes: seq<seq<Entry>>, c: Entry, m: nat, h: nat, p: nat)
    requires h > 0 && c.ptr != NIL && c.skip <= h - 1
    ensures Walk(nodes, Merged(Entry(1, m), c), h, p) == Walk(nodes, c, h - 1, p)
  {
  }

  /** Where a page ends up once an entry is compacted: where some page did before, and where it did
      itself unless it was unassigned. */
  lemma {:induction false} CompactWalk(t: Tree, loc: Loc, h: nat, p: nat) returns (w: nat)
    requires Loose(t) && ValidLoc(t, loc) && h == Height(t, loc) && LinkedAt(t, loc) && Fresh(t, h, Block(t, loc))
    requires EntryAt(t, loc).skip != 0
    ensures var r := Compact(t, loc, h);
            var now := Walk(r.nodes, EntryAt(r, loc), h, p);
            && Top(w, h) == 0 && now == WalkAt(t, loc, w)
            && (now == WalkAt(t, loc, p) || WalkAt(t, loc, p) == 0)
    decreases h, FANOUT + 1, 1
  {
    var m := EntryAt(t, loc).ptr;
    if m == NIL {
      w := Graft(p, h, 0);
      GraftTop(p, h, 0);
    } else {
      var d := Digit(p, h - 1);
      FreshDown(t, m, h - 1, Block(t, loc));
      OwnApart(t, loc, m, h);
      SlotsKeepApart(t, m, 0, 0, FANOUT, h, loc);
      SlotsInUse(t, m, 0, 0, FANOUT, h, d);
      var s := CompactSlots(t, m, 0, 0, FANOUT, h);
      var j := if s.valid == 1 then s.last else d;
      var v := SlotsCompactWalk(t, m, 0, 0, FANOUT, h, j, p);
      w := Graft(v, h - 1, j);
      GraftDown(t, loc, m, h, v, j);
      if s.valid == 1 {
        SlotsLoose(t, m, 0, 0, FANOUT, h);
        MergedSame(s.t, loc, m, j, h, p);
        OnlySlot(t, loc, m, h, d, j, p);
      } else {
        WalkDown(t, loc, m, p);
        WalkDown(s.t, loc, m, p);
      }
    }
  }

  /** A page that goes through slot `j` of the entry's node and then where `v` goes */
  lemma GraftDown(t: Tree, loc: Loc, m: nat, h: nat, v: nat, j: nat)
    requires Shaped(t) && ValidLoc(t, loc) && h == Height(t, loc) && h > 0 && m < |t.nodes| && m != NIL && j < FANOUT
    requires EntryAt(t, loc) == Entry(1, m) && t.places[m].level == h - 1
    ensures var w := Graft(v, h - 1, j);
            Top(w, h) == 0 && WalkAt(t, loc, w) == WalkAt(t, Slot(m, j), v)
  {
    var w := Graft(v, h - 1, j);
    GraftTop(v, h - 1, j);
    GraftWalk(t.nodes, t.nodes[m][j], h - 1, v, h - 1, j);
    WalkDown(t, loc, m, w);
  }

  /** If slot `j` is the only one in use, pages of other slots are unassigned. */
  lemma OnlySlot(t: Tree, loc: Loc, m: nat, h: nat, d: nat, j: nat, p: nat)
    requires Shaped(t) && ValidLoc(t, loc) && h == Height(t, loc) && h > 0 && m < |t.nodes| && m != NIL && j < FANOUT
    requires EntryAt(t, loc) == Entry(1, m) && t.places[m] == Place(h - 1, Block(t, loc)) && d == Digit(p, h - 1)
    requires FreshFrom(t, m, 0, h - 1, Block(t, loc)) && (d != j ==> t.nodes[m][d].ptr == NIL)
    ensures WalkAt(t, loc, p) == if d == j then WalkAt(t, Slot(m, j), p) else 0
  {
    WalkDown(t, loc, m, p);
    if d != j {
      assert FreshSlot(t, m, d, h - 1, Block(t, loc));
      EmptyWalk(t, Slot(m, d), p);
    }
  }

  lemma EmptyWalk(t: Tree, loc: Loc, p: nat)
    requires Shaped(t) && ValidLoc(t, loc) && LinkedAt(t, loc) && EntryAt(t, loc).ptr == NIL
    ensures WalkAt(t, loc, p) == 0
  {
  }

  /** Redirecting the entry to its only child */
  lemma MergedSame(t: Tree, loc: Loc, m: nat, j: nat, h: nat, p: nat)
    requires Loose(t) && ValidLoc(t, loc) && h == Height(t, loc) && h > 0 && m < |t.nodes| && j < FANOUT
    requires EntryAt(t, loc) == Entry(1, m) && t.places[m] == Place(h - 1, Block(t, loc)) && t.nodes[m][j].ptr != NIL
    ensures var u := WriteAt(t, loc, Merged(EntryAt(t, loc), t.nodes[m][j]));
            Walk(u.nodes, EntryAt(u, loc), h, p) == WalkAt(t, Slot(m, j), p)
  {
    var x := Merged(EntryAt(t, loc), t.nodes[m][j]);
    assert LooseAt(t, Slot(m, j));
    MergedLoose(t, loc, m, j, h);
    AgreeWalk(t, WriteAt(t, loc, x), x, h, Block(t, loc), p);
    MergedWalk(t.nodes, t.nodes[m][j], m, h, p);
  }

  lemma {:induction false} SlotsCompactWalk(t: Tree, m: nat, i: nat, valid: nat, last: nat, h: nat, j: nat, p: nat)
    returns (w: nat)
    requires Loose(t) && m < |t.nodes| && i <= j < FANOUT && h > 0 && t.places[m].level == h - 1
    requires FreshFrom(t, m, i, h - 1, t.places[m].block)
    ensures var r := CompactSlots(t, m, i, valid, last, h).t;
            var now := WalkAt(r, Slot(m, j), p);
            && now == WalkAt(t, Slot(m, j), w)
            && (now == WalkAt(t, Slot(m, j), p) || WalkAt(t, Slot(m, j), p) == 0)
    decreases h, FANOUT - i, 1
  {
    var u := CompactSlot(t, m, i, h);
    if t.nodes[m][i].ptr == NIL {
      if i == j {
        w := p;
        SlotsWalkApart(t, m, i + 1, valid, last, h, j, p);
      } else {
        w := SlotsCompactWalk(t, m, i + 1, valid, last, h, j, p);
      }
    } else {
      SlotReady(t, m, i, h);
      if i == j {
        w := SlotCompactWalk(t, m, i, h, p);
        SlotsWalkApart(u, m, i + 1, valid + 1, i, h, j, p);
      } else {
        w := SlotsCompactWalk(u, m, i + 1, valid + 1, i, h, j, p);
        SlotWalkApart(t, m, i, h, j, p);
        SlotWalkApart(t, m, i, h, j, w);
      }
    }
  }

  lemma {:induction false} SlotCompactWalk(t: Tree, m: nat, i: nat, h: nat, p: nat) returns (w: nat)
    requires Loose(t) && m < |t.nodes| && i < FANOUT && h > 0 && t.places[m].level == h - 1
    requires FreshFrom(t, m, i, h - 1, t.places[m].block)
    ensures var now := WalkAt(CompactSlot(t, m, i, h), Slot(m, i), p);
            && now == WalkAt(t, Slot(m, i), w)
            && (now == WalkAt(t, Slot(m, i), p) || WalkAt(t, Slot(m, i), p) == 0)
    decreases h, 0, 0
  {
    assert FreshSlot(t, m, i, h - 1, t.places[m].block);
    w := p;
    if t.nodes[m][i].skip != 0 {
      w := CompactWalk(t, Slot(m, i), h - 1, p);
    }
  }

  /** Compacting one slot does not change the walks from a later one. */
  lemma SlotWalkApart(t: Tree, m: nat, i: nat, h: nat, j: nat, p: nat)
    requires Loose(t) && m < |t.nodes| && i < j < FANOUT && h > 0 && t.places[m].level == h - 1
    requires FreshFrom(t, m, i, h - 1, t.places[m].block)
    ensures WalkAt(CompactSlot(t, m, i, h), Slot(m, j), p) == WalkAt(t, Slot(m, j), p)
  {
    var u, b := CompactSlot(t, m, i, h), t.places[m].block;
    SlotKeepsApart(t, m, i, h, Slot(m, j));
    forall o | ValidLoc(t, o) && Below(t, o, h - 1, b * FANOUT + j)
      ensures EntryAt(u, o) == EntryAt(t, o)
    {
      UnderOne(t.places[o.node], h - 1, b * FANOUT + j, b * FANOUT + i);
      SlotKeepsApart(t, m, i, h, o);
    }
    assert LooseAt(t, Slot(m, j));
    AgreeWalk(t, u, t.nodes[m][j], h - 1, b * FANOUT + j, p);
    assert EntryAt(u, Slot(m, j)) == t.nodes[m][j];
  }

  /** Compacting later slots does not change the walks from an earlier one. */
  lemma SlotsWalkApart(t: Tree, m: nat, i: nat, valid: nat, last: nat, h: nat, j: nat, p: nat)
    requires Loose(t) && m < |t.nodes| && j < i <= FANOUT && h > 0 && t.places[m].level == h - 1
    requires FreshFrom(t, m, i, h - 1, t.places[m].block)
    ensures WalkAt(CompactSlots(t, m, i, valid, last, h).t, Slot(m, j), p) == WalkAt(t, Slot(m, j), p)
  {
    var u, b := CompactSlots(t, m, i, valid, last, h).t, t.places[m].block;
    forall o | ValidLoc(t, o) && (o == Slot(m, j) || Below(t, o, h - 1, b * FANOUT + j))
      ensures EntryAt(u, o) == EntryAt(t, o)
    {
      forall k | i <= k < FANOUT
        ensures Apart(t, Slot(m, k), h - 1, o)
      {
      }
      SlotsKeepApart(t, m, i, valid, last, h, o);
    }
    assert LooseAt(t, Slot(m, j));
    assert EntryAt(u, Slot(m, j)) == t.nodes[m][j];
    AgreeWalk(t, u, t.nodes[m][j], h - 1, b * FANOUT + j, p);
  }

  // ----- address_space_dispatch_compact -----

  /** After compaction page `p` leads where page `w` led before, which is where `p` itself led
      unless that was the unassigned section. */
  lemma CompactAllWalk(t: Tree, p: nat) returns (w: nat)
    requires Linked(t) && |t.nodes| <= NIL && p < Pow(t.levels)
    ensures w < Pow(t.levels) && PageSection(CompactAll(t), p) == PageSection(t, w)
    ensures PageSection(CompactAll(t), p) == PageSection(t, p) || PageSection(t, p) == 0
  {
    w := p;
    if t.root.skip != 0 {
      LinkedIsLoose(t);
      assert LinkedAt(t, Root);
      w := CompactWalk(t, Root, t.levels, p);
      BlockIs(w, t.levels, 0);
    }
  }
}
