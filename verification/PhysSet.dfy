/** What phys_page_set does to the map: it keeps the tree well linked, gives the pages of its
    range the new section and no other page, and allocates few nodes. */
module PhysSet {
  import opened Basics
  import opened PhysTree

  // ----- links -----

  /** An entry of height `h` for block `b`: a leaf (never the unassigned section if it stands for
      many pages), an empty entry, or a node one level down that belongs to this block. */
  predicate LinkedEntry(t: Tree, e: Entry, h: nat, b: nat)
    requires |t.places| == |t.nodes|
  {
    if e.skip == 0 then e.ptr != NIL && (h > 0 ==> e.ptr != 0)
    else e.skip == 1 && h >= 1 && (e.ptr == NIL || (e.ptr < |t.nodes| && t.places[e.ptr] == Place(h - 1, b)))
  }

  predicate LinkedAt(t: Tree, loc: Loc)
    requires Shaped(t) && ValidLoc(t, loc)
  {
    LinkedEntry(t, EntryAt(t, loc), Height(t, loc), Block(t, loc))
  }

  ghost predicate Linked(t: Tree) {
    && Shaped(t)
    && forall loc {:trigger LinkedAt(t, loc)} :: ValidLoc(t, loc) ==> LinkedAt(t, loc)
  }

  /** `u` has the nodes of `t`, in their places, and perhaps more. */
  predicate Grown(t: Tree, u: Tree) {
    t.levels == u.levels && t.places <= u.places && |t.nodes| <= |u.nodes|
  }

  lemma WriteLinked(t: Tree, loc: Loc, e: Entry)
    requires Linked(t) && ValidLoc(t, loc) && LinkedEntry(t, e, Height(t, loc), Block(t, loc))
    ensures Linked(WriteAt(t, loc, e))
  {
    var u := WriteAt(t, loc, e);
    forall o | ValidLoc(u, o)
      ensures LinkedAt(u, o)
    {
      assert LinkedAt(t, o);
    }
  }

  lemma AllocLinked(t: Tree, level: nat, block: nat)
    requires Linked(t)
    ensures Linked(Alloc(t, level, block))
  {
    var u := Alloc(t, level, block);
    forall o | ValidLoc(u, o)
      ensures LinkedAt(u, o)
    {
      if ValidLoc(t, o) {
        assert LinkedAt(t, o);
      }
    }
  }

  lemma DescendLinked(t: Tree, loc: Loc, level: nat)
    requires Linked(t) && ValidLoc(t, loc) && Height(t, loc) == level + 1
    ensures var u := Descend(t, loc, level);
            Linked(u) && Grown(t, u) && |u.nodes| <= |t.nodes| + 1
  {
    assert LinkedAt(t, loc);
    if EntryAt(t, loc).skip != 0 && EntryAt(t, loc).ptr == NIL {
      AllocLinked(t, level, Block(t, loc));
      WriteLinked(Alloc(t, level, Block(t, loc)), loc, EntryAt(t, loc).(ptr := |t.nodes|));
    }
  }

  lemma {:induction false} LevelLinked(t: Tree, loc: Loc, index: nat, nb: nat, leaf: nat, level: nat)
    requires Linked(t) && ValidLoc(t, loc) && Height(t, loc) == level + 1 && 0 < leaf < NIL
    requires SetLevel(t, loc, index, nb, leaf, level).Done?
    ensures var r := SetLevel(t, loc, index, nb, leaf, level); Linked(r.t) && Grown(t, r.t)
    decreases level, FANOUT + 1, 0
  {
    DescendLinked(t, loc, level);
    var u := Descend(t, loc, level);
    assert LinkedAt(u, loc);
    SlotsLinked(u, EntryAt(u, loc).ptr, Digit(index, level), index, nb, leaf, level);
  }

  lemma {:induction false} SlotsLinked(t: Tree, m: nat, k: nat, index: nat, nb: nat, leaf: nat, level: nat)
    requires Linked(t) && m < |t.nodes| && t.places[m].level == level && k <= FANOUT && 0 < leaf < NIL
    requires SetSlots(t, m, k, index, nb, leaf, level).Done?
    ensures var r := SetSlots(t, m, k, index, nb, leaf, level); Linked(r.t) && Grown(t, r.t)
    decreases level, FANOUT - k, 1
  {
    if nb > 0 && k < FANOUT {
      SlotLinked(t, m, k, index, nb, leaf, level);
      var r := SetSlot(t, m, k, index, nb, leaf, level);
      SlotsLinked(r.t, m, k + 1, r.index, r.nb, leaf, level);
    }
  }

  lemma {:induction false} SlotLinked(t: Tree, m: nat, k: nat, index: nat, nb: nat, leaf: nat, level: nat)
    requires Linked(t) && m < |t.nodes| && t.places[m].level == level && k < FANOUT && 0 < leaf < NIL
    requires SetSlot(t, m, k, index, nb, leaf, level).Done?
    ensures var r := SetSlot(t, m, k, index, nb, leaf, level); Linked(r.t) && Grown(t, r.t)
    decreases level, 0, 0
  {
    if LowZero(index, level) && nb >= Pow(level) {
      WriteLinked(t, Slot(m, k), Entry(0, leaf));
    } else {
      LevelLinked(t, Slot(m, k), index, nb, leaf, level - 1);
    }
  }

  // ----- entries above the level stay -----

  lemma {:induction false} LevelKeeps(t: Tree, loc: Loc, index: nat, nb: nat, leaf: nat, level: nat, o: Loc)
    requires Linked(t) && ValidLoc(t, loc) && Height(t, loc) == level + 1 && 0 < leaf < NIL
    requires ValidLoc(t, o) && o != loc && Height(t, o) > level
    requires SetLevel(t, loc, index, nb, leaf, level).Done?
    ensures EntryAt(SetLevel(t, loc, index, nb, leaf, level).t, o) == EntryAt(t, o)
    decreases level, FANOUT + 1, 0
  {
    DescendLinked(t, loc, level);
    var u := Descend(t, loc, level);
    assert LinkedAt(u, loc);
    SlotsKeep(u, EntryAt(u, loc).ptr, Digit(index, level), index, nb, leaf, level, o);
  }

  lemma {:induction false} SlotsKeep(t: Tree, m: nat, k: nat, index: nat, nb: nat, leaf: nat, level: nat, o: Loc)
    requires Linked(t) && m < |t.nodes| && t.places[m].level == level && k <= FANOUT && 0 < leaf < NIL
    requires ValidLoc(t, o) && Height(t, o) > level
    requires SetSlots(t, m, k, index, nb, leaf, level).Done?
    ensures EntryAt(SetSlots(t, m, k, index, nb, leaf, level).t, o) == EntryAt(t, o)
    decreases level, FANOUT - k, 1
  {
    if nb > 0 && k < FANOUT {
      SlotLinked(t, m, k, index, nb, leaf, level);
      SlotKeeps(t, m, k, index, nb, leaf, level, o);
      var r := SetSlot(t, m, k, index, nb, leaf, level);
      SlotsKeep(r.t, m, k + 1, r.index, r.nb, leaf, level, o);
    }
  }

  lemma {:induction false} SlotKeeps(t: Tree, m: nat, k: nat, index: nat, nb: nat, leaf: nat, level: nat, o: Loc)
    requires Linked(t) && m < |t.nodes| && t.places[m].level == level && k < FANOUT && 0 < leaf < NIL
    requires ValidLoc(t, o) && Height(t, o) > level
    requires SetSlot(t, m, k, index, nb, leaf, level).Done?
    ensures EntryAt(SetSlot(t, m, k, index, nb, leaf, level).t, o) == EntryAt(t, o)
    decreases level, 0, 0
  {
    if !(LowZero(index, level) && nb >= Pow(level)) {
      LevelKeeps(t, Slot(m, k), index, nb, leaf, level - 1, o);
    }
  }

  // ----- what one write does to the walks -----

  /** Below an entry for block `b` of height `h`, page `p` of that block meets the entry at `loc`
      only if `p` is in the block of `loc`; then it makes no difference if the new entry walks alike. */
  lemma {:induction false} WriteWalk(t: Tree, loc: Loc, e: Entry, x: Entry, h: nat, b: nat, p: nat)
    requires Linked(t) && ValidLoc(t, loc) && LinkedEntry(t, x, h, b) && Top(p, h) == b
    requires Top(p, Height(t, loc)) == Block(t, loc) ==>
               Walk(WriteAt(t, loc, e).nodes, e, Height(t, loc), p) == WalkAt(t, loc, p)
    ensures Walk(WriteAt(t, loc, e).nodes, x, h, p) == Walk(t.nodes, x, h, p)
    decreases h
  {
    if x.skip != 0 && x.ptr != NIL {
      SlotOf(p, h - 1, b);
      var o := Slot(x.ptr, Digit(p, h - 1));
      assert LinkedAt(t, o);
      if o != loc {
        WriteWalk(t, loc, e, EntryAt(t, o), h - 1, Block(t, o), p);
      }
    }
  }

  lemma WriteWalkAt(t: Tree, loc: Loc, e: Entry, o: Loc, p: nat)
    requires Linked(t) && ValidLoc(t, loc) && ValidLoc(t, o) && Top(p, Height(t, o)) == Block(t, o)
    requires Top(p, Height(t, loc)) == Block(t, loc) ==>
               Walk(WriteAt(t, loc, e).nodes, e, Height(t, loc), p) == WalkAt(t, loc, p)
    ensures WalkAt(WriteAt(t, loc, e), o, p) == WalkAt(t, o, p)
  {
    if o != loc {
      assert LinkedAt(t, o);
      WriteWalk(t, loc, e, EntryAt(t, o), Height(t, o), Block(t, o), p);
    }
  }

  lemma {:induction false} AllocWalk(t: Tree, level: nat, block: nat, x: Entry, h: nat, b: nat, p: nat)
    requires Linked(t) && LinkedEntry(t, x, h, b)
    ensures Walk(Alloc(t, level, block).nodes, x, h, p) == Walk(t.nodes, x, h, p)
    decreases h
  {
    if x.skip != 0 && x.ptr != NIL {
      var o := Slot(x.ptr, Digit(p, h - 1));
      assert LinkedAt(t, o);
      AllocWalk(t, level, block, EntryAt(t, o), h - 1, Block(t, o), p);
    }
  }

  /** A fresh node walks like the empty entry it replaces. */
  lemma DescendWalk(t: Tree, loc: Loc, level: nat, o: Loc, p: nat)
    requires Linked(t) && ValidLoc(t, loc) && Height(t, loc) == level + 1
    requires |Descend(t, loc, level).nodes| <= NIL
    requires ValidLoc(t, o) && Top(p, Height(t, o)) == Block(t, o)
    ensures WalkAt(Descend(t, loc, level), o, p) == WalkAt(t, o, p)
  {
    var e := EntryAt(t, loc);
    assert LinkedAt(t, loc) && LinkedAt(t, o);
    if e.skip != 0 && e.ptr == NIL {
      var u := Alloc(t, level, Block(t, loc));
      AllocLinked(t, level, Block(t, loc));
      AllocWalk(t, level, Block(t, loc), EntryAt(t, o), Height(t, o), Block(t, o), p);
      var x := e.(ptr := |t.nodes|);
      assert WriteAt(u, loc, x).nodes[x.ptr] == u.nodes[x.ptr];
      WriteWalkAt(u, loc, x, o, p);
    }
  }

  // ----- what phys_page_set_level does to the walks -----

  /** Between `t` and `u` the pages from `lo` to `hi` got the leaf (as seen from an entry above
      them, `mine`), and page `p` walks as before, from entry `o`, if it is not one of them. */
  predicate Filled(t: Tree, u: Tree, lo: nat, hi: nat, leaf: nat, o: Loc, mine: bool, p: nat)
    requires Shaped(t) && Shaped(u) && ValidLoc(t, o) && ValidLoc(u, o)
  {
    if lo <= p < hi then mine ==> WalkAt(u, o, p) == leaf else WalkAt(u, o, p) == WalkAt(t, o, p)
  }

  predicate Of(o: Loc, m: nat) {
    o.Slot? && o.node == m
  }

  /** Page `index` is below the k-th slot of the node at (level, block). */
  predicate On(index: nat, nb: nat, level: nat, block: nat, k: nat) {
    nb > 0 && k < FANOUT ==> Top(index, level) == block * FANOUT + k
  }

  lemma {:induction false} LevelWalk(t: Tree, loc: Loc, index: nat, nb: nat, leaf: nat, level: nat, o: Loc, p: nat)
    requires Linked(t) && ValidLoc(t, loc) && 0 < leaf < NIL
    requires Height(t, loc) == level + 1 && Block(t, loc) == Top(index, level + 1)
    requires ValidLoc(t, o) && Top(p, Height(t, o)) == Block(t, o)
    requires SetLevel(t, loc, index, nb, leaf, level).Done?
    ensures var r := SetLevel(t, loc, index, nb, leaf, level);
            Filled(t, r.t, index, r.index, leaf, o, o == loc, p)
    decreases level, FANOUT + 1, 1
  {
    var r := SetLevel(t, loc, index, nb, leaf, level);
    var b := Block(t, loc);
    DescendLinked(t, loc, level);
    SlotOf(index, level, b);
    BlockIs(index, level + 1, b);
    if !(index <= p < r.index) {
      LevelOutside(t, loc, index, nb, leaf, level, o, p);
    } else if o == loc {
      LevelInside(t, loc, index, nb, leaf, level, p);
    }
  }

  lemma {:induction false} LevelOutside(t: Tree, loc: Loc, index: nat, nb: nat, leaf: nat, level: nat, o: Loc, p: nat)
    requires Linked(t) && ValidLoc(t, loc) && 0 < leaf < NIL
    requires Height(t, loc) == level + 1 && Block(t, loc) == Top(index, level + 1)
    requires ValidLoc(t, o) && Top(p, Height(t, o)) == Block(t, o)
    requires SetLevel(t, loc, index, nb, leaf, level).Done?
    requires !(index <= p < SetLevel(t, loc, index, nb, leaf, level).index)
    ensures WalkAt(SetLevel(t, loc, index, nb, leaf, level).t, o, p) == WalkAt(t, o, p)
    decreases level, FANOUT + 1, 0
  {
    var u, b := Descend(t, loc, level), Block(t, loc);
    DescendLinked(t, loc, level);
    assert LinkedAt(u, loc);
    SlotOf(index, level, b);
    BlockIs(index, level + 1, b);
    DescendWalk(t, loc, level, o, p);
    SlotsWalk(u, EntryAt(u, loc).ptr, Digit(index, level), index, nb, leaf, level, b, o, p);
  }

  lemma WalkDown(t: Tree, loc: Loc, m: nat, p: nat)
    requires Shaped(t) && ValidLoc(t, loc) && Height(t, loc) > 0 && m < |t.nodes| && m != NIL
    requires EntryAt(t, loc) == Entry(1, m) && t.places[m].level == Height(t, loc) - 1
    ensures WalkAt(t, loc, p) == WalkAt(t, Slot(m, Digit(p, Height(t, loc) - 1)), p)
  {
    assert |t.nodes[m]| == FANOUT;
  }

  lemma {:induction false} LevelInside(t: Tree, loc: Loc, index: nat, nb: nat, leaf: nat, level: nat, p: nat)
    requires Linked(t) && ValidLoc(t, loc) && 0 < leaf < NIL
    requires Height(t, loc) == level + 1 && Block(t, loc) == Top(index, level + 1) == Top(p, level + 1)
    requires SetLevel(t, loc, index, nb, leaf, level).Done?
    requires index <= p < SetLevel(t, loc, index, nb, leaf, level).index
    ensures WalkAt(SetLevel(t, loc, index, nb, leaf, level).t, loc, p) == leaf
    decreases level, FANOUT + 1, 0
  {
    var u, b := Descend(t, loc, level), Block(t, loc);
    DescendLinked(t, loc, level);
    assert LinkedAt(u, loc);
    SlotOf(index, level, b);
    SlotOf(p, level, b);
    BlockIs(index, level + 1, b);
    var m, k := EntryAt(u, loc).ptr, Digit(index, level);
    SlotsKeep(u, m, k, index, nb, leaf, level, loc);
    SlotsLinked(u, m, k, index, nb, leaf, level);
    SlotsWalk(u, m, k, index, nb, leaf, level, b, Slot(m, Digit(p, level)), p);
    WalkDown(SetLevel(t, loc, index, nb, leaf, level).t, loc, m, p);
  }

  lemma {:induction false} SlotsWalk(t: Tree, m: nat, k: nat, index: nat, nb: nat, leaf: nat, level: nat, block: nat,
                                     o: Loc, p: nat)
    requires Linked(t) && m < |t.nodes| && t.places[m] == Place(level, block) && k <= FANOUT && 0 < leaf < NIL
    requires On(index, nb, level, block, k)
    requires ValidLoc(t, o) && Top(p, Height(t, o)) == Block(t, o)
    requires SetSlots(t, m, k, index, nb, leaf, level).Done?
    ensures var r := SetSlots(t, m, k, index, nb, leaf, level);
            index <= r.index && Filled(t, r.t, index, r.index, leaf, o, Of(o, m), p)
    decreases level, FANOUT - k, 1
  {
    if nb > 0 && k < FANOUT {
      SlotLinked(t, m, k, index, nb, leaf, level);
      SlotCursor(t, m, k, index, nb, leaf, level, block);
      SlotWalk(t, m, k, index, nb, leaf, level, block, o, p);
      var q := SetSlot(t, m, k, index, nb, leaf, level);
      SlotsWalk(q.t, m, k + 1, q.index, q.nb, leaf, level, block, o, p);
    }
  }

  lemma {:induction false} SlotWalk(t: Tree, m: nat, k: nat, index: nat, nb: nat, leaf: nat, level: nat, block: nat,
                                    o: Loc, p: nat)
    requires Linked(t) && m < |t.nodes| && t.places[m] == Place(level, block) && k < FANOUT && 0 < leaf < NIL
    requires Top(index, level) == block * FANOUT + k
    requires ValidLoc(t, o) && Top(p, Height(t, o)) == Block(t, o)
    requires SetSlot(t, m, k, index, nb, leaf, level).Done?
    ensures var r := SetSlot(t, m, k, index, nb, leaf, level);
            Filled(t, r.t, index, r.index, leaf, o, Of(o, m), p)
    decreases level, 0, 1
  {
    if LowZero(index, level) && nb >= Pow(level) {
      WholeWalk(t, m, k, index, leaf, level, block, o, p);
    } else {
      PartWalk(t, m, k, index, nb, leaf, level, block, o, p);
    }
  }

  lemma WholeWalk(t: Tree, m: nat, k: nat, index: nat, leaf: nat, level: nat, block: nat, o: Loc, p: nat)
    requires Linked(t) && m < |t.nodes| && t.places[m] == Place(level, block) && k < FANOUT && 0 < leaf < NIL
    requires Top(index, level) == block * FANOUT + k && LowZero(index, level)
    requires ValidLoc(t, o) && Top(p, Height(t, o)) == Block(t, o)
    ensures Filled(t, WriteAt(t, Slot(m, k), Entry(0, leaf)), index, index + Pow(level), leaf, o, Of(o, m), p)
  {
    BlockIs(index, level, block * FANOUT + k);
    BlockIs(p, level, block * FANOUT + k);
    Aligned(index, level);
    if !(index <= p < index + Pow(level)) {
      WriteWalkAt(t, Slot(m, k), Entry(0, leaf), o, p);
    }
  }

  lemma {:induction false} PartWalk(t: Tree, m: nat, k: nat, index: nat, nb: nat, leaf: nat, level: nat, block: nat,
                                    o: Loc, p: nat)
    requires Linked(t) && m < |t.nodes| && t.places[m] == Place(level, block) && k < FANOUT && 0 < leaf < NIL
    requires level > 0 && Top(index, level) == block * FANOUT + k
    requires ValidLoc(t, o) && Top(p, Height(t, o)) == Block(t, o)
    requires SetLevel(t, Slot(m, k), index, nb, leaf, level - 1).Done?
    ensures var r := SetLevel(t, Slot(m, k), index, nb, leaf, level - 1);
            Filled(t, r.t, index, r.index, leaf, o, Of(o, m), p)
    decreases level, 0, 0
  {
    BlockIs(index, level, block * FANOUT + k);
    BlockIs(p, level, block * FANOUT + k);
    LevelCursor(t, Slot(m, k), index, nb, leaf, level - 1);
    LevelWalk(t, Slot(m, k), index, nb, leaf, level - 1, o, p);
  }

  // ----- how many nodes are allocated -----

  /** What the slots of a node of level `level` that ends before page `end` still need: nodes along
      the left edge of the range, along its right edge, or both. */
  function Needed(index: nat, nb: nat, level: nat, end: nat): nat {
    if nb == 0 || index == end then 0
    else if LowZero(index, level) then (if index + nb >= end then 0 else level)
    else if index + nb >= end then level
    else 2 * level
  }

  lemma {:induction false} LevelCount(t: Tree, loc: Loc, index: nat, nb: nat, leaf: nat, level: nat)
    requires Linked(t) && ValidLoc(t, loc) && Height(t, loc) == level + 1 && 0 < leaf < NIL
    requires Block(t, loc) == Top(index, level + 1)
    requires SetLevel(t, loc, index, nb, leaf, level).Done?
    ensures |SetLevel(t, loc, index, nb, leaf, level).t.nodes| <=
            |t.nodes| + 1 + Needed(index, nb, level, Start(Block(t, loc) + 1, level + 1))
    decreases level, FANOUT + 1, 0
  {
    var u, b := Descend(t, loc, level), Block(t, loc);
    DescendLinked(t, loc, level);
    assert LinkedAt(u, loc);
    SlotOf(index, level, b);
    BlockIs(index, level + 1, b);
    SlotsCount(u, EntryAt(u, loc).ptr, Digit(index, level), index, nb, leaf, level, b);
  }

  lemma {:induction false} SlotsCount(t: Tree, m: nat, k: nat, index: nat, nb: nat, leaf: nat, level: nat, block: nat)
    requires Linked(t) && m < |t.nodes| && t.places[m] == Place(level, block) && k <= FANOUT && 0 < leaf < NIL
    requires On(index, nb, level, block, k)
    requires SetSlots(t, m, k, index, nb, leaf, level).Done?
    ensures |SetSlots(t, m, k, index, nb, leaf, level).t.nodes| <=
            |t.nodes| + Needed(index, nb, level, Start(block + 1, level + 1))
    decreases level, FANOUT - k, 1
  {
    if nb > 0 && k < FANOUT {
      SlotLinked(t, m, k, index, nb, leaf, level);
      SlotCursor(t, m, k, index, nb, leaf, level, block);
      SlotCount(t, m, k, index, nb, leaf, level, block);
      var r := SetSlot(t, m, k, index, nb, leaf, level);
      SlotsCount(r.t, m, k + 1, r.index, r.nb, leaf, level, block);
    }
  }

  lemma {:induction false} SlotCount(t: Tree, m: nat, k: nat, index: nat, nb: nat, leaf: nat, level: nat, block: nat)
    requires Linked(t) && m < |t.nodes| && t.places[m] == Place(level, block) && k < FANOUT && 0 < leaf < NIL
    requires nb > 0 && Top(index, level) == block * FANOUT + k
    requires SetSlot(t, m, k, index, nb, leaf, level).Done?
    ensures var r := SetSlot(t, m, k, index, nb, leaf, level);
            var end := Start(block + 1, level + 1);
            |r.t.nodes| + Needed(r.index, r.nb, level, end) <= |t.nodes| + Needed(index, nb, level, end)
    decreases level, 0, 1
  {
    if LowZero(index, level) && nb >= Pow(level) {
      WholeNeeds(index, nb, level, block, k);
    } else {
      PartCount(t, m, k, index, nb, leaf, level, block);
    }
  }

  lemma {:induction false} PartCount(t: Tree, m: nat, k: nat, index: nat, nb: nat, leaf: nat, level: nat, block: nat)
    requires Linked(t) && m < |t.nodes| && t.places[m] == Place(level, block) && k < FANOUT && 0 < leaf < NIL
    requires nb > 0 && level > 0 && Top(index, level) == block * FANOUT + k
    requires !(LowZero(index, level) && nb >= Pow(level))
    requires SetLevel(t, Slot(m, k), index, nb, leaf, level - 1).Done?
    ensures var r := SetLevel(t, Slot(m, k), index, nb, leaf, level - 1);
            var end := Start(block + 1, level + 1);
            |r.t.nodes| + Needed(r.index, r.nb, level, end) <= |t.nodes| + Needed(index, nb, level, end)
    decreases level, 0, 0
  {
    var r := SetLevel(t, Slot(m, k), index, nb, leaf, level - 1);
    LevelCursor(t, Slot(m, k), index, nb, leaf, level - 1);
    LevelCount(t, Slot(m, k), index, nb, leaf, level - 1);
    PartNeeds(index, nb, level, block, k, r.index);
  }

  /** Passing a whole slot needs nothing and leaves an aligned rest. */
  lemma WholeNeeds(index: nat, nb: nat, level: nat, block: nat, k: nat)
    requires k < FANOUT && Top(index, level) == block * FANOUT + k && LowZero(index, level) && nb >= Pow(level)
    ensures var end := Start(block + 1, level + 1);
            Needed(index + Pow(level), nb - Pow(level), level, end) <= Needed(index, nb, level, end)
  {
    var s := block * FANOUT + k;
    Aligned(index, level);
    BlockIs(index, level, s);
    NextSlot(index, nb, level, block, k, index + Pow(level));
    BlockIs(index + Pow(level), level, s + 1);
    Aligned(index + Pow(level), level);
  }

  /** A slot that is filled in part takes its share of what the node needs. */
  lemma PartNeeds(index: nat, nb: nat, level: nat, block: nat, k: nat, next: nat)
    requires k < FANOUT && Top(index, level) == block * FANOUT + k && level > 0 && nb > 0
    requires !(LowZero(index, level) && nb >= Pow(level))
    requires next == Min(index + nb, Start(block * FANOUT + k + 1, level))
    ensures var end := Start(block + 1, level + 1);
            1 + Needed(index, nb, level - 1, Start(block * FANOUT + k + 1, level)) +
            Needed(next, index + nb - next, level, end) <= Needed(index, nb, level, end)
  {
    var s, end := block * FANOUT + k, Start(block + 1, level + 1);
    NextSlot(index, nb, level, block, k, next);
    BlockIs(index, level, s);
    Aligned(index, level);
    StartDown(block + 1, level);
    StartAdd(s + 1, FANOUT - (k + 1), level);
    if index + nb > next {
      BlockIs(next, level, s + 1);
      Aligned(next, level);
    }
  }

  // ----- a range of unassigned pages never meets a leaf on the way down -----

  /** The pages of the range that belong to the entry are unassigned. */
  ghost predicate Free(t: Tree, loc: Loc, index: nat, nb: nat)
    requires Shaped(t) && ValidLoc(t, loc)
  {
    forall p {:trigger WalkAt(t, loc, p)} ::
      index <= p < index + nb && Top(p, Height(t, loc)) == Block(t, loc) ==> WalkAt(t, loc, p) == 0
  }

  ghost predicate FreeSlots(t: Tree, m: nat, index: nat, nb: nat)
    requires Shaped(t) && m < |t.nodes|
  {
    forall i {:trigger Free(t, Slot(m, i), index, nb)} :: 0 <= i < FANOUT ==> Free(t, Slot(m, i), index, nb)
  }

  lemma {:induction false} LevelDone(t: Tree, loc: Loc, index: nat, nb: nat, leaf: nat, level: nat)
    requires Linked(t) && ValidLoc(t, loc) && Height(t, loc) == level + 1 && 0 < leaf < NIL && nb > 0
    requires Block(t, loc) == Top(index, level + 1) && Free(t, loc, index, nb)
    requires |t.nodes| + 1 + Needed(index, nb, level, Start(Block(t, loc) + 1, level + 1)) <= NIL
    ensures SetLevel(t, loc, index, nb, leaf, level).Done?
    decreases level, FANOUT + 1, 1
  {
    var u, b := Descend(t, loc, level), Block(t, loc);
    DescendLinked(t, loc, level);
    assert LinkedAt(t, loc) && LinkedAt(u, loc);
    assert WalkAt(t, loc, index) == 0;
    SlotOf(index, level, b);
    DescendFree(t, loc, index, nb, level);
    SlotsDone(u, EntryAt(u, loc).ptr, Digit(index, level), index, nb, leaf, level, b);
  }

  lemma DescendFree(t: Tree, loc: Loc, index: nat, nb: nat, level: nat)
    requires Linked(t) && ValidLoc(t, loc) && Height(t, loc) == level + 1 && Free(t, loc, index, nb)
    requires EntryAt(t, loc).skip != 0 && |Descend(t, loc, level).nodes| <= NIL
    ensures var u := Descend(t, loc, level);
            EntryAt(u, loc).ptr < |u.nodes| && FreeSlots(u, EntryAt(u, loc).ptr, index, nb)
  {
    var u, b := Descend(t, loc, level), Block(t, loc);
    DescendLinked(t, loc, level);
    assert LinkedAt(t, loc) && LinkedAt(u, loc);
    var m := EntryAt(u, loc).ptr;
    forall i | 0 <= i < FANOUT
      ensures Free(u, Slot(m, i), index, nb)
    {
      forall p | index <= p < index + nb && Top(p, level) == b * FANOUT + i
        ensures WalkAt(u, Slot(m, i), p) == 0
      {
        assert Top(p, level + 1) == b;
        assert WalkAt(t, loc, p) == 0;
        DescendWalk(t, loc, level, loc, p);
        WalkDown(u, loc, m, p);
      }
    }
  }

  lemma {:induction false} SlotsDone(t: Tree, m: nat, k: nat, index: nat, nb: nat, leaf: nat, level: nat, block: nat)
    requires Linked(t) && m < |t.nodes| && t.places[m] == Place(level, block) && k <= FANOUT && 0 < leaf < NIL
    requires On(index, nb, level, block, k) && FreeSlots(t, m, index, nb)
    requires |t.nodes| + Needed(index, nb, level, Start(block + 1, level + 1)) <= NIL
    ensures SetSlots(t, m, k, index, nb, leaf, level).Done?
    decreases level, FANOUT - k, 1
  {
    if nb > 0 && k < FANOUT {
      SlotDone(t, m, k, index, nb, leaf, level, block);
      SlotLinked(t, m, k, index, nb, leaf, level);
      SlotCursor(t, m, k, index, nb, leaf, level, block);
      SlotCount(t, m, k, index, nb, leaf, level, block);
      SlotFree(t, m, k, index, nb, leaf, level, block);
      var r := SetSlot(t, m, k, index, nb, leaf, level);
      SlotsDone(r.t, m, k + 1, r.index, r.nb, leaf, level, block);
    }
  }

  /** The rest of the range is still unassigned after one round. */
  lemma SlotFree(t: Tree, m: nat, k: nat, index: nat, nb: nat, leaf: nat, level: nat, block: nat)
    requires Linked(t) && m < |t.nodes| && t.places[m] == Place(level, block) && k < FANOUT && 0 < leaf < NIL
    requires Top(index, level) == block * FANOUT + k && FreeSlots(t, m, index, nb)
    requires SetSlot(t, m, k, index, nb, leaf, level).Done?
    ensures var r := SetSlot(t, m, k, index, nb, leaf, level); FreeSlots(r.t, m, r.index, r.nb)
  {
    var r := SetSlot(t, m, k, index, nb, leaf, level);
    SlotLinked(t, m, k, index, nb, leaf, level);
    SlotCursor(t, m, k, index, nb, leaf, level, block);
    forall i | 0 <= i < FANOUT
      ensures Free(r.t, Slot(m, i), r.index, r.nb)
    {
      assert Free(t, Slot(m, i), index, nb);
      forall p | r.index <= p < r.index + r.nb && Top(p, level) == block * FANOUT + i
        ensures WalkAt(r.t, Slot(m, i), p) == 0
      {
        SlotWalk(t, m, k, index, nb, leaf, level, block, Slot(m, i), p);
        assert WalkAt(t, Slot(m, i), p) == 0;
      }
    }
  }

  lemma {:induction false} SlotDone(t: Tree, m: nat, k: nat, index: nat, nb: nat, leaf: nat, level: nat, block: nat)
    requires Linked(t) && m < |t.nodes| && t.places[m] == Place(level, block) && k < FANOUT && 0 < leaf < NIL
    requires nb > 0 && Top(index, level) == block * FANOUT + k && FreeSlots(t, m, index, nb)
    requires |t.nodes| + Needed(index, nb, level, Start(block + 1, level + 1)) <= NIL
    ensures SetSlot(t, m, k, index, nb, leaf, level).Done?
    decreases level, 0, 0
  {
    if !(LowZero(index, level) && nb >= Pow(level)) {
      assert Free(t, Slot(m, k), index, nb);
      PartNeeds(index, nb, level, block, k, Min(index + nb, Start(block * FANOUT + k + 1, level)));
      LevelDone(t, Slot(m, k), index, nb, leaf, level - 1);
    }
  }

  // ----- phys_page_set -----

  /** The section number of page `p` */
  function PageSection(t: Tree, p: nat): nat
    requires Shaped(t)
  {
    WalkAt(t, Root, p)
  }

  function PageSet(t: Tree, index: nat, nb: nat, leaf: nat): SetResult
    requires Shaped(t) && t.levels > 0
  {
    SetLevel(t, Root, index, nb, leaf, t.levels - 1)
  }

  /** phys_page_set of a range of unassigned pages succeeds, uses up the range and allocates at
      most 2 * P_L2_LEVELS - 1 of the 3 * P_L2_LEVELS nodes it has reserved. */
  lemma PageSetDone(t: Tree, index: nat, nb: nat, leaf: nat)
    requires Linked(t) && t.levels > 0 && 0 < leaf < NIL && nb > 0 && index + nb <= Pow(t.levels)
    requires forall p :: index <= p < index + nb ==> PageSection(t, p) == 0
    requires |t.nodes| + 2 * t.levels - 1 <= NIL
    ensures var r := PageSet(t, index, nb, leaf);
            && r.Done? && r.nb == 0 && r.index == index + nb && Linked(r.t) && Grown(t, r.t)
            && |r.t.nodes| <= |t.nodes| + 2 * t.levels - 1
  {
    var level := t.levels - 1;
    BlockIs(index, t.levels, 0);
    assert Free(t, Root, index, nb) by {
      forall p | index <= p < index + nb
        ensures WalkAt(t, Root, p) == 0
      {
        assert PageSection(t, p) == 0;
      }
    }
    LevelDone(t, Root, index, nb, leaf, level);
    LevelLinked(t, Root, index, nb, leaf, level);
    LevelCursor(t, Root, index, nb, leaf, level);
    LevelCount(t, Root, index, nb, leaf, level);
  }

  /** Exactly the pages of the range get the new section. */
  lemma PageSetSections(t: Tree, index: nat, nb: nat, leaf: nat, p: nat)
    requires Linked(t) && t.levels > 0 && 0 < leaf < NIL && nb > 0 && index + nb <= Pow(t.levels)
    requires PageSet(t, index, nb, leaf).Done? && p < Pow(t.levels)
    ensures PageSection(PageSet(t, index, nb, leaf).t, p) == if index <= p < index + nb then leaf else PageSection(t, p)
  {
    BlockIs(index, t.levels, 0);
    BlockIs(p, t.levels, 0);
    LevelCursor(t, Root, index, nb, leaf, t.levels - 1);
    LevelWalk(t, Root, index, nb, leaf, t.levels - 1, Root, p);
  }
}
