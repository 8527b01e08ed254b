/** What compaction achieves: no link that a lookup can follow leads to a node with a single slot in
    use, so that every node on the way decides something. */
module PhysPacked {
  import opened PhysTree
  import opened PhysSet
  import opened PhysCompact

  /** Slot `i` is the only one of node `m` that is in use. */
  ghost predicate Only(t: Tree, m: nat, i: nat)
    requires Shaped(t) && m < |t.nodes| && i < FANOUT
  {
    && t.nodes[m][i].ptr != NIL
    && forall j {:trigger t.nodes[m][j]} :: 0 <= j < FANOUT && j != i ==> t.nodes[m][j].ptr == NIL
  }

  ghost predicate Lonely(t: Tree, m: nat)
    requires Shaped(t) && m < |t.nodes|
  {
    exists i :: 0 <= i < FANOUT && Only(t, m, i)
  }

  /** No link that can be followed from entry `e` of height `h` leads to a node with a single slot in
      use. */
  ghost predicate Packed(t: Tree, e: Entry, h: nat)
    requires Shaped(t)
    decreases h
  {
    0 < e.skip <= h && e.ptr < |t.nodes| ==>
      && !Lonely(t, e.ptr)
      && forall i {:trigger Packed(t, t.nodes[e.ptr][i], h - e.skip)} :: 0 <= i < FANOUT ==>
           Packed(t, t.nodes[e.ptr][i], h - e.skip)
  }

  ghost predicate PackedSlot(t: Tree, m: nat, i: nat, h: nat)
    requires Shaped(t) && m < |t.nodes| && i < FANOUT
  {
    Packed(t, t.nodes[m][i], h)
  }

  ghost predicate PackedFrom(t: Tree, m: nat, i: nat, h: nat)
    requires Shaped(t) && m < |t.nodes|
  {
    forall j {:trigger PackedSlot(t, m, j, h)} :: i <= j < FANOUT ==> PackedSlot(t, m, j, h)
  }

  lemma {:induction false} AgreePacked(t: Tree, u: Tree, x: Entry, h: nat, b: nat)
    requires Loose(t) && Shaped(u) && |t.nodes| == |u.nodes| && LooseEntry(t, x, h, b) && AgreeBelow(t, u, h, b)
    requires Packed(t, x, h)
    ensures Packed(u, x, h)
    decreases h
  {
    if 0 < x.skip <= h && x.ptr < |t.nodes| {
      forall i | 0 <= i < FANOUT
        ensures u.nodes[x.ptr][i] == t.nodes[x.ptr][i] && Packed(u, u.nodes[x.ptr][i], h - x.skip)
      {
        var o := Slot(x.ptr, i);
        assert Below(t, o, h, b) && LooseAt(t, o);
        assert EntryAt(u, o) == EntryAt(t, o);
        AgreeUnder(t, u, x.ptr, i, h, b);
        AgreePacked(t, u, EntryAt(t, o), h - x.skip, Block(t, o));
      }
      assert u.nodes[x.ptr] == t.nodes[x.ptr];
      if i :| 0 <= i < FANOUT && Only(u, x.ptr, i) {
        assert Only(t, x.ptr, i);
        assert false;
      }
    }
  }

  lemma AgreeUnder(t: Tree, u: Tree, m: nat, i: nat, h: nat, b: nat)
    requires Loose(t) && Shaped(u) && |t.nodes| == |u.nodes| && AgreeBelow(t, u, h, b)
    requires m < |t.nodes| && i < FANOUT && Under(t.places[m], h, b)
    ensures AgreeBelow(t, u, t.places[m].level, Block(t, Slot(m, i)))
  {
    forall y | ValidLoc(t, y) && Below(t, y, t.places[m].level, Block(t, Slot(m, i)))
      ensures EntryAt(u, y) == EntryAt(t, y)
    {
      UnderSlot(t.places[y.node], t.places[m], i, h, b);
      assert Below(t, y, h, b);
    }
  }

  // ----- counting the slots in use -----

  /** The scan over a node with a single slot in use counts one. */
  lemma {:induction false} OnlyCounted(t: Tree, m: nat, i: nat, valid: nat, last: nat, h: nat, k: nat)
    requires Loose(t) && m < |t.nodes| && i <= FANOUT && h > 0 && t.places[m].level == h - 1
    requires FreshFrom(t, m, i, h - 1, t.places[m].block) && k < FANOUT && Only(t, m, k)
    ensures CompactSlots(t, m, i, valid, last, h).valid == valid + if i <= k then 1 else 0
    decreases FANOUT - i
  {
    if i < FANOUT {
      if i != k {
        OnlyCounted(t, m, i + 1, valid, last, h, k);
      } else {
        var u := CompactSlot(t, m, i, h);
        SlotReady(t, m, i, h);
        SlotInUse(t, m, i, h);
        forall j | 0 <= j < FANOUT && j != k
          ensures u.nodes[m][j].ptr == NIL
        {
          SlotKeepsApart(t, m, i, h, Slot(m, j));
          assert EntryAt(u, Slot(m, j)) == t.nodes[m][j];
        }
        OnlyCounted(u, m, i + 1, valid + 1, i, h, k);
      }
    }
  }

  /** The scan changes neither which slots are in use nor which are not. */
  lemma {:induction false} SlotsNil(t: Tree, m: nat, i: nat, valid: nat, last: nat, h: nat, j: nat)
    requires Loose(t) && m < |t.nodes| && i <= FANOUT && h > 0 && t.places[m].level == h - 1 && j < FANOUT
    requires FreshFrom(t, m, i, h - 1, t.places[m].block)
    ensures CompactSlots(t, m, i, valid, last, h).t.nodes[m][j].ptr == NIL <==> t.nodes[m][j].ptr == NIL
    decreases FANOUT - i
  {
    if i < FANOUT {
      if t.nodes[m][i].ptr == NIL {
        SlotsNil(t, m, i + 1, valid, last, h, j);
      } else {
        var u := CompactSlot(t, m, i, h);
        SlotReady(t, m, i, h);
        if i == j {
          SlotInUse(t, m, i, h);
        } else {
          SlotKeepsApart(t, m, i, h, Slot(m, j));
          assert EntryAt(u, Slot(m, j)) == t.nodes[m][j];
        }
        SlotsNil(u, m, i + 1, valid + 1, i, h, j);
      }
    }
  }

  /** A node that the scan counts more or less than one slot of is not a lonely one afterwards. */
  lemma ScanLonely(t: Tree, m: nat, h: nat)
    requires Loose(t) && m < |t.nodes| && h > 0 && t.places[m].level == h - 1
    requires FreshFrom(t, m, 0, h - 1, t.places[m].block)
    requires CompactSlots(t, m, 0, 0, FANOUT, h).valid != 1
    ensures !Lonely(CompactSlots(t, m, 0, 0, FANOUT, h).t, m)
  {
    var r := CompactSlots(t, m, 0, 0, FANOUT, h).t;
    if k :| 0 <= k < FANOUT && Only(r, m, k) {
      forall j | 0 <= j < FANOUT
        ensures r.nodes[m][j].ptr == NIL <==> t.nodes[m][j].ptr == NIL
      {
        SlotsNil(t, m, 0, 0, FANOUT, h, j);
      }
      assert Only(t, m, k);
      OnlyCounted(t, m, 0, 0, FANOUT, h, k);
    }
  }

  // ----- compaction packs -----

  lemma {:induction false} CompactPacks(t: Tree, loc: Loc, h: nat)
    requires Loose(t) && ValidLoc(t, loc) && h == Height(t, loc) && LinkedAt(t, loc) && Fresh(t, h, Block(t, loc))
    requires EntryAt(t, loc).skip != 0
    ensures var r := Compact(t, loc, h);
            Packed(r, EntryAt(r, loc), h)
    decreases h, FANOUT + 1
  {
    var m := EntryAt(t, loc).ptr;
    if m == NIL {
      assert !(m < |t.nodes|);
    } else {
      FreshDown(t, m, h - 1, Block(t, loc));
      OwnApart(t, loc, m, h);
      SlotsKeepApart(t, m, 0, 0, FANOUT, h, loc);
      SlotsInUse(t, m, 0, 0, FANOUT, h, 0);
      SlotsLoose(t, m, 0, 0, FANOUT, h);
      SlotsPack(t, m, 0, 0, FANOUT, h);
      var s := CompactSlots(t, m, 0, 0, FANOUT, h);
      if s.valid == 1 {
        MergedPacked(s.t, loc, m, s.last, h);
      } else {
        ScanLonely(t, m, h);
        NodePacked(s.t, m, h);
      }
    }
  }

  lemma NodePacked(t: Tree, m: nat, h: nat)
    requires Shaped(t) && m < |t.nodes| && h > 0 && !Lonely(t, m)
    requires PackedFrom(t, m, 0, h - 1)
    ensures Packed(t, Entry(1, m), h)
  {
    forall i | 0 <= i < FANOUT
      ensures Packed(t, t.nodes[m][i], h - 1)
    {
      assert PackedSlot(t, m, i, h - 1);
    }
  }

  lemma MergedPacked(t: Tree, loc: Loc, m: nat, j: nat, h: nat)
    requires Loose(t) && ValidLoc(t, loc) && h == Height(t, loc) && h > 0 && m < |t.nodes| && j < FANOUT
    requires EntryAt(t, loc) == Entry(1, m) && t.places[m] == Place(h - 1, Block(t, loc)) && t.nodes[m][j].ptr != NIL
    requires PackedSlot(t, m, j, h - 1)
    ensures var u := WriteAt(t, loc, Merged(EntryAt(t, loc), t.nodes[m][j]));
            Packed(u, EntryAt(u, loc), h)
  {
    var c := t.nodes[m][j];
    var x := Merged(EntryAt(t, loc), c);
    MergedLoose(t, loc, m, j, h);
    assert Packed(t, c, h - 1);
    if c.skip != 0 {
      assert h - x.skip == (h - 1) - c.skip;
    }
    assert Packed(t, x, h);
    AgreePacked(t, WriteAt(t, loc, x), x, h, Block(t, loc));
  }

  lemma {:induction false} SlotsPack(t: Tree, m: nat, i: nat, valid: nat, last: nat, h: nat)
    requires Loose(t) && m < |t.nodes| && i <= FANOUT && h > 0 && t.places[m].level == h - 1
    requires FreshFrom(t, m, i, h - 1, t.places[m].block)
    ensures PackedFrom(CompactSlots(t, m, i, valid, last, h).t, m, i, h - 1)
    decreases h, FANOUT - i
  {
    if i < FANOUT {
      assert FreshSlot(t, m, i, h - 1, t.places[m].block);
      if t.nodes[m][i].ptr == NIL {
        assert PackedSlot(t, m, i, h - 1);
        SlotsPack(t, m, i + 1, valid, last, h);
        SlotsKeepPacked(t, m, i + 1, valid, last, h, i);
      } else {
        var u := CompactSlot(t, m, i, h);
        SlotReady(t, m, i, h);
        if t.nodes[m][i].skip != 0 {
          CompactPacks(t, Slot(m, i), h - 1);
        }
        assert EntryAt(u, Slot(m, i)) == u.nodes[m][i];
        SlotsPack(u, m, i + 1, valid + 1, i, h);
        SlotsKeepPacked(u, m, i + 1, valid + 1, i, h, i);
      }
    }
  }

  /** Compacting later slots leaves an earlier one packed. */
  lemma SlotsKeepPacked(t: Tree, m: nat, i: nat, valid: nat, last: nat, h: nat, j: nat)
    requires Loose(t) && m < |t.nodes| && j < i <= FANOUT && h > 0 && t.places[m].level == h - 1
    requires FreshFrom(t, m, i, h - 1, t.places[m].block) && PackedSlot(t, m, j, h - 1)
    ensures PackedSlot(CompactSlots(t, m, i, valid, last, h).t, m, j, h - 1)
  {
    var u, b := CompactSlots(t, m, i, valid, last, h).t, t.places[m].block;
    forall o | ValidLoc(t, o) && (o == Slot(m, j) || Below(t, o, h - 1, b * FANOUT + j))
      ensures EntryAt(u, o) == EntryAt(t, o)
    {
      forall k | i <= k < FANOUT
        ensures Apart(t, Slot(m, k), h - 1, o)
      {
      }
      SlotsKeepApart(t, m, i, valid, last, h, o);
    }
    assert LooseAt(t, Slot(m, j));
    assert EntryAt(u, Slot(m, j)) == t.nodes[m][j];
    AgreePacked(t, u, t.nodes[m][j], h - 1, b * FANOUT + j);
  }

  /** After address_space_dispatch_compact no lookup passes through a node with a single slot in use. */
  lemma CompactAllPacks(t: Tree)
    requires Linked(t) && |t.nodes| <= NIL
    ensures Shaped(CompactAll(t)) && Packed(CompactAll(t), CompactAll(t).root, t.levels)
  {
    if t.root.skip != 0 {
      LinkedIsLoose(t);
      assert LinkedAt(t, Root);
      CompactPacks(t, Root, t.levels);
      assert EntryAt(CompactAll(t), Root) == CompactAll(t).root;
    }
  }
}
