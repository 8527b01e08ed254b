/** The physical memory map as the program keeps it: tables that are updated in place. */
module PhysMap {
  import opened Basics
  import opened PhysTree
  import opened PhysSet
  import opened PhysCompact
  import opened PhysPacked
  import opened PhysPage
  import opened PhysDispatch
  import opened PhysRegister
  import opened PhysLookup

  /** The k-th byte from `a` on is the k-th byte from `xlat` on in region `mr`. */
  predicate LiesAt(list: seq<Section>, a: nat, k: nat, mr: Region, xlat: nat) {
    Flat(list, a + k) == Some(Target(mr, xlat + k))
  }

  /** AddressSpaceDispatch and its PhysPageMap; |nodes| is nodes_nb, |sections| is sections_nb. */
  class AddressSpaceDispatch {
    const bits: nat
    const levels: nat
    var root: Entry
    var nodes: seq<seq<Entry>>
    ghost var places: seq<Place>
    var nodesAlloc: nat
    var allocHint: nat
    var sections: seq<Section>
    var subs: seq<Subpage>
    var mru: Option<nat>

    ghost function TreeOf(): Tree
      reads this
    {
      Tree(levels, root, nodes, places)
    }

    ghost function Value(): Dispatch
      reads this
    {
      Dispatch(bits, TreeOf(), sections, subs)
    }

    /** address_space_dispatch_new */
    constructor (bits: nat)
      requires 1 <= bits <= 16
      ensures Value() == Empty(bits) && mru == None && Holds(Value(), [])
    {
      this.bits := bits;
      levels := Levels(bits);
      root := Entry(1, NIL);
      nodes, places, nodesAlloc, allocHint := [], [], 0, 16;
      sections := [Section(Unassigned, 0, ADDRESSES, 0)];
      subs := [];
      mru := None;
      EmptyHolds(bits);
    }

    // ----- nodes -----

    /** phys_map_node_reserve */
    method NodeReserve(n: nat)
      modifies this`nodesAlloc, this`allocHint
      ensures |nodes| + n <= nodesAlloc && old(nodesAlloc) <= nodesAlloc
    {
      if |nodes| + n > nodesAlloc {
        nodesAlloc := if allocHint > |nodes| + n then allocHint else |nodes| + n;
        allocHint := nodesAlloc;
      }
    }

    /** phys_map_node_alloc: its two assertions are preconditions. */
    method NodeAlloc(leaf: bool, ghost level: nat, ghost block: nat) returns (ret: nat)
      requires Shaped(TreeOf()) && leaf == (level == 0)
      requires |nodes| < NIL && |nodes| < nodesAlloc
      modifies this`nodes, this`places
      ensures ret == old(|nodes|) && TreeOf() == Alloc(old(TreeOf()), level, block)
    {
      ret := |nodes|;
      var e := if leaf then Entry(0, 0) else Entry(1, NIL);
      var node := [];
      while |node| < FANOUT
        invariant |node| <= FANOUT && forall i :: 0 <= i < |node| ==> node[i] == e
      {
        node := node + [e];
      }
      nodes := nodes + [node];
      places := places + [Place(level, block)];
      assert node == seq(FANOUT, i => e);
    }

    method Write(loc: Loc, e: Entry)
      requires Shaped(TreeOf()) && ValidLoc(TreeOf(), loc)
      modifies this`root, this`nodes
      ensures TreeOf() == WriteAt(old(TreeOf()), loc, e)
    {
      match loc
      case Root => root := e;
      case Slot(n, i) => nodes := nodes[n := nodes[n][i := e]];
    }

    method Read(loc: Loc) returns (e: Entry)
      requires Shaped(TreeOf()) && ValidLoc(TreeOf(), loc)
      ensures e == EntryAt(TreeOf(), loc)
    {
      match loc
      case Root => e := root;
      case Slot(n, i) => e := nodes[n][i];
    }

    // ----- setting pages -----

    /** The first statements of phys_page_set_level: the node below the entry, allocated if need be */
    method Descend(loc: Loc, level: nat) returns (m: nat)
      requires Shaped(TreeOf()) && ValidLoc(TreeOf(), loc)
      requires var u := PhysTree.Descend(TreeOf(), loc, level);
               |u.nodes| <= NIL && |u.nodes| <= nodesAlloc
      modifies this`root, this`nodes, this`places
      ensures TreeOf() == old(PhysTree.Descend(TreeOf(), loc, level)) && m == EntryAt(TreeOf(), loc).ptr
    {
      var e := Read(loc);
      if e.skip != 0 && e.ptr == NIL {
        var n := NodeAlloc(level == 0, level, Block(TreeOf(), loc));
        Write(loc, e.(ptr := n));
      }
      e := Read(loc);
      m := e.ptr;
    }

    /** phys_page_set_level, with `index` and `nb` passed in and out */
    method SetLevel(loc: Loc, index0: nat, nb0: nat, leaf: nat, level: nat) returns (index: nat, nb: nat)
      requires Shaped(TreeOf()) && ValidLoc(TreeOf(), loc)
      requires var r := PhysTree.SetLevel(TreeOf(), loc, index0, nb0, leaf, level);
               r.Done? && |r.t.nodes| <= nodesAlloc
      modifies this`root, this`nodes, this`places
      ensures Done(TreeOf(), index, nb) == old(PhysTree.SetLevel(TreeOf(), loc, index0, nb0, leaf, level))
      decreases level, 1
    {
      index, nb := index0, nb0;
      ghost var r := PhysTree.SetLevel(TreeOf(), loc, index, nb, leaf, level);
      var m := Descend(loc, level);
      var k: nat := Digit(index, level);
      while nb > 0 && k < FANOUT
        invariant Shaped(TreeOf()) && m < |nodes| && k <= FANOUT
        invariant SetSlots(TreeOf(), m, k, index, nb, leaf, level) == r
        decreases FANOUT - k
      {
        index, nb := SetSlot(m, k, index, nb, leaf, level);
        k := k + 1;
      }
    }

    /** One round of its loop */
    method SetSlot(m: nat, k: nat, index0: nat, nb0: nat, leaf: nat, level: nat) returns (index: nat, nb: nat)
      requires Shaped(TreeOf()) && m < |nodes| && k < FANOUT
      requires var r := PhysTree.SetSlot(TreeOf(), m, k, index0, nb0, leaf, level);
               r.Done? && |r.t.nodes| <= nodesAlloc
      modifies this`root, this`nodes, this`places
      ensures Done(TreeOf(), index, nb) == old(PhysTree.SetSlot(TreeOf(), m, k, index0, nb0, leaf, level))
      decreases level, 0
    {
      var step := Pow(level);
      if LowZero(index0, level) && nb0 >= step {
        Write(Slot(m, k), Entry(0, leaf));
        index, nb := index0 + step, nb0 - step;
      } else {
        index, nb := SetLevel(Slot(m, k), index0, nb0, leaf, level - 1);
      }
    }

    /** phys_page_set: what it reserves is enough, and exactly the pages of the range change. */
    method PageSet(index: nat, nb: nat, leaf: nat)
      requires Linked(TreeOf()) && levels > 0 && 0 < leaf < NIL && nb > 0 && index + nb <= Pow(levels)
      requires forall p :: index <= p < index + nb ==> PageSection(TreeOf(), p) == 0
      requires |nodes| + 2 * levels - 1 <= NIL
      modifies this`root, this`nodes, this`places, this`nodesAlloc, this`allocHint
      ensures PhysSet.PageSet(old(TreeOf()), index, nb, leaf) == Done(TreeOf(), index + nb, 0)
      ensures Linked(TreeOf()) && |nodes| <= old(|nodes|) + 2 * levels - 1
      ensures forall p :: 0 <= p < Pow(levels) ==>
                PageSection(TreeOf(), p) == if index <= p < index + nb then leaf else old(PageSection(TreeOf(), p))
    {
      ghost var t := TreeOf();
      PageSetDone(t, index, nb, leaf);
      NodeReserve(3 * levels);
      var i, n := SetLevel(Root, index, nb, leaf, levels - 1);
      forall p | 0 <= p < Pow(levels)
        ensures PageSection(TreeOf(), p) == if index <= p < index + nb then leaf else PageSection(t, p)
      {
        PageSetSections(t, index, nb, leaf, p);
      }
    }

    // ----- compaction -----

    /** phys_page_compact */
    method Compact(loc: Loc, ghost h: nat)
      requires Loose(TreeOf()) && ValidLoc(TreeOf(), loc) && h == Height(TreeOf(), loc)
      requires LinkedAt(TreeOf(), loc) && Fresh(TreeOf(), h, Block(TreeOf(), loc))
      requires EntryAt(TreeOf(), loc).skip != 0
      modifies this`root, this`nodes
      ensures TreeOf() == PhysCompact.Compact(old(TreeOf()), loc, h)
      decreases h, 1
    {
      ghost var t := TreeOf();
      var e := Read(loc);
      if e.ptr == NIL {
        return;
      }
      var m: nat, valid: nat, last: nat, i: nat := e.ptr, 0, FANOUT, 0;
      ghost var b := Block(t, loc);
      ghost var s := CompactSlots(t, m, 0, 0, FANOUT, h);
      FreshDown(t, m, h - 1, b);
      while i < FANOUT
        invariant Loose(TreeOf()) && places == t.places && |nodes| == |t.nodes| && i <= FANOUT
        invariant FreshFrom(TreeOf(), m, i, h - 1, b)
        invariant CompactSlots(TreeOf(), m, i, valid, last, h) == s
        decreases FANOUT - i
      {
        var x := nodes[m][i];
        if x.ptr != NIL {
          last, valid := i, valid + 1;
          SlotReady(TreeOf(), m, i, h);
          CompactSlot(m, i, h);
        }
        i := i + 1;
      }
      if valid != 1 {
        return;
      }
      SlotsInUse(t, m, 0, 0, FANOUT, h, 0);
      assert last < FANOUT;
      e := Read(loc);
      var child := nodes[m][last];
      Write(loc, if child.skip == 0 then Entry(0, child.ptr) else Entry(e.skip + child.skip, child.ptr));
    }

    /** One round of its loop, for a slot in use */
    method CompactSlot(m: nat, i: nat, ghost h: nat)
      requires Loose(TreeOf()) && m < |nodes| && i < FANOUT && h > 0 && places[m].level == h - 1
      requires FreshFrom(TreeOf(), m, i, h - 1, places[m].block)
      modifies this`root, this`nodes
      ensures TreeOf() == PhysCompact.CompactSlot(old(TreeOf()), m, i, h)
      decreases h, 0
    {
      if nodes[m][i].skip != 0 {
        assert FreshSlot(TreeOf(), m, i, h - 1, places[m].block);
        Compact(Slot(m, i), h - 1);
      }
    }

    /** address_space_dispatch_compact: afterwards every address is found where it was before. */
    method CompactAll(ghost list: seq<Section>)
      requires Holds(Value(), list)
      modifies this`root, this`nodes
      ensures Value() == Compacted(old(Value())) && Loose(TreeOf()) && Packed(TreeOf(), root, levels)
      ensures forall a: nat :: a < ADDRESSES ==> Find(Value(), a) == old(Find(Value(), a))
    {
      ghost var d := Value();
      LevelsBounds(bits);
      LinkedIsLoose(TreeOf());
      CompactAllPacks(TreeOf());
      if root.skip != 0 {
        assert LinkedAt(TreeOf(), Root);
        CompactLoose(TreeOf(), Root, levels);
        Compact(Root, levels);
      }
      forall a: nat | a < ADDRESSES
        ensures Find(Value(), a) == Find(d, a)
      {
        CompactFind(d, list, a);
      }
    }

    // ----- lookup -----

    /** phys_page_find, on a tree that is compacted or not */
    method PageFind(a: nat) returns (r: nat)
      requires Basic(Value()) && Loose(TreeOf())
      requires PageSection(TreeOf(), Shift(a, bits)) < |sections|
      ensures r == Find(Value(), a)
    {
      var lp, i, index := root, levels, Shift(a, bits);
      ghost var loc := Root;
      while lp.skip != 0 && i - lp.skip >= 0
        invariant i >= 0 && ValidLoc(TreeOf(), loc) && lp == EntryAt(TreeOf(), loc) && i == Height(TreeOf(), loc)
        invariant Walk(nodes, lp, i, index) == PageSection(TreeOf(), index)
        decreases i
      {
        assert LooseAt(TreeOf(), loc);
        i := i - lp.skip;
        if lp.ptr == NIL {
          return 0;
        }
        loc := Slot(lp.ptr, Digit(index, i));
        lp := nodes[lp.ptr][Digit(index, i)];
      }
      r := if Covers(sections[lp.ptr], a) then lp.ptr else 0;
    }

    /** The sections in `list` are registered, and the tree may have been compacted since then:
        `d` is the dispatch before that. */
    ghost predicate Serves(d: Dispatch, list: seq<Section>)
      reads this
    {
      && Holds(d, list) && (Value() == d || Value() == Compacted(d)) && Loose(TreeOf())
      && MruOk(Value(), mru)
    }

    lemma Served(d: Dispatch, list: seq<Section>, a: nat)
      requires Serves(d, list) && a < ADDRESSES
      ensures Find(Value(), a) == Find(d, a) && LookupPage(Value(), mru, a) == Find(d, a)
      ensures MruOk(Value(), Some(Find(d, a))) && Answers(Value(), list, a, Resolve(Value(), Find(d, a), a))
      ensures PageSection(TreeOf(), Shift(a, bits)) < |sections|
    {
      CompactFind(d, list, a);
      assert Find(Value(), a) == Find(d, a);
      if Value() == Compacted(d) {
        MruCompacted(d, list, mru, a);
      }
      MruIsFind(d, list, mru, a);
      ResolveAnswers(d, list, a);
      LevelsBounds(bits);
      PageInTree(d, a);
      var w := CompactAllWalk(d.tree, PageOf(d, a));
      NumIn(d, list, w);
      NumIn(d, list, PageOf(d, a));
    }

    /** address_space_lookup_region: the answer does not depend on mru_section. */
    method LookupRegion(a: nat, resolve: bool, ghost d: Dispatch, ghost list: seq<Section>) returns (r: nat)
      requires Serves(d, list) && a < ADDRESSES
      modifies this`mru
      ensures Serves(d, list) && mru == Some(Find(d, a))
      ensures r == if resolve then Resolve(d, Find(d, a), a) else Find(d, a)
      ensures resolve ==> Answers(Value(), list, a, r)
    {
      Served(d, list, a);
      if mru.None? || mru.value == 0 || !Covers(sections[mru.value], a) {
        r := PageFind(a);
        mru := Some(r);
      } else {
        r := mru.value;
      }
      if resolve && sections[r].mr.SubpageIo? {
        InSubpage(d, list, a);
        r := subs[sections[r].mr.k].sub[InPage(a, bits)];
      }
    }

    lemma InSubpage(d: Dispatch, list: seq<Section>, a: nat)
      requires Serves(d, list) && a < ADDRESSES && sections[Find(d, a)].mr.SubpageIo?
      ensures var k := sections[Find(d, a)].mr.k;
              k < |subs| && InPage(a, bits) < |subs[k].sub|
    {
      FindIsNum(d, list, a);
      assert OnPage(d, list, a);
    }

    /** address_space_translate_internal: a stretch of RAM is a stretch of the flat list. */
    method TranslateInternal(a: nat, plen: nat, resolve: bool, ghost d: Dispatch, ghost list: seq<Section>)
      returns (r: nat, xlat: nat, len: nat)
      requires Serves(d, list) && a < ADDRESSES
      modifies this`mru
      ensures Serves(d, list) && r < |sections|
      ensures r == if resolve then Resolve(d, Find(d, a), a) else Find(d, a)
      ensures Contains(sections[r], a) && Target(sections[r].mr, xlat) == Where(sections[r], a)
      ensures var s := sections[r];
              len == if s.mr.Guest? && s.mr.ram then Min(plen, s.addr + s.size - a) else plen
      ensures resolve ==> Answers(Value(), list, a, r)
      ensures resolve && Flat(list, a).Some? ==> Flat(list, a) == Some(Target(sections[r].mr, xlat))
      ensures resolve && sections[r].mr.Guest? && sections[r].mr.ram ==>
                forall k: nat {:trigger LiesAt(list, a, k, sections[r].mr, xlat)} ::
                  k < len ==> LiesAt(list, a, k, sections[r].mr, xlat)
    {
      r := LookupRegion(a, resolve, d, list);
      Translated(d, list, a, r, resolve);
      var s := sections[r];
      var addr := a - s.addr;
      xlat, len := addr + s.offset, plen;
      if s.mr.Guest? && s.mr.ram {
        len := Min(s.size - addr, plen);
        if resolve {
          forall k: nat {:trigger LiesAt(list, a, k, s.mr, xlat)} | k < len
            ensures LiesAt(list, a, k, s.mr, xlat)
          {
            assert Contains(s, a + k);
          }
        }
      }
    }

    lemma Translated(d: Dispatch, list: seq<Section>, a: nat, r: nat, resolve: bool)
      requires Serves(d, list) && a < ADDRESSES
      requires r == if resolve then Resolve(d, Find(d, a), a) else Find(d, a)
      ensures r < |sections| && Contains(sections[r], a)
    {
      Served(d, list, a);
      FindIsNum(d, list, a);
      assert OnPage(d, list, a);
      PageIs(a, bits, PageOf(d, a));
    }

    // ----- registration -----

    /** phys_section_add */
    method SectionAdd(s: Section) returns (n: nat)
      requires Basic(Value()) && |sections| < Two(bits)
      modifies this`sections
      ensures n == old(|sections|) && AddSection(old(Value()), s) == Some(Value())
    {
      n := |sections|;
      sections := sections + [s];
    }

    /** subpage_register */
    method SubpageRegister(k: nat, start: nat, end: nat, section: nat) returns (ret: int)
      requires Basic(Value()) && k < |subs| && |subs[k].sub| == Two(bits) && start <= end
      modifies this`subs
      ensures Value() == FillSubpage(old(Value()), k, start, end + 1 - start, section)
      ensures ret == if start >= Two(bits) || end >= Two(bits) then -1 else 0
    {
      if start >= Two(bits) || end >= Two(bits) {
        return -1;
      }
      ghost var sub := subs[k].sub;
      var idx := start;
      while idx <= end
        invariant start <= idx <= end + 1 && k < |subs| && |subs[k].sub| == |sub|
        invariant subs == old(subs)[k := old(subs)[k].(sub := subs[k].sub)]
        invariant forall x :: 0 <= x < |sub| ==> subs[k].sub[x] == if start <= x < idx then section else sub[x]
      {
        subs := subs[k := subs[k].(sub := subs[k].sub[idx := section])];
        idx := idx + 1;
      }
      ret := 0;
      var fill := x requires 0 <= x < |sub| => if start <= x < start + (end + 1 - start) then section else sub[x];
      assert subs[k].sub == seq(|sub|, fill);
    }

    /** The tree can be walked and the page's section looked up. */
    lemma Findable(list: seq<Section>, a: nat)
      requires Holds(Value(), list) && a < ADDRESSES
      ensures Loose(TreeOf()) && PageSection(TreeOf(), Shift(a, bits)) < |sections|
    {
      LevelsBounds(bits);
      LinkedIsLoose(TreeOf());
      PageInTree(Value(), a);
      NumIn(Value(), list, PageOf(Value(), a));
    }

    /** The branch of register_subpage that creates a subpage */
    method NewSubpage(base: nat, ghost list: seq<Section>) returns (k: nat)
      requires Agrees(Value(), list) && PageAligned(base, bits) && base < ADDRESSES && |sections| < Two(bits)
      requires Num(Value(), Shift(base, bits)) == 0
      modifies this`root, this`nodes, this`places, this`nodesAlloc, this`allocHint, this`sections, this`subs
      ensures k == old(|subs|) && PhysDispatch.NewSubpage(old(Value()), base) == Some(Value())
      ensures Basic(Value()) && |sections| == old(|sections|) + 1 && |subs| == k + 1 && |subs[k].sub| == Two(bits)
    {
      ghost var d, p := Value(), Shift(base, bits);
      LevelsBounds(bits);
      PageInTree(d, base);
      k := |subs|;
      subs := subs + [Subpage(base, seq(Two(bits), x => 0))];
      var n := SectionAdd(Section(SubpageIo(k), base, Two(bits), 0));
      assert TreeOf() == d.tree && PageSection(TreeOf(), p) == 0;
      PageSet(Shift(base, bits), 1, n);
    }

    /** What register_subpage finds in the page of the section */
    lemma Existing(s: Section, list: seq<Section>)
      requires Holds(Value(), list) && InOnePage(Value(), s) && FreeFor(list, s)
      ensures var base := PageStart(Shift(s.addr, bits), bits);
              var i := Find(Value(), base);
              && base < ADDRESSES && PageAligned(base, bits) && i == Num(Value(), Shift(base, bits))
              && match sections[i].mr
                 case Unassigned => i == 0
                 case SubpageIo(k) => k < |subs| && |subs[k].sub| == Two(bits)
                 case Guest(_, _, _) => false
    {
      PageNotGuest(Value(), list, s);
      assert OnPage(Value(), list, s.addr);
      PageIs(s.addr, bits, Shift(s.addr, bits));
      PageIs(PageStart(Shift(s.addr, bits), bits), bits, Shift(s.addr, bits));
    }

    /** register_subpage: its assertion holds. */
    method RegisterSubpage(s: Section, ghost list: seq<Section>)
      requires Holds(Value(), list) && InOnePage(Value(), s) && FreeFor(list, s)
      requires |sections| + NumbersForPart(bits, list, s) <= Two(bits)
      modifies this`root, this`nodes, this`places, this`nodesAlloc, this`allocHint, this`sections, this`subs
      ensures PhysDispatch.RegisterSubpage(old(Value()), s) == Some(Value())
      ensures Holds(Value(), list + [s]) && |sections| == old(|sections|) + NumbersForPart(bits, list, s)
    {
      var base := PageStart(Shift(s.addr, bits), bits);
      SubpageHolds(Value(), list, s);
      Existing(s, list);
      Findable(list, base);
      var existing := PageFind(base);
      assert sections[existing].mr.SubpageIo? || sections[existing].mr == Unassigned;
      var k;
      if !sections[existing].mr.SubpageIo? {
        k := NewSubpage(base, list);
      } else {
        k := sections[existing].mr.k;
      }
      RegisterPart(k, s);
    }

    /** The end of register_subpage */
    method RegisterPart(k: nat, s: Section)
      requires Basic(Value()) && |sections| < Two(bits) && k < |subs| && |subs[k].sub| == Two(bits)
      requires InOnePage(Value(), s)
      modifies this`sections, this`subs
      ensures PhysDispatch.RegisterPart(old(Value()), k, s) == Some(Value())
    {
      var start := InPage(s.addr, bits);
      var end := start + s.size - 1;
      var n := SectionAdd(s);
      var ret := SubpageRegister(k, start, end, n);
    }

    /** register_multipage: its assertion holds. */
    method RegisterMultipage(s: Section, ghost list: seq<Section>)
      requires Holds(Value(), list) && InWholePages(Value(), s) && FreeFor(list, s) && |sections| < Two(bits)
      modifies this`root, this`nodes, this`places, this`nodesAlloc, this`allocHint, this`sections
      ensures PhysDispatch.RegisterMultipage(old(Value()), s) == Some(Value())
      ensures Holds(Value(), list + [s]) && |sections| == old(|sections|) + 1
    {
      ghost var d := Value();
      LevelsBounds(bits);
      LevelsSuffice(bits);
      PagesAre(d, s, s.addr);
      MultiHolds(d, list, s);
      var n := SectionAdd(s);
      var pages := Shift(s.size, bits);
      assert pages > 0;
      forall p | Shift(s.addr, bits) <= p < Shift(s.addr, bits) + pages
        ensures PageSection(TreeOf(), p) == 0
      {
        PageIsFree(d, list, s, p);
        assert Num(d, p) == PageSection(d.tree, p);
      }
      PageSet(Shift(s.addr, bits), pages, n);
    }

    /** flatview_add_to_dispatch: the section is added to the flat list the dispatch stands for. */
    method AddToDispatch(s: Section, ghost list: seq<Section>)
      requires Holds(Value(), list) && Registrable(s) && FreeFor(list, s)
      requires |sections| + NumbersFor(bits, list, s) <= Two(bits)
      modifies this`root, this`nodes, this`places, this`nodesAlloc, this`allocHint, this`sections, this`subs
      ensures Add(old(Value()), s) == Some(Value()) && Holds(Value(), list + [s])
    {
      ghost var d := Value();
      AddHolds(d, list, s);
      var remain, known := s, list;
      if !PageAligned(remain.addr, bits) {
        var n := Min(LeftInPage(remain.addr, bits), remain.size);
        FirstSplit(d, s);
        FreePieces(list, s, n);
        RegisterSubpage(Head(remain, n), list);
        if remain.size == n {
          return;
        }
        PagesElsewhere(d, list, s);
        remain, known := Rest(remain, n), list + [Head(s, n)];
      }
      AddPagesTo(remain, known);
    }

    /** Its second half: whole pages, and the last subpage */
    method AddPagesTo(s: Section, ghost list: seq<Section>)
      requires Holds(Value(), list) && Registrable(s) && PageAligned(s.addr, bits) && FreeFor(list, s)
      requires |sections| + NumbersForPages(bits, list, s) <= Two(bits)
      modifies this`root, this`nodes, this`places, this`nodesAlloc, this`allocHint, this`sections, this`subs
      ensures AddPages(old(Value()), s) == Some(Value())
    {
      if s.size >= Two(bits) {
        var n := WholePages(s.size, bits);
        WholeSplit(Value(), s);
        FreePieces(list, s, n);
        RegisterMultipage(Head(s, n), list);
        if s.size == n {
          return;
        }
        LastElsewhere(Value(), list, s);
        RegisterSubpage(Rest(s, n), list + [Head(s, n)]);
      } else {
        RegisterSubpage(s, list);
      }
    }
  }
}
