/** The radix tree that maps guest-physical pages to section numbers: phys_page_set_level,
    phys_page_set and the walk of phys_page_find in exec.c. */
module PhysTree {
  import opened Basics
  import opened Arith

  // ----- positions in the tree -----

  /** P_L2_SIZE */
  const FANOUT: nat := 512

  /** PHYS_MAP_NODE_NIL, the largest value of a 26-bit field */
  const NIL: nat := 0x3ff_ffff

  /** Pages below one entry of height `l`: 1 << (l * P_L2_BITS) */
  function Pow(l: nat): (r: nat)
    ensures r >= 1
  {
    if l == 0 then 1 else FANOUT * Pow(l - 1)
  }

  /** A page number without its lowest `l` digits: p >> (l * P_L2_BITS) */
  function Top(p: nat, l: nat): nat {
    if l == 0 then p else Top(p, l - 1) / FANOUT
  }

  /** The slot that page `p` takes in a node of level `l` */
  function Digit(p: nat, l: nat): (r: nat)
    ensures r < FANOUT
  {
    Top(p, l) % FANOUT
  }

  /** The first page of the `b`-th block of height `l` */
  function Start(b: nat, l: nat): nat {
    b * Pow(l)
  }

  lemma {:induction false} TopFrom(p: nat, l: nat, b: nat)
    ensures Top(p, l) >= b <==> p >= Start(b, l)
  {
    if l > 0 {
      TopFrom(p, l - 1, FANOUT * b);
      assert Start(b, l) == Start(FANOUT * b, l - 1);
    }
  }

  lemma StartAdd(a: nat, b: nat, l: nat)
    ensures Start(a + b, l) == Start(a, l) + Start(b, l)
  {
  }

  /** A block is an interval of Pow(l) pages. */
  lemma BlockIs(p: nat, l: nat, b: nat)
    ensures Top(p, l) == b <==> Start(b, l) <= p < Start(b + 1, l)
    ensures Start(b + 1, l) == Start(b, l) + Pow(l)
  {
    TopFrom(p, l, b);
    TopFrom(p, l, b + 1);
    StartAdd(b, 1, l);
  }

  lemma StartDown(b: nat, l: nat)
    ensures Start(b, l + 1) == Start(b * FANOUT, l)
  {
  }

  /** p & (Pow(l) - 1) == 0: the lowest `l` digits are zero. */
  predicate LowZero(p: nat, l: nat) {
    l == 0 || (LowZero(p, l - 1) && Digit(p, l - 1) == 0)
  }

  lemma {:induction false} Aligned(p: nat, l: nat)
    ensures LowZero(p, l) <==> p == Start(Top(p, l), l)
  {
    if l > 0 {
      Aligned(p, l - 1);
      AlignedStep(p, l - 1, Top(p, l), Digit(p, l - 1));
    }
  }

  lemma AlignedStep(p: nat, l: nat, b: nat, d: nat)
    requires Top(p, l) == b * FANOUT + d
    ensures p == Start(b, l + 1) <==> p == Start(b * FANOUT + d, l) && d == 0
  {
    StartDown(b, l);
    StartAdd(b * FANOUT, d, l);
    BlockIs(p, l, b * FANOUT + d);
    StartPositive(d, l);
  }

  lemma StartPositive(d: nat, l: nat)
    ensures d > 0 ==> Start(d, l) > 0
  {
  }

  /** The mask test is divisibility. */
  lemma LowZeroDivides(p: nat, l: nat)
    ensures LowZero(p, l) <==> p % Pow(l) == 0
  {
    var b := Top(p, l);
    Aligned(p, l);
    BlockIs(p, l, b);
    ModIs(p, Pow(l), b, p - Start(b, l));
  }

  // ----- the tree -----

  /** PhysPageEntry: skip 0 marks a leaf, whose `ptr` is a section number; otherwise `ptr` is a node. */
  datatype Entry = Entry(skip: nat, ptr: nat)

  /** Where a node belongs: it holds the slots of the `block`-th block of height level + 1.
      The program does not store this; the proofs follow it. */
  datatype Place = Place(level: nat, block: nat)

  /** d->phys_map and d->map.nodes, with P_L2_LEVELS */
  datatype Tree = Tree(levels: nat, root: Entry, nodes: seq<seq<Entry>>, places: seq<Place>)

  /** A pointer to an entry */
  datatype Loc = Root | Slot(node: nat, i: nat)

  ghost predicate Shaped(t: Tree) {
    && |t.places| == |t.nodes|
    && forall n {:trigger t.nodes[n]} :: 0 <= n < |t.nodes| ==> |t.nodes[n]| == FANOUT
  }

  predicate ValidLoc(t: Tree, loc: Loc) {
    loc.Slot? ==> loc.node < |t.nodes| && loc.i < FANOUT
  }

  function EntryAt(t: Tree, loc: Loc): Entry
    requires Shaped(t) && ValidLoc(t, loc)
  {
    match loc
    case Root => t.root
    case Slot(n, i) => t.nodes[n][i]
  }

  function WriteAt(t: Tree, loc: Loc, e: Entry): (r: Tree)
    requires Shaped(t) && ValidLoc(t, loc)
    ensures Shaped(r) && |r.nodes| == |t.nodes| && r.places == t.places && r.levels == t.levels
  {
    match loc
    case Root => t.(root := e)
    case Slot(n, i) => t.(nodes := t.nodes[n := t.nodes[n][i := e]])
  }

  /** The height of an entry: it stands for a block of Pow(height) pages. */
  function Height(t: Tree, loc: Loc): nat
    requires Shaped(t) && ValidLoc(t, loc)
  {
    match loc
    case Root => t.levels
    case Slot(n, i) => t.places[n].level
  }

  function Block(t: Tree, loc: Loc): nat
    requires Shaped(t) && ValidLoc(t, loc)
  {
    match loc
    case Root => 0
    case Slot(n, i) => t.places[n].block * FANOUT + i
  }

  /** The loop of phys_page_find, from entry `e` of height `h`: the section number it ends at */
  function Walk(nodes: seq<seq<Entry>>, e: Entry, h: nat, p: nat): nat
    decreases h
  {
    if e.skip == 0 || h < e.skip then e.ptr
    else if e.ptr == NIL || e.ptr >= |nodes| || |nodes[e.ptr]| != FANOUT then 0
    else Walk(nodes, nodes[e.ptr][Digit(p, h - e.skip)], h - e.skip, p)
  }

  function WalkAt(t: Tree, loc: Loc, p: nat): nat
    requires Shaped(t) && ValidLoc(t, loc)
  {
    Walk(t.nodes, EntryAt(t, loc), Height(t, loc), p)
  }

  // ----- phys_page_set_level -----

  /** Astray: the call runs into a leaf that stands for many pages, or fails an assertion of
      phys_map_node_alloc. */
  datatype SetResult = Done(t: Tree, index: nat, nb: nat) | Astray

  /** phys_map_node_alloc */
  function Alloc(t: Tree, level: nat, block: nat): (r: Tree)
    requires Shaped(t)
    ensures Shaped(r)
  {
    var e := if level == 0 then Entry(0, 0) else Entry(1, NIL);
    t.(nodes := t.nodes + [seq(FANOUT, i => e)], places := t.places + [Place(level, block)])
  }

  /** The first statement of phys_page_set_level: give the entry a node if it has none. */
  function Descend(t: Tree, loc: Loc, level: nat): (r: Tree)
    requires Shaped(t) && ValidLoc(t, loc)
    ensures Shaped(r) && |t.nodes| <= |r.nodes|
  {
    var e := EntryAt(t, loc);
    if e.skip != 0 && e.ptr == NIL then
      WriteAt(Alloc(t, level, Block(t, loc)), loc, e.(ptr := |t.nodes|))
    else t
  }

  /** phys_page_set_level */
  function SetLevel(t: Tree, loc: Loc, index: nat, nb: nat, leaf: nat, level: nat): (r: SetResult)
    requires Shaped(t) && ValidLoc(t, loc)
    ensures r.Done? ==> Shaped(r.t) && |t.nodes| <= |r.t.nodes|
    decreases level, FANOUT + 1, 0
  {
    var u := Descend(t, loc, level);
    var e := EntryAt(u, loc);
    if e.skip == 0 || e.ptr >= |u.nodes| || |u.nodes| > NIL then Astray
    else SetSlots(u, e.ptr, Digit(index, level), index, nb, leaf, level)
  }

  /** The loop of phys_page_set_level, from slot `k` of node `m` */
  function SetSlots(t: Tree, m: nat, k: nat, index: nat, nb: nat, leaf: nat, level: nat): (r: SetResult)
    requires Shaped(t) && m < |t.nodes| && k <= FANOUT
    ensures r.Done? ==> Shaped(r.t) && |t.nodes| <= |r.t.nodes|
    decreases level, FANOUT - k, 1
  {
    if nb == 0 || k == FANOUT then Done(t, index, nb)
    else
      var r := SetSlot(t, m, k, index, nb, leaf, level);
      if r.Astray? then Astray else SetSlots(r.t, m, k + 1, r.index, r.nb, leaf, level)
  }

  /** One round of that loop */
  function SetSlot(t: Tree, m: nat, k: nat, index: nat, nb: nat, leaf: nat, level: nat): (r: SetResult)
    requires Shaped(t) && m < |t.nodes| && k < FANOUT
    ensures r.Done? ==> Shaped(r.t) && |t.nodes| <= |r.t.nodes|
    decreases level, 0, 0
  {
    if LowZero(index, level) && nb >= Pow(level) then
      Done(WriteAt(t, Slot(m, k), Entry(0, leaf)), index + Pow(level), nb - Pow(level))
    else if level == 0 then Astray
    else SetLevel(t, Slot(m, k), index, nb, leaf, level - 1)
  }

  // ----- where the cursor ends -----

  /** Page `index` is below the k-th slot of the node at (level, block), or the range is used up,
      or the node is. */
  predicate At(index: nat, nb: nat, level: nat, block: nat, k: nat) {
    if nb == 0 then true
    else if k == FANOUT then index == Start(block + 1, level + 1)
    else Top(index, level) == block * FANOUT + k
  }

  lemma SlotOf(index: nat, level: nat, block: nat)
    requires Top(index, level + 1) == block
    ensures Top(index, level) == block * FANOUT + Digit(index, level)
  {
  }

  /** Moving past a slot */
  lemma NextSlot(index: nat, nb: nat, level: nat, block: nat, k: nat, next: nat)
    requires k < FANOUT && Top(index, level) == block * FANOUT + k
    requires next == Min(index + nb, Start(block * FANOUT + k + 1, level))
    ensures index <= next && next <= Start(block + 1, level + 1)
    ensures At(next, index + nb - next, level, block, k + 1)
  {
    var s := block * FANOUT + k;
    BlockIs(index, level, s);
    BlockIs(next, level, s + 1);
    StartDown(block + 1, level);
    StartAdd(s + 1, FANOUT - (k + 1), level);
  }

  lemma {:induction false} LevelCursor(t: Tree, loc: Loc, index: nat, nb: nat, leaf: nat, level: nat)
    requires Shaped(t) && ValidLoc(t, loc) && SetLevel(t, loc, index, nb, leaf, level).Done?
    ensures var r := SetLevel(t, loc, index, nb, leaf, level);
            r.index == Min(index + nb, Start(Top(index, level + 1) + 1, level + 1)) && r.index + r.nb == index + nb
    decreases level, FANOUT + 1, 0
  {
    var u := Descend(t, loc, level);
    var b := Top(index, level + 1);
    SlotOf(index, level, b);
    BlockIs(index, level + 1, b);
    SlotsCursor(u, EntryAt(u, loc).ptr, Digit(index, level), index, nb, leaf, level, b);
  }

  lemma {:induction false} SlotsCursor(t: Tree, m: nat, k: nat, index: nat, nb: nat, leaf: nat, level: nat, block: nat)
    requires Shaped(t) && m < |t.nodes| && k <= FANOUT && At(index, nb, level, block, k)
    requires index <= Start(block + 1, level + 1)
    requires SetSlots(t, m, k, index, nb, leaf, level).Done?
    ensures var r := SetSlots(t, m, k, index, nb, leaf, level);
            r.index == Min(index + nb, Start(block + 1, level + 1)) && r.index + r.nb == index + nb
    decreases level, FANOUT - k, 1
  {
    if nb > 0 && k < FANOUT {
      SlotCursor(t, m, k, index, nb, leaf, level, block);
      var r := SetSlot(t, m, k, index, nb, leaf, level);
      SlotsCursor(r.t, m, k + 1, r.index, r.nb, leaf, level, block);
    }
  }

  lemma WholeSlot(index: nat, nb: nat, level: nat, block: nat, k: nat)
    requires k < FANOUT && Top(index, level) == block * FANOUT + k && LowZero(index, level) && nb >= Pow(level)
    ensures index + Pow(level) == Min(index + nb, Start(block * FANOUT + k + 1, level))
    ensures index + Pow(level) <= Start(block + 1, level + 1)
    ensures At(index + Pow(level), nb - Pow(level), level, block, k + 1)
  {
    Aligned(index, level);
    BlockIs(index, level, block * FANOUT + k);
    NextSlot(index, nb, level, block, k, index + Pow(level));
  }

  /** One round moves to the end of the slot or of the range. */
  lemma {:induction false} SlotCursor(t: Tree, m: nat, k: nat, index: nat, nb: nat, leaf: nat, level: nat, block: nat)
    requires Shaped(t) && m < |t.nodes| && k < FANOUT && Top(index, level) == block * FANOUT + k
    requires SetSlot(t, m, k, index, nb, leaf, level).Done?
    ensures var r := SetSlot(t, m, k, index, nb, leaf, level);
            && r.index == Min(index + nb, Start(block * FANOUT + k + 1, level))
            && r.index + r.nb == index + nb && index <= r.index <= Start(block + 1, level + 1)
            && At(r.index, r.nb, level, block, k + 1)
    decreases level, 0, 0
  {
    if LowZero(index, level) && nb >= Pow(level) {
      WholeSlot(index, nb, level, block, k);
    } else {
      var r := SetLevel(t, Slot(m, k), index, nb, leaf, level - 1);
      LevelCursor(t, Slot(m, k), index, nb, leaf, level - 1);
      NextSlot(index, nb, level, block, k, r.index);
      assert SetSlot(t, m, k, index, nb, leaf, level) == r;
    }
  }
}
