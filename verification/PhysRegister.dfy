/** Registering disjoint sections gives the dispatch that the flat list of sections describes. */
module PhysRegister {
  import opened Basics
  import opened PhysTree
  import opened PhysSet
  import opened PhysPage
  import opened PhysDispatch

  // ----- the flat list of sections -----

  /** A byte of a region */
  datatype Target = Target(mr: Region, xlat: nat)

  predicate Contains(s: Section, a: nat) {
    s.addr <= a < s.addr + s.size
  }

  function Where(s: Section, a: nat): Target
    requires Contains(s, a)
  {
    Target(s.mr, s.offset + (a - s.addr))
  }

  /** What the list of sections says about an address, by searching it from the end. */
  function Flat(list: seq<Section>, a: nat): Option<Target> {
    if list == [] then None
    else if Contains(list[|list| - 1], a) then Some(Where(list[|list| - 1], a))
    else Flat(list[..|list| - 1], a)
  }

  lemma FlatAdd(list: seq<Section>, s: Section, a: nat)
    ensures Flat(list + [s], a) == if Contains(s, a) then Some(Where(s, a)) else Flat(list, a)
  {
    assert (list + [s])[..|list|] == list;
  }

  ghost predicate FreeFor(list: seq<Section>, s: Section) {
    forall a: nat {:trigger Flat(list, a)} :: Contains(s, a) ==> Flat(list, a) == None
  }

  // ----- what the dispatch and the list have to do with each other -----

  /** The section number of a page */
  function Num(d: Dispatch, p: nat): nat
    requires Basic(d)
  {
    PageSection(d.tree, p)
  }

  function PageOf(d: Dispatch, a: nat): nat {
    Shift(a, d.bits)
  }

  /** What the page of address `a` leads to agrees with the list about `a`. */
  predicate OnPage(d: Dispatch, list: seq<Section>, a: nat)
    requires Basic(d)
  {
    var i := Num(d, PageOf(d, a));
    && i < |d.sections|
    && match d.sections[i].mr
       case Unassigned => i == 0 && Flat(list, a) == None
       case Guest(_, _, _) => Contains(d.sections[i], a)
       case SubpageIo(k) =>
         && d.sections[i].addr == PageStart(PageOf(d, a), d.bits) && d.sections[i].size == Two(d.bits)
         && InSubpage(d, list, k, a)
  }

  predicate InSubpage(d: Dispatch, list: seq<Section>, k: nat, a: nat)
    requires Basic(d)
  {
    && k < |d.subs| && |d.subs[k].sub| == Two(d.bits) && d.subs[k].base == PageStart(PageOf(d, a), d.bits)
    && var j := d.subs[k].sub[InPage(a, d.bits)];
    && j < |d.sections|
    && if j == 0 then Flat(list, a) == None else d.sections[j].mr.Guest? && Contains(d.sections[j], a)
  }

  /** A section that some page leads to is where all of its own pages lead. */
  predicate HomeAt(d: Dispatch, p: nat, a: nat)
    requires Basic(d)
  {
    var i := Num(d, p);
    0 < i < |d.sections| && Contains(d.sections[i], a) ==> a < ADDRESSES && Num(d, PageOf(d, a)) == i
  }

  /** A registered section agrees with the list, wherever it lies. */
  predicate PieceAt(d: Dispatch, list: seq<Section>, j: nat, a: nat) {
    j < |d.sections| && d.sections[j].mr.Guest? && Contains(d.sections[j], a) ==>
      Flat(list, a) == Some(Where(d.sections[j], a))
  }

  /** A page that leads to a subpage has something in it. */
  ghost predicate UsedAt(d: Dispatch, list: seq<Section>, p: nat)
    requires Basic(d)
  {
    Num(d, p) < |d.sections| && d.sections[Num(d, p)].mr.SubpageIo? ==>
      exists a {:trigger Flat(list, a)} :: PageOf(d, a) == p && Flat(list, a).Some?
  }

  ghost predicate Sized(d: Dispatch) {
    && 1 <= d.bits <= 16 && d.tree.levels == Levels(d.bits)
    && 0 < |d.sections| <= Two(d.bits) && |d.tree.nodes| <= 13 * (|d.sections| - 1)
    && d.sections[0] == Section(Unassigned, 0, ADDRESSES, 0)
  }

  /** Page numbers that no 64-bit address has lead nowhere. */
  predicate BeyondAt(d: Dispatch, p: nat)
    requires Basic(d) && d.bits < 64
  {
    Two(64 - d.bits) <= p < Pow(d.tree.levels) ==> Num(d, p) == 0
  }

  ghost predicate Agrees(d: Dispatch, list: seq<Section>) {
    && Basic(d) && Linked(d.tree) && Sized(d)
    && (forall p: nat {:trigger BeyondAt(d, p)} :: BeyondAt(d, p))
    && (forall a: nat {:trigger OnPage(d, list, a)} :: a < ADDRESSES ==> OnPage(d, list, a))
    && (forall p: nat, a: nat {:trigger HomeAt(d, p, a)} :: p < Pow(d.tree.levels) ==> HomeAt(d, p, a))
    && (forall j: nat, a: nat {:trigger PieceAt(d, list, j, a)} :: PieceAt(d, list, j, a))
  }

  ghost predicate Used(d: Dispatch, list: seq<Section>)
    requires Basic(d)
  {
    forall p: nat {:trigger UsedAt(d, list, p)} :: p < Pow(d.tree.levels) ==> UsedAt(d, list, p)
  }

  ghost predicate Holds(d: Dispatch, list: seq<Section>) {
    Agrees(d, list) && Used(d, list)
  }

  lemma LevelsBounds(bits: nat)
    requires 1 <= bits <= 16
    ensures 6 <= Levels(bits) <= 7 && Two(bits) <= 65536
  {
    TwoMonotone(bits, 16);
    assert Two(8) == 256;
    TwoAdd(8, 8);
  }

  // ----- setting pages -----

  /** Setting pages that lead nowhere succeeds. */
  lemma SetPagesDone(d: Dispatch, list: seq<Section>, index: nat, nb: nat)
    requires Basic(d) && Linked(d.tree) && Sized(d)
    requires nb > 0 && index + nb <= Two(64 - d.bits) && |d.sections| > 1
    requires |d.tree.nodes| <= 13 * (|d.sections| - 2)
    requires forall p :: index <= p < index + nb ==> Num(d, p) == 0
    ensures var r := SetPages(d, index, nb, |d.sections| - 1);
            && r.Some? && Linked(r.value.tree) && Sized(r.value)
            && r.value.sections == d.sections && r.value.subs == d.subs && r.value.bits == d.bits
  {
    LevelsBounds(d.bits);
    LevelsSuffice(d.bits);
    forall p | index <= p < index + nb
      ensures PageSection(d.tree, p) == 0
    {
      assert Num(d, p) == 0;
    }
    PageSetDone(d.tree, index, nb, |d.sections| - 1);
  }

  lemma SetPagesNum(d: Dispatch, index: nat, nb: nat, p: nat)
    requires Basic(d) && Linked(d.tree) && Sized(d)
    requires nb > 0 && index + nb <= Two(64 - d.bits) && |d.sections| > 1
    requires p < Pow(d.tree.levels) && SetPages(d, index, nb, |d.sections| - 1).Some?
    ensures Num(SetPages(d, index, nb, |d.sections| - 1).value, p) ==
            if index <= p < index + nb then |d.sections| - 1 else Num(d, p)
  {
    LevelsBounds(d.bits);
    LevelsSuffice(d.bits);
    PageSetSections(d.tree, index, nb, |d.sections| - 1, p);
  }

  // ----- a new subpage -----

  /** A page of the address space is a page of the tree. */
  lemma PageInTree(d: Dispatch, a: nat)
    requires Sized(d) && a < ADDRESSES
    ensures PageOf(d, a) < Two(64 - d.bits) <= Pow(d.tree.levels)
  {
    PageInSpace(a, d.bits);
    LevelsSuffice(d.bits);
  }

  lemma PageIn(d: Dispatch, p: nat)
    requires Sized(d) && p < Two(64 - d.bits)
    ensures PageStart(p, d.bits) + Two(d.bits) <= ADDRESSES && PageOf(d, PageStart(p, d.bits)) == p
    ensures p < Pow(d.tree.levels)
  {
    PageIs(PageStart(p, d.bits), d.bits, p);
    LevelsSuffice(d.bits);
    PageAdd(p + 1, Two(64 - d.bits) - (p + 1), d.bits);
  }

  /** The state in NewSubpage before the page is set */
  function Prepared(d: Dispatch, p: nat): (r: Dispatch)
    requires Basic(d)
    ensures Basic(r)
  {
    var base := PageStart(p, d.bits);
    d.(subs := d.subs + [Subpage(base, seq(Two(d.bits), x => 0))],
       sections := d.sections + [Section(SubpageIo(|d.subs|), base, Two(d.bits), 0)])
  }

  lemma NewSubpageDone(d: Dispatch, list: seq<Section>, p: nat)
    requires Agrees(d, list) && p < Two(64 - d.bits) && Num(d, p) == 0 && |d.sections| < Two(d.bits)
    ensures var r := NewSubpage(d, PageStart(p, d.bits));
            && r.Some? && Linked(r.value.tree) && Sized(r.value)
            && r.value == Prepared(d, p).(tree := r.value.tree)
            && forall q :: 0 <= q < Pow(d.tree.levels) ==> Num(r.value, q) == if q == p then |d.sections| else Num(d, q)
  {
    PageIn(d, p);
    var e := Prepared(d, p);
    forall q | p <= q < p + 1
      ensures Num(e, q) == 0
    {
    }
    SetPagesDone(e, list, p, 1);
    var r := SetPages(e, p, 1, |d.sections|);
    assert NewSubpage(d, PageStart(p, d.bits)) == r;
    forall q | 0 <= q < Pow(d.tree.levels)
      ensures Num(r.value, q) == if q == p then |d.sections| else Num(d, q)
    {
      SetPagesNum(e, p, 1, q);
      assert Num(e, q) == Num(d, q);
    }
  }

  /** A new subpage says that its page is empty, which it is. */
  lemma NewSubpageAgrees(d: Dispatch, list: seq<Section>, p: nat)
    requires Agrees(d, list) && p < Two(64 - d.bits) && Num(d, p) == 0 && |d.sections| < Two(d.bits)
    ensures var r := NewSubpage(d, PageStart(p, d.bits)); r.Some? && Agrees(r.value, list)
  {
    NewSubpageDone(d, list, p);
    var e := NewSubpage(d, PageStart(p, d.bits)).value;
    PageIn(d, p);
    forall q: nat
      ensures BeyondAt(e, q)
    {
      assert BeyondAt(d, q);
    }
    forall a: nat | a < ADDRESSES
      ensures OnPage(e, list, a)
    {
      assert OnPage(d, list, a);
      PageInTree(d, a);
    }
    forall q: nat, a: nat | q < Pow(e.tree.levels)
      ensures HomeAt(e, q, a)
    {
      assert HomeAt(d, q, a);
      NumIn(d, list, q);
      if a < ADDRESSES {
        PageInTree(d, a);
      }
      NewHome(d, e, e.sections[|d.sections|], p, q, a);
    }
    forall j: nat, a: nat
      ensures PieceAt(e, list, j, a)
    {
      assert PieceAt(d, list, j, a);
    }
  }

  lemma NumIn(d: Dispatch, list: seq<Section>, p: nat)
    requires Agrees(d, list) && p < Pow(d.tree.levels)
    ensures Num(d, p) < |d.sections|
  {
    assert BeyondAt(d, p);
    if p < Two(64 - d.bits) {
      PageIn(d, p);
      assert OnPage(d, list, PageStart(p, d.bits));
    }
  }

  /** One more section, to which page `p` alone leads, and which lies in that page */
  lemma NewHome(d: Dispatch, e: Dispatch, s: Section, p: nat, q: nat, a: nat)
    requires Basic(d) && Basic(e) && Sized(d) && d.bits == e.bits && p < Two(64 - d.bits) && Num(d, q) < |d.sections|
    requires e.sections == d.sections + [s] && s.addr == PageStart(p, d.bits) && s.size == Two(d.bits)
    requires Num(d, p) == 0 && Num(e, p) == |d.sections| && (q != p ==> Num(e, q) == Num(d, q))
    requires PageOf(d, a) != p && a < ADDRESSES ==> Num(e, PageOf(d, a)) == Num(d, PageOf(d, a))
    requires HomeAt(d, q, a)
    ensures HomeAt(e, q, a)
  {
    PageIn(d, p);
    PageIs(a, d.bits, p);
  }

  // ----- a part of a page -----

  /** A section of guest memory inside one page */
  predicate InOnePage(d: Dispatch, s: Section) {
    s.mr.Guest? && s.size > 0 && s.addr < ADDRESSES && InPage(s.addr, d.bits) + s.size <= Two(d.bits)
  }

  /** The addresses of such a section, as offsets in its page */
  lemma PartIs(d: Dispatch, s: Section, a: nat)
    requires InOnePage(d, s)
    ensures Contains(s, a) <==>
            && PageOf(d, a) == PageOf(d, s.addr)
            && InPage(s.addr, d.bits) <= InPage(a, d.bits) < InPage(s.addr, d.bits) + s.size
  {
    PageIs(s.addr, d.bits, PageOf(d, s.addr));
    PageIs(a, d.bits, PageOf(d, s.addr));
  }

  lemma PageStartOnce(p: nat, q: nat, n: nat)
    requires PageStart(p, n) == PageStart(q, n)
    ensures p == q
  {
    PageIs(PageStart(p, n), n, p);
    PageIs(PageStart(q, n), n, q);
  }

  lemma PartAgrees(d: Dispatch, list: seq<Section>, k: nat, s: Section)
    requires Agrees(d, list) && InOnePage(d, s) && FreeFor(list, s) && |d.sections| < Two(d.bits)
    requires Num(d, PageOf(d, s.addr)) < |d.sections|
    requires d.sections[Num(d, PageOf(d, s.addr))].mr == SubpageIo(k)
    ensures var r := RegisterPart(d, k, s); r.Some? && Agrees(r.value, list + [s])
  {
    var e, now := RegisterPart(d, k, s).value, list + [s];
    assert OnPage(d, list, s.addr);
    assert e.tree == d.tree && e.sections == d.sections + [s] && e.bits == d.bits;
    forall q: nat
      ensures BeyondAt(e, q)
    {
      assert BeyondAt(d, q);
    }
    forall a: nat | a < ADDRESSES
      ensures OnPage(e, now, a)
    {
      assert OnPage(d, list, a);
      PartOnPage(d, list, k, s, a);
    }
    forall q: nat, a: nat | q < Pow(e.tree.levels)
      ensures HomeAt(e, q, a)
    {
      assert HomeAt(d, q, a);
      NumIn(d, list, q);
    }
    forall j: nat, a: nat
      ensures PieceAt(e, now, j, a)
    {
      assert PieceAt(d, list, j, a);
      FlatAdd(list, s, a);
    }
  }

  lemma PartOnPage(d: Dispatch, list: seq<Section>, k: nat, s: Section, a: nat)
    requires Basic(d) && InOnePage(d, s) && FreeFor(list, s) && |d.sections| < Two(d.bits)
    requires OnPage(d, list, a) && OnPage(d, list, s.addr)
    requires d.sections[Num(d, PageOf(d, s.addr))].mr == SubpageIo(k)
    ensures OnPage(RegisterPart(d, k, s).value, list + [s], a)
  {
    FlatAdd(list, s, a);
    PartIs(d, s, a);
    var i := Num(d, PageOf(d, a));
    if d.sections[i].mr == SubpageIo(k) {
      PageStartOnce(PageOf(d, a), PageOf(d, s.addr), d.bits);
    }
  }

  lemma PartUsed(d: Dispatch, list: seq<Section>, k: nat, s: Section, q: nat)
    requires Basic(d) && InOnePage(d, s) && RegisterPart(d, k, s).Some? && Num(d, q) < |d.sections|
    requires q == PageOf(d, s.addr) || UsedAt(d, list, q)
    ensures UsedAt(RegisterPart(d, k, s).value, list + [s], q)
  {
    var e := RegisterPart(d, k, s).value;
    if q == PageOf(d, s.addr) {
      FlatAdd(list, s, s.addr);
    } else if d.sections[Num(d, q)].mr.SubpageIo? {
      var a :| PageOf(d, a) == q && Flat(list, a).Some?;
      FlatAdd(list, s, a);
    }
  }

  /** The assertion of register_subpage holds: a page in which the section finds room is empty or
      a subpage. */
  lemma PageNotGuest(d: Dispatch, list: seq<Section>, s: Section)
    requires Agrees(d, list) && InOnePage(d, s) && FreeFor(list, s)
    ensures var i := Num(d, PageOf(d, s.addr));
            && i < |d.sections| && !d.sections[i].mr.Guest?
            && Find(d, PageStart(PageOf(d, s.addr), d.bits)) == i
  {
    var p := PageOf(d, s.addr);
    var i := Num(d, p);
    assert OnPage(d, list, s.addr) && PieceAt(d, list, i, s.addr);
    PageInTree(d, s.addr);
    PageIn(d, p);
    assert Flat(list, s.addr) == None;
  }

  /** The list has something in the page. */
  ghost predicate Taken(bits: nat, list: seq<Section>, p: nat) {
    exists a {:trigger Flat(list, a)} :: Shift(a, bits) == p && Flat(list, a).Some?
  }

  /** How many section numbers a part of a page uses up: one more if its page has no subpage yet */
  ghost function NumbersForPart(bits: nat, list: seq<Section>, s: Section): nat {
    if Taken(bits, list, Shift(s.addr, bits)) then 1 else 2
  }

  /** A page has a subpage just when the list has something in it. */
  lemma SubpageIfTaken(d: Dispatch, list: seq<Section>, s: Section)
    requires Holds(d, list) && InOnePage(d, s) && FreeFor(list, s)
    ensures var i := Num(d, PageOf(d, s.addr));
            i < |d.sections| && (d.sections[i].mr.SubpageIo? <==> Taken(d.bits, list, PageOf(d, s.addr)))
  {
    PageNotGuest(d, list, s);
    PageInTree(d, s.addr);
    var p := PageOf(d, s.addr);
    assert UsedAt(d, list, p);
    if d.sections[Num(d, p)].mr.Unassigned? {
      forall a | PageOf(d, a) == p
        ensures Flat(list, a) == None
      {
        PageInSpace(a, d.bits);
        assert OnPage(d, list, a);
      }
    }
  }

  /** register_subpage adds the part to the list, as long as there are section numbers left. */
  lemma SubpageHolds(d: Dispatch, list: seq<Section>, s: Section)
    requires Holds(d, list) && InOnePage(d, s) && FreeFor(list, s)
    ensures RegisterSubpage(d, s).Some? <==> |d.sections| + NumbersForPart(d.bits, list, s) <= Two(d.bits)
    ensures RegisterSubpage(d, s).Some? ==>
              var e := RegisterSubpage(d, s).value;
              && Holds(e, list + [s]) && e.bits == d.bits
              && |e.sections| == |d.sections| + NumbersForPart(d.bits, list, s)
  {
    PageNotGuest(d, list, s);
    SubpageIfTaken(d, list, s);
    var p := PageOf(d, s.addr);
    match d.sections[Num(d, p)].mr
    case SubpageIo(k) =>
      if |d.sections| < Two(d.bits) {
        PartHolds(d, list, k, s);
      }
    case Unassigned =>
      if |d.sections| < Two(d.bits) {
        PageInTree(d, s.addr);
        assert OnPage(d, list, s.addr);
        NewSubpageDone(d, list, p);
        NewSubpageAgrees(d, list, p);
        var e := NewSubpage(d, PageStart(p, d.bits)).value;
        forall q: nat | q < Pow(e.tree.levels) && q != p
          ensures UsedAt(e, list, q)
        {
          NumIn(d, list, q);
          assert UsedAt(d, list, q);
          UsedSame(d, e, list, q);
        }
        if |e.sections| < Two(d.bits) {
          PartHolds(e, list, |d.subs|, s);
        }
      }
  }

  lemma UsedSame(d: Dispatch, e: Dispatch, list: seq<Section>, q: nat)
    requires Basic(d) && Basic(e) && d.bits == e.bits && UsedAt(d, list, q) && Num(d, q) == Num(e, q) < |d.sections|
    requires d.sections <= e.sections
    ensures UsedAt(e, list, q)
  {
    if d.sections[Num(d, q)].mr.SubpageIo? {
      var a :| PageOf(d, a) == q && Flat(list, a).Some?;
      assert PageOf(e, a) == q;
    }
  }

  lemma PartHolds(d: Dispatch, list: seq<Section>, k: nat, s: Section)
    requires Agrees(d, list) && InOnePage(d, s) && FreeFor(list, s) && |d.sections| < Two(d.bits)
    requires forall q: nat :: q < Pow(d.tree.levels) && q != PageOf(d, s.addr) ==> UsedAt(d, list, q)
    requires Num(d, PageOf(d, s.addr)) < |d.sections|
    requires d.sections[Num(d, PageOf(d, s.addr))].mr == SubpageIo(k)
    ensures var r := RegisterPart(d, k, s);
            r.Some? && Holds(r.value, list + [s]) && r.value.bits == d.bits && |r.value.sections| == |d.sections| + 1
  {
    PartAgrees(d, list, k, s);
    var e := RegisterPart(d, k, s).value;
    forall q: nat | q < Pow(e.tree.levels)
      ensures UsedAt(e, list + [s], q)
    {
      NumIn(d, list, q);
      PartUsed(d, list, k, s, q);
    }
  }

  // ----- whole pages -----

  /** A section of guest memory that consists of whole pages */
  predicate InWholePages(d: Dispatch, s: Section) {
    && s.mr.Guest? && s.size > 0 && s.addr + s.size <= ADDRESSES
    && PageAligned(s.addr, d.bits) && PageAligned(s.size, d.bits)
  }

  predicate HasPage(d: Dispatch, s: Section, p: nat) {
    PageOf(d, s.addr) <= p < PageOf(d, s.addr) + Shift(s.size, d.bits)
  }

  lemma PagesAre(d: Dispatch, s: Section, a: nat)
    requires InWholePages(d, s) && d.bits < 64
    ensures Contains(s, a) <==> HasPage(d, s, PageOf(d, a))
    ensures Shift(s.size, d.bits) > 0 && PageOf(d, s.addr) + Shift(s.size, d.bits) <= Two(64 - d.bits)
  {
    var lo, n := PageOf(d, s.addr), Shift(s.size, d.bits);
    PageAdd(lo, n, d.bits);
    ShiftFrom(a, d.bits, lo);
    ShiftFrom(a, d.bits, lo + n);
    PageInSpace(s.addr + s.size - 1, d.bits);
    ShiftFrom(s.addr + s.size - 1, d.bits, lo + n);
    PageIs(s.addr + s.size - 1, d.bits, lo + n - 1);
  }

  /** Pages that a free section covers lead nowhere. */
  lemma PageIsFree(d: Dispatch, list: seq<Section>, s: Section, p: nat)
    requires Holds(d, list) && InWholePages(d, s) && FreeFor(list, s) && HasPage(d, s, p)
    ensures Num(d, p) == 0
  {
    var a := PageStart(p, d.bits);
    PageIs(a, d.bits, p);
    PagesAre(d, s, a);
    assert Flat(list, a) == None;
    assert OnPage(d, list, a) && PieceAt(d, list, Num(d, p), a);
    PageInTree(d, a);
    assert UsedAt(d, list, p);
    if d.sections[Num(d, p)].mr.SubpageIo? {
      var b :| PageOf(d, b) == p && Flat(list, b).Some?;
      PagesAre(d, s, b);
    }
  }

  lemma MultiDone(d: Dispatch, list: seq<Section>, s: Section)
    requires Holds(d, list) && InWholePages(d, s) && FreeFor(list, s) && |d.sections| < Two(d.bits)
    ensures var r := RegisterMultipage(d, s);
            && r.Some? && Linked(r.value.tree) && Sized(r.value)
            && r.value == d.(tree := r.value.tree, sections := d.sections + [s])
            && forall q: nat :: q < Pow(d.tree.levels) ==>
                                  Num(r.value, q) == if HasPage(d, s, q) then |d.sections| else Num(d, q)
  {
    var lo, n := PageOf(d, s.addr), Shift(s.size, d.bits);
    var e := d.(sections := d.sections + [s]);
    PagesAre(d, s, s.addr);
    forall p | lo <= p < lo + n
      ensures Num(e, p) == 0
    {
      PageIsFree(d, list, s, p);
    }
    SetPagesDone(e, list, lo, n);
    var r := SetPages(e, lo, n, |d.sections|);
    assert RegisterMultipage(d, s) == r;
    forall q: nat | q < Pow(d.tree.levels)
      ensures Num(r.value, q) == if HasPage(d, s, q) then |d.sections| else Num(d, q)
    {
      SetPagesNum(e, lo, n, q);
      assert Num(e, q) == Num(d, q);
    }
  }

  lemma MultiHolds(d: Dispatch, list: seq<Section>, s: Section)
    requires Holds(d, list) && InWholePages(d, s) && FreeFor(list, s) && |d.sections| < Two(d.bits)
    ensures var r := RegisterMultipage(d, s);
            r.Some? && Holds(r.value, list + [s]) && r.value.bits == d.bits && |r.value.sections| == |d.sections| + 1
  {
    MultiDone(d, list, s);
    var e, now := RegisterMultipage(d, s).value, list + [s];
    forall q: nat
      ensures BeyondAt(e, q)
    {
      assert BeyondAt(d, q);
      PagesAre(d, s, s.addr);
    }
    forall a: nat | a < ADDRESSES
      ensures OnPage(e, now, a)
    {
      assert OnPage(d, list, a);
      PageInTree(d, a);
      PagesAre(d, s, a);
      FlatAdd(list, s, a);
    }
    forall q: nat, a: nat | q < Pow(e.tree.levels)
      ensures HomeAt(e, q, a)
    {
      assert HomeAt(d, q, a);
      NumIn(d, list, q);
      MultiHome(d, e, list, s, q, a);
    }
    forall j: nat, a: nat
      ensures PieceAt(e, now, j, a)
    {
      assert PieceAt(d, list, j, a);
      FlatAdd(list, s, a);
    }
    forall q: nat | q < Pow(e.tree.levels)
      ensures UsedAt(e, now, q)
    {
      NumIn(d, list, q);
      assert UsedAt(d, list, q);
      MultiUsed(d, e, list, s, q);
    }
  }

  lemma MultiHome(d: Dispatch, e: Dispatch, list: seq<Section>, s: Section, q: nat, a: nat)
    requires Holds(d, list) && InWholePages(d, s) && FreeFor(list, s) && Basic(e) && d.bits == e.bits
    requires q < Pow(d.tree.levels) && Num(d, q) < |d.sections| && e.sections == d.sections + [s]
    requires forall p: nat :: p < Pow(d.tree.levels) ==>
                                Num(e, p) == if HasPage(d, s, p) then |d.sections| else Num(d, p)
    requires HomeAt(d, q, a)
    ensures HomeAt(e, q, a)
  {
    PagesAre(d, s, a);
    if a < ADDRESSES {
      PageInTree(d, a);
      if HasPage(d, s, PageOf(d, a)) {
        PageIsFree(d, list, s, PageOf(d, a));
      }
    }
  }

  lemma MultiUsed(d: Dispatch, e: Dispatch, list: seq<Section>, s: Section, q: nat)
    requires Basic(d) && Basic(e) && d.bits == e.bits && UsedAt(d, list, q) && Num(d, q) < |d.sections|
    requires e.sections == d.sections + [s] && s.mr.Guest? && (Num(e, q) == |d.sections| || Num(e, q) == Num(d, q))
    ensures UsedAt(e, list + [s], q)
  {
    if Num(e, q) == Num(d, q) && d.sections[Num(d, q)].mr.SubpageIo? {
      var a :| PageOf(d, a) == q && Flat(list, a).Some?;
      FlatAdd(list, s, a);
      assert PageOf(e, a) == q;
    }
  }
}
