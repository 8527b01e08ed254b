/** AddressSpaceDispatch of exec.c: how sections are registered, whole pages in the tree and parts
    of pages in subpages, and how an address is looked up again. */
module PhysDispatch {
  import opened Basics
  import opened PhysTree
  import opened PhysSet
  import opened PhysPage

  /** The memory regions that matter here: io_mem_unassigned, the region of a subpage, any other */
  datatype Region = Unassigned | SubpageIo(k: nat) | Guest(id: nat, ram: bool, readonly: bool)

  /** MemoryRegionSection: `addr` is offset_within_address_space, `offset` offset_within_region. */
  datatype Section = Section(mr: Region, addr: nat, size: nat, offset: nat)

  /** subpage_t */
  datatype Subpage = Subpage(base: nat, sub: seq<nat>)

  /** AddressSpaceDispatch with its PhysPageMap; `bits` is TARGET_PAGE_BITS. */
  datatype Dispatch = Dispatch(bits: nat, tree: Tree, sections: seq<Section>, subs: seq<Subpage>)

  ghost predicate Basic(d: Dispatch) {
    Shaped(d.tree) && d.tree.levels > 0 && |d.sections| > 0
  }

  /** section_covers_addr */
  predicate Covers(s: Section, a: nat) {
    s.size >= ADDRESSES || s.addr <= a < s.addr + s.size
  }

  /** phys_page_find: a section number */
  function Find(d: Dispatch, a: nat): (r: nat)
    requires Basic(d)
    ensures r < |d.sections|
  {
    var i := PageSection(d.tree, Shift(a, d.bits));
    if i < |d.sections| && Covers(d.sections[i], a) then i else 0
  }

  // ----- registration; None when an assertion of the program fails -----

  /** phys_section_add: the new section has number |d.sections|. */
  function AddSection(d: Dispatch, s: Section): (r: Option<Dispatch>)
    requires Basic(d)
    ensures r.Some? ==> Basic(r.value)
  {
    if |d.sections| < Two(d.bits) then Some(d.(sections := d.sections + [s])) else None
  }

  /** phys_page_set on the dispatch's tree */
  function SetPages(d: Dispatch, index: nat, nb: nat, leaf: nat): (r: Option<Dispatch>)
    requires Basic(d)
    ensures r.Some? ==> Basic(r.value)
  {
    var r := PageSet(d.tree, index, nb, leaf);
    if r.Done? && r.t.levels > 0 then Some(d.(tree := r.t)) else None
  }

  /** subpage_register: a range of one page gets section number `j`. */
  function FillSubpage(d: Dispatch, k: nat, start: nat, len: nat, j: nat): (r: Dispatch)
    requires Basic(d)
    ensures Basic(r)
  {
    if k >= |d.subs| || start + len > |d.subs[k].sub| then d
    else
      var sub := d.subs[k].sub;
      d.(subs := d.subs[k := d.subs[k].(sub := seq(|sub|, x requires 0 <= x < |sub| =>
                                                     if start <= x < start + len then j else sub[x]))])
  }

  /** subpage_init, and the section of the subpage itself */
  function NewSubpage(d: Dispatch, base: nat): (r: Option<Dispatch>)
    requires Basic(d)
    ensures r.Some? ==> Basic(r.value)
  {
    var e := d.(subs := d.subs + [Subpage(base, seq(Two(d.bits), x => 0))]);
    var f :- AddSection(e, Section(SubpageIo(|d.subs|), base, Two(d.bits), 0));
    SetPages(f, Shift(base, d.bits), 1, |d.sections|)
  }

  /** register_subpage */
  function RegisterSubpage(d: Dispatch, s: Section): (r: Option<Dispatch>)
    requires Basic(d)
    ensures r.Some? ==> Basic(r.value)
  {
    var base := PageStart(Shift(s.addr, d.bits), d.bits);
    match d.sections[Find(d, base)].mr
    case Guest(_, _, _) => None
    case SubpageIo(k) => RegisterPart(d, k, s)
    case Unassigned =>
      var e :- NewSubpage(d, base);
      RegisterPart(e, |d.subs|, s)
  }

  /** The end of register_subpage, in an existing subpage */
  function RegisterPart(d: Dispatch, k: nat, s: Section): (r: Option<Dispatch>)
    requires Basic(d)
    ensures r.Some? ==> Basic(r.value)
  {
    var e :- AddSection(d, s);
    Some(FillSubpage(e, k, InPage(s.addr, d.bits), s.size, |d.sections|))
  }

  /** register_multipage */
  function RegisterMultipage(d: Dispatch, s: Section): (r: Option<Dispatch>)
    requires Basic(d)
    ensures r.Some? ==> Basic(r.value)
  {
    var e :- AddSection(d, s);
    var pages := Shift(s.size, d.bits);
    if pages == 0 then None else SetPages(e, Shift(s.addr, d.bits), pages, |d.sections|)
  }

  /** The first `n` bytes of a section, and the rest */
  function Head(s: Section, n: nat): Section {
    s.(size := n)
  }

  function Rest(s: Section, n: nat): Section
    requires n <= s.size
  {
    Section(s.mr, s.addr + n, s.size - n, s.offset + n)
  }

  /** flatview_add_to_dispatch */
  function Add(d: Dispatch, s: Section): (r: Option<Dispatch>)
    requires Basic(d)
    ensures r.Some? ==> Basic(r.value)
  {
    if PageAligned(s.addr, d.bits) then AddPages(d, s)
    else
      var n := Min(LeftInPage(s.addr, d.bits), s.size);
      var e :- RegisterSubpage(d, Head(s, n));
      if n == s.size then Some(e) else AddPages(e, Rest(s, n))
  }

  /** flatview_add_to_dispatch after the first subpage */
  function AddPages(d: Dispatch, s: Section): (r: Option<Dispatch>)
    requires Basic(d)
    ensures r.Some? ==> Basic(r.value)
  {
    if s.size >= Two(d.bits) then
      var n := WholePages(s.size, d.bits);
      var e :- RegisterMultipage(d, Head(s, n));
      if n == s.size then Some(e) else RegisterSubpage(e, Rest(s, n))
    else RegisterSubpage(d, s)
  }

  /** TARGET_PAGE_ALIGN(a) - a, for an address inside a page */
  function LeftInPage(a: nat, n: nat): nat {
    Two(n) - InPage(a, n)
  }

  /** size & -page_size */
  function WholePages(size: nat, n: nat): (r: nat)
    ensures r <= size
  {
    PageIs(size, n, Shift(size, n));
    PageStart(Shift(size, n), n)
  }

  /** address_space_dispatch_new */
  function Empty(bits: nat): (r: Dispatch)
    requires bits < 64
    ensures Basic(r)
  {
    Dispatch(bits, Tree(Levels(bits), Entry(1, NIL), [], []), [Section(Unassigned, 0, ADDRESSES, 0)], [])
  }

  /** All sections of a flat view, one after the other */
  function AddAll(d: Dispatch, list: seq<Section>): (r: Option<Dispatch>)
    requires Basic(d)
    ensures r.Some? ==> Basic(r.value)
  {
    if list == [] then Some(d)
    else
      var e :- AddAll(d, list[..|list| - 1]);
      Add(e, list[|list| - 1])
  }

  // ----- lookup -----

  /** Subpage resolution at the end of address_space_lookup_region */
  function Resolve(d: Dispatch, i: nat, a: nat): nat
    requires i < |d.sections|
  {
    match d.sections[i].mr
    case SubpageIo(k) =>
      var x := InPage(a, d.bits);
      if k < |d.subs| && x < |d.subs[k].sub| then d.subs[k].sub[x] else 0
    case _ => i
  }

  /** address_space_lookup_region before resolution: the section number, which is also what
      mru_section is set to.  `mru` is what earlier lookups left there. */
  function LookupPage(d: Dispatch, mru: Option<nat>, a: nat): nat
    requires Basic(d)
  {
    if mru.None? || mru.value == 0 || mru.value >= |d.sections| || !Covers(d.sections[mru.value], a) then Find(d, a)
    else mru.value
  }
}
