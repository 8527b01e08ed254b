/** The physical memory map as a whole: after any disjoint sections have been registered, lookup
    -- through the tree, compacted or not, with any remembered section -- answers what a search of
    the flat list of sections answers. */
module PhysLookup {
  import opened Basics
  import opened PhysTree
  import opened PhysSet
  import opened PhysCompact
  import opened PhysPage
  import opened PhysDispatch
  import opened PhysRegister

  // ----- flatview_add_to_dispatch -----

  /** What a flat view registers: a non-empty part of the address space */
  predicate Registrable(s: Section) {
    s.mr.Guest? && s.size > 0 && s.addr + s.size <= ADDRESSES
  }

  /** Only what the list says about addresses matters. */
  lemma SameFlat(d: Dispatch, list: seq<Section>, other: seq<Section>)
    requires Holds(d, list) && forall a: nat :: Flat(list, a) == Flat(other, a)
    ensures Holds(d, other)
  {
    forall a: nat | a < ADDRESSES
      ensures OnPage(d, other, a)
    {
      assert OnPage(d, list, a) && Flat(list, a) == Flat(other, a);
    }
    forall j: nat, a: nat
      ensures PieceAt(d, other, j, a)
    {
      assert PieceAt(d, list, j, a) && Flat(list, a) == Flat(other, a);
    }
    forall p: nat | p < Pow(d.tree.levels)
      ensures UsedAt(d, other, p)
    {
      assert UsedAt(d, list, p);
      if Num(d, p) < |d.sections| && d.sections[Num(d, p)].mr.SubpageIo? {
        var a :| PageOf(d, a) == p && Flat(list, a).Some?;
        assert Flat(list, a) == Flat(other, a);
      }
    }
  }

  /** A section registered in two pieces is a section registered. */
  lemma Pieces(d: Dispatch, list: seq<Section>, s: Section, n: nat)
    requires n <= s.size && Holds(d, list + [Head(s, n)] + [Rest(s, n)])
    ensures Holds(d, list + [s])
  {
    forall a: nat
      ensures Flat(list + [Head(s, n)] + [Rest(s, n)], a) == Flat(list + [s], a)
    {
      FlatAdd(list, s, a);
      FlatAdd(list, Head(s, n), a);
      FlatAdd(list + [Head(s, n)], Rest(s, n), a);
    }
    SameFlat(d, list + [Head(s, n)] + [Rest(s, n)], list + [s]);
  }

  lemma FreePieces(list: seq<Section>, s: Section, n: nat)
    requires n <= s.size && FreeFor(list, s)
    ensures FreeFor(list, Head(s, n)) && FreeFor(list + [Head(s, n)], Rest(s, n))
  {
    forall a: nat | Contains(Rest(s, n), a)
      ensures Flat(list + [Head(s, n)], a) == None
    {
      FlatAdd(list, Head(s, n), a);
      assert Contains(s, a);
    }
  }

  /** The whole pages of an aligned section, and what is left of it */
  lemma WholeSplit(d: Dispatch, s: Section)
    requires Registrable(s) && PageAligned(s.addr, d.bits) && s.size >= Two(d.bits)
    ensures var n := WholePages(s.size, d.bits);
            && n <= s.size && InWholePages(d, Head(s, n))
            && (n < s.size ==> InOnePage(d, Rest(s, n)))
  {
    var k := Shift(s.size, d.bits);
    var n := WholePages(s.size, d.bits);
    PageIs(s.size, d.bits, k);
    ShiftFrom(s.size, d.bits, 1);
    PageAdd(k, 0, d.bits);
    PageIs(n, d.bits, k);
    ShiftSum(s.addr, n, d.bits);
    PageAdd(Shift(s.addr, d.bits), k, d.bits);
    assert n >= 1 by {
      ShiftFrom(n, d.bits, 1);
    }
  }

  /** How many section numbers the whole pages and the last part of a section use up */
  ghost function NumbersForPages(bits: nat, list: seq<Section>, s: Section): nat {
    var n := WholePages(s.size, bits);
    if s.size < Two(bits) then NumbersForPart(bits, list, s)
    else 1 + if n == s.size then 0 else NumbersForPart(bits, list, Rest(s, n))
  }

  /** How many section numbers registering a section uses up */
  ghost function NumbersFor(bits: nat, list: seq<Section>, s: Section): (r: nat)
    ensures 1 <= r <= 5
  {
    if PageAligned(s.addr, bits) then NumbersForPages(bits, list, s)
    else
      var n := Min(LeftInPage(s.addr, bits), s.size);
      NumbersForPart(bits, list, Head(s, n)) + if n == s.size then 0 else NumbersForPages(bits, list, Rest(s, n))
  }

  /** A section in other pages makes no difference to a page. */
  lemma TakenElsewhere(bits: nat, list: seq<Section>, s: Section, p: nat)
    requires forall a: nat {:trigger Contains(s, a)} :: Contains(s, a) ==> Shift(a, bits) != p
    ensures Taken(bits, list + [s], p) <==> Taken(bits, list, p)
  {
    forall a: nat | Shift(a, bits) == p
      ensures Flat(list + [s], a) == Flat(list, a)
    {
      FlatAdd(list, s, a);
      assert !Contains(s, a);
    }
    if Taken(bits, list, p) {
      var a :| Shift(a, bits) == p && Flat(list, a).Some?;
      assert Flat(list + [s], a).Some?;
    }
  }

  /** The last part of a section is in another page than its whole pages. */
  lemma LastElsewhere(d: Dispatch, list: seq<Section>, s: Section)
    requires Registrable(s) && PageAligned(s.addr, d.bits) && s.size >= Two(d.bits) && d.bits < 64
    requires WholePages(s.size, d.bits) < s.size
    ensures var n := WholePages(s.size, d.bits);
            NumbersForPart(d.bits, list + [Head(s, n)], Rest(s, n)) == NumbersForPart(d.bits, list, Rest(s, n))
  {
    var n := WholePages(s.size, d.bits);
    var head, p := Head(s, n), PageOf(d, s.addr + n);
    WholeSplit(d, s);
    PagesAre(d, head, s.addr + n);
    forall a: nat | Contains(head, a)
      ensures Shift(a, d.bits) != p
    {
      PagesAre(d, head, a);
    }
    TakenElsewhere(d.bits, list, head, p);
  }

  lemma AddPagesHolds(d: Dispatch, list: seq<Section>, s: Section)
    requires Holds(d, list) && Registrable(s) && PageAligned(s.addr, d.bits) && FreeFor(list, s)
    ensures AddPages(d, s).Some? <==> |d.sections| + NumbersForPages(d.bits, list, s) <= Two(d.bits)
    ensures AddPages(d, s).Some? ==>
              var e := AddPages(d, s).value;
              && Holds(e, list + [s]) && e.bits == d.bits
              && |e.sections| == |d.sections| + NumbersForPages(d.bits, list, s)
  {
    if s.size < Two(d.bits) {
      SubpageHolds(d, list, s);
    } else if |d.sections| < Two(d.bits) {
      var n := WholePages(s.size, d.bits);
      WholeSplit(d, s);
      FreePieces(list, s, n);
      MultiHolds(d, list, Head(s, n));
      var e := RegisterMultipage(d, Head(s, n)).value;
      if n == s.size {
        assert Head(s, n) == s;
      } else {
        LastElsewhere(d, list, s);
        SubpageHolds(e, list + [Head(s, n)], Rest(s, n));
        if RegisterSubpage(e, Rest(s, n)).Some? {
          Pieces(RegisterSubpage(e, Rest(s, n)).value, list, s, n);
        }
      }
    }
  }

  lemma FirstSplit(d: Dispatch, s: Section)
    requires Registrable(s) && !PageAligned(s.addr, d.bits)
    ensures var n := Min(LeftInPage(s.addr, d.bits), s.size);
            && n <= s.size && InOnePage(d, Head(s, n))
            && (n < s.size ==> Registrable(Rest(s, n)) && PageAligned(Rest(s, n).addr, d.bits))
  {
    var p := Shift(s.addr, d.bits);
    PageIs(s.addr, d.bits, p);
    PageIs(PageStart(p + 1, d.bits), d.bits, p + 1);
  }

  /** The pages behind the first part of a section are other pages. */
  lemma PagesElsewhere(d: Dispatch, list: seq<Section>, s: Section)
    requires Registrable(s) && !PageAligned(s.addr, d.bits) && LeftInPage(s.addr, d.bits) < s.size
    ensures var n := LeftInPage(s.addr, d.bits);
            NumbersForPages(d.bits, list + [Head(s, n)], Rest(s, n)) == NumbersForPages(d.bits, list, Rest(s, n))
  {
    var n, p := LeftInPage(s.addr, d.bits), PageOf(d, s.addr);
    FirstSplit(d, s);
    PageIs(s.addr, d.bits, p);
    var rest := Rest(s, n);
    var k := WholePages(rest.size, d.bits);
    BehindFirst(d, list, s, rest.addr);
    BehindFirst(d, list, s, rest.addr + k);
  }

  lemma BehindFirst(d: Dispatch, list: seq<Section>, s: Section, b: nat)
    requires Registrable(s) && !PageAligned(s.addr, d.bits) && LeftInPage(s.addr, d.bits) < s.size
    requires b >= s.addr + LeftInPage(s.addr, d.bits)
    ensures var q := Shift(b, d.bits);
            Taken(d.bits, list + [Head(s, LeftInPage(s.addr, d.bits))], q) <==> Taken(d.bits, list, q)
  {
    var head, p := Head(s, LeftInPage(s.addr, d.bits)), PageOf(d, s.addr);
    FirstSplit(d, s);
    PageIs(s.addr, d.bits, p);
    ShiftFrom(b, d.bits, p + 1);
    forall a: nat | Contains(head, a)
      ensures Shift(a, d.bits) != Shift(b, d.bits)
    {
      PartIs(d, head, a);
    }
    TakenElsewhere(d.bits, list, head, Shift(b, d.bits));
  }

  /** Registering a section that overlaps none of the registered ones adds it to the flat list; the
      only assertion that can fail is the limit on the number of sections, and it fails exactly when
      fewer numbers are left than the section uses up. */
  lemma AddHolds(d: Dispatch, list: seq<Section>, s: Section)
    requires Holds(d, list) && Registrable(s) && FreeFor(list, s)
    ensures Add(d, s).Some? <==> |d.sections| + NumbersFor(d.bits, list, s) <= Two(d.bits)
    ensures Add(d, s).Some? ==>
              var e := Add(d, s).value;
              Holds(e, list + [s]) && e.bits == d.bits && |e.sections| == |d.sections| + NumbersFor(d.bits, list, s)
  {
    if PageAligned(s.addr, d.bits) {
      AddPagesHolds(d, list, s);
    } else {
      var n := Min(LeftInPage(s.addr, d.bits), s.size);
      FirstSplit(d, s);
      FreePieces(list, s, n);
      SubpageHolds(d, list, Head(s, n));
      var r := RegisterSubpage(d, Head(s, n));
      if r.Some? {
        if n == s.size {
          assert Head(s, n) == s;
        } else {
          PagesElsewhere(d, list, s);
          AddPagesHolds(r.value, list + [Head(s, n)], Rest(s, n));
          if AddPages(r.value, Rest(s, n)).Some? {
            Pieces(AddPages(r.value, Rest(s, n)).value, list, s, n);
          }
        }
      }
    }
  }

  // ----- a list of disjoint sections -----

  ghost predicate Disjoint(list: seq<Section>) {
    forall i, j, a: nat {:trigger Contains(list[i], a), Contains(list[j], a)} ::
      0 <= i < j < |list| && Contains(list[i], a) ==> !Contains(list[j], a)
  }

  /** Flat is search: an address in a section of a disjoint list is found there. */
  lemma {:induction false} FlatFinds(list: seq<Section>, i: nat, a: nat)
    requires Disjoint(list) && i < |list| && Contains(list[i], a)
    ensures Flat(list, a) == Some(Where(list[i], a))
  {
    var n := |list| - 1;
    if i < n {
      assert !Contains(list[n], a);
      FlatFinds(list[..n], i, a);
    }
  }

  lemma {:induction false} FlatMisses(list: seq<Section>, a: nat)
    requires forall i :: 0 <= i < |list| ==> !Contains(list[i], a)
    ensures Flat(list, a) == None
  {
    if list != [] {
      FlatMisses(list[..|list| - 1], a);
    }
  }

  lemma EmptyHolds(bits: nat)
    requires 1 <= bits <= 16
    ensures Holds(Empty(bits), [])
  {
    var d := Empty(bits);
    LevelsBounds(bits);
    forall loc | ValidLoc(d.tree, loc)
      ensures LinkedAt(d.tree, loc)
    {
    }
    forall p: nat
      ensures Num(d, p) == 0
    {
    }
    forall p: nat
      ensures BeyondAt(d, p)
    {
      assert Num(d, p) == 0;
    }
    forall p: nat, a: nat | p < Pow(d.tree.levels)
      ensures HomeAt(d, p, a)
    {
      assert Num(d, p) == 0;
    }
    forall a: nat | a < ADDRESSES
      ensures OnPage(d, [], a)
    {
      assert Num(d, PageOf(d, a)) == 0;
    }
    forall p: nat | p < Pow(d.tree.levels)
      ensures UsedAt(d, [], p)
    {
      assert Num(d, p) == 0;
    }
  }

  lemma LastIsFree(list: seq<Section>, s: Section)
    requires Disjoint(list + [s])
    ensures Disjoint(list) && FreeFor(list, s)
  {
    var all := list + [s];
    assert all[|list|] == s && forall i :: 0 <= i < |list| ==> list[i] == all[i];
    forall a: nat | Contains(s, a)
      ensures Flat(list, a) == None
    {
      FlatMisses(list, a);
    }
    forall i, j, a: nat | 0 <= i < j < |list| && Contains(list[i], a)
      ensures !Contains(list[j], a)
    {
      assert Contains(all[i], a);
    }
  }

  /** How many section numbers a list of sections uses up, registered one after the other */
  ghost function NumbersForAll(bits: nat, list: seq<Section>): nat {
    if list == [] then 0
    else NumbersForAll(bits, list[..|list| - 1]) + NumbersFor(bits, list[..|list| - 1], list[|list| - 1])
  }

  /** Any list of disjoint sections can be registered if and only if there are section numbers enough,
      and the dispatch then stands for the list. */
  lemma {:induction false} AddAllHolds(d: Dispatch, list: seq<Section>)
    requires Holds(d, []) && Disjoint(list) && forall i :: 0 <= i < |list| ==> Registrable(list[i])
    ensures AddAll(d, list).Some? <==> |d.sections| + NumbersForAll(d.bits, list) <= Two(d.bits)
    ensures AddAll(d, list).Some? ==>
              var e := AddAll(d, list).value;
              Holds(e, list) && e.bits == d.bits && |e.sections| == |d.sections| + NumbersForAll(d.bits, list)
  {
    if list != [] {
      var init, s := list[..|list| - 1], list[|list| - 1];
      assert list == init + [s];
      LastIsFree(init, s);
      AddAllHolds(d, init);
      if AddAll(d, init).Some? {
        AddHolds(AddAll(d, init).value, init, s);
      }
    }
  }

  // ----- lookup -----

  /** mru_section points to something an earlier lookup found. */
  ghost predicate MruOk(d: Dispatch, mru: Option<nat>)
    requires Basic(d)
  {
    mru.None? || exists b: nat :: b < ADDRESSES && mru.value == Find(d, b)
  }

  /** The section number `r` is the right answer for address `a`: the unassigned section if the
      list has nothing there, otherwise a registered piece of guest memory around `a` that lies
      where the list says, at `a` and at all of its other addresses. */
  ghost predicate Answers(d: Dispatch, list: seq<Section>, a: nat, r: nat) {
    && r < |d.sections|
    && (Flat(list, a) == None ==> r == 0)
    && (Flat(list, a).Some? ==>
          && d.sections[r].mr.Guest? && Contains(d.sections[r], a)
          && forall b: nat {:trigger Contains(d.sections[r], b)} ::
               Contains(d.sections[r], b) ==> Flat(list, b) == Some(Where(d.sections[r], b)))
  }

  /** What the tree leads to is what phys_page_find returns: the section covers the address. */
  lemma FindIsNum(d: Dispatch, list: seq<Section>, a: nat)
    requires Holds(d, list) && a < ADDRESSES
    ensures Find(d, a) == Num(d, PageOf(d, a))
  {
    assert OnPage(d, list, a);
    PageIs(a, d.bits, PageOf(d, a));
  }

  /** Remembering the last section found never changes an answer. */
  lemma MruIsFind(d: Dispatch, list: seq<Section>, mru: Option<nat>, a: nat)
    requires Holds(d, list) && MruOk(d, mru) && a < ADDRESSES
    ensures LookupPage(d, mru, a) == Find(d, a) && MruOk(d, Some(LookupPage(d, mru, a)))
  {
    FindIsNum(d, list, a);
    if mru.Some? && mru.value != 0 && Covers(d.sections[mru.value], a) {
      var b: nat :| b < ADDRESSES && mru.value == Find(d, b);
      FindIsNum(d, list, b);
      PageInTree(d, b);
      assert HomeAt(d, PageOf(d, b), a);
      assert OnPage(d, list, b);
      NotTooBig(d, list, mru.value, b, a);
    }
  }

  /** A section that covers more than 2^64 bytes covers every address. */
  lemma NotTooBig(d: Dispatch, list: seq<Section>, i: nat, b: nat, a: nat)
    requires Holds(d, list) && 0 < i < |d.sections| && a < ADDRESSES && b < ADDRESSES
    requires Num(d, PageOf(d, b)) == i && Covers(d.sections[i], a)
    ensures Contains(d.sections[i], a)
  {
    var s := d.sections[i];
    PageInTree(d, b);
    assert HomeAt(d, PageOf(d, b), s.addr + s.size - 1);
    assert OnPage(d, list, b);
    LevelsBounds(d.bits);
    assert s.size > 0;
  }

  lemma ResolveAnswers(d: Dispatch, list: seq<Section>, a: nat)
    requires Holds(d, list) && a < ADDRESSES
    ensures Answers(d, list, a, Resolve(d, Find(d, a), a))
  {
    FindIsNum(d, list, a);
    assert OnPage(d, list, a);
    var r := Resolve(d, Find(d, a), a);
    assert r < |d.sections|;
    if d.sections[r].mr.Guest? {
      forall b: nat | Contains(d.sections[r], b)
        ensures Flat(list, b) == Some(Where(d.sections[r], b))
      {
        assert PieceAt(d, list, r, b);
      }
    }
  }

  // ----- after compaction -----

  function Compacted(d: Dispatch): (r: Dispatch)
    requires Basic(d)
    ensures Basic(r)
  {
    d.(tree := CompactAll(d.tree))
  }

  /** Compaction does not change what phys_page_find finds: where it leads a page astray, the
      section it leads to does not cover the page's addresses. */
  lemma CompactFind(d: Dispatch, list: seq<Section>, a: nat)
    requires Holds(d, list) && a < ADDRESSES
    ensures Find(Compacted(d), a) == Find(d, a)
  {
    FindIsNum(d, list, a);
    LevelsBounds(d.bits);
    PageInTree(d, a);
    var p := PageOf(d, a);
    var w := CompactAllWalk(d.tree, p);
    var i := Num(d, w);
    assert Num(Compacted(d), p) == i;
    NumIn(d, list, w);
    assert BeyondAt(d, w) && HomeAt(d, w, a);
    if i != 0 && Covers(d.sections[i], a) {
      PageIn(d, w);
      NotTooBig(d, list, i, PageStart(w, d.bits), a);
    }
  }

  // ----- the main result -----

  /** Register any disjoint sections, compact, then look up any address with whatever an earlier
      lookup remembered: the answer is that of the flat list. */
  lemma LookupIsFlat(bits: nat, list: seq<Section>, mru: Option<nat>, a: nat)
    requires 1 <= bits <= 16 && Disjoint(list) && forall i :: 0 <= i < |list| ==> Registrable(list[i])
    requires a < ADDRESSES && 1 + NumbersForAll(bits, list) <= Two(bits)
    requires AddAll(Empty(bits), list).Some? ==> MruOk(Compacted(AddAll(Empty(bits), list).value), mru)
    ensures AddAll(Empty(bits), list).Some?
    ensures var d := Compacted(AddAll(Empty(bits), list).value);
            var i := LookupPage(d, mru, a);
            && MruOk(d, Some(i)) && i < |d.sections|
            && Answers(d, list, a, Resolve(d, i, a))
  {
    EmptyHolds(bits);
    var e := Empty(bits);
    AddAllHolds(e, list);
    var d := AddAll(e, list).value;
    MruCompacted(d, list, mru, a);
    MruIsFind(d, list, mru, a);
    ResolveAnswers(d, list, a);
    CompactFind(d, list, a);
    assert Find(Compacted(d), a) == LookupPage(d, mru, a);
  }

  lemma MruCompacted(d: Dispatch, list: seq<Section>, mru: Option<nat>, a: nat)
    requires Holds(d, list) && MruOk(Compacted(d), mru) && a < ADDRESSES
    ensures MruOk(d, mru) && LookupPage(Compacted(d), mru, a) == LookupPage(d, mru, a)
  {
    CompactFind(d, list, a);
    if mru.Some? {
      var b: nat :| b < ADDRESSES && mru.value == Find(Compacted(d), b);
      CompactFind(d, list, b);
    }
  }
}
