/** The list of RAM blocks of exec.c: best-fit placement in the ram_addr_t space, the list kept
    sorted by size, and lookup of a ram address. */
module RamList {
  import opened Basics
  import opened PhysPage

  /** 2^64, and RAM_ADDR_MAX */
  const SPACE: nat := 0x1_0000_0000_0000_0000
  const ADDR_MAX: nat := SPACE - 1

  /** RAMBlock; `len` is max_length. */
  datatype Block = Block(id: nat, offset: nat, len: nat)

  /** ROUND_UP(n, 1 << unit) in 64-bit arithmetic: (n + d - 1) & -d */
  function RoundUp(n: nat, unit: nat): nat {
    PageStart(Shift((n + Two(unit) - 1) % SPACE, unit), unit)
  }

  /** The alignment is BITS_PER_LONG << TARGET_PAGE_BITS; `unit` is its logarithm. */
  predicate IsUnit(unit: nat) {
    unit < 64
  }

  // ----- the invariant of the list -----

  predicate Apart(a: Block, b: Block) {
    a.offset + a.len <= b.offset || b.offset + b.len <= a.offset
  }

  predicate Placed(b: Block, unit: nat) {
    b.len > 0 && PageAligned(b.offset, unit) && b.offset + b.len <= ADDR_MAX
  }

  /** Every block is placed on an alignment boundary and no two overlap. */
  ghost predicate Valid(blocks: seq<Block>, unit: nat) {
    && IsUnit(unit)
    && (forall i :: 0 <= i < |blocks| ==> Placed(blocks[i], unit))
    && (forall i, j :: 0 <= i < j < |blocks| ==> Apart(blocks[i], blocks[j]))
  }

  /** Biggest block first */
  ghost predicate Sorted(blocks: seq<Block>) {
    forall i, j :: 0 <= i < j < |blocks| ==> blocks[i].len >= blocks[j].len
  }

  // ----- gaps -----

  /** Where a block could start after `b` */
  function Candidate(b: Block, unit: nat): nat {
    RoundUp((b.offset + b.len) % SPACE, unit)
  }

  /** The closest block that starts at or after `c`, or the end of the space */
  function NextAfter(blocks: seq<Block>, c: nat): (r: nat)
    ensures r <= ADDR_MAX
  {
    if blocks == [] then ADDR_MAX
    else
      var r := NextAfter(blocks[..|blocks| - 1], c);
      var b := blocks[|blocks| - 1];
      if b.offset >= c then Min(r, b.offset) else r
  }

  lemma {:induction false} NextAfterIs(blocks: seq<Block>, c: nat)
    ensures forall i :: 0 <= i < |blocks| && blocks[i].offset >= c ==> NextAfter(blocks, c) <= blocks[i].offset
    ensures NextAfter(blocks, c) == ADDR_MAX
            || exists i :: 0 <= i < |blocks| && blocks[i].offset == NextAfter(blocks, c) >= c
  {
    if blocks != [] {
      var n := |blocks| - 1;
      NextAfterIs(blocks[..n], c);
      if NextAfter(blocks, c) != ADDR_MAX {
        if NextAfter(blocks, c) == NextAfter(blocks[..n], c) {
          var i :| 0 <= i < n && blocks[..n][i].offset == NextAfter(blocks[..n], c) >= c;
          assert blocks[i].offset == NextAfter(blocks, c);
        } else {
          assert blocks[n].offset == NextAfter(blocks, c);
        }
      }
    }
  }

  /** The gap after the i-th block, in 64-bit arithmetic */
  function Gap(blocks: seq<Block>, i: nat, unit: nat): (r: int)
    requires i < |blocks|
  {
    var c := Candidate(blocks[i], unit);
    NextAfter(blocks, c) - c
  }

  /** Rounding up gives a boundary at or after `n`, or wraps around to zero when there is none. */
  lemma RoundUpIs(n: nat, unit: nat)
    requires IsUnit(unit) && n <= ADDR_MAX
    ensures PageAligned(RoundUp(n, unit), unit)
    ensures RoundUp(n, unit) == 0 || n <= RoundUp(n, unit) <= ADDR_MAX
  {
    var m := n + Two(unit) - 1;
    UnitBound(unit);
    if m < SPACE {
      PageIs(m, unit, Shift(m, unit));
      PageIs(RoundUp(n, unit), unit, Shift(m, unit));
    } else {
      assert m % SPACE == m - SPACE;
      PageIs(m - SPACE, unit, 0);
      PageIs(0, unit, 0);
    }
  }

  lemma UnitBound(unit: nat)
    requires IsUnit(unit)
    ensures 2 * Two(unit) <= SPACE
  {
    TwoMonotone(unit, 63);
    Two64();
  }

  /** It is the first boundary at or after `n`. */
  lemma RoundUpLeast(n: nat, unit: nat, x: nat)
    requires IsUnit(unit) && n <= x <= ADDR_MAX && PageAligned(x, unit)
    ensures RoundUp(n, unit) <= x
  {
    var m, k := n + Two(unit) - 1, Shift(x, unit);
    UnitBound(unit);
    PageIs(x, unit, k);
    if m < SPACE {
      var q := Shift(m, unit);
      ShiftFrom(m, unit, k + 1);
      PageAdd(q, k - q, unit);
    } else {
      assert m % SPACE == m - SPACE;
      PageIs(m - SPACE, unit, 0);
    }
  }

  // ----- find_ram_offset -----

  lemma CandidateIs(b: Block, unit: nat)
    requires IsUnit(unit) && Placed(b, unit)
    ensures var c := Candidate(b, unit); PageAligned(c, unit) && (c == 0 || b.offset + b.len <= c <= ADDR_MAX)
  {
    CandidateAt(b, unit);
    RoundUpIs(b.offset + b.len, unit);
  }

  lemma CandidateAt(b: Block, unit: nat)
    requires b.offset + b.len <= ADDR_MAX
    ensures Candidate(b, unit) == RoundUp(b.offset + b.len, unit)
  {
  }

  lemma CandidateLeast(b: Block, unit: nat, o: Block)
    requires IsUnit(unit) && Placed(b, unit) && Placed(o, unit) && b.offset + b.len <= o.offset
    ensures Candidate(b, unit) <= o.offset
  {
    CandidateAt(b, unit);
    RoundUpLeast(b.offset + b.len, unit, o.offset);
  }

  /** No block lies across the candidate of another. */
  lemma CandidateFree(b: Block, o: Block, unit: nat)
    requires IsUnit(unit) && Placed(b, unit) && Placed(o, unit) && (b == o || Apart(b, o))
    ensures o.offset >= Candidate(b, unit) || o.offset + o.len <= Candidate(b, unit)
  {
    CandidateIs(b, unit);
    if b.offset + b.len <= o.offset {
      CandidateLeast(b, unit, o);
    }
  }

  /** A block that fits into the gap after the i-th block overlaps nothing, even if the rounding
      wrapped around. */
  lemma GapIsFree(blocks: seq<Block>, unit: nat, i: nat, size: nat, j: nat)
    requires Valid(blocks, unit) && i < |blocks| && j < |blocks| && 0 < size <= Gap(blocks, i, unit)
    ensures var c := Candidate(blocks[i], unit);
            PageAligned(c, unit) && c + size <= ADDR_MAX
            && (c + size <= blocks[j].offset || blocks[j].offset + blocks[j].len <= c)
  {
    assert i < j ==> Apart(blocks[i], blocks[j]);
    assert j < i ==> Apart(blocks[j], blocks[i]);
    CandidateIs(blocks[i], unit);
    CandidateFree(blocks[i], blocks[j], unit);
    NextAfterIs(blocks, Candidate(blocks[i], unit));
  }

  /** The offset is the candidate of a block with the tightest gap that fits; None (the program
      gives up) only if no gap fits. */
  ghost predicate BestFit(blocks: seq<Block>, unit: nat, size: nat, offset: Option<nat>) {
    if blocks == [] then offset == Some(0)
    else if offset.None? then forall i :: 0 <= i < |blocks| ==> Gap(blocks, i, unit) < size
    else
      exists i ::
        && 0 <= i < |blocks| && offset.value == Candidate(blocks[i], unit) && size <= Gap(blocks, i, unit)
        && forall j :: 0 <= j < |blocks| && size <= Gap(blocks, j, unit) ==>
                         Gap(blocks, i, unit) <= Gap(blocks, j, unit)
  }

  lemma NextFrom(blocks: seq<Block>, c: nat, i: nat)
    requires i < |blocks| && blocks[i].offset < ADDR_MAX
    ensures c == 0 ==> NextAfter(blocks, c) < ADDR_MAX
  {
    NextAfterIs(blocks, c);
  }

  /** No gap is as large as the whole space. */
  lemma GapBound(blocks: seq<Block>, unit: nat, i: nat)
    requires Valid(blocks, unit) && i < |blocks|
    ensures 0 <= Gap(blocks, i, unit) < ADDR_MAX
  {
    var c := Candidate(blocks[i], unit);
    CandidateIs(blocks[i], unit);
    NextAfterIs(blocks, c);
    NextFrom(blocks, c, i);
  }

  /** The inner loop of find_ram_offset */
  method FindNext(blocks: seq<Block>, candidate: nat) returns (next: nat)
    ensures next == NextAfter(blocks, candidate)
  {
    next := ADDR_MAX;
    for i := 0 to |blocks|
      invariant next == NextAfter(blocks[..i], candidate)
    {
      assert blocks[..i + 1][..i] == blocks[..i];
      if blocks[i].offset >= candidate {
        next := Min(next, blocks[i].offset);
      }
    }
    assert blocks[..|blocks|] == blocks;
  }

  method FindRamOffset(blocks: seq<Block>, unit: nat, size: nat) returns (offset: Option<nat>)
    requires Valid(blocks, unit) && 0 < size <= ADDR_MAX
    ensures BestFit(blocks, unit, size, offset)
  {
    if blocks == [] {
      return Some(0);
    }
    var best: nat, mingap: nat := ADDR_MAX, ADDR_MAX;
    ghost var at: nat := |blocks|;
    for i := 0 to |blocks|
      invariant Chosen(blocks, unit, size, i, best, mingap, at)
    {
      var candidate := Candidate(blocks[i], unit);
      var next := FindNext(blocks, candidate);
      GapBound(blocks, unit, i);
      assert next - candidate == Gap(blocks, i, unit);
      if next - candidate >= size && next - candidate < mingap {
        GapIsFree(blocks, unit, i, size, i);
        best, mingap := candidate, next - candidate;
        at := i;
      }
    }
    offset := if best == ADDR_MAX then None else Some(best);
  }

  /** What the outer loop has found among the first `n` blocks */
  ghost predicate Chosen(blocks: seq<Block>, unit: nat, size: nat, n: nat, best: nat, mingap: nat, at: nat)
    requires n <= |blocks|
  {
    if best == ADDR_MAX then mingap == ADDR_MAX && forall j :: 0 <= j < n ==> Gap(blocks, j, unit) < size
    else
      && at < n && best == Candidate(blocks[at], unit) && mingap == Gap(blocks, at, unit) && mingap >= size
      && forall j :: 0 <= j < n && size <= Gap(blocks, j, unit) ==> mingap <= Gap(blocks, j, unit)
  }

  // ----- ram_block_add and qemu_ram_free -----

  /** The place of a block in a list sorted from biggest to smallest: before the first smaller one */
  function Position(blocks: seq<Block>, len: nat): (i: nat)
    ensures i <= |blocks|
    ensures forall j :: 0 <= j < i ==> blocks[j].len >= len
    ensures i < |blocks| ==> blocks[i].len < len
  {
    if blocks == [] || blocks[0].len < len then 0 else 1 + Position(blocks[1..], len)
  }

  function Inserted(blocks: seq<Block>, b: Block): seq<Block> {
    var i := Position(blocks, b.len);
    blocks[..i] + [b] + blocks[i..]
  }

  function Removed(blocks: seq<Block>, i: nat): seq<Block>
    requires i < |blocks|
  {
    blocks[..i] + blocks[i + 1..]
  }

  lemma BestFitIsFree(blocks: seq<Block>, unit: nat, b: Block)
    requires Valid(blocks, unit) && 0 < b.len <= ADDR_MAX && BestFit(blocks, unit, b.len, Some(b.offset))
    ensures Placed(b, unit) && forall j :: 0 <= j < |blocks| ==> Apart(b, blocks[j])
  {
    PageIs(0, unit, 0);
    if blocks != [] {
      var i :| 0 <= i < |blocks| && b.offset == Candidate(blocks[i], unit) && b.len <= Gap(blocks, i, unit);
      GapIsFree(blocks, unit, i, b.len, i);
      forall j | 0 <= j < |blocks|
        ensures Apart(b, blocks[j])
      {
        GapIsFree(blocks, unit, i, b.len, j);
      }
    }
  }

  /** A best-fit block keeps the list disjoint, aligned and sorted. */
  lemma AddKeeps(blocks: seq<Block>, unit: nat, b: Block)
    requires Valid(blocks, unit) && Sorted(blocks) && 0 < b.len <= ADDR_MAX
    requires BestFit(blocks, unit, b.len, Some(b.offset))
    ensures var r := Inserted(blocks, b);
            Valid(r, unit) && Sorted(r) && multiset(r) == multiset(blocks) + multiset{b}
  {
    BestFitIsFree(blocks, unit, b);
    InsertedPlaced(blocks, unit, b);
    InsertedApart(blocks, unit, b);
    InsertedSorted(blocks, b);
    InsertedAll(blocks, b);
  }

  lemma InsertedAll(blocks: seq<Block>, b: Block)
    ensures multiset(Inserted(blocks, b)) == multiset(blocks) + multiset{b}
  {
    var p := Position(blocks, b.len);
    assert blocks == blocks[..p] + blocks[p..];
  }

  lemma InsertedPlaced(blocks: seq<Block>, unit: nat, b: Block)
    requires Valid(blocks, unit) && Placed(b, unit)
    ensures var r := Inserted(blocks, b); forall j :: 0 <= j < |r| ==> Placed(r[j], unit)
  {
    var p := Position(blocks, b.len);
    var r := Inserted(blocks, b);
    forall j | 0 <= j < |r|
      ensures Placed(r[j], unit)
    {
      assert r[j] == if j < p then blocks[j] else if j == p then b else blocks[j - 1];
    }
  }

  lemma InsertedApart(blocks: seq<Block>, unit: nat, b: Block)
    requires Valid(blocks, unit) && forall j :: 0 <= j < |blocks| ==> Apart(b, blocks[j])
    ensures var r := Inserted(blocks, b); forall i, j :: 0 <= i < j < |r| ==> Apart(r[i], r[j])
  {
    var p := Position(blocks, b.len);
    var r := Inserted(blocks, b);
    forall i, j | 0 <= i < j < |r|
      ensures Apart(r[i], r[j])
    {
      var x, y := if i > p then i - 1 else i, if j > p then j - 1 else j;
      if i == p {
        assert r[j] == blocks[y];
      } else if j == p {
        assert r[i] == blocks[x];
      } else {
        assert r[i] == blocks[x] && r[j] == blocks[y] && x < y;
      }
    }
  }

  lemma InsertedSorted(blocks: seq<Block>, b: Block)
    requires Sorted(blocks)
    ensures Sorted(Inserted(blocks, b))
  {
  }

  lemma RemoveKeeps(blocks: seq<Block>, unit: nat, i: nat)
    requires Valid(blocks, unit) && Sorted(blocks) && i < |blocks|
    ensures Valid(Removed(blocks, i), unit) && Sorted(Removed(blocks, i))
    ensures multiset(Removed(blocks, i)) == multiset(blocks) - multiset{blocks[i]}
  {
    var r := Removed(blocks, i);
    assert blocks == blocks[..i] + [blocks[i]] + blocks[i + 1..];
    forall j | 0 <= j < |r|
      ensures Placed(r[j], unit)
    {
      assert r[j] == blocks[if j < i then j else j + 1];
    }
    forall j, k | 0 <= j < k < |r|
      ensures Apart(r[j], r[k]) && r[j].len >= r[k].len
    {
      assert r[j] == blocks[if j < i then j else j + 1] && r[k] == blocks[if k < i then k else k + 1];
    }
  }

  // ----- any sequence of additions and removals -----

  datatype Op = Add(id: nat, size: nat) | Free(i: nat)

  ghost predicate Step(op: Op, s: seq<Block>, t: seq<Block>, unit: nat) {
    match op
    case Add(id, size) =>
      0 < size <= ADDR_MAX
      && exists offset :: BestFit(s, unit, size, Some(offset)) && t == Inserted(s, Block(id, offset, size))
    case Free(i) => i < |s| && t == Removed(s, i)
  }

  /** After any sequence of additions and removals the live blocks are disjoint and aligned. */
  lemma {:induction false} RunValid(ops: seq<Op>, states: seq<seq<Block>>, unit: nat)
    requires IsUnit(unit) && |states| == |ops| + 1 && states[0] == []
    requires forall k :: 0 <= k < |ops| ==> Step(ops[k], states[k], states[k + 1], unit)
    ensures Valid(states[|ops|], unit) && Sorted(states[|ops|])
  {
    if ops != [] {
      var n := |ops| - 1;
      RunValid(ops[..n], states[..n + 1], unit);
      assert Step(ops[n], states[n], states[n + 1], unit);
      match ops[n]
      case Add(id, size) =>
        var offset :| BestFit(states[n], unit, size, Some(offset))
                      && states[n + 1] == Inserted(states[n], Block(id, offset, size));
        AddKeeps(states[n], unit, Block(id, offset, size));
      case Free(i) =>
        RemoveKeeps(states[n], unit, i);
    }
  }

  // ----- qemu_get_ram_block -----

  /** addr - offset < len, in 64-bit unsigned arithmetic */
  predicate Has(b: Block, addr: nat) {
    (addr - b.offset) % SPACE < b.len
  }

  lemma HasIs(b: Block, addr: nat)
    requires addr < SPACE && b.offset + b.len <= ADDR_MAX
    ensures Has(b, addr) <==> b.offset <= addr < b.offset + b.len
  {
  }

  /** The linear scan: the first block that has the address */
  function Scan(blocks: seq<Block>, addr: nat): Option<Block> {
    if blocks == [] then None
    else if Has(blocks[0], addr) then Some(blocks[0])
    else Scan(blocks[1..], addr)
  }

  /** At most one live block has an address, so that any block that has it is the answer. */
  lemma {:induction false} ScanUnique(blocks: seq<Block>, unit: nat, i: nat, addr: nat)
    requires Valid(blocks, unit) && i < |blocks| && addr < SPACE && Has(blocks[i], addr)
    ensures Scan(blocks, addr) == Some(blocks[i])
    decreases i
  {
    assert Placed(blocks[0], unit) && Placed(blocks[i], unit);
    HasIs(blocks[0], addr);
    HasIs(blocks[i], addr);
    if i > 0 {
      assert Apart(blocks[0], blocks[i]);
      ScanUnique(blocks[1..], unit, i - 1, addr);
    }
  }

  /** RAMList */
  class RamBlocks {
    const unit: nat
    var blocks: seq<Block>
    var mru: Option<Block>
    var version: nat

    ghost predicate Ok()
      reads this
    {
      Valid(blocks, unit) && Sorted(blocks) && (mru.Some? ==> mru.value in blocks)
    }

    constructor (unit: nat)
      requires IsUnit(unit)
      ensures Ok() && blocks == [] && this.unit == unit
    {
      this.unit := unit;
      blocks, mru, version := [], None, 0;
    }

    /** Its loop for the place in the list: behind the blocks that are at least as large */
    method FindPlace(size: nat) returns (i: nat)
      ensures i <= |blocks| && i == Position(blocks, size)
    {
      i := 0;
      while i < |blocks| && blocks[i].len >= size
        invariant 0 <= i <= |blocks| && forall j :: 0 <= j < i ==> blocks[j].len >= size
      {
        i := i + 1;
      }
    }

    /** ram_block_add.  `host` says whether memory for the block could be allocated; the program
        aborts when there is no gap. */
    method Add(id: nat, size: nat, host: bool) returns (offset: Option<nat>)
      requires Ok() && 0 < size <= ADDR_MAX
      modifies this
      ensures Ok() && (offset.Some? ==> host)
      ensures offset.Some? ==>
                && BestFit(old(blocks), unit, size, offset) && mru == None
                && blocks == Inserted(old(blocks), Block(id, offset.value, size)) && version == old(version) + 1
      ensures offset.None? ==> unchanged(this) && (host ==> BestFit(blocks, unit, size, None))
    {
      offset := FindRamOffset(blocks, unit, size);
      if !host || offset.None? {
        return None;
      }
      var b := Block(id, offset.value, size);
      AddKeeps(blocks, unit, b);
      var i := FindPlace(size);
      blocks := blocks[..i] + [b] + blocks[i..];
      mru := None;
      version := version + 1;
    }

    /** qemu_ram_free */
    method Free(i: nat)
      requires Ok() && i < |blocks|
      modifies this
      ensures Ok() && blocks == Removed(old(blocks), i) && mru == None && version == old(version) + 1
    {
      RemoveKeeps(blocks, unit, i);
      blocks := blocks[..i] + blocks[i + 1..];
      mru := None;
      version := version + 1;
    }

    /** qemu_get_ram_block: what was remembered gives the answer of the linear scan. */
    method GetRamBlock(addr: nat) returns (b: Option<Block>)
      requires Ok() && addr < SPACE
      modifies this`mru
      ensures Ok() && b == Scan(blocks, addr)
    {
      if mru.Some? && Has(mru.value, addr) {
        var k :| 0 <= k < |blocks| && blocks[k] == mru.value;
        ScanUnique(blocks, unit, k, addr);
        return mru;
      }
      var i := 0;
      while i < |blocks|
        invariant 0 <= i <= |blocks| && Scan(blocks, addr) == Scan(blocks[i..], addr)
      {
        if Has(blocks[i], addr) {
          mru := Some(blocks[i]);
          return mru;
        }
        i := i + 1;
      }
      return None;
    }
  }
}
