/** When find_ram_offset finds a place: against every place there could be, not only those it looks
    at. */
module RamRoom {
  import opened Basics
  import opened PhysPage
  import opened RamList

  /** A block of `size` bytes at `x` would be aligned, within the space, and overlap nothing. */
  ghost predicate Room(blocks: seq<Block>, unit: nat, size: nat, x: nat) {
    && PageAligned(x, unit) && x + size <= ADDR_MAX
    && forall j :: 0 <= j < |blocks| ==> Apart(Block(0, x, size), blocks[j])
  }

  function End(b: Block): nat {
    b.offset + b.len
  }

  /** An aligned address leaves room for the whole unit below 2^64. */
  lemma AlignedBelow(x: nat, unit: nat)
    requires IsUnit(unit) && x <= ADDR_MAX && PageAligned(x, unit)
    ensures x + Two(unit) <= SPACE
  {
    var k := Shift(x, unit);
    TwoAdd(64 - unit, unit);
    Two64();
    assert PageStart(Two(64 - unit), unit) == SPACE;
    ShiftFrom(x, unit, Two(64 - unit));
    PageAdd(k, Two(64 - unit) - k, unit);
    PageAdd(Two(64 - unit) - k - 1, 1, unit);
  }

  /** Rounding up does not wrap around if there is a boundary left. */
  lemma RoundUpReaches(n: nat, unit: nat, x: nat)
    requires IsUnit(unit) && n <= x <= ADDR_MAX && PageAligned(x, unit)
    ensures n <= RoundUp(n, unit) <= x
  {
    AlignedBelow(x, unit);
    RoundUpLeast(n, unit, x);
    var m := n + Two(unit) - 1;
    PageIs(m, unit, Shift(m, unit));
  }

  /** Of the blocks that end at or before `x`, the one that ends last */
  lemma {:induction false} LastBefore(blocks: seq<Block>, x: nat, k: nat) returns (i: nat)
    requires k < |blocks| && End(blocks[k]) <= x
    ensures i < |blocks| && End(blocks[i]) <= x
    ensures forall j :: 0 <= j < |blocks| && End(blocks[j]) <= x ==> End(blocks[j]) <= End(blocks[i])
  {
    i := k;
    for n := 0 to |blocks|
      invariant i < |blocks| && End(blocks[i]) <= x
      invariant forall j :: 0 <= j < n && End(blocks[j]) <= x ==> End(blocks[j]) <= End(blocks[i])
    {
      if End(blocks[i]) < End(blocks[n]) <= x {
        i := n;
      }
    }
  }

  /** Room anywhere after a block is room in the gap after the last block before it. */
  lemma RoomFits(blocks: seq<Block>, unit: nat, size: nat, x: nat, k: nat) returns (i: nat)
    requires Valid(blocks, unit) && size > 0 && Room(blocks, unit, size, x) && k < |blocks| && End(blocks[k]) <= x
    ensures i < |blocks| && size <= Gap(blocks, i, unit)
  {
    i := LastBefore(blocks, x, k);
    var c := Candidate(blocks[i], unit);
    CandidateAt(blocks[i], unit);
    RoundUpReaches(End(blocks[i]), unit, x);
    NextAfterIs(blocks, c);
    if NextAfter(blocks, c) != ADDR_MAX {
      var j :| 0 <= j < |blocks| && blocks[j].offset == NextAfter(blocks, c) >= c;
      assert Apart(Block(0, x, size), blocks[j]) && Placed(blocks[j], unit);
    }
  }

  ghost predicate NoGap(blocks: seq<Block>, unit: nat, size: nat) {
    forall i :: 0 <= i < |blocks| ==> Gap(blocks, i, unit) < size
  }

  lemma NoRoomAfter(blocks: seq<Block>, unit: nat, size: nat, x: nat, k: nat)
    requires Valid(blocks, unit) && size > 0 && NoGap(blocks, unit, size) && k < |blocks| && End(blocks[k]) <= x
    ensures !Room(blocks, unit, size, x)
  {
    if Room(blocks, unit, size, x) {
      var i := RoomFits(blocks, unit, size, x, k);
      assert false;
    }
  }

  lemma NoRoom(blocks: seq<Block>, unit: nat, size: nat, x: nat, k: nat)
    requires Valid(blocks, unit) && size > 0 && NoGap(blocks, unit, size) && k < |blocks| && blocks[k].offset == 0
    ensures !Room(blocks, unit, size, x)
  {
    assert Placed(blocks[k], unit);
    if End(blocks[k]) <= x {
      NoRoomAfter(blocks, unit, size, x, k);
    } else {
      assert !Apart(Block(0, x, size), blocks[k]);
    }
  }

  /** find_ram_offset returns a place there is room at, and gives up only if there is no room after
      any block.  With a block at offset 0 it gives up exactly if there is no room at all. */
  lemma FindsRoom(blocks: seq<Block>, unit: nat, size: nat, offset: Option<nat>)
    requires Valid(blocks, unit) && 0 < size <= ADDR_MAX && BestFit(blocks, unit, size, offset)
    ensures offset.Some? ==> Room(blocks, unit, size, offset.value)
    ensures offset.None? ==>
              forall x, k :: 0 <= k < |blocks| && End(blocks[k]) <= x ==> !Room(blocks, unit, size, x)
    ensures blocks == [] || (exists k :: 0 <= k < |blocks| && blocks[k].offset == 0) ==>
              (offset.None? <==> forall x :: !Room(blocks, unit, size, x))
  {
    if offset.Some? {
      BestFitIsFree(blocks, unit, Block(0, offset.value, size));
      assert Room(blocks, unit, size, offset.value);
    } else {
      assert NoGap(blocks, unit, size);
      forall x, k | 0 <= k < |blocks| && End(blocks[k]) <= x
        ensures !Room(blocks, unit, size, x)
      {
        NoRoomAfter(blocks, unit, size, x, k);
      }
      if k :| 0 <= k < |blocks| && blocks[k].offset == 0 {
        forall x
          ensures !Room(blocks, unit, size, x)
        {
          NoRoom(blocks, unit, size, x, k);
        }
      }
    }
  }

  lemma Quarters() returns (q: nat)
    ensures q == Two(62) && 4 * q == SPACE
    ensures forall k: nat :: k <= 3 ==> PageAligned(k * q, 62)
  {
    q := Two(62);
    TwoAdd(2, 62);
    Two64();
    forall k: nat | k <= 3
      ensures PageAligned(k * q, 62)
    {
      PageIs(k * q, 62, k);
    }
  }

  /** Without a block at offset 0 the room before the first block is not looked at: here the lower
      half of the space is free, and a block of that size is refused. */
  lemma RoomOverlooked()
    ensures var q := Two(62);
            var blocks := [Block(0, 2 * q, q)];
            Valid(blocks, 62) && Room(blocks, 62, 2 * q, 0) && BestFit(blocks, 62, 2 * q, None)
  {
    var q := Quarters();
    var blocks := [Block(0, 2 * q, q)];
    assert PageAligned(0 * q, 62) && PageAligned(2 * q, 62) && PageAligned(3 * q, 62);
    CandidateAt(blocks[0], 62);
    RoundUpReaches(3 * q, 62, 3 * q);
    NextAfterIs(blocks, 3 * q);
  }
}
