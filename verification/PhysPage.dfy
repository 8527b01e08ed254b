/** Pages of a 64-bit address space, for any page size: TARGET_PAGE_BITS and P_L2_LEVELS of exec.c. */
module PhysPage {
  import opened PhysTree

  // ----- addresses and pages -----

  function Two(n: nat): (r: nat)
    ensures r >= 1
  {
    if n == 0 then 1 else 2 * Two(n - 1)
  }

  /** a >> n */
  function Shift(a: nat, n: nat): nat {
    if n == 0 then a else Shift(a, n - 1) / 2
  }

  /** p << n: the first address of page `p` */
  function PageStart(p: nat, n: nat): nat {
    p * Two(n)
  }

  lemma {:induction false} ShiftFrom(a: nat, n: nat, p: nat)
    ensures Shift(a, n) >= p <==> a >= PageStart(p, n)
  {
    if n > 0 {
      ShiftFrom(a, n - 1, 2 * p);
      assert PageStart(p, n) == PageStart(2 * p, n - 1);
    }
  }

  lemma PageAdd(p: nat, q: nat, n: nat)
    ensures PageStart(p + q, n) == PageStart(p, n) + PageStart(q, n)
  {
  }

  /** A page is an interval of Two(n) addresses. */
  lemma PageIs(a: nat, n: nat, p: nat)
    ensures Shift(a, n) == p <==> PageStart(p, n) <= a < PageStart(p + 1, n)
    ensures PageStart(p + 1, n) == PageStart(p, n) + Two(n)
  {
    ShiftFrom(a, n, p);
    ShiftFrom(a, n, p + 1);
    PageAdd(p, 1, n);
  }

  predicate PageAligned(a: nat, n: nat) {
    a == PageStart(Shift(a, n), n)
  }

  /** The offset in its page: a & ~TARGET_PAGE_MASK */
  function InPage(a: nat, n: nat): (r: nat)
    ensures r < Two(n)
  {
    PageIs(a, n, Shift(a, n));
    a - PageStart(Shift(a, n), n)
  }

  /** Pages from an aligned address on are counted from its page. */
  lemma ShiftSum(a: nat, b: nat, n: nat)
    requires PageAligned(a, n)
    ensures Shift(a + b, n) == Shift(a, n) + Shift(b, n)
  {
    PageIs(b, n, Shift(b, n));
    PageAdd(Shift(a, n), Shift(b, n), n);
    PageIs(a + b, n, Shift(a, n) + Shift(b, n));
  }

  // ----- P_L2_LEVELS is enough -----

  const ADDRESSES: nat := 0x1_0000_0000_0000_0000

  function Levels(bits: nat): nat
    requires bits < 64
  {
    (64 - bits - 1) / 9 + 1
  }

  lemma {:induction false} TwoAdd(a: nat, b: nat)
    ensures Two(a + b) == Two(a) * Two(b)
  {
    if a > 0 {
      TwoAdd(a - 1, b);
    }
  }

  lemma {:induction false} PowIsTwo(l: nat)
    ensures Pow(l) == Two(9 * l)
  {
    if l > 0 {
      PowIsTwo(l - 1);
      TwoAdd(9, 9 * (l - 1));
      assert Two(9) == 512;
    }
  }

  lemma Two64()
    ensures Two(64) == ADDRESSES
  {
    assert Two(8) == 256;
    TwoAdd(8, 8);
    TwoAdd(16, 16);
    TwoAdd(32, 32);
  }

  lemma {:induction false} TwoMonotone(a: nat, b: nat)
    requires a <= b
    ensures Two(a) <= Two(b)
  {
    if a < b {
      TwoMonotone(a, b - 1);
    }
  }

  /** Every page of the 64-bit address space has its place below the root, and the space ends at
      the end of a page. */
  lemma LevelsSuffice(bits: nat)
    requires bits < 64
    ensures PageStart(Two(64 - bits), bits) == ADDRESSES && Two(64 - bits) <= Pow(Levels(bits))
  {
    TwoAdd(64 - bits, bits);
    Two64();
    PowIsTwo(Levels(bits));
    TwoMonotone(64 - bits, 9 * Levels(bits));
  }

  /** Pages of 64-bit addresses */
  lemma PageInSpace(a: nat, bits: nat)
    requires bits < 64
    ensures a < ADDRESSES <==> Shift(a, bits) < Two(64 - bits)
  {
    LevelsSuffice(bits);
    ShiftFrom(a, bits, Two(64 - bits));
  }
}
