/** The address, bit and status helpers of the buddy allocator. Addresses are byte
    addresses; a block of order k and index j starts PAGE << k * j bytes after the
    page-aligned start of the region. */
module BuddyAddress {
  import opened Wrappers
  import opened Powers
  import opened BuddyTree

  const PAGE: nat := 4096

  datatype Status = StatusFree | StatusSplit | StatusAllocated

  /** ALIGN(x, 1 << n): the low n bits of x + (1 << n) - 1 are cleared. */
  function Align(x: nat, n: nat): nat { Shift(n, Up(x + (Pow2(n) - 1), n)) }

  /** log2(PAGE) */
  const PAGE_BITS: nat := 12

  function BuddyMem(D: nat): nat { Pow2(D) * PAGE }

  function SizeOfLevel(D: nat, lvl: nat): nat { Up(BuddyMem(D), lvl) }

  function Blk2Buddy(addr: nat, start: nat, order: nat): nat
    requires start <= addr
  {
    Xor(addr - start, Pow2(order) * PAGE) + start
  }

  function BlkInLvl2Index(D: nat, blk: nat, start: nat, lvl: nat): nat
    requires start <= blk && SizeOfLevel(D, lvl) > 0
  {
    Quotient(blk - start, SizeOfLevel(D, lvl))
  }

  function BlkInLvl2Bit(D: nat, blk: nat, start: nat, lvl: nat): nat
    requires start <= blk && SizeOfLevel(D, lvl) > 0
  {
    Pow2(lvl) - 1 + BlkInLvl2Index(D, blk, start, lvl)
  }

  predicate BlkInLvlAligned(D: nat, blk: nat, start: nat, lvl: nat)
    requires start <= blk && lvl <= D
  {
    blk - start == Align(blk - start, D - lvl + PAGE_BITS)
  }

  /** The mask is the set of the bit numbers that are 1. */
  predicate IsSplit(D: nat, mask: set<nat>, bit: nat, lvl: nat)
    requires lvl <= D
    decreases D - lvl
  {
    if lvl == D then bit in mask
    else bit in mask || IsSplit(D, mask, 2 * bit + 1, lvl + 1) || IsSplit(D, mask, 2 * bit + 2, lvl + 1)
  }

  function GetStatus(D: nat, mask: set<nat>, blk: nat, start: nat, lvl: nat): Status
    requires start <= blk && lvl <= D && SizeOfLevel(D, lvl) > 0
  {
    var bit := BlkInLvl2Bit(D, blk, start, lvl);
    if bit in mask then StatusAllocated
    else if IsSplit(D, mask, bit, lvl) then StatusSplit
    else StatusFree
  }

  // ----- blocks as nodes of the tree

  /** Address of block (k, j). */
  function Ptr(start: nat, k: nat, j: nat): nat { start + PAGE * Shift(k, j) }

  /** Mask bit of node (k, j). */
  function Bit(D: nat, k: nat, j: nat): nat
    requires k <= D
  {
    Pow2(D - k) - 1 + j
  }

  lemma PageShift(x: nat)
    ensures Shift(PAGE_BITS, x) == PAGE * x
  {
    ShiftIsMul(PAGE_BITS, x);
    assert Pow2(8) == 0x100;
    assert Pow2(PAGE_BITS) == PAGE;
  }

  lemma LevelSize(D: nat, k: nat)
    requires k <= D
    ensures SizeOfLevel(D, D - k) == Pow2(k + PAGE_BITS) == PAGE * Pow2(k) > 0
  {
    var l := D - k;
    ShiftOne(D);
    PageShift(Pow2(D));
    ShiftCompose(PAGE_BITS, D, 1);
    ShiftCompose(l, k + PAGE_BITS, 1);
    UpShift(l, Shift(k + PAGE_BITS, 1));
    ShiftOne(k + PAGE_BITS);
    ShiftOne(k);
    PageShift(Pow2(k));
    ShiftCompose(PAGE_BITS, k, 1);
  }

  /** On page p of the region, index and alignment are shifts of the page number. */
  lemma PageInLevel(D: nat, start: nat, p: nat, k: nat)
    requires k <= D
    ensures SizeOfLevel(D, D - k) > 0
    ensures BlkInLvl2Index(D, start + PAGE * p, start, D - k) == Up(p, k)
    ensures BlkInLvlAligned(D, start + PAGE * p, start, D - k) <==> p == Shift(k, Up(p, k))
  {
    var r, n, u := PAGE * p, k + PAGE_BITS, Up(p, k);
    LevelSize(D, k);
    PageUp(p, k);
    UpRange(r, n, u);
    QuotientUp(r, n, u);
    AlignedIff(r, n);
    PageShift(p);
    PageShift(Shift(k, u));
    ShiftCompose(PAGE_BITS, k, u);
  }

  lemma PageUp(p: nat, k: nat)
    ensures Up(PAGE * p, k + PAGE_BITS) == Up(p, k)
  {
    PageShift(p);
    UpShift(PAGE_BITS, p);
    UpCompose(PAGE * p, PAGE_BITS, k);
  }

  lemma AlignedIff(r: nat, n: nat)
    ensures r == Align(r, n) <==> r == Shift(n, Up(r, n))
  {
    var u, m := Up(r, n), Pow2(n) - 1;
    UpRange(r, n, u);
    ShiftNext(n, u);
    ShiftNext(n, u + 1);
    if r == Shift(n, u) {
      UpRange(r + m, n, u);
    } else {
      UpRange(r + m, n, u + 1);
    }
  }

  lemma BlockInLevel(D: nat, start: nat, k: nat, j: nat)
    requires k <= D
    ensures SizeOfLevel(D, D - k) > 0
    ensures BlkInLvl2Index(D, Ptr(start, k, j), start, D - k) == j
    ensures BlkInLvl2Bit(D, Ptr(start, k, j), start, D - k) == Bit(D, k, j)
    ensures BlkInLvlAligned(D, Ptr(start, k, j), start, D - k)
  {
    PageInLevel(D, start, Shift(k, j), k);
    UpShift(k, j);
  }

  lemma {:induction false} XorOne(j: nat)
    ensures Xor(j, 1) == BuddyIndex(j)
  {
    XorZero(j / 2);
  }

  /** The exclusive or on byte offsets names the buddy block. */
  lemma BuddyOfBlock(start: nat, k: nat, j: nat)
    ensures Blk2Buddy(Ptr(start, k, j), start, k) == Ptr(start, k, BuddyIndex(j))
  {
    hide Xor, BuddyIndex, Shift;
    XorOne(j);
    XorShift(k, j, 1);
    ShiftOne(k);
    var b := Shift(k, BuddyIndex(j));
    assert Xor(Shift(k, j), Pow2(k)) == b;
    PageShift(Shift(k, j));
    PageShift(Pow2(k));
    PageShift(b);
    XorShift(PAGE_BITS, Shift(k, j), Pow2(k));
  }

  lemma PtrInjective(start: nat, k: nat, i: nat, j: nat)
    ensures Ptr(start, k, i) == Ptr(start, k, j) <==> i == j
    ensures Ptr(start, k, i) < Ptr(start, k, j) <==> i < j
  {
    ShiftMonotone(k, i, j);
  }

  /** The lower of two buddies starts where their parent starts. */
  lemma MergedBlock(start: nat, k: nat, j: nat)
    ensures Ptr(start, k + 1, j / 2) ==
            if Ptr(start, k, j) < Ptr(start, k, BuddyIndex(j)) then Ptr(start, k, j) else Ptr(start, k, BuddyIndex(j))
  {
    PtrInjective(start, k, j, BuddyIndex(j));
    ShiftCompose(k, 1, j / 2);
    assert Shift(1, j / 2) == 2 * (j / 2);
  }

  /** A block starts where its first half starts, and the buddy of that half is the second. */
  lemma SplitBlockAddress(start: nat, k: nat, j: nat)
    requires k > 0
    ensures Ptr(start, k, j) == Ptr(start, k - 1, 2 * j)
    ensures Blk2Buddy(Ptr(start, k, j), start, k - 1) == Ptr(start, k - 1, 2 * j + 1)
  {
    ShiftCompose(k - 1, 1, j);
    assert Shift(1, j) == 2 * j by { assert Shift(0, j) == j; }
    BuddyOfBlock(start, k - 1, 2 * j);
  }

  lemma ChildBits(D: nat, k: nat, j: nat)
    requires 0 < k <= D
    ensures Bit(D, k - 1, 2 * j) == 2 * Bit(D, k, j) + 1
    ensures Bit(D, k - 1, 2 * j + 1) == 2 * Bit(D, k, j) + 2
  {
  }

  /** Different nodes have different bits. */
  lemma BitInjective(D: nat, k: nat, j: nat, k2: nat, j2: nat)
    requires InTree(D, k, j) && InTree(D, k2, j2) && Bit(D, k, j) == Bit(D, k2, j2)
    ensures k == k2 && j == j2
  {
    UpZero(j, D - k);
    UpZero(j2, D - k2);
    if k < k2 {
      Pow2Monotone(D - k2, D - k);
    } else if k2 < k {
      Pow2Monotone(D - k, D - k2);
    }
  }

  lemma BitRange(D: nat, k: nat, j: nat)
    requires InTree(D, k, j)
    ensures Bit(D, k, j) < Pow2(D + 1) - 1
  {
    UpZero(j, D - k);
    Pow2Monotone(D - k, D);
  }

  // ----- the mask against the tree

  /** The set bits are exactly those of the allocated blocks. */
  ghost predicate MaskMatches(D: nat, mask: set<nat>, t: Tree) {
    && BitsMatch(D, mask, t)
    && (forall b {:trigger IsBit(D, b)} | b in mask :: IsBit(D, b))
  }

  ghost predicate BitsMatch(D: nat, mask: set<nat>, t: Tree) {
    forall k: nat, j: nat {:trigger Bit(D, k, j)} | InTree(D, k, j) ::
      Bit(D, k, j) in mask <==> At(t, D, k, j) == Some(Used)
  }

  ghost predicate IsBit(D: nat, b: nat) {
    exists k: nat, j: nat :: InTree(D, k, j) && b == Bit(D, k, j)
  }

  /** The recursive mask test sees whether anything is allocated in a subtree. */
  lemma {:induction false} SplitTest(D: nat, mask: set<nat>, t: Tree, k: nat, j: nat)
    requires BitsMatch(D, mask, t) && InTree(D, k, j) && Fits(t, D)
    ensures IsSplit(D, mask, Bit(D, k, j), D - k) <==> UsedBelow(t, D, k, j)
    decreases k
  {
    hide IsSplit, UsedBelow, Fits;
    if k == 0 {
      SplitTestLeaf(D, mask, Bit(D, 0, j));
      UsedLeaf(t, D, j);
      assert Bit(D, 0, j) in mask <==> At(t, D, 0, j) == Some(Used);
    } else {
      ChildBits(D, k, j);
      InTreeChild(D, k, j);
      SplitTest(D, mask, t, k - 1, 2 * j);
      SplitTest(D, mask, t, k - 1, 2 * j + 1);
      SplitTestStep(D, mask, Bit(D, k, j), D - k);
      UsedBelowStep(t, D, k, j);
      assert Bit(D, k, j) in mask <==> At(t, D, k, j) == Some(Used);
    }
  }

  ghost predicate UsedBelow(t: Tree, h: nat, k: nat, j: nat)
    requires k <= h
  {
    At(t, h, k, j).Some? && AnyUsed(At(t, h, k, j).value)
  }

  lemma UsedBelowStep(t: Tree, h: nat, k: nat, j: nat)
    requires 0 < k <= h
    ensures UsedBelow(t, h, k, j) <==>
            At(t, h, k, j) == Some(Used) || UsedBelow(t, h, k - 1, 2 * j) || UsedBelow(t, h, k - 1, 2 * j + 1)
  {
    AtChild(t, h, k, j);
  }

  /** At the last level the mask test looks at the bit itself. */
  lemma SplitTestLeaf(D: nat, mask: set<nat>, bit: nat)
    ensures IsSplit(D, mask, bit, D) <==> bit in mask
  {
  }

  /** A page holds an allocated block only as a whole. */
  lemma UsedLeaf(t: Tree, h: nat, j: nat)
    requires Fits(t, h)
    ensures UsedBelow(t, h, 0, j) <==> At(t, h, 0, j) == Some(Used)
  {
    AtFits(t, h, 0, j);
  }

  lemma SplitTestStep(D: nat, mask: set<nat>, bit: nat, lvl: nat)
    requires lvl < D
    ensures IsSplit(D, mask, bit, lvl) <==>
            bit in mask || IsSplit(D, mask, 2 * bit + 1, lvl + 1) || IsSplit(D, mask, 2 * bit + 2, lvl + 1)
  {
  }

  lemma MaskUnique(D: nat, mask1: set<nat>, mask2: set<nat>, t: Tree)
    requires MaskMatches(D, mask1, t) && MaskMatches(D, mask2, t)
    ensures mask1 == mask2
  {
    forall b ensures b in mask1 <==> b in mask2 {
      if IsBit(D, b) {
        var k: nat, j: nat :| InTree(D, k, j) && b == Bit(D, k, j);
      }
    }
  }
}
