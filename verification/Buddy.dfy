/** The buddy allocator. The region has 2^D pages and starts at the page-aligned
    address `start`; the free lists hold block addresses, the mask the allocated nodes. */
module Buddy {
  import opened Wrappers
  import opened Lists
  import opened Pigeonhole
  import opened Powers
  import opened BuddyTree
  import opened BuddyAddress
  import opened BuddyLists
  import opened BuddyState

  const UINT32: nat := 0x1_0000_0000

  /** PAGE_ALIGN(x) / PAGE_SIZE on a 32-bit x: the addition wraps. */
  function Size2Pages(x: nat): nat { (x + (PAGE - 1)) % UINT32 / PAGE }

  /** 32 - clz(x - 1), with 0 for one page; x - 1 wraps at x == 0. */
  function Pages2Order(x: nat): nat {
    if x == 1 then 0 else BitLength((x + (UINT32 - 1)) % UINT32)
  }

  function Size2Order(x: nat): nat { Pages2Order(Size2Pages(x)) }

  lemma UInt32IsPow2()
    ensures UINT32 == Pow2(32)
  {
    assert Pow2(8) == 0x100;
    assert Pow2(16) == 0x1_0000;
    assert Pow2(24) == 0x100_0000;
  }

  lemma PagesNeeded(bytes: nat, n: nat)
    requires 0 < bytes <= UINT32 - PAGE
    ensures 0 < Size2Pages(bytes) < UINT32
    ensures Size2Pages(bytes) <= n <==> bytes <= n * PAGE
  {
    var p := Size2Pages(bytes);
    assert (p - 1) * PAGE < bytes <= p * PAGE;
  }

  lemma PagesRefused(bytes: nat)
    requires bytes == 0 || UINT32 - PAGE < bytes < UINT32
    ensures Size2Pages(bytes) == 0
  {
  }

  lemma LessOne(p: nat)
    requires 0 < p < UINT32
    ensures (p + (UINT32 - 1)) % UINT32 == p - 1
  {
  }

  /** The order is the least whose block holds the bytes; zero and wrapping sizes get order 32. */
  lemma OrderIsLeast(bytes: nat, k: nat)
    requires bytes < UINT32
    ensures 0 < bytes <= UINT32 - PAGE ==> (Size2Order(bytes) <= k <==> bytes <= Pow2(k) * PAGE)
    ensures bytes == 0 || bytes > UINT32 - PAGE ==> Size2Order(bytes) == 32
  {
    if 0 < bytes <= UINT32 - PAGE {
      PagesNeeded(bytes, Pow2(k));
      LessOne(Size2Pages(bytes));
      BitLengthLeast(Size2Pages(bytes) - 1, k);
    } else {
      PagesRefused(bytes);
      RefusedOrder();
    }
  }

  lemma RefusedOrder()
    ensures Pages2Order(0) == 32
  {
    UInt32IsPow2();
    BitLengthLeast(UINT32 - 1, 32);
    BitLengthLeast(UINT32 - 1, 31);
    Pow2Monotone(31, 32);
  }

  /** The mask status of a buddy says free exactly when the buddy is on the free list of its order,
      even in the middle of a merge, when the parent of block (k, j) may hold two free buddies. */
  lemma StatusFreeIffOnList(D: nat, start: nat, fl: seq<seq<nat>>, mask: set<nat>, t: Tree, k: nat, j: nat)
    requires Fits(t, D) && k < D && FreeAt(t, D, k, j) && CoalescedBut(t, D, k, j)
    requires MaskMatches(D, mask, t) && ListsHold(D, start, fl, FreeBlocks(t, D))
    ensures SizeOfLevel(D, D - k) > 0
    ensures var bud := Blk2Buddy(Ptr(start, k, j), start, k);
            && bud == Ptr(start, k, BuddyIndex(j))
            && (GetStatus(D, mask, bud, start, D - k) == StatusFree <==> bud in fl[k])
            && (bud in fl[k] <==> At(t, D, k, BuddyIndex(j)) == Some(Free))
  {
    var i := BuddyIndex(j);
    BuddyOfBlock(start, k, j);
    BuddyPaths(D, k, j);
    BlockInLevel(D, start, k, i);
    SplitTest(D, mask, t, k, i);
    assert ListHolds(start, fl[k], k, FreeBlocks(t, D));
    assert Bit(D, k, i) in mask <==> At(t, D, k, i) == Some(Used);
    SiblingThere(t, D, k, j);
    if !AnyUsed(At(t, D, k, i).value) { NoUsedIsFree(At(t, D, k, i).value); }
  }

  lemma {:induction false} SiblingThere(t: Tree, h: nat, k: nat, j: nat)
    requires k < h && CoalescedBut(t, h, k, j)
    ensures At(t, h, k, BuddyIndex(j)).Some? && Coalesced(At(t, h, k, BuddyIndex(j)).value)
  {
    BuddyPaths(h, k, j);
    if k + 1 >= h {
    } else {
      SiblingThere(if GoesRight(h, k, j) then t.right else t.left, h - 1, k, j);
    }
  }

  class BuddyAllocator {
    const D: nat
    const start: nat
    var freeList: seq<seq<nat>>
    var mask: set<nat>
    ghost var tree: Tree

    /** The lists and the mask describe one fully merged tree. */
    ghost predicate Valid()
      reads this
    {
      && Fits(tree, D) && Coalesced(tree)
      && MaskMatches(D, mask, tree)
      && ListsHold(D, start, freeList, FreeBlocks(tree, D))
    }

    /** The allocated blocks, as (order, index) pairs. */
    ghost function Live(): set<(nat, nat)>
      reads this
    {
      LiveBlocks(tree, D)
    }

    /** buddy_init: one free block of the highest order. */
    constructor (D: nat, start: nat)
      requires start % PAGE == 0
      ensures Valid() && Live() == {} && this.D == D && this.start == start
      ensures forall k | 0 <= k <= D :: freeList[k] == if k == D then [start] else []
    {
      this.D := D;
      this.start := start;
      var fl := seq(D + 1, (i: nat) => []);
      freeList := fl[D := [start]];
      mask := {};
      tree := Free;
      new;
      OneBlock();
    }

    lemma OneBlock()
      requires tree == Free && |freeList| == D + 1
      requires forall k | 0 <= k <= D :: freeList[k] == if k == D then [start] else []
      ensures ListsHold(D, start, freeList, FreeBlocks(tree, D)) && Live() == {}
    {
      ShiftOne(D);
      forall k | 0 <= k <= D ensures ListHolds(start, freeList[k], k, FreeBlocks(tree, D)) {
        forall j: nat ensures Ptr(start, k, j) in freeList[k] <==> (k, j) in FreeBlocks(tree, D) {
          if k == D { PtrInjective(start, D, j, 0); assert Up(j, 0) == j; }
        }
        if k == D { assert Ptr(start, D, 0) == start; }
      }
    }

    method PopHead(k: nat) returns (x: Option<nat>)
      requires k < |freeList|
      modifies this`freeList
      ensures old(freeList)[k] == [] ==> x == None && freeList == old(freeList)
      ensures old(freeList)[k] != [] ==>
                x == Some(old(freeList)[k][0]) && freeList == old(freeList)[k := old(freeList)[k][1..]]
    {
      if freeList[k] == [] {
        x := None;
      } else {
        x := Some(freeList[k][0]);
        freeList := freeList[k := freeList[k][1..]];
      }
    }

    method PushTail(k: nat, x: nat)
      requires k < |freeList|
      modifies this`freeList
      ensures freeList == old(freeList)[k := old(freeList)[k] + [x]]
    {
      freeList := freeList[k := freeList[k] + [x]];
    }

    /** The unlinking is blind in the source; here the node has to be on list k. */
    method Delete(k: nat, x: nat)
      requires k < |freeList| && x in freeList[k]
      modifies this`freeList
      ensures freeList == old(freeList)[k := Unlinked(old(freeList)[k], x)]
    {
      freeList := freeList[k := Unlinked(freeList[k], x)];
    }

    /** The representation part of Valid, for a tree that is still being changed. */
    ghost predicate Represents(t: Tree)
      reads this`freeList, this`mask
    {
      && Fits(t, D)
      && MaskMatches(D, mask, t)
      && ListsHold(D, start, freeList, FreeBlocks(t, D))
    }

    /** In the splitting phase block (c, j) heads list c, and the lists from `order` to c are empty. */
    ghost predicate Splitting(t: Tree, order: nat, c: nat, j: nat)
      reads this
    {
      && order <= c < D && |freeList| == D + 1
      && FreeAt(t, D, c, j) && CoalescedBut(t, D, c, j)
      && freeList[c] != [] && freeList[c][0] == Ptr(start, c, j)
      && forall k | order <= k < c :: freeList[k] == []
    }

    /** Head of a list: a free block of that order. */
    lemma HeadBlock(t: Tree, k: nat) returns (j: nat)
      requires Represents(t) && k <= D && freeList[k] != []
      ensures freeList[k][0] == Ptr(start, k, j) && FreeAt(t, D, k, j)
      ensures freeList[k][1..] == Unlinked(freeList[k], freeList[k][0])
    {
      assert ListHolds(start, freeList[k], k, FreeBlocks(t, D));
      assert freeList[k][0] in freeList[k];
      assert IsPtr(start, k, freeList[k][0]);
      j :| freeList[k][0] == Ptr(start, k, j);
    }

    lemma NoFreeBlocks(t: Tree, order: nat)
      requires Represents(t) && order <= D && Coalesced(t)
      requires forall k | order <= k <= D :: freeList[k] == []
      ensures forall j: nat | InTree(D, order, j) :: RunHasUsedPage(t, D, order, j)
    {
      forall j: nat | InTree(D, order, j) ensures RunHasUsedPage(t, D, order, j) {
        forall k2: nat, j2: nat {:trigger At(t, D, k2, j2)} | order <= k2 <= D && Up(j2, D - k2) == 0
          ensures At(t, D, k2, j2) != Some(Free)
        {
          assert ListHolds(start, freeList[k2], k2, FreeBlocks(t, D));
          assert Ptr(start, k2, j2) in freeList[k2] <==> (k2, j2) in FreeBlocks(t, D);
        }
        var p := NoRoom(t, D, order, j);
      }
    }

    /** One split: free block (i, j), already popped from list i, becomes two blocks of order i - 1. */
    method SplitBlock(ghost t: Tree, i: nat, ghost j: nat, bud1: nat, ghost order: nat) returns (ghost u: Tree)
      requires order < i <= D && bud1 == Ptr(start, i, j)
      requires Fits(t, D) && MaskMatches(D, mask, t) && FreeAt(t, D, i, j) && CoalescedBut(t, D, i, j)
      requires ListsHold(D, start, freeList, FreeBlocks(t, D) - {(i, j)})
      requires forall k | order <= k < i :: freeList[k] == []
      modifies this`freeList
      ensures Represents(u) && LiveBlocks(u, D) == LiveBlocks(t, D)
      ensures Splitting(u, order, i - 1, 2 * j)
      ensures freeList == old(freeList)[i - 1 := old(freeList)[i - 1] + [bud1] + [SecondHalf(bud1, i - 1)]]
    {
      hide Coalesced, CoalescedBut, MaskMatches, ListHolds, SecondHalf, Fits, Blk2Buddy, Ptr;
      HalvesFit(i, j);
      SplitBlockAddress(start, i, j);
      SecondHalfIsBuddy(start, i, j);
      var bud2 := Blk2Buddy(bud1, start, i - 1);
      ghost var F := FreeBlocks(t, D) - {(i, j)};
      u := Put(t, D, i, j, Split(Free, Free));
      PutSplitBlocks(t, D, i, j);
      InTreeChild(D, i, j);
      AtChild(t, D, i, j);
      PushHolds(D, start, freeList, F, i - 1, 2 * j);
      PushTail(i - 1, bud1);
      PushHolds(D, start, freeList, F + {(i - 1, 2 * j)}, i - 1, 2 * j + 1);
      PushTail(i - 1, bud2);
      PutFits(t, D, i, j, Split(Free, Free));
      SplitCoalescedBut(t, D, i, j);
      SameMask(t, u);
    }

    lemma HalvesFit(i: nat, j: nat)
      requires i > 0
      ensures Fits(Split(Free, Free), i) && Ptr(start, i, j) >= start
    {
    }

    lemma SameMask(t: Tree, u: Tree)
      requires MaskMatches(D, mask, t) && LiveBlocks(u, D) == LiveBlocks(t, D)
      ensures MaskMatches(D, mask, u)
    {
      forall k: nat, j: nat {:trigger Bit(D, k, j)} | InTree(D, k, j)
        ensures Bit(D, k, j) in mask <==> At(u, D, k, j) == Some(Used)
      {
        assert (k, j) in LiveBlocks(u, D) <==> (k, j) in LiveBlocks(t, D);
      }
    }

    /** Takes a free block of order k off its list and marks it. */
    method MarkAllocated(ghost t: Tree, k: nat, ghost j: nat, r: nat)
      requires k <= D && r == Ptr(start, k, j) && Fits(t, D) && MaskMatches(D, mask, t)
      requires FreeAt(t, D, k, j) && CoalescedBut(t, D, k, j)
      requires ListsHold(D, start, freeList, FreeBlocks(t, D) - {(k, j)})
      modifies this`mask, this`tree
      ensures Valid() && Live() == LiveBlocks(t, D) + {(k, j)}
    {
      BlockInLevel(D, start, k, j);
      mask := mask + {BlkInLvl2Bit(D, r, start, D - k)};
      tree := Put(t, D, k, j, Used);
      PutLeafBlocks(t, D, k, j, Free, Used);
      PutFits(t, D, k, j, Used);
      PutCoalescedBut(t, D, k, j, Used);
      assert UsedAt(tree, D, k, j) by { assert (k, j) in LiveBlocks(tree, D); }
      CoalescedButIsCoalesced(tree, D, k, j);
      MaskSet(old(mask), t, tree, k, j);
    }

    lemma MaskSet(m: set<nat>, t: Tree, u: Tree, k: nat, j: nat)
      requires InTree(D, k, j) && MaskMatches(D, m, t)
      requires LiveBlocks(u, D) == LiveBlocks(t, D) + {(k, j)}
      ensures MaskMatches(D, m + {Bit(D, k, j)}, u)
    {
      forall k2: nat, j2: nat {:trigger Bit(D, k2, j2)} | InTree(D, k2, j2)
        ensures Bit(D, k2, j2) in m + {Bit(D, k, j)} <==> At(u, D, k2, j2) == Some(Used)
      {
        assert (k2, j2) in LiveBlocks(u, D) <==> (k2, j2) in LiveBlocks(t, D) || (k2, j2) == (k, j);
        if Bit(D, k2, j2) == Bit(D, k, j) { BitInjective(D, k, j, k2, j2); }
      }
    }

    lemma MaskClear(m: set<nat>, t: Tree, u: Tree, k: nat, j: nat)
      requires InTree(D, k, j) && MaskMatches(D, m, t)
      requires LiveBlocks(u, D) == LiveBlocks(t, D) - {(k, j)}
      ensures MaskMatches(D, m - {Bit(D, k, j)}, u)
    {
      forall k2: nat, j2: nat {:trigger Bit(D, k2, j2)} | InTree(D, k2, j2)
        ensures Bit(D, k2, j2) in m - {Bit(D, k, j)} <==> At(u, D, k2, j2) == Some(Used)
      {
        assert (k2, j2) in LiveBlocks(u, D) <==> (k2, j2) in LiveBlocks(t, D) && (k2, j2) != (k, j);
        if Bit(D, k2, j2) == Bit(D, k, j) { BitInjective(D, k, j, k2, j2); }
      }
    }

    /** Where the split loop is: not begun, or with block (c, j) as the last one split off from the head x of
        list i. `before` are the lists at the call. */
    ghost predicate Phase(t: Tree, before: seq<seq<nat>>, order: nat, c: nat, j: nat, i: nat, x: nat)
      reads this
    {
      if c == D + 1 then Coalesced(t) && freeList == before
      else Splitting(t, order, c, j) && SplitTo(before, freeList, order, i, c, x)
    }

    /** The list to split from: the head of the least list above `order` that is not empty is the block split
        off last, if there is one. */
    lemma PhaseHead(t: Tree, before: seq<seq<nat>>, order: nat, c: nat, j: nat, i0: nat, x: nat, i: nat)
        returns (h: nat, m: nat)
      requires Represents(t) && Phase(t, before, order, c, j, i0, x) && order <= i <= D && freeList[i] != []
      requires forall k | order <= k < i :: freeList[k] == []
      ensures freeList[i][0] == Ptr(start, i, h) && FreeAt(t, D, i, h) && CoalescedBut(t, D, i, h)
      ensures freeList[i][1..] == Unlinked(freeList[i], freeList[i][0])
      ensures c <= D ==> i == c
      ensures i == order ==> ServedFrom(before, freeList[i := freeList[i][1..]], order, m, freeList[i][0])
    {
      hide Fits, MaskMatches, ListsHold;
      HasLists(t);
      h := HeadBlock(t, i);
      if c == D + 1 {
        CoalescedIsCoalescedBut(t, D, i, h);
        m := i;
        if i == order { DirectPop(before, order); }
      } else {
        PtrInjective(start, i, h, j);
        m := i0;
        if i == order { LastPop(before, freeList, order, i0, c, x); }
      }
    }

    /** One round of the search for a larger block: the head of the least list above `order` that is not empty
        is split. */
    method SplitLarger(order: nat, ghost before: seq<seq<nat>>, ghost t: Tree, ghost c: nat, ghost j: nat, ghost i0: nat, ghost x: nat)
        returns (splitted: bool, ghost t2: Tree, ghost c2: nat, ghost j2: nat, ghost i2: nat, ghost x2: nat)
      requires order <= D && Represents(t) && Phase(t, before, order, c, j, i0, x) && c <= D + 1 && freeList[order] == []
      modifies this`freeList
      ensures Represents(t2) && LiveBlocks(t2, D) == LiveBlocks(t, D)
      ensures splitted ==> c2 < c && c2 <= D && Phase(t2, before, order, c2, j2, i2, x2)
      ensures !splitted ==> t2 == t && freeList == old(freeList) && c2 == c == D + 1
      ensures !splitted ==> Phase(t2, before, order, c2, j2, i2, x2)
      ensures !splitted ==> forall k | order <= k <= D :: freeList[k] == []
    {
      hide Fits, Coalesced, CoalescedBut, MaskMatches, SplitTo, ServedFrom, SecondHalf, ListsHold;
      splitted, t2, c2, j2, i2, x2 := false, t, c, j, i0, x;
      assert |freeList| == D + 1 by { HasLists(t); }
      var i := order + 1;
      while i < D + 1
        invariant order + 1 <= i <= D + 1
        invariant freeList == old(freeList) && forall k | order <= k < i :: freeList[k] == []
      {
        if freeList[i] == [] {
          i := i + 1;
          continue;
        }
        ghost var h, m := PhaseHead(t, before, order, c, j, i0, x, i);
        var it := PopHead(i);
        DeleteHolds(D, start, old(freeList), FreeBlocks(t, D), i, h);
        t2 := SplitBlock(t, i, h, it.value, order);
        if c == D + 1 {
          FirstSplit(before, order, i);
          i2, x2 := i, it.value;
        } else {
          NextSplit(before, old(freeList), order, i0, c, x);
        }
        splitted, c2, j2 := true, i - 1, 2 * h;
        assert Splitting(t2, order, c2, j2);
        return;
      }
    }

    lemma HasLists(t: Tree)
      requires Represents(t)
      ensures |freeList| == D + 1
    {
    }

    /** __blk_alloc. NULL is returned only when every aligned run of 2^order pages holds an
        allocated page; otherwise the result is a block of that order with no allocated page, taken from
        the head of the least list that is not empty. */
    method BlkAlloc(order: nat) returns (r: Option<nat>, ghost idx: nat)
      requires Valid() && order <= D
      modifies this
      ensures Valid()
      ensures r == None <==> forall j: nat | InTree(D, order, j) :: RunHasUsedPage(old(tree), D, order, j)
      ensures r == None ==> tree == old(tree) && mask == old(mask) && freeList == old(freeList)
      ensures r.Some? ==> InTree(D, order, idx) && r.value == Ptr(start, order, idx)
      ensures r.Some? ==> !RunHasUsedPage(old(tree), D, order, idx)
      ensures r.Some? ==> (order, idx) !in old(Live()) && Live() == old(Live()) + {(order, idx)}
      ensures r.Some? ==> exists i: nat :: ServedFrom(old(freeList), freeList, order, i, r.value)
    {
      hide Fits, Coalesced, CoalescedBut, MaskMatches, RunHasUsedPage, ListsHold, Splitting, SplitTo, ServedFrom;
      r, idx := None, 0;
      var splitted := true;
      ghost var t, c: nat, j: nat, i, x := tree, D + 1, 0, 0, 0;
      HasLists(t);
      while splitted
        invariant Represents(t) && |freeList| == D + 1 && LiveBlocks(t, D) == Live() && mask == old(mask) && tree == old(tree)
        invariant c <= D + 1 && (c == D + 1 ==> t == tree) && Phase(t, old(freeList), order, c, j, i, x)
        invariant !splitted ==> c == D + 1 && forall k | order <= k <= D :: freeList[k] == []
        decreases c, splitted
      {
        ghost var before := freeList;
        if freeList[order] != [] {
          ghost var h, m := PhaseHead(t, old(freeList), order, c, j, i, x, order);
          j := h;
        }
        var it := PopHead(order);
        if it.Some? {
          DeleteHolds(D, start, before, FreeBlocks(t, D), order, j);
          NotRun(old(tree), t, order, j);
          MarkAllocated(t, order, j, it.value);
          r, idx := it, j;
          return;
        }
        splitted, t, c, j, i, x := SplitLarger(order, old(freeList), t, c, j, i, x);
        HasLists(t);
      }
      NoFreeBlocks(t, order);
    }

    /** A free block of the tree being split has no page that was allocated. */
    lemma NotRun(t0: Tree, t: Tree, k: nat, j: nat)
      requires LiveBlocks(t0, D) == LiveBlocks(t, D) && FreeAt(t, D, k, j)
      ensures !RunHasUsedPage(t0, D, k, j) && (k, j) !in LiveBlocks(t0, D)
    {
      assert (k, j) in LiveBlocks(t, D) <==> (k, j) in LiveBlocks(t0, D);
      if RunHasUsedPage(t0, D, k, j) {
        var p: nat :| Up(p, k) == j && PageUsed(t0, D, p);
        var k2: nat :| k2 <= D && At(t0, D, k2, Up(p, k2)) == Some(Used);
        UpCompose(p, k, D - k);
        UpCompose(p, k2, D - k2);
        assert (k2, Up(p, k2)) in LiveBlocks(t0, D);
        assert (k2, Up(p, k2)) in LiveBlocks(t, D);
        FreePageNotUsed(t, D, k, p);
        assert PageUsed(t, D, p);
      }
    }

    /** One merge: free block (k, j) and its free buddy leave list k, their union joins list k + 1. */
    method MergeBlocks(ghost t: Tree, k: nat, ghost j: nat, bud1: nat, bud2: nat)
        returns (merged: nat, ghost u: Tree)
      requires k < D && bud1 == Ptr(start, k, j) && bud2 == Ptr(start, k, BuddyIndex(j))
      requires Represents(t) && FreeAt(t, D, k, j) && At(t, D, k, BuddyIndex(j)) == Some(Free)
      requires CoalescedBut(t, D, k, j)
      modifies this`freeList
      ensures merged == Ptr(start, k + 1, j / 2)
      ensures Represents(u) && LiveBlocks(u, D) == LiveBlocks(t, D)
      ensures FreeAt(u, D, k + 1, j / 2) && CoalescedBut(u, D, k + 1, j / 2)
      ensures k + 1 < |old(freeList)| == |freeList| && freeList == OneMerge(old(freeList), k, bud1, bud2, merged)
    {
      hide Fits, CoalescedBut, MaskMatches, Ptr, Unlinked;
      ghost var F, i := FreeBlocks(t, D), BuddyIndex(j);
      BuddyPaths(D, k, j);
      assert (k, j) in F && (k, i) in F;
      assert ListHolds(start, freeList[k], k, F);
      DeleteHolds(D, start, freeList, F, k, j);
      Delete(k, bud1);
      ghost var G := F - {(k, j)};
      assert ListHolds(start, freeList[k], k, G);
      DeleteHolds(D, start, freeList, G, k, i);
      Delete(k, bud2);
      MergedBlock(start, k, j);
      merged := if bud1 < bud2 then bud1 else bud2;
      PutMergeBlocks(t, D, k, j);
      u := Put(t, D, k + 1, j / 2, Free);
      assert (k + 1, j / 2) !in G - {(k, i)};
      PushHolds(D, start, freeList, G - {(k, i)}, k + 1, j / 2);
      PushTail(k + 1, merged);
      MergeCoalescedBut(t, D, k, j);
      PutFits(t, D, k + 1, j / 2, Free);
      SameMask(t, u);
      assert (k + 1, j / 2) in FreeBlocks(u, D);
    }

    /** Clears the bit of an allocated block and puts it on its list. */
    method MarkFree(blk: nat, k: nat, ghost j: nat) returns (ghost t: Tree)
      requires Valid() && k <= D && blk == Ptr(start, k, j) && (k, j) in Live()
      modifies this`freeList, this`mask
      ensures Represents(t) && LiveBlocks(t, D) == Live() - {(k, j)}
      ensures FreeAt(t, D, k, j) && CoalescedBut(t, D, k, j)
      ensures |old(freeList)| == D + 1 && freeList == old(freeList)[k := old(freeList)[k] + [blk]]
    {
      t := Put(tree, D, k, j, Free);
      BlockInLevel(D, start, k, j);
      mask := mask - {BlkInLvl2Bit(D, blk, start, D - k)};
      PutLeafBlocks(tree, D, k, j, Used, Free);
      PushHolds(D, start, freeList, FreeBlocks(tree, D), k, j);
      PushTail(k, blk);
      MaskClear(old(mask), tree, t, k, j);
      PutFits(tree, D, k, j, Free);
      CoalescedIsCoalescedBut(tree, D, k, j);
      PutCoalescedBut(tree, D, k, j, Free);
      assert (k, j) in FreeBlocks(t, D);
    }

    /** __blk_free, on an allocated block: merges as far as possible. */
    method BlkFree(blk: nat, lvl: nat, ghost idx: nat) returns (rv: int, ghost top: nat)
      requires Valid() && lvl <= D && blk == Ptr(start, D - lvl, idx) && (D - lvl, idx) in Live()
      modifies this
      ensures Valid() && rv == 0
      ensures Live() == old(Live()) - {(D - lvl, idx)}
      ensures ReleasedTo(old(freeList), freeList, start, D - lvl, idx, top)
    {
      hide Fits, Coalesced, CoalescedBut, MaskMatches, ListsHold, MergedTo, OneMerge, Around, BuddyAround, Represents,
           Ptr, Blk2Buddy, GetStatus, BuddyIndex;
      var bud1, l := blk, lvl;
      ghost var j := idx;
      ghost var t := MarkFree(blk, D - lvl, idx);
      FirstPush(old(freeList), start, D - lvl, idx);
      assert Up(idx, 0) == idx;
      while l > 0
        invariant l <= lvl && bud1 == Ptr(start, D - l, j) && j == Up(idx, lvl - l)
        invariant |old(freeList)| == D + 1 && MergedTo(old(freeList), freeList, start, D - lvl, idx, D - l)
        invariant l > 0 ==> |freeList| == D + 1
        invariant Represents(t) && LiveBlocks(t, D) == old(Live()) - {(D - lvl, idx)}
        invariant FreeAt(t, D, D - l, j) && CoalescedBut(t, D, D - l, j)
      {
        var order := D - l;
        BuddyStatus(t, old(freeList), D - lvl, idx, order, j);
        var bud2 := Blk2Buddy(bud1, start, order);
        if GetStatus(D, mask, bud2, start, l) != StatusFree {
          break;
        }
        NextMerge(old(freeList), freeList, start, D - lvl, idx, order);
        bud1, t := MergeBlocks(t, order, j, bud1, bud2);
        j := j / 2;
        l := l - 1;
      }
      if l == 0 { BuddyStatus(t, old(freeList), D - lvl, idx, D, j); }
      CoalescedButIsCoalesced(t, D, D - l, j);
      tree := t;
      RepresentsValid();
      rv, top := 0, D - l;
    }

    lemma RepresentsValid()
      requires Represents(tree) && Coalesced(tree)
      ensures Valid()
    {
    }

    /** While block (k, j) is being merged it is the last of its list and nowhere else on it, and the status
        of its buddy says free exactly if the buddy was on the list at the call. */
    lemma BuddyStatus(t: Tree, before: seq<seq<nat>>, k0: nat, j0: nat, k: nat, j: nat)
      requires Represents(t) && MergedTo(before, freeList, start, k0, j0, k) && k <= D && j == Up(j0, k - k0)
      requires |before| == D + 1 && FreeAt(t, D, k, j) && CoalescedBut(t, D, k, j)
      ensures Around(start, k0, j0, k) == Ptr(start, k, j) && Around(start, k0, j0, k) !in before[k]
      ensures BuddyAround(start, k0, j0, k) == Ptr(start, k, BuddyIndex(j)) >= start && Ptr(start, k, j) >= start
      ensures k < D ==> Around(start, k0, j0, k + 1) == Ptr(start, k + 1, j / 2) && SizeOfLevel(D, D - k) > 0
      ensures k < D ==> Blk2Buddy(Ptr(start, k, j), start, k) == Ptr(start, k, BuddyIndex(j))
      ensures k < D ==> var free := At(t, D, k, BuddyIndex(j)) == Some(Free);
                && (GetStatus(D, mask, Ptr(start, k, BuddyIndex(j)), start, D - k) == StatusFree <==> free)
                && (BuddyAround(start, k0, j0, k) in before[k] <==> free)
    {
      hide Fits, MaskMatches, CoalescedBut, GetStatus, Blk2Buddy, BuddyIndex;
      assert ListHolds(start, freeList[k], k, FreeBlocks(t, D));
      PtrInjective(start, k, j, BuddyIndex(j));
      BuddyDiffers(j);
      LastIsNew(before[k], Ptr(start, k, j));
      if k < D { StatusFreeIffOnList(D, start, freeList, mask, t, k, j); }
    }

    lemma BuddyDiffers(j: nat)
      ensures BuddyIndex(j) != j
    {
    }

    /** buddy_alloc. */
    method BuddyAlloc(bytes: nat) returns (r: Option<nat>, ghost idx: nat)
      requires Valid() && bytes < UINT32 && D < 32
      modifies this
      ensures Valid()
      ensures r == None ==> tree == old(tree) && mask == old(mask) && freeList == old(freeList)
      // refused sizes, and only they and a full region, give NULL
      ensures bytes == 0 || bytes > UINT32 - PAGE || bytes > Pow2(D) * PAGE ==> r == None
      ensures 0 < bytes <= UINT32 - PAGE && bytes <= Pow2(D) * PAGE ==>
                var k := Size2Order(bytes);
                && k <= D && Pow2(k) * PAGE >= bytes && (k > 0 ==> Pow2(k - 1) * PAGE < bytes)
                && (r == None <==> forall j: nat | InTree(D, k, j) :: RunHasUsedPage(old(tree), D, k, j))
                && (r.Some? ==> InTree(D, k, idx) && r.value == Ptr(start, k, idx)
                                && !RunHasUsedPage(old(tree), D, k, idx)
                                && (k, idx) !in old(Live()) && Live() == old(Live()) + {(k, idx)}
                                && exists i: nat :: ServedFrom(old(freeList), freeList, k, i, r.value))
    {
      var order := Size2Order(bytes);
      OrderIsLeast(bytes, D);
      OrderIsLeast(bytes, order);
      if order > 0 { OrderIsLeast(bytes, order - 1); }
      if order >= D + 1 {
        r, idx := None, 0;
        return;
      }
      r, idx := BlkAlloc(order);
    }

    /** buddy_free: it succeeds exactly on the start of an allocated block, and otherwise changes
        nothing. On the address one past the region this holds exactly while no block other than
        the whole region starts the region; see EndAddress and EndFreeBreaks. */
    method BuddyFree(blk: nat) returns (rv: int, ghost order: nat, ghost idx: nat)
      requires Valid() && start % PAGE == 0 && start > 0
      requires blk == start + BuddyMem(D) ==> !SmallBlockAtStart()
      modifies this
      ensures Valid()
      ensures rv == 0 || rv == -1
      ensures rv == 0 <==> IsLiveStart(old(Live()), start, blk)
      ensures rv == 0 ==> (order, idx) in old(Live()) && blk == Ptr(start, order, idx)
                          && Live() == old(Live()) - {(order, idx)}
                          && exists m: nat :: ReleasedTo(old(freeList), freeList, start, order, idx, m)
      ensures rv != 0 ==> tree == old(tree) && mask == old(mask) && freeList == old(freeList)
    {
      rv, order, idx := -1, 0, 0;
      if blk == 0 || blk < start || blk > start + BuddyMem(D) || blk != Align(blk, PAGE_BITS) {
        NotABlock(blk);
        return;
      }
      var level := D;
      while level >= 0
        invariant -1 <= level <= D
        invariant forall l: nat | level < l <= D :: !Hit(D, mask, blk, start, l)
        modifies {}
      {
        var hit := IsAllocatedInLevel(blk, level);
        if hit { break; }
        level := level - 1;
      }
      if level < 0 {
        NoHitNoBlock(blk);
      } else {
        order, idx := HitBlock(blk, D - level);
        ghost var top;
        rv, top := BlkFree(blk, level, idx);
      }
    }

    /** The test of one level: aligned in the level, and its bit set. */
    method IsAllocatedInLevel(blk: nat, level: nat) returns (hit: bool)
      requires level <= D && start <= blk
      ensures hit <==> Hit(D, mask, blk, start, level)
    {
      LevelSize(D, D - level);
      hit := BlkInLvlAligned(D, blk, start, level);
      if hit {
        hit := BlkInLvl2Bit(D, blk, start, level) in mask;
      }
    }

    /** An address at which the level test hits starts an allocated block. */
    lemma HitBlock(blk: nat, k: nat) returns (order: nat, idx: nat)
      requires Valid() && start % PAGE == 0 && start <= blk <= start + BuddyMem(D) && blk == Align(blk, PAGE_BITS)
      requires blk == start + BuddyMem(D) ==> !SmallBlockAtStart()
      requires k <= D && Hit(D, mask, blk, start, D - k)
      ensures order == k && (order, idx) in Live() && blk == Ptr(start, order, idx)
    {
      hide Hit, Align, Fits, Coalesced, MaskMatches, ListsHold;
      if blk == start + BuddyMem(D) {
        NoHitAtEnd(k);
      } else {
        var p := (blk - start) / PAGE;
        InRegion(blk, p);
        HitMeaning(D, mask, start, p, k);
        PageLive(p, k);
        order, idx := k, Up(p, k);
      }
    }

    lemma InRegion(blk: nat, p: nat)
      requires start % PAGE == 0 && start <= blk < start + BuddyMem(D) && blk == Align(blk, PAGE_BITS)
      requires p == (blk - start) / PAGE
      ensures blk == start + PAGE * p && p < Pow2(D)
    {
      AlignedBy(blk);
      var a, b := start / PAGE, blk / PAGE;
      assert start == a * PAGE && blk == b * PAGE;
      assert p == b - a;
    }

    lemma BitLive(k: nat, j: nat)
      requires MaskMatches(D, mask, tree) && InTree(D, k, j)
      ensures Bit(D, k, j) in mask <==> (k, j) in Live()
    {
    }

    lemma PageLive(p: nat, k: nat)
      requires MaskMatches(D, mask, tree) && k <= D && p < Pow2(D)
      ensures Bit(D, k, Up(p, k)) in mask <==> (k, Up(p, k)) in Live()
    {
      InTreePage(D, k, p);
      BitLive(k, Up(p, k));
    }

    lemma LiveHit(k: nat, j: nat)
      requires Valid() && (k, j) in Live()
      ensures k <= D && Hit(D, mask, Ptr(start, k, j), start, D - k)
    {
      BlockInLevel(D, start, k, j);
      BitLive(k, j);
    }

    lemma NoHitNoBlock(blk: nat)
      requires Valid()
      requires forall l: nat | l <= D :: !Hit(D, mask, blk, start, l)
      ensures !IsLiveStart(Live(), start, blk)
    {
      forall k: nat, j: nat | (k, j) in Live() ensures blk != Ptr(start, k, j) {
        LiveHit(k, j);
      }
    }

    lemma NotABlock(blk: nat)
      requires start % PAGE == 0 && start > 0
      requires blk == 0 || blk < start || blk > start + BuddyMem(D) || blk != Align(blk, PAGE_BITS)
      ensures !IsLiveStart(Live(), start, blk)
    {
      forall k: nat, j: nat | (k, j) in Live() ensures blk != Ptr(start, k, j) {
        BlockPages(D, k, j);
        var b := Ptr(start, k, j);
        assert b % PAGE == 0;
        AlignedBy(b);
      }
    }

    // ----- what Valid says about the region

    /** Page p belongs to the block of order k that is on a free list or marked in the mask. */
    ghost predicate InBlock(k: nat, p: nat)
      requires k <= D && |freeList| == D + 1
      reads this
    {
      Ptr(start, k, Up(p, k)) in freeList[k] || Bit(D, k, Up(p, k)) in mask
    }

    /** Free and allocated blocks together cover every page exactly once. */
    lemma Partition(p: nat)
      requires Valid() && p < Pow2(D)
      ensures exists k: nat :: k <= D && InBlock(k, p)
      ensures forall k1: nat, k2: nat | k1 <= D && k2 <= D && InBlock(k1, p) && InBlock(k2, p) :: k1 == k2
      ensures forall k: nat | k <= D :: !(Ptr(start, k, Up(p, k)) in freeList[k] && Bit(D, k, Up(p, k)) in mask)
    {
      forall k: nat | k <= D
        ensures Ptr(start, k, Up(p, k)) in freeList[k] <==> At(tree, D, k, Up(p, k)) == Some(Free)
        ensures Bit(D, k, Up(p, k)) in mask <==> At(tree, D, k, Up(p, k)) == Some(Used)
      {
        InTreePage(D, k, p);
        assert ListHolds(start, freeList[k], k, FreeBlocks(tree, D));
        assert Ptr(start, k, Up(p, k)) in freeList[k] <==> (k, Up(p, k)) in FreeBlocks(tree, D);
      }
      var k := LeafOf(tree, D, p);
      assert InBlock(k, p) by {
        var s := At(tree, D, k, Up(p, k)).value;
        assert s.Free? || s.Used?;
      }
      forall k1: nat, k2: nat | k1 <= D && k2 <= D && InBlock(k1, p) && InBlock(k2, p) ensures k1 == k2 {
        LeafUnique(tree, D, p, k1, k2);
      }
    }

    /** Every entry of list k is aligned to its size and inside the region; no two of them are buddies. */
    lemma FreeListEntries(k: nat, x: nat)
      requires Valid() && k <= D && x in freeList[k]
      ensures exists j: nat :: x == Ptr(start, k, j) && Shift(k, j + 1) <= Pow2(D)
      ensures k < D ==> x >= start && Blk2Buddy(x, start, k) !in freeList[k]
    {
      assert ListHolds(start, freeList[k], k, FreeBlocks(tree, D));
      assert IsPtr(start, k, x);
      var j: nat :| x == Ptr(start, k, j);
      BlockPages(D, k, j);
      if k < D {
        NoTwoFreeBuddies(tree, D, k, j);
        BuddyOfBlock(start, k, j);
        assert Ptr(start, k, BuddyIndex(j)) in freeList[k] <==> (k, BuddyIndex(j)) in FreeBlocks(tree, D);
      }
    }

    /** An address starts at most one allocated block. */
    lemma StartUnique(k1: nat, j1: nat, k2: nat, j2: nat)
      requires Valid() && (k1, j1) in Live() && (k2, j2) in Live()
      requires Ptr(start, k1, j1) == Ptr(start, k2, j2)
      ensures k1 == k2 && j1 == j2
    {
      UpShift(k1, j1);
      UpShift(k2, j2);
      LeafUnique(tree, D, Shift(k1, j1), k1, k2);
    }

    lemma UsedIsLive()
      requires Fits(tree, D)
      ensures AnyUsed(tree) ==> Live() != {}
    {
      if AnyUsed(tree) {
        var k, j := FindUsed(tree, D, 0);
        assert (k, j) in Live();
      }
    }

    /** With nothing allocated the state is the one buddy_init made: a single free block. */
    lemma NothingLive()
      requires Valid() && Live() == {}
      ensures mask == {} && forall k | 0 <= k <= D :: freeList[k] == if k == D then [start] else []
    {
      UsedIsLive();
      NoUsedIsFree(tree);
      forall b ensures b !in mask {
        if IsBit(D, b) {
          var k: nat, j: nat :| InTree(D, k, j) && b == Bit(D, k, j);
          BitLive(k, j);
        }
      }
      ShiftOne(D);
      forall k | 0 <= k <= D ensures freeList[k] == if k == D then [start] else [] {
        var s := freeList[k];
        assert ListHolds(start, s, k, FreeBlocks(tree, D));
        assert Ptr(start, k, 0) in s <==> (k, 0) in FreeBlocks(tree, D);
        assert (D, 0) in FreeBlocks(tree, D) && Ptr(start, D, 0) == start;
        assert |s| >= 2 ==> s[0] != s[1];
        forall i | 0 <= i < |s| ensures k == D && s[i] == start {
          assert IsPtr(start, k, s[i]);
          var j: nat :| s[i] == Ptr(start, k, j);
          assert (k, j) in FreeBlocks(tree, D);
          assert Up(j, 0) == j;
        }
        assert |s| > 0 ==> s[0] == start && k == D;
        assert |s| < 2;
        if k == D { assert s == [s[0]]; }
      }
    }

    /** At the address just past the region the level search can hit: exactly when
        page 0 is in an allocated block smaller than the region. */
    lemma EndAddress()
      requires Valid()
      ensures (exists l: nat :: l <= D && HitsEnd(l)) <==>
              (exists k: nat :: k < D && (k, 0) in Live())
    {
      forall l: nat | l <= D
        ensures HitsEnd(l) <==> l < D && (D - l - 1, 0) in Live()
      {
        EndHit(D - l);
      }
      if k: nat :| k < D && (k, 0) in Live() {
        assert HitsEnd(D - k - 1);
      }
    }

    ghost predicate HitsEnd(l: nat)
      reads this
    {
      Hit(D, mask, start + BuddyMem(D), start, l)
    }

    /** The bit tested there at level D - k is that of block (k - 1, 0). */
    lemma EndHit(k: nat)
      requires Valid() && k <= D
      ensures SizeOfLevel(D, D - k) > 0
      ensures k > 0 ==> BlkInLvl2Bit(D, start + BuddyMem(D), start, D - k) == Bit(D, k - 1, 0)
      ensures HitsEnd(D - k) <==> k > 0 && (k - 1, 0) in Live()
    {
      hide Fits, Coalesced, ListsHold, Hit;
      var p := Pow2(D);
      EndPage(D, k);
      PageInLevel(D, start, p, k);
      HitMeaning(D, mask, start, p, k);
      if k > 0 {
        UpZero(0, D - k + 1);
        BitLive(k - 1, 0);
      } else {
        NoBitPastEnd(D);
      }
    }

    /** What buddy_free does first when it takes the end address for a block of order k: the bit of
        block (k - 1, 0) is cleared and an address outside the region is queued. No tree of blocks has
        these lists. */
    lemma EndFreeBreaks(k: nat, t: Tree)
      requires Valid() && k <= D && HitsEnd(D - k)
      ensures k > 0 && (k - 1, 0) in Live() && SizeOfLevel(D, D - k) > 0
      ensures BlkInLvl2Bit(D, start + BuddyMem(D), start, D - k) == Bit(D, k - 1, 0)
      ensures !ListsHold(D, start, freeList[k := freeList[k] + [start + BuddyMem(D)]], FreeBlocks(t, D))
    {
      EndHit(k);
      var end := start + BuddyMem(D);
      var fl := freeList[k := freeList[k] + [end]];
      assert fl[k][|freeList[k]|] == end;
      forall j: nat | (k, j) in FreeBlocks(t, D) ensures Ptr(start, k, j) != end { BlockPages(D, k, j); }
      NotHeld(start, fl[k], k, FreeBlocks(t, D), end);
    }

    /** Some block other than the whole region starts the region. */
    ghost predicate SmallBlockAtStart()
      reads this
    {
      exists k: nat :: k < D && (k, 0) in Live()
    }

    lemma NoHitAtEnd(k: nat)
      requires Valid() && k <= D && !SmallBlockAtStart()
      ensures !Hit(D, mask, start + BuddyMem(D), start, D - k)
    {
      EndHit(k);
      assert HitsEnd(D - k) <==> Hit(D, mask, start + BuddyMem(D), start, D - k);
    }
  }

  lemma NotHeld(start: nat, s: seq<nat>, k: nat, F: set<(nat, nat)>, x: nat)
    requires x in s && forall j: nat {:trigger Ptr(start, k, j)} | (k, j) in F :: Ptr(start, k, j) != x
    ensures !ListHolds(start, s, k, F)
  {
    assert IsPtr(start, k, x) ==> exists j: nat :: x == Ptr(start, k, j);
  }

  /** The page number one past the region, seen from order k. */
  lemma EndPage(D: nat, k: nat)
    requires k <= D
    ensures Up(Pow2(D), k) == Pow2(D - k) && Shift(k, Pow2(D - k)) == Pow2(D)
    ensures Bit(D, k, Pow2(D - k)) == Pow2(D - k + 1) - 1
  {
    ShiftCompose(k, D - k, 1);
    ShiftOne(D);
    ShiftOne(D - k);
    UpShift(k, Pow2(D - k));
  }

  lemma NoBitPastEnd(D: nat)
    ensures !IsBit(D, Pow2(D + 1) - 1)
  {
    forall k: nat, j: nat | InTree(D, k, j) ensures Bit(D, k, j) != Pow2(D + 1) - 1 { BitRange(D, k, j); }
  }

  lemma HitMeaning(D: nat, mask: set<nat>, start: nat, p: nat, k: nat)
    requires k <= D
    ensures Hit(D, mask, start + PAGE * p, start, D - k) <==>
            Bit(D, k, Up(p, k)) in mask && p == Shift(k, Up(p, k))
  {
    hide Up, Shift, BlkInLvlAligned, SizeOfLevel;
    PageInLevel(D, start, p, k);
    var blk, l := start + PAGE * p, D - k;
    assert BlkInLvl2Bit(D, blk, start, l) == Bit(D, k, Up(p, k));
  }

  ghost predicate IsLiveStart(live: set<(nat, nat)>, start: nat, blk: nat) {
    exists k: nat, j: nat :: (k, j) in live && blk == Ptr(start, k, j)
  }

  lemma AlignedBy(x: nat)
    ensures x == Align(x, PAGE_BITS) <==> x % PAGE == 0
  {
    AlignedIff(x, PAGE_BITS);
    var u := Up(x, PAGE_BITS);
    PageShift(u);
    PageShift(u + 1);
    UpRange(x, PAGE_BITS, u);
    PageMultiple(x, u);
  }

  lemma PageMultiple(x: nat, u: nat)
    requires PAGE * u <= x < PAGE * (u + 1)
    ensures x == PAGE * u <==> x % PAGE == 0
  {
  }

  /** What the level search of buddy_free tests. */
  ghost predicate Hit(D: nat, mask: set<nat>, blk: nat, start: nat, lvl: nat) {
    && start <= blk && lvl <= D && SizeOfLevel(D, lvl) > 0
    && BlkInLvlAligned(D, blk, start, lvl) && BlkInLvl2Bit(D, blk, start, lvl) in mask
  }

  lemma BlockPages(D: nat, k: nat, j: nat)
    requires InTree(D, k, j)
    ensures Shift(k, j) < Shift(k, j + 1) <= Pow2(D)
  {
    UpZero(j, D - k);
    ShiftMonotone(k, j, j + 1);
    if j + 1 < Pow2(D - k) { ShiftMonotone(k, j + 1, Pow2(D - k)); }
    ShiftOne(D - k);
    ShiftCompose(k, D - k, 1);
    ShiftOne(D);
  }

  /** The mask and the free blocks are functions of the allocated blocks: two states with the same
      live blocks agree on the mask and, list by list, on the free blocks. */
  lemma CanonicalState(D: nat, start: nat, fl1: seq<seq<nat>>, fl2: seq<seq<nat>>,
                       mask1: set<nat>, mask2: set<nat>, t1: Tree, t2: Tree)
    requires Fits(t1, D) && Coalesced(t1) && MaskMatches(D, mask1, t1) && ListsHold(D, start, fl1, FreeBlocks(t1, D))
    requires Fits(t2, D) && Coalesced(t2) && MaskMatches(D, mask2, t2) && ListsHold(D, start, fl2, FreeBlocks(t2, D))
    requires LiveBlocks(t1, D) == LiveBlocks(t2, D)
    ensures t1 == t2 && mask1 == mask2
    ensures forall k | 0 <= k <= D :: multiset(fl1[k]) == multiset(fl2[k])
  {
    forall k: nat, j: nat {:trigger At(t1, D, k, j)} {:trigger At(t2, D, k, j)} | k <= D && Up(j, D - k) == 0
      ensures At(t1, D, k, j) == Some(Used) <==> At(t2, D, k, j) == Some(Used)
    {
      assert (k, j) in LiveBlocks(t1, D) <==> (k, j) in LiveBlocks(t2, D);
    }
    Canonical(t1, t2, D, 0);
    MaskUnique(D, mask1, mask2, t1);
    forall k | 0 <= k <= D ensures multiset(fl1[k]) == multiset(fl2[k]) {
      assert ListHolds(start, fl1[k], k, FreeBlocks(t1, D)) && ListHolds(start, fl2[k], k, FreeBlocks(t1, D));
      forall x ensures x in fl1[k] <==> x in fl2[k] { assert x in fl1[k] || x in fl2[k] ==> IsPtr(start, k, x); }
      DistinctMultiset(fl1[k], fl2[k]);
    }
  }

  lemma {:induction false} DistinctCount(s: seq<nat>, x: nat)
    requires Distinct(s)
    ensures multiset(s)[x] == if x in s then 1 else 0
  {
    if s == [] {
    } else {
      assert s == [s[0]] + s[1..];
      DistinctCount(s[1..], x);
      assert s[0] !in s[1..];
    }
  }

  lemma DistinctMultiset(s1: seq<nat>, s2: seq<nat>)
    requires Distinct(s1) && Distinct(s2) && forall x :: x in s1 <==> x in s2
    ensures multiset(s1) == multiset(s2)
  {
    forall x ensures multiset(s1)[x] == multiset(s2)[x] {
      DistinctCount(s1, x);
      DistinctCount(s2, x);
    }
  }

  /** The aligned run of 2^k pages with index j holds a page of an allocated block. */
  ghost predicate RunHasUsedPage(t: Tree, D: nat, k: nat, j: nat) {
    exists p: nat :: Up(p, k) == j && PageUsed(t, D, p)
  }
}
