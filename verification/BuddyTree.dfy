/** The abstract state of the buddy allocator: a binary tree whose leaves are the
    free and the allocated blocks. A node is named by its order k (a block of 2^k
    pages) and its index j among the aligned blocks of that order. */
module BuddyTree {
  import opened Wrappers
  import opened Powers

  datatype Tree = Free | Used | Split(left: Tree, right: Tree)

  /** Node (k, j) exists in a tree of 2^h pages. */
  predicate InTree(h: nat, k: nat, j: nat) {
    k <= h && Up(j, h - k) == 0
  }

  /** Node (k2, j2) is (k, j) or lies below it. */
  predicate Under(k2: nat, j2: nat, k: nat, j: nat) {
    k2 <= k && Up(j2, k - k2) == j
  }

  predicate Fits(t: Tree, h: nat) {
    t.Split? ==> h > 0 && Fits(t.left, h - 1) && Fits(t.right, h - 1)
  }

  /** No two free buddies anywhere: merging has been carried out to the end. */
  predicate Coalesced(t: Tree) {
    t.Split? ==> !(t.left.Free? && t.right.Free?) && Coalesced(t.left) && Coalesced(t.right)
  }

  predicate AnyUsed(t: Tree) {
    t.Used? || (t.Split? && (AnyUsed(t.left) || AnyUsed(t.right)))
  }

  /** Does the path to (k, j) turn right just below a node of order h? */
  predicate GoesRight(h: nat, k: nat, j: nat)
    requires k < h
  {
    Up(j, h - 1 - k) % 2 == 1
  }

  /** The subtree at node (k, j), if the tree is split down to it. */
  function At(t: Tree, h: nat, k: nat, j: nat): Option<Tree>
    requires k <= h
  {
    if k == h then Some(t)
    else if !t.Split? then None
    else At(if GoesRight(h, k, j) then t.right else t.left, h - 1, k, j)
  }

  ghost predicate FreeAt(t: Tree, h: nat, k: nat, j: nat) {
    InTree(h, k, j) && At(t, h, k, j) == Some(Free)
  }

  ghost predicate UsedAt(t: Tree, h: nat, k: nat, j: nat) {
    InTree(h, k, j) && At(t, h, k, j) == Some(Used)
  }

  /** Replaces the subtree at node (k, j). */
  function Put(t: Tree, h: nat, k: nat, j: nat, s: Tree): Tree
    requires k <= h && At(t, h, k, j).Some?
  {
    if k == h then s
    else if GoesRight(h, k, j) then Split(t.left, Put(t.right, h - 1, k, j, s))
    else Split(Put(t.left, h - 1, k, j, s), t.right)
  }

  /** Coalesced, except that the parent of (k, j) may hold two free buddies. */
  predicate CoalescedBut(t: Tree, h: nat, k: nat, j: nat)
    requires k <= h
  {
    if k == h then Coalesced(t)
    else t.Split? &&
         if GoesRight(h, k, j) then Coalesced(t.left) && CoalescedBut(t.right, h - 1, k, j)
         else Coalesced(t.right) && CoalescedBut(t.left, h - 1, k, j)
  }

  /** index ^ 1 */
  function BuddyIndex(j: nat): nat {
    if j % 2 == 0 then j + 1 else j - 1
  }

  // ----- paths

  lemma {:induction false} AtChild(t: Tree, h: nat, k: nat, j: nat)
    requires 0 < k <= h
    ensures At(t, h, k - 1, 2 * j) ==
            (var s := At(t, h, k, j); if s.Some? && s.value.Split? then Some(s.value.left) else None)
    ensures At(t, h, k - 1, 2 * j + 1) ==
            (var s := At(t, h, k, j); if s.Some? && s.value.Split? then Some(s.value.right) else None)
  {
    if k == h {
    } else {
      UpHead(2 * j, h - k);
      UpHead(2 * j + 1, h - k);
      if t.Split? {
        AtChild(if GoesRight(h, k, j) then t.right else t.left, h - 1, k, j);
      }
    }
  }

  lemma {:induction false} InTreeChild(h: nat, k: nat, j: nat)
    requires 0 < k <= h
    ensures InTree(h, k - 1, 2 * j) == InTree(h, k - 1, 2 * j + 1) == InTree(h, k, j)
  {
    UpHead(2 * j, h - k + 1);
    UpHead(2 * j + 1, h - k + 1);
  }

  lemma InTreePage(h: nat, k: nat, p: nat)
    requires k <= h && p < Pow2(h)
    ensures InTree(h, k, Up(p, k))
  {
    UpCompose(p, k, h - k);
    UpZero(p, h);
  }

  lemma {:induction false} AtFits(t: Tree, h: nat, k: nat, j: nat)
    requires k <= h && Fits(t, h)
    ensures At(t, h, k, j).Some? ==> Fits(At(t, h, k, j).value, k)
  {
    if k == h || !t.Split? {
    } else {
      AtFits(if GoesRight(h, k, j) then t.right else t.left, h - 1, k, j);
    }
  }

  lemma {:induction false} AtCoalesced(t: Tree, h: nat, k: nat, j: nat)
    requires k <= h && CoalescedBut(t, h, k, j)
    ensures At(t, h, k, j).Some? && Coalesced(At(t, h, k, j).value)
  {
    if k == h {
    } else {
      AtCoalesced(if GoesRight(h, k, j) then t.right else t.left, h - 1, k, j);
    }
  }

  lemma {:induction false} PutFits(t: Tree, h: nat, k: nat, j: nat, s: Tree)
    requires k <= h && At(t, h, k, j).Some? && Fits(t, h) && Fits(s, k)
    ensures Fits(Put(t, h, k, j, s), h)
  {
    if k == h {
    } else {
      PutFits(if GoesRight(h, k, j) then t.right else t.left, h - 1, k, j, s);
    }
  }

  /** What Put does to the leaves: those under (k, j) become the leaves of s, all others stay. */
  lemma {:induction false} PutLeaf(t: Tree, h: nat, k: nat, j: nat, s: Tree, k2: nat, j2: nat, leaf: Tree)
    requires k <= h && k2 <= h && At(t, h, k, j).Some? && !leaf.Split?
    requires Up(j, h - k) == Up(j2, h - k2)
    ensures Under(k2, j2, k, j) ==>
              At(Put(t, h, k, j, s), h, k2, j2) == At(s, k, k2, j2)
    ensures !Under(k2, j2, k, j) ==>
              (At(Put(t, h, k, j, s), h, k2, j2) == Some(leaf) <==> At(t, h, k2, j2) == Some(leaf))
  {
    if k == h || k2 >= h {
    } else {
      if GoesRight(h, k, j) == GoesRight(h, k2, j2) {
        PutLeaf(if GoesRight(h, k, j) then t.right else t.left, h - 1, k, j, s, k2, j2, leaf);
      } else if Under(k2, j2, k, j) {
        UpCompose(j2, k - k2, h - 1 - k);
      }
    }
  }

  // ----- coalescing

  lemma {:induction false} CoalescedIsCoalescedBut(t: Tree, h: nat, k: nat, j: nat)
    requires k <= h && Coalesced(t) && At(t, h, k, j).Some?
    ensures CoalescedBut(t, h, k, j)
  {
    if k == h {
    } else {
      CoalescedIsCoalescedBut(if GoesRight(h, k, j) then t.right else t.left, h - 1, k, j);
    }
  }

  lemma {:induction false} PutCoalescedBut(t: Tree, h: nat, k: nat, j: nat, s: Tree)
    requires k <= h && CoalescedBut(t, h, k, j) && Coalesced(s) && At(t, h, k, j).Some?
    ensures CoalescedBut(Put(t, h, k, j, s), h, k, j)
  {
    if k == h {
    } else {
      PutCoalescedBut(if GoesRight(h, k, j) then t.right else t.left, h - 1, k, j, s);
    }
  }

  /** The exception is harmless as soon as one of the two buddies is not free. */
  lemma {:induction false} CoalescedButIsCoalesced(t: Tree, h: nat, k: nat, j: nat)
    requires k <= h && CoalescedBut(t, h, k, j)
    requires k == h || At(t, h, k, j) != Some(Free) || At(t, h, k, BuddyIndex(j)) != Some(Free)
    ensures Coalesced(t)
  {
    if k == h {
    } else {
      AtCoalesced(t, h, k, j);
      BuddyPaths(h, k, j);
      if k + 1 < h {
        CoalescedButIsCoalesced(if GoesRight(h, k, j) then t.right else t.left, h - 1, k, j);
      }
    }
  }

  /** A node and its buddy part only at their common parent. */
  lemma {:induction false} BuddyPaths(h: nat, k: nat, j: nat)
    requires k < h
    ensures k + 1 == h ==> GoesRight(h, k, BuddyIndex(j)) != GoesRight(h, k, j)
    ensures k + 1 < h ==> GoesRight(h, k, BuddyIndex(j)) == GoesRight(h, k, j)
    ensures InTree(h, k, BuddyIndex(j)) == InTree(h, k, j)
    ensures BuddyIndex(j) / 2 == j / 2 && BuddyIndex(BuddyIndex(j)) == j
  {
    UpHead(j, h - k);
    UpHead(BuddyIndex(j), h - k);
    if k + 1 >= h {
    } else {
      UpHead(j, h - 1 - k);
      UpHead(BuddyIndex(j), h - 1 - k);
    }
  }

  /** A merge or a split step moves the one exception up or down the path. */
  lemma {:induction false} MergeCoalescedBut(t: Tree, h: nat, k: nat, j: nat)
    requires k < h && CoalescedBut(t, h, k, j) && At(t, h, k + 1, j / 2).Some?
    ensures CoalescedBut(Put(t, h, k + 1, j / 2, Free), h, k + 1, j / 2)
  {
    if k + 1 >= h {
    } else {
      UpHead(j, h - 1 - k);
      MergeCoalescedBut(if GoesRight(h, k, j) then t.right else t.left, h - 1, k, j);
    }
  }

  lemma {:induction false} SplitCoalescedBut(t: Tree, h: nat, k: nat, j: nat)
    requires 0 < k <= h && CoalescedBut(t, h, k, j) && At(t, h, k, j) == Some(Free)
    ensures CoalescedBut(Put(t, h, k, j, Split(Free, Free)), h, k - 1, 2 * j)
  {
    UpHead(2 * j, h - k + 1);
    if k == h {
    } else {
      UpHead(2 * j, h - k);
      SplitCoalescedBut(if GoesRight(h, k, j) then t.right else t.left, h - 1, k, j);
    }
  }

  lemma {:induction false} NoUsedIsFree(t: Tree)
    requires Coalesced(t) && !AnyUsed(t)
    ensures t.Free?
  {
    if !t.Split? {
    } else {
      NoUsedIsFree(t.left);
      NoUsedIsFree(t.right);
    }
  }

  /** No two buddies of the same order are both free. */
  lemma {:induction false} NoTwoFreeBuddies(t: Tree, h: nat, k: nat, j: nat)
    requires Coalesced(t) && k < h && At(t, h, k, j) == Some(Free)
    ensures At(t, h, k, BuddyIndex(j)) != Some(Free)
  {
    BuddyPaths(h, k, j);
    if k + 1 >= h {
    } else {
      NoTwoFreeBuddies(if GoesRight(h, k, j) then t.right else t.left, h - 1, k, j);
    }
  }

  // ----- the free blocks are a function of the used ones

  lemma {:induction false} FindUsed(t: Tree, h: nat, i: nat) returns (k: nat, j: nat)
    requires Fits(t, h) && AnyUsed(t)
    ensures k <= h && Up(j, h - k) == i && At(t, h, k, j) == Some(Used)
  {
    if t.Used? {
      k, j := h, i;
    } else if AnyUsed(t.left) {
      k, j := FindUsed(t.left, h - 1, 2 * i);
    } else {
      k, j := FindUsed(t.right, h - 1, 2 * i + 1);
    }
  }

  ghost predicate SameUsed(t1: Tree, t2: Tree, h: nat, i: nat) {
    forall k: nat, j: nat {:trigger At(t1, h, k, j)} {:trigger At(t2, h, k, j)} | k <= h && Up(j, h - k) == i ::
      At(t1, h, k, j) == Some(Used) <==> At(t2, h, k, j) == Some(Used)
  }

  lemma {:induction false} SameUsedChild(t1: Tree, t2: Tree, h: nat, i: nat)
    requires h > 0 && t1.Split? && t2.Split? && SameUsed(t1, t2, h, i)
    ensures SameUsed(t1.left, t2.left, h - 1, 2 * i)
    ensures SameUsed(t1.right, t2.right, h - 1, 2 * i + 1)
  {
    forall k: nat, j: nat {:trigger At(t1.left, h - 1, k, j)} {:trigger At(t2.left, h - 1, k, j)}
      | k <= h - 1 && Up(j, h - 1 - k) == 2 * i
      ensures At(t1.left, h - 1, k, j) == Some(Used) <==> At(t2.left, h - 1, k, j) == Some(Used)
    {
      assert At(t1, h, k, j) == At(t1.left, h - 1, k, j);
      assert At(t2, h, k, j) == At(t2.left, h - 1, k, j);
    }
    forall k: nat, j: nat {:trigger At(t1.right, h - 1, k, j)} {:trigger At(t2.right, h - 1, k, j)}
      | k <= h - 1 && Up(j, h - 1 - k) == 2 * i + 1
      ensures At(t1.right, h - 1, k, j) == Some(Used) <==> At(t2.right, h - 1, k, j) == Some(Used)
    {
      assert At(t1, h, k, j) == At(t1.right, h - 1, k, j);
      assert At(t2, h, k, j) == At(t2.right, h - 1, k, j);
    }
  }

  /** Two fully merged trees with the same used blocks are the same tree. */
  lemma {:induction false} Canonical(t1: Tree, t2: Tree, h: nat, i: nat)
    requires Fits(t1, h) && Fits(t2, h) && Coalesced(t1) && Coalesced(t2)
    requires SameUsed(t1, t2, h, i)
    ensures t1 == t2
  {
    assert At(t1, h, h, i) == Some(t1) && At(t2, h, h, i) == Some(t2);
    if t1.Split? && t2.Split? {
      SameUsedChild(t1, t2, h, i);
      Canonical(t1.left, t2.left, h - 1, 2 * i);
      Canonical(t1.right, t2.right, h - 1, 2 * i + 1);
    } else if AnyUsed(t1) {
      var k, j := FindUsed(t1, h, i);
      if t2.Split? { UsedThere(t2, h, k, j); }
    } else {
      NoUsedIsFree(t1);
      if AnyUsed(t2) {
        var k, j := FindUsed(t2, h, i);
      }
      NoUsedIsFree(t2);
    }
  }

  lemma {:induction false} UsedThere(t: Tree, h: nat, k: nat, j: nat)
    requires k <= h && At(t, h, k, j) == Some(Used)
    ensures AnyUsed(t)
  {
    if k == h {
    } else {
      UsedThere(if GoesRight(h, k, j) then t.right else t.left, h - 1, k, j);
    }
  }

  // ----- pages

  /** Page p lies in an allocated block. */
  ghost predicate PageUsed(t: Tree, h: nat, p: nat) {
    exists k: nat :: k <= h && At(t, h, k, Up(p, k)) == Some(Used)
  }

  /** Every page lies in a free or an allocated block ... */
  lemma {:induction false} LeafOf(t: Tree, h: nat, p: nat) returns (k: nat)
    requires Fits(t, h)
    ensures k <= h && At(t, h, k, Up(p, k)).Some? && !At(t, h, k, Up(p, k)).value.Split?
  {
    if t.Split? {
      var r := GoesRight(h, h - 1, Up(p, h - 1));
      k := LeafOf(if r then t.right else t.left, h - 1, p);
      UpCompose(p, k, h - 1 - k);
    } else {
      k := h;
    }
  }

  /** ... and in one only: the order of the block is determined. */
  lemma {:induction false} LeafUnique(t: Tree, h: nat, p: nat, k1: nat, k2: nat)
    requires k1 <= h && k2 <= h
    requires At(t, h, k1, Up(p, k1)).Some? && !At(t, h, k1, Up(p, k1)).value.Split?
    requires At(t, h, k2, Up(p, k2)).Some? && !At(t, h, k2, Up(p, k2)).value.Split?
    ensures k1 == k2
  {
    if k1 >= h || k2 >= h {
    } else {
      UpCompose(p, k1, h - 1 - k1);
      UpCompose(p, k2, h - 1 - k2);
      LeafUnique(if GoesRight(h, k1, Up(p, k1)) then t.right else t.left, h - 1, p, k1, k2);
    }
  }

  /** No block of order k or more is free below node (h, i). */
  ghost predicate NoFreeFrom(t: Tree, h: nat, k: nat, i: nat) {
    forall k2: nat, j2: nat {:trigger At(t, h, k2, j2)} | k <= k2 <= h && Up(j2, h - k2) == i ::
      At(t, h, k2, j2) != Some(Free)
  }

  /** If nothing free is as large as order k, each aligned run of 2^k pages holds an allocated page. */
  lemma {:induction false} NoRoom(t: Tree, h: nat, k: nat, j: nat) returns (p: nat)
    requires k <= h && Fits(t, h) && Coalesced(t)
    requires NoFreeFrom(t, h, k, Up(j, h - k))
    ensures Up(p, k) == j && PageUsed(t, h, p)
  {
    assert At(t, h, h, Up(j, h - k)) == Some(t);
    if t.Used? {
      p := Shift(k, j);
      UpShift(k, j);
      UpCompose(p, k, h - k);
      assert At(t, h, h, Up(p, h)) == Some(Used);
    } else if k == h {
      if !AnyUsed(t) { NoUsedIsFree(t); }
      var k2, j2 := FindUsed(t, h, j);
      p := Shift(k2, j2);
      UpShift(k2, j2);
      UpCompose(p, k2, h - k2);
      assert At(t, h, k2, Up(p, k2)) == Some(Used);
    } else {
      var c := if GoesRight(h, k, j) then t.right else t.left;
      forall k2: nat, j2: nat {:trigger At(c, h - 1, k2, j2)}
        | k <= k2 <= h - 1 && Up(j2, h - 1 - k2) == Up(j, h - 1 - k)
        ensures At(c, h - 1, k2, j2) != Some(Free)
      {
        assert Up(j2, h - k2) == Up(j, h - k);
        assert At(t, h, k2, j2) == At(c, h - 1, k2, j2);
      }
      p := NoRoom(c, h - 1, k, j);
      var k3: nat :| k3 <= h - 1 && At(c, h - 1, k3, Up(p, k3)) == Some(Used);
      UpCompose(p, k3, h - 1 - k3);
      UpCompose(p, k, h - 1 - k);
      assert At(t, h, k3, Up(p, k3)) == Some(Used);
    }
  }

  /** Conversely, a page in a free block is in no allocated one. */
  lemma {:induction false} FreePageNotUsed(t: Tree, h: nat, k: nat, p: nat)
    requires k <= h && At(t, h, k, Up(p, k)) == Some(Free)
    ensures !PageUsed(t, h, p)
  {
    if PageUsed(t, h, p) {
      var k2: nat :| k2 <= h && At(t, h, k2, Up(p, k2)) == Some(Used);
      LeafUnique(t, h, p, k, k2);
    }
  }
}
