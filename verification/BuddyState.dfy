/** How the free lists and the mask of the buddy allocator represent its tree, and what
    one split, merge, allocation or release step does to them. */
module BuddyState {
  import opened Wrappers
  import opened Lists
  import opened Pigeonhole
  import opened Powers
  import opened BuddyTree
  import opened BuddyAddress

  /** The blocks on the free lists and the allocated blocks, as (order, index) pairs. */
  ghost function FreeBlocks(t: Tree, D: nat): (r: set<(nat, nat)>)
    ensures forall k: nat, j: nat :: (k, j) in r <==> FreeAt(t, D, k, j)
  {
    Bounded(D);
    set k: nat, j: nat | k <= D && j < Pow2(D) && FreeAt(t, D, k, j) :: (k, j)
  }

  ghost function LiveBlocks(t: Tree, D: nat): (r: set<(nat, nat)>)
    ensures forall k: nat, j: nat :: (k, j) in r <==> UsedAt(t, D, k, j)
  {
    Bounded(D);
    set k: nat, j: nat | k <= D && j < Pow2(D) && UsedAt(t, D, k, j) :: (k, j)
  }

  lemma Bounded(D: nat)
    ensures forall k: nat, j: nat | InTree(D, k, j) :: j < Pow2(D)
  {
    forall k: nat, j: nat | InTree(D, k, j) ensures j < Pow2(D) {
      UpZero(j, D - k);
      Pow2Monotone(D - k, D);
    }
  }

  // ----- lists

  /** List k holds the addresses of the blocks of order k in F, each once. */
  ghost predicate ListHolds(start: nat, s: seq<nat>, k: nat, F: set<(nat, nat)>) {
    && Distinct(s)
    && (forall j: nat {:trigger Ptr(start, k, j)} :: Ptr(start, k, j) in s <==> (k, j) in F)
    && (forall x {:trigger IsPtr(start, k, x)} | x in s :: IsPtr(start, k, x))
  }

  ghost predicate IsPtr(start: nat, k: nat, x: nat) {
    exists j: nat :: x == Ptr(start, k, j)
  }

  ghost predicate ListsHold(D: nat, start: nat, fl: seq<seq<nat>>, F: set<(nat, nat)>) {
    && |fl| == D + 1
    && forall k | 0 <= k <= D :: ListHolds(start, fl[k], k, F)
  }

  lemma PushHolds(D: nat, start: nat, fl: seq<seq<nat>>, F: set<(nat, nat)>, k: nat, j: nat)
    requires ListsHold(D, start, fl, F) && k <= D && (k, j) !in F
    ensures ListsHold(D, start, fl[k := fl[k] + [Ptr(start, k, j)]], F + {(k, j)})
  {
    var s, G := fl[k] + [Ptr(start, k, j)], F + {(k, j)};
    assert ListHolds(start, fl[k], k, F);
    assert Distinct(s) by { assert Ptr(start, k, j) !in fl[k]; }
    forall i: nat ensures Ptr(start, k, i) in s <==> (k, i) in G { PtrInjective(start, k, i, j); }
    forall x | x in s ensures IsPtr(start, k, x) { }
    var fl2 := fl[k := s];
    forall l | 0 <= l <= D ensures ListHolds(start, fl2[l], l, G) {
      if l != k { assert ListHolds(start, fl[l], l, F); }
    }
  }

  lemma DeleteHolds(D: nat, start: nat, fl: seq<seq<nat>>, F: set<(nat, nat)>, k: nat, j: nat)
    requires ListsHold(D, start, fl, F) && k <= D
    ensures ListsHold(D, start, fl[k := Unlinked(fl[k], Ptr(start, k, j))], F - {(k, j)})
  {
    var s, G := Unlinked(fl[k], Ptr(start, k, j)), F - {(k, j)};
    assert ListHolds(start, fl[k], k, F);
    UnlinkedHas(fl[k], Ptr(start, k, j));
    forall i: nat ensures Ptr(start, k, i) in s <==> (k, i) in G { PtrInjective(start, k, i, j); }
    forall x | x in s ensures IsPtr(start, k, x) { }
    var fl2 := fl[k := s];
    forall l | 0 <= l <= D ensures ListHolds(start, fl2[l], l, G) {
      if l != k { assert ListHolds(start, fl[l], l, F); }
    }
  }

  // ----- what replacing a subtree does to the blocks

  lemma LeafSets(t: Tree, D: nat, k: nat, j: nat, s: Tree, k2: nat, j2: nat)
    requires InTree(D, k, j) && InTree(D, k2, j2) && At(t, D, k, j).Some?
    ensures FreeAt(Put(t, D, k, j, s), D, k2, j2) <==>
            if Under(k2, j2, k, j) then At(s, k, k2, j2) == Some(Free) else FreeAt(t, D, k2, j2)
    ensures UsedAt(Put(t, D, k, j, s), D, k2, j2) <==>
            if Under(k2, j2, k, j) then At(s, k, k2, j2) == Some(Used) else UsedAt(t, D, k2, j2)
  {
    PutLeaf(t, D, k, j, s, k2, j2, Free);
    PutLeaf(t, D, k, j, s, k2, j2, Used);
  }

  /** Nothing lies below a leaf. */
  lemma {:induction false} BelowLeaf(t: Tree, D: nat, k: nat, j: nat, k2: nat, j2: nat)
    requires k <= D && k2 < k && Under(k2, j2, k, j) && At(t, D, k, j).Some? && !At(t, D, k, j).value.Split?
    ensures At(t, D, k2, j2).None?
  {
    if k >= D {
    } else {
      UpCompose(j2, k - k2, D - 1 - k);
      BelowLeaf(if GoesRight(D, k, j) then t.right else t.left, D - 1, k, j, k2, j2);
    }
  }

  /** Replacing one leaf by another. */
  lemma PutLeafBlocks(t: Tree, D: nat, k: nat, j: nat, was: Tree, leaf: Tree)
    requires InTree(D, k, j) && At(t, D, k, j) == Some(was) && !was.Split? && !leaf.Split?
    ensures var u := Put(t, D, k, j, leaf);
            && FreeBlocks(u, D) == (if leaf.Free? then FreeBlocks(t, D) + {(k, j)} else FreeBlocks(t, D) - {(k, j)})
            && LiveBlocks(u, D) == (if leaf.Used? then LiveBlocks(t, D) + {(k, j)} else LiveBlocks(t, D) - {(k, j)})
  {
    var u := Put(t, D, k, j, leaf);
    forall k2: nat, j2: nat | InTree(D, k2, j2)
      ensures FreeAt(u, D, k2, j2) <==> if (k2, j2) == (k, j) then leaf.Free? else FreeAt(t, D, k2, j2)
      ensures UsedAt(u, D, k2, j2) <==> if (k2, j2) == (k, j) then leaf.Used? else UsedAt(t, D, k2, j2)
    {
      LeafSets(t, D, k, j, leaf, k2, j2);
      if Under(k2, j2, k, j) && k2 < k { BelowLeaf(t, D, k, j, k2, j2); }
    }
  }

  lemma UpOne(j: nat)
    ensures Up(j, 1) == j / 2
    ensures forall i: nat | i / 2 == j / 2 :: i == j || i == BuddyIndex(j)
  {
    assert Up(j, 0) == j;
  }

  /** What splitting free block (k, j) does to node (k2, j2). */
  lemma SplitSets(t: Tree, D: nat, k: nat, j: nat, k2: nat, j2: nat)
    requires 0 < k && InTree(D, k, j) && At(t, D, k, j) == Some(Free) && InTree(D, k2, j2)
    ensures var u := Put(t, D, k, j, Split(Free, Free));
            && (FreeAt(u, D, k2, j2) <==> (k2 == k - 1 && j2 / 2 == j) || ((k2, j2) != (k, j) && FreeAt(t, D, k2, j2)))
            && (UsedAt(u, D, k2, j2) <==> UsedAt(t, D, k2, j2))
  {
    var s := Split(Free, Free);
    LeafSets(t, D, k, j, s, k2, j2);
    UpOne(j2);
    if Under(k2, j2, k, j) {
      if k2 < k { BelowLeaf(t, D, k, j, k2, j2); }
      if k2 == k - 1 { assert At(s, k, k2, j2) == Some(Free); }
    }
  }

  /** Splitting a free block. */
  lemma PutSplitBlocks(t: Tree, D: nat, k: nat, j: nat)
    requires 0 < k && InTree(D, k, j) && At(t, D, k, j) == Some(Free)
    ensures var u := Put(t, D, k, j, Split(Free, Free));
            && FreeBlocks(u, D) == FreeBlocks(t, D) - {(k, j)} + {(k - 1, 2 * j)} + {(k - 1, 2 * j + 1)}
            && LiveBlocks(u, D) == LiveBlocks(t, D)
            && At(u, D, k - 1, 2 * j) == Some(Free) && At(u, D, k - 1, 2 * j + 1) == Some(Free)
  {
    var u := Put(t, D, k, j, Split(Free, Free));
    InTreeChild(D, k, j);
    forall k2: nat, j2: nat | InTree(D, k2, j2)
      ensures FreeAt(u, D, k2, j2) <==> (k2 == k - 1 && j2 / 2 == j) || ((k2, j2) != (k, j) && FreeAt(t, D, k2, j2))
      ensures UsedAt(u, D, k2, j2) <==> UsedAt(t, D, k2, j2)
    {
      SplitSets(t, D, k, j, k2, j2);
    }
    SplitSets(t, D, k, j, k - 1, 2 * j);
    SplitSets(t, D, k, j, k - 1, 2 * j + 1);
  }

  /** The parent of two free buddies is there. */
  lemma ParentThere(t: Tree, D: nat, k: nat, j: nat)
    requires k < D && InTree(D, k, j) && At(t, D, k, j) == Some(Free) && At(t, D, k, BuddyIndex(j)) == Some(Free)
    ensures InTree(D, k + 1, j / 2) && At(t, D, k + 1, j / 2) == Some(Split(Free, Free))
  {
    UpHead(j, D - k);
    AtChild(t, D, k + 1, j / 2);
    InTreeChild(D, k + 1, j / 2);
  }

  /** Below two free buddies there is no block. */
  lemma BelowBuddies(t: Tree, D: nat, k: nat, j: nat, k2: nat, j2: nat)
    requires k < D && At(t, D, k, j) == Some(Free) && At(t, D, k, BuddyIndex(j)) == Some(Free)
    requires k2 < k && Under(k2, j2, k + 1, j / 2)
    ensures At(t, D, k2, j2).None?
  {
    var j3 := Up(j2, k - k2);
    UpCompose(j2, k - k2, 1);
    UpOne(j);
    UpOne(j3);
    BelowLeaf(t, D, k, j3, k2, j2);
  }

  /** What merging free block (k, j) with its free buddy does to node (k2, j2). */
  lemma MergeSets(t: Tree, D: nat, k: nat, j: nat, k2: nat, j2: nat)
    requires k < D && InTree(D, k, j) && At(t, D, k, j) == Some(Free) && At(t, D, k, BuddyIndex(j)) == Some(Free)
    requires InTree(D, k2, j2) && At(t, D, k + 1, j / 2) == Some(Split(Free, Free)) && InTree(D, k + 1, j / 2)
    ensures var u := Put(t, D, k + 1, j / 2, Free);
            && (FreeAt(u, D, k2, j2) <==>
                  (k2, j2) == (k + 1, j / 2) || (!(k2 == k && j2 / 2 == j / 2) && FreeAt(t, D, k2, j2)))
            && (UsedAt(u, D, k2, j2) <==> UsedAt(t, D, k2, j2))
  {
    LeafSets(t, D, k + 1, j / 2, Free, k2, j2);
    UpOne(j2);
    UpOne(j);
    if Under(k2, j2, k + 1, j / 2) && k2 < k { BelowBuddies(t, D, k, j, k2, j2); }
  }

  /** Merging two free buddies. */
  lemma PutMergeBlocks(t: Tree, D: nat, k: nat, j: nat)
    requires k < D && InTree(D, k, j) && At(t, D, k, j) == Some(Free) && At(t, D, k, BuddyIndex(j)) == Some(Free)
    ensures InTree(D, k + 1, j / 2) && At(t, D, k + 1, j / 2) == Some(Split(Free, Free))
    ensures var u := Put(t, D, k + 1, j / 2, Free);
            && FreeBlocks(u, D) == FreeBlocks(t, D) - {(k, j)} - {(k, BuddyIndex(j))} + {(k + 1, j / 2)}
            && LiveBlocks(u, D) == LiveBlocks(t, D)
  {
    ParentThere(t, D, k, j);
    UpOne(j);
    var u := Put(t, D, k + 1, j / 2, Free);
    forall k2: nat, j2: nat | InTree(D, k2, j2)
      ensures FreeAt(u, D, k2, j2) <==>
                (k2, j2) == (k + 1, j / 2) || (!(k2 == k && j2 / 2 == j / 2) && FreeAt(t, D, k2, j2))
      ensures UsedAt(u, D, k2, j2) <==> UsedAt(t, D, k2, j2)
    {
      MergeSets(t, D, k, j, k2, j2);
    }
  }
}
