/** Runs of the buddy allocator: an allocation followed by its release, and the release
    of everything in any order. */
module BuddyRuns {
  import opened Wrappers
  import opened Pigeonhole
  import opened Powers
  import opened BuddyTree
  import opened BuddyAddress
  import opened BuddyState
  import opened Buddy

  /** Allocating and freeing the result restores the mask and, list by list, the free blocks. */
  method AllocThenFree(b: BuddyAllocator, bytes: nat) returns (r: Option<nat>, rv: int)
    requires b.Valid() && bytes < UINT32 && b.D < 32 && b.start % PAGE == 0 && b.start > 0
    modifies b
    ensures b.Valid() && b.mask == old(b.mask)
    ensures r.Some? ==> rv == 0
    ensures forall k | 0 <= k <= b.D :: multiset(b.freeList[k]) == multiset(old(b.freeList)[k])
  {
    ghost var idx, k2, idx2;
    rv := 0;
    r, idx := b.BuddyAlloc(bytes);
    if r.Some? {
      ghost var k := Size2Order(bytes);
      BlockPages(b.D, k, idx);
      assert (k, idx) in b.Live();
      assert IsLiveStart(b.Live(), b.start, r.value);
      forall k3: nat, j3: nat | (k3, j3) in b.Live() && Ptr(b.start, k3, j3) == r.value
        ensures k3 == k && j3 == idx
      {
        b.StartUnique(k, idx, k3, j3);
      }
      rv, k2, idx2 := b.BuddyFree(r.value);
      assert b.Live() == old(b.Live());
    }
    CanonicalState(b.D, b.start, old(b.freeList), b.freeList, old(b.mask), b.mask, old(b.tree), b.tree);
  }

  /** blks lists the starts of the allocated blocks, each once. */
  ghost predicate AllStarts(live: set<(nat, nat)>, start: nat, blks: seq<nat>) {
    && Distinct(blks)
    && (forall i | 0 <= i < |blks| :: IsLiveStart(live, start, blks[i]))
    && (forall k: nat, j: nat {:trigger Ptr(start, k, j)} | (k, j) in live :: Ptr(start, k, j) in blks)
  }

  lemma AllStartsTail(live: set<(nat, nat)>, start: nat, s: seq<nat>, k0: nat, j0: nat)
    requires AllStarts(live, start, s) && s != [] && Ptr(start, k0, j0) == s[0]
    requires forall k: nat, j: nat {:trigger Ptr(start, k, j)} | (k, j) in live && Ptr(start, k, j) == s[0] ::
               k == k0 && j == j0
    ensures AllStarts(live - {(k0, j0)}, start, s[1..])
  {
    var rest, live2 := s[1..], live - {(k0, j0)};
    forall m | 0 <= m < |rest| ensures IsLiveStart(live2, start, rest[m]) {
      assert rest[m] == s[m + 1] != s[0];
      var k: nat, j: nat :| (k, j) in live && s[m + 1] == Ptr(start, k, j);
      assert (k, j) in live2;
    }
    forall k: nat, j: nat {:trigger Ptr(start, k, j)} | (k, j) in live2 ensures Ptr(start, k, j) in rest {
      assert s == [s[0]] + rest;
    }
  }

  /** Freeing everything, in whatever order, restores the single top block. */
  method FreeAll(b: BuddyAllocator, blks: seq<nat>) returns (failed: bool)
    requires b.Valid() && AllStarts(b.Live(), b.start, blks) && b.start % PAGE == 0 && b.start > 0
    modifies b
    ensures b.Valid() && !failed && b.Live() == {} && b.mask == {}
    ensures forall k | 0 <= k <= b.D :: b.freeList[k] == if k == b.D then [b.start] else []
  {
    failed := false;
    var i := 0;
    while i < |blks|
      invariant 0 <= i <= |blks| && b.Valid() && !failed
      invariant AllStarts(b.Live(), b.start, blks[i..])
    {
      ghost var s := blks[i..];
      assert s[0] == blks[i] && s[1..] == blks[i + 1..];
      ghost var k0, j0 := LiveStart(b, blks[i]);
      AllStartsTail(b.Live(), b.start, s, k0, j0);
      var rv, k1, j1 := b.BuddyFree(blks[i]);
      failed := failed || rv != 0;
      i := i + 1;
    }
    forall x ensures x !in b.Live() {
      assert Ptr(b.start, x.0, x.1) !in blks[i..];
    }
    b.NothingLive();
  }

  lemma LiveStart(b: BuddyAllocator, x: nat) returns (k0: nat, j0: nat)
    requires b.Valid() && IsLiveStart(b.Live(), b.start, x)
    ensures x == Ptr(b.start, k0, j0) && (k0, j0) in b.Live() && x != b.start + BuddyMem(b.D)
    ensures forall k: nat, j: nat {:trigger Ptr(b.start, k, j)} | (k, j) in b.Live() && Ptr(b.start, k, j) == x ::
              k == k0 && j == j0
  {
    k0, j0 :| (k0, j0) in b.Live() && x == Ptr(b.start, k0, j0);
    BlockPages(b.D, k0, j0);
    forall k: nat, j: nat {:trigger Ptr(b.start, k, j)} | (k, j) in b.Live() && Ptr(b.start, k, j) == x
      ensures k == k0 && j == j0
    {
      b.StartUnique(k, j, k0, j0);
    }
  }

  lemma TwoPages(i: nat)
    requires i < 2
    ensures Up(i, 0) == i && Up(i, 1) == 0 && InTree(1, 0, i) && Pow2(0) == 1 && Pow2(1) == 2
    ensures forall j: nat | InTree(1, 0, j) :: j < 2
  {
    forall j: nat ensures Up(j, 1) == j / 2 { assert Up(j, 0) == j; }
  }

  /** In a region of two pages a page is free if only the other one is allocated. */
  lemma OtherPageFree(b: BuddyAllocator, i: nat)
    requires b.Valid() && b.D == 1 && i < 2 && b.Live() <= {(0, 1 - i)}
    ensures InTree(1, 0, i) && !RunHasUsedPage(b.tree, 1, 0, i)
  {
    TwoPages(i);
    forall p: nat | Up(p, 0) == i ensures !PageUsed(b.tree, 1, p) {
      assert Up(p, 0) == p;
      forall k: nat | k <= 1 ensures At(b.tree, 1, k, Up(p, k)) != Some(Used) {
        assert UsedAt(b.tree, 1, k, Up(p, k)) <==> (k, Up(p, k)) in b.Live();
        assert k == 0 || k == 1;
        assert Up(Up(p, 1), 0) == Up(p, 1);
      }
    }
  }

  /** The address one past the region is taken for a block in a state that is reached: two pages,
      both allocated. */
  method EndAddressReached(start: nat) returns (b: BuddyAllocator)
    requires start % PAGE == 0
    ensures b.Valid() && b.SmallBlockAtStart() && exists l: nat :: l <= b.D && b.HitsEnd(l)
  {
    b := new BuddyAllocator(1, start);
    TwoPages(0);
    OtherPageFree(b, 0);
    var r0, i := b.BuddyAlloc(PAGE);
    assert b.Live() == {(0, i)};
    OtherPageFree(b, 1 - i);
    var r1, j := b.BuddyAlloc(PAGE);
    assert (0, 0) in b.Live();
    b.EndAddress();
  }
}
