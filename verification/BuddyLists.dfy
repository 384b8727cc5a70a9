/** Which block of the free lists the buddy allocator takes, and where blocks are queued: the lists
    as sequences, first in first out. */
module BuddyLists {
  import opened Lists
  import opened Pigeonhole
  import opened Powers
  import opened BuddyTree
  import opened BuddyAddress

  /** The address after the first 2^k pages of the block at x. */
  function SecondHalf(x: nat, k: nat): nat { x + PAGE * Pow2(k) }

  lemma SecondHalfIsBuddy(start: nat, k: nat, j: nat)
    requires k > 0
    ensures Blk2Buddy(Ptr(start, k, j), start, k - 1) == SecondHalf(Ptr(start, k, j), k - 1)
  {
    SplitBlockAddress(start, k, j);
    ShiftIsMul(k - 1, 2 * j);
    ShiftIsMul(k - 1, 2 * j + 1);
    Distribute(Pow2(k - 1), 2 * j);
  }

  lemma Distribute(a: nat, b: nat)
    ensures a * (b + 1) == a * b + a && PAGE * (a * b + a) == PAGE * (a * b) + PAGE * a
  {
  }

  // ----- allocation

  /** No block is free in the lists from `order` to i, and x heads list i. */
  ghost predicate HeadOfLeast(before: seq<seq<nat>>, order: nat, i: nat, x: nat) {
    && order <= i < |before| && before[i] != [] && x == before[i][0]
    && forall k | order <= k < i :: before[k] == []
  }

  /** The head of the least list that is not empty is served: it leaves its list, and of each size below
      its own, down to the one asked for, the second half of what is left is queued. */
  ghost predicate ServedFrom(before: seq<seq<nat>>, after: seq<seq<nat>>, order: nat, i: nat, x: nat) {
    && HeadOfLeast(before, order, i, x) && |after| == |before|
    && forall k | 0 <= k < |before| ::
         after[k] == if order <= k < i then [SecondHalf(x, k)] else if k == i then before[i][1..] else before[k]
  }

  /** Split down to order c, where both halves are still on the list. */
  ghost predicate SplitTo(before: seq<seq<nat>>, now: seq<seq<nat>>, order: nat, i: nat, c: nat, x: nat) {
    && HeadOfLeast(before, order, i, x) && |now| == |before| && order <= c < i
    && forall k | 0 <= k < |before| ::
         now[k] == if k == c then [x, SecondHalf(x, k)]
                   else if c < k < i then [SecondHalf(x, k)]
                   else if k == i then before[i][1..]
                   else before[k]
  }

  /** The lists after list i has lost its head and the halves of that block have joined list i - 1. */
  function OneSplit(now: seq<seq<nat>>, i: nat): seq<seq<nat>>
    requires 0 < i < |now| && now[i] != []
  {
    now[i := now[i][1..]][i - 1 := now[i - 1] + [now[i][0]] + [SecondHalf(now[i][0], i - 1)]]
  }

  lemma FirstSplit(before: seq<seq<nat>>, order: nat, i: nat)
    requires order < i < |before| && before[i] != [] && forall k | order <= k < i :: before[k] == []
    ensures SplitTo(before, OneSplit(before, i), order, i, i - 1, before[i][0])
  {
    assert before[i - 1] == [];
  }

  lemma NextSplit(before: seq<seq<nat>>, now: seq<seq<nat>>, order: nat, i: nat, c: nat, x: nat)
    requires SplitTo(before, now, order, i, c, x) && order < c
    ensures now[c] != [] && SplitTo(before, OneSplit(now, c), order, i, c - 1, x)
  {
    assert now[c][1..] == [SecondHalf(x, c)] && before[c - 1] == [];
  }

  lemma LastPop(before: seq<seq<nat>>, now: seq<seq<nat>>, order: nat, i: nat, c: nat, x: nat)
    requires SplitTo(before, now, order, i, c, x) && c == order
    ensures now[order] != [] && now[order][0] == x && ServedFrom(before, now[order := now[order][1..]], order, i, x)
  {
    assert now[order][1..] == [SecondHalf(x, order)];
  }

  lemma DirectPop(before: seq<seq<nat>>, order: nat)
    requires order < |before| && before[order] != []
    ensures ServedFrom(before, before[order := before[order][1..]], order, order, before[order][0])
  {
  }

  // ----- release

  /** The block of order k that holds block (k0, j0). */
  function Around(start: nat, k0: nat, j0: nat, k: nat): nat
    requires k0 <= k
  {
    Ptr(start, k, Up(j0, k - k0))
  }

  /** Its buddy. */
  function BuddyAround(start: nat, k0: nat, j0: nat, k: nat): nat
    requires k0 <= k
  {
    Ptr(start, k, BuddyIndex(Up(j0, k - k0)))
  }

  /** Merged up to order m: the buddies below left their lists, and the union is the last of list m. */
  ghost predicate MergedTo(before: seq<seq<nat>>, now: seq<seq<nat>>, start: nat, k0: nat, j0: nat, m: nat) {
    && k0 <= m < |before| == |now|
    && (forall k | k0 <= k < m :: BuddyAround(start, k0, j0, k) in before[k])
    && forall k | 0 <= k < |before| ::
         now[k] == if k0 <= k < m then Unlinked(before[k], BuddyAround(start, k0, j0, k))
                   else if k == m then before[k] + [Around(start, k0, j0, k)]
                   else before[k]
  }

  /** A released block is merged as long as its buddy is on the list of its order, and no longer. */
  ghost predicate ReleasedTo(before: seq<seq<nat>>, after: seq<seq<nat>>, start: nat, k0: nat, j0: nat, m: nat) {
    MergedTo(before, after, start, k0, j0, m)
    && (m + 1 < |before| ==> BuddyAround(start, k0, j0, m) !in before[m])
  }

  lemma LastIsNew(l: seq<nat>, x: nat)
    requires Distinct(l + [x])
    ensures x !in l
  {
    forall i | 0 <= i < |l| ensures l[i] != x { assert (l + [x])[i] != (l + [x])[|l|]; }
  }

  lemma FirstPush(before: seq<seq<nat>>, start: nat, k0: nat, j0: nat)
    requires k0 < |before|
    ensures MergedTo(before, before[k0 := before[k0] + [Ptr(start, k0, j0)]], start, k0, j0, k0)
  {
    assert Up(j0, 0) == j0;
  }

  /** The lists after x and its buddy b have left list k and their union has joined list k + 1. */
  function OneMerge(now: seq<seq<nat>>, k: nat, x: nat, b: nat, merged: nat): seq<seq<nat>>
    requires k + 1 < |now|
  {
    now[k := Unlinked(Unlinked(now[k], x), b)][k + 1 := now[k + 1] + [merged]]
  }

  lemma NextMerge(before: seq<seq<nat>>, now: seq<seq<nat>>, start: nat, k0: nat, j0: nat, m: nat)
    requires MergedTo(before, now, start, k0, j0, m) && m + 1 < |before|
    requires Around(start, k0, j0, m) !in before[m] && BuddyAround(start, k0, j0, m) in before[m]
    ensures MergedTo(before, OneMerge(now, m, Around(start, k0, j0, m), BuddyAround(start, k0, j0, m),
                                      Around(start, k0, j0, m + 1)), start, k0, j0, m + 1)
  {
    var x := Around(start, k0, j0, m);
    UnlinkedSplit(before[m], x, []);
    assert before[m] + [x] + [] == before[m] + [x] && before[m] + [] == before[m];
  }
}
