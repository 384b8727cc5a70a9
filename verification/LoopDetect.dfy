/** Floyd's loop detection on a singly linked list, for any finite set of nodes. */
module LoopDetect {
  import opened Pigeonhole

  class ListNode {
    var next: ListNode?
  }

  /** S holds the nodes that can be reached from its members. */
  ghost predicate Closed(S: set<ListNode>)
    reads S
  {
    forall n | n in S :: n.next == null || n.next in S
  }

  /** The node k links after h, or null past the end. */
  ghost function Nth(h: ListNode?, k: nat, S: set<ListNode>): (n: ListNode?)
    requires Closed(S) && (h == null || h in S)
    reads S
    ensures n == null || n in S
  {
    if k == 0 then h
    else
      var m := Nth(h, k - 1, S);
      if m == null then null else m.next
  }

  /** The chain from h never reaches null. */
  ghost predicate Endless(h: ListNode?, S: set<ListNode>)
    requires Closed(S) && (h == null || h in S)
    reads S
  {
    forall k: nat :: Nth(h, k, S) != null
  }

  /** The k-th node lies on the loop: following the links from it leads back to it. */
  ghost predicate OnLoop(h: ListNode?, k: nat, S: set<ListNode>)
    requires Closed(S) && (h == null || h in S)
    reads S
  {
    Nth(h, k, S) != null && exists p: nat :: p > 0 && Nth(Nth(h, k, S), p, S) == Nth(h, k, S)
  }

  lemma {:induction false} NthAdd(h: ListNode?, k: nat, p: nat, S: set<ListNode>)
    requires Closed(S) && (h == null || h in S)
    ensures Nth(Nth(h, k, S), p, S) == Nth(h, k + p, S)
  {
    if p == 0 {
    } else {
      NthAdd(h, k, p - 1, S);
    }
  }

  lemma {:induction false} NullStays(h: ListNode?, k: nat, m: nat, S: set<ListNode>)
    requires Closed(S) && (h == null || h in S) && k <= m && Nth(h, k, S) == null
    ensures Nth(h, m, S) == null
  {
    if k >= m {
    } else {
      NullStays(h, k, m - 1, S);
    }
  }

  /** Equal nodes have equal successors. */
  lemma {:induction false} Shift(h: ListNode?, i: nat, j: nat, d: nat, S: set<ListNode>)
    requires Closed(S) && (h == null || h in S) && Nth(h, i, S) == Nth(h, j, S)
    ensures Nth(h, i + d, S) == Nth(h, j + d, S)
  {
    NthAdd(h, i, d, S);
    NthAdd(h, j, d, S);
  }

  /** A repetition with period p repeats for every multiple of p. */
  lemma {:induction false} Multiples(h: ListNode?, i: nat, p: nat, q: nat, S: set<ListNode>)
    requires Closed(S) && (h == null || h in S) && Nth(h, i, S) == Nth(h, i + p, S)
    ensures q * p >= 0 && Nth(h, i + q * p, S) == Nth(h, i, S)
  {
    if q == 0 {
    } else {
      Multiples(h, i, p, q - 1, S);
      Shift(h, i, i + p, (q - 1) * p, S);
      assert i + p + (q - 1) * p == i + q * p;
    }
  }

  /** A repetition, at or after position i with period p > 0, means the chain never ends. */
  lemma RepeatIsEndless(h: ListNode?, i: nat, p: nat, S: set<ListNode>)
    requires Closed(S) && (h == null || h in S) && p > 0
    requires Nth(h, i, S) == Nth(h, i + p, S) != null
    ensures Endless(h, S)
  {
    forall k: nat ensures Nth(h, k, S) != null {
      Multiples(h, i, p, k, S);
      assert k * p >= k;
      if Nth(h, k, S) == null { NullStays(h, k, i + k * p, S); }
    }
  }

  ghost function Prefix(h: ListNode?, n: nat, S: set<ListNode>): (s: seq<ListNode?>)
    requires Closed(S) && (h == null || h in S)
    reads S
    ensures |s| == n && forall k | 0 <= k < n :: s[k] == Nth(h, k, S)
  {
    if n == 0 then [] else Prefix(h, n - 1, S) + [Nth(h, n - 1, S)]
  }

  /** An endless chain through finitely many nodes repeats. */
  lemma Repeats(h: ListNode?, S: set<ListNode>) returns (i: nat, j: nat)
    requires Closed(S) && (h == null || h in S) && Endless(h, S)
    ensures i < j && Nth(h, i, S) == Nth(h, j, S)
  {
    var s, T: set<ListNode?> := Prefix(h, |S| + 1, S), S;
    forall k | 0 <= k < |s| ensures s[k] in T { assert Nth(h, k, S) != null; }
    if Distinct(s) {
      DistinctSize(s);
      SubsetSize(Elements(s), T);
    }
    i, j :| 0 <= i < j < |s| && s[i] == s[j];
  }

  /** The two pointers meet within a bound. */
  lemma MeetingPoint(h: ListNode?, S: set<ListNode>) returns (T: nat)
    requires Closed(S) && (h == null || h in S) && Endless(h, S)
    ensures T > 0 && Nth(h, T, S) == Nth(h, 2 * T, S)
  {
    var i, j := Repeats(h, S);
    var p := j - i;
    T := (i + 1) * p;
    assert T >= i + 1;
    Shift(h, i, i + p, T - i, S);
    Multiples(h, T, p, i + 1, S);
  }

  /** A bound on the steps of the detection: they meet, or the fast pointer runs off the end. */
  lemma StepBound(h: ListNode?, S: set<ListNode>) returns (B: nat)
    requires Closed(S) && (h == null || h in S)
    ensures if Endless(h, S) then B > 0 && Nth(h, B, S) == Nth(h, 2 * B, S) else Nth(h, B, S) == null
  {
    if Endless(h, S) {
      B := MeetingPoint(h, S);
    } else {
      B :| Nth(h, B, S) == null;
    }
  }

  /** The slow pointer after t steps, the fast one after 2 t, and they have not met since the start. */
  ghost predicate Chasing(h: ListNode?, S: set<ListNode>, t: nat, slow: ListNode?, fast: ListNode?)
    requires Closed(S) && (h == null || h in S)
    reads S
  {
    && slow == Nth(h, t, S) && fast == Nth(h, 2 * t, S)
    && forall s: nat | 0 < s <= t :: Nth(h, s, S) != Nth(h, 2 * s, S)
  }

  /** One more step: both pointers follow the chain. */
  lemma Advance(h: ListNode?, S: set<ListNode>, t: nat, B: nat)
    requires Closed(S) && (h == null || h in S)
    requires if Endless(h, S) then B > 0 && Nth(h, B, S) == Nth(h, 2 * B, S) else Nth(h, B, S) == null
    requires Nth(h, 2 * t, S) != null && Nth(h, 2 * t + 1, S) != null
    requires forall s: nat | 0 < s <= t :: Nth(h, s, S) != Nth(h, 2 * s, S)
    ensures t < B && Nth(h, t + 1, S) != null
    ensures Nth(h, 2 * t + 1, S) == Nth(h, 2 * t, S).next && Nth(h, 2 * (t + 1), S) == Nth(h, 2 * t + 1, S).next
  {
    assert Nth(h, 2 * (t + 1), S) == Nth(h, 2 * t + 2, S);
    if Nth(h, t + 1, S) == null { NullStays(h, t + 1, 2 * t + 1, S); }
    if !Endless(h, S) && B <= t { NullStays(h, B, 2 * t, S); }
  }

  /** slist_has_loop: true if and only if the chain never reaches null. */
  method HasLoop(head: ListNode?, ghost S: set<ListNode>) returns (r: bool)
    requires Closed(S) && (head == null || head in S)
    ensures r <==> Endless(head, S)
  {
    if head == null {
      assert Nth(head, 0, S) == null;
      return false;
    }
    var slow: ListNode?, fast: ListNode? := head, head;
    ghost var t: nat := 0;
    ghost var B := StepBound(head, S);
    while slow != null && fast != null && fast.next != null
      invariant Chasing(head, S, t, slow, fast) && slow in S
      decreases B - t
    {
      assert Nth(head, 2 * t + 1, S) == fast.next;
      Advance(head, S, t, B);
      slow := slow.next;
      fast := fast.next.next;
      t := t + 1;
      if slow == fast {
        RepeatIsEndless(head, t, t, S);
        return true;
      }
    }
    RanOff(head, S, t);
    return false;
  }

  lemma RanOff(h: ListNode?, S: set<ListNode>, t: nat)
    requires Closed(S) && (h == null || h in S)
    requires Nth(h, t, S) == null || Nth(h, 2 * t, S) == null || Nth(h, 2 * t, S).next == null
    ensures !Endless(h, S)
  {
    assert Nth(h, 2 * t, S) != null && Nth(h, 2 * t, S).next == null ==> Nth(h, 2 * t + 1, S) == null;
  }

  /** The k-th node is the first of the chain that lies on the loop. */
  ghost predicate LoopStart(h: ListNode?, k: nat, S: set<ListNode>)
    requires Closed(S) && (h == null || h in S)
    reads S
  {
    OnLoop(h, k, S) && forall j: nat | j < k :: !OnLoop(h, j, S)
  }

  /** After a meeting at step m, position k is on the loop exactly if m more links lead back to it. */
  lemma OnLoopIff(h: ListNode?, m: nat, k: nat, S: set<ListNode>)
    requires Closed(S) && (h == null || h in S)
    requires m > 0 && Nth(h, m, S) == Nth(h, 2 * m, S) != null
    ensures OnLoop(h, k, S) <==> Nth(h, k, S) == Nth(h, k + m, S)
  {
    RepeatIsEndless(h, m, m, S);
    var n := Nth(h, k, S);
    assert n != null;
    NthAdd(h, k, m, S);
    if OnLoop(h, k, S) {
      var p: nat :| p > 0 && Nth(n, p, S) == n;
      NthAdd(h, k, p, S);
      Multiples(h, k, p, m, S);
      var far := k + m * p;
      assert m * p >= m;
      Shift(h, m, m + m, far - m, S);
      assert Nth(h, far, S) == Nth(h, far + m, S);
      Shift(h, k, far, m, S);
    }
  }

  /** slist_loop_start: the first node of the chain on the loop, or null without a loop. */
  method FindLoopStart(head: ListNode?, ghost S: set<ListNode>) returns (r: ListNode?)
    requires Closed(S) && (head == null || head in S)
    ensures r == null <==> !Endless(head, S)
    ensures r != null ==> exists k: nat :: r == Nth(head, k, S) && LoopStart(head, k, S)
  {
    if head == null {
      assert Nth(head, 0, S) == null;
      return null;
    }
    var slow: ListNode?, fast: ListNode? := head, head;
    ghost var t: nat := 0;
    ghost var B := StepBound(head, S);
    var met := false;
    while slow != null && fast != null && fast.next != null
      invariant Chasing(head, S, t, slow, fast) && slow in S && !met
      decreases B - t
    {
      assert Nth(head, 2 * t + 1, S) == fast.next;
      Advance(head, S, t, B);
      slow := slow.next;
      fast := fast.next.next;
      t := t + 1;
      if slow == fast {
        met := true;
        break;
      }
    }
    if !met {
      RanOff(head, S, t);
      return null;
    }
    RepeatIsEndless(head, t, t, S);
    slow := head;
    ghost var k: nat := 0;
    OnLoopIff(head, t, 0, S);
    while slow != fast
      invariant k <= t && slow == Nth(head, k, S) && fast == Nth(head, k + t, S)
      invariant forall j: nat | j < k :: !OnLoop(head, j, S)
      invariant OnLoop(head, k, S) <==> slow == fast
      invariant slow != null && fast != null
      decreases t - k
    {
      slow := slow.next;
      fast := fast.next;
      k := k + 1;
      assert fast == Nth(head, k + t, S);
      OnLoopIff(head, t, k, S);
    }
    r := slow;
  }
}
