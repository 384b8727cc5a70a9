/** Binary trees as values, their in-order and level-order sequences, and the rebuild of a
    tree from the two. */
module Traversals {
  import opened Pigeonhole

  datatype Tree = Leaf | Node(left: Tree, data: int, right: Tree)

  function InOrder(t: Tree): seq<int> {
    if t.Leaf? then [] else InOrder(t.left) + [t.data] + InOrder(t.right)
  }

  function Size(t: Tree): nat {
    if t.Leaf? then 0 else Size(t.left) + 1 + Size(t.right)
  }

  function SizeAll(q: seq<Tree>): nat {
    if q == [] then 0 else Size(q[0]) + SizeAll(q[1..])
  }

  /** The non-empty children, in the order in which the level-order traversal enqueues them. */
  function Kids(t: Tree): seq<Tree>
    requires t.Node?
  {
    (if t.left.Node? then [t.left] else []) + (if t.right.Node? then [t.right] else [])
  }

  lemma {:induction false} SizeAllConcat(p: seq<Tree>, q: seq<Tree>)
    ensures SizeAll(p + q) == SizeAll(p) + SizeAll(q)
  {
    if p == [] {
      assert p + q == q;
    } else {
      SizeAllConcat(p[1..], q);
      assert (p + q)[1..] == p[1..] + q;
    }
  }

  lemma KidsSize(t: Tree)
    requires t.Node?
    ensures SizeAll(Kids(t)) == Size(t) - 1
  {
    SizeAllConcat(if t.left.Node? then [t.left] else [], if t.right.Node? then [t.right] else []);
  }

  /** Level order from a queue of subtrees. */
  function Bfs(q: seq<Tree>): seq<int>
    requires forall i | 0 <= i < |q| :: q[i].Node?
    decreases SizeAll(q)
  {
    if q == [] then []
    else
      KidsSize(q[0]);
      SizeAllConcat(q[1..], Kids(q[0]));
      [q[0].data] + Bfs(q[1..] + Kids(q[0]))
  }

  function LevelOrder(t: Tree): seq<int> {
    if t.Leaf? then [] else Bfs([t])
  }

  /** The elements of s that occur in p, in the order of s. */
  function Keep(s: seq<int>, p: seq<int>): (r: seq<int>)
    ensures forall x :: x in r <==> x in s && x in p
    ensures |r| <= |s|
  {
    if s == [] then []
    else (if s[0] in p then [s[0]] else []) + Keep(s[1..], p)
  }

  function IndexOf(s: seq<int>, x: int): (i: nat)
    requires x in s
    ensures i < |s| && s[i] == x && x !in s[..i]
  {
    if s[0] == x then 0 else 1 + IndexOf(s[1..], x)
  }

  ghost predicate Inside(s: seq<int>, p: seq<int>) { forall x | x in s :: x in p }

  ghost predicate Outside(s: seq<int>, p: seq<int>) { forall x | x in s :: x !in p }

  /** The rebuild: the first level-order element is the root; its position in the in-order
      sequence splits the other elements. */
  function Build(ins: seq<int>, lvl: seq<int>): Tree
    requires Inside(lvl, ins)
    decreases |lvl|
  {
    if lvl == [] then Leaf
    else
      var i := IndexOf(ins, lvl[0]);
      Node(Build(ins, Keep(lvl[1..], ins[..i])), lvl[0], Build(ins, Keep(lvl[1..], ins[i + 1..])))
  }

  // ----- sequences

  lemma {:induction false} KeepConcat(a: seq<int>, b: seq<int>, p: seq<int>)
    ensures Keep(a + b, p) == Keep(a, p) + Keep(b, p)
  {
    if a == [] {
      assert a + b == b;
    } else {
      assert (a + b)[1..] == a[1..] + b;
      KeepConcat(a[1..], b, p);
    }
  }

  lemma KeepStep(h: int, t: seq<int>, p: seq<int>)
    ensures Keep([h] + t, p) == (if h in p then [h] else []) + Keep(t, p)
  {
    assert ([h] + t)[1..] == t;
  }

  lemma HeadAndTail(s: seq<int>) returns (h: int, t: seq<int>)
    requires s != []
    ensures s == [h] + t && |t| < |s| && h in s && h == s[0] && t == s[1..]
    ensures forall x | x in t :: x in s
  {
    h, t := s[0], s[1..];
  }

  /** Only membership in p matters, and only for the elements of s. */
  lemma {:induction false} KeepSame(s: seq<int>, p: seq<int>, q: seq<int>)
    requires forall x | x in s :: x in p <==> x in q
    ensures Keep(s, p) == Keep(s, q)
  {
    if s == [] {
    } else {
      var h, t := HeadAndTail(s);
      KeepStep(h, t, p);
      KeepStep(h, t, q);
      KeepSame(t, p, q);
    }
  }

  lemma {:induction false} KeepAll(s: seq<int>, p: seq<int>)
    requires Inside(s, p)
    ensures Keep(s, p) == s
  {
    if s == [] {
    } else {
      var h, t := HeadAndTail(s);
      KeepStep(h, t, p);
      KeepAll(t, p);
    }
  }

  lemma {:induction false} KeepNone(s: seq<int>, p: seq<int>)
    requires Outside(s, p)
    ensures Keep(s, p) == []
  {
    if s == [] {
    } else {
      var h, t := HeadAndTail(s);
      KeepStep(h, t, p);
      KeepNone(t, p);
    }
  }

  lemma {:induction false} KeepDistinct(s: seq<int>, p: seq<int>)
    requires Distinct(s)
    ensures Distinct(Keep(s, p))
  {
    if s == [] {
    } else {
      KeepDistinct(s[1..], p);
      assert s[0] !in s[1..];
    }
  }

  // ----- traversal, then rebuild

  /** Every queued tree lies inside p or outside it. */
  ghost predicate Split(q: seq<Tree>, p: seq<int>) {
    forall i | 0 <= i < |q| :: q[i].Node? && (Inside(InOrder(q[i]), p) || Outside(InOrder(q[i]), p))
  }

  /** The queued trees inside p. */
  ghost function Pick(q: seq<Tree>, p: seq<int>): (r: seq<Tree>)
    requires forall i | 0 <= i < |q| :: q[i].Node?
    ensures forall i | 0 <= i < |r| :: r[i].Node?
  {
    if q == [] then [] else (if q[0].data in p then [q[0]] else []) + Pick(q[1..], p)
  }

  lemma {:induction false} PickConcat(a: seq<Tree>, b: seq<Tree>, p: seq<int>)
    requires forall i | 0 <= i < |a| :: a[i].Node?
    requires forall i | 0 <= i < |b| :: b[i].Node?
    ensures Pick(a + b, p) == Pick(a, p) + Pick(b, p)
  {
    if a == [] {
      assert a + b == b;
    } else {
      assert (a + b)[1..] == a[1..] + b;
      PickConcat(a[1..], b, p);
    }
  }

  lemma KidsSplit(t: Tree, p: seq<int>)
    requires t.Node? && (Inside(InOrder(t), p) || Outside(InOrder(t), p))
    ensures Split(Kids(t), p) && t.data in InOrder(t)
    ensures Pick(Kids(t), p) == if t.data in p then Kids(t) else []
  {
    forall x | x in InOrder(t.left) || x in InOrder(t.right) || x == t.data ensures x in InOrder(t) { }
    if t.left.Node? { assert t.left.data in InOrder(t.left); }
    if t.right.Node? { assert t.right.data in InOrder(t.right); }
    PickConcat(if t.left.Node? then [t.left] else [], if t.right.Node? then [t.right] else [], p);
  }

  /** Filtering a level order by whole subtrees is the level order of those subtrees. */
  lemma {:induction false} KeepBfs(q: seq<Tree>, p: seq<int>)
    requires Split(q, p)
    ensures Keep(Bfs(q), p) == Bfs(Pick(q, p))
    decreases SizeAll(q)
  {
    if q == [] {
    } else {
      var h, rest := q[0], q[1..] + Kids(q[0]);
      KidsSize(h);
      SizeAllConcat(q[1..], Kids(h));
      KidsSplit(h, p);
      KeepBfs(rest, p);
      PickConcat(q[1..], Kids(h), p);
      assert Bfs(q)[0] == h.data && Bfs(q)[1..] == Bfs(rest);
      if h.data in p {
        var r := Pick(q, p);
        assert r == [h] + Pick(q[1..], p);
        assert r[1..] + Kids(h) == Pick(rest, p);
      } else {
        assert Pick(rest, p) == Pick(q[1..], p) == Pick(q, p);
      }
    }
  }

  ghost predicate Occurs(q: seq<Tree>, x: int) { exists t | t in q :: x in InOrder(t) }

  lemma OccursConcat(a: seq<Tree>, b: seq<Tree>, x: int)
    ensures Occurs(a + b, x) <==> Occurs(a, x) || Occurs(b, x)
  {
  }

  lemma OccursKids(t: Tree, x: int)
    requires t.Node?
    ensures Occurs([t], x) <==> x == t.data || Occurs(Kids(t), x)
  {
    assert x in InOrder(t) <==> x in InOrder(t.left) || x == t.data || x in InOrder(t.right);
    assert t in [t];
    assert t.left.Node? ==> t.left in Kids(t);
    assert t.right.Node? ==> t.right in Kids(t);
  }

  /** The level order lists the labels of the tree. */
  lemma {:induction false} BfsLabels(q: seq<Tree>, x: int)
    requires forall i | 0 <= i < |q| :: q[i].Node?
    ensures x in Bfs(q) <==> Occurs(q, x)
    decreases SizeAll(q)
  {
    if q == [] {
    } else {
      var h, t := q[0], q[1..];
      KidsSize(h);
      SizeAllConcat(t, Kids(h));
      BfsLabels(t + Kids(h), x);
      OccursKids(h, x);
      OccursConcat(t, Kids(h), x);
      OccursConcat([h], t, x);
      assert q == [h] + t;
    }
  }

  lemma LevelOrderLabels(t: Tree)
    ensures forall x :: x in LevelOrder(t) <==> x in InOrder(t)
  {
    if t.Node? {
      forall x ensures x in LevelOrder(t) <==> x in InOrder(t) {
        BfsLabels([t], x);
        assert t in [t];
      }
    }
  }

  ghost function Queued(t: Tree): seq<Tree> { if t.Node? then [t] else [] }

  lemma LevelOrderQueued(t: Tree)
    ensures forall i | 0 <= i < |Queued(t)| :: Queued(t)[i].Node?
    ensures LevelOrder(t) == Bfs(Queued(t))
  {
  }

  lemma LevelOrderTail(l: Tree, x: int, r: Tree)
    ensures forall i | 0 <= i < |Queued(l) + Queued(r)| :: (Queued(l) + Queued(r))[i].Node?
    ensures LevelOrder(Node(l, x, r)) == [x] + Bfs(Queued(l) + Queued(r))
  {
    var t := Node(l, x, r);
    assert [t][1..] + Kids(t) == Queued(l) + Queued(r);
  }

  lemma PickQueued(t: Tree, p: seq<int>)
    requires Inside(InOrder(t), p) || Outside(InOrder(t), p)
    ensures Split(Queued(t), p)
    ensures Inside(InOrder(t), p) ==> Pick(Queued(t), p) == Queued(t)
    ensures Outside(InOrder(t), p) ==> Pick(Queued(t), p) == []
  {
    assert t.Node? ==> t.data in InOrder(t);
  }

  lemma SplitConcat(a: seq<Tree>, b: seq<Tree>, p: seq<int>)
    requires Split(a, p) && Split(b, p)
    ensures Split(a + b, p) && Pick(a + b, p) == Pick(a, p) + Pick(b, p)
  {
    PickConcat(a, b, p);
  }

  /** If one subtree lies inside p and the other outside, filtering by p leaves the one inside. */
  lemma KeepChild(l: Tree, x: int, r: Tree, p: seq<int>, first: bool)
    requires Inside(InOrder(if first then l else r), p) && Outside(InOrder(if first then r else l), p)
    ensures Keep(LevelOrder(Node(l, x, r))[1..], p) == LevelOrder(if first then l else r)
  {
    var ls, rs, inside := Queued(l), Queued(r), if first then l else r;
    LevelOrderTail(l, x, r);
    PickQueued(l, p);
    PickQueued(r, p);
    SplitConcat(ls, rs, p);
    KeepBfs(ls + rs, p);
    assert Pick(ls + rs, p) == Queued(inside);
    LevelOrderQueued(inside);
  }

  lemma {:induction false} BfsLength(q: seq<Tree>)
    requires forall i | 0 <= i < |q| :: q[i].Node?
    ensures |Bfs(q)| == SizeAll(q)
    decreases SizeAll(q)
  {
    if q == [] {
    } else {
      KidsSize(q[0]);
      SizeAllConcat(q[1..], Kids(q[0]));
      BfsLength(q[1..] + Kids(q[0]));
    }
  }

  lemma {:induction false} InOrderLength(t: Tree)
    ensures |InOrder(t)| == Size(t)
  {
    if t.Leaf? {
    } else {
      InOrderLength(t.left);
      InOrderLength(t.right);
    }
  }

  /** Both traversals list every node once. */
  lemma TraversalLengths(t: Tree)
    ensures |InOrder(t)| == |LevelOrder(t)| == Size(t)
  {
    InOrderLength(t);
    if t.Node? {
      BfsLength([t]);
    }
  }

  /** The two subtrees' level orders are the parts of the level order that lie left and right of the root. */
  lemma LevelOrderSplit(l: Tree, x: int, r: Tree, a: seq<int>, b: seq<int>)
    requires Distinct(a + [x] + b) && Inside(InOrder(l), a) && Inside(InOrder(r), b)
    ensures LevelOrder(Node(l, x, r))[0] == x
    ensures Keep(LevelOrder(Node(l, x, r))[1..], a) == LevelOrder(l)
    ensures Keep(LevelOrder(Node(l, x, r))[1..], b) == LevelOrder(r)
  {
    DisjointParts(a, x, b);
    KeepChild(l, x, r, a, true);
    KeepChild(l, x, r, b, false);
  }

  lemma DisjointParts(a: seq<int>, x: int, b: seq<int>)
    requires Distinct(a + [x] + b)
    ensures Distinct(a) && Distinct(b)
    ensures Outside(a, b) && Outside(b, a) && x !in a && x !in b
  {
    var s := a + [x] + b;
    forall i | 0 <= i < |a| ensures s[i] == a[i] && a[i] != x {
      assert s[|a|] == x;
    }
    forall j | 0 <= j < |b| ensures s[|a| + 1 + j] == b[j] && b[j] != x && b[j] !in a {
      assert s[|a|] == x;
    }
    forall i, j | 0 <= i < j < |b| ensures b[i] != b[j] {
      assert s[|a| + 1 + i] == b[i];
    }
  }

  lemma IndexOfMiddle(a: seq<int>, x: int, b: seq<int>)
    requires Distinct(a + [x] + b)
    ensures var s := a + [x] + b; x in s && IndexOf(s, x) == |a| && s[..|a|] == a && s[|a| + 1..] == b
  {
    var s := a + [x] + b;
    assert s[|a|] == x;
    var i := IndexOf(s, x);
    assert s[i] == x;
  }

  /** The rebuild splits a + [x] + b at x. */
  lemma BuildAt(a: seq<int>, x: int, b: seq<int>, rest: seq<int>)
    requires Distinct(a + [x] + b) && Inside([x] + rest, a + [x] + b)
    ensures Inside(Keep(rest, a), a + [x] + b) && Inside(Keep(rest, b), a + [x] + b)
    ensures Build(a + [x] + b, [x] + rest)
         == Node(Build(a + [x] + b, Keep(rest, a)), x, Build(a + [x] + b, Keep(rest, b)))
  {
    IndexOfMiddle(a, x, b);
    assert ([x] + rest)[1..] == rest;
  }

  lemma InOrderParts(t: Tree, a: seq<int>, b: seq<int>)
    requires t.Node?
    ensures var l, r := InOrder(t.left), InOrder(t.right);
            a + InOrder(t) + b == (a + l) + [t.data] + (r + b) == a + l + ([t.data] + (r + b))
                               == (a + l + [t.data]) + r + b
  {
  }

  /** Rebuilding inside a larger in-order sequence. */
  lemma {:induction false} BuildWithin(t: Tree, a: seq<int>, b: seq<int>)
    requires Distinct(a + InOrder(t) + b)
    ensures Inside(LevelOrder(t), a + InOrder(t) + b) && Build(a + InOrder(t) + b, LevelOrder(t)) == t
  {
    LevelOrderLabels(t);
    if t.Leaf? {
    } else {
      var l, x, r := t.left, t.data, t.right;
      var a2, b2, lvl := a + InOrder(l), InOrder(r) + b, LevelOrder(t);
      InOrderParts(t, a, b);
      LevelOrderSplit(l, x, r, a2, b2);
      assert lvl == [x] + lvl[1..];
      BuildAt(a2, x, b2, lvl[1..]);
      BuildWithin(l, a, [x] + b2);
      BuildWithin(r, a2 + [x], b);
    }
  }

  /** Rebuilding is the inverse of traversing: every tree with distinct labels comes back. */
  lemma BuildInverts(t: Tree)
    requires Distinct(InOrder(t))
    ensures Inside(LevelOrder(t), InOrder(t)) && Build(InOrder(t), LevelOrder(t)) == t
  {
    assert [] + InOrder(t) + [] == InOrder(t);
    BuildWithin(t, [], []);
  }

  // ----- rebuild, then traversal

  /** The in-order sequence of the result is the given one, restricted to the labels used. */
  lemma {:induction false} BuildInOrder(ins: seq<int>, lvl: seq<int>)
    requires Distinct(ins) && Distinct(lvl) && Inside(lvl, ins)
    ensures InOrder(Build(ins, lvl)) == Keep(ins, lvl)
    decreases |lvl|
  {
    if lvl == [] {
      KeepNone(ins, []);
    } else {
      var x, rest := lvl[0], lvl[1..];
      var i := IndexOf(ins, x);
      var a, b := ins[..i], ins[i + 1..];
      assert ins == a + [x] + b && lvl == [x] + rest;
      BuildAt(a, x, b, rest);
      KeepDistinct(rest, a);
      KeepDistinct(rest, b);
      BuildInOrder(ins, Keep(rest, a));
      BuildInOrder(ins, Keep(rest, b));
      KeepPart(a, x, b, rest);
    }
  }

  lemma KeepPart(a: seq<int>, x: int, b: seq<int>, rest: seq<int>)
    requires Distinct(a + [x] + b)
    ensures Keep(a + [x] + b, [x] + rest)
         == Keep(a + [x] + b, Keep(rest, a)) + [x] + Keep(a + [x] + b, Keep(rest, b))
  {
    DisjointParts(a, x, b);
    KeepThree(a, x, b, [x] + rest);
    KeepSide(a, x, b, rest);
  }

  lemma KeepSide(a: seq<int>, x: int, b: seq<int>, rest: seq<int>)
    requires Outside(a, b) && Outside(b, a) && x !in a && x !in b
    ensures Keep(a + [x] + b, Keep(rest, a)) == Keep(a, [x] + rest)
    ensures Keep(a + [x] + b, Keep(rest, b)) == Keep(b, [x] + rest)
  {
    KeepThree(a, x, b, Keep(rest, a));
    KeepNone(b, Keep(rest, a));
    KeepSame(a, Keep(rest, a), [x] + rest);
    KeepThree(a, x, b, Keep(rest, b));
    KeepNone(a, Keep(rest, b));
    KeepSame(b, Keep(rest, b), [x] + rest);
  }

  lemma KeepThree(a: seq<int>, x: int, b: seq<int>, p: seq<int>)
    ensures Keep(a + [x] + b, p) == Keep(a, p) + (if x in p then [x] else []) + Keep(b, p)
  {
    KeepConcat(a + [x], b, p);
    KeepConcat(a, [x], p);
    KeepStep(x, [], p);
    assert [x] + [] == [x];
  }

  /** For two permutations of the same distinct labels the result has the given in-order sequence. */
  lemma RebuildInOrder(ins: seq<int>, lvl: seq<int>)
    requires Distinct(ins) && Distinct(lvl) && Inside(lvl, ins) && Inside(ins, lvl)
    ensures InOrder(Build(ins, lvl)) == ins
  {
    BuildInOrder(ins, lvl);
    KeepAll(ins, lvl);
  }
}
