/** AVL trees as values: what the pointer code computes, and why it is a balanced search tree.
    The height is the stored one; a comparator is a total order, so keys are integers. */
module AvlSpec {
  import opened Pigeonhole
  import opened Powers

  datatype Tree = Leaf | Node(left: Tree, data: int, height: int, right: Tree)

  function Max(a: int, b: int): int { if a < b then b else a }

  /** __avl_node_get_height */
  function Height(t: Tree): int { if t.Leaf? then 0 else t.height }

  /** __avl_node_get_balance */
  function BalanceOf(t: Tree): int {
    if t.Leaf? then 0 else Height(t.left) - Height(t.right)
  }

  /** A node whose height has just been updated. */
  function Join(l: Tree, x: int, r: Tree): Tree {
    Node(l, x, 1 + Max(Height(l), Height(r)), r)
  }

  function LeftRotate(t: Tree): Tree
    requires t.Node? && t.right.Node?
  {
    Join(Join(t.left, t.data, t.right.left), t.right.data, t.right.right)
  }

  function RightRotate(t: Tree): Tree
    requires t.Node? && t.left.Node?
  {
    Join(t.left.left, t.left.data, Join(t.left.right, t.data, t.right))
  }

  /** The stored heights are the real ones. */
  predicate Exact(t: Tree) {
    t.Node? ==> Exact(t.left) && Exact(t.right) && t.height == 1 + Max(Height(t.left), Height(t.right))
  }

  /** __avl_tree_balance on a node with subtrees l and r. */
  function Balance(l: Tree, x: int, r: Tree): Tree
    requires Exact(l) && Exact(r)
  {
    ExactHeight(l);
    ExactHeight(r);
    var t := Join(l, x, r);
    if BalanceOf(t) < -1 then
      LeftRotate(if BalanceOf(r) > 0 then t.(right := (ExactHeight(r.right); RightRotate(r))) else t)
    else if BalanceOf(t) > 1 then
      RightRotate(if BalanceOf(l) < 0 then t.(left := (ExactHeight(l.left); LeftRotate(l))) else t)
    else t
  }

  /** Balance within one everywhere, stored heights exact. */
  predicate Avl(t: Tree) {
    t.Node? ==> Avl(t.left) && Avl(t.right) && -1 <= BalanceOf(t) <= 1
                && t.height == 1 + Max(Height(t.left), Height(t.right))
  }

  predicate Has(t: Tree, k: int) {
    t.Node? && (k == t.data || Has(t.left, k) || Has(t.right, k))
  }

  ghost function Keys(t: Tree): set<int> {
    if t.Leaf? then {} else Keys(t.left) + {t.data} + Keys(t.right)
  }

  predicate AllLess(t: Tree, x: int) {
    t.Node? ==> t.data < x && AllLess(t.left, x) && AllLess(t.right, x)
  }

  predicate AllGreater(t: Tree, x: int) {
    t.Node? ==> t.data > x && AllGreater(t.left, x) && AllGreater(t.right, x)
  }

  /** Search order. */
  predicate Bst(t: Tree) {
    t.Node? ==> Bst(t.left) && Bst(t.right) && AllLess(t.left, t.data) && AllGreater(t.right, t.data)
  }

  lemma {:induction false} ExactHeight(t: Tree)
    requires Exact(t)
    ensures Height(t) >= 0 && (Height(t) == 0 <==> t.Leaf?)
  {
    if t.Leaf? {
    } else {
      ExactHeight(t.left);
      ExactHeight(t.right);
    }
  }

  lemma {:induction false} AvlExact(t: Tree)
    requires Avl(t)
    ensures Exact(t)
  {
    if t.Leaf? {
    } else {
      AvlExact(t.left);
      AvlExact(t.right);
    }
  }

  /** Rebalancing two AVL trees whose heights differ by at most two. */
  lemma BalanceAvl(l: Tree, x: int, r: Tree)
    requires Avl(l) && Avl(r) && -2 <= Height(l) - Height(r) <= 2
    ensures Exact(l) && Exact(r) && Avl(Balance(l, x, r))
    ensures Max(Height(l), Height(r)) <= Height(Balance(l, x, r)) <= 1 + Max(Height(l), Height(r))
    ensures -1 <= Height(l) - Height(r) <= 1 ==> Balance(l, x, r) == Join(l, x, r)
  {
    AvlExact(l);
    AvlExact(r);
    if Height(l) - Height(r) < -1 {
      RightHeavy(l, x, r);
    } else if Height(l) - Height(r) > 1 {
      LeftHeavy(l, x, r);
    }
  }

  lemma RightHeavy(l: Tree, x: int, r: Tree)
    requires Avl(l) && Avl(r) && Exact(l) && Exact(r) && Height(r) == Height(l) + 2
    ensures Avl(Balance(l, x, r)) && Height(r) <= Height(Balance(l, x, r)) <= 1 + Height(r)
  {
    ExactHeight(l);
    ExactHeight(r);
    ExactHeight(r.left);
    ExactHeight(r.right);
    if BalanceOf(r) > 0 {
      assert r.left.Node?;
      ExactHeight(r.left.left);
      ExactHeight(r.left.right);
    }
  }

  lemma LeftHeavy(l: Tree, x: int, r: Tree)
    requires Avl(l) && Avl(r) && Exact(l) && Exact(r) && Height(l) == Height(r) + 2
    ensures Avl(Balance(l, x, r)) && Height(l) <= Height(Balance(l, x, r)) <= 1 + Height(l)
  {
    ExactHeight(l);
    ExactHeight(r);
    ExactHeight(l.left);
    ExactHeight(l.right);
    if BalanceOf(l) < 0 {
      assert l.right.Node?;
      ExactHeight(l.right.left);
      ExactHeight(l.right.right);
    }
  }

  /** Rotations keep the keys. */
  lemma BalanceHas(l: Tree, x: int, r: Tree, k: int)
    requires Exact(l) && Exact(r)
    ensures Has(Balance(l, x, r), k) <==> Has(l, k) || k == x || Has(r, k)
    ensures AllLess(Balance(l, x, r), k) <==> AllLess(l, k) && x < k && AllLess(r, k)
    ensures AllGreater(Balance(l, x, r), k) <==> AllGreater(l, k) && x > k && AllGreater(r, k)
  {
    ExactHeight(l);
    ExactHeight(r);
    var t := Join(l, x, r);
    if BalanceOf(t) < -1 {
      if BalanceOf(r) > 0 {
        ExactHeight(r.right);
        RotateRightHas(r, k);
        RotateLeftHas(t.(right := RightRotate(r)), k);
      } else {
        RotateLeftHas(t, k);
      }
    } else if BalanceOf(t) > 1 {
      if BalanceOf(l) < 0 {
        ExactHeight(l.left);
        RotateLeftHas(l, k);
        RotateRightHas(t.(left := LeftRotate(l)), k);
      } else {
        RotateRightHas(t, k);
      }
    }
  }

  lemma RotateLeftHas(t: Tree, k: int)
    requires t.Node? && t.right.Node?
    ensures Has(LeftRotate(t), k) <==> Has(t, k)
    ensures AllLess(LeftRotate(t), k) <==> AllLess(t, k)
    ensures AllGreater(LeftRotate(t), k) <==> AllGreater(t, k)
  {
    var a := LeftRotate(t).left;
    assert Has(a, k) <==> k == t.data || Has(t.left, k) || Has(t.right.left, k);
    assert AllLess(a, k) <==> t.data < k && AllLess(t.left, k) && AllLess(t.right.left, k);
    assert AllGreater(a, k) <==> t.data > k && AllGreater(t.left, k) && AllGreater(t.right.left, k);
  }

  lemma RotateRightHas(t: Tree, k: int)
    requires t.Node? && t.left.Node?
    ensures Has(RightRotate(t), k) <==> Has(t, k)
    ensures AllLess(RightRotate(t), k) <==> AllLess(t, k)
    ensures AllGreater(RightRotate(t), k) <==> AllGreater(t, k)
  {
    var a := RightRotate(t).right;
    assert Has(a, k) <==> k == t.data || Has(t.left.right, k) || Has(t.right, k);
    assert AllLess(a, k) <==> t.data < k && AllLess(t.left.right, k) && AllLess(t.right, k);
    assert AllGreater(a, k) <==> t.data > k && AllGreater(t.left.right, k) && AllGreater(t.right, k);
  }

  lemma {:induction false} AllLessWeaken(t: Tree, x: int, y: int)
    requires AllLess(t, x) && x <= y
    ensures AllLess(t, y)
  {
    if t.Leaf? {
    } else {
      AllLessWeaken(t.left, x, y);
      AllLessWeaken(t.right, x, y);
    }
  }

  lemma {:induction false} AllGreaterWeaken(t: Tree, x: int, y: int)
    requires AllGreater(t, x) && y <= x
    ensures AllGreater(t, y)
  {
    if t.Leaf? {
    } else {
      AllGreaterWeaken(t.left, x, y);
      AllGreaterWeaken(t.right, x, y);
    }
  }

  lemma RotateLeftBst(t: Tree)
    requires t.Node? && t.right.Node? && Bst(t)
    ensures Bst(LeftRotate(t))
  {
    AllLessWeaken(t.left, t.data, t.right.data);
    assert Bst(LeftRotate(t).left);
    assert AllLess(LeftRotate(t).left, t.right.data);
  }

  lemma RotateRightBst(t: Tree)
    requires t.Node? && t.left.Node? && Bst(t)
    ensures Bst(RightRotate(t))
  {
    AllGreaterWeaken(t.right, t.data, t.left.data);
    assert Bst(RightRotate(t).right);
    assert AllGreater(RightRotate(t).right, t.left.data);
  }

  /** Rotations keep the search order. */
  lemma BalanceBst(l: Tree, x: int, r: Tree)
    requires Exact(l) && Exact(r) && Bst(Join(l, x, r))
    ensures Bst(Balance(l, x, r))
  {
    ExactHeight(l);
    ExactHeight(r);
    var t := Join(l, x, r);
    if BalanceOf(t) < -1 {
      if BalanceOf(r) > 0 {
        ExactHeight(r.right);
        RotateRightBst(r);
        RotateRightHas(r, x);
        RotateLeftBst(t.(right := RightRotate(r)));
      } else {
        RotateLeftBst(t);
      }
    } else if BalanceOf(t) > 1 {
      if BalanceOf(l) < 0 {
        ExactHeight(l.left);
        RotateLeftBst(l);
        RotateLeftHas(l, x);
        RotateRightBst(t.(left := LeftRotate(l)));
      } else {
        RotateRightBst(t);
      }
    }
  }

  lemma {:induction false} KeysHas(t: Tree, k: int)
    ensures k in Keys(t) <==> Has(t, k)
  {
    if t.Leaf? {
    } else {
      KeysHas(t.left, k);
      KeysHas(t.right, k);
    }
  }

  // ----- insert

  /** __avl_tree_insert */
  function Insert(t: Tree, x: int): (r: Tree)
    requires Avl(t)
    ensures Avl(r) && Height(t) <= Height(r) <= Height(t) + 1
  {
    if t.Leaf? then Join(Leaf, x, Leaf)
    else if x < t.data then
      BalanceAvl(Insert(t.left, x), t.data, t.right);
      Balance(Insert(t.left, x), t.data, t.right)
    else if x > t.data then
      BalanceAvl(t.left, t.data, Insert(t.right, x));
      Balance(t.left, t.data, Insert(t.right, x))
    else t
  }

  lemma {:induction false} InsertHas(t: Tree, x: int, k: int)
    requires Avl(t)
    ensures Has(Insert(t, x), k) <==> Has(t, k) || k == x
    ensures x < k ==> (AllLess(Insert(t, x), k) <==> AllLess(t, k))
    ensures x > k ==> (AllGreater(Insert(t, x), k) <==> AllGreater(t, k))
  {
    if t.Leaf? {
    } else {
      AvlExact(t.left);
      AvlExact(t.right);
      if x < t.data {
        InsertHas(t.left, x, k);
        AvlExact(Insert(t.left, x));
        BalanceHas(Insert(t.left, x), t.data, t.right, k);
      } else if x > t.data {
        InsertHas(t.right, x, k);
        AvlExact(Insert(t.right, x));
        BalanceHas(t.left, t.data, Insert(t.right, x), k);
      }
    }
  }

  lemma {:induction false} InsertBst(t: Tree, x: int)
    requires Avl(t) && Bst(t)
    ensures Bst(Insert(t, x))
  {
    if t.Leaf? {
    } else {
      AvlExact(t.left);
      AvlExact(t.right);
      if x < t.data {
        InsertBst(t.left, x);
        InsertHas(t.left, x, t.data);
        AvlExact(Insert(t.left, x));
        BalanceBst(Insert(t.left, x), t.data, t.right);
      } else if x > t.data {
        InsertBst(t.right, x);
        InsertHas(t.right, x, t.data);
        AvlExact(Insert(t.right, x));
        BalanceBst(t.left, t.data, Insert(t.right, x));
      }
    }
  }

  /** Insertion adds exactly the key and keeps the search order. */
  lemma InsertCorrect(t: Tree, x: int)
    requires Avl(t) && Bst(t)
    ensures Avl(Insert(t, x)) && Bst(Insert(t, x)) && Keys(Insert(t, x)) == Keys(t) + {x}
  {
    InsertBst(t, x);
    forall k ensures k in Keys(Insert(t, x)) <==> k in Keys(t) + {x} {
      KeysHas(t, k);
      KeysHas(Insert(t, x), k);
      InsertHas(t, x, k);
    }
  }

  // ----- delete

  /** Data of the leftmost node. */
  function MinData(t: Tree): int
    requires t.Node?
  {
    if t.left.Leaf? then t.data else MinData(t.left)
  }

  /** __avl_tree_delete */
  function Delete(t: Tree, x: int): (r: Tree)
    requires Avl(t)
    ensures Avl(r) && Height(t) - 1 <= Height(r) <= Height(t)
  {
    if t.Leaf? then Leaf
    else if x < t.data then
      BalanceAvl(Delete(t.left, x), t.data, t.right);
      Balance(Delete(t.left, x), t.data, t.right)
    else if x > t.data then
      BalanceAvl(t.left, t.data, Delete(t.right, x));
      Balance(t.left, t.data, Delete(t.right, x))
    else if t.left.Leaf? && t.right.Leaf? then Leaf
    else if t.left.Leaf? || t.right.Leaf? then
      var c := if t.left.Node? then t.left else t.right;
      ChildHeight(t);
      BalanceAvl(c.left, c.data, c.right);
      Balance(c.left, c.data, c.right)
    else
      var m := MinData(t.right);
      BalanceAvl(t.left, m, Delete(t.right, m));
      Balance(t.left, m, Delete(t.right, m))
  }

  /** Deletion of a node with two children. */
  lemma DeleteTwo(t: Tree)
    requires Avl(t) && t.Node? && t.left.Node? && t.right.Node?
    ensures Avl(t.left) && Avl(t.right)
    ensures var m := MinData(t.right);
            && Exact(t.left) && Exact(Delete(t.right, m))
            && Delete(t, t.data) == Balance(t.left, m, Delete(t.right, m))
  {
    hide Balance;
    AvlExact(t.left);
    AvlExact(Delete(t.right, MinData(t.right)));
  }

  lemma ChildHeight(t: Tree)
    requires Avl(t) && t.Node?
    ensures (t.left.Leaf? || t.right.Leaf?) && !(t.left.Leaf? && t.right.Leaf?) ==>
              var c := if t.left.Node? then t.left else t.right; Avl(c) && Height(t) == Height(c) + 1
  {
    AvlExact(t);
    ExactHeight(t.left);
    ExactHeight(t.right);
  }

  lemma {:induction false} MinDataLeast(t: Tree)
    requires t.Node? && Bst(t)
    ensures Has(t, MinData(t)) && forall k | Has(t, k) :: MinData(t) <= k
  {
    if t.left.Leaf? {
    } else {
      MinDataLeast(t.left);
    }
    forall k | Has(t, k) ensures MinData(t) <= k {
      if t.left.Node? { LessHas(t.left, t.data, MinData(t.left)); }
      assert Has(t.left, k) ==> t.left.Node?;
      if Has(t.right, k) { GreaterHas(t.right, t.data, k); }
    }
  }

  lemma {:induction false} LessHas(t: Tree, x: int, k: int)
    requires AllLess(t, x) && Has(t, k)
    ensures k < x
  {
    if k == t.data {
    } else {
      if Has(t.left, k) { LessHas(t.left, x, k); }
      if Has(t.right, k) { LessHas(t.right, x, k); }
    }
  }

  lemma {:induction false} GreaterHas(t: Tree, x: int, k: int)
    requires AllGreater(t, x) && Has(t, k)
    ensures k > x
  {
    if k == t.data {
    } else {
      if Has(t.left, k) { GreaterHas(t.left, x, k); }
      if Has(t.right, k) { GreaterHas(t.right, x, k); }
    }
  }

  lemma {:induction false} LessFrom(t: Tree, x: int)
    requires forall k | Has(t, k) :: k < x
    ensures AllLess(t, x)
  {
    if t.Leaf? {
    } else {
      assert Has(t, t.data);
      forall k | Has(t.left, k) || Has(t.right, k) ensures k < x { assert Has(t, k); }
      LessFrom(t.left, x);
      LessFrom(t.right, x);
    }
  }

  lemma {:induction false} GreaterFrom(t: Tree, x: int)
    requires forall k | Has(t, k) :: k > x
    ensures AllGreater(t, x)
  {
    if t.Leaf? {
    } else {
      assert Has(t, t.data);
      forall k | Has(t.left, k) || Has(t.right, k) ensures k > x { assert Has(t, k); }
      GreaterFrom(t.left, x);
      GreaterFrom(t.right, x);
    }
  }

  lemma {:induction false} DeleteHas(t: Tree, x: int, k: int)
    requires Avl(t) && Bst(t)
    ensures Has(Delete(t, x), k) <==> Has(t, k) && k != x
  {
    if t.Leaf? {
    } else {
      AvlExact(t.left);
      AvlExact(t.right);
      if Has(t.left, k) { LessHas(t.left, t.data, k); }
      if Has(t.right, k) { GreaterHas(t.right, t.data, k); }
      if x < t.data {
        DeleteHas(t.left, x, k);
        AvlExact(Delete(t.left, x));
        BalanceHas(Delete(t.left, x), t.data, t.right, k);
      } else if x > t.data {
        DeleteHas(t.right, x, k);
        AvlExact(Delete(t.right, x));
        BalanceHas(t.left, t.data, Delete(t.right, x), k);
      } else if t.left.Node? && t.right.Node? {
        var m := MinData(t.right);
        MinDataLeast(t.right);
        DeleteHas(t.right, m, k);
        AvlExact(Delete(t.right, m));
        BalanceHas(t.left, m, Delete(t.right, m), k);
      } else if t.left.Node? || t.right.Node? {
        var c := if t.left.Node? then t.left else t.right;
        AvlExact(c.left);
        AvlExact(c.right);
        BalanceHas(c.left, c.data, c.right, k);
      }
    }
  }

  lemma DeleteBounds(t: Tree, x: int, z: int)
    requires Avl(t) && Bst(t)
    ensures AllLess(t, z) ==> AllLess(Delete(t, x), z)
    ensures AllGreater(t, z) ==> AllGreater(Delete(t, x), z)
  {
    forall k | Has(Delete(t, x), k)
      ensures AllLess(t, z) ==> k < z
      ensures AllGreater(t, z) ==> k > z
    {
      DeleteHas(t, x, k);
      if AllLess(t, z) { LessHas(t, z, k); }
      if AllGreater(t, z) { GreaterHas(t, z, k); }
    }
    if AllLess(t, z) { LessFrom(Delete(t, x), z); }
    if AllGreater(t, z) { GreaterFrom(Delete(t, x), z); }
  }

  /** Without its least key every key of t is larger. */
  lemma DeleteMin(t: Tree)
    requires t.Node? && Avl(t) && Bst(t)
    ensures AllGreater(Delete(t, MinData(t)), MinData(t))
  {
    var m := MinData(t);
    MinDataLeast(t);
    forall k | Has(Delete(t, m), k) ensures k > m { DeleteHas(t, m, k); }
    GreaterFrom(Delete(t, m), m);
  }

  lemma {:induction false} DeleteBst(t: Tree, x: int)
    requires Avl(t) && Bst(t)
    ensures Bst(Delete(t, x))
  {
    if t.Leaf? {
    } else {
      AvlExact(t.left);
      AvlExact(t.right);
      if x < t.data {
        DeleteBst(t.left, x);
        DeleteBounds(t.left, x, t.data);
        AvlExact(Delete(t.left, x));
        BalanceBst(Delete(t.left, x), t.data, t.right);
      } else if x > t.data {
        DeleteBst(t.right, x);
        DeleteBounds(t.right, x, t.data);
        AvlExact(Delete(t.right, x));
        BalanceBst(t.left, t.data, Delete(t.right, x));
      } else if t.left.Node? && t.right.Node? {
        var m := MinData(t.right);
        MinDataLeast(t.right);
        DeleteBst(t.right, m);
        DeleteMin(t.right);
        GreaterHas(t.right, t.data, m);
        AllLessWeaken(t.left, t.data, m);
        AvlExact(Delete(t.right, m));
        BalanceBst(t.left, m, Delete(t.right, m));
      } else if t.left.Node? || t.right.Node? {
        var c := if t.left.Node? then t.left else t.right;
        AvlExact(c.left);
        AvlExact(c.right);
        BalanceBst(c.left, c.data, c.right);
      }
    }
  }

  /** Deletion removes exactly the key, absent ones included, and keeps the search order. */
  lemma DeleteCorrect(t: Tree, x: int)
    requires Avl(t) && Bst(t)
    ensures Avl(Delete(t, x)) && Bst(Delete(t, x)) && Keys(Delete(t, x)) == Keys(t) - {x}
  {
    DeleteBst(t, x);
    forall k ensures k in Keys(Delete(t, x)) <==> k in Keys(t) - {x} {
      KeysHas(t, k);
      KeysHas(Delete(t, x), k);
      DeleteHas(t, x, k);
    }
  }

  /** Deletion leaves nothing exactly of the empty tree and of the key alone. */
  lemma DeleteEmpties(t: Tree, x: int)
    requires Avl(t) && Bst(t)
    ensures Delete(t, x) == Leaf <==> t == Leaf || Keys(t) == {x}
  {
    DeleteCorrect(t, x);
    assert Delete(t, x).Node? ==> Delete(t, x).data in Keys(Delete(t, x));
    assert t.Node? ==> t.data in Keys(t);
  }

  // ----- lookup and its cost

  /** __avl_tree_lookup */
  function Lookup(t: Tree, x: int): bool {
    if t.Leaf? then false
    else if x < t.data then Lookup(t.left, x)
    else if x > t.data then Lookup(t.right, x)
    else true
  }

  lemma {:induction false} LookupIsMembership(t: Tree, x: int)
    requires Bst(t)
    ensures Lookup(t, x) <==> x in Keys(t)
  {
    if t.Leaf? {
    } else {
      KeysHas(t, x);
      KeysHas(t.left, x);
      KeysHas(t.right, x);
      if Has(t.left, x) { LessHas(t.left, t.data, x); }
      if Has(t.right, x) { GreaterHas(t.right, t.data, x); }
      LookupIsMembership(t.left, x);
      LookupIsMembership(t.right, x);
    }
  }

  function Size(t: Tree): nat { if t.Leaf? then 0 else Size(t.left) + 1 + Size(t.right) }

  lemma KeysApart(t: Tree)
    requires Bst(t) && t.Node?
    ensures Keys(t.left) !! Keys(t.right) && t.data !in Keys(t.left) && t.data !in Keys(t.right)
  {
    hide Keys;
    forall k | k in Keys(t.left) ensures k < t.data { KeysHas(t.left, k); LessHas(t.left, t.data, k); }
    forall k | k in Keys(t.right) ensures k > t.data { KeysHas(t.right, k); GreaterHas(t.right, t.data, k); }
  }

  /** A search tree holds each key once. */
  lemma {:induction false} SizeIsKeys(t: Tree)
    requires Bst(t)
    ensures Size(t) == |Keys(t)|
  {
    if t.Leaf? {
    } else {
      SizeIsKeys(t.left);
      SizeIsKeys(t.right);
      KeysApart(t);
      PartsSize(Keys(t.left), t.data, Keys(t.right));
    }
  }

  /** Nodes compared with by a lookup. */
  function Comparisons(t: Tree, x: int): nat {
    if t.Leaf? then 0
    else if x < t.data then 1 + Comparisons(t.left, x)
    else if x > t.data then 1 + Comparisons(t.right, x)
    else 1
  }

  function Fib(n: nat): nat { if n < 2 then n else Fib(n - 1) + Fib(n - 2) }

  lemma {:induction false} FibMonotone(m: nat, n: nat)
    requires m <= n
    ensures Fib(m) <= Fib(n)
  {
    if m >= n {
    } else {
      FibMonotone(m, n - 1);
    }
  }

  /** An AVL tree of height h has at least Fib(h + 2) - 1 nodes. */
  lemma {:induction false} SizeBound(t: Tree)
    requires Avl(t)
    ensures Height(t) >= 0 && Size(t) + 1 >= Fib(Height(t) + 2)
  {
    if t.Leaf? {
    } else {
      SizeBound(t.left);
      SizeBound(t.right);
      var h := t.height;
      FibMonotone(h, Height(t.left) + 2);
      FibMonotone(h, Height(t.right) + 2);
      assert Fib(h + 2) == Fib(h + 1) + Fib(h);
    }
  }

  /** Fibonacci numbers at least double every two steps, so their squares outgrow 2^h. */
  lemma {:induction false} FibSquare(h: nat)
    ensures Pow2(h) <= Fib(h + 2) * Fib(h + 2)
  {
    if h < 2 {
    } else {
      FibSquare(h - 2);
      FibMonotone(h, h + 1);
      var a, b := Fib(h), Fib(h + 2);
      assert Fib(h + 2) == Fib(h + 1) + Fib(h);
      assert b >= 2 * a;
      DoubleSquare(a, b);
      assert Pow2(h) == 4 * Pow2(h - 2);
    }
  }

  lemma DoubleSquare(a: nat, b: nat)
    requires b >= 2 * a
    ensures 4 * (a * a) <= b * b
  {
    var d := b - 2 * a;
    assert b * b == 4 * (a * a) + 4 * (a * d) + d * d;
  }

  lemma {:induction false} ComparisonsBound(t: Tree, x: int)
    requires Avl(t)
    ensures Comparisons(t, x) <= Height(t)
  {
    AvlExact(t);
    ExactHeight(t);
    if t.Leaf? {
    } else {
      ComparisonsBound(t.left, x);
      ComparisonsBound(t.right, x);
    }
  }

  /** Lookup is logarithmic: 2^c <= (n + 1)^2 for c comparisons among n nodes. */
  lemma LookupCost(t: Tree, x: int)
    requires Avl(t)
    ensures Pow2(Comparisons(t, x)) <= (Size(t) + 1) * (Size(t) + 1)
  {
    SizeBound(t);
    ComparisonsBound(t, x);
    Pow2Monotone(Comparisons(t, x), Height(t));
    FibSquare(Height(t));
    SquareMonotone(Fib(Height(t) + 2), Size(t) + 1);
  }

  lemma SquareMonotone(a: nat, b: nat)
    requires a <= b
    ensures a * a <= b * b
  {
    var d := b - a;
    assert b * b == a * a + 2 * (a * d) + d * d;
  }
}
