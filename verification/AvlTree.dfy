/** The AVL tree in place: nodes whose links, heights and data are rewritten. Every operation
    computes the value that AvlSpec gives for it. The ghost `Shape` says which nodes make up
    the tree; the rest is read from the nodes. */
module AvlTree {
  import opened Pigeonhole
  import opened Shapes
  import opened Wrappers
  import opened AvlSpec

  class AvlNode {
    var data: int
    var left: AvlNode?
    var right: AvlNode?
    var height: int

    /** __avl_node_create */
    constructor (data: int)
      ensures this.data == data && left == null && right == null && height == 1
    {
      this.data := data;
      left := null;
      right := null;
      height := 1;
    }
  }

  /** The tree below n as a value, if its links are those of the shape. */
  ghost function Read(n: AvlNode?, g: Shape<AvlNode>): Option<Tree>
    reads Nodes(g)
  {
    if g.Nil? then (if n == null then Some(Leaf) else None)
    else if n != g.node then None
    else
      var l, r := Read(g.node.left, g.left), Read(g.node.right, g.right);
      if l.Some? && r.Some? then Some(Node(l.value, g.node.data, g.node.height, r.value)) else None
  }

  function GetHeight(n: AvlNode?): int
    reads n
  {
    if n == null then 0 else n.height
  }

  function GetBalance(n: AvlNode?): int
    reads n, if n == null then {} else {n.left, n.right}
  {
    if n == null then 0 else GetHeight(n.left) - GetHeight(n.right)
  }

  /** The height that __avl_node_update_height stores. */
  function NewHeight(n: AvlNode): int
    reads n, n.left, n.right
  {
    1 + Max(GetHeight(n.left), GetHeight(n.right))
  }

  lemma HeightOf(n: AvlNode?, g: Shape<AvlNode>)
    requires Read(n, g).Some?
    ensures GetHeight(n) == Height(Read(n, g).value)
  {
  }

  lemma RotateLeftShape(x: AvlNode, y: AvlNode, A: Shape<AvlNode>, B: Shape<AvlNode>, C: Shape<AvlNode>)
    requires Sep(Cell(x, A, Cell(y, B, C)))
    ensures Sep(Cell(x, A, B)) && Sep(Cell(y, Cell(x, A, B), C))
    ensures Nodes(Cell(y, Cell(x, A, B), C)) == Nodes(Cell(x, A, Cell(y, B, C)))
    ensures x != y && {x, y} !! Nodes(A) && {x, y} !! Nodes(B) && {x, y} !! Nodes(C)
  {
    var g, h := Cell(y, B, C), Cell(x, A, B);
    assert Nodes(g) == {y} + Nodes(B) + Nodes(C);
    assert Nodes(h) == {x} + Nodes(A) + Nodes(B);
  }

  lemma RotateRightShape(x: AvlNode, y: AvlNode, A: Shape<AvlNode>, B: Shape<AvlNode>, C: Shape<AvlNode>)
    requires Sep(Cell(x, Cell(y, A, B), C))
    ensures Sep(Cell(x, B, C)) && Sep(Cell(y, A, Cell(x, B, C)))
    ensures Nodes(Cell(y, A, Cell(x, B, C))) == Nodes(Cell(x, Cell(y, A, B), C))
    ensures x != y && {x, y} !! Nodes(A) && {x, y} !! Nodes(B) && {x, y} !! Nodes(C)
  {
    var g, h := Cell(y, A, B), Cell(x, B, C);
    assert Nodes(g) == {y} + Nodes(A) + Nodes(B);
    assert Nodes(h) == {x} + Nodes(B) + Nodes(C);
  }

  method LeftRotate(x: AvlNode, ghost g: Shape<AvlNode>) returns (y: AvlNode, ghost g2: Shape<AvlNode>)
    requires Sep(g) && g.Cell? && g.right.Cell? && Read(x, g).Some?
    modifies Nodes(g)
    ensures Sep(g2) && g2.Cell? && Nodes(g2) == Nodes(g)
    ensures var t := old(Read(x, g)).value;
            t.Node? && t.right.Node? && Read(y, g2) == Some(AvlSpec.LeftRotate(t))
  {
    y := x.right;
    ghost var A, B, C := g.left, g.right.left, g.right.right;
    RotateLeftShape(x, y, A, B, C);
    ghost var gx := Cell(x, A, B);
    g2 := Cell(y, gx, C);
    var yL := y.left;
    y.left := x;
    x.right := yL;
    assert Read(x.left, A) == old(Read(x.left, A)) && Read(yL, B) == old(Read(yL, B));
    HeightOf(x.left, A);
    HeightOf(yL, B);
    x.height := NewHeight(x);
    assert Read(x, gx) == old(Some(Join(Read(x.left, A).value, x.data, Read(yL, B).value)));
    assert Read(y.right, C) == old(Read(y.right, C));
    HeightOf(y.right, C);
    y.height := NewHeight(y);
  }

  method RightRotate(x: AvlNode, ghost g: Shape<AvlNode>) returns (y: AvlNode, ghost g2: Shape<AvlNode>)
    requires Sep(g) && g.Cell? && g.left.Cell? && Read(x, g).Some?
    modifies Nodes(g)
    ensures Sep(g2) && g2.Cell? && Nodes(g2) == Nodes(g)
    ensures var t := old(Read(x, g)).value;
            t.Node? && t.left.Node? && Read(y, g2) == Some(AvlSpec.RightRotate(t))
  {
    y := x.left;
    ghost var A, B, C := g.left.left, g.left.right, g.right;
    RotateRightShape(x, y, A, B, C);
    ghost var gx := Cell(x, B, C);
    g2 := Cell(y, A, gx);
    var yR := y.right;
    y.right := x;
    x.left := yR;
    assert Read(yR, B) == old(Read(yR, B)) && Read(x.right, C) == old(Read(x.right, C));
    HeightOf(yR, B);
    HeightOf(x.right, C);
    x.height := NewHeight(x);
    assert Read(x, gx) == old(Some(Join(Read(yR, B).value, x.data, Read(x.right, C).value)));
    assert Read(y.left, A) == old(Read(y.left, A));
    HeightOf(y.left, A);
    y.height := NewHeight(y);
  }

  /** The subtrees of node are those of the shape, with values l and r. */
  ghost predicate Subtrees(node: AvlNode, g: Shape<AvlNode>, l: Tree, r: Tree)
    reads node, if g.Cell? then Nodes(g.left) + Nodes(g.right) else {}
  {
    && Sep(g) && g.Cell? && g.node == node
    && Read(node.left, g.left) == Some(l) && Read(node.right, g.right) == Some(r)
  }

  /** The right child is rotated to the right. */
  method RotateRightChild(node: AvlNode, ghost g: Shape<AvlNode>, ghost t: Tree) returns (ghost g2: Shape<AvlNode>)
    requires Sep(g) && g.Cell? && g.right.Cell? && g.right.left.Cell? && Read(node, g) == Some(t)
    modifies Nodes(g)
    ensures Sep(g2) && g2.Cell? && g2.right.Cell? && Nodes(g2) == Nodes(g)
    ensures t.Node? && t.right.Node? && t.right.left.Node?
    ensures Read(node, g2) == Some(t.(right := AvlSpec.RightRotate(t.right)))
  {
    NodesAllocated(g.left);
    var c;
    ghost var h;
    c, h := RightRotate(node.right, g.right);
    node.right := c;
    assert Read(node.left, g.left) == old(Read(node.left, g.left));
    g2 := Cell(node, g.left, h);
  }

  /** The left child is rotated to the left. */
  method RotateLeftChild(node: AvlNode, ghost g: Shape<AvlNode>, ghost t: Tree) returns (ghost g2: Shape<AvlNode>)
    requires Sep(g) && g.Cell? && g.left.Cell? && g.left.right.Cell? && Read(node, g) == Some(t)
    modifies Nodes(g)
    ensures Sep(g2) && g2.Cell? && g2.left.Cell? && Nodes(g2) == Nodes(g)
    ensures t.Node? && t.left.Node? && t.left.right.Node?
    ensures Read(node, g2) == Some(t.(left := AvlSpec.LeftRotate(t.left)))
  {
    NodesAllocated(g.right);
    var c;
    ghost var h;
    c, h := LeftRotate(node.left, g.left);
    node.left := c;
    assert Read(node.right, g.right) == old(Read(node.right, g.right));
    g2 := Cell(node, h, g.right);
  }

  /** __avl_tree_balance, on a node whose subtrees may have changed. */
  method Balance(node: AvlNode, ghost g: Shape<AvlNode>, ghost l: Tree, ghost r: Tree) returns (top: AvlNode, ghost g2: Shape<AvlNode>)
    requires Subtrees(node, g, l, r) && Exact(l) && Exact(r)
    modifies Nodes(g)
    ensures Sep(g2) && g2.Cell? && Nodes(g2) == Nodes(g)
    ensures Read(top, g2) == Some(AvlSpec.Balance(l, old(node.data), r))
  {
    HeightOf(node.left, g.left);
    HeightOf(node.right, g.right);
    node.height := NewHeight(node);
    ghost var t := Join(l, node.data, r);
    assert Read(node, g) == Some(t);
    ShapeOf(node, g, t);
    var balance := GetBalance(node);
    top, g2 := node, g;
    if balance < -1 {
      if GetBalance(node.right) > 0 {
        g2 := RotateRightChild(node, g, t);
      }
      top, g2 := LeftRotate(node, g2);
    } else if balance > 1 {
      if GetBalance(node.left) < 0 {
        g2 := RotateLeftChild(node, g, t);
      }
      top, g2 := RightRotate(node, g2);
    }
  }

  /** What the balance factors say about the shape, for exact heights. */
  lemma ShapeOf(n: AvlNode, g: Shape<AvlNode>, t: Tree)
    requires Read(n, g) == Some(t) && Exact(t)
    ensures t.Node? && g.Cell? && GetBalance(n) == BalanceOf(t)
    ensures BalanceOf(t) < -1 ==> g.right.Cell? && GetBalance(n.right) == BalanceOf(t.right)
                                  && (BalanceOf(t.right) > 0 ==> g.right.left.Cell?)
    ensures BalanceOf(t) > 1 ==> g.left.Cell? && GetBalance(n.left) == BalanceOf(t.left)
                                  && (BalanceOf(t.left) < 0 ==> g.left.right.Cell?)
  {
    BalanceReads(n, g, t);
    ExactHeight(t.left);
    ExactHeight(t.right);
    BalanceReads(n.left, g.left, t.left);
    BalanceReads(n.right, g.right, t.right);
    if t.left.Node? { ExactHeight(t.left.left); ExactHeight(t.left.right); }
    if t.right.Node? { ExactHeight(t.right.left); ExactHeight(t.right.right); }
  }

  lemma BalanceReads(n: AvlNode?, g: Shape<AvlNode>, t: Tree)
    requires Read(n, g) == Some(t)
    ensures GetBalance(n) == BalanceOf(t) && (g.Cell? <==> t.Node?)
    ensures g.Cell? && t.Node? ==> (g.left.Cell? <==> t.left.Node?) && (g.right.Cell? <==> t.right.Node?)
  {
    if g.Cell? {
      HeightOf(n.left, g.left);
      HeightOf(n.right, g.right);
    }
  }

  /** __avl_tree_insert */
  method InsertNode(node: AvlNode?, x: int, ghost g: Shape<AvlNode>, ghost t: Tree) returns (top: AvlNode, ghost g2: Shape<AvlNode>)
    requires Sep(g) && Read(node, g) == Some(t) && Avl(t)
    modifies Nodes(g)
    ensures Sep(g2) && g2.Cell? && fresh(Nodes(g2) - Nodes(g))
    ensures Read(top, g2) == Some(AvlSpec.Insert(t, x))
    decreases t
  {
    if node == null {
      top := new AvlNode(x);
      g2 := Cell(top, Nil, Nil);
      assert Read(top.left, Nil) == Some(Leaf) && Read(top.right, Nil) == Some(Leaf);
      return;
    }
    NodesAllocated(g.left);
    NodesAllocated(g.right);
    AvlExact(t.left);
    AvlExact(t.right);
    var c;
    ghost var h;
    if x < node.data {
      c, h := InsertNode(node.left, x, g.left, t.left);
      AvlExact(AvlSpec.Insert(t.left, x));
      g2 := ReplaceLeft(node, g, h, c, AvlSpec.Insert(t.left, x), t.right);
      top, g2 := Balance(node, g2, AvlSpec.Insert(t.left, x), t.right);
    } else if x > node.data {
      c, h := InsertNode(node.right, x, g.right, t.right);
      AvlExact(AvlSpec.Insert(t.right, x));
      g2 := ReplaceRight(node, g, h, c, t.left, AvlSpec.Insert(t.right, x));
      top, g2 := Balance(node, g2, t.left, AvlSpec.Insert(t.right, x));
    } else {
      top, g2 := node, g;
    }
  }

  /** node->left = c */
  method ReplaceLeft(node: AvlNode, ghost g: Shape<AvlNode>, ghost h: Shape<AvlNode>, c: AvlNode?, ghost l: Tree, ghost r: Tree)
      returns (ghost g2: Shape<AvlNode>)
    requires Sep(h) && g.Cell? && g.node == node && Sep(g.right) && node !in Nodes(g.right)
    requires node !in Nodes(h) && Nodes(h) !! Nodes(g.right)
    requires Read(c, h) == Some(l) && Read(node.right, g.right) == Some(r)
    modifies node`left
    ensures g2 == Cell(node, h, g.right) && Subtrees(node, g2, l, r)
  {
    node.left := c;
    g2 := Cell(node, h, g.right);
    assert Read(node.left, h) == Some(l) && Read(node.right, g.right) == Some(r);
  }

  /** node->right = c */
  method ReplaceRight(node: AvlNode, ghost g: Shape<AvlNode>, ghost h: Shape<AvlNode>, c: AvlNode?, ghost l: Tree, ghost r: Tree)
      returns (ghost g2: Shape<AvlNode>)
    requires Sep(h) && g.Cell? && g.node == node && Sep(g.left) && node !in Nodes(g.left)
    requires node !in Nodes(h) && Nodes(h) !! Nodes(g.left)
    requires Read(c, h) == Some(r) && Read(node.left, g.left) == Some(l)
    modifies node`right
    ensures g2 == Cell(node, g.left, h) && Subtrees(node, g2, l, r)
  {
    node.right := c;
    g2 := Cell(node, g.left, h);
    assert Read(node.right, h) == Some(r) && Read(node.left, g.left) == Some(l);
  }

  /** __avl_tree_lookup */
  method LookupNode(node: AvlNode?, x: int, ghost g: Shape<AvlNode>, ghost t: Tree) returns (found: bool)
    requires Read(node, g) == Some(t)
    ensures found == AvlSpec.Lookup(t, x)
    decreases t
  {
    if node == null {
      return false;
    }
    if x < node.data {
      found := LookupNode(node.left, x, g.left, t.left);
    } else if x > node.data {
      found := LookupNode(node.right, x, g.right, t.right);
    } else {
      found := true;
    }
  }

  /** __avl_node_get_min_node */
  method GetMinNode(node: AvlNode, ghost g: Shape<AvlNode>, ghost t: Tree) returns (m: AvlNode)
    requires Read(node, g) == Some(t)
    ensures t.Node? && m.data == MinData(t)
  {
    m := node;
    ghost var h, u := g, t;
    while m.left != null
      invariant Read(m, h) == Some(u) && u.Node? && MinData(u) == MinData(t)
      decreases u
    {
      m := m.left;
      h, u := h.left, u.left;
    }
  }

  /** The one-child case: the child's content replaces the node's. */
  method CopyContent(node: AvlNode, child: AvlNode, ghost g: Shape<AvlNode>, ghost t: Tree) returns (ghost g2: Shape<AvlNode>, ghost c: Tree)
    requires Sep(g) && Read(node, g) == Some(t) && t.Node? && child != node
    requires (child == node.left && node.right == null) || (child == node.right && node.left == null)
    modifies node
    ensures c == (if t.left.Node? then t.left else t.right) && c.Node?
    ensures Nodes(g2) <= Nodes(g) && node.data == c.data && Subtrees(node, g2, c.left, c.right)
  {
    ghost var h := if g.left.Cell? then g.left else g.right;
    c := if t.left.Node? then t.left else t.right;
    assert Read(child, h) == Some(c);
    node.data, node.left, node.right, node.height := child.data, child.left, child.right, child.height;
    g2 := Cell(node, h.left, h.right);
    assert Read(node.left, h.left) == Some(c.left) && Read(node.right, h.right) == Some(c.right);
  }

  /** __avl_tree_delete */
  method DeleteNode(node: AvlNode?, x: int, ghost g: Shape<AvlNode>, ghost t: Tree)
      returns (top: AvlNode?, ghost g2: Shape<AvlNode>)
    requires Sep(g) && Read(node, g) == Some(t) && Avl(t)
    modifies Nodes(g)
    ensures Sep(g2) && Nodes(g2) <= Nodes(g)
    ensures Read(top, g2) == Some(AvlSpec.Delete(t, x))
    ensures top == null ==> Read(node, g) == Some(t)
    decreases t, 1
  {
    hide Exact, AvlSpec.Balance;
    if node == null {
      return null, Nil;
    }
    NodesAllocated(g.left);
    NodesAllocated(g.right);
    AvlExact(t.left);
    AvlExact(t.right);
    var c: AvlNode?;
    ghost var h;
    if x < node.data {
      c, h := DeleteNode(node.left, x, g.left, t.left);
      AvlExact(AvlSpec.Delete(t.left, x));
      g2 := ReplaceLeft(node, g, h, c, AvlSpec.Delete(t.left, x), t.right);
      top, g2 := Balance(node, g2, AvlSpec.Delete(t.left, x), t.right);
    } else if x > node.data {
      c, h := DeleteNode(node.right, x, g.right, t.right);
      AvlExact(AvlSpec.Delete(t.right, x));
      g2 := ReplaceRight(node, g, h, c, t.left, AvlSpec.Delete(t.right, x));
      top, g2 := Balance(node, g2, t.left, AvlSpec.Delete(t.right, x));
    } else if node.left == null && node.right == null {
      return null, Nil;
    } else if node.left == null || node.right == null {
      top, g2 := DeleteOneChild(node, g, t);
    } else {
      top, g2 := DeleteTwoChildren(node, g, t);
    }
  }

  /** The node to delete has one child: it becomes that child. */
  method DeleteOneChild(node: AvlNode, ghost g: Shape<AvlNode>, ghost t: Tree)
      returns (top: AvlNode, ghost g2: Shape<AvlNode>)
    requires Sep(g) && Read(node, g) == Some(t) && Avl(t)
    requires (node.left == null) != (node.right == null)
    modifies Nodes(g)
    ensures t.Node? && Sep(g2) && Nodes(g2) <= Nodes(g)
    ensures Read(top, g2) == Some(AvlSpec.Delete(t, t.data))
  {
    hide Exact, AvlSpec.Balance;
    var tmp := if node.left != null then node.left else node.right;
    ghost var u;
    g2, u := CopyContent(node, tmp, g, t);
    AvlExact(u.left);
    AvlExact(u.right);
    top, g2 := Balance(node, g2, u.left, u.right);
  }

  /** The node to delete has two children: the least key on the right takes its place. */
  method DeleteTwoChildren(node: AvlNode, ghost g: Shape<AvlNode>, ghost t: Tree)
      returns (top: AvlNode, ghost g2: Shape<AvlNode>)
    requires Sep(g) && Read(node, g) == Some(t) && Avl(t)
    requires node.left != null && node.right != null
    modifies Nodes(g)
    ensures t.Node? && Sep(g2) && Nodes(g2) <= Nodes(g)
    ensures Read(top, g2) == Some(AvlSpec.Delete(t, t.data))
    decreases t, 0
  {
    hide Exact, Avl, AvlSpec.Balance, AvlSpec.Delete;
    NodesAllocated(g.left);
    NodesAllocated(g.right);
    DeleteTwo(t);
    AvlExact(t.left);
    AvlExact(t.right);
    var tmp := GetMinNode(node.right, g.right, t.right);
    var m := tmp.data;
    node.data := m;
    assert Read(node.right, g.right) == Some(t.right) && Read(node.left, g.left) == Some(t.left);
    var c;
    ghost var h;
    c, h := DeleteNode(node.right, m, g.right, t.right);
    AvlExact(AvlSpec.Delete(t.right, m));
    g2 := ReplaceRight(node, g, h, c, t.left, AvlSpec.Delete(t.right, m));
    top, g2 := Balance(node, g2, t.left, AvlSpec.Delete(t.right, m));
  }

  /** One heap node for each node of the tree. */
  lemma {:induction false} NodeCount(n: AvlNode?, g: Shape<AvlNode>, t: Tree)
    requires Sep(g) && Read(n, g) == Some(t)
    ensures |Nodes(g)| == Size(t)
  {
    if g.Nil? {
    } else {
      NodeCount(g.node.left, g.left, t.left);
      NodeCount(g.node.right, g.right, t.right);
      PartsSize(Nodes(g.left), g.node, Nodes(g.right));
    }
  }

  lemma ReadEmpty(n: AvlNode?, g: Shape<AvlNode>, t: Tree)
    requires Read(n, g) == Some(t)
    ensures n == null <==> g == Nil
    ensures n == null <==> t == Leaf
    ensures n != null ==> n in Nodes(g) && Read(n, Nil).None?
  {
  }

  lemma FreedCount(before: set<AvlNode>, after: set<AvlNode>, keys: set<int>, x: int)
    requires after <= before && |before| == |keys| && |after| == |keys - {x}|
    ensures |before - after| == if x in keys then 1 else 0
  {
    assert before == after + (before - after);
    assert x in keys ==> keys == (keys - {x}) + {x};
    assert x !in keys ==> keys - {x} == keys;
  }

  /** A deletion takes one node out of the tree if the key is there, and none otherwise. */
  method DeleteAndFree(node: AvlNode?, x: int, ghost g: Shape<AvlNode>, ghost t: Tree)
      returns (top: AvlNode?, ghost g2: Shape<AvlNode>)
    requires Sep(g) && Read(node, g) == Some(t) && Avl(t) && Bst(t)
    modifies Nodes(g)
    ensures Sep(g2) && Nodes(g2) <= Nodes(g) && Read(top, g2) == Some(AvlSpec.Delete(t, x))
    ensures |Nodes(g) - Nodes(g2)| == if x in Keys(t) then 1 else 0
  {
    hide *;
    NodeCount(node, g, t);
    SizeIsKeys(t);
    top, g2 := DeleteNode(node, x, g, t);
    DeleteCorrect(t, x);
    NodeCount(top, g2, AvlSpec.Delete(t, x));
    SizeIsKeys(AvlSpec.Delete(t, x));
    FreedCount(Nodes(g), Nodes(g2), Keys(t), x);
  }

  /** avl_tree_entry: the tree as its users see it. */
  class AvlEntry {
    var root: AvlNode?
    ghost var shape: Shape<AvlNode>
    ghost var tree: Tree

    ghost predicate Valid()
      reads this, Nodes(shape)
    {
      Sep(shape) && Read(root, shape) == Some(tree) && Avl(tree) && Bst(tree)
    }

    constructor ()
      ensures Valid() && Keys(tree) == {} && shape == Nil
    {
      root := null;
      shape := Nil;
      tree := Leaf;
    }

    /** avl_tree_insert */
    method Insert(x: int) returns (rv: int)
      requires Valid()
      modifies this, Nodes(shape)
      ensures Valid() && rv == 0 && Keys(tree) == old(Keys(tree)) + {x}
      ensures fresh(Nodes(shape) - old(Nodes(shape)))
    {
      InsertCorrect(tree, x);
      var node;
      ghost var g2;
      node, g2 := InsertNode(root, x, shape, tree);
      root := node;
      shape := g2;
      tree := AvlSpec.Insert(tree, x);
      assert Read(root, shape) == Some(tree);
      rv := 0;
    }

    /** avl_tree_delete: it takes the NULL that deletion returns for an emptied tree for an error. So it
        returns 0 and removes exactly the key if and only if the tree is neither empty nor the single node
        holding the key. In the second case that node is freed and the root keeps pointing at it, so the
        entry is no longer a tree. A node is freed exactly for a key in the tree, and then one node. */
    method Delete(x: int) returns (rv: int)
      requires Valid()
      modifies this, Nodes(shape)
      ensures rv == if old(tree).Node? && Keys(old(tree)) != {x} then 0 else -1
      ensures rv == 0 ==> Valid() && Keys(tree) == old(Keys(tree)) - {x}
      ensures old(tree).Leaf? ==> Valid() && root == null && tree == old(tree)
      ensures Keys(old(tree)) == {x} ==> root == old(root) && root in old(Nodes(shape)) && Nodes(shape) == {} && !Valid()
      ensures Nodes(shape) <= old(Nodes(shape))
      ensures |old(Nodes(shape)) - Nodes(shape)| == if x in old(Keys(tree)) then 1 else 0
    {
      hide Bst, Keys, Size, AvlSpec.Delete, Avl, Exact, Read, Sep;
      ReadEmpty(root, shape, tree);
      DeleteCorrect(tree, x);
      DeleteEmpties(tree, x);
      var node;
      ghost var g2;
      node, g2 := DeleteAndFree(root, x, shape, tree);
      ghost var t2 := AvlSpec.Delete(tree, x);
      ReadEmpty(node, g2, t2);
      if node == null {
        shape := g2;
        return -1;
      }
      root, shape, tree := node, g2, t2;
      rv := 0;
    }

    /** avl_tree_lookup */
    method Lookup(x: int) returns (found: bool)
      requires Valid()
      ensures found <==> x in Keys(tree)
    {
      found := LookupNode(root, x, shape, tree);
      LookupIsMembership(tree, x);
    }
  }
}
