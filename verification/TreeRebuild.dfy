/** The rebuild of a binary tree in place: arrays filled by nested loops, nodes linked by recursion. */
module TreeRebuild {
  import opened Shapes
  import opened Wrappers
  import opened Pigeonhole
  import opened RebuildSpec
  import opened Traversals

  class TreeNode {
    var data: int
    var left: TreeNode?
    var right: TreeNode?

    constructor (data: int)
      ensures this.data == data && left == null && right == null
    {
      this.data := data;
      left := null;
      right := null;
    }
  }

  /** The tree below n as a value, if its links are those of the shape. */
  ghost function Read(n: TreeNode?, g: Shape<TreeNode>): Option<Tree>
    reads Nodes(g)
  {
    if g.Nil? then (if n == null then Some(Leaf) else None)
    else if n != g.node then None
    else
      var l, r := Read(g.node.left, g.left), Read(g.node.right, g.right);
      if l.Some? && r.Some? then Some(Node(l.value, g.node.data, r.value)) else None
  }

  /** One more element of s is looked at; the whole fill is no shorter. */
  lemma FillNext(s: seq<int>, i: nat, p: seq<int>)
    requires i < |s|
    ensures Fill(s[..i + 1], p) == Fill(s[..i], p) + Copies(s[i], Times(s[i], p))
    ensures |Fill(s, p)| >= |Fill(s[..i], p)| + Times(s[i], p)
  {
    assert s[..i + 1] == s[..i] + [s[i]] && s == s[..i + 1] + s[i + 1..];
    FillSnoc(s[..i], s[i], p);
    FillConcat(s[..i + 1], s[i + 1..], p);
  }

  /** One more place is looked at; the whole range holds x no less often. */
  lemma TimesNext(x: int, s: seq<int>, lo: nat, j: nat, hi: nat)
    requires lo <= j < hi <= |s|
    ensures Times(x, s[lo..j + 1]) == Times(x, s[lo..j]) + if s[j] == x then 1 else 0
    ensures Times(x, s[lo..hi]) >= Times(x, s[lo..j + 1])
  {
    assert s[lo..j + 1] == s[lo..j] + [s[j]] && s[lo..hi] == s[lo..j + 1] + s[j + 1..hi];
    TimesConcat(x, s[lo..j], [s[j]]);
    TimesConcat(x, s[lo..j + 1], s[j + 1..hi]);
    TimesTwo(x, s[j], s[j]);
  }

  /** The inner loops: x is appended once for every place in ins[lo..hi] that holds it. Where the source
      would write past the array, ok is false. */
  method AppendIfFound(x: int, ins: array<int>, lo: nat, hi: nat, out: array<int>, n: nat) returns (m: nat, ok: bool)
    requires lo <= hi <= ins.Length && out != ins && n <= out.Length
    modifies out
    ensures m <= out.Length && (ok <==> n + Times(x, ins[lo..hi]) <= out.Length)
    ensures ok ==> m == n + Times(x, ins[lo..hi]) && out[..m] == old(out[..n]) + Copies(x, Times(x, ins[lo..hi]))
  {
    m, ok := n, true;
    ghost var s := ins[..];
    var j := lo;
    while j < hi
      invariant lo <= j <= hi && s == ins[..]
      invariant m == n + Times(x, s[lo..j]) && m <= out.Length
      invariant out[..m] == old(out[..n]) + Copies(x, Times(x, s[lo..j]))
    {
      TimesNext(x, s, lo, j, hi);
      assert s[lo..hi] == ins[lo..hi];
      if x == ins[j] {
        if m == out.Length {
          return m, false;
        }
        out[m] := x;
        m := m + 1;
      }
      j := j + 1;
    }
    assert s[lo..hi] == ins[lo..hi];
  }

  /** __left_tree_lvl_order, for any arrays: every write stays inside the array of in_len elements
      exactly if there are at most that many pairs of equal labels. */
  method LeftLevelOrder(ins: array<int>, lvl: array<int>, lvlLen: nat, root: nat)
    returns (llvl: array<int>, n: nat, ok: bool)
    requires 0 < lvlLen <= lvl.Length && root < ins.Length
    ensures fresh(llvl) && n <= llvl.Length == ins.Length
    ensures ok <==> |Pairs(lvl[1..lvlLen], ins[..root])| <= ins.Length
    ensures ok ==> llvl[..n] == Fill(lvl[1..lvlLen], ins[..root])
  {
    llvl := new int[ins.Length];
    n, ok := 0, true;
    ghost var s, p := lvl[1..lvlLen], ins[..root];
    FillCount(s, p);
    var i := 1;
    while i < lvlLen
      invariant 1 <= i <= lvlLen && n <= llvl.Length
      invariant llvl[..n] == Fill(s[..i - 1], p) && ins[0..root] == p
    {
      FillNext(s, i - 1, p);
      n, ok := AppendIfFound(lvl[i], ins, 0, root, llvl, n);
      if !ok {
        return;
      }
      i := i + 1;
    }
    assert s[..lvlLen - 1] == s;
  }

  /** __right_tree_lvl_order, for any arrays: every write stays inside the array of in_len elements
      exactly if there are at most that many pairs of equal labels. */
  method RightLevelOrder(ins: array<int>, lvl: array<int>, lvlLen: nat, root: nat)
    returns (rlvl: array<int>, n: nat, ok: bool)
    requires 0 < lvlLen <= lvl.Length && root < ins.Length
    ensures fresh(rlvl) && n <= rlvl.Length == ins.Length
    ensures ok <==> |Pairs(lvl[1..lvlLen], ins[root + 1..])| <= ins.Length
    ensures ok ==> rlvl[..n] == Fill(lvl[1..lvlLen], ins[root + 1..])
  {
    rlvl := new int[ins.Length];
    n, ok := 0, true;
    ghost var s, p := lvl[1..lvlLen], ins[root + 1..];
    FillCount(s, p);
    var i := 1;
    while i < lvlLen
      invariant 1 <= i <= lvlLen && n <= rlvl.Length
      invariant rlvl[..n] == Fill(s[..i - 1], p) && ins[root + 1..ins.Length] == p
    {
      FillNext(s, i - 1, p);
      n, ok := AppendIfFound(lvl[i], ins, root + 1, ins.Length, rlvl, n);
      if !ok {
        return;
      }
      i := i + 1;
    }
    assert s[..lvlLen - 1] == s;
  }

  /** Where the root stands in the in-order sequence; its length if it is not there. */
  method FindRoot(ins: array<int>, x: int) returns (root: nat)
    ensures root <= ins.Length && (root < ins.Length <==> x in ins[..])
    ensures root < ins.Length ==> root == IndexOf(ins[..], x)
  {
    root := 0;
    while root < ins.Length && ins[root] != x
      invariant 0 <= root <= ins.Length && x !in ins[..root]
    {
      root := root + 1;
    }
    assert ins[..ins.Length] == ins[..] && ins[..][..root] == ins[..root];
    if root < ins.Length {
      FirstPlace(ins[..], x, root);
    }
  }

  /** The root's position and the level orders of the two subtrees, or why the source does not get them. */
  method SplitAtRoot(ins: array<int>, lvl: array<int>, lvlLen: nat)
    returns (llvl: array<int>, llen: nat, rlvl: array<int>, rlen: nat, why: Option<Failure>)
    requires 0 < lvlLen <= lvl.Length
    ensures llen <= llvl.Length && rlen <= rlvl.Length
    ensures forall depth: nat | depth > 0 ::
              Rebuild(ins[..], lvl[..lvlLen], depth) ==
              if why.Some? then Failed(why.value)
              else Join(Rebuild(ins[..], llvl[..llen], depth - 1), lvl[0], Rebuild(ins[..], rlvl[..rlen], depth - 1))
  {
    ghost var s := lvl[..lvlLen];
    assert s[0] == lvl[0] && s[1..] == lvl[1..lvlLen];
    llvl, llen, rlvl, rlen, why := lvl, 0, lvl, 0, None;
    var root := FindRoot(ins, lvl[0]);
    if root == ins.Length {
      why := Some(NoRoot);
      return;
    }
    assert ins[..][..root] == ins[..root] && ins[..][root + 1..] == ins[root + 1..];
    FillCount(s[1..], ins[..root]);
    FillCount(s[1..], ins[root + 1..]);
    var ok;
    llvl, llen, ok := LeftLevelOrder(ins, lvl, lvlLen, root);
    if ok {
      rlvl, rlen, ok := RightLevelOrder(ins, lvl, lvlLen, root);
    }
    if !ok {
      why := Some(Overrun);
    }
  }

  method NewNode(data: int, l: TreeNode?, ghost gl: Shape<TreeNode>, ghost tl: Tree,
                 r: TreeNode?, ghost gr: Shape<TreeNode>, ghost tr: Tree)
    returns (node: TreeNode, ghost g: Shape<TreeNode>)
    requires Read(l, gl) == Some(tl) && Read(r, gr) == Some(tr) && Sep(gl) && Sep(gr) && Nodes(gl) !! Nodes(gr)
    ensures fresh(node) && g == Cell(node, gl, gr) && Sep(g) && Nodes(g) == {node} + Nodes(gl) + Nodes(gr)
    ensures Read(node, g) == Some(Node(tl, data, tr))
  {
    NodesAllocated(gl);
    NodesAllocated(gr);
    node := new TreeNode(data);
    node.left := l;
    node.right := r;
    g := Cell(node, gl, gr);
    assert Read(node.left, gl) == Some(tl) && Read(node.right, gr) == Some(tr);
  }

  /** __binary_tree_by_traversals, for any arrays and a stack of any depth. */
  method BuildNodes(ins: array<int>, lvl: array<int>, lvlLen: nat, depth: nat)
    returns (node: TreeNode?, why: Option<Failure>, ghost g: Shape<TreeNode>, ghost t: Tree)
    requires lvlLen <= lvl.Length
    ensures Sep(g) && fresh(Nodes(g)) && Read(node, g) == Some(t)
    ensures Rebuild(ins[..], lvl[..lvlLen], depth) == if why.Some? then Failed(why.value) else Built(t)
    decreases depth
  {
    hide Rebuild;
    node, why, g, t := null, None, Nil, Leaf;
    NoStack(ins[..], lvl[..lvlLen]);
    if depth == 0 {
      why := Some(StackOut);
      return;
    }
    RebuildEnds(ins[..], lvl[..lvlLen], depth);
    if lvlLen == 0 {
      return;
    }
    var llvl, llen, rlvl, rlen, failed := SplitAtRoot(ins, lvl, lvlLen);
    if failed.Some? {
      why := failed;
      return;
    }
    var x := lvl[0];
    var l, r;
    ghost var gl, gr, tl, tr;
    l, why, gl, tl := BuildNodes(ins, llvl, llen, depth - 1);
    if why.Some? {
      return;
    }
    NodesAllocated(gl);
    r, why, gr, tr := BuildNodes(ins, rlvl, rlen, depth - 1);
    if why.Some? {
      return;
    }
    assert Read(l, gl) == Some(tl);
    node, g := NewNode(x, l, gl, tl, r, gr, tr);
    t := Node(tl, x, tr);
  }

  lemma SameElements(ins: seq<int>, lvl: seq<int>)
    requires |ins| == |lvl| && Distinct(ins) && Inside(ins, lvl)
    ensures Inside(lvl, ins) && Distinct(lvl)
  {
    DistinctSize(ins);
    ElementsSize(lvl);
    SubsetSize(Elements(ins), Elements(lvl));
    forall x | x in lvl ensures x in ins {
      assert x in Elements(lvl);
    }
    FullSize(lvl);
  }

  lemma {:induction false} ElementsSize(s: seq<int>)
    ensures |Elements(s)| <= |s|
  {
    if s == [] {
    } else {
      var t := s[..|s| - 1];
      ElementsSize(t);
      assert s == t + [s[|s| - 1]];
      assert Elements(s) == Elements(t) + {s[|s| - 1]};
    }
  }

  lemma {:induction false} FullSize(s: seq<int>)
    requires |Elements(s)| == |s|
    ensures Distinct(s)
  {
    if s == [] {
    } else {
      var t, x := s[..|s| - 1], s[|s| - 1];
      ElementsSize(t);
      assert s == t + [x];
      assert Elements(s) == Elements(t) + {x};
      FullSize(t);
      assert x !in t;
    }
  }

  /** What the validation of binary_tree_by_traversals lets through. */
  ghost predicate SameLabels(ins: seq<int>, lvl: seq<int>) { |ins| == |lvl| && Inside(ins, lvl) }

  /** The results for distinct labels. */
  lemma DistinctResult(ins: seq<int>, lvl: seq<int>, depth: nat)
    ensures forall u: Tree | InOrder(u) == ins && LevelOrder(u) == lvl :: SameLabels(ins, lvl)
    ensures Distinct(ins) && depth > |ins| && SameLabels(ins, lvl) ==>
              && Inside(lvl, ins) && Rebuild(ins, lvl, depth) == Built(Build(ins, lvl))
              && InOrder(Build(ins, lvl)) == ins
              && (forall u: Tree | InOrder(u) == ins && LevelOrder(u) == lvl :: Build(ins, lvl) == u)
  {
    forall u: Tree | InOrder(u) == ins && LevelOrder(u) == lvl ensures SameLabels(ins, lvl) {
      TraversalLengths(u);
      LevelOrderLabels(u);
    }
    if Distinct(ins) && depth > |ins| && SameLabels(ins, lvl) {
      SameElements(ins, lvl);
      DistinctBuilds(ins, lvl, depth);
      RebuildInOrder(ins, lvl);
      forall u: Tree | InOrder(u) == ins && LevelOrder(u) == lvl ensures Build(ins, lvl) == u {
        BuildInverts(u);
      }
    }
  }

  /** binary_tree_by_traversals, for any two arrays: NULL unless the two sequences have the same length and
      elements; otherwise what the recursion gives. With distinct labels, and a frame for each and one more,
      the tree has the given in-order sequence, and any tree with these traversals is the one returned. */
  method ByTraversals(ins: array<int>, lvl: array<int>, depth: nat)
    returns (node: TreeNode?, why: Option<Failure>, ghost g: Shape<TreeNode>, ghost t: Tree)
    ensures Sep(g) && fresh(Nodes(g)) && Read(node, g) == Some(t)
    ensures !SameLabels(ins[..], lvl[..]) ==> node == null && why == None
    ensures SameLabels(ins[..], lvl[..]) ==>
              Rebuild(ins[..], lvl[..], depth) == if why.Some? then Failed(why.value) else Built(t)
    ensures Distinct(ins[..]) && depth > ins.Length ==>
              && why == None
              && (SameLabels(ins[..], lvl[..]) ==> InOrder(t) == ins[..])
              && (forall u: Tree | InOrder(u) == ins[..] && LevelOrder(u) == lvl[..] :: t == u)
  {
    hide Rebuild;
    node, why, g, t := null, None, Nil, Leaf;
    DistinctResult(ins[..], lvl[..], depth);
    if ins.Length != lvl.Length {
      return;
    }
    var i := 0;
    while i < ins.Length
      invariant 0 <= i <= ins.Length
      invariant Inside(ins[..i], lvl[..])
    {
      var found := false;
      var j := 0;
      while j < lvl.Length
        invariant 0 <= j <= lvl.Length && !found
        invariant ins[i] !in lvl[..j]
      {
        if ins[i] == lvl[j] {
          found := true;
          break;
        }
        j := j + 1;
      }
      assert lvl[..lvl.Length] == lvl[..];
      assert found <==> ins[i] in lvl[..];
      if !found {
        ghost var x := ins[i];
        assert x in ins[..] && x !in lvl[..];
        return;
      }
      assert ins[..i + 1] == ins[..i] + [ins[i]];
      i := i + 1;
    }
    assert ins[..i] == ins[..] && lvl[..lvl.Length] == lvl[..];
    node, why, g, t := BuildNodes(ins, lvl, lvl.Length, depth);
  }
}
