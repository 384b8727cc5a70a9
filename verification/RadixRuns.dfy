/** Two runs of the radix tree that end without keys: one leaves nodes below the root, the other only the
    root. */
module RadixRuns {
  import opened Wrappers
  import opened RadixState
  import opened RadixOps
  import opened RadixCompact
  import opened RadixTree

  /** The nodes of keys that extend each other by one byte are parent and child. */
  lemma ChainChild(s: State, n: RadixNode, m: RadixNode)
    requires Meaning(s).Some? && n in s.cells && m in s.cells
    requires |s.full[m]| == |s.full[n]| + 1 && s.full[n] == s.full[m][..|s.full[n]|]
    ensures |s.cells[n].kids| == RADIX && s.cells[n].kids[s.full[m][|s.full[n]|]] == m && HasKids(s, n)
    ensures s.full[m] == s.full[n] + s.cells[m].prefix
  {
    ChildTowards(s, n, m);
    var c := s.cells[n].kids[s.full[m][|s.full[n]|]];
    assert s.full[c] == s.full[m][..|s.full[c]|] == s.full[m];
    FullUnique(s, c, m);
  }

  /** a is the node of key [1], which has data, and b its child for byte 1. */
  ghost predicate FirstHas(s: State, a: RadixNode, b: RadixNode) {
    Stores(s, a) && a in s.full && s.full[a] == [1] && |s.cells[a].kids| == RADIX && s.cells[a].kids[1] == b
  }

  lemma ThreeStored(s: State) returns (a: RadixNode, b: RadixNode)
    requires Meaning(s).Some? && {[1], [1, 1], [1, 1, 1]} <= Meaning(s).value.Keys
    ensures FirstHas(s, a, b) && HasKids(s, b) && b in s.full && s.full[b] == [1, 1]
  {
    a := StoredAt(s, [1]);
    b := StoredAt(s, [1, 1]);
    var x := StoredAt(s, [1, 1, 1]);
    ChainChild(s, a, b);
    ChainChild(s, b, x);
  }

  /** Without the data of b its child is still there, so b is not the leaf for the third key. */
  lemma MiddleGone(s: State, t: State, a: RadixNode, b: RadixNode)
    requires Meaning(s).Some? && Meaning(t).Some? && [1, 1, 1] in Meaning(s).value
    requires FirstHas(s, a, b) && HasKids(s, b) && b in s.full && s.full[b] == [1, 1] && KeepsOthers(s, t, [1, 1])
    ensures FirstHas(t, a, b) && !LeafFor(t, b, [1, 1, 1])
  {
    var x := StoredAt(s, [1, 1, 1]);
    assert !LeafFor(s, s.cells[a].kids[1], [1, 1]);
    if LeafFor(t, b, [1, 1, 1]) {
      FullUnique(t, b, x);
    }
  }

  lemma LastGone(t: State, u: State, a: RadixNode, b: RadixNode)
    requires Meaning(u).Some? && FirstHas(t, a, b) && !LeafFor(t, b, [1, 1, 1]) && KeepsOthers(t, u, [1, 1, 1])
    ensures HasKids(u, a) && Next(u, u.root, [1], a) && a != u.root
  {
    assert u.cells[a].kids[1] == b;
    assert u.cells[a].kids[1] != NoKids()[1];
    RootHasNoPrefix(u, a);
    ChainChild(u, u.root, a);
  }

  ghost const THREE: map<Key, Value> := map[[1] := 0, [1, 1] := 0, [1, 1, 1] := 0]

  lemma ThreeKeys()
    ensures {[1], [1, 1], [1, 1, 1]} <= THREE.Keys && map[][[1] := 0][[1, 1] := 0][[1, 1, 1] := 0] == THREE
    ensures THREE - {[1, 1]} - {[1, 1, 1]} - {[1]} == map[]
    ensures [1, 1, 1] in THREE - {[1, 1]} && [1] in THREE - {[1, 1]} - {[1, 1, 1]}
  {
    var one: Key, two: Key, three: Key := [1], [1, 1], [1, 1, 1];
    assert |one| != |two| && |two| != |three| && |one| != |three|;
  }

  /** Three keys, each one byte longer than the one before. */
  method InsertThree() returns (t: RadixMap)
    ensures t.Contents() == Some(THREE) && fresh(t) && fresh(t.Nodes())
  {
    hide Meaning, Grows, Tidy, RadixMap.InStep, RadixMap.Contents;
    t := new RadixMap();
    var r, g := t.Insert([1], Some(0));
    r, g := t.Insert([1, 1], Some(0));
    r, g := t.Insert([1, 1, 1], Some(0));
    ThreeKeys();
  }

  /** Of the three keys the middle one is removed first and the shortest last. Two nodes are left. */
  method EmptyNodesReached() returns (t: RadixMap)
    ensures t.Contents() == Some(map[]) && t.Nodes() != {t.root}
  {
    hide Meaning, FirstHas, KeepsOthers, LeafFor, HasKids, Next, Stores, RemovedAt, Tidy, DataOnly, RadixMap.InStep,
         RadixMap.Contents;
    ThreeKeys();
    t := InsertThree();
    t.Fields(t.root);
    ghost var s := t.state;
    ghost var a, b := ThreeStored(s);
    var r, o := t.Remove([1, 1]);
    t.Fields(t.root);
    MiddleGone(s, t.state, a, b);
    s := t.state;
    r, o := t.Remove([1, 1, 1]);
    t.Fields(t.root);
    LastGone(s, t.state, a, b);
    s := t.state;
    r, o := t.Remove([1]);
    t.Fields(t.root);
    StaysBelow(s, t.state, a);
  }

  lemma StaysBelow(t: State, u: State, a: RadixNode)
    requires HasKids(t, a) && DataOnly(t, u, a) && a != t.root
    ensures u.root == t.root && u.cells.Keys != {u.root}
  {
    assert a in u.cells;
  }

  // ----- two keys that share their first byte

  /** The root alone. */
  ghost predicate Bare(s: State) { Meaning(s).Some? && s.cells.Keys == {s.root} }

  /** One leaf x, for key [1, 2]. */
  ghost predicate OneLeaf(s: State, x: RadixNode) {
    && Meaning(s).Some? && s.cells.Keys == {s.root, x} && x != s.root && x in s.full && s.full[x] == [1, 2]
    && s.cells[x] == Cell([1, 2], Some(0), NoKids())
    && |s.cells[s.root].kids| == RADIX && s.cells[s.root].kids[1] == x
  }

  /** Two leaves, for keys [1, 2] and [1, 3], below a node for [1]. */
  ghost predicate TwoLeaves(s: State, a: RadixNode, x: RadixNode, y: RadixNode) {
    && Meaning(s).Some? && s.cells.Keys == {s.root, a, x, y} && x in s.full && y in s.full && x != s.root && y != s.root
    && s.full[x] == [1, 2] && s.full[y] == [1, 3]
    && s.cells[x].data == s.cells[y].data == Some(0) && !HasKids(s, x) && !HasKids(s, y)
  }

  lemma FirstGrows(s: State, t: State, g: Growth) returns (x: RadixNode)
    requires Bare(s) && Meaning(t).Some? && Grows(s, t, [1, 2], 0, g)
    ensures OneLeaf(t, x)
  {
    RootAlone(s);
    assert [1, 2][0..] == [1, 2];
    assert g.NewLeaf?;
    x := g.y;
  }

  /** The second key splits the leaf after one byte. */
  lemma OnlySplits(s: State, t: State, x: RadixNode, g: Growth)
    requires OneLeaf(s, x) && Grows(s, t, [1, 3], 0, g)
    ensures g.SplitLeaf? && g.n == x && g.len == 1
  {
    assert [1, 3][..2] == [1, 3] && [1, 3][1] != [1, 2][1];
    if g.SplitData? {
      var u := SplitCells(s, g.n, g.half, g.len);
    }
  }

  lemma SecondGrows(s: State, t: State, x: RadixNode, g: Growth) returns (h: RadixNode, y: RadixNode)
    requires OneLeaf(s, x) && Meaning(t).Some? && Grows(s, t, [1, 3], 0, g)
    ensures TwoLeaves(t, x, h, y)
  {
    OnlySplits(s, t, x, g);
    h, y := g.half, g.y;
    var u := SplitCells(s, x, h, 1);
    SplitNodeKeeps(s, x, h, 1);
    assert s.full[x][..1] == [1] && [1, 3][1..] == [3] && u.full[x] == [1];
    assert u.full[h] == [1, 2];
  }

  /** The leaf for [1, 2] is removed: at most the other leaf and the node above it are left. */
  lemma OneRemoved(s: State, t: State, a: RadixNode, x: RadixNode, y: RadixNode, o: Found)
    requires TwoLeaves(s, a, x, y) && Meaning(t).Some? && RemovedAt(s, t, s.root, [1, 2], o)
    requires t.cells.Keys <= s.cells.Keys && KeepsOthers(s, t, [1, 2])
    ensures t.root == s.root && t.cells.Keys <= {s.root, a, y} && y in t.cells && y in t.full && t.full[y] == [1, 3]
    ensures t.cells[y].data == Some(0) && !HasKids(t, y)
  {
    FullUnique(s, o.x, x);
    assert Stores(s, y) && s.full[y] != [1, 2];
    Width(t, y);
    forall i | 0 <= i < RADIX ensures t.cells[y].kids[i] == NoKids()[i] {
      assert s.cells[y].kids[i] == null && !LeafFor(s, s.cells[y].kids[i], [1, 2]);
    }
    assert t.cells[y].kids == NoKids();
  }

  /** The other leaf is removed: nothing is left below the root. */
  lemma BothRemoved(t: State, u: State, a: RadixNode, y: RadixNode, o: Found)
    requires Meaning(t).Some? && Meaning(u) == Some(map[]) && t.cells.Keys <= {t.root, a, y}
    requires y in t.cells && y in t.full && t.full[y] == [1, 3] && !HasKids(t, y)
    requires RemovedAt(t, u, t.root, [1, 3], o) && u.cells.Keys <= t.cells.Keys && Tidy(u)
    ensures u.cells.Keys == {u.root}
  {
    FullUnique(t, o.x, y);
    if a in u.cells && a != u.root {
      ParentOf(u, a);
      NodeFacts(u, a);
      var k := u.cells[a].prefix[0];
      assert u.cells[u.root].kids[k] == a;
      forall i | 0 <= i < RADIX ensures u.cells[a].kids[i] == NoKids()[i] {
        if u.cells[a].kids[i] != null { ChildOf(u, a, i); }
      }
      assert u.cells[a].kids == NoKids();
      assert EmptyLeaf(u, k);
    }
  }

  /** Two keys that share their first byte, inserted and removed: the node above them goes, too, and the
      tree is empty. */
  method TwoKeysRemoved() returns (empty: bool)
    ensures empty
  {
    hide Meaning, Grows, OneLeaf, TwoLeaves, Bare, KeepsOthers, RemovedAt, Tidy, HasKids, RadixMap.InStep, RadixMap.Contents;
    var t := new RadixMap();
    t.Fields(t.root);
    ghost var s0 := t.state;
    IsBare(s0);
    var r, g := t.Insert([1, 2], Some(0));
    t.Fields(t.root);
    ghost var s1 := t.state;
    ghost var a := FirstGrows(s0, s1, g);
    r, g := t.Insert([1, 3], Some(0));
    t.Fields(t.root);
    ghost var s2 := t.state;
    ghost var x, y := SecondGrows(s1, s2, a, g);
    ghost var o;
    TwoKeys();
    r, o := t.Remove([1, 2]);
    t.Fields(t.root);
    ghost var s3 := t.state;
    OneRemoved(s2, s3, a, x, y, o);
    r, o := t.Remove([1, 3]);
    t.Fields(t.root);
    BothRemoved(s3, t.state, a, y, o);
    empty := t.IsEmpty();
  }

  lemma IsBare(s: State)
    requires Meaning(s).Some? && s.cells.Keys == {s.root}
    ensures Bare(s)
  {
  }

  lemma TwoKeys()
    ensures [1, 3] !in map[][[1, 2] := 0] && [1, 2] in map[][[1, 2] := 0][[1, 3] := 0]
    ensures [1, 3] in map[][[1, 2] := 0][[1, 3] := 0] - {[1, 2]}
    ensures map[][[1, 2] := 0][[1, 3] := 0] - {[1, 2]} - {[1, 3]} == map[]
  {
    assert [1, 2][1] != [1, 3][1];
  }
}
