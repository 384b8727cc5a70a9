/** What the operations leave in a radix tree besides its entries: empty leaves below the root, nodes
    that could be merged with their only child, and how each insertion changes the nodes. */
module RadixCompact {
  import opened Wrappers
  import opened RadixState
  import opened RadixOps

  // ----- empty leaves below the root

  /** No child of the root holds nothing and leads nowhere. */
  ghost predicate Tidy(s: State) { forall k: nat {:trigger EmptyLeaf(s, k)} | k < RADIX :: !EmptyLeaf(s, k) }

  // ----- an insertion

  /** How an insertion changes the tree: a new leaf y below n, or data for n; `half` is the lower half of n
      if n had to be split after len bytes. */
  datatype Growth =
    | NewLeaf(n: RadixNode, y: RadixNode)
    | NewData(n: RadixNode)
    | SplitLeaf(n: RadixNode, half: RadixNode, len: nat, y: RadixNode)
    | SplitData(n: RadixNode, half: RadixNode, len: nat)

  ghost predicate AddsLeaf(s: State, t: State, n: RadixNode, y: RadixNode, key: Key, v: Value) {
    && n in s.cells && n in s.full && y !in s.cells && |s.full[n]| < |key| && s.full[n] == key[..|s.full[n]|]
    && key[|s.full[n]|] < |s.cells[n].kids| && s.cells[n].kids[key[|s.full[n]|]] == null
    && t == AddLeaf(s, n, y, key[|s.full[n]|..], v)
  }

  ghost predicate SetsData(s: State, t: State, n: RadixNode, key: Key, v: Value) {
    n in s.cells && n in s.full && n != s.root && s.full[n] == key && t == SetData(s, n, Some(v))
  }

  ghost predicate SplitsAt(s: State, n: RadixNode, half: RadixNode, len: nat) {
    && n in s.cells && n in s.full && n != s.root && half !in s.cells && s.parent.Keys == s.cells.Keys
    && 0 < len < |s.cells[n].prefix| <= |s.full[n]|
  }

  ghost predicate Grows(s: State, t: State, key: Key, v: Value, g: Growth) {
    match g
    case NewLeaf(n, y) => AddsLeaf(s, t, n, y, key, v)
    case NewData(n) => SetsData(s, t, n, key, v)
    case SplitLeaf(n, half, len, y) => SplitsAt(s, n, half, len) && AddsLeaf(SplitNode(s, n, half, len), t, n, y, key, v)
    case SplitData(n, half, len) => SplitsAt(s, n, half, len) && SetsData(SplitNode(s, n, half, len), t, n, key, v)
  }

  /** A node that an insertion has split, its lower half, and the length of what is left of its prefix. */
  ghost predicate CutFrom(s: State, u: State, cut: (RadixNode, RadixNode, nat)) {
    SplitsAt(s, cut.0, cut.1, cut.2) && u == SplitNode(s, cut.0, cut.1, cut.2)
  }

  /** Where an insertion stands: nothing changed yet, or its node split. */
  ghost predicate Begun(s: State, u: State, it: RadixNode, split: bool, cut: (RadixNode, RadixNode, nat)) {
    if split then it == cut.0 && CutFrom(s, u, cut) else u == s
  }

  lemma IsCut(s: State, u: State, cut: (RadixNode, RadixNode, nat))
    requires SplitsAt(s, cut.0, cut.1, cut.2) && u == SplitNode(s, cut.0, cut.1, cut.2)
    ensures Begun(s, u, cut.0, true, cut)
  {
  }

  lemma AddLeafTidy(s: State, n: RadixNode, y: RadixNode, prefix: Key, v: Value)
    requires Meaning(s).Some? && Tidy(s) && n in s.cells && n in s.full && y !in s.cells && prefix != []
    requires prefix[0] < |s.cells[n].kids|
    ensures Tidy(AddLeaf(s, n, y, prefix, v))
  {
    var t := AddLeaf(s, n, y, prefix, v);
    forall k: nat | k < RADIX ensures !EmptyLeaf(t, k) {
      assert !EmptyLeaf(s, k);
      if n != s.root && s.cells[s.root].kids[k] == n {
        assert t.cells[n].kids[prefix[0]] == y && NoKids()[prefix[0]] == null;
      }
    }
  }

  lemma SetDataTidy(s: State, n: RadixNode, v: Value)
    requires Tidy(s) && n in s.cells && n != s.root
    ensures Tidy(SetData(s, n, Some(v)))
  {
    forall k: nat | k < RADIX ensures !EmptyLeaf(SetData(s, n, Some(v)), k) { assert !EmptyLeaf(s, k); }
  }

  lemma SplitTidy(s: State, n: RadixNode, half: RadixNode, len: nat)
    requires Meaning(s).Some? && Tidy(s) && SplitsAt(s, n, half, len)
    ensures Tidy(SplitNode(s, n, half, len))
  {
    var t := SplitCells(s, n, half, len);
    var b := s.cells[n].prefix[len];
    assert t.cells[n].kids[b] == half && NoKids()[b] == null;
    forall k: nat | k < RADIX ensures !EmptyLeaf(t, k) {
      assert !EmptyLeaf(s, k);
      assert t.cells[s.root] == s.cells[s.root];
      var c := s.cells[s.root].kids[k];
      if c != null { ChildOf(s, s.root, k); }
    }
  }

  /** An insertion leaves no empty leaf below the root. */
  lemma GrowthTidy(s: State, t: State, key: Key, v: Value, g: Growth)
    requires Meaning(s).Some? && Tidy(s) && Grows(s, t, key, v, g)
    ensures Tidy(t)
  {
    match g
    case NewLeaf(n, y) => AddLeafTidy(s, n, y, key[|s.full[n]|..], v);
    case NewData(n) => SetDataTidy(s, n, v);
    case SplitLeaf(n, half, len, y) =>
      SplitTidy(s, n, half, len);
      SplitNodeKeeps(s, n, half, len);
      var u := SplitNode(s, n, half, len);
      AddLeafTidy(u, n, y, key[|u.full[n]|..], v);
    case SplitData(n, half, len) =>
      SplitTidy(s, n, half, len);
      SetDataTidy(SplitNode(s, n, half, len), n, v);
  }

  lemma GrowsLeaf(s: State, u: State, t: State, key: Key, v: Value, g: Growth)
    requires Meaning(s).Some? && ((g.NewLeaf? && u == s) || (g.SplitLeaf? && CutFrom(s, u, (g.n, g.half, g.len))))
    requires AddsLeaf(u, t, g.n, g.y, key, v)
    ensures Grows(s, t, key, v, g) && (Tidy(s) ==> Tidy(t))
  {
    if Tidy(s) { GrowthTidy(s, t, key, v, g); }
  }

  lemma GrowsData(s: State, u: State, t: State, key: Key, v: Value, g: Growth)
    requires Meaning(s).Some? && ((g.NewData? && u == s) || (g.SplitData? && CutFrom(s, u, (g.n, g.half, g.len))))
    requires SetsData(u, t, g.n, key, v)
    ensures Grows(s, t, key, v, g) && (Tidy(s) ==> Tidy(t))
  {
    if Tidy(s) { GrowthTidy(s, t, key, v, g); }
  }

  // ----- nodes that could be merged

  /** c, at index b, is the one child of n. */
  ghost predicate OnlyKid(s: State, n: RadixNode, b: nat, c: RadixNode?) {
    && n in s.cells && b < |s.cells[n].kids| && s.cells[n].kids[b] == c && c in s.cells
    && forall i | 0 <= i < |s.cells[n].kids| && i != b :: s.cells[n].kids[i] == null
  }

  ghost predicate Holds(s: State, n: RadixNode?) { n in s.cells && s.cells[n].data != None }

  /** A node below the root with one child, neither of which holds data. */
  ghost predicate CanMerge(s: State, n: RadixNode) {
    && n in s.cells && n != s.root && !Holds(s, n)
    && exists b: nat {:trigger OnlyKid(s, n, b, s.cells[n].kids[b])} | b < |s.cells[n].kids| ::
         OnlyKid(s, n, b, s.cells[n].kids[b]) && !Holds(s, s.cells[n].kids[b])
  }

  lemma CanMergeWith(s: State, n: RadixNode, b: nat, c: RadixNode?)
    requires OnlyKid(s, n, b, c)
    ensures CanMerge(s, n) <==> n != s.root && !Holds(s, n) && !Holds(s, c)
  {
    if CanMerge(s, n) {
      var i: nat :| i < |s.cells[n].kids| && OnlyKid(s, n, i, s.cells[n].kids[i]) && !Holds(s, s.cells[n].kids[i]);
      assert i == b;
    }
  }

  /** That is what __node_merge looks for. */
  lemma MergeableIs(s: State, n: RadixNode, b: nat)
    requires Meaning(s).Some? && n in s.cells && b < RADIX && n != s.root
    ensures Mergeable(s, n, b, s.cells[n].kids[b]) <==> CanMerge(s, n) && s.cells[n].kids[b] != null
  {
    if s.cells[n].kids[b] != null {
      ChildOf(s, n, b);
      if CanMerge(s, n) {
        var i: nat :| i < |s.cells[n].kids| && OnlyKid(s, n, i, s.cells[n].kids[i]) && !Holds(s, s.cells[n].kids[i]);
        assert i == b;
      }
      if Mergeable(s, n, b, s.cells[n].kids[b]) { assert OnlyKid(s, n, b, s.cells[n].kids[b]); }
    }
  }

  /** The node m lies on the path for key, at n or below, and above the end of it. */
  ghost predicate OnPath(s: State, n: RadixNode, m: RadixNode, key: Key) {
    n in s.full && m in s.full && |s.full[n]| <= |s.full[m]| < |key| && IsPrefix(s.full[m], key)
  }

  /** Some node on that path could be merged. */
  ghost predicate Unmerged(t: State, s: State, n: RadixNode, key: Key) {
    exists m {:trigger OnPath(s, n, m, key)} | m in t.cells :: OnPath(s, n, m, key) && CanMerge(t, m)
  }

  /** Before node x below p is removed: what compaction will leave unmerged. If x is a leaf, p with a child that
      could itself be merged, where merging once is not enough. If x only loses its data, p itself,
      because the source does not compact there. */
  ghost predicate Exempt(s: State, p: RadixNode, b: nat, x: RadixNode) {
    && p in s.cells && p != s.root && !Holds(s, p) && b < |s.cells[p].kids| && s.cells[p].kids[b] == x
    && if HasKids(s, x) then OnlyKid(s, p, b, x)
       else exists c {:trigger CanMerge(s, c)} | c in s.cells :: OtherKid(s, p, b, c) && !Holds(s, c) && CanMerge(s, c)
  }

  /** p has two children: the one at index b, and c. */
  ghost predicate OtherKid(s: State, p: RadixNode, b: nat, c: RadixNode) {
    && p in s.cells && b < |s.cells[p].kids| && c in s.cells
    && exists i | 0 <= i < |s.cells[p].kids| && i != b :: s.cells[p].kids[i] == c
                && forall k | 0 <= k < |s.cells[p].kids| && k != i && k != b :: s.cells[p].kids[k] == null
  }

  /** The path from n goes through its child `it`. */
  lemma PathSplit(s: State, n: RadixNode, it: RadixNode, b: nat, m: RadixNode, key: Key)
    requires Meaning(s).Some? && n in s.cells && it in s.cells && m in s.cells && b < RADIX
    requires s.cells[n].kids[b] == it && IsPrefix(s.full[it], key)
    ensures OnPath(s, n, m, key) <==> (m == n && |s.full[n]| < |key|) || OnPath(s, it, m, key)
    ensures |s.full[n]| < |s.full[it]|
  {
    ChildOf(s, n, b);
    assert key[|s.full[n]|] == s.full[it][|s.full[n]|] == s.cells[it].prefix[0];
    assert s.full[n] == s.full[it][..|s.full[n]|] == key[..|s.full[n]|];
    if OnPath(s, n, m, key) && m != n {
      assert s.full[m][..|s.full[n]|] == key[..|s.full[n]|];
      ChildTowards(s, n, m);
    }
  }

  /** Only n changes, apart from nodes that go, and no data change. */
  ghost predicate ChangesOnly(s: State, t: State, n: RadixNode) {
    && t.root == s.root
    && forall m | m in t.cells :: m in s.cells && t.cells[m].data == s.cells[m].data && (m != n ==> t.cells[m] == s.cells[m])
  }

  lemma SameKidsMerge(s: State, t: State, n: RadixNode, m: RadixNode)
    requires Meaning(s).Some? && Meaning(t).Some? && ChangesOnly(s, t, n) && m in t.cells && m != n
    ensures CanMerge(t, m) <==> CanMerge(s, m)
  {
    forall b: nat | b < RADIX && s.cells[m].kids[b] != null
      ensures OnlyKid(t, m, b, t.cells[m].kids[b]) <==> OnlyKid(s, m, b, s.cells[m].kids[b])
      ensures Holds(t, s.cells[m].kids[b]) <==> Holds(s, s.cells[m].kids[b])
    {
      ChildOf(s, m, b);
      ChildOf(t, m, b);
    }
    if CanMerge(t, m) {
      var b: nat :| b < |t.cells[m].kids| && OnlyKid(t, m, b, t.cells[m].kids[b]) && !Holds(t, t.cells[m].kids[b]);
      CanMergeWith(s, m, b, s.cells[m].kids[b]);
    }
    if CanMerge(s, m) {
      var b: nat :| b < |s.cells[m].kids| && OnlyKid(s, m, b, s.cells[m].kids[b]) && !Holds(s, s.cells[m].kids[b]);
      CanMergeWith(t, m, b, t.cells[m].kids[b]);
    }
  }

  lemma MergeChangesOnly(s: State, n: RadixNode, b: nat, c: RadixNode)
    requires Meaning(s).Some? && Mergeable(s, n, b, c)
    ensures s.parent.Keys == s.cells.Keys && c in s.full && ChangesOnly(s, MergeNode(s, n, c), n)
    ensures MergeNode(s, n, c).cells.Keys == s.cells.Keys - {c} && n != c
  {
    ChildOf(s, n, b);
  }

  /** After a merge n could be merged again exactly if its child could be merged before. */
  lemma MergedNode(s: State, n: RadixNode, b: nat, c: RadixNode)
    requires Meaning(s).Some? && Mergeable(s, n, b, c)
    ensures s.parent.Keys == s.cells.Keys && c in s.full
    ensures CanMerge(MergeNode(s, n, c), n) <==> CanMerge(s, c)
  {
    MergeNodeKeeps(s, n, b, c);
    MergeChangesOnly(s, n, b, c);
    ChildOf(s, n, b);
    var t := MergeNode(s, n, c);
    assert t.cells[n].kids == s.cells[c].kids;
    forall i: nat | i < RADIX && s.cells[c].kids[i] != null
      ensures OnlyKid(t, n, i, t.cells[n].kids[i]) <==> OnlyKid(s, c, i, s.cells[c].kids[i])
      ensures Holds(t, s.cells[c].kids[i]) <==> Holds(s, s.cells[c].kids[i])
    {
      ChildOf(s, c, i);
      ChildOf(t, n, i);
    }
    if CanMerge(t, n) {
      var i: nat :| i < |t.cells[n].kids| && OnlyKid(t, n, i, t.cells[n].kids[i]) && !Holds(t, t.cells[n].kids[i]);
      CanMergeWith(s, c, i, s.cells[c].kids[i]);
    }
    if CanMerge(s, c) {
      var i: nat :| i < |s.cells[c].kids| && OnlyKid(s, c, i, s.cells[c].kids[i]) && !Holds(s, s.cells[c].kids[i]);
      CanMergeWith(t, n, i, t.cells[n].kids[i]);
    }
  }

  /** What __node_merge does to a node: it takes over its child, or nothing happens. */
  ghost predicate MergesOnce(s: State, t: State, n: RadixNode) {
    if CanMerge(s, n) then
      exists b: nat {:trigger Mergeable(s, n, b, s.cells[n].kids[b])} | b < |s.cells[n].kids| ::
        Mergeable(s, n, b, s.cells[n].kids[b]) && s.cells[n].kids[b] in s.full && s.parent.Keys == s.cells.Keys
        && t == MergeNode(s, n, s.cells[n].kids[b])
    else t == s
  }

  lemma MergesAt(s: State, n: RadixNode)
    requires Meaning(s).Some? && n in s.cells && n != s.root
    ensures forall b: nat | b < RADIX && Mergeable(s, n, b, s.cells[n].kids[b]) ::
              s.cells[n].kids[b] in s.full && s.parent.Keys == s.cells.Keys
              && MergesOnce(s, MergeNode(s, n, s.cells[n].kids[b]), n)
    ensures (forall b: nat | b < RADIX :: !Mergeable(s, n, b, s.cells[n].kids[b])) ==> MergesOnce(s, s, n)
  {
    forall b: nat | b < RADIX ensures Mergeable(s, n, b, s.cells[n].kids[b]) <==> CanMerge(s, n) && s.cells[n].kids[b] != null {
      MergeableIs(s, n, b);
    }
    if CanMerge(s, n) {
      var b: nat :| b < |s.cells[n].kids| && OnlyKid(s, n, b, s.cells[n].kids[b]);
      assert Mergeable(s, n, b, s.cells[n].kids[b]);
    }
  }

  /** One level up, below the root: what is left unmerged on the path from `it` is what is left on the path from
      its parent n, after n has been merged. */
  lemma UpOne(s: State, t: State, u: State, n: RadixNode, it: RadixNode, b: nat, key: Key)
    requires Meaning(s).Some? && Meaning(t).Some? && n in s.cells && it in s.cells && b < RADIX && n != t.root
    requires s.cells[n].kids[b] == it && IsPrefix(s.full[it], key) && |s.full[it]| < |key|
    requires t.cells.Keys <= s.cells.Keys && n in t.cells && it in t.cells && t.cells[n].kids[b] == it
    requires MergesOnce(t, u, n)
    ensures Meaning(u).Some? && (Unmerged(u, s, n, key) <==> Unmerged(t, s, it, key))
  {
    forall m | m in s.cells
      ensures OnPath(s, n, m, key) <==> m == n || OnPath(s, it, m, key)
    {
      PathSplit(s, n, it, b, m, key);
    }
    PathSplit(s, n, it, b, n, key);
    if CanMerge(t, n) {
      var i: nat :| i < |t.cells[n].kids| && Mergeable(t, n, i, t.cells[n].kids[i]) && u == MergeNode(t, n, t.cells[n].kids[i]);
      assert i == b;
      MergedUp(s, t, u, n, it, b, key);
    } else {
      if Unmerged(u, s, n, key) {
        var m :| m in u.cells && OnPath(s, n, m, key) && CanMerge(u, m);
        assert OnPath(s, it, m, key);
      }
      if Unmerged(t, s, it, key) {
        var m :| m in t.cells && OnPath(s, it, m, key) && CanMerge(t, m);
        assert OnPath(s, n, m, key);
      }
    }
  }

  lemma MergedUp(s: State, t: State, u: State, n: RadixNode, it: RadixNode, b: nat, key: Key)
    requires Meaning(t).Some? && t.cells.Keys <= s.cells.Keys && Mergeable(t, n, b, it)
    requires t.parent.Keys == t.cells.Keys && it in t.full && u == MergeNode(t, n, it)
    requires forall m | m in s.cells :: OnPath(s, n, m, key) <==> m == n || OnPath(s, it, m, key)
    requires OnPath(s, it, it, key) && !OnPath(s, it, n, key)
    ensures Meaning(u).Some? && (Unmerged(u, s, n, key) <==> Unmerged(t, s, it, key))
  {
    hide CanMerge, OnPath, MergeNode, Meaning;
    MergeNodeKeeps(t, n, b, it);
    MergeChangesOnly(t, n, b, it);
    MergedNode(t, n, b, it);
    if Unmerged(u, s, n, key) {
      var m :| m in u.cells && OnPath(s, n, m, key) && CanMerge(u, m);
      if m == n {
        assert CanMerge(t, it);
      } else {
        SameKidsMerge(t, u, n, m);
      }
    }
    if Unmerged(t, s, it, key) {
      var m :| m in t.cells && OnPath(s, it, m, key) && CanMerge(t, m);
      if m == it {
        assert OnPath(s, n, n, key);
      } else {
        SameKidsMerge(t, u, n, m);
        assert OnPath(s, n, m, key);
      }
    }
  }

  /** What __node_cleanup does: nodes without children go from below the root. */
  ghost predicate OnlyLeavesGo(s: State, t: State) {
    && ChangesOnly(s, t, s.root) && s.root in t.cells
    && forall m | m in s.cells && m !in t.cells :: s.cells[m].kids == NoKids()
  }

  /** At the root: cleaning up changes nothing on the path. */
  lemma UpRoot(s: State, t: State, u: State, it: RadixNode, b: nat, key: Key)
    requires Meaning(s).Some? && Meaning(t).Some? && Meaning(u).Some? && it in s.cells && b < RADIX && t.root == s.root
    requires s.cells[s.root].kids[b] == it && IsPrefix(s.full[it], key) && |s.full[it]| < |key|
    requires t.cells.Keys <= s.cells.Keys && OnlyLeavesGo(t, u)
    ensures Unmerged(u, s, s.root, key) <==> Unmerged(t, s, it, key)
  {
    forall m | m in s.cells
      ensures OnPath(s, s.root, m, key) <==> m == s.root || OnPath(s, it, m, key)
    {
      PathSplit(s, s.root, it, b, m, key);
    }
    PathSplit(s, s.root, it, b, s.root, key);
    if Unmerged(u, s, s.root, key) {
      var m :| m in u.cells && OnPath(s, s.root, m, key) && CanMerge(u, m);
      SameKidsMerge(t, u, t.root, m);
      assert OnPath(s, it, m, key);
    }
    if Unmerged(t, s, it, key) {
      var m :| m in t.cells && OnPath(s, it, m, key) && CanMerge(t, m);
      MergersStay(t, u, m);
      SameKidsMerge(t, u, t.root, m);
      assert OnPath(s, s.root, m, key);
    }
  }

  lemma MergersStay(t: State, u: State, m: RadixNode)
    requires Meaning(t).Some? && OnlyLeavesGo(t, u) && CanMerge(t, m)
    ensures m in u.cells
  {
    var b: nat :| b < |t.cells[m].kids| && OnlyKid(t, m, b, t.cells[m].kids[b]);
    assert t.cells[m].kids[b] != NoKids()[b];
  }

  // ----- at the end of the path

  lemma EndOfPath(s: State, p: RadixNode, b: nat, x: RadixNode, m: RadixNode)
    requires Meaning(s).Some? && p in s.cells && m in s.cells && b < RADIX && s.cells[p].kids[b] == x && x in s.cells
    ensures OnPath(s, p, m, s.full[x]) <==> m == p
  {
    PathSplit(s, p, x, b, m, s.full[x]);
  }

  /** A node with children loses its data: its parent could be merged afterwards exactly if it is its only child
      and the parent holds nothing. */
  lemma DataGone(s: State, p: RadixNode, b: nat, x: RadixNode)
    requires Meaning(s).Some? && p in s.cells && b < RADIX && s.cells[p].kids[b] == x && x in s.cells && HasKids(s, x)
    requires x != s.root && Meaning(SetData(s, x, None)).Some?
    ensures Unmerged(SetData(s, x, None), s, p, s.full[x]) <==> Exempt(s, p, b, x)
  {
    var t := SetData(s, x, None);
    forall m | m in s.cells ensures OnPath(s, p, m, s.full[x]) <==> m == p { EndOfPath(s, p, b, x, m); }
    ChildOf(s, p, b);
    assert t.cells[p] == s.cells[p];
    if CanMerge(t, p) {
      var i: nat :| i < |t.cells[p].kids| && OnlyKid(t, p, i, t.cells[p].kids[i]);
      assert i == b;
    }
    if Exempt(s, p, b, x) { CanMergeWith(t, p, b, x); }
  }

  /** A leaf goes and its parent is merged once: it could be merged again exactly if it took over a child that
      could be merged. */
  lemma LeafGone(s: State, u: State, p: RadixNode, b: nat, x: RadixNode)
    requires Meaning(s).Some? && LeafAt(s, p, b, x) && p != s.root && Meaning(DropLeaf(s, p, b, x)).Some?
    requires MergesOnce(DropLeaf(s, p, b, x), u, p)
    ensures Unmerged(u, s, p, s.full[x]) <==> Exempt(s, p, b, x)
  {
    hide Exempt;
    var t := DropLeaf(s, p, b, x);
    ChildOf(s, p, b);
    forall m | m in s.cells ensures OnPath(s, p, m, s.full[x]) <==> m == p { EndOfPath(s, p, b, x, m); }
    if CanMerge(t, p) {
      var i: nat :| i < |t.cells[p].kids| && Mergeable(t, p, i, t.cells[p].kids[i]) && u == MergeNode(t, p, t.cells[p].kids[i]);
      var c := t.cells[p].kids[i];
      MergedNode(t, p, i, c);
      MergeChangesOnly(t, p, i, c);
      SameKidsDrop(s, p, b, x, c);
      ExemptWith(s, p, b, x, i, c);
    } else {
      NotExempt(s, p, b, x);
    }
    assert p in u.cells;
    if Unmerged(u, s, p, s.full[x]) {
      var m :| m in u.cells && OnPath(s, p, m, s.full[x]) && CanMerge(u, m);
      assert m == p;
    }
    if CanMerge(u, p) { assert OnPath(s, p, p, s.full[x]); }
  }

  lemma SameKidsDrop(s: State, p: RadixNode, b: nat, x: RadixNode, c: RadixNode)
    requires Meaning(s).Some? && LeafAt(s, p, b, x) && Meaning(DropLeaf(s, p, b, x)).Some?
    requires c in DropLeaf(s, p, b, x).cells && c != p
    ensures CanMerge(DropLeaf(s, p, b, x), c) <==> CanMerge(s, c)
  {
    var t := DropLeaf(s, p, b, x);
    ChildOf(s, p, b);
    assert ChangesOnly(s, t, p);
    SameKidsMerge(s, t, p, c);
  }

  lemma ExemptWith(s: State, p: RadixNode, b: nat, x: RadixNode, i: nat, c: RadixNode)
    requires Meaning(s).Some? && LeafAt(s, p, b, x) && p != s.root && Meaning(DropLeaf(s, p, b, x)).Some?
    requires Mergeable(DropLeaf(s, p, b, x), p, i, c)
    ensures Exempt(s, p, b, x) <==> CanMerge(s, c)
  {
    var t := DropLeaf(s, p, b, x);
    ChildOf(s, p, b);
    assert i != b && s.cells[p].kids[i] == c && c in s.cells;
    assert forall k | 0 <= k < RADIX && k != i && k != b :: s.cells[p].kids[k] == t.cells[p].kids[k] == null;
    assert OtherKid(s, p, b, c);
    if Exempt(s, p, b, x) {
      var d :| d in s.cells && OtherKid(s, p, b, d) && !Holds(s, d) && CanMerge(s, d);
      assert d == c;
    }
  }

  lemma NotExempt(s: State, p: RadixNode, b: nat, x: RadixNode)
    requires Meaning(s).Some? && LeafAt(s, p, b, x) && p != s.root && !CanMerge(DropLeaf(s, p, b, x), p)
    ensures !Exempt(s, p, b, x)
  {
    var t := DropLeaf(s, p, b, x);
    ChildOf(s, p, b);
    if Exempt(s, p, b, x) {
      var c :| c in s.cells && OtherKid(s, p, b, c) && !Holds(s, c) && CanMerge(s, c);
      var i: nat :| i < |s.cells[p].kids| && i != b && s.cells[p].kids[i] == c
                    && forall k | 0 <= k < |s.cells[p].kids| && k != i && k != b :: s.cells[p].kids[k] == null;
      ChildOf(s, p, i);
      assert OnlyKid(t, p, i, c);
      CanMergeWith(t, p, i, c);
    }
  }

  lemma OnlyLeavesGoSelf(s: State)
    requires Meaning(s).Some?
    ensures OnlyLeavesGo(s, s)
  {
  }

  lemma OnlyLeavesGoAgain(s: State, t: State, u: State)
    requires OnlyLeavesGo(s, t) && OnlyLeavesGo(t, u)
    ensures OnlyLeavesGo(s, u)
  {
  }

  lemma DropLeafGoes(s: State, b: nat, c: RadixNode)
    requires Meaning(s).Some? && LeafAt(s, s.root, b, c)
    ensures OnlyLeavesGo(s, DropLeaf(s, s.root, b, c))
  {
    ChildOf(s, s.root, b);
  }

  lemma SetDataKeepsTidy(s: State, x: RadixNode, d: Option<Value>)
    requires Tidy(s) && x in s.cells && x != s.root && (HasKids(s, x) || d != None)
    ensures Tidy(SetData(s, x, d))
  {
    forall k: nat | k < RADIX ensures !EmptyLeaf(SetData(s, x, d), k) { assert !EmptyLeaf(s, k); }
  }

  /** The root alone holds no path. */
  lemma RootEnds(t: State, s: State, b: nat, x: RadixNode)
    requires Meaning(s).Some? && b < RADIX && s.cells[s.root].kids[b] == x && x in s.cells && t.root == s.root
    requires t.cells.Keys <= s.cells.Keys
    ensures !Unmerged(t, s, s.root, s.full[x]) && !Exempt(s, s.root, b, x)
  {
    if Unmerged(t, s, s.root, s.full[x]) {
      var m :| m in t.cells && OnPath(s, s.root, m, s.full[x]) && CanMerge(t, m);
      EndOfPath(s, s.root, b, x, m);
    }
  }

  lemma ChildBelow(s: State, n: RadixNode, b: nat)
    requires Meaning(s).Some? && n in s.cells && b < RADIX && s.cells[n].kids[b] != null
    ensures s.cells[n].kids[b] in s.full && n in s.full && |s.full[n]| < |s.full[s.cells[n].kids[b]]|
  {
    ChildOf(s, n, b);
  }

  // ----- a removal

  /** Where the key was found: node x, the child of p at index b. */
  datatype Found = Found(p: RadixNode, b: nat, x: RadixNode)

  /** What removing a key below n has done besides its entry: a leaf is gone; on the path nothing is left that
      could be merged, but for the exemption; and the root keeps no empty leaf. */
  ghost predicate RemovedAt(s: State, t: State, n: RadixNode, key: Key, o: Found) {
    && o.p in s.cells && o.b < RADIX && o.b < |s.cells[o.p].kids| && s.cells[o.p].kids[o.b] == o.x
    && o.x in s.cells && o.x in s.full && s.full[o.x] == key && t.root == s.root
    && (!HasKids(s, o.x) ==> o.x !in t.cells)
    && (Unmerged(t, s, n, key) <==> Exempt(s, o.p, o.b, o.x))
    && (n == s.root && Tidy(s) ==> Tidy(t))
  }

  lemma DataRemoved(s: State, p: RadixNode, b: nat, x: RadixNode)
    requires Meaning(s).Some? && p in s.cells && b < RADIX && s.cells[p].kids[b] == x && x in s.cells && HasKids(s, x)
    requires x in s.full && x != s.root && Meaning(SetData(s, x, None)).Some?
    ensures RemovedAt(s, SetData(s, x, None), p, s.full[x], Found(p, b, x))
  {
    hide Unmerged, Exempt, Tidy, CanMerge;
    Width(s, p);
    DataGone(s, p, b, x);
    if Tidy(s) { SetDataKeepsTidy(s, x, None); }
  }

  lemma LeafRemoved(s: State, t: State, u: State, p: RadixNode, b: nat, x: RadixNode)
    requires Meaning(s).Some? && LeafAt(s, p, b, x) && x in s.full && t == DropLeaf(s, p, b, x) && Meaning(t).Some?
    requires u.root == s.root && u.cells.Keys <= t.cells.Keys
    requires if p == s.root then Tidy(u) else MergesOnce(t, u, p)
    ensures RemovedAt(s, u, p, s.full[x], Found(p, b, x))
  {
    hide Unmerged, Exempt, Tidy, CanMerge, MergesOnce;
    Width(s, p);
    ChildOf(s, p, b);
    if p == s.root { RootEnds(u, s, b, x); } else { LeafGone(s, u, p, b, x); }
  }

  lemma RemovedUp(s: State, t: State, u: State, n: RadixNode, it: RadixNode, b: nat, key: Key, rest: Key, o: Found)
    requires Meaning(s).Some? && Meaning(t).Some? && Meaning(u).Some? && RemovedAt(s, t, it, key, o)
    requires n in s.cells && it in s.cells && n in s.full && it in s.full && b < RADIX && b < |s.cells[n].kids|
    requires s.cells[n].kids[b] == it && At(s, it, key, rest) && rest != [] && KeepsAbove(s, t, it)
    requires t.cells.Keys <= s.cells.Keys && u.cells.Keys <= t.cells.Keys && u.root == t.root
    requires if n == t.root then Tidy(u) && OnlyLeavesGo(t, u) else MergesOnce(t, u, n)
    ensures RemovedAt(s, u, n, key, o)
  {
    hide Unmerged, Exempt, Tidy, CanMerge, MergesOnce, OnlyLeavesGo;
    assert key[..|s.full[it]|] == s.full[it];
    ChildBelow(s, n, b);
    if n == t.root { UpRoot(s, t, u, it, b, key); } else { UpOne(s, t, u, n, it, b, key); }
  }
}
