/** The rewritings of a radix tree: set data, add a leaf, split, merge, drop. */
module RadixOps {
  import opened Wrappers
  import opened RadixState

  // ----- data of one node

  ghost function SetData(s: State, n: RadixNode, d: Option<Value>): State
    requires n in s.cells
  {
    s.(cells := s.cells[n := s.cells[n].(data := d)])
  }

  /** A node with children only loses its data. */
  ghost predicate DataOnly(s: State, t: State, c: RadixNode?) {
    HasKids(s, c) ==> t == SetData(s, c, None)
  }

  /** c is the child of n that the rest of a key ends at. */
  ghost predicate Next(s: State, n: RadixNode, rest: Key, c: RadixNode?)
    requires rest != []
  {
    && n in s.cells && rest[0] < |s.cells[n].kids| && c == s.cells[n].kids[rest[0]]
    && c in s.cells && s.cells[c].prefix == rest
  }

  lemma SetDataWf(s: State, n: RadixNode, d: Option<Value>)
    requires Wf(s) && n in s.cells && n != s.root
    ensures Wf(SetData(s, n, d))
  {
    var t := SetData(s, n, d);
    forall m, i: nat | m in t.cells && i < RADIX ensures ChildOk(t, m, i) { assert ChildOk(s, m, i); }
    forall m | m in t.cells ensures ParentOk(t, m) { assert ParentOk(s, m); }
  }

  lemma SetDataKeeps(s: State, n: RadixNode, d: Option<Value>)
    requires Meaning(s).Some? && n in s.cells && n != s.root
    ensures var e := Meaning(s).value;
            Meaning(SetData(s, n, d)) == Some(if d.Some? then e[s.full[n] := d.value] else e - {s.full[n]})
    ensures KeepsOthers(s, SetData(s, n, d), s.full[n])
  {
    SetDataWf(s, n, d);
    var t, k := SetData(s, n, d), s.full[n];
    var e := if d.Some? then Entries(s)[k := d.value] else Entries(s) - {k};
    forall m: RadixNode | Stores(t, m) ensures Maps(e, t.full[m], t.cells[m].data) {
      EntryOf(s, m);
      if s.full[m] == k { FullUnique(s, m, n); }
    }
    forall l | l in e ensures IsKey(t, l) {
      if l == k { KeyOf(t, n); } else { var m := StoredAt(s, l); KeyOf(t, m); }
    }
    EntriesAre(t, e);
    MeaningOf(t);
  }

  // ----- a new leaf

  ghost function AddLeaf(s: State, n: RadixNode, x: RadixNode, prefix: Key, v: Value): State
    requires n in s.cells && n in s.full && prefix != [] && prefix[0] < |s.cells[n].kids|
  {
    State(s.cells[n := s.cells[n].(kids := s.cells[n].kids[prefix[0] := x])][x := Cell(prefix, Some(v), NoKids())],
          s.root, s.full[x := s.full[n] + prefix], s.parent[x := n])
  }

  lemma AddLeafChild(s: State, n: RadixNode, x: RadixNode, prefix: Key, v: Value, m: RadixNode, i: nat)
    requires Wf(s) && n in s.cells && x !in s.cells && prefix != [] && s.cells[n].kids[prefix[0]] == null
    requires m in AddLeaf(s, n, x, prefix, v).cells && i < RADIX
    ensures Shape(AddLeaf(s, n, x, prefix, v)) && ChildOk(AddLeaf(s, n, x, prefix, v), m, i)
  {
    var t := AddLeaf(s, n, x, prefix, v);
    if m == n && i == prefix[0] {
      assert t.cells[n].kids[i] == x;
    } else if m != x {
      assert t.cells[m].kids[i] == s.cells[m].kids[i];
      assert ChildOk(s, m, i);
    }
  }

  lemma AddLeafParent(s: State, n: RadixNode, x: RadixNode, prefix: Key, v: Value, m: RadixNode)
    requires Wf(s) && n in s.cells && x !in s.cells && prefix != [] && s.cells[n].kids[prefix[0]] == null
    requires m in AddLeaf(s, n, x, prefix, v).cells
    ensures Shape(AddLeaf(s, n, x, prefix, v)) && ParentOk(AddLeaf(s, n, x, prefix, v), m)
  {
    if m != x { assert ParentOk(s, m); }
  }

  /** The bytes below a missing child are no key. */
  lemma MissingChild(s: State, n: RadixNode, prefix: Key)
    requires Wf(s) && n in s.cells && prefix != [] && s.cells[n].kids[prefix[0]] == null
    ensures s.full[n] + prefix !in Entries(s)
  {
    var k := s.full[n] + prefix;
    FindSelf(s, n);
    FindPast(s, s.root, n, k);
    FindIsEntry(s, k);
    assert k[|s.full[n]|] == prefix[0];
  }

  lemma AddLeafKeeps(s: State, n: RadixNode, x: RadixNode, prefix: Key, v: Value)
    requires Meaning(s).Some? && n in s.cells && x !in s.cells && prefix != [] && s.cells[n].kids[prefix[0]] == null
    ensures s.full[n] + prefix !in Meaning(s).value
    ensures Meaning(AddLeaf(s, n, x, prefix, v)) == Some(Meaning(s).value[s.full[n] + prefix := v])
  {
    var t, k := AddLeaf(s, n, x, prefix, v), s.full[n] + prefix;
    var e := Entries(s)[k := v];
    AddLeafParent(s, n, x, prefix, v, x);
    forall m, i: nat | m in t.cells && i < RADIX ensures ChildOk(t, m, i) { AddLeafChild(s, n, x, prefix, v, m, i); }
    forall m | m in t.cells ensures ParentOk(t, m) { AddLeafParent(s, n, x, prefix, v, m); }
    MissingChild(s, n, prefix);
    forall m: RadixNode | Stores(t, m) ensures Maps(e, t.full[m], t.cells[m].data) {
      if m != x { EntryOf(s, m); }
    }
    forall l | l in e ensures IsKey(t, l) {
      if l == k { KeyOf(t, x); } else { var m := StoredAt(s, l); KeyOf(t, m); }
    }
    EntriesAre(t, e);
    MeaningOf(t);
  }

  // ----- __node_split

  ghost function SplitNode(s: State, n: RadixNode, x: RadixNode, len: nat): State
    requires n in s.cells && n in s.full && len < |s.cells[n].prefix| <= |s.full[n]| && s.parent.Keys == s.cells.Keys
  {
    var c := s.cells[n];
    State(s.cells[x := Cell(c.prefix[len..], c.data, c.kids)]
                 [n := Cell(c.prefix[..len], None, NoKids()[c.prefix[len] := x])],
          s.root,
          s.full[x := s.full[n]][n := s.full[n][..|s.full[n]| - |c.prefix| + len]],
          map m | m in s.cells.Keys + {x} ::
            if m == x then n else if m != s.root && s.parent[m] == n then x else s.parent[m])
  }

  lemma SplitCells(s: State, n: RadixNode, x: RadixNode, len: nat) returns (t: State)
    requires n in s.cells && n in s.full && x !in s.cells && s.parent.Keys == s.cells.Keys
    requires len < |s.cells[n].prefix| <= |s.full[n]|
    ensures t == SplitNode(s, n, x, len) && t.root == s.root && t.cells.Keys == s.cells.Keys + {x}
    ensures var c := s.cells[n];
            && t.cells[x] == Cell(c.prefix[len..], c.data, c.kids)
            && t.cells[n] == Cell(c.prefix[..len], None, NoKids()[c.prefix[len] := x])
            && n in t.full && t.full[n] == s.full[n][..|s.full[n]| - |c.prefix| + len]
    ensures forall m | m in s.cells && m != n :: t.cells[m] == s.cells[m]
  {
    t := SplitNode(s, n, x, len);
  }

  lemma SplitNodeChild(s: State, n: RadixNode, x: RadixNode, len: nat, m: RadixNode, i: nat)
    requires Wf(s) && n in s.cells && n != s.root && x !in s.cells && 0 < len < |s.cells[n].prefix| <= |s.full[n]|
    requires m in SplitNode(s, n, x, len).cells && i < RADIX
    ensures Shape(SplitNode(s, n, x, len)) && ChildOk(SplitNode(s, n, x, len), m, i)
  {
    ParentOf(s, n);
    assert SplitNode(s, n, x, len).full[n] == s.full[s.parent[n]] + s.cells[n].prefix[..len];
    if m != x { assert ChildOk(s, m, i); } else { assert ChildOk(s, n, i); }
  }

  lemma SplitNodeParent(s: State, n: RadixNode, x: RadixNode, len: nat, m: RadixNode)
    requires Wf(s) && n in s.cells && n != s.root && x !in s.cells && 0 < len < |s.cells[n].prefix| <= |s.full[n]|
    requires m in SplitNode(s, n, x, len).cells
    ensures Shape(SplitNode(s, n, x, len)) && ParentOk(SplitNode(s, n, x, len), m)
  {
    ParentOf(s, n);
    assert SplitNode(s, n, x, len).full[n] == s.full[s.parent[n]] + s.cells[n].prefix[..len];
    if m != x { assert ParentOk(s, m); }
  }

  lemma SplitNodeKeeps(s: State, n: RadixNode, x: RadixNode, len: nat)
    requires Meaning(s).Some? && n in s.cells && n != s.root && x !in s.cells && 0 < len < |s.cells[n].prefix|
    ensures |s.cells[n].prefix| <= |s.full[n]|
    ensures Meaning(SplitNode(s, n, x, len)) == Meaning(s)
  {
    ParentOf(s, n);
    var t, e := SplitNode(s, n, x, len), Entries(s);
    SplitNodeParent(s, n, x, len, x);
    forall m, i: nat | m in t.cells && i < RADIX ensures ChildOk(t, m, i) { SplitNodeChild(s, n, x, len, m, i); }
    forall m | m in t.cells ensures ParentOk(t, m) { SplitNodeParent(s, n, x, len, m); }
    forall m: RadixNode | Stores(t, m) ensures Maps(e, t.full[m], t.cells[m].data) {
      EntryOf(s, if m == x then n else m);
    }
    forall l | l in e ensures IsKey(t, l) {
      var m := StoredAt(s, l);
      KeyOf(t, if m == n then x else m);
    }
    EntriesAre(t, e);
    MeaningOf(t);
  }

  /** After the split the walk has reached the upper half. */
  lemma SplitReached(s: State, n: RadixNode, x: RadixNode, len: nat, k: Key, rest: Key)
    requires Meaning(s).Some? && Before(s, n, k, rest) && Agree(s.cells[n].prefix, rest, len) && len < |s.cells[n].prefix|
    requires x !in s.cells
    ensures At(SplitNode(s, n, x, len), n, k, rest[len..])
  {
    var t := SplitCells(s, n, x, len);
    var c := s.cells[n];
    ParentOf(s, n);
    assert t.full[n] == s.full[s.parent[n]] + rest[..len];
    assert rest == rest[..len] + rest[len..];
  }

  // ----- __node_merge

  ghost function MergeNode(s: State, n: RadixNode, c: RadixNode): State
    requires n in s.cells && c in s.cells && c in s.full && s.parent.Keys == s.cells.Keys
  {
    State((s.cells - {c})[n := Cell(s.cells[n].prefix + s.cells[c].prefix, None, s.cells[c].kids)],
          s.root, (s.full - {c})[n := s.full[c]],
          map m | m in s.cells.Keys - {c} :: if m != s.root && s.parent[m] == c then n else s.parent[m])
  }

  /** What __node_merge checks: c, at index b, is the one child of n, and neither holds data. */
  ghost predicate Mergeable(s: State, n: RadixNode, b: nat, c: RadixNode?) {
    && n in s.cells && |s.cells[n].kids| == RADIX && n != s.root
    && b < RADIX && s.cells[n].kids[b] == c && c in s.cells
    && (forall i | 0 <= i < RADIX && i != b :: s.cells[n].kids[i] == null)
    && s.cells[n].data == None && s.cells[c].data == None
  }

  lemma MergeNodeChild(s: State, n: RadixNode, b: nat, c: RadixNode, m: RadixNode, i: nat)
    requires Wf(s) && Mergeable(s, n, b, c)
    requires m in MergeNode(s, n, c).cells && i < RADIX
    ensures Shape(MergeNode(s, n, c)) && ChildOk(MergeNode(s, n, c), m, i)
  {
    ChildOf(s, n, b);
    ParentOf(s, n);
    assert s.full[c] == s.full[s.parent[n]] + (s.cells[n].prefix + s.cells[c].prefix);
    assert ChildOk(s, if m == n then c else m, i);
  }

  lemma MergeNodeParent(s: State, n: RadixNode, b: nat, c: RadixNode, m: RadixNode)
    requires Wf(s) && Mergeable(s, n, b, c)
    requires m in MergeNode(s, n, c).cells
    ensures Shape(MergeNode(s, n, c)) && ParentOk(MergeNode(s, n, c), m)
  {
    ChildOf(s, n, b);
    ParentOf(s, n);
    assert s.full[c] == s.full[s.parent[n]] + (s.cells[n].prefix + s.cells[c].prefix);
    assert ParentOk(s, m);
  }

  lemma MergeNodeKeeps(s: State, n: RadixNode, b: nat, c: RadixNode)
    requires Meaning(s).Some? && Mergeable(s, n, b, c)
    ensures Meaning(MergeNode(s, n, c)) == Meaning(s) && KeepsAbove(s, MergeNode(s, n, c), n)
    ensures KeepsStored(s, MergeNode(s, n, c))
  {
    var t, e := MergeNode(s, n, c), Entries(s);
    ChildOf(s, n, b);
    MergeNodeParent(s, n, b, c, n);
    forall m, i: nat | m in t.cells && i < RADIX ensures ChildOk(t, m, i) { MergeNodeChild(s, n, b, c, m, i); }
    forall m | m in t.cells ensures ParentOk(t, m) { MergeNodeParent(s, n, b, c, m); }
    forall m: RadixNode | Stores(t, m) ensures Maps(e, t.full[m], t.cells[m].data) {
      EntryOf(s, m);
    }
    forall l | l in e ensures IsKey(t, l) {
      var m := StoredAt(s, l);
      KeyOf(t, m);
    }
    EntriesAre(t, e);
    MeaningOf(t);
  }

  // ----- a leaf removed

  ghost function DropLeaf(s: State, n: RadixNode, b: nat, c: RadixNode): State
    requires n in s.cells && b < |s.cells[n].kids|
  {
    State((s.cells - {c})[n := s.cells[n].(kids := s.cells[n].kids[b := null])],
          s.root, s.full - {c}, s.parent - {c})
  }

  ghost predicate LeafAt(s: State, n: RadixNode, b: nat, c: RadixNode)
    requires Shape(s)
  {
    n in s.cells && b < RADIX && s.cells[n].kids[b] == c && c in s.cells && s.cells[c].kids == NoKids()
  }

  lemma DropLeafChild(s: State, n: RadixNode, b: nat, c: RadixNode, m: RadixNode, i: nat)
    requires Wf(s) && LeafAt(s, n, b, c)
    requires m in DropLeaf(s, n, b, c).cells && i < RADIX
    ensures Shape(DropLeaf(s, n, b, c)) && ChildOk(DropLeaf(s, n, b, c), m, i)
  {
    ChildOf(s, n, b);
    assert ChildOk(s, m, i);
  }

  lemma DropLeafParent(s: State, n: RadixNode, b: nat, c: RadixNode, m: RadixNode)
    requires Wf(s) && LeafAt(s, n, b, c)
    requires m in DropLeaf(s, n, b, c).cells
    ensures Shape(DropLeaf(s, n, b, c)) && ParentOk(DropLeaf(s, n, b, c), m)
  {
    ChildOf(s, n, b);
    assert ParentOk(s, m);
  }

  lemma DropLeafWf(s: State, n: RadixNode, b: nat, c: RadixNode)
    requires Wf(s) && LeafAt(s, n, b, c)
    ensures Wf(DropLeaf(s, n, b, c)) && c != s.root && c != n
  {
    hide ChildOk, ParentOk;
    var t := DropLeaf(s, n, b, c);
    ChildOf(s, n, b);
    DropLeafParent(s, n, b, c, n);
    forall m, i: nat | m in t.cells && i < RADIX ensures ChildOk(t, m, i) { DropLeafChild(s, n, b, c, m, i); }
    forall m | m in t.cells ensures ParentOk(t, m) { DropLeafParent(s, n, b, c, m); }
  }

  lemma DropLeafKeeps(s: State, n: RadixNode, b: nat, c: RadixNode)
    requires Meaning(s).Some? && LeafAt(s, n, b, c)
    ensures c != s.root && c != n
    ensures Meaning(DropLeaf(s, n, b, c)) == Some(Meaning(s).value - {s.full[c]})
    ensures KeepsAbove(s, DropLeaf(s, n, b, c), n)
  {
    hide ChildOk, ParentOk;
    var t, e := DropLeaf(s, n, b, c), Entries(s) - {s.full[c]};
    DropLeafWf(s, n, b, c);
    ChildOf(s, n, b);
    forall m: RadixNode | Stores(t, m) ensures Maps(e, t.full[m], t.cells[m].data) {
      EntryOf(s, m);
      if s.full[m] == s.full[c] { FullUnique(s, m, c); }
    }
    forall l | l in e ensures IsKey(t, l) {
      var m := StoredAt(s, l);
      KeyOf(t, m);
    }
    EntriesAre(t, e);
    MeaningOf(t);
  }

  lemma DropLeafKeepsOthers(s: State, n: RadixNode, b: nat, c: RadixNode)
    requires Meaning(s).Some? && LeafAt(s, n, b, c)
    ensures c in s.full && KeepsOthers(s, DropLeaf(s, n, b, c), s.full[c])
  {
    ChildOf(s, n, b);
  }

  /** A child of the root that holds nothing and leads nowhere. */
  ghost predicate EmptyLeaf(s: State, i: nat) {
    && s.root in s.cells && i < |s.cells[s.root].kids|
    && s.cells[s.root].kids[i] in s.cells
    && s.cells[s.cells[s.root].kids[i]].data == None && s.cells[s.cells[s.root].kids[i]].kids == NoKids()
  }

  lemma DropLeafTidies(s: State, b: nat, c: RadixNode)
    requires Meaning(s).Some? && LeafAt(s, s.root, b, c)
    ensures s.cells[c].data == None ==> KeepsStored(s, DropLeaf(s, s.root, b, c))
    ensures !EmptyLeaf(DropLeaf(s, s.root, b, c), b)
    ensures forall i: nat :: EmptyLeaf(DropLeaf(s, s.root, b, c), i) ==> EmptyLeaf(s, i)
  {
  }
}
