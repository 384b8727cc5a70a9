/** The nodes of a radix tree seen as one value: what each node holds, the bytes on the path from
    the root to it, and its parent. The tree operations are rewritings of this value; each keeps
    it well formed and says what happens to the stored keys. */
module RadixState {
  import opened Wrappers

  /** A byte of a C string: never the terminator. */
  type Char = c: nat | 0 < c < 256 witness 1

  type Key = seq<Char>

  type Value = int

  const RADIX := 256

  class RadixNode {
    var prefix: Key
    var data: Option<Value>
    var children: seq<RadixNode?>

    /** __node_create */
    constructor (prefix: Key, data: Option<Value>)
      ensures this.prefix == prefix && this.data == data && children == NoKids()
    {
      this.prefix := prefix;
      this.data := data;
      children := NoKids();
    }
  }

  function NoKids(): seq<RadixNode?> { seq(RADIX, _ => null) }

  datatype Cell = Cell(prefix: Key, data: Option<Value>, kids: seq<RadixNode?>)

  datatype State = State(cells: map<RadixNode, Cell>, root: RadixNode,
                         full: map<RadixNode, Key>, parent: map<RadixNode, RadixNode>)

  // ----- the invariant, node by node

  ghost predicate Shape(s: State) {
    && s.root in s.cells && s.full.Keys == s.cells.Keys && s.parent.Keys == s.cells.Keys
    && (forall n | n in s.cells :: |s.cells[n].kids| == RADIX)
    && s.full[s.root] == [] && s.cells[s.root].prefix == [] && s.cells[s.root].data == None
  }

  /** A child's prefix is not empty and starts with the byte that indexes it. */
  ghost predicate ChildOk(s: State, n: RadixNode, b: nat)
    requires Shape(s) && n in s.cells && b < RADIX
  {
    var c := s.cells[n].kids[b];
    c != null ==>
      && c in s.cells && c != s.root && s.parent[c] == n
      && s.cells[c].prefix != [] && s.cells[c].prefix[0] == b
      && s.full[c] == s.full[n] + s.cells[c].prefix
  }

  /** Every node but the root is a child of its parent. */
  ghost predicate ParentOk(s: State, c: RadixNode)
    requires Shape(s) && c in s.cells
  {
    c != s.root ==>
      && s.parent[c] in s.cells && s.cells[c].prefix != []
      && s.cells[s.parent[c]].kids[s.cells[c].prefix[0]] == c
  }

  ghost predicate Wf(s: State) {
    && Shape(s)
    && (forall n, b: nat {:trigger ChildOk(s, n, b)} | n in s.cells && b < RADIX :: ChildOk(s, n, b))
    && (forall c {:trigger ParentOk(s, c)} | c in s.cells :: ParentOk(s, c))
  }

  lemma ChildOf(s: State, n: RadixNode, b: nat)
    requires Wf(s) && n in s.cells && b < RADIX && s.cells[n].kids[b] != null
    ensures var c := s.cells[n].kids[b];
            && c in s.cells && c != s.root && c != n && s.parent[c] == n
            && s.cells[c].prefix != [] && s.cells[c].prefix[0] == b
            && s.full[c] == s.full[n] + s.cells[c].prefix
  {
    assert ChildOk(s, n, b);
  }

  lemma ParentOf(s: State, c: RadixNode)
    requires Wf(s) && c in s.cells && c != s.root
    ensures var p := s.parent[c];
            && p in s.cells && p != c && s.cells[c].prefix != []
            && s.cells[p].kids[s.cells[c].prefix[0]] == c
            && s.full[c] == s.full[p] + s.cells[c].prefix
  {
    assert ParentOk(s, c);
    assert ChildOk(s, s.parent[c], s.cells[c].prefix[0]);
  }

  // ----- finding a node

  ghost predicate IsPrefix(a: Key, b: Key) { |a| <= |b| && a == b[..|a|] }

  /** The node for key k below n, by following one child per step. */
  ghost function Find(s: State, n: RadixNode, k: Key): Option<RadixNode>
    requires Wf(s) && n in s.cells && IsPrefix(s.full[n], k)
    decreases |k| - |s.full[n]|
  {
    var m := |s.full[n]|;
    if m == |k| then Some(n)
    else
      var c := s.cells[n].kids[k[m]];
      if c == null then None
      else
        ChildOf(s, n, k[m]);
        if IsPrefix(s.full[c], k) then Find(s, c, k) else None
  }

  lemma {:induction false} FindPast(s: State, n: RadixNode, p: RadixNode, k: Key)
    requires Wf(s) && n in s.cells && p in s.cells && IsPrefix(s.full[n], s.full[p]) && IsPrefix(s.full[p], k)
    requires Find(s, n, s.full[p]) == Some(p)
    ensures IsPrefix(s.full[n], k) && Find(s, n, k) == Find(s, p, k)
    decreases |k| - |s.full[n]|
  {
    var m := |s.full[n]|;
    assert k[..m] == k[..|s.full[p]|][..m];
    if m >= |s.full[p]| {
    } else {
      assert k[m] == s.full[p][m];
      ChildOf(s, n, k[m]);
      FindPast(s, s.cells[n].kids[k[m]], p, k);
    }
  }

  /** Every node is found by the bytes on its path. */
  lemma {:induction false} FindSelf(s: State, m: RadixNode)
    requires Wf(s) && m in s.cells
    ensures IsPrefix(s.full[s.root], s.full[m]) && Find(s, s.root, s.full[m]) == Some(m)
    decreases |s.full[m]|
  {
    if m == s.root {
    } else {
      var p := s.parent[m];
      ParentOf(s, m);
      FindSelf(s, p);
      FindPast(s, s.root, p, s.full[m]);
      assert s.full[m][|s.full[p]|] == s.cells[m].prefix[0];
    }
  }

  /** Different nodes stand for different keys. */
  lemma FullUnique(s: State, m: RadixNode, n: RadixNode)
    requires Wf(s) && m in s.cells && n in s.cells && s.full[m] == s.full[n]
    ensures m == n
  {
    FindSelf(s, m);
    FindSelf(s, n);
  }

  // ----- the stored keys

  ghost predicate Stores(s: State, n: RadixNode) { n in s.cells && s.cells[n].data.Some? }

  ghost function Keys(s: State): set<Key>
    requires Shape(s)
  {
    set n | n in s.cells && Stores(s, n) :: s.full[n]
  }

  ghost predicate IsKey(s: State, k: Key)
    requires Shape(s)
  {
    k in Keys(s)
  }

  /** The finite map that the tree represents: path bytes to data, over all nodes with data. */
  ghost function Entries(s: State): map<Key, Value>
    requires Shape(s)
  {
    map k | k in Keys(s) :: var n :| n in s.cells && Stores(s, n) && s.full[n] == k; s.cells[n].data.value
  }

  ghost predicate Maps(m: map<Key, Value>, k: Key, d: Option<Value>) { d.Some? && k in m && m[k] == d.value }

  lemma EntriesAre(s: State, m: map<Key, Value>)
    requires Shape(s)
    requires forall n {:trigger Stores(s, n)} | Stores(s, n) :: Maps(m, s.full[n], s.cells[n].data)
    requires forall k {:trigger IsKey(s, k)} | k in m :: IsKey(s, k)
    ensures Entries(s) == m
  {
    forall k ensures k in m <==> k in Entries(s) {
      if k in m { assert IsKey(s, k); }
    }
  }

  lemma EntryOf(s: State, n: RadixNode)
    requires Wf(s) && n in s.cells
    ensures Stores(s, n) <==> s.full[n] in Entries(s)
    ensures Stores(s, n) ==> Maps(Entries(s), s.full[n], s.cells[n].data)
  {
    var k := s.full[n];
    if k in Entries(s) {
      var m :| m in s.cells && Stores(s, m) && s.full[m] == k && s.cells[m].data.value == Entries(s)[k];
      FullUnique(s, m, n);
    }
  }

  lemma StoredAt(s: State, k: Key) returns (n: RadixNode)
    requires Shape(s) && k in Entries(s)
    ensures n in s.cells && Stores(s, n) && s.full[n] == k
  {
    n :| n in s.cells && Stores(s, n) && s.full[n] == k;
  }

  lemma KeyOf(s: State, n: RadixNode)
    requires Shape(s) && n in s.cells && Stores(s, n)
    ensures IsKey(s, s.full[n])
  {
  }

  /** What a lookup finds is what the map holds. */
  lemma FindIsEntry(s: State, k: Key)
    requires Wf(s)
    ensures var f := Find(s, s.root, k);
            && (f.None? ==> k !in Entries(s))
            && (f.Some? ==> f.value in s.cells && s.full[f.value] == k)
  {
    if k in Entries(s) {
      var m := StoredAt(s, k);
      FindSelf(s, m);
    }
    FindFull(s, s.root, k);
  }

  lemma {:induction false} FindFull(s: State, n: RadixNode, k: Key)
    requires Wf(s) && n in s.cells && IsPrefix(s.full[n], k)
    ensures var f := Find(s, n, k); f.Some? ==> f.value in s.cells && s.full[f.value] == k
    decreases |k| - |s.full[n]|
  {
    var m := |s.full[n]|;
    if m >= |k| {
    } else {
      var c := s.cells[n].kids[k[m]];
      if c != null {
        ChildOf(s, n, k[m]);
        if IsPrefix(s.full[c], k) {
          FindFull(s, c, k);
        }
      }
    }
  }

  /** The map that a state represents, if it is a radix tree. */
  ghost function Meaning(s: State): Option<map<Key, Value>> {
    if Wf(s) then Some(Entries(s)) else None
  }

  lemma MeaningOf(s: State)
    requires Wf(s)
    ensures Meaning(s) == Some(Entries(s))
  {
  }

  /** The longest common prefix of a child's prefix and the rest of the key. */
  ghost predicate Agree(prefix: Key, rest: Key, len: nat) {
    && len <= |prefix| && len <= |rest| && prefix[..len] == rest[..len]
    && (len < |prefix| && len < |rest| ==> prefix[len] != rest[len])
  }

  /** A walk for key k has reached n and has rest still to match. */
  ghost predicate At(s: State, n: RadixNode, k: Key, rest: Key) {
    n in s.cells && n in s.full && k == s.full[n] + rest
  }

  /** A walk for key k stands before node n and has rest still to match. */
  ghost predicate Before(s: State, n: RadixNode, k: Key, rest: Key) {
    && n in s.cells && n in s.full && n != s.root && |s.cells[n].prefix| <= |s.full[n]|
    && k == s.full[n][..|s.full[n]| - |s.cells[n].prefix|] + rest
  }

  /** One step towards key k: the common prefix is never empty; if it is the whole prefix the
      search goes on at the child, and if it is shorter there is no node for k. */
  lemma StepDown(s: State, n: RadixNode, k: Key, rest: Key, len: nat)
    requires Meaning(s).Some? && At(s, n, k, rest) && rest != []
    requires rest[0] < |s.cells[n].kids| && s.cells[n].kids[rest[0]] in s.cells
    requires Agree(s.cells[s.cells[n].kids[rest[0]]].prefix, rest, len)
    ensures var c := s.cells[n].kids[rest[0]];
            && len > 0 && Before(s, c, k, rest)
            && (len == |s.cells[c].prefix| ==> At(s, c, k, rest[len..]))
            && Answer(s, n, k) == if len < |s.cells[c].prefix| then None else Answer(s, c, k)
  {
    var c := s.cells[n].kids[rest[0]];
    ChildOf(s, n, rest[0]);
    assert k[|s.full[n]|] == rest[0];
    var p := s.cells[c].prefix;
    assert s.full[c][..|s.full[c]| - |p|] == s.full[n];
    if len == |p| {
      assert k == s.full[c] + rest[len..];
    } else {
      assert s.full[c][|s.full[n]| + len] == p[len];
      assert len < |rest| ==> k[|s.full[n]| + len] == rest[len];
    }
  }

  ghost function Select(m: map<Key, Value>, k: Key): Option<Value> {
    if k in m then Some(m[k]) else None
  }

  /** The data that a search for key k from node n ends at. */
  ghost function Answer(s: State, n: RadixNode, k: Key): Option<Value> {
    if Meaning(s).Some? && n in s.cells && IsPrefix(s.full[n], k) then
      var f := Find(s, n, k);
      if f.Some? && f.value in s.cells then s.cells[f.value].data else None
    else None
  }

  /** The search from the root answers what the map holds. */
  lemma SearchIsSelect(s: State, k: Key)
    requires Meaning(s).Some?
    ensures At(s, s.root, k, k) && s.cells[s.root].data == None
    ensures Answer(s, s.root, k) == Select(Meaning(s).value, k)
  {
    FindIsEntry(s, k);
    var f := Find(s, s.root, k);
    if f.Some? {
      EntryOf(s, f.value);
    }
  }

  lemma Width(s: State, n: RadixNode)
    requires Meaning(s).Some? && n in s.cells
    ensures n in s.full && |s.cells[n].kids| == RADIX
  {
  }

  lemma NodeFacts(s: State, n: RadixNode)
    requires Meaning(s).Some? && n in s.cells
    ensures n in s.full && |s.cells[n].kids| == RADIX && IsPrefix(s.full[n], s.full[n])
    ensures forall b | 0 <= b < RADIX && s.cells[n].kids[b] != null :: s.cells[n].kids[b] in s.cells
    ensures s.cells[n].data.Some? <==> s.full[n] in Meaning(s).value
    ensures s.cells[n].data.Some? ==> Meaning(s).value[s.full[n]] == s.cells[n].data.value
    ensures Answer(s, n, s.full[n]) == s.cells[n].data
  {
    forall b | 0 <= b < RADIX && s.cells[n].kids[b] != null ensures s.cells[n].kids[b] in s.cells {
      ChildOf(s, n, b);
    }
    EntryOf(s, n);
  }

  /** A missing child ends the search. */
  lemma NoChild(s: State, n: RadixNode, k: Key, rest: Key)
    requires Meaning(s).Some? && At(s, n, k, rest) && rest != []
    requires rest[0] < |s.cells[n].kids| && s.cells[n].kids[rest[0]] == null
    ensures Answer(s, n, k) == None
  {
    assert k[|s.full[n]|] == rest[0];
  }

  /** Wherever a walk for k stands, going on from there answers what the map holds. */
  lemma AnswerIsSelect(s: State, n: RadixNode, k: Key, rest: Key)
    requires Meaning(s).Some? && At(s, n, k, rest)
    ensures Answer(s, n, k) == Select(Meaning(s).value, k)
  {
    FindSelf(s, n);
    assert IsPrefix(s.full[n], k);
    FindPast(s, s.root, n, k);
    SearchIsSelect(s, k);
  }

  /** Nothing is left to match: the node's own data is the answer. */
  lemma Arrived(s: State, n: RadixNode, k: Key)
    requires Meaning(s).Some? && At(s, n, k, [])
    ensures Answer(s, n, k) == s.cells[n].data == Select(Meaning(s).value, k)
  {
    assert k == s.full[n];
    EntryOf(s, n);
  }

  /** No child below the root: no other node. */
  lemma RootAlone(s: State)
    requires Meaning(s).Some?
    ensures s.root in s.cells
    ensures (forall b | 0 <= b < |s.cells[s.root].kids| :: s.cells[s.root].kids[b] == null) <==> s.cells.Keys == {s.root}
    ensures s.cells.Keys == {s.root} ==> Meaning(s).value == map[]
  {
    NodeFacts(s, s.root);
    forall m | m in s.cells && m != s.root
      ensures exists b | 0 <= b < RADIX :: s.cells[s.root].kids[b] != null
    {
      FindSelf(s, m);
      ParentOf(s, m);
      assert s.cells[s.root].kids[s.full[m][0]] != null;
    }
    forall b | 0 <= b < RADIX && s.cells[s.root].kids[b] != null ensures s.cells.Keys != {s.root} {
      ChildOf(s, s.root, b);
    }
    if s.cells.Keys == {s.root} {
      EntriesAre(s, map[]);
    }
  }

  lemma RootHasNoPrefix(s: State, n: RadixNode)
    requires Meaning(s).Some? && n in s.cells
    ensures s.cells[n].prefix == [] <==> n == s.root
  {
    if n != s.root { ParentOf(s, n); }
  }

  /** What removing below n leaves alone: n itself, and every other node that is no deeper. */
  ghost predicate KeepsAbove(s: State, t: State, n: RadixNode) {
    && n in s.full && n in t.cells && n in t.full
    && forall m | m in s.full && m != n && |s.full[m]| <= |s.full[n]| ::
         (m in s.cells ==> m in t.cells && t.cells[m] == s.cells[m]) && m in t.full && t.full[m] == s.full[m]
  }

  /** Compaction: every node with data keeps its data, its path and its children. */
  ghost predicate KeepsStored(s: State, t: State) {
    forall m {:trigger Stores(s, m)} | m in s.cells && Stores(s, m) ::
      && m in t.cells && t.cells[m].data == s.cells[m].data && t.cells[m].kids == s.cells[m].kids
      && m in s.full && m in t.full && t.full[m] == s.full[m]
  }

  ghost predicate HasKids(s: State, n: RadixNode?) {
    n in s.cells && s.cells[n].kids != NoKids()
  }

  /** c is the leaf for key k. */
  ghost predicate LeafFor(s: State, c: RadixNode?, k: Key) {
    c in s.full && s.full[c] == k && !HasKids(s, c)
  }

  /** Removing key k: every other node with data keeps its data, its path and its children, except
      for a child that is the leaf for k. */
  ghost predicate KeepsOthers(s: State, t: State, k: Key) {
    forall m {:trigger Stores(s, m)} | Stores(s, m) && m in s.full && s.full[m] != k ::
      && m in t.cells && t.cells[m].data == s.cells[m].data && m in t.full && t.full[m] == s.full[m]
      && |t.cells[m].kids| == |s.cells[m].kids|
      && forall i | 0 <= i < |s.cells[m].kids| && !LeafFor(s, s.cells[m].kids[i], k) ::
           t.cells[m].kids[i] == s.cells[m].kids[i]
  }

  lemma KeepsOthersAfter(s: State, t: State, u: State, k: Key)
    requires KeepsOthers(s, t, k) && KeepsStored(t, u)
    ensures KeepsOthers(s, u, k)
  {
    hide LeafFor;
    forall m | Stores(s, m) && m in s.full && s.full[m] != k
      ensures Stores(t, m)
    {
    }
  }

  lemma KeepsStoredSelf(s: State)
    requires Meaning(s).Some?
    ensures KeepsStored(s, s)
  {
  }

  lemma KeepsStoredAfter(s: State, t: State, u: State)
    requires KeepsStored(s, t) && KeepsStored(t, u)
    ensures KeepsStored(s, u)
  {
    forall m | Stores(s, m) ensures Stores(t, m) { }
  }

  /** A node on the path to m has a child on it. */
  lemma ChildTowards(s: State, n: RadixNode, m: RadixNode)
    requires Meaning(s).Some? && n in s.cells && m in s.cells && n != m && IsPrefix(s.full[n], s.full[m])
    ensures |s.full[n]| < |s.full[m]|
    ensures var c := s.cells[n].kids[s.full[m][|s.full[n]|]];
            c in s.cells && IsPrefix(s.full[c], s.full[m]) && |s.full[n]| < |s.full[c]|
            && s.full[c] == s.full[n] + s.cells[c].prefix && c != s.root && HasKids(s, n)
  {
    FindSelf(s, n);
    FindSelf(s, m);
    FindPast(s, s.root, n, s.full[m]);
    if |s.full[n]| == |s.full[m]| { FullUnique(s, n, m); }
    var b := s.full[m][|s.full[n]|];
    ChildOf(s, n, b);
    assert s.cells[n].kids != NoKids() by { assert s.cells[n].kids[b] != NoKids()[b]; }
  }

  lemma MinusAbsent(m: map<Key, Value>, k: Key)
    ensures k !in m ==> m - {k} == m
  {
  }

  lemma KeepsAboveAgain(s: State, t: State, u: State, n: RadixNode)
    requires KeepsAbove(s, t, n) && KeepsAbove(t, u, n) && t.full[n] == s.full[n]
    ensures KeepsAbove(s, u, n)
  {
  }

  lemma KeepsAboveTrans(s: State, t: State, u: State, c: RadixNode, n: RadixNode)
    requires KeepsAbove(s, t, c) && KeepsAbove(t, u, n)
    requires n in s.full && n in s.cells && |s.full[n]| < |s.full[c]|
    ensures KeepsAbove(s, u, n)
  {
  }
}
