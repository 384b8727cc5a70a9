/** The radix tree in place: nodes whose prefix, data and children are rewritten. */
module RadixTree {
  import opened Wrappers
  import opened RadixState
  import opened RadixOps
  import opened RadixCompact

  /** __common_prefix */
  method CommonPrefix(s1: Key, s2: Key) returns (i: nat)
    ensures i <= |s1| && i <= |s2| && s1[..i] == s2[..i]
    ensures i < |s1| && i < |s2| ==> s1[i] != s2[i]
  {
    i := 0;
    while i < |s1| && i < |s2| && s1[i] == s2[i]
      invariant i <= |s1| && i <= |s2| && s1[..i] == s2[..i]
    {
      i := i + 1;
    }
  }

  function Count(kids: seq<RadixNode?>): nat {
    if kids == [] then 0
    else Count(kids[..|kids| - 1]) + if kids[|kids| - 1] != null then 1 else 0
  }

  lemma {:induction false} CountNone(kids: seq<RadixNode?>)
    ensures Count(kids) == 0 <==> forall i | 0 <= i < |kids| :: kids[i] == null
  {
    if kids == [] {
    } else {
      CountNone(kids[..|kids| - 1]);
    }
  }

  lemma {:induction false} CountOne(kids: seq<RadixNode?>, b: nat)
    requires b < |kids| && kids[b] != null
    ensures Count(kids) >= 1
    ensures Count(kids) == 1 <==> forall i | 0 <= i < |kids| && i != b :: kids[i] == null
  {
    var init := kids[..|kids| - 1];
    if b == |kids| - 1 {
      CountNone(init);
      assert forall i | 0 <= i < |init| :: init[i] == kids[i];
    } else {
      CountOne(init, b);
      assert forall i | 0 <= i < |init| :: init[i] == kids[i];
    }
  }

  /** __node_children */
  method NodeChildren(node: RadixNode) returns (cnt: nat)
    ensures cnt == Count(node.children)
  {
    cnt := 0;
    var i := 0;
    while i < |node.children|
      invariant 0 <= i <= |node.children| && cnt == Count(node.children[..i])
    {
      assert node.children[..i + 1][..i] == node.children[..i];
      if node.children[i] != null {
        cnt := cnt + 1;
      }
      i := i + 1;
    }
    assert node.children[..i] == node.children;
  }

  /** The lower half of a split node: it takes over data and children. */
  method NewLower(node: RadixNode, len: nat) returns (child: RadixNode)
    requires len < |node.prefix|
    ensures fresh(child) && child.prefix == node.prefix[len..]
    ensures child.data == node.data && child.children == node.children
  {
    child := new RadixNode(node.prefix[len..], None);
    child.data := node.data;
    child.children := node.children;
  }

  /** The upper half of a split node. */
  method Truncate(node: RadixNode, len: nat, children: seq<RadixNode?>)
    requires len < |node.prefix|
    modifies node
    ensures node.prefix == old(node.prefix)[..len] && node.data == None && node.children == children
  {
    node.data := None;
    node.prefix := node.prefix[..len];
    node.children := children;
  }

  class RadixMap {
    var root: RadixNode
    ghost var state: State

    /** The nodes hold what the state says. */
    ghost predicate InStep()
      reads this, state.cells.Keys
    {
      && root == state.root
      && forall n | n in state.cells :: state.cells[n] == Cell(n.prefix, n.data, n.children)
    }

    /** The keys and data in the tree; None if the nodes do not form one. */
    ghost function Contents(): Option<map<Key, Value>>
      reads this, state.cells.Keys
    {
      if InStep() then Meaning(state) else None
    }

    ghost function Nodes(): set<RadixNode>
      reads this
    {
      state.cells.Keys
    }

    /** radix_tree_init */
    constructor ()
      ensures Contents() == Some(map[]) && fresh(Nodes())
      ensures Nodes() == {root} && root == state.root && Tidy(state)
    {
      var r := new RadixNode([], None);
      root := r;
      state := State(map[r := Cell([], None, NoKids())], r, map[r := []], map[r := r]);
      new;
      EntriesAre(state, map[]);
    }

    /** The assignments of __node_split. */
    method SplitFields(node: RadixNode, len: nat) returns (child: RadixNode)
      requires InStep() && node in Nodes() && node in state.full && state.parent.Keys == Nodes()
      requires len < |node.prefix| <= |state.full[node]|
      modifies this`state, node
      ensures fresh(child) && InStep() && state == SplitNode(old(state), node, child, len)
    {
      var index := node.prefix[len];
      child := NewLower(node, len);
      state := SplitCells(state, node, child, len);
      Truncate(node, len, NoKids()[index := child]);
    }

    /** __node_split, where the walk for a key has left the node's prefix after len bytes. */
    method Split(node: RadixNode, len: nat, ghost key: Key, ghost rest: Key) returns (child: RadixNode)
      requires Contents().Some? && Before(state, node, key, rest)
      requires 0 < len < |node.prefix| && Agree(node.prefix, rest, len)
      modifies this`state, node
      ensures Contents() == old(Contents()) && fresh(child) && Nodes() == old(Nodes()) + {child}
      ensures At(state, node, key, rest[len..]) && node != root
      ensures node.data == None && |node.children| == RADIX && (len < |rest| ==> node.children[rest[len]] == null)
      ensures SplitsAt(old(state), node, child, len) && state == SplitNode(old(state), node, child, len)
    {
      ghost var s := state;
      child := SplitFields(node, len);
      SplitNodeKeeps(s, node, child, len);
      SplitReached(s, node, child, len, key, rest);
      ghost var t := SplitCells(s, node, child, len);
    }

    /** The assignments when __radix_tree_insert finds no child. */
    method AddChildFields(node: RadixNode, rest: Key, data: Value) returns (child: RadixNode)
      requires InStep() && node in Nodes() && node in state.full && rest != [] && rest[0] < |node.children|
      modifies this`state, node
      ensures fresh(child) && InStep() && state == AddLeaf(old(state), node, child, rest, data)
    {
      child := new RadixNode(rest, Some(data));
      node.children := node.children[rest[0] := child];
      state := AddLeaf(state, node, child, rest, data);
    }

    /** The new node of __radix_tree_insert. */
    method AddChild(node: RadixNode, rest: Key, data: Value, ghost key: Key) returns (child: RadixNode)
      requires Contents().Some? && At(state, node, key, rest) && rest != []
      requires |node.children| == RADIX && node.children[rest[0]] == null
      modifies this`state, node
      ensures fresh(child) && Nodes() == old(Nodes()) + {child}
      ensures key !in old(Contents()).value && Contents() == Some(old(Contents()).value[key := data])
      ensures AddsLeaf(old(state), state, node, child, key, data)
    {
      ghost var s := state;
      child := AddChildFields(node, rest, data);
      AddLeafKeeps(s, node, child, rest, data);
      assert key[|s.full[node]|..] == rest && key[..|s.full[node]|] == s.full[node];
    }

    method SetDataField(node: RadixNode, d: Option<Value>)
      requires InStep() && node in Nodes()
      modifies this`state, node`data
      ensures InStep() && state == SetData(old(state), node, d)
    {
      node.data := d;
      state := SetData(state, node, d);
    }

    method SetNodeData(node: RadixNode, d: Option<Value>, ghost key: Key)
      requires Contents().Some? && At(state, node, key, []) && node != root
      modifies this`state, node`data
      ensures Nodes() == old(Nodes()) && state.full == old(state.full)
      ensures node in old(state).cells && state == SetData(old(state), node, d) && KeepsOthers(old(state), state, key)
      ensures var e := old(Contents()).value;
              Contents() == Some(if d.Some? then e[key := d.value] else e - {key})
    {
      assert key == state.full[node];
      SetDataKeeps(state, node, d);
      SetDataField(node, d);
    }

    /** The key ends at this node: it gets the data, unless it has some. */
    method SetHere(it: RadixNode, data: Value, ghost key: Key, ghost s: State, ghost split: bool, ghost cut: (RadixNode, RadixNode, nat))
        returns (r: int, ghost g: Growth)
      requires Contents().Some? && At(state, it, key, []) && it != root && Meaning(s).Some?
      requires Begun(s, state, it, split, cut) && (split ==> it.data == None)
      modifies this`state, it`data
      ensures Nodes() == old(Nodes()) && r == if key in old(Contents()).value then -3 else 0
      ensures r != 0 ==> state == s && Contents() == old(Contents())
      ensures r == 0 ==> Contents() == Some(old(Contents()).value[key := data])
      ensures r == 0 ==> Grows(s, state, key, data, g)
      ensures Tidy(s) ==> Tidy(state)
    {
      hide Meaning, Answer, InStep, Contents, CutFrom, Tidy, Grows, SplitNode, SetData;
      r, g := -3, NewData(it);
      Fields(it);
      Arrived(state, it, key);
      if it.data.Some? {
        return;
      }
      ghost var u := state;
      SetNodeData(it, Some(data), key);
      if split { g := SplitData(cut.0, cut.1, cut.2); }
      GrowsData(s, u, state, key, data, g);
      r := 0;
    }

    /** No node continues the key: a new one does. */
    method AddHere(it: RadixNode, rest: Key, data: Value, ghost key: Key, ghost s: State, ghost split: bool, ghost cut: (RadixNode, RadixNode, nat))
        returns (ghost g: Growth)
      requires Contents().Some? && At(state, it, key, rest) && rest != [] && Meaning(s).Some?
      requires |it.children| == RADIX && it.children[rest[0]] == null && Begun(s, state, it, split, cut)
      modifies this`state, it
      ensures fresh(Nodes() - old(Nodes()))
      ensures key !in old(Contents()).value && Contents() == Some(old(Contents()).value[key := data])
      ensures Grows(s, state, key, data, g)
      ensures Tidy(s) ==> Tidy(state)
    {
      hide Meaning, Answer, InStep, Contents, CutFrom, Tidy, Grows, AddsLeaf, SplitNode;
      ghost var u := state;
      var leaf := AddChild(it, rest, data, key);
      g := if split then SplitLeaf(cut.0, cut.1, cut.2, leaf) else NewLeaf(it, leaf);
      GrowsLeaf(s, u, state, key, data, g);
    }

    /** One step of the walks: the child for the next byte and its common prefix with the rest
        of the key, which is never empty. */
    method Descend(it: RadixNode, rest: Key, ghost key: Key) returns (child: RadixNode, len: nat)
      requires Contents().Some? && At(state, it, key, rest) && rest != []
      requires |it.children| == RADIX && it.children[rest[0]] != null
      ensures Before(state, child, key, rest) && Agree(child.prefix, rest, len) && len > 0
      ensures |state.full[it]| < |state.full[child]| && it.children[rest[0]] == child
      ensures len == |child.prefix| ==> At(state, child, key, rest[len..])
      ensures Answer(state, it, key) == if len < |child.prefix| then None else Answer(state, child, key)
    {
      NodeFacts(state, it);
      child := it.children[rest[0]];
      len := CommonPrefix(child.prefix, rest);
      StepDown(state, it, key, rest, len);
      assert len > 0;
    }

    lemma Fields(node: RadixNode)
      requires Contents().Some? && (node in Nodes() || node == root)
      ensures Meaning(state) == Contents() && root == state.root && node in state.cells && node in state.full
      ensures |node.children| == RADIX && state.cells[node] == Cell(node.prefix, node.data, node.children)
    {
      Width(state, node);
    }

    /** radix_tree_insert and __radix_tree_insert: -1 for bad arguments, -3 for a key already there. */
    method Insert(key: Key, data: Option<Value>) returns (r: int, ghost g: Growth)
      requires Contents().Some?
      modifies this`state, Nodes()
      ensures fresh(Nodes() - old(Nodes()))
      ensures r == (if key == [] || data.None? then -1 else if key in old(Contents()).value then -3 else 0)
      ensures Contents() == if r == 0 then Some(old(Contents()).value[key := data.value]) else old(Contents())
      ensures r == 0 ==> Grows(old(state), state, key, data.value, g)
      ensures Tidy(old(state)) ==> Tidy(state)
      ensures r != 0 ==> state == old(state)
    {
      hide Meaning, Answer, InStep, Contents, Tidy, Grows, SplitsAt, SplitNode, CutFrom, Before, Agree, Select;
      r, g := 0, NewData(root);
      if key == [] || data.None? {
        r := -1;
        return;
      }
      Fields(root);
      SearchIsSelect(state, key);
      var it, rest := root, key;
      // the node that was split, if one was, its lower half and the length of its new prefix
      ghost var split, cut: (RadixNode, RadixNode, nat) := false, (root, root, 0);
      while rest != []
        invariant fresh(Nodes() - old(Nodes())) && Contents() == old(Contents())
        invariant At(state, it, key, rest) && rest != []
        // after a split there is no child to go on with
        invariant split ==> |it.children| == RADIX && it.children[rest[0]] == null
        invariant Begun(old(state), state, it, split, cut)
        decreases |rest|
      {
        Fields(it);
        var index := rest[0];
        if it.children[index] == null {
          g := AddHere(it, rest, data.value, key, old(state), split, cut);
          return;
        }
        var child, len := Descend(it, rest, key);
        it := child;
        ghost var before := state;
        if len < |it.prefix| {
          var lower := Split(it, len, key, rest);
          split, cut := true, (it, lower, len);
          IsCut(before, state, cut);
        }
        if len == |rest| {
          assert rest[len..] == [];
          r, g := SetHere(it, data.value, key, old(state), split, cut);
          return;
        }
        rest := rest[len..];
      }
      assert false;
    }

    /** radix_tree_lookup and __radix_tree_lookup */
    method Lookup(key: Key) returns (r: Option<Value>)
      requires Contents().Some?
      ensures r == Select(Contents().value, key)
    {
      hide Meaning, Answer, Select;
      SearchIsSelect(state, key);
      ghost var want := Select(Contents().value, key);
      var it, rest := root, key;
      while rest != []
        invariant At(state, it, key, rest) && (rest == [] ==> it == root)
        invariant Answer(state, it, key) == want
        decreases |rest|
      {
        Width(state, it);
        var index := rest[0];
        if it.children[index] == null {
          NoChild(state, it, key, rest);
          return None;
        }
        var child, len := Descend(it, rest, key);
        it := child;
        if len < |it.prefix| {
          return None;
        }
        if len == |rest| {
          Arrived(state, it, key);
          return it.data;
        }
        rest := rest[len..];
      }
      Arrived(state, root, key);
      return None;
    }

    /** The assignments of __node_merge. */
    method MergeFields(node: RadixNode, child: RadixNode)
      requires InStep() && node in Nodes() && child in Nodes() && child in state.full && node != child
      requires state.parent.Keys == Nodes() && node.data == None
      modifies this`state, node
      ensures InStep() && state == MergeNode(old(state), node, child)
    {
      node.prefix := node.prefix + child.prefix;
      node.children := child.children;
      state := MergeNode(state, node, child);
    }

    /** The checks of __node_merge: the index of the child to merge, or -1. */
    method MergeIndex(node: RadixNode) returns (i: int)
      requires Contents().Some? && node in Nodes() && node != root
      ensures |node.children| == RADIX && -1 <= i < RADIX
      ensures forall b: nat | b < RADIX :: node.children[b] != null ==> (Mergeable(state, node, b, node.children[b]) <==> b == i)
      ensures i >= 0 ==> node.children[i] != null && Mergeable(state, node, i, node.children[i])
    {
      NodeFacts(state, node);
      var cnt := NodeChildren(node);
      forall b: nat | b < RADIX && node.children[b] != null
        ensures cnt == 1 <==> forall k | 0 <= k < RADIX && k != b :: node.children[k] == null
      {
        CountOne(node.children, b);
      }
      if cnt != 1 || node.data.Some? {
        return -1;
      }
      CountNone(node.children);
      i := 0;
      while node.children[i] == null
        invariant 0 <= i < RADIX && forall k | 0 <= k < i :: node.children[k] == null
        decreases RADIX - i
      {
        i := i + 1;
      }
      if node.children[i].data.Some? {
        i := -1;
      }
    }

    /** __node_merge: nothing happens unless the node has one child and neither holds data. */
    method Merge(node: RadixNode)
      requires Contents().Some? && node in Nodes() && node != root
      modifies this`state, node
      ensures Contents() == old(Contents()) && Nodes() <= old(Nodes()) && KeepsAbove(old(state), state, node)
      ensures KeepsStored(old(state), state)
      ensures forall b: nat | b < |old(node.children)| && Mergeable(old(state), node, b, old(node.children)[b]) ::
                state == MergeNode(old(state), node, old(node.children)[b])
      ensures (forall b: nat | b < |old(node.children)| :: !Mergeable(old(state), node, b, old(node.children)[b]))
              ==> state == old(state)
      ensures MergesOnce(old(state), state, node)
    {
      var i := MergeIndex(node);
      Width(state, node);
      MergesAt(state, node);
      if i == -1 {
        return;
      }
      MergeNodeKeeps(state, node, i, node.children[i]);
      MergeFields(node, node.children[i]);
    }

    /** An empty leaf taken off its parent. */
    method DropFields(node: RadixNode, index: nat, ghost child: RadixNode)
      requires InStep() && node in Nodes() && index < |node.children| && child != node
      modifies this`state, node`children
      ensures InStep() && state == DropLeaf(old(state), node, index, child)
    {
      node.children := node.children[index := null];
      state := DropLeaf(state, node, index, child);
    }

    method Drop(node: RadixNode, index: nat)
      requires Contents().Some? && node in Nodes() && index < |node.children|
      requires node.children[index] != null && node.children[index] in Nodes() && Count(node.children[index].children) == 0
      modifies this`state, node`children
      ensures var c := old(node.children[index]);
              c in old(state.full) && Contents() == Some(old(Contents()).value - {old(state.full)[c]})
      ensures node in state.full && node in old(state.full) && state.full[node] == old(state.full)[node]
      ensures Nodes() <= old(Nodes()) && KeepsAbove(old(state), state, node)
      ensures KeepsOthers(old(state), state, old(state).full[old(node.children[index])])
      ensures state == DropLeaf(old(state), node, index, old(node.children[index]))
    {
      ghost var s, c := state, node.children[index];
      Width(s, c);
      CountNone(c.children);
      assert c.children == NoKids();
      DropLeafKeeps(s, node, index, c);
      DropLeafKeepsOthers(s, node, index, c);
      DropFields(node, index, c);
    }

    /** One round of __node_cleanup. */
    method CleanupAt(i: nat)
      requires Contents().Some? && i < RADIX
      modifies this`state, root`children
      ensures Contents() == old(Contents()) && Nodes() <= old(Nodes()) && KeepsAbove(old(state), state, root)
      ensures KeepsStored(old(state), state)
      ensures root in old(state.full) && state.full[root] == old(state.full)[root]
      ensures !EmptyLeaf(state, i) && forall k: nat :: EmptyLeaf(state, k) ==> EmptyLeaf(old(state), k)
      ensures OnlyLeavesGo(old(state), state)
    {
      Fields(root);
      NodeFacts(state, root);
      var it := root.children[i];
      if it == null {
        return;
      }
      Fields(it);
      NodeFacts(state, it);
      var cnt := NodeChildren(it);
      CountNone(it.children);
      if cnt == 0 && it.data == None {
        DropLeafTidies(state, i, it);
        DropLeafGoes(state, i, it);
        MinusAbsent(Contents().value, state.full[it]);
        Drop(root, i);
      }
    }

    /** __node_cleanup, which only the root gets: empty leaves below it go. */
    method Cleanup()
      requires Contents().Some?
      modifies this`state, root`children
      ensures Contents() == old(Contents()) && Nodes() <= old(Nodes()) && KeepsAbove(old(state), state, root)
      ensures KeepsStored(old(state), state)
      ensures Tidy(state) && OnlyLeavesGo(old(state), state)
    {
      hide Meaning, InStep, Contents, EmptyLeaf, OnlyLeavesGo;
      Fields(root);
      KeepsStoredSelf(state);
      OnlyLeavesGoSelf(state);
      var i := 0;
      while i < RADIX
        invariant 0 <= i <= RADIX && forall k: nat | k < i :: !EmptyLeaf(state, k)
        invariant Contents() == old(Contents()) && Nodes() <= old(Nodes()) && KeepsAbove(old(state), state, root)
        invariant KeepsStored(old(state), state) && OnlyLeavesGo(old(state), state)
        invariant root in old(state.full) && state.full[root] == old(state.full)[root]
      {
        ghost var t := state;
        CleanupAt(i);
        KeepsAboveAgain(old(state), t, state, root);
        KeepsStoredAfter(old(state), t, state);
        OnlyLeavesGoAgain(old(state), t, state);
        i := i + 1;
      }
    }

    /** The compaction at the end of __radix_tree_remove. */
    method Compact(node: RadixNode)
      requires Contents().Some? && node in Nodes()
      modifies this`state, node
      ensures Contents() == old(Contents()) && Nodes() <= old(Nodes()) && KeepsAbove(old(state), state, node)
      ensures KeepsStored(old(state), state)
      ensures state.root == old(state).root
      ensures if node == old(state).root then Tidy(state) && OnlyLeavesGo(old(state), state)
              else MergesOnce(old(state), state, node)
    {
      RootHasNoPrefix(state, node);
      if node.prefix == [] {
        Cleanup();
      } else {
        Merge(node);
      }
    }

    /** The node for the key is found: a leaf goes, another node loses its data. */
    method RemoveHere(node: RadixNode, index: nat, ghost key: Key) returns (r: int)
      requires Contents().Some? && node in Nodes() && index < |node.children|
      requires node.children[index] != null && At(state, node.children[index], key, []) && node.children[index] != root
      modifies this`state, node, node.children[index]
      ensures r == (if key in old(Contents()).value then 0 else -3)
      ensures Contents() == Some(old(Contents()).value - {key})
      ensures r != 0 ==> state == old(state)
      ensures Nodes() <= old(Nodes()) && KeepsAbove(old(state), state, node) && KeepsOthers(old(state), state, key)
      ensures r == 0 ==> DataOnly(old(state), state, old(node.children[index]))
      ensures r == 0 ==> RemovedAt(old(state), state, node, key, Found(node, index, old(node.children[index])))
    {
      hide Meaning, Answer, InStep, Contents, RemovedAt, Tidy, OnlyLeavesGo, MergesOnce;
      ghost var s := state;
      MinusAbsent(Contents().value, key);
      var it := node.children[index];
      Fields(node);
      Fields(it);
      Arrived(state, it, key);
      if it.data == None {
        return -3;
      }
      var cnt := NodeChildren(it);
      CountNone(it.children);
      if cnt == 0 {
        assert it.children == NoKids() && !HasKids(state, it);
        assert state.full[it] == key;
        Drop(node, index);
        ghost var t := state;
        Fields(root);
        Compact(node);
        KeepsAboveAgain(s, t, state, node);
        KeepsOthersAfter(s, t, state, key);
        LeafRemoved(s, t, state, node, index, it);
      } else {
        ChildBelow(s, node, index);
        assert s.full[it] == key;
        SetNodeData(it, None, key);
        Fields(root);
        DataRemoved(s, node, index, it);
      }
      return 0;
    }

    /** __radix_tree_remove: 0, or -1, -2, -3, -4 with nothing changed. */
    method RemoveBelow(node: RadixNode, rest: Key, ghost key: Key) returns (r: int, ghost o: Found)
      requires Contents().Some? && At(state, node, key, rest) && rest != []
      modifies this`state, Nodes()
      ensures -4 <= r <= 0 && (r == 0 <==> key in old(Contents()).value)
      ensures Contents() == Some(old(Contents()).value - {key})
      ensures r != 0 ==> state == old(state)
      ensures Nodes() <= old(Nodes()) && KeepsAbove(old(state), state, node) && KeepsOthers(old(state), state, key)
      ensures r == 0 ==> forall c | Next(old(state), node, rest, c) :: DataOnly(old(state), state, c)
      ensures r == 0 ==> RemovedAt(old(state), state, node, key, o)
      decreases |rest|
    {
      hide Meaning, Answer, InStep, Contents, RemovedAt, Tidy, OnlyLeavesGo, MergesOnce;
      r, o := 0, Found(node, 0, node);
      Fields(node);
      MinusAbsent(Contents().value, key);
      AnswerIsSelect(state, node, key, rest);
      var index := rest[0];
      if node.children[index] == null {
        NoChild(state, node, key, rest);
        r := -1;
        return;
      }
      var it, len := Descend(node, rest, key);
      if len < |it.prefix| {
        r := -2;
        return;
      }
      if len == |rest| {
        assert rest[len..] == [];
        r := RemoveHere(node, index, key);
        o := Found(node, index, it);
        return;
      }
      ghost var s := state;
      r, o := RemoveBelow(it, rest[len..], key);
      if r != 0 {
        r := -4;
        return;
      }
      ghost var t := state;
      Fields(root);
      Compact(node);
      Fields(root);
      KeepsAboveTrans(s, t, state, it, node);
      KeepsOthersAfter(s, t, state, key);
      RemovedUp(s, t, state, node, it, index, key, rest[len..], o);
    }

    /** radix_tree_remove: 0 exactly for a stored key, which is then the only one gone. */
    method Remove(key: Key) returns (r: int, ghost o: Found)
      requires Contents().Some?
      modifies this`state, Nodes()
      ensures r == 0 <==> key != [] && key in old(Contents()).value
      ensures Contents() == if r == 0 then Some(old(Contents()).value - {key}) else old(Contents())
      ensures r != 0 ==> state == old(state)
      ensures Nodes() <= old(Nodes()) && KeepsOthers(old(state), state, key)
      ensures r == 0 ==> forall c | key != [] && Next(old(state), old(root), key, c) :: DataOnly(old(state), state, c)
      ensures r == 0 ==> RemovedAt(old(state), state, old(root), key, o)
      ensures Tidy(old(state)) ==> Tidy(state)
    {
      r, o := -1, Found(root, 0, root);
      if key == [] {
        return;
      }
      Fields(root);
      SearchIsSelect(state, key);
      MinusAbsent(Contents().value, key);
      r, o := RemoveBelow(root, key, key);
    }

    /** radix_tree_is_empty: true exactly when only the root is left, so there is no key. */
    method IsEmpty() returns (r: bool)
      requires Contents().Some?
      ensures r <==> Nodes() == {root}
      ensures r ==> Contents() == Some(map[])
    {
      RootAlone(state);
      var cnt := NodeChildren(root);
      CountNone(root.children);
      r := cnt == 0;
    }
  }
}
