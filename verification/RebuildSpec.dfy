/** The rebuild of a tree for arbitrary arrays, repeated labels included: what each call fills,
    when it leaves its arrays, and when the recursion ends. */
module RebuildSpec {
  import opened Pigeonhole
  import opened Traversals

  /** How often x occurs in p. */
  function Times(x: int, p: seq<int>): nat {
    if p == [] then 0 else Times(x, p[..|p| - 1]) + if p[|p| - 1] == x then 1 else 0
  }

  function Copies(x: int, n: nat): (r: seq<int>)
    ensures |r| == n && forall i | 0 <= i < n :: r[i] == x
  {
    seq(n, _ => x)
  }

  /** What the nested loops write: each element of s once for every place of p that holds it. */
  function Fill(s: seq<int>, p: seq<int>): seq<int> {
    if s == [] then [] else Fill(s[..|s| - 1], p) + Copies(s[|s| - 1], Times(s[|s| - 1], p))
  }

  lemma {:induction false} TimesConcat(x: int, a: seq<int>, b: seq<int>)
    ensures Times(x, a + b) == Times(x, a) + Times(x, b)
  {
    if b == [] {
      assert a + b == a;
    } else {
      TimesConcat(x, a, b[..|b| - 1]);
      assert (a + b)[..|a + b| - 1] == a + b[..|b| - 1];
    }
  }

  lemma FillSnoc(s: seq<int>, x: int, p: seq<int>)
    ensures Fill(s + [x], p) == Fill(s, p) + Copies(x, Times(x, p))
  {
    assert (s + [x])[..|s|] == s;
  }

  lemma {:induction false} FillConcat(a: seq<int>, b: seq<int>, p: seq<int>)
    ensures Fill(a + b, p) == Fill(a, p) + Fill(b, p)
  {
    if b == [] {
      assert a + b == a;
    } else {
      var c, x := b[..|b| - 1], b[|b| - 1];
      assert a + b == (a + c) + [x] && b == c + [x];
      FillConcat(a, c, p);
      FillSnoc(a + c, x, p);
      FillSnoc(c, x, p);
    }
  }

  // ----- how many writes: pairs of equal labels

  ghost function Pairs(s: seq<int>, p: seq<int>): set<(nat, nat)> {
    set i: nat, j: nat | i < |s| && j < |p| && s[i] == p[j] :: (i, j)
  }

  ghost function Places(i: nat, x: int, p: seq<int>): set<(nat, nat)> {
    set j: nat | j < |p| && p[j] == x :: (i, j)
  }

  lemma {:induction false} PlacesCount(i: nat, x: int, p: seq<int>)
    ensures |Places(i, x, p)| == Times(x, p)
  {
    if p == [] {
      assert Places(i, x, p) == {};
    } else {
      var n := |p| - 1;
      PlacesCount(i, x, p[..n]);
      assert Places(i, x, p) == Places(i, x, p[..n]) + if p[n] == x then {(i, n)} else {};
    }
  }

  /** One fill writes as many elements as there are pairs of equal labels. */
  lemma {:induction false} FillCount(s: seq<int>, p: seq<int>)
    ensures |Fill(s, p)| == |Pairs(s, p)|
  {
    if s == [] {
      assert Pairs(s, p) == {};
    } else {
      var n := |s| - 1;
      FillCount(s[..n], p);
      PlacesCount(n, s[n], p);
      assert Pairs(s, p) == Pairs(s[..n], p) + Places(n, s[n], p);
      assert Pairs(s[..n], p) !! Places(n, s[n], p);
    }
  }

  // ----- the whole recursion

  /** Why a rebuild does not return: a write past the array, a root that is not in the in-order
      sequence, which the source asserts, or no frame left on the stack. */
  datatype Failure = Overrun | NoRoot | StackOut

  datatype Outcome = Built(tree: Tree) | Failed(why: Failure)

  /** The left subtree is built first; the right one only if that returned. */
  function Join(l: Outcome, x: int, r: Outcome): Outcome {
    if l.Failed? then l else if r.Failed? then r else Built(Node(l.tree, x, r.tree))
  }

  /** __binary_tree_by_traversals with room for `depth` nested calls. */
  function Rebuild(ins: seq<int>, lvl: seq<int>, depth: nat): Outcome
    decreases depth
  {
    if depth == 0 then Failed(StackOut)
    else if lvl == [] then Built(Leaf)
    else if lvl[0] !in ins then Failed(NoRoot)
    else
      var i := IndexOf(ins, lvl[0]);
      var llvl, rlvl := Fill(lvl[1..], ins[..i]), Fill(lvl[1..], ins[i + 1..]);
      if |llvl| > |ins| || |rlvl| > |ins| then Failed(Overrun)
      else Join(Rebuild(ins, llvl, depth - 1), lvl[0], Rebuild(ins, rlvl, depth - 1))
  }

  /** What one call fills for its two subtrees. */
  ghost predicate Fills(ins: seq<int>, lvl: seq<int>, llvl: seq<int>, rlvl: seq<int>) {
    && lvl != [] && lvl[0] in ins
    && llvl == Fill(lvl[1..], ins[..IndexOf(ins, lvl[0])]) && rlvl == Fill(lvl[1..], ins[IndexOf(ins, lvl[0]) + 1..])
  }

  lemma RebuildStep(ins: seq<int>, lvl: seq<int>, depth: nat, llvl: seq<int>, rlvl: seq<int>)
    requires depth > 0 && Fills(ins, lvl, llvl, rlvl)
    ensures Rebuild(ins, lvl, depth) ==
            if |llvl| > |ins| || |rlvl| > |ins| then Failed(Overrun)
            else Join(Rebuild(ins, llvl, depth - 1), lvl[0], Rebuild(ins, rlvl, depth - 1))
  {
  }

  lemma RebuildEnds(ins: seq<int>, lvl: seq<int>, depth: nat)
    requires depth > 0
    ensures lvl == [] ==> Rebuild(ins, lvl, depth) == Built(Leaf)
    ensures lvl != [] && lvl[0] !in ins ==> Rebuild(ins, lvl, depth) == Failed(NoRoot)
  {
  }

  lemma NoStack(ins: seq<int>, lvl: seq<int>)
    ensures Rebuild(ins, lvl, 0) == Failed(StackOut)
  {
  }

  /** More stack changes nothing but the lack of stack. */
  lemma {:induction false} MoreStack(ins: seq<int>, lvl: seq<int>, d: nat, e: nat)
    requires d <= e && Rebuild(ins, lvl, d) != Failed(StackOut)
    ensures Rebuild(ins, lvl, e) == Rebuild(ins, lvl, d)
    decreases d
  {
    hide Rebuild;
    NoStack(ins, lvl);
    if lvl == [] || lvl[0] !in ins {
      RebuildEnds(ins, lvl, d);
      RebuildEnds(ins, lvl, e);
    } else {
      var i := IndexOf(ins, lvl[0]);
      var llvl, rlvl := Fill(lvl[1..], ins[..i]), Fill(lvl[1..], ins[i + 1..]);
      RebuildStep(ins, lvl, d, llvl, rlvl);
      RebuildStep(ins, lvl, e, llvl, rlvl);
      if |llvl| <= |ins| && |rlvl| <= |ins| {
        MoreStack(ins, llvl, d - 1, e - 1);
        if Rebuild(ins, llvl, d - 1).Built? {
          MoreStack(ins, rlvl, d - 1, e - 1);
        }
      }
    }
  }

  // ----- distinct labels

  lemma {:induction false} TimesDistinct(x: int, p: seq<int>)
    requires Distinct(p)
    ensures Times(x, p) == if x in p then 1 else 0
  {
    if p == [] {
    } else {
      var q, y := p[..|p| - 1], p[|p| - 1];
      assert p == q + [y];
      TimesDistinct(x, q);
    }
  }

  /** With distinct labels a fill is a filter. */
  lemma {:induction false} FillIsKeep(s: seq<int>, p: seq<int>)
    requires Distinct(p)
    ensures Fill(s, p) == Keep(s, p)
  {
    if s == [] {
    } else {
      var t, x := s[..|s| - 1], s[|s| - 1];
      assert s == t + [x];
      FillIsKeep(t, p);
      TimesDistinct(x, p);
      KeepConcat(t, [x], p);
      KeepStep(x, [], p);
      assert [x] + [] == [x];
    }
  }

  lemma KeepInside(t: seq<int>, p: seq<int>, ins: seq<int>)
    requires Inside(t, ins)
    ensures Inside(Keep(t, p), ins)
  {
  }

  lemma BuildStep(ins: seq<int>, lvl: seq<int>, i: nat, llvl: seq<int>, rlvl: seq<int>)
    requires Inside(lvl, ins) && lvl != [] && lvl[0] in ins && i == IndexOf(ins, lvl[0]) && i < |ins|
    requires llvl == Keep(lvl[1..], ins[..i]) && rlvl == Keep(lvl[1..], ins[i + 1..])
    requires Inside(llvl, ins) && Inside(rlvl, ins)
    ensures Build(ins, lvl) == Node(Build(ins, llvl), lvl[0], Build(ins, rlvl))
  {
    hide Inside, Keep;
  }

  lemma BuildEmpty(ins: seq<int>)
    ensures Inside([], ins) && Build(ins, []) == Leaf
  {
  }

  lemma DistinctSlices(s: seq<int>, i: nat)
    requires Distinct(s) && i < |s|
    ensures Distinct(s[..i]) && Distinct(s[i + 1..])
  {
  }

  /** With distinct labels one call fills what the rebuild on values filters. */
  lemma DistinctFills(ins: seq<int>, lvl: seq<int>) returns (llvl: seq<int>, rlvl: seq<int>)
    requires Distinct(ins) && Inside(lvl, ins) && lvl != []
    ensures Fills(ins, lvl, llvl, rlvl) && Inside(llvl, ins) && Inside(rlvl, ins)
    ensures |llvl| < |lvl| && |rlvl| < |lvl|
    ensures Build(ins, lvl) == Node(Build(ins, llvl), lvl[0], Build(ins, rlvl))
  {
    hide Build, Distinct;
    var h, t := HeadAndTail(lvl);
    var i := IndexOf(ins, h);
    DistinctSlices(ins, i);
    FillIsKeep(t, ins[..i]);
    FillIsKeep(t, ins[i + 1..]);
    llvl, rlvl := Keep(t, ins[..i]), Keep(t, ins[i + 1..]);
    KeepInside(t, ins[..i], ins);
    KeepInside(t, ins[i + 1..], ins);
    BuildStep(ins, lvl, i, llvl, rlvl);
  }

  /** Distinct labels are enough: every fill stays inside its array, every root is found, and
      one frame per label and one more suffice. */
  lemma {:induction false} DistinctBuilds(ins: seq<int>, lvl: seq<int>, depth: nat)
    requires Distinct(ins) && Inside(lvl, ins) && |lvl| <= |ins| && depth > |lvl|
    ensures Rebuild(ins, lvl, depth) == Built(Build(ins, lvl))
    decreases |lvl|
  {
    hide Rebuild, Fills, Build, Distinct;
    if lvl == [] {
      RebuildEnds(ins, lvl, depth);
      BuildEmpty(ins);
    } else {
      var llvl, rlvl := DistinctFills(ins, lvl);
      RebuildStep(ins, lvl, depth, llvl, rlvl);
      DistinctBuilds(ins, llvl, depth - 1);
      DistinctBuilds(ins, rlvl, depth - 1);
    }
  }

  // ----- repeated labels

  lemma TimesTwo(x: int, a: int, b: int)
    ensures Times(x, []) == 0 && Times(x, [a]) == (if a == x then 1 else 0)
    ensures Times(x, [a, b]) == (if a == x then 1 else 0) + if b == x then 1 else 0
  {
    assert [a, b][..1] == [a] && [a][..0] == [];
  }

  lemma FillOne(x: int, p: seq<int>)
    ensures Fill([x], p) == Copies(x, Times(x, p))
  {
    assert [x][..0] == [];
  }

  /** Same length and same elements, and the left fill of the first call writes four elements into
      an array of three. */
  lemma OverrunExample(depth: nat)
    requires depth > 0
    ensures var ins, lvl := [1, 1, 2], [2, 1, 1];
            && |ins| == |lvl| && Inside(ins, lvl)
            && |Fill(lvl[1..], ins[..IndexOf(ins, 2)])| == 4 && Rebuild(ins, lvl, depth) == Failed(Overrun)
  {
    var ins, lvl := [1, 1, 2], [2, 1, 1];
    FirstPlace(ins, 2, 2);
    assert ins[..2] == [1, 1] && lvl[1..] == [1] + [1];
    TimesTwo(1, 1, 1);
    FillOne(1, [1, 1]);
    FillConcat([1], [1], [1, 1]);
  }

  lemma FillOnes()
    ensures Fill([1], [1, 1]) == [1, 1] && Fill([1, 2], [1, 1]) == [1, 1] && Fill([1], []) == [] && Fill([1, 2], []) == []
  {
    assert [1] + [2] == [1, 2];
    TimesTwo(1, 1, 1);
    TimesTwo(2, 1, 1);
    FillOne(1, []);
    FillOne(2, []);
    FillOne(1, [1, 1]);
    FillOne(2, [1, 1]);
    FillConcat([1], [2], []);
    FillConcat([1], [2], [1, 1]);
  }

  lemma EndlessFills()
    ensures Fills([1, 1, 1], [1, 1, 2], [], [1, 1]) && Fills([1, 1, 1], [1, 1], [], [1, 1])
  {
    hide Fill, Times;
    var ins := [1, 1, 1];
    FirstPlace(ins, 1, 0);
    assert ins[..0] == [] && ins[1..] == [1, 1] && [1, 1, 2][1..] == [1, 2] && [1, 1][1..] == [1];
    FillOnes();
  }

  /** Same length and same elements, and the second call repeats its own arguments for ever. */
  lemma EndlessExample(depth: nat)
    ensures var ins, lvl := [1, 1, 1], [1, 1, 2];
            |ins| == |lvl| && Inside(ins, lvl) && Rebuild(ins, lvl, depth) == Failed(StackOut)
  {
    hide Rebuild, Fills;
    NoStack([1, 1, 1], [1, 1, 2]);
    EndlessFills();
    if depth > 0 {
      RebuildStep([1, 1, 1], [1, 1, 2], depth, [], [1, 1]);
      LeafOrNothing([1, 1, 1], depth - 1);
      EndlessPair(depth - 1);
    }
  }

  lemma LeafOrNothing(ins: seq<int>, depth: nat)
    ensures Rebuild(ins, [], depth) == if depth == 0 then Failed(StackOut) else Built(Leaf)
  {
  }

  lemma {:induction false} EndlessPair(depth: nat)
    ensures Rebuild([1, 1, 1], [1, 1], depth) == Failed(StackOut)
  {
    hide Rebuild, Fills;
    NoStack([1, 1, 1], [1, 1]);
    EndlessFills();
    if depth == 0 {
    } else {
      RebuildStep([1, 1, 1], [1, 1], depth, [], [1, 1]);
      LeafOrNothing([1, 1, 1], depth - 1);
      EndlessPair(depth - 1);
    }
  }

  /** Same length and same elements, and the first root is not found. */
  lemma NoRootExample(depth: nat)
    requires depth > 0
    ensures var ins, lvl := [1, 1], [2, 1];
            |ins| == |lvl| && Inside(ins, lvl) && Rebuild(ins, lvl, depth) == Failed(NoRoot)
  {
  }

  lemma RepeatedFills()
    ensures Fills([1, 1], [1, 1], [], [1]) && Fills([1, 1], [1], [], [])
  {
    hide Fill, Times;
    FirstPlace([1, 1], 1, 0);
    assert [1, 1][..0] == [] && [1, 1][1..] == [1] && [1][1..] == [];
    FillSingle();
  }

  lemma FillSingle()
    ensures Fill([1], []) == [] && Fill([1], [1]) == [1] && forall p :: Fill([], p) == []
  {
    TimesTwo(1, 1, 1);
    FillOne(1, []);
    FillOne(1, [1]);
  }

  /** A repeated label that does no harm. */
  lemma RepeatedBuilds()
    ensures Rebuild([1, 1], [1, 1], 3) == Built(Node(Leaf, 1, Node(Leaf, 1, Leaf)))
  {
    hide Rebuild, Fills;
    var ins := [1, 1];
    RepeatedFills();
    RebuildStep(ins, [1, 1], 3, [], [1]);
    RebuildStep(ins, [1], 2, [], []);
    RebuildEnds(ins, [], 2);
    RebuildEnds(ins, [], 1);
  }

  lemma {:induction false} FirstPlace(s: seq<int>, x: int, k: nat)
    requires k < |s| && s[k] == x && x !in s[..k]
    ensures x in s && IndexOf(s, x) == k
  {
    if k == 0 {
    } else {
      assert s[..k][0] == s[0] && s[1..][..k - 1] == s[..k][1..];
      FirstPlace(s[1..], x, k - 1);
    }
  }
}
