/** The number of cycles with n nodes of an undirected graph. A cycle is a set of edges; the
    backtracking finds it as two node sequences, which start at its least node. */
module Cycles {
  import opened Pigeonhole
  import opened Graph
  import opened CycleCount

  /** c lists n different nodes along edges, and an edge closes it. */
  ghost predicate IsCycle(g: Matrix, n: nat, c: seq<nat>) {
    && |c| == n && n > 0 && Distinct(c)
    && (forall j | 0 <= j < n :: c[j] < |g|)
    && (forall j | 0 < j < n :: Edge(g, c[j - 1], c[j]))
    && Edge(g, c[n - 1], c[0])
  }

  ghost predicate LeastFirst(c: seq<nat>) {
    c != [] && forall j | 0 < j < |c| :: c[0] < c[j]
  }

  /** The edges of the closed sequence c. */
  ghost function EdgeSet(c: seq<nat>): set<set<nat>> {
    set i | 0 <= i < |c| :: {c[i], c[Next(i, |c|)]}
  }

  function Next(i: nat, n: nat): (r: nat)
    requires i < n
    ensures r < n
  {
    if i + 1 == n then 0 else i + 1
  }

  /** E is the edge set of a cycle with n nodes. */
  ghost predicate IsCycleGraph(g: Matrix, n: nat, E: set<set<nat>>) {
    exists c :: IsCycle(g, n, c) && EdgeSet(c) == E
  }

  // ----- all sequences found by the search

  ghost function VisitedBelow(n: nat, m: nat): (v: seq<bool>)
    ensures |v| == n && forall j | 0 <= j < n :: v[j] <==> j < m
  {
    seq(n, j => j < m)
  }

  ghost function Total(g: Matrix, n: nat, m: nat): nat
    requires n > 0
  {
    if m == 0 then 0
    else Total(g, n, m - 1) + PathCount(g, m - 1, m - 1, VisitedBelow(|g|, m - 1), n - 1, |g|)
  }

  lemma PathIsCycle(g: Matrix, n: nat, i: nat, q: seq<nat>)
    requires n > 0 && i < |g|
    ensures IsPath(g, i, i, VisitedBelow(|g|, i), n - 1, q) <==> IsCycle(g, n, q) && LeastFirst(q) && q[0] == i
  {
  }

  lemma {:induction false} CyclesFrom(g: Matrix, n: nat, m: nat) returns (S: set<seq<nat>>)
    requires n > 0 && m <= |g|
    ensures |S| == Total(g, n, m)
    ensures forall c :: c in S <==> IsCycle(g, n, c) && LeastFirst(c) && c[0] < m
  {
    hide IsPath;
    if m == 0 {
      S := {};
    } else {
      var R := CyclesFrom(g, n, m - 1);
      var T := PathSet(g, m - 1, m - 1, VisitedBelow(|g|, m - 1), n - 1, |g|);
      forall c ensures c in T <==> IsCycle(g, n, c) && LeastFirst(c) && c[0] == m - 1 {
        PathIsCycle(g, n, m - 1, c);
      }
      assert R !! T;
      S := R + T;
    }
  }

  /** n different nodes, the first the least, leave room for n - 1 larger ones. */
  lemma FirstBound(g: Matrix, n: nat, c: seq<nat>)
    requires IsCycle(g, n, c) && LeastFirst(c)
    ensures c[0] + n <= |g|
  {
    var d: seq<nat> := seq(n, j requires 0 <= j < n => if j == 0 then 0 else c[j] - c[0]);
    forall a, b | 0 <= a < b < n ensures d[a] != d[b] {
      assert c[a] != c[b];
    }
    DistinctBounded(d, |g| - c[0]);
  }

  // ----- reversal pairs them up

  ghost function Reversed(c: seq<nat>): (r: seq<nat>)
    ensures |r| == |c|
    ensures forall j | 0 < j < |c| :: r[j] == c[|c| - j]
    ensures c != [] ==> r[0] == c[0]
  {
    seq(|c|, j requires 0 <= j < |c| => if j == 0 then c[0] else c[|c| - j])
  }

  lemma ReversedTwice(c: seq<nat>)
    ensures Reversed(Reversed(c)) == c
  {
  }

  lemma ReversedCycle(g: Matrix, n: nat, c: seq<nat>)
    requires Symmetric(g) && IsCycle(g, n, c)
    ensures IsCycle(g, n, Reversed(c)) && (LeastFirst(c) ==> LeastFirst(Reversed(c)))
  {
    var r := Reversed(c);
    forall a, b | 0 <= a < b < n ensures r[a] != r[b] {
      if a == 0 { assert c[0] != c[n - b]; } else { assert c[n - b] != c[n - a]; }
    }
    forall j | 0 < j < n ensures Edge(g, r[j - 1], r[j]) {
      if j == 1 {
        assert Edge(g, c[n - 1], c[0]);
      } else {
        assert Edge(g, c[n - j], c[n - j + 1]);
      }
    }
    if n > 1 { assert Edge(g, c[0], c[1]); }
  }

  lemma {:induction false} ReversedImage(S: set<seq<nat>>) returns (R: set<seq<nat>>)
    ensures |R| == |S|
    ensures forall c :: c in R <==> Reversed(c) in S
    decreases |S|
  {
    if S == {} {
      R := {};
    } else {
      var c :| c in S;
      var T := ReversedImage(S - {c});
      ReversedTwice(c);
      assert Reversed(c) !in T;
      R := T + {Reversed(c)};
      forall d ensures d in R <==> Reversed(d) in S {
        ReversedTwice(d);
      }
    }
  }

  /** Of the two directions, the one whose second node is the smaller neighbour of the first. */
  ghost predicate Forward(c: seq<nat>) {
    |c| >= 3 && c[1] < c[|c| - 1]
  }

  /** The sequences found are an even number: half of them run forward. */
  lemma Halve(g: Matrix, n: nat, S: set<seq<nat>>) returns (A: set<seq<nat>>)
    requires Symmetric(g) && n >= 3
    requires forall c :: c in S <==> IsCycle(g, n, c) && LeastFirst(c)
    ensures forall c :: c in A <==> IsCycle(g, n, c) && LeastFirst(c) && Forward(c)
    ensures |S| == 2 * |A|
  {
    forall c {:trigger Reversed(c)} | c in S
      ensures Reversed(c) in S && (Forward(Reversed(c)) <==> !Forward(c))
    {
      ReversedCycle(g, n, c);
      assert c[1] != c[n - 1];
    }
    A := HalveSet(S);
  }

  lemma HalveSet(S: set<seq<nat>>) returns (A: set<seq<nat>>)
    requires forall c {:trigger Reversed(c)} | c in S :: Reversed(c) in S && (Forward(Reversed(c)) <==> !Forward(c))
    ensures forall c :: c in A <==> c in S && Forward(c)
    ensures |S| == 2 * |A|
  {
    hide Forward, Reversed;
    A := set c | c in S && Forward(c);
    var B := ReversedImage(A);
    forall c ensures c in S <==> c in A || c in B {
      ReversedTwice(c);
      if c in B { assert Reversed(c) in S; }
    }
    forall c ensures !(c in A && c in B) {
      var r := Reversed(c);
    }
    assert S == A + B && A !! B;
  }

  // ----- every cycle has exactly one forward sequence

  ghost predicate HasEdge(c: seq<nat>, i: nat, e: set<nat>) {
    i < |c| && e == {c[i], c[Next(i, |c|)]}
  }

  lemma EdgeSetMember(c: seq<nat>, e: set<nat>)
    ensures e in EdgeSet(c) <==> exists i: nat :: HasEdge(c, i, e)
  {
    if e in EdgeSet(c) {
      var i :| 0 <= i < |c| && e == {c[i], c[Next(i, |c|)]};
      assert HasEdge(c, i, e);
    }
  }

  lemma SameEdges(c: seq<nat>, d: seq<nat>, f: nat -> nat, h: nat -> nat)
    requires forall i: nat, e | HasEdge(c, i, e) :: HasEdge(d, f(i), e)
    requires forall i: nat, e | HasEdge(d, i, e) :: HasEdge(c, h(i), e)
    ensures EdgeSet(c) == EdgeSet(d)
  {
    forall e ensures e in EdgeSet(c) <==> e in EdgeSet(d) {
      EdgeSetMember(c, e);
      EdgeSetMember(d, e);
    }
  }

  lemma ReversedEdges(c: seq<nat>)
    ensures EdgeSet(Reversed(c)) == EdgeSet(c)
  {
    var n := |c|;
    var f: nat -> nat := i => if i < n then n - 1 - i else i;
    SameEdges(c, Reversed(c), f, f);
  }

  function Rotated(c: seq<nat>): (r: seq<nat>) {
    if c == [] then [] else c[1..] + [c[0]]
  }

  lemma RotatedCycle(g: Matrix, n: nat, c: seq<nat>)
    requires IsCycle(g, n, c)
    ensures IsCycle(g, n, Rotated(c)) && EdgeSet(Rotated(c)) == EdgeSet(c)
  {
    var r := Rotated(c);
    forall j | 0 < j < n ensures Edge(g, r[j - 1], r[j]) {
      if j < n - 1 { assert Edge(g, c[j], c[j + 1]); }
    }
    if n > 1 { assert Edge(g, c[0], c[1]); }
    var f: nat -> nat := i => if i == 0 then (if n > 0 then n - 1 else 0) else i - 1;
    var h: nat -> nat := i => if i + 1 == n then 0 else i + 1;
    SameEdges(c, r, f, h);
  }

  lemma LeastIndex(c: seq<nat>) returns (m: nat)
    requires c != [] && Distinct(c)
    ensures m < |c| && forall j | 0 <= j < |c| && j != m :: c[m] < c[j]
  {
    m := 0;
    for i := 1 to |c|
      invariant m < i && forall j | 0 <= j < i && j != m :: c[m] < c[j]
    {
      assert c[m] != c[i];
      if c[i] < c[m] { m := i; }
    }
  }

  lemma {:induction false} RotateLeast(g: Matrix, n: nat, c: seq<nat>, m: nat) returns (d: seq<nat>)
    requires IsCycle(g, n, c) && m < n && forall j | 0 <= j < n && j != m :: c[m] < c[j]
    ensures IsCycle(g, n, d) && LeastFirst(d) && EdgeSet(d) == EdgeSet(c)
    decreases m
  {
    if m == 0 {
      d := c;
    } else {
      RotatedCycle(g, n, c);
      d := RotateLeast(g, n, Rotated(c), m - 1);
    }
  }

  lemma ForwardOf(g: Matrix, n: nat, c: seq<nat>) returns (d: seq<nat>)
    requires Symmetric(g) && n >= 3 && IsCycle(g, n, c)
    ensures IsCycle(g, n, d) && LeastFirst(d) && Forward(d) && EdgeSet(d) == EdgeSet(c)
  {
    var m := LeastIndex(c);
    d := RotateLeast(g, n, c, m);
    assert d[1] != d[n - 1];
    if !Forward(d) {
      ReversedCycle(g, n, d);
      ReversedEdges(d);
      d := Reversed(d);
    }
  }

  /** A node y next to c[i] on the cycle is its successor or predecessor. */
  lemma Neighbour(c: seq<nat>, i: nat, y: nat)
    requires Distinct(c) && i < |c| && {c[i], y} in EdgeSet(c) && y != c[i]
    ensures y == c[Next(i, |c|)] || y == c[if i == 0 then |c| - 1 else i - 1]
  {
    EdgeSetMember(c, {c[i], y});
    var k: nat :| HasEdge(c, k, {c[i], y});
    var a, b := c[k], c[Next(k, |c|)];
    assert a in {c[i], y} && b in {c[i], y};
    assert c[i] in {a, b} && y in {a, b};
    if a == c[i] {
      assert k == i;
    } else {
      assert b == c[i];
      assert Next(k, |c|) == i;
    }
  }

  lemma EdgeIn(c: seq<nat>, i: nat)
    requires i < |c|
    ensures {c[i], c[Next(i, |c|)]} in EdgeSet(c)
  {
  }

  /** Two forward sequences with the same edges are the same. */
  lemma ForwardUnique(g: Matrix, n: nat, c: seq<nat>, d: seq<nat>)
    requires n >= 3 && IsCycle(g, n, c) && LeastFirst(c) && Forward(c)
    requires IsCycle(g, n, d) && LeastFirst(d) && Forward(d) && EdgeSet(c) == EdgeSet(d)
    ensures c == d
  {
    SameFirst(c, d);
    SameFirst(d, c);
    FirstNeighbours(c, d, n);
    FirstNeighbours(d, c, n);
    assert c[1] == d[1];
    var k := 1;
    while k + 1 < n
      invariant 1 <= k < n && c[..k + 1] == d[..k + 1]
    {
      EdgeIn(c, k);
      assert c[k] == c[..k + 1][k] == d[k] && c[k - 1] == c[..k + 1][k - 1] == d[k - 1];
      Neighbour(d, k, c[k + 1]);
      assert c[k + 1] != c[k - 1];
      k := k + 1;
    }
  }

  lemma NodeIn(c: seq<nat>, d: seq<nat>, i: nat) returns (j: nat)
    requires i < |c| && EdgeSet(c) == EdgeSet(d)
    ensures j < |d| && d[j] == c[i]
  {
    EdgeIn(c, i);
    EdgeSetMember(d, {c[i], c[Next(i, |c|)]});
    var k: nat :| HasEdge(d, k, {c[i], c[Next(i, |c|)]});
    assert c[i] in {d[k], d[Next(k, |d|)]};
    j := if d[k] == c[i] then k else Next(k, |d|);
  }

  lemma SameFirst(c: seq<nat>, d: seq<nat>)
    requires LeastFirst(c) && LeastFirst(d) && EdgeSet(c) == EdgeSet(d)
    ensures d[0] <= c[0]
  {
    var j := NodeIn(c, d, 0);
  }

  lemma FirstNeighbours(c: seq<nat>, d: seq<nat>, n: nat)
    requires |c| == |d| == n >= 3 && Distinct(c) && Distinct(d) && c[0] == d[0] && EdgeSet(c) == EdgeSet(d)
    ensures c[1] == d[1] || c[1] == d[n - 1]
    ensures c[n - 1] == d[1] || c[n - 1] == d[n - 1]
  {
    EdgeIn(c, 0);
    Neighbour(d, 0, c[1]);
    EdgeIn(c, n - 1);
    assert {c[n - 1], c[0]} == {d[0], c[n - 1]};
    Neighbour(d, 0, c[n - 1]);
  }

  // ----- the count

  lemma {:induction false} GraphsOf(g: Matrix, n: nat, A: set<seq<nat>>) returns (F: set<set<set<nat>>>)
    requires n >= 3 && forall c | c in A :: IsCycle(g, n, c) && LeastFirst(c) && Forward(c)
    ensures |F| == |A|
    ensures forall E :: E in F <==> exists c :: c in A && EdgeSet(c) == E
    decreases |A|
  {
    if A == {} {
      F := {};
    } else {
      var c :| c in A;
      var G := GraphsOf(g, n, A - {c});
      if EdgeSet(c) in G {
        var d :| d in A - {c} && EdgeSet(d) == EdgeSet(c);
        ForwardUnique(g, n, c, d);
      }
      F := G + {EdgeSet(c)};
    }
  }

  /** F is the set of the cycles with n nodes. */
  ghost predicate AllCycles(g: Matrix, n: nat, F: set<set<set<nat>>>) {
    forall E :: E in F <==> IsCycleGraph(g, n, E)
  }

  /** Half of the sequences found is the number of cycles. */
  lemma CountCycles(g: Matrix, n: nat, m: nat) returns (F: set<set<set<nat>>>)
    requires Symmetric(g) && n >= 3 && m == if n <= |g| then |g| - (n - 1) else 0
    ensures AllCycles(g, n, F) && Total(g, n, m) == 2 * |F|
  {
    var S := CyclesFrom(g, n, m);
    forall c | IsCycle(g, n, c) && LeastFirst(c) ensures c[0] < m { FirstBound(g, n, c); }
    var A := Halve(g, n, S);
    F := GraphsOf(g, n, A);
    forall E | IsCycleGraph(g, n, E) ensures E in F {
      var c :| IsCycle(g, n, c) && EdgeSet(c) == E;
      var d := ForwardOf(g, n, c);
    }
  }

  const INT_BOUND := 0x8000_0000

  /** graph_nlength_cycles: on an undirected graph, the number of cycles with n nodes. The counter only
      grows, so the 32-bit one of the source holds it exactly if its last value fits. */
  method NLengthCycles(graph: GraphData, n: nat) returns (count: nat, fits: bool)
    requires graph.Valid() && Symmetric(graph.mat) && n >= 3
    modifies graph.visited
    ensures exists F :: AllCycles(graph.mat, n, F) && |F| == count
    ensures fits <==> 2 * count < INT_BOUND
  {
    ghost var g := graph.mat;
    forall i | 0 <= i < graph.nodes { graph.visited[i] := false; }
    assert graph.visited[..] == VisitedBelow(|g|, 0);
    var cyclesNo := 0;
    var i := 0;
    while i < graph.nodes - (n - 1)
      invariant 0 <= i && (i <= graph.nodes - (n - 1) || i == 0)
      invariant graph.visited[..] == VisitedBelow(|g|, i) && cyclesNo == Total(g, n, i)
    {
      cyclesNo := CountPaths(graph, i, i, n - 1, cyclesNo);
      graph.visited[i] := true;
      assert graph.visited[..] == VisitedBelow(|g|, i)[i := true] == VisitedBelow(|g|, i + 1);
      i := i + 1;
    }
    ghost var F := CountCycles(g, n, i);
    count, fits := cyclesNo / 2, cyclesNo < INT_BOUND;
  }
}
