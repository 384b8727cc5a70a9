/** Single-source shortest paths with negative weights: in-place relaxation with an early
    exit and INT_MAX for "not reached". */
module BellmanFord {
  import opened Pigeonhole
  import opened Graph

  const INT_MAX: int := 0x7fff_ffff
  type Int32 = x: int | -0x8000_0000 <= x <= 0x7fff_ffff

  /** A closed walk of negative weight that can be reached from s. */
  ghost predicate NegativeCycle(g: Matrix, s: nat, c: seq<nat>) {
    IsWalk(g, c) && |c| > 1 && c[0] == c[|c| - 1] && Weigh(g, c) < 0 && Reachable(g, s, c[0])
  }

  ghost predicate HasNegativeCycle(g: Matrix, s: nat) {
    exists c :: NegativeCycle(g, s, c)
  }

  /** w is the least weight of a walk from s to v. */
  ghost predicate IsMinWeight(g: Matrix, s: nat, v: nat, w: int) {
    && HasWalk(g, s, v, w)
    && forall p | WalkFromTo(g, p, s, v) :: w <= Weigh(g, p)
  }

  ghost predicate HasWalk(g: Matrix, s: nat, v: nat, w: int) {
    exists p :: WalkFromTo(g, p, s, v) && Weigh(g, p) == w
  }

  // ----- what the distances mean during the run

  /** Every finite distance is the weight of a walk. */
  ghost predicate Sound(g: Matrix, s: nat, d: seq<int>) {
    |d| == |g| && forall v | 0 <= v < |d| && d[v] != INT_MAX :: HasWalk(g, s, v, d[v])
  }

  /** No walk of at most r edges is lighter than the distance of its end. */
  ghost predicate Covers(g: Matrix, s: nat, d: seq<int>, r: int) {
    |d| == |g| && forall p | IsWalk(g, p) && p[0] == s && |p| <= r + 1 :: CoversWalk(g, d, p)
  }

  ghost predicate CoversWalk(g: Matrix, d: seq<int>, p: seq<nat>)
    requires IsWalk(g, p)
  {
    var v := p[|p| - 1];
    v < |d| && d[v] != INT_MAX && d[v] <= Weigh(g, p)
  }

  ghost predicate Within(d: seq<int>, b: int) {
    forall v | 0 <= v < |d| :: d[v] == INT_MAX || -b <= d[v] <= b
  }

  /** Edges before (src, dst) in row order have been relaxed since the distances were d0. */
  ghost predicate Relaxed(g: Matrix, d0: seq<int>, d: seq<int>, src: nat, dst: nat)
    requires |d0| == |d| == |g|
  {
    && (forall v | 0 <= v < |d| :: d[v] <= d0[v])
    && forall a: nat, b: nat {:trigger Edge(g, a, b)} | Edge(g, a, b) && a < |g| && b < |g| && (a < src || (a == src && b < dst)) ::
         d0[a] != INT_MAX ==> d[b] != INT_MAX && d[b] <= d0[a] + g[a][b]
  }

  /** No edge can lower a distance. */
  ghost predicate Settled(g: Matrix, d: seq<int>)
    requires |d| == |g|
  {
    forall a: nat, b: nat {:trigger Edge(g, a, b)} | Edge(g, a, b) && a < |g| && b < |g| && d[a] != INT_MAX ::
      d[b] <= d[a] + g[a][b]
  }

  lemma SoundStep(g: Matrix, s: nat, d: seq<int>, a: nat, b: nat)
    requires Square(g) && Sound(g, s, d) && Edge(g, a, b) && a < |d| && b < |d| && d[a] != INT_MAX
    ensures Sound(g, s, d[b := d[a] + g[a][b]])
  {
    var p :| WalkFromTo(g, p, s, a) && Weigh(g, p) == d[a];
    WalkStep(g, p, b);
    assert WalkFromTo(g, p + [b], s, b);
    var d2 := d[b := d[a] + g[a][b]];
    forall v | 0 <= v < |d2| && d2[v] != INT_MAX ensures HasWalk(g, s, v, d2[v]) {
      if v != b { assert HasWalk(g, s, v, d[v]); }
    }
  }

  /** The distances after looking at edge (src, dst). */
  ghost function RelaxOne(g: Matrix, d: seq<int>, src: nat, dst: nat): seq<int>
    requires Square(g) && src < |g| && dst < |g| == |d|
  {
    if Edge(g, src, dst) && d[src] != INT_MAX && d[dst] > d[src] + g[src][dst]
    then d[dst := d[src] + g[src][dst]] else d
  }

  lemma RelaxOneStep(g: Matrix, s: nat, d0: seq<int>, d: seq<int>, src: nat, dst: nat, bound: nat)
    requires Square(g) && src < |g| && dst < |g| == |d| == |d0|
    requires Sound(g, s, d) && Relaxed(g, d0, d, src, dst) && Within(d, bound) && bound + 128 < INT_MAX
    requires forall v | 0 <= v < |d0| :: d0[v] <= INT_MAX
    ensures var d2 := RelaxOne(g, d, src, dst);
            Sound(g, s, d2) && Relaxed(g, d0, d2, src, dst + 1) && Within(d2, bound + 128)
  {
    if Edge(g, src, dst) && d[src] != INT_MAX && d[dst] > d[src] + g[src][dst] {
      SoundStep(g, s, d, src, dst);
    }
  }

  /** One full pass extends the covered walks by one edge, in-place updates notwithstanding. */
  lemma PassCovers(g: Matrix, s: nat, d0: seq<int>, d: seq<int>, r: nat)
    requires Square(g) && Covers(g, s, d0, r) && |d| == |g| && Relaxed(g, d0, d, |g|, 0)
    requires forall v | 0 <= v < |d| :: d0[v] <= INT_MAX
    ensures Covers(g, s, d, r + 1)
  {
    forall p | IsWalk(g, p) && p[0] == s && |p| <= r + 2 ensures CoversWalk(g, d, p) {
      if |p| <= r + 1 {
        assert CoversWalk(g, d0, p);
      } else {
        var q := p[..|p| - 1];
        WalkPrefix(g, p, |p| - 1);
        assert CoversWalk(g, d0, q);
        assert Edge(g, p[|p| - 2], p[|p| - 1]);
      }
    }
  }

  /** Settled distances cover all walks. */
  lemma {:induction false} SettledCovers(g: Matrix, s: nat, d: seq<int>, p: seq<nat>)
    requires Square(g) && |d| == |g| && Settled(g, d) && Covers(g, s, d, 0)
    requires IsWalk(g, p) && p[0] == s
    requires Within(d, INT_MAX - 129)
    ensures CoversWalk(g, d, p)
    decreases |p|
  {
    if |p| <= 1 {
    } else {
      WalkPrefix(g, p, |p| - 1);
      SettledCovers(g, s, d, p[..|p| - 1]);
      assert Edge(g, p[|p| - 2], p[|p| - 1]);
    }
  }

  /** Settled: no reachable negative cycle, and the distances are the minimum weights. */
  lemma SettledCorrect(g: Matrix, s: nat, d: seq<int>)
    requires Square(g) && Sound(g, s, d) && Settled(g, d) && Covers(g, s, d, 0)
    requires Within(d, INT_MAX - 129)
    ensures !HasNegativeCycle(g, s)
    ensures forall v | 0 <= v < |d| :: if d[v] == INT_MAX then !Reachable(g, s, v) else IsMinWeight(g, s, v, d[v])
  {
    forall c | NegativeCycle(g, s, c) ensures false {
      var q0 :| WalkFromTo(g, q0, s, c[0]);
      SettledCovers(g, s, d, q0);
      var q :| WalkFromTo(g, q, s, c[0]) && Weigh(g, q) == d[c[0]];
      WalkJoin(g, q, c);
      SettledCovers(g, s, d, q + c[1..]);
    }
    forall v | 0 <= v < |d|
      ensures if d[v] == INT_MAX then !Reachable(g, s, v) else IsMinWeight(g, s, v, d[v])
    {
      forall p | WalkFromTo(g, p, s, v) ensures d[v] != INT_MAX && d[v] <= Weigh(g, p) {
        SettledCovers(g, s, d, p);
      }
    }
  }

  // ----- cutting cycles out of walks

  /** A walk cut in two at node i: both parts are walks and the weights add up. */
  lemma CutAt(g: Matrix, p: seq<nat>, i: nat)
    requires Square(g) && IsWalk(g, p) && i < |p|
    ensures IsWalk(g, p[..i + 1]) && IsWalk(g, p[i..])
    ensures Weigh(g, p) == Weigh(g, p[..i + 1]) + Weigh(g, p[i..])
  {
    var a, b := p[..i + 1], p[i..];
    assert p == a + b[1..];
    WalkPrefix(g, p, i + 1);
    WalkSuffix(g, p, i);
    WalkJoin(g, a, b);
  }

  /** Cutting p at a repeated node leaves a walk and a closed walk that share the weight. */
  lemma Excise(g: Matrix, p: seq<nat>, i: nat, j: nat) returns (q: seq<nat>, c: seq<nat>)
    requires Square(g) && IsWalk(g, p) && i < j < |p| && p[i] == p[j]
    ensures c == p[i..j + 1] && IsWalk(g, c) && c[0] == c[|c| - 1] == p[i]
    ensures q == p[..i + 1] + p[j + 1..] && IsWalk(g, q) && q[0] == p[0] && q[|q| - 1] == p[|p| - 1]
    ensures Weigh(g, p) == Weigh(g, q) + Weigh(g, c)
  {
    var a, ac, b := p[..i + 1], p[..j + 1], p[j..];
    c, q := p[i..j + 1], p[..i + 1] + p[j + 1..];
    assert ac[..i + 1] == a;
    assert ac[i..] == c;
    assert q == a + b[1..];
    CutAt(g, p, j);
    CutAt(g, ac, i);
    WalkJoin(g, a, b);
  }

  lemma Repeats(g: Matrix, p: seq<nat>) returns (i: nat, j: nat)
    requires Square(g) && IsWalk(g, p) && |p| > |g|
    ensures i < j < |p| && p[i] == p[j]
  {
    forall k | 0 <= k < |p| ensures p[k] < |g| { WalkInside(g, p, k); }
    if Distinct(p) { DistinctBounded(p, |g|); }
    i, j :| 0 <= i < j < |p| && p[i] == p[j];
  }

  /** Without a reachable negative cycle, walks of fewer than n edges are enough. */
  lemma {:induction false} Shorten(g: Matrix, s: nat, p: seq<nat>) returns (q: seq<nat>)
    requires Square(g) && IsWalk(g, p) && p[0] == s && !HasNegativeCycle(g, s)
    ensures IsWalk(g, q) && q[0] == s && q[|q| - 1] == p[|p| - 1] && |q| <= |g| && Weigh(g, q) <= Weigh(g, p)
    decreases |p|
  {
    if |p| <= |g| {
      q := p;
    } else {
      var i, j := Repeats(g, p);
      var r, c := Excise(g, p, i, j);
      WalkPrefix(g, p, i + 1);
      assert WalkFromTo(g, p[..i + 1], s, c[0]);
      assert !NegativeCycle(g, s, c);
      q := Shorten(g, s, r);
    }
  }

  /** Without a reachable negative cycle nothing can be lowered after n - 1 full passes. */
  lemma CoveredIsSettled(g: Matrix, s: nat, d: seq<int>, a: nat, b: nat)
    requires Square(g) && Sound(g, s, d) && Covers(g, s, d, |g| - 1) && !HasNegativeCycle(g, s)
    requires Edge(g, a, b) && a < |d| && b < |d| && d[a] != INT_MAX
    ensures d[b] <= d[a] + g[a][b]
  {
    var p :| WalkFromTo(g, p, s, a) && Weigh(g, p) == d[a];
    WalkStep(g, p, b);
    var q := Shorten(g, s, p + [b]);
    assert CoversWalk(g, d, q);
  }

  /** Every node on a walk from a reachable node is reachable. */
  lemma ReachedFrom(g: Matrix, s: nat, c: seq<nat>, i: nat)
    requires Square(g) && NegativeCycle(g, s, c) && i < |c|
    ensures exists p :: WalkFromTo(g, p, s, c[i])
  {
    var q :| WalkFromTo(g, q, s, c[0]);
    WalkPrefix(g, c, i + 1);
    WalkJoin(g, q, c[..i + 1]);
    assert WalkFromTo(g, q + c[..i + 1][1..], s, c[i]);
  }

  /** A reachable negative closed walk contains a reachable negative cycle without repeated nodes. */
  lemma {:induction false} SimpleNegativeCycle(g: Matrix, s: nat, c: seq<nat>) returns (z: seq<nat>)
    requires Square(g) && NegativeCycle(g, s, c)
    ensures NegativeCycle(g, s, z) && Distinct(z[1..])
    decreases |c|
  {
    if Distinct(c[1..]) {
      z := c;
    } else {
      var i, j :| 0 <= i < j < |c[1..]| && c[1..][i] == c[1..][j];
      var r, k := Excise(g, c, i + 1, j + 1);
      if Weigh(g, k) < 0 {
        ReachedFrom(g, s, c, i + 1);
        z := SimpleNegativeCycle(g, s, k);
      } else {
        z := SimpleNegativeCycle(g, s, r);
      }
    }
  }

  // ----- the algorithm

  /** One pass over all edges. `bound` limits the distances; 50 nodes make at most 2500 steps a pass. */
  method RelaxEdges(graph: GraphData, s: nat, dist: array<Int32>, ghost bound: nat) returns (updated: bool)
    requires graph.Valid() && dist.Length == graph.nodes && bound <= 49 * 2500
    requires Sound(graph.mat, s, dist[..]) && Within(dist[..], 128 * bound)
    modifies dist
    ensures Sound(graph.mat, s, dist[..]) && Within(dist[..], 128 * (bound + 2500))
    ensures Relaxed(graph.mat, old(dist[..]), dist[..], graph.nodes, 0)
    ensures !updated ==> dist[..] == old(dist[..])
  {
    hide Sound;
    var n := graph.nodes;
    ghost var g, d0, steps := graph.mat, dist[..], 0;
    updated := false;
    var src := 0;
    while src < n
      invariant 0 <= src <= n && Sound(g, s, dist[..])
      invariant Relaxed(g, d0, dist[..], src, 0)
      invariant 0 <= steps <= src * 50 && Within(dist[..], 128 * (bound + steps))
      invariant !updated ==> dist[..] == d0
    {
      var dst := 0;
      while dst < n
        invariant 0 <= dst <= n && Sound(g, s, dist[..])
        invariant Relaxed(g, d0, dist[..], src, dst)
        invariant 0 <= steps <= src * 50 + dst && Within(dist[..], 128 * (bound + steps))
        invariant !updated ==> dist[..] == d0
      {
        ghost var d1 := dist[..];
        RelaxOneStep(g, s, d0, d1, src, dst, 128 * (bound + steps));
        if graph.mat[src][dst] != 0 && dist[src] != INT_MAX {
          var sum: Int32 := dist[src] + graph.mat[src][dst];
          if dist[dst] > sum {
            updated := true;
            dist[dst] := sum;
          }
        }
        assert dist[..] == RelaxOne(g, d1, src, dst);
        steps := steps + 1;
        dst := dst + 1;
      }
      src := src + 1;
    }
  }

  /** Looks for an edge that still lowers a distance. */
  method FindUnsettled(graph: GraphData, dist: array<Int32>) returns (found: bool)
    requires graph.Valid() && dist.Length == graph.nodes && Within(dist[..], 128 * 50 * 2500)
    ensures found <==> !Settled(graph.mat, dist[..])
  {
    var n := graph.nodes;
    ghost var g, d := graph.mat, dist[..];
    var src := 0;
    while src < n
      invariant 0 <= src <= n
      invariant NoneLowers(g, d, src, 0)
    {
      var dst := 0;
      while dst < n
        invariant 0 <= dst <= n
        invariant NoneLowers(g, d, src, dst)
      {
        if graph.mat[src][dst] != 0 && dist[src] != INT_MAX {
          assert Edge(g, src, dst);
          var sum: Int32 := dist[src] + graph.mat[src][dst];
          if dist[dst] > sum {
            return true;
          }
        }
        dst := dst + 1;
      }
      src := src + 1;
    }
    return false;
  }

  /** graph_bellman_ford. The distances, which the source prints, are returned. */
  method BellmanFord(graph: GraphData, s: nat) returns (rv: int, hasNegCycle: bool, dist: array<Int32>)
    requires graph.Valid()
    ensures rv == if s >= graph.nodes then -1 else 0
    ensures rv == 0 ==> dist.Length == graph.nodes && (hasNegCycle <==> HasNegativeCycle(graph.mat, s))
    ensures rv == 0 && !hasNegCycle ==>
              forall v | 0 <= v < graph.nodes ::
                if dist[v] == INT_MAX then !Reachable(graph.mat, s, v)
                else IsMinWeight(graph.mat, s, v, dist[v])
  {
    hide Sound, IsMinWeight, Reachable, HasNegativeCycle;
    hasNegCycle := false;
    if s >= graph.nodes {
      dist := new Int32[0];
      return -1, false, dist;
    }
    rv := 0;
    ghost var g := graph.mat;
    dist := new Int32[graph.nodes](i => INT_MAX);
    dist[s] := 0;
    InitialDistances(g, s, dist[..]);

    var relax := 0;
    while relax < graph.nodes - 1
      invariant 0 <= relax <= graph.nodes - 1 && fresh(dist)
      invariant Sound(g, s, dist[..]) && Covers(g, s, dist[..], relax)
      invariant Within(dist[..], 128 * (relax * 2500))
    {
      ghost var d0 := dist[..];
      var updated := RelaxEdges(graph, s, dist, relax * 2500);
      if !updated {
        assert Settled(g, dist[..]);
        break;
      }
      PassCovers(g, s, d0, dist[..], relax);
      relax := relax + 1;
    }
    assert Covers(g, s, dist[..], 0);
    ghost var d := dist[..];
    hasNegCycle := FindUnsettled(graph, dist);
    if hasNegCycle {
      Detected(g, s, d);
    } else {
      SettledCorrect(g, s, d);
    }
  }

  lemma Detected(g: Matrix, s: nat, d: seq<int>)
    requires Square(g) && Sound(g, s, d) && Covers(g, s, d, |g| - 1) && !Settled(g, d)
    ensures HasNegativeCycle(g, s)
  {
    if !HasNegativeCycle(g, s) {
      forall a: nat, b: nat {:trigger Edge(g, a, b)} | Edge(g, a, b) && a < |g| && b < |g| && d[a] != INT_MAX
        ensures d[b] <= d[a] + g[a][b]
      {
        CoveredIsSettled(g, s, d, a, b);
      }
    }
  }

  /** No edge before (src, dst) in row order can lower a distance. */
  ghost predicate NoneLowers(g: Matrix, d: seq<int>, src: nat, dst: nat)
    requires |d| == |g|
  {
    forall a: nat, b: nat {:trigger Edge(g, a, b)}
      | Edge(g, a, b) && a < |g| && b < |g| && d[a] != INT_MAX && (a < src || (a == src && b < dst)) ::
      d[b] <= d[a] + g[a][b]
  }

  lemma InitialDistances(g: Matrix, s: nat, d: seq<int>)
    requires s < |g| == |d| && forall v | 0 <= v < |d| :: d[v] == if v == s then 0 else INT_MAX
    ensures Sound(g, s, d) && Covers(g, s, d, 0) && Within(d, 0)
  {
    assert WalkFromTo(g, [s], s, s) && Weigh(g, [s]) == 0;
  }
}
