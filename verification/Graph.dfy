/** The adjacency-matrix graph, and walks in it. */
module Graph {

  const GRAPH_MAX_NODES: nat := 50

  /** A matrix entry is a signed 8-bit weight; 0 means no edge. */
  type Weight = w: int | -128 <= w <= 127

  /** Row u, column v: the weight of the edge from u to v. */
  type Matrix = seq<seq<Weight>>

  class GraphData {
    const nodes: nat
    var mat: Matrix
    const visited: array<bool>

    ghost predicate Valid()
      reads this
    {
      nodes <= GRAPH_MAX_NODES && |mat| == nodes && Square(mat) && visited.Length == nodes
    }

    /** graph_create: no edges. */
    constructor (nodes: nat)
      requires nodes <= GRAPH_MAX_NODES
      ensures Valid() && this.nodes == nodes && fresh(visited)
      ensures forall u: nat, v: nat :: !Edge(mat, u, v)
    {
      this.nodes := nodes;
      mat := seq(nodes, u => seq(nodes, v => 0));
      visited := new bool[nodes](i => false);
    }

    method AddDirectedWedge(s: nat, d: nat, w: Weight) returns (rv: int)
      requires Valid()
      modifies this
      ensures Valid()
      ensures s >= nodes || d >= nodes ==> rv == -1 && mat == old(mat)
      ensures s < nodes && d < nodes ==> rv == 0 && mat == SetEntry(old(mat), s, d, w)
    {
      if s >= nodes || d >= nodes {
        return -1;
      }
      mat := SetEntry(mat, s, d, w);
      rv := 0;
    }

    method AddUndirectedWedge(s: nat, d: nat, w: Weight) returns (rv: int)
      requires Valid()
      modifies this
      ensures Valid() && (Symmetric(old(mat)) ==> Symmetric(mat))
      ensures s >= nodes || d >= nodes ==> rv == -1 && mat == old(mat)
      ensures s < nodes && d < nodes ==> rv == 0
      ensures s < nodes && d < nodes ==>
                forall u, v | 0 <= u < nodes && 0 <= v < nodes ::
                  mat[u][v] == if (u == s && v == d) || (u == d && v == s) then w else old(mat)[u][v]
    {
      if s >= nodes || d >= nodes {
        return -1;
      }
      mat := SetEntry(mat, s, d, w);
      mat := SetEntry(mat, d, s, w);
      if Symmetric(old(mat)) { SymmetricEntry(old(mat), mat, s, d, w); }
      rv := 0;
    }
  }

  function SetEntry(g: Matrix, u: nat, v: nat, w: Weight): (r: Matrix)
    requires Square(g) && u < |g| && v < |g|
    ensures |r| == |g| && Square(r)
    ensures forall a, b | 0 <= a < |g| && 0 <= b < |g| :: r[a][b] == if a == u && b == v then w else g[a][b]
  {
    var row: seq<Weight> := g[u][v := w];
    g[u := row]
  }

  ghost predicate Symmetric(g: Matrix) {
    forall u: nat, v: nat :: Edge(g, u, v) <==> Edge(g, v, u)
  }

  ghost predicate Square(g: Matrix) {
    forall u | 0 <= u < |g| :: |g[u]| == |g|
  }

  lemma SymmetricEntry(g: Matrix, h: Matrix, s: nat, d: nat, w: Weight)
    requires Square(g) && Square(h) && |g| == |h| && Symmetric(g)
    requires forall u, v | 0 <= u < |g| && 0 <= v < |g| ::
               h[u][v] == if (u == s && v == d) || (u == d && v == s) then w else g[u][v]
    ensures Symmetric(h)
  {
    forall u: nat, v: nat ensures Edge(h, u, v) <==> Edge(h, v, u) {
      assert Edge(g, u, v) <==> Edge(g, v, u);
    }
  }

  /** There is an edge from u to v. */
  predicate Edge(g: Matrix, u: nat, v: nat) {
    u < |g| && v < |g[u]| && g[u][v] != 0
  }

  /** p is a walk: a non-empty sequence of nodes along edges. */
  ghost predicate IsWalk(g: Matrix, p: seq<nat>) {
    && p != [] && p[0] < |g|
    && forall i | 0 < i < |p| :: Edge(g, p[i - 1], p[i])
  }

  ghost predicate WalkFromTo(g: Matrix, p: seq<nat>, s: nat, v: nat) {
    IsWalk(g, p) && p[0] == s && p[|p| - 1] == v
  }

  /** Sum of the weights along a walk. */
  ghost function Weigh(g: Matrix, p: seq<nat>): int
    requires IsWalk(g, p)
  {
    if |p| == 1 then 0 else assert Edge(g, p[|p| - 2], p[|p| - 1]); Weigh(g, p[..|p| - 1]) + g[p[|p| - 2]][p[|p| - 1]]
  }

  /** v can be reached from s. */
  ghost predicate Reachable(g: Matrix, s: nat, v: nat) {
    exists p :: WalkFromTo(g, p, s, v)
  }

  lemma WalkPrefix(g: Matrix, p: seq<nat>, n: nat)
    requires IsWalk(g, p) && 0 < n <= |p|
    ensures IsWalk(g, p[..n])
  {
  }

  lemma WalkSuffix(g: Matrix, p: seq<nat>, n: nat)
    requires Square(g) && IsWalk(g, p) && n < |p|
    ensures IsWalk(g, p[n..])
  {
    WalkInside(g, p, n);
  }

  lemma WalkInside(g: Matrix, p: seq<nat>, i: nat)
    requires Square(g) && IsWalk(g, p) && i < |p|
    ensures p[i] < |g|
  {
    if i > 0 { assert Edge(g, p[i - 1], p[i]); }
  }

  lemma WalkStep(g: Matrix, p: seq<nat>, v: nat)
    requires IsWalk(g, p) && Edge(g, p[|p| - 1], v)
    ensures IsWalk(g, p + [v]) && Weigh(g, p + [v]) == Weigh(g, p) + g[p[|p| - 1]][v]
  {
    var q := p + [v];
    forall i | 0 < i < |q| ensures Edge(g, q[i - 1], q[i]) {
      if i < |p| { assert Edge(g, p[i - 1], p[i]); }
    }
    assert q[..|q| - 1] == p;
  }

  /** Walks that meet can be joined; their weights add. */
  lemma {:induction false} WalkJoin(g: Matrix, p: seq<nat>, q: seq<nat>)
    requires Square(g) && IsWalk(g, p) && IsWalk(g, q) && p[|p| - 1] == q[0]
    ensures IsWalk(g, p + q[1..]) && Weigh(g, p + q[1..]) == Weigh(g, p) + Weigh(g, q)
    ensures (p + q[1..])[|p| + |q| - 2] == q[|q| - 1]
    decreases |q|
  {
    if |q| == 1 {
      assert p + q[1..] == p;
    } else {
      var q0, v := q[..|q| - 1], q[|q| - 1];
      WalkPrefix(g, q, |q| - 1);
      WalkJoin(g, p, q0);
      var r := p + q0[1..];
      assert r[|r| - 1] == q0[|q0| - 1] == q[|q| - 2];
      assert Edge(g, q[|q| - 2], q[|q| - 1]);
      WalkStep(g, r, v);
      assert p + q[1..] == r + [v];
    }
  }
}
