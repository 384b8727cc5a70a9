/** Counting the cycles of n nodes by backtracking: every cycle is found once in each direction. */
module CycleCount {
  import opened Pigeonhole
  import opened Graph

  /** q continues from curr over unvisited nodes, `len` more of them, and closes to src. */
  ghost predicate IsPath(g: Matrix, src: nat, curr: nat, vis: seq<bool>, len: nat, q: seq<nat>) {
    && |q| == len + 1 && q[0] == curr && Distinct(q)
    && (forall j | 0 <= j < |q| :: q[j] < |vis| && !vis[q[j]])
    && (forall j | 0 < j < |q| :: Edge(g, q[j - 1], q[j]))
    && Edge(g, q[len], src)
  }

  ghost function Extend(x: nat, S: set<seq<nat>>): (r: set<seq<nat>>)
    ensures forall q :: q in r <==> q != [] && q[0] == x && q[1..] in S
  {
    var r := set q | q in S :: [x] + q;
    assert forall q | q in S :: ([x] + q)[1..] == q;
    assert forall q | q != [] && q[0] == x && q[1..] in S :: q == [x] + q[1..];
    r
  }

  lemma {:induction false} ExtendSize(x: nat, S: set<seq<nat>>)
    ensures |Extend(x, S)| == |S|
    decreases |S|
  {
    if S == {} {
      assert Extend(x, S) == {};
    } else {
      var q :| q in S;
      var T := S - {q};
      ExtendSize(x, T);
      var xq := [x] + q;
      assert xq[1..] == q;
      forall p ensures p in Extend(x, S) <==> p in Extend(x, T) + {xq} {
        if p != [] && p[0] == x && p[1..] == q { assert p == xq; }
      }
      assert Extend(x, S) == Extend(x, T) + {xq};
    }
  }

  lemma ExtendPath(g: Matrix, src: nat, curr: nat, vis: seq<bool>, len: nat, q: seq<nat>, i: nat)
    requires curr < |vis| && !vis[curr] && i < |vis| && len > 0 && q != [] && q[0] == curr
    requires i != curr && !vis[i] && Edge(g, curr, i)
    ensures IsPath(g, src, i, vis[curr := true], len - 1, q[1..]) <==>
            IsPath(g, src, curr, vis, len, q) && q[1] == i
  {
    var t, vis2 := q[1..], vis[curr := true];
    if IsPath(g, src, i, vis2, len - 1, t) {
      forall a, b | 0 <= a < b < |q| ensures q[a] != q[b] {
        assert q[b] == t[b - 1];
        if a > 0 { assert q[a] == t[a - 1]; }
      }
      forall j | 0 < j < |q| ensures Edge(g, q[j - 1], q[j]) {
        assert q[j] == t[j - 1];
        if j > 1 { assert q[j - 1] == t[j - 2]; }
      }
      forall j | 0 <= j < |q| ensures q[j] < |vis| && !vis[q[j]] {
        if j > 0 { assert q[j] == t[j - 1]; }
      }
    }
    if IsPath(g, src, curr, vis, len, q) && q[1] == i {
      forall j | 0 <= j < |t| ensures t[j] < |vis2| && !vis2[t[j]] {
        assert t[j] == q[j + 1] != q[0];
      }
      forall j | 0 < j < |t| ensures Edge(g, t[j - 1], t[j]) {
        assert t[j] == q[j + 1] && t[j - 1] == q[j];
      }
    }
  }

  /** The number of paths from curr whose second node is below m. */
  ghost function PathCount(g: Matrix, src: nat, curr: nat, vis: seq<bool>, len: nat, m: nat): nat
    decreases len, m
  {
    if len == 0 then (if Edge(g, curr, src) then 1 else 0)
    else if m == 0 || curr >= |vis| then 0
    else
      PathCount(g, src, curr, vis, len, m - 1)
      + if m - 1 < |vis| && !vis[curr := true][m - 1] && Edge(g, curr, m - 1)
        then PathCount(g, src, m - 1, vis[curr := true], len - 1, |vis|) else 0
  }

  /** The recursive search: restores the marks and adds the number of paths to the counter. */
  method CountPaths(graph: GraphData, src: nat, curr: nat, len: nat, cycles: nat) returns (cyclesNo: nat)
    requires graph.Valid() && src < graph.nodes && curr < graph.nodes && !graph.visited[curr]
    modifies graph.visited
    ensures graph.visited[..] == old(graph.visited[..])
    ensures cyclesNo == cycles + PathCount(graph.mat, src, curr, old(graph.visited[..]), len, graph.nodes)
    decreases len
  {
    ghost var g, vis := graph.mat, graph.visited[..];
    ghost var vis2 := vis[curr := true];
    graph.visited[curr] := true;
    assert graph.visited[..] == vis2;
    cyclesNo := cycles;
    if len == 0 {
      graph.visited[curr] := false;
      assert graph.visited[..] == vis;
      if graph.mat[curr][src] != 0 {
        cyclesNo := cyclesNo + 1;
      }
      return;
    }
    var i := 0;
    while i < graph.nodes
      invariant 0 <= i <= graph.nodes && graph.visited[..] == vis2
      invariant cyclesNo == cycles + PathCount(g, src, curr, vis, len, i)
    {
      if !graph.visited[i] && graph.mat[curr][i] != 0 {
        cyclesNo := CountPaths(graph, src, i, len - 1, cyclesNo);
      }
      i := i + 1;
    }
    graph.visited[curr] := false;
    assert graph.visited[..] == vis;
  }

  /** The paths from curr whose second node is below m, as a set of that size. */
  lemma {:induction false} PathSet(g: Matrix, src: nat, curr: nat, vis: seq<bool>, len: nat, m: nat)
      returns (S: set<seq<nat>>)
    requires curr < |vis| && !vis[curr] && m <= |vis|
    ensures forall q :: q in S <==> IsPath(g, src, curr, vis, len, q) && (len > 0 ==> q[1] < m)
    ensures |S| == PathCount(g, src, curr, vis, len, m)
    decreases len, m
  {
    if len == 0 {
      S := if Edge(g, curr, src) then {[curr]} else {};
      forall q | IsPath(g, src, curr, vis, len, q) ensures q == [curr] { }
    } else if m == 0 {
      S := {};
    } else {
      var i, vis2 := m - 1, vis[curr := true];
      S := PathSet(g, src, curr, vis, len, i);
      if !vis2[i] && Edge(g, curr, i) {
        var T := PathSet(g, src, i, vis2, len - 1, |vis|);
        S := AddBranch(g, src, curr, vis, len, i, S, T);
      } else {
        forall q | IsPath(g, src, curr, vis, len, q) ensures q[1] != i {
          assert Edge(g, q[0], q[1]) && q[0] != q[1];
        }
      }
    }
  }

  lemma AddBranch(g: Matrix, src: nat, curr: nat, vis: seq<bool>, len: nat, i: nat,
                  S: set<seq<nat>>, T: set<seq<nat>>) returns (R: set<seq<nat>>)
    requires curr < |vis| && !vis[curr] && len > 0 && i < |vis| && !vis[curr := true][i] && Edge(g, curr, i)
    requires forall q :: q in S <==> IsPath(g, src, curr, vis, len, q) && q[1] < i
    requires forall q :: q in T <==> IsPath(g, src, i, vis[curr := true], len - 1, q) && (len > 1 ==> q[1] < |vis|)
    ensures forall q :: q in R <==> IsPath(g, src, curr, vis, len, q) && q[1] < i + 1
    ensures |R| == |S| + |T|
  {
    var B := Extend(curr, T);
    ExtendSize(curr, T);
    forall q ensures q in B <==> IsPath(g, src, curr, vis, len, q) && q[1] == i {
      if q != [] && q[0] == curr {
        ExtendPath(g, src, curr, vis, len, q, i);
      }
    }
    assert S !! B;
    R := S + B;
  }
}
