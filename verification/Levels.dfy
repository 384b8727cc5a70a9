/** Breadth-first levels: the least number of edges from node 0. */
module Levels {
  import opened Pigeonhole
  import opened Graph
  import opened Queue

  type Char = x: int | -128 <= x <= 127

  /** The nodes within k edges of node 0. */
  ghost function Ball(g: Matrix, k: nat): set<nat> {
    set v | 0 <= v < |g| && InBall(g, k, v)
  }

  ghost predicate InBall(g: Matrix, k: nat, v: nat) {
    exists p :: WalkFromTo(g, p, 0, v) && |p| <= k + 1
  }

  ghost function Neighbours(g: Matrix, S: set<nat>): set<nat> {
    set v | 0 <= v < |g| && HasEdgeFrom(g, S, v)
  }

  ghost predicate HasEdgeFrom(g: Matrix, S: set<nat>, v: nat) {
    exists u: nat :: u in S && Edge(g, u, v)
  }

  /** The next ball adds the neighbours of this one. */
  lemma BallStep(g: Matrix, k: nat)
    requires Square(g)
    ensures Ball(g, k + 1) == Ball(g, k) + Neighbours(g, Ball(g, k))
  {
    forall v: nat | InBall(g, k + 1, v) ensures InBall(g, k, v) || HasEdgeFrom(g, Ball(g, k), v) {
      var p :| WalkFromTo(g, p, 0, v) && |p| <= k + 2;
      if |p| > k + 1 {
        var q := p[..|p| - 1];
        WalkPrefix(g, p, |p| - 1);
        assert Edge(g, p[|p| - 2], p[|p| - 1]);
        assert WalkFromTo(g, q, 0, p[|p| - 2]);
        assert p[|p| - 2] in Ball(g, k);
      }
    }
    forall v: nat | InBall(g, k, v) ensures InBall(g, k + 1, v) { }
    forall v: nat | v < |g| && HasEdgeFrom(g, Ball(g, k), v) ensures InBall(g, k + 1, v) {
      var u: nat :| u in Ball(g, k) && Edge(g, u, v);
      var p :| WalkFromTo(g, p, 0, u) && |p| <= k + 1;
      WalkStep(g, p, v);
      assert WalkFromTo(g, p + [v], 0, v);
    }
  }

  /** Once a ball stops growing it holds everything that can be reached. */
  lemma {:induction false} BallStops(g: Matrix, k: nat, m: nat)
    requires Square(g) && k <= m && Ball(g, k + 1) == Ball(g, k)
    ensures Ball(g, m) == Ball(g, k)
  {
    if k >= m {
    } else {
      BallStops(g, k, m - 1);
      BallStep(g, m - 1);
      BallStep(g, k);
    }
  }

  lemma BallZero(g: Matrix)
    requires |g| > 0
    ensures Ball(g, 0) == {0}
  {
    assert WalkFromTo(g, [0], 0, 0);
  }

  /** d edges lead from node 0 to v, and no fewer. */
  ghost predicate IsLevel(g: Matrix, v: nat, d: int) {
    && (exists p :: WalkFromTo(g, p, 0, v) && |p| - 1 == d)
    && (forall p | WalkFromTo(g, p, 0, v) :: d <= |p| - 1)
  }

  lemma LevelFound(g: Matrix, v: nat, k: nat)
    requires Square(g) && v in Ball(g, k) && NotBelow(g, k, v)
    ensures IsLevel(g, v, k) && Reachable(g, 0, v)
  {
    assert k > 0 ==> !InBall(g, k - 1, v);
    var p :| WalkFromTo(g, p, 0, v) && |p| <= k + 1;
    assert |p| - 1 == k;
  }

  lemma WalkInLastBall(g: Matrix, p: seq<nat>, k: nat)
    requires Square(g) && IsWalk(g, p) && p[0] == 0 && Ball(g, k + 1) == Ball(g, k)
    ensures p[|p| - 1] in Ball(g, k)
  {
    var m, v := |p| - 1, p[|p| - 1];
    WalkInside(g, p, m);
    assert WalkFromTo(g, p, 0, v);
    assert InBall(g, m, v);
    if m <= k {
      assert InBall(g, k, v);
    } else {
      BallStops(g, k, m);
    }
  }

  lemma LevelMissing(g: Matrix, v: nat, k: nat)
    requires Square(g) && |g| > 0 && NotBelow(g, k, v) && Exhausted(g, k)
    ensures !Reachable(g, 0, v)
  {
    forall p | IsWalk(g, p) && p[0] == 0 ensures p[|p| - 1] in Ball(g, k - 1) {
      WalkInLastBall(g, p, k - 1);
    }
  }

  /** v is on no level before k. */
  ghost predicate NotBelow(g: Matrix, k: nat, v: nat) {
    k > 0 ==> v !in Ball(g, k - 1)
  }

  /** Level k is empty. */
  ghost predicate Exhausted(g: Matrix, k: nat) {
    k > 0 && Ball(g, k) == Ball(g, k - 1)
  }

  // ----- the algorithm

  /** The history of the queue lists the visited nodes, each once. */
  ghost predicate Enqueued(visited: seq<bool>, history: seq<nat>) {
    && Distinct(history)
    && (forall i | 0 <= i < |history| :: history[i] < |visited|)
    && (forall v: nat | v < |visited| :: visited[v] <==> v in history)
  }

  lemma RoomLeft(visited: seq<bool>, history: seq<nat>, v: nat)
    requires Enqueued(visited, history) && v < |visited| && !visited[v]
    ensures |history| < |visited|
    ensures Enqueued(visited[v := true], history + [v])
  {
    var h := history + [v];
    assert Distinct(h) by { assert v !in history; }
    DistinctBounded(h, |visited|);
    forall u: nat | u < |visited| ensures visited[v := true][u] <==> u in h {
      if u in history { }
    }
  }

  /** While the nodes of level k in `todo` are still to be expanded: the others of the ball of radius k are. */
  ghost predicate Frontier(g: Matrix, k: nat, visited: seq<bool>, todo: seq<nat>, next: seq<nat>)
  {
    && |visited| == |g|
    && (forall v: nat | v < |visited| :: visited[v] <==> v in Ball(g, k) || HasEdgeFrom(g, Ball(g, k) - Elements(todo), v))
    && (forall v: nat | v < |visited| :: v in next <==> visited[v] && v !in Ball(g, k))
    && (forall v | v in todo :: v in Ball(g, k) && (k > 0 ==> v !in Ball(g, k - 1)))
    && (forall v | v in next :: v < |g|)
  }

  /** Expanding the first node of the level. */
  lemma Expand(g: Matrix, k: nat, vis: seq<bool>, todo: seq<nat>, next: seq<nat>,
               vis2: seq<bool>, next2: seq<nat>)
    requires Square(g) && |g| > 0 && |vis| == |vis2| == |g| && todo != [] && Distinct(todo)
    requires Frontier(g, k, vis, todo, next)
    requires forall v: nat | v < |g| :: vis2[v] <==> vis[v] || Edge(g, todo[0], v)
    requires forall v: nat | v < |g| :: v in next2 <==> v in next || (vis2[v] && !vis[v])
    requires forall v | v in next2 :: v < |g|
    ensures Frontier(g, k, vis2, todo[1..], next2)
  {
    assert todo == [todo[0]] + todo[1..];
    assert todo[0] !in todo[1..];
    var done, done2 := Ball(g, k) - Elements(todo), Ball(g, k) - Elements(todo[1..]);
    assert done2 == done + {todo[0]};
    forall v: nat | v < |g| ensures HasEdgeFrom(g, done2, v) <==> HasEdgeFrom(g, done, v) || Edge(g, todo[0], v) { }
  }

  /** When the level is exhausted the next one is complete. */
  lemma NextLevel(g: Matrix, k: nat, vis: seq<bool>, next: seq<nat>)
    requires Square(g) && |g| > 0 && |vis| == |g| && Frontier(g, k, vis, [], next)
    ensures Frontier(g, k + 1, vis, next, [])
    ensures next == [] ==> Exhausted(g, k + 1)
  {
    assert Ball(g, k) - Elements<nat>([]) == Ball(g, k);
    BallStep(g, k);
    forall v: nat | v < |g| ensures vis[v] <==> v in Ball(g, k + 1) { }
    assert Elements(next) == Ball(g, k + 1) - Ball(g, k);
    assert Ball(g, k + 1) - Elements(next) == Ball(g, k);
  }

  /** After `added` was enqueued and marked: the edges from curr to nodes below i are dealt with. */
  ghost predicate Visiting(g: Matrix, curr: nat, i: nat, vis0: seq<bool>, vis: seq<bool>, added: seq<nat>) {
    && |vis| == |vis0| == |g|
    && (forall v: nat | v < |vis| :: vis[v] <==> vis0[v] || (v < i && Edge(g, curr, v)))
    && (forall v: nat | v < |vis| :: v in added <==> vis[v] && !vis0[v])
    && (forall v | v in added :: v < |vis|)
  }

  lemma VisitOne(g: Matrix, curr: nat, i: nat, vis0: seq<bool>, vis: seq<bool>, added: seq<nat>)
    requires Visiting(g, curr, i, vis0, vis, added) && i < |g|
    ensures Edge(g, curr, i) && !vis[i] ==> Visiting(g, curr, i + 1, vis0, vis[i := true], added + [i])
    ensures !(Edge(g, curr, i) && !vis[i]) ==> Visiting(g, curr, i + 1, vis0, vis, added)
  {
    if Edge(g, curr, i) && !vis[i] {
      var added2 := added + [i];
      forall v: nat | v < |vis| ensures v in added2 <==> v in added || v == i { }
    }
  }

  /** Marks node i and enqueues it; there is always room. */
  method Mark(graph: GraphData, queue: NodeQueue, i: nat) returns (rv: int)
    requires graph.Valid() && queue.Valid() && queue.size == graph.nodes && i < graph.nodes && !graph.visited[i]
    requires Enqueued(graph.visited[..], queue.History())
    modifies graph.visited, queue`t, queue.q
    ensures queue.Valid() && rv == 0
    ensures graph.visited[..] == old(graph.visited[..])[i := true]
    ensures queue.History() == old(queue.History()) + [i]
    ensures Enqueued(graph.visited[..], queue.History())
  {
    RoomLeft(graph.visited[..], queue.History(), i);
    ghost var vis := graph.visited[..];
    graph.visited[i] := true;
    assert graph.visited[..] == vis[i := true];
    rv := queue.Enqueue(i);
    assert graph.visited[..] == vis[i := true];
  }

  /** Marks and enqueues the unvisited neighbours of curr. */
  method VisitNeighbours(graph: GraphData, queue: NodeQueue, curr: nat) returns (rv: int, ghost added: seq<nat>)
    requires graph.Valid() && queue.Valid() && queue.size == graph.nodes && curr < graph.nodes
    requires Enqueued(graph.visited[..], queue.History())
    modifies graph.visited, queue`t, queue.q
    ensures queue.Valid() && rv == 0
    ensures queue.History() == old(queue.History()) + added
    ensures Enqueued(graph.visited[..], queue.History())
    ensures Visiting(graph.mat, curr, graph.nodes, old(graph.visited[..]), graph.visited[..], added)
  {
    hide Enqueued;
    added := [];
    var i := 0;
    while i < graph.nodes
      invariant 0 <= i <= graph.nodes && queue.Valid()
      invariant Enqueued(graph.visited[..], queue.History())
      invariant queue.History() == old(queue.History()) + added
      invariant Visiting(graph.mat, curr, i, old(graph.visited[..]), graph.visited[..], added)
    {
      VisitOne(graph.mat, curr, i, old(graph.visited[..]), graph.visited[..], added);
      if graph.mat[curr][i] != 0 && !graph.visited[i] {
        rv := Mark(graph, queue, i);
        added := added + [i];
        if rv != 0 {
          return -6, added;
        }
      }
      i := i + 1;
    }
    rv := 0;
  }

  /** With part of level k expanded: the queue, from position h of its history, holds the rest of
      the level and the nodes found so far for the next one. */
  ghost predicate Searching(g: Matrix, vis: seq<bool>, history: seq<nat>, h: nat, k: nat, todo: seq<nat>, next: seq<nat>) {
    && Square(g) && |g| > 0 && Enqueued(vis, history)
    && h <= |history| && history[h..] == todo + next
    && Frontier(g, k, vis, todo, next)
  }

  /** Between two rounds: the queue holds exactly level k, and s is on no earlier level. */
  ghost predicate AtLevel(g: Matrix, vis: seq<bool>, history: seq<nat>, h: nat, s: nat, k: nat) {
    && h <= |history| && Searching(g, vis, history, h, k, history[h..], [])
    && k <= h && NotBelow(g, k, s)
    && (s in Ball(g, k) ==> s in history[h..])
    && (h == |history| ==> Exhausted(g, k))
  }

  lemma ExpandHead(g: Matrix, vis: seq<bool>, history: seq<nat>, h: nat, k: nat, todo: seq<nat>, next: seq<nat>,
                   vis2: seq<bool>, added: seq<nat>)
    requires Searching(g, vis, history, h, k, todo, next) && todo != []
    requires Visiting(g, todo[0], |g|, vis, vis2, added) && Enqueued(vis2, history + added)
    ensures Searching(g, vis2, history + added, h + 1, k, todo[1..], next + added)
  {
    assert todo == history[h..][..|todo|];
    Expand(g, k, vis, todo, next, vis2, next + added);
    assert (history + added)[h + 1..] == history[h..][1..] + added == todo[1..] + (next + added);
  }

  lemma LevelDone(g: Matrix, vis: seq<bool>, history: seq<nat>, h: nat, k: nat, s: nat)
    requires h <= |history| && Searching(g, vis, history, h, k, [], history[h..]) && s !in Ball(g, k) && k < h
    ensures AtLevel(g, vis, history, h, s, k + 1)
  {
    NextLevel(g, k, vis, history[h..]);
  }

  lemma LevelStart(g: Matrix, vis: seq<bool>, history: seq<nat>, h: nat, s: nat, k: nat)
    requires AtLevel(g, vis, history, h, s, k)
    ensures k <= h <= |history| && Searching(g, vis, history, h, k, history[h..], [])
    ensures s in Ball(g, k) ==> s in history[h..]
  {
  }

  lemma QueueRest(queue: NodeQueue)
    requires queue.Valid()
    ensures |queue.History()| == queue.t && queue.History()[queue.h..] == queue.Contents()
  {
  }

  lemma SearchQueue(g: Matrix, vis: seq<bool>, history: seq<nat>, h: nat, k: nat, todo: seq<nat>, next: seq<nat>)
    requires Searching(g, vis, history, h, k, todo, next)
    ensures h <= |history| && history[h..] == todo + next
  {
  }

  /** Dequeues the first node of the level; unless it is s, marks and enqueues its neighbours. */
  method ExpandNode(graph: GraphData, queue: NodeQueue, s: nat, ghost k: nat, ghost todo: seq<nat>, ghost next: seq<nat>)
      returns (rv: int, found: bool, ghost added: seq<nat>)
    requires graph.Valid() && queue.Valid() && queue.size == graph.nodes && todo != []
    requires Searching(graph.mat, graph.visited[..], queue.History(), queue.h, k, todo, next)
    modifies graph.visited, queue, queue.q
    ensures rv == 0 && queue.Valid() && found == (s == todo[0]) && todo[0] in Ball(graph.mat, k)
    ensures !found ==> queue.h == old(queue.h) + 1
    ensures !found ==> Searching(graph.mat, graph.visited[..], queue.History(), queue.h, k, todo[1..], next + added)
  {
    ghost var vis, history := graph.visited[..], queue.History();
    assert queue.Contents() == todo + next && todo[0] in todo;
    rv, found, added := 0, false, [];
    var curr := queue.Dequeue();
    if curr == s {
      found := true;
      return;
    }
    rv, added := VisitNeighbours(graph, queue, curr);
    ExpandHead(graph.mat, vis, history, queue.h - 1, k, todo, next, graph.visited[..], added);
    if rv != 0 { rv := -6; }
  }

  /** Expands the nodes of level k, which are in the queue, stopping at s. */
  method ExpandLevel(graph: GraphData, queue: NodeQueue, s: nat, ghost k: nat) returns (rv: int, found: bool)
    requires graph.Valid() && queue.Valid() && queue.size == graph.nodes && queue.h < queue.t
    requires AtLevel(graph.mat, graph.visited[..], queue.History(), queue.h, s, k)
    modifies graph.visited, queue, queue.q
    ensures rv == 0 && queue.Valid()
    ensures found ==> s in Ball(graph.mat, k)
    ensures !found ==> AtLevel(graph.mat, graph.visited[..], queue.History(), queue.h, s, k + 1)
    ensures !found ==> queue.h > old(queue.h)
  {
    hide Ball, AtLevel, Searching, NotBelow, NodeQueue.Contents, NodeQueue.History;
    LevelStart(graph.mat, graph.visited[..], queue.History(), queue.h, s, k);
    QueueRest(queue);
    ghost var todo, next, added := queue.Contents(), [], [];
    var qSize := queue.Size();
    rv, found := 0, false;
    while qSize > 0
      invariant rv == 0 && !found && queue.Valid() && qSize == |todo| && k + 1 <= queue.h + |todo| && old(queue.h) < queue.h + |todo|
      invariant Searching(graph.mat, graph.visited[..], queue.History(), queue.h, k, todo, next)
      invariant s in Ball(graph.mat, k) ==> s in todo
    {
      assert |todo| > 0 && todo == [todo[0]] + todo[1..];
      qSize := qSize - 1;
      rv, found, added := ExpandNode(graph, queue, s, k, todo, next);
      if found || rv != 0 {
        return;
      }
      todo, next := todo[1..], next + added;
    }
    QueueRest(queue);
    SearchQueue(graph.mat, graph.visited[..], queue.History(), queue.h, k, todo, next);
    assert todo == [] && [] + next == next && queue.History()[queue.h..] == next;
    LevelDone(graph.mat, graph.visited[..], queue.History(), queue.h, k, s);
  }

  /** Clears the marks and starts from node 0. */
  method Begin(graph: GraphData, queue: NodeQueue, ghost s: nat) returns (rv: int)
    requires graph.Valid() && graph.nodes > 0 && queue.Valid() && queue.size == graph.nodes && queue.t == 0
    modifies graph.visited, queue, queue.q
    ensures rv == 0 && queue.Valid()
    ensures AtLevel(graph.mat, graph.visited[..], queue.History(), queue.h, s, 0)
  {
    forall i | 0 <= i < graph.nodes { graph.visited[i] := false; }
    assert queue.History() == [];
    rv := Mark(graph, queue, 0);
    Start(graph.mat, graph.visited[..], queue.History(), s);
  }

  lemma Start(g: Matrix, vis: seq<bool>, history: seq<nat>, s: nat)
    requires Square(g) && |g| == |vis| > 0 && history == [0] && Enqueued(vis, history)
    requires forall v: nat | v < |vis| :: vis[v] <==> v == 0
    ensures AtLevel(g, vis, history, 0, s, 0)
  {
    assert history[0..] == history;
    assert Elements(history) == {0};
    BallZero(g);
    assert Ball(g, 0) - Elements(history) == {};
  }

  lemma LevelFacts(g: Matrix, vis: seq<bool>, history: seq<nat>, h: nat, s: nat, k: nat)
    requires AtLevel(g, vis, history, h, s, k)
    ensures k <= h <= |history| && NotBelow(g, k, s) && Square(g)
    ensures h == |history| ==> Exhausted(g, k) && s !in Ball(g, k)
  {
  }

  /** The rounds of the search, from level 0 on. */
  method Search(graph: GraphData, queue: NodeQueue, s: nat) returns (rv: int, level: Char)
    requires graph.Valid() && queue.Valid() && queue.size == graph.nodes
    requires AtLevel(graph.mat, graph.visited[..], queue.History(), queue.h, s, 0)
    modifies graph.visited, queue, queue.q
    ensures rv == 0
    ensures level == -1 ==> !Reachable(graph.mat, 0, s)
    ensures level != -1 ==> IsLevel(graph.mat, s, level) && Reachable(graph.mat, 0, s)
  {
    hide Ball, AtLevel, Exhausted, NotBelow, Reachable, IsLevel;
    rv, level := 0, 0;
    var empty := queue.IsEmpty();
    while !empty
      invariant rv == 0 && level >= 0 && queue.Valid()
      invariant AtLevel(graph.mat, graph.visited[..], queue.History(), queue.h, s, level)
      invariant empty <==> queue.h == queue.t
      decreases graph.nodes - queue.h
    {
      LevelFacts(graph.mat, graph.visited[..], queue.History(), queue.h, s, level);
      var found;
      rv, found := ExpandLevel(graph, queue, s, level);
      if found || rv != 0 {
        LevelFound(graph.mat, s, level);
        return rv, level;
      }
      level := level + 1;
      empty := queue.IsEmpty();
    }
    LevelFacts(graph.mat, graph.visited[..], queue.History(), queue.h, s, level);
    LevelMissing(graph.mat, s, level);
    level := -1;
  }

  /** graph_node_level: 0 and the level of s, or -1 when s cannot be reached. On a graph without nodes the
      source marks node 0 outside the empty array of visited nodes; then `inside` is false. */
  method NodeLevel(graph: GraphData, s: nat) returns (inside: bool, rv: int, level: Char)
    requires graph.Valid()
    modifies graph.visited
    ensures inside <==> graph.nodes > 0
    ensures !inside ==> graph.visited[..] == old(graph.visited[..])
    ensures inside ==> rv == 0
    ensures inside ==> if Reachable(graph.mat, 0, s) then IsLevel(graph.mat, s, level) else level == -1
  {
    hide AtLevel, IsLevel, Reachable;
    var queue := new NodeQueue(graph.nodes);
    inside, rv, level := graph.nodes > 0, 0, 0;
    if !inside {
      return;
    }
    rv := Begin(graph, queue, s);
    if rv != 0 { return true, -4, level; }
    rv, level := Search(graph, queue, s);
  }
}
