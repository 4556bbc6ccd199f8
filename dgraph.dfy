/**
 * The DirectedGraph class of d_graph.py: a directed graph with positive
 * integer edge weights, stored as a square adjacency matrix whose cell
 * (i, j) holds the weight of edge i -> j or 0 for "no edge".
 */
module DGraph {
  import opened Wrappers
  import opened Sequences
  import opened DGraphSpec

  /** Index of the least (distance, vertex) pair in the queue: the entry heapq.heappop removes. */
  function MinIndex(pq: seq<(int, int)>): (k: nat)
    requires |pq| > 0
    ensures k < |pq|
    ensures forall i | 0 <= i < |pq| :: PairLeq(pq[k], pq[i])
  {
    if |pq| == 1 then 0
    else
      var j := MinIndex(pq[..|pq| - 1]);
      if PairLeq(pq[j], pq[|pq| - 1]) then j else |pq| - 1
  }

  /** dfs's inner loop: pushes the successors in row (non-zero cells) from the highest index down,
      so that the lowest index ends on top of the stack. */
  method PushDescending(stack: seq<int>, row: seq<int>) returns (stack': seq<int>)
    ensures stack' == stack + SuccsDown(row, 0)
  {
    stack' := stack;
    var i := |row| - 1;
    while i >= 0
      invariant -1 <= i < |row|
      invariant stack' == stack + SuccsDown(row, i + 1)
    {
      if row[i] != 0 {
        stack' := stack' + [i];
      }
      i := i - 1;
    }
  }

  /** bfs's inner loop: enqueues the successors in row (non-zero cells) in ascending index order. */
  method EnqueueAscending(queue: seq<int>, row: seq<int>) returns (queue': seq<int>)
    ensures queue' == queue + SuccsUp(row, |row|)
  {
    queue' := queue;
    var i := 0;
    while i < |row|
      invariant 0 <= i <= |row|
      invariant queue' == queue + SuccsUp(row, i)
    {
      if row[i] != 0 {
        queue' := queue' + [i];
      }
      i := i + 1;
    }
  }

  /** dijkstra's relaxation loop: queues (d + weight, neighbour) for every edge in row, in ascending
      neighbour order. */
  method PushRelaxed(pq: seq<(int, int)>, row: seq<int>, d: int) returns (pq': seq<(int, int)>)
    ensures pq' == pq + Relaxed(row, d, |row|)
  {
    pq' := pq;
    var neighbor := 0;
    while neighbor < |row|
      invariant 0 <= neighbor <= |row|
      invariant pq' == pq + Relaxed(row, d, neighbor)
    {
      if row[neighbor] != 0 {
        pq' := pq' + [(d + row[neighbor], neighbor)];
      }
      neighbor := neighbor + 1;
    }
  }

  /** The constructor's first pass over the edge list: the largest endpoint, and at least 0. */
  method LargestEndpoint(edges: seq<(int, int, int)>) returns (count: nat)
    ensures count == MaxEndpoint(edges)
  {
    count := 0;
    var i := 0;
    while i < |edges|
      invariant 0 <= i <= |edges|
      invariant count == MaxEndpoint(edges[..i])
    {
      assert edges[..i + 1][..i] == edges[..i];
      count := Max3(count, edges[i].0, edges[i].1);
      i := i + 1;
    }
    assert edges[..|edges|] == edges;
  }

  /** dijkstra's result list: infinity (None) for every vertex, overwritten with the settled distance
      of each vertex in the settled map, visited in an arbitrary order. */
  method Distances(settled: map<int, int>, n: nat) returns (res: seq<Option<int>>)
    requires forall v | v in settled :: 0 <= v < n
    ensures |res| == n
    ensures forall v | 0 <= v < n :: res[v] == if v in settled then Some(settled[v]) else None
  {
    res := seq(n, v => None);
    var keys := settled.Keys;
    while keys != {}
      invariant keys <= settled.Keys
      invariant |res| == n
      invariant forall v | 0 <= v < n :: res[v] == if v in settled && v !in keys then Some(settled[v]) else None
      decreases keys
    {
      var vertex := Choose(keys);
      res := res[vertex := Some(settled[vertex])];
      keys := keys - {vertex};
    }
  }

  class DirectedGraph {
    var vCount: nat
    var adjMatrix: Matrix

    /** The class invariant every public operation keeps. */
    ghost predicate Valid()
      reads this
    {
      WellFormed(adjMatrix, vCount)
    }

    /** Without an edge list the graph is empty; with one, it has one vertex more than the largest
        endpoint (so at least one), and each cell holds the weight of the last edge of the list that
        add_edge accepts for it. */
    constructor (startEdges: Option<seq<(int, int, int)>>)
      ensures Valid()
      ensures startEdges.None? ==> vCount == 0
      ensures startEdges.Some? ==> vCount == MaxEndpoint(startEdges.value) + 1
      ensures startEdges.Some? ==>
                forall i, j :: Cell(adjMatrix, i, j) == LastWeight(startEdges.value, vCount, i, j)
    {
      vCount := 0;
      adjMatrix := [];
      new;
      if startEdges.Some? {
        var edges := startEdges.value;
        var count := LargestEndpoint(edges);
        var k := 0;
        while k < count + 1
          modifies this
          invariant 0 <= k <= count + 1
          invariant Valid() && vCount == k
          invariant forall a, b :: Cell(adjMatrix, a, b) == 0
        {
          var c := AddVertex();
          k := k + 1;
        }
        var i := 0;
        while i < |edges|
          modifies this
          invariant 0 <= i <= |edges|
          invariant Valid() && vCount == count + 1
          invariant forall a, b :: Cell(adjMatrix, a, b) == LastWeight(edges[..i], vCount, a, b)
        {
          LastWeightSnoc(edges, i, vCount);
          AddEdge(edges[i].0, edges[i].1, edges[i].2);
          i := i + 1;
        }
        assert edges[..|edges|] == edges;
      }
    }

    /** Appends a vertex with no edges and returns the new vertex count; every existing weight stays. */
    method AddVertex() returns (count: nat)
      requires Valid()
      modifies this
      ensures Valid()
      ensures vCount == old(vCount) + 1 && count == vCount
      ensures forall u, v :: Cell(adjMatrix, u, v) == Cell(old(adjMatrix), u, v)
    {
      ghost var m0 := adjMatrix;
      var n := vCount;
      adjMatrix := adjMatrix + [seq(n + 1, j => 0)];
      var i := 0;
      while i < n
        invariant 0 <= i <= n && |adjMatrix| == n + 1
        invariant forall r | 0 <= r < i :: adjMatrix[r] == m0[r] + [0]
        invariant forall r | i <= r < n :: adjMatrix[r] == m0[r]
        invariant adjMatrix[n] == seq(n + 1, j => 0)
      {
        adjMatrix := adjMatrix[i := adjMatrix[i] + [0]];
        i := i + 1;
      }
      vCount := n + 1;
      count := vCount;
      forall u, v
        ensures Cell(adjMatrix, u, v) == Cell(m0, u, v)
      {
        if 0 <= u < n && 0 <= v < n {
          assert adjMatrix[u][v] == m0[u][v];
        }
      }
    }

    /** Sets the weight of src -> dst when both are vertices, distinct, and the weight is at least 1
        (an existing edge gets the new weight); otherwise nothing changes. */
    method AddEdge(src: int, dst: int, weight: int := 1)
      requires Valid()
      modifies this
      ensures Valid() && vCount == old(vCount)
      ensures forall u, v :: Cell(adjMatrix, u, v) ==
                if Accepted(vCount, src, dst, weight) && u == src && v == dst then weight
                else Cell(old(adjMatrix), u, v)
    {
      if src < 0 || dst < 0 || src > |adjMatrix| - 1 || dst > |adjMatrix| - 1 {
        return;
      }
      if src == dst {
        return;
      }
      if weight < 1 {
        return;
      }
      adjMatrix := adjMatrix[src := adjMatrix[src][dst := weight]];
    }

    /** Clears cell src -> dst when both indices are vertices (an absent edge stays absent);
        otherwise nothing changes. */
    method RemoveEdge(src: int, dst: int)
      requires Valid()
      modifies this
      ensures Valid() && vCount == old(vCount)
      ensures forall u, v :: Cell(adjMatrix, u, v) ==
                if u == src && v == dst then 0 else Cell(old(adjMatrix), u, v)
      ensures forall u, v :: Edge(adjMatrix, u, v) <==> Edge(old(adjMatrix), u, v) && !(u == src && v == dst)
    {
      if src < 0 || dst < 0 || src > |adjMatrix| - 1 || dst > |adjMatrix| - 1 {
        return;
      }
      adjMatrix := adjMatrix[src := adjMatrix[src][dst := 0]];
    }

    /** The vertices 0 .. n-1, each once, in ascending order. */
    function GetVertices(): (r: seq<int>)
      requires Valid()
      reads this
      ensures forall v :: v in r <==> 0 <= v < vCount
      ensures forall i, j | 0 <= i < j < |r| :: r[i] < r[j]
    {
      var r := seq(|adjMatrix|, i => i);
      assert forall v :: v in r <==> 0 <= v < |r| by {
        forall v
          ensures v in r <==> 0 <= v < |r|
        {
          if 0 <= v < |r| {
            assert r[v] == v;
          }
        }
      }
      r
    }

    /** Every edge once as (source, destination, weight), in row-major order. */
    method GetEdges() returns (res: seq<(int, int, int)>)
      requires Valid()
      ensures forall e :: e in res <==> Edge(adjMatrix, e.0, e.1) && e.2 == Cell(adjMatrix, e.0, e.1)
      ensures forall i, j | 0 <= i < j < |res| :: RowMajorBefore(res[i], res[j])
    {
      res := [];
      var i := 0;
      while i < |adjMatrix|
        invariant 0 <= i <= |adjMatrix|
        invariant forall e :: e in res <==> e.0 < i && Edge(adjMatrix, e.0, e.1) && e.2 == Cell(adjMatrix, e.0, e.1)
        invariant forall a, b | 0 <= a < b < |res| :: RowMajorBefore(res[a], res[b])
      {
        var j := 0;
        ghost var res0 := res;
        while j < |adjMatrix[i]|
          invariant 0 <= j <= |adjMatrix[i]|
          invariant forall e :: e in res <==> (e in res0 || (e.0 == i && e.1 < j && Edge(adjMatrix, e.0, e.1) && e.2 == Cell(adjMatrix, e.0, e.1)))
          invariant forall a, b | 0 <= a < b < |res| :: RowMajorBefore(res[a], res[b])
          invariant forall a | 0 <= a < |res| :: res[a].0 < i || (res[a].0 == i && res[a].1 < j)
        {
          if adjMatrix[i][j] != 0 {
            res := res + [(i, j, adjMatrix[i][j])];
          }
          j := j + 1;
        }
        i := i + 1;
      }
    }

    /** Python's reading of one step path[i] -> path[i + 1]: indexing wraps negative indices once
        and raises IndexError (None) beyond that; otherwise whether the cell holds an edge. */
    function PyStep(u: int, v: int): (r: Option<bool>)
      requires Valid()
      reads this
      ensures r.Some? <==> 0 <= u + vCount && u < vCount && 0 <= v + vCount && v < vCount
      ensures 0 <= u < vCount && 0 <= v < vCount ==> r == Some(Edge(adjMatrix, u, v))
    {
      var n := |adjMatrix|;
      if -n <= u < n && -n <= v < n then
        var i := if u < 0 then u + n else u;
        var j := if v < 0 then v + n else v;
        Some(adjMatrix[i][j] != 0)
      else None
    }

    /** The first k steps of path have edges, as Python reads them. */
    predicate StepsHold(path: seq<int>, k: int)
      requires Valid()
      reads this
    {
      forall j | 0 <= j < k && j < |path| - 1 :: PyStep(path[j], path[j + 1]) == Some(true)
    }

    /** Checks the consecutive pairs of path in order: the result is None when Python raises
        IndexError, false at the first pair without an edge, true when every pair has one.
        On a path of vertices of the graph it answers exactly whether the path is a walk. */
    method IsValidPath(path: seq<int>) returns (valid: Option<bool>)
      requires Valid()
      ensures valid == Some(true) <==> forall i | 0 <= i < |path| - 1 :: PyStep(path[i], path[i + 1]) == Some(true)
      ensures valid != Some(true) ==> exists i | 0 <= i < |path| - 1 ::
                StepsHold(path, i) && PyStep(path[i], path[i + 1]) == valid
      ensures (forall v | v in path :: 0 <= v < vCount) ==> valid == Some(|path| == 0 || IsWalk(adjMatrix, path))
    {
      if |path| == 0 {
        return Some(true);
      }
      var i := 0;
      while i < |path| - 1
        invariant 0 <= i <= |path| - 1
        invariant StepsHold(path, i)
      {
        var step := PyStep(path[i], path[i + 1]);
        if step != Some(true) {
          assert path[i] in path && path[i + 1] in path;
          return step;
        }
        i := i + 1;
      }
      assert path[0] in path;
      forall j | 0 <= j < |path| - 1 && (forall v | v in path :: 0 <= v < vCount)
        ensures Edge(adjMatrix, path[j], path[j + 1])
      {
        assert path[j] in path && path[j + 1] in path;
      }
      return Some(true);
    }

    /** Depth-first search from vStart, stopping at vEnd; successors are tried in ascending index
        order, so each next vertex is the least unvisited successor of the last one when it has any. */
    method Dfs(vStart: int, vEnd: Option<int> := None) returns (path: seq<int>)
      requires Valid()
      ensures IsTraversal(adjMatrix, vStart, vEnd, path)
      ensures PicksLeastFresh(adjMatrix, path)
    {
      path := [];
      if vStart < 0 || vStart > |adjMatrix| - 1 {
        return;
      }
      var m, n := adjMatrix, vCount;
      var stack := [vStart];
      var visited: set<int> := {};
      ghost var owner := [-1];
      ghost var stopped := false;
      DfsInit(m, n, vStart, vEnd);
      while |stack| > 0
        invariant !stopped
        invariant DfsInv(m, n, vStart, vEnd, path, visited, stack, owner)
        decreases Vertices(n) - visited, |stack|
      {
        ghost var stack0, owner0 := stack, owner;
        var current := stack[|stack| - 1];
        stack := stack[..|stack| - 1];
        owner := owner[..|owner| - 1];
        if Some(current) == vEnd {
          DfsStop(m, n, vStart, vEnd, path, visited, stack0, owner0);
          path := path + [current];
          stopped := true;
          break;
        }
        if current !in visited {
          DfsVisit(m, n, vStart, vEnd, path, visited, stack0, owner0, stack, owner);
          owner := owner + Repeat(|path|, |SuccsDown(m[current], 0)|);
          stack := PushDescending(stack, m[current]);
          visited := visited + {current};
          path := path + [current];
        } else {
          DfsSkip(m, n, vStart, vEnd, path, visited, stack0, owner0, stack, owner);
        }
      }
      if !stopped {
        TraversalDone(m, n, vStart, vEnd, path, visited);
      }
    }

    /** Breadth-first search from vStart, stopping at vEnd; successors are enqueued in ascending
        index order. */
    method Bfs(vStart: int, vEnd: Option<int> := None) returns (path: seq<int>)
      requires Valid()
      ensures IsTraversal(adjMatrix, vStart, vEnd, path)
      ensures PicksBreadthFirst(adjMatrix, path)
    {
      path := [];
      if vStart < 0 || vStart > |adjMatrix| - 1 {
        return;
      }
      var m, n := adjMatrix, vCount;
      var queue := [vStart];
      var visited: set<int> := {};
      ghost var owner := [-1];
      ghost var stopped := false;
      BfsInit(m, n, vStart, vEnd);
      while |queue| > 0
        invariant !stopped
        invariant BfsInv(m, n, vStart, vEnd, path, visited, queue, owner)
        decreases Vertices(n) - visited, |queue|
      {
        ghost var queue0, owner0 := queue, owner;
        var current := queue[0];
        queue := queue[1..];
        owner := owner[1..];
        if Some(current) == vEnd {
          BfsStop(m, n, vStart, vEnd, path, visited, queue0, owner0);
          path := path + [current];
          stopped := true;
          break;
        }
        if current !in visited {
          BfsVisit(m, n, vStart, vEnd, path, visited, queue0, owner0, queue, owner);
          owner := owner + Repeat(|path|, |SuccsUp(m[current], |m[current]|)|);
          queue := EnqueueAscending(queue, m[current]);
          visited := visited + {current};
          path := path + [current];
        } else {
          BfsSkip(m, n, vStart, vEnd, path, visited, queue0, owner0, queue, owner);
        }
      }
      if !stopped {
        TraversalDone(m, n, vStart, vEnd, path, visited);
      }
    }

    /** True exactly when the graph has a directed cycle. */
    method HasCycle() returns (found: bool)
      requires Valid()
      ensures found <==> DGraphSpec.HasCycle(adjMatrix)
    {
      var unvisited := Vertices(|adjMatrix|);
      var visiting: set<int> := {};
      var visited: set<int> := {};
      ghost var rank: map<int, nat> := map[];
      ghost var clock: nat := 0;
      while |unvisited| > 0
        invariant Partition(vCount, unvisited, visiting, visited)
        invariant visiting == {}
        invariant FinishRanked(adjMatrix, visited, rank, clock)
        decreases unvisited
      {
        var vertex :| vertex in unvisited;
        ghost var before := unvisited;
        unvisited := unvisited - {vertex};
        assert unvisited + {vertex} == before;
        found, unvisited, visiting, visited, rank, clock :=
          HasCycleRec(vertex, unvisited, visiting, visited, [], rank, clock);
        if found {
          return;
        }
      }
      RankedAcyclic(adjMatrix, vCount, rank);
      return false;
    }

    /** Explores the white vertex `vertex` below the grey recursion stack: true only when a cycle
        exists; otherwise `vertex` and everything it reaches end up black, ranked by finishing time. */
    method HasCycleRec(vertex: int, unvisited: set<int>, visiting: set<int>, visited: set<int>,
                       ghost stack: seq<int>, ghost rank: map<int, nat>, ghost clock: nat)
      returns (found: bool, unvisited': set<int>, visiting': set<int>, visited': set<int>,
               ghost rank': map<int, nat>, ghost clock': nat)
      requires Valid()
      requires Partition(vCount, unvisited + {vertex}, visiting, visited) && vertex !in visiting + visited
      requires GreyStack(adjMatrix, visiting, stack)
      requires |stack| > 0 ==> Edge(adjMatrix, stack[|stack| - 1], vertex)
      requires FinishRanked(adjMatrix, visited, rank, clock)
      ensures found ==> DGraphSpec.HasCycle(adjMatrix)
      ensures !found ==> && visiting' == visiting
                         && Partition(vCount, unvisited', visiting, visited')
                         && vertex in visited' && visited <= visited'
                         && unvisited' <= unvisited - {vertex}
                         && FinishRanked(adjMatrix, visited', rank', clock')
      decreases unvisited + {vertex}
    {
      ghost var m := adjMatrix;
      unvisited' := unvisited - {vertex};
      visiting' := visiting + {vertex};
      visited' := visited;
      rank', clock' := rank, clock;
      ghost var stack' := stack + [vertex];
      GreyPush(m, visiting, stack, vertex);
      assert 0 <= stack'[0] < |m| by {
        if |stack| > 0 {
          assert stack[0] in visiting;
        }
      }
      var successor := 0;
      while successor < |adjMatrix[vertex]|
        invariant 0 <= successor <= |m[vertex]|
        invariant Partition(vCount, unvisited', visiting', visited')
        invariant visiting' == visiting + {vertex}
        invariant visited <= visited' && unvisited' <= unvisited - {vertex}
        invariant FinishRanked(m, visited', rank', clock')
        invariant forall w | 0 <= w < successor && Edge(m, vertex, w) :: w in visited'
      {
        if adjMatrix[vertex][successor] != 0 {
          assert Edge(m, vertex, successor);
          if successor in visiting' {
            ghost var k :| 0 <= k < |stack'| && stack'[k] == successor;
            StackCycle(m, stack', k, successor);
            return true, unvisited', visiting', visited', rank', clock';
          }
          if successor !in visited' {
            var f;
            f, unvisited', visiting', visited', rank', clock' :=
              HasCycleRec(successor, unvisited' - {successor}, visiting', visited', stack', rank', clock');
            if f {
              return true, unvisited', visiting', visited', rank', clock';
            }
          }
        }
        successor := successor + 1;
      }
      FinishVertex(m, visited', rank', clock', vertex);
      visiting' := visiting' - {vertex};
      rank' := rank'[vertex := clock'];
      clock' := clock' + 1;
      visited' := visited' + {vertex};
      found := false;
    }

    /** Shortest distances from src: entry v is None ("infinity") exactly when v is unreachable from
        src, and otherwise the least total weight of a walk from src to v. */
    method Dijkstra(src: int) returns (res: seq<Option<int>>)
      requires Valid() && 0 <= src < vCount
      ensures |res| == vCount
      ensures res[src] == Some(0)
      ensures forall v | 0 <= v < vCount :: res[v].Some? <==> Reachable(adjMatrix, src, v)
      ensures forall v | 0 <= v < vCount && res[v].Some? :: IsShortest(adjMatrix, src, v, res[v].value)
    {
      var m, n := adjMatrix, vCount;
      var visited: map<int, int> := map[];
      var priorityQueue := [(0, src)];
      assert WalkFrom(m, [src], src, src);
      while |priorityQueue| > 0
        invariant DijkstraInv(m, n, src, visited, priorityQueue)
        decreases Vertices(n) - visited.Keys, |priorityQueue|
      {
        var k := MinIndex(priorityQueue);
        var distance, current := priorityQueue[k].0, priorityQueue[k].1;
        if current !in visited {
          assert priorityQueue[k] in priorityQueue;
          ghost var pq0, dist0 := priorityQueue, visited;
          priorityQueue := priorityQueue[..k] + priorityQueue[k + 1..];
          ghost var rest := priorityQueue;
          visited := visited[current := distance];
          priorityQueue := PushRelaxed(priorityQueue, m[current], distance);
          assert Vertices(n) - visited.Keys < Vertices(n) - dist0.Keys by {
            assert current in Vertices(n) - dist0.Keys;
          }
          DijkstraVisit(m, n, src, dist0, pq0, k, visited, priorityQueue);
        } else {
          DijkstraSkip(m, n, src, visited, priorityQueue, k);
          priorityQueue := priorityQueue[..k] + priorityQueue[k + 1..];
        }
      }
      DijkstraDone(m, n, src, visited);
      res := Distances(visited, n);
    }
  }
}
