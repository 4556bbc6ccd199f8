/**
 * The UndirectedGraph class of ud_graph.py: an unweighted undirected graph
 * without self-loops, stored as a dictionary from vertex labels to lists
 * of neighbour labels.
 */
module UdGraph {
  import opened Wrappers
  import opened Sequences
  import opened StringOrder
  import opened UdGraphSpec

  /** The `for vertex in list: frontier.append(vertex)` loop of dfs and bfs. */
  method AppendAll(frontier: seq<string>, items: seq<string>) returns (frontier': seq<string>)
    ensures frontier' == frontier + items
  {
    frontier' := frontier;
    var i := 0;
    while i < |items|
      invariant 0 <= i <= |items|
      invariant frontier' == frontier + items[..i]
    {
      assert items[..i + 1] == items[..i] + [items[i]];
      frontier' := frontier' + [items[i]];
      i := i + 1;
    }
    assert items[..|items|] == items;
  }

  class UndirectedGraph {
    var adjList: AdjMap

    /** The class invariant every public operation keeps. */
    ghost predicate Valid()
      reads this
    {
      ValidAdj(adjList)
    }

    /** Adds the edges of the list one by one with AddEdge: the vertices are the ends of the pairs
        of two different labels, and the edges are exactly the ones those pairs name. */
    constructor (startEdges: Option<seq<(string, string)>>)
      ensures Valid()
      ensures forall v :: v in adjList <==> startEdges.Some? && Named(startEdges.value, v)
      ensures forall u, v :: Adj(adjList, u, v) <==> startEdges.Some? && Listed(startEdges.value, u, v)
    {
      adjList := map[];
      new;
      if startEdges.Some? {
        var edges := startEdges.value;
        var i := 0;
        while i < |edges|
          modifies this
          invariant 0 <= i <= |edges|
          invariant Valid()
          invariant forall v :: v in adjList <==> Named(edges[..i], v)
          invariant forall u, v :: Adj(adjList, u, v) <==> Listed(edges[..i], u, v)
        {
          ListedSnoc(edges, i);
          AddEdge(edges[i].0, edges[i].1);
          i := i + 1;
        }
        assert edges[..|edges|] == edges;
      }
    }

    /** Adds v with no neighbours unless it is already a vertex. */
    method AddVertex(v: string)
      requires Valid()
      modifies this
      ensures Valid()
      ensures adjList == WithVertex(old(adjList), v)
      ensures forall a, b :: Adj(adjList, a, b) <==> Adj(old(adjList), a, b)
    {
      if v in adjList {
        return;
      }
      AddVertexKeeps(adjList, v);
      adjList := adjList[v := []];
    }

    /** Joins u and v: nothing happens when u == v; a missing end becomes a vertex; when the two
        are not yet adjacent each is appended to the other's list. Exactly the edge u - v is added. */
    method AddEdge(u: string, v: string)
      requires Valid()
      modifies this
      ensures Valid()
      ensures u == v ==> adjList == old(adjList)
      ensures u != v ==> adjList.Keys == old(adjList).Keys + {u, v}
      ensures u != v && Adj(old(adjList), u, v) ==> adjList == old(adjList)
      ensures u != v && !Adj(old(adjList), u, v) ==> adjList == Link(old(adjList), u, v)
      ensures forall a, b :: Adj(adjList, a, b) <==> Adj(old(adjList), a, b) || Joins((u, v), a, b)
    {
      if u == v {
        return;
      }
      if u !in adjList {
        AddVertex(u);
      }
      if v !in adjList {
        AddVertex(v);
      }
      if v in adjList[u] {
        return;
      }
      LinkAfterVertices(old(adjList), u, v);
      LinkKeeps(adjList, u, v);
      adjList := adjList[u := adjList[u] + [v]];
      adjList := adjList[v := adjList[v] + [u]];
    }

    /** remove_edge(v, u): nothing happens unless both are vertices and adjacent (Python's
        ValueError from list.remove is caught); otherwise each is removed from the other's list.
        Exactly the edge u - v disappears. */
    method RemoveEdge(v: string, u: string)
      requires Valid()
      modifies this
      ensures Valid()
      ensures adjList.Keys == old(adjList).Keys
      ensures !Adj(old(adjList), u, v) ==> adjList == old(adjList)
      ensures Adj(old(adjList), u, v) ==>
                adjList == old(adjList)[u := RemoveFirst(old(adjList)[u], v)][v := RemoveFirst(old(adjList)[v], u)]
      ensures forall a, b :: Adj(adjList, a, b) <==> Adj(old(adjList), a, b) && !Joins((u, v), a, b)
    {
      assert Adj(adjList, v, u) ==> Adj(adjList, u, v);
      if u !in adjList || v !in adjList {
        return;
      }
      if v !in adjList[u] {
        return;
      }
      ghost var g := adjList;
      UnlinkKeeps(g, u, v);
      adjList := adjList[u := RemoveFirst(adjList[u], v)];
      assert adjList[v] == g[v];
      adjList := adjList[v := RemoveFirst(adjList[v], u)];
    }

    /** Removes every edge at v, then v itself; nothing happens when v is not a vertex. */
    method RemoveVertex(v: string)
      requires Valid()
      modifies this
      ensures Valid()
      ensures v !in old(adjList) ==> adjList == old(adjList)
      ensures adjList.Keys == old(adjList).Keys - {v}
      ensures forall a | a in adjList :: v !in adjList[a]
      ensures forall a, b :: Adj(adjList, a, b) <==> Adj(old(adjList), a, b) && a != v && b != v
      ensures forall a | a in adjList ::
                adjList[a] == (if v in old(adjList)[a] then RemoveFirst(old(adjList)[a], v) else old(adjList)[a])
    {
      if v !in adjList {
        forall a | a in adjList
          ensures v !in adjList[a]
        {
          assert Adj(adjList, a, v) ==> v in adjList;
        }
        return;
      }
      ghost var g := adjList;
      var keys := adjList.Keys;
      while keys != {}
        invariant Valid() && adjList.Keys == g.Keys && keys <= g.Keys
        invariant forall a, b :: Adj(adjList, a, b) <==>
                    Adj(g, a, b) && !(a == v && b !in keys) && !(b == v && a !in keys)
        invariant Unlinked(g, adjList, v, keys)
        decreases keys
      {
        var vertex :| vertex in keys;
        ghost var h := adjList;
        assert Adj(h, vertex, v) <==> Adj(g, vertex, v);
        RemoveEdge(v, vertex);
        UnlinkedStep(g, h, adjList, v, vertex, keys);
        keys := keys - {vertex};
      }
      UnlinkedDone(g, adjList, v);
      adjList := adjList - {v};
    }

    /** Every vertex once, in the dictionary's (arbitrary) order. */
    method GetVertices() returns (res: seq<string>)
      requires Valid()
      ensures forall v :: v in res <==> v in adjList
      ensures Distinct(res)
    {
      res := [];
      var keys := adjList.Keys;
      while keys != {}
        invariant keys <= adjList.Keys
        invariant forall v :: v in res <==> v in adjList && v !in keys
        invariant Distinct(res)
        decreases keys
      {
        var vertex :| vertex in keys;
        res := res + [vertex];
        keys := keys - {vertex};
      }
    }

    /** Every edge exactly once, as one of its two orientations (a, b) with b a neighbour of a. */
    method GetEdges() returns (res: set<(string, string)>)
      requires Valid()
      ensures forall e | e in res :: Adj(adjList, e.0, e.1)
      ensures forall a, b | Adj(adjList, a, b) :: (a, b) in res || (b, a) in res
      ensures forall a, b | (a, b) in res :: (b, a) !in res
    {
      res := {};
      var keys := adjList.Keys;
      while keys != {}
        invariant keys <= adjList.Keys
        invariant forall e | e in res :: Adj(adjList, e.0, e.1)
        invariant forall a, b | a !in keys && Adj(adjList, a, b) :: (a, b) in res || (b, a) in res
        invariant forall a, b | (a, b) in res :: (b, a) !in res
        decreases keys
      {
        var vertex1 :| vertex1 in keys;
        var nbrs := adjList[vertex1];
        var j := 0;
        while j < |nbrs|
          invariant 0 <= j <= |nbrs|
          invariant forall e | e in res :: Adj(adjList, e.0, e.1)
          invariant forall a, b | a !in keys && Adj(adjList, a, b) :: (a, b) in res || (b, a) in res
          invariant forall b | b in nbrs[..j] :: (vertex1, b) in res || (b, vertex1) in res
          invariant forall a, b | (a, b) in res :: (b, a) !in res
        {
          var vertex2 := nbrs[j];
          if (vertex2, vertex1) !in res {
            res := res + {(vertex1, vertex2)};
          }
          assert nbrs[..j + 1] == nbrs[..j] + [vertex2];
          j := j + 1;
        }
        assert nbrs[..|nbrs|] == nbrs;
        keys := keys - {vertex1};
      }
    }

    /** is_valid_path as written: true when every label is a vertex and each label after a
        non-empty one is its neighbour; without empty labels, exactly when the path is a walk. */
    method IsValidPath(path: seq<string>) returns (valid: bool)
      requires Valid()
      ensures valid == PathAccepted(adjList, path)
      ensures (forall v | v in path :: v != "") ==> (valid <==> |path| == 0 || IsWalk(adjList, path))
    {
      if forall v | v in path :: v != "" {
        PathAcceptedIsWalk(adjList, path);
      }
      var lastVisited: Option<string> := None;
      var i := 0;
      while i < |path|
        invariant 0 <= i <= |path|
        invariant lastVisited == if i == 0 then None else Some(path[i - 1])
        invariant forall k | 0 <= k < i :: path[k] in adjList
        invariant forall k | 0 < k < i && path[k - 1] != "" :: Adj(adjList, path[k - 1], path[k])
      {
        var vertex := path[i];
        if vertex !in adjList {
          return false;
        }
        if lastVisited.Some? && lastVisited.value != "" && vertex !in adjList[lastVisited.value] {
          return false;
        }
        lastVisited := Some(vertex);
        i := i + 1;
      }
      return true;
    }

    /** is_valid_path with the check `last_visited is not None` in place of Python's truthiness
        test: true exactly for the empty path and the walks. */
    method IsValidPathStrict(path: seq<string>) returns (valid: bool)
      requires Valid()
      ensures valid <==> |path| == 0 || IsWalk(adjList, path)
    {
      var lastVisited: Option<string> := None;
      var i := 0;
      while i < |path|
        invariant 0 <= i <= |path|
        invariant lastVisited == if i == 0 then None else Some(path[i - 1])
        invariant forall k | 0 <= k < i :: path[k] in adjList
        invariant forall k | 0 < k < i :: Adj(adjList, path[k - 1], path[k])
      {
        var vertex := path[i];
        if vertex !in adjList {
          assert path[i] in path;
          return false;
        }
        if lastVisited.Some? && vertex !in adjList[lastVisited.value] {
          assert !Adj(adjList, path[i - 1], path[i]);
          return false;
        }
        lastVisited := Some(vertex);
        i := i + 1;
      }
      return true;
    }

    /** Depth-first search from vStart, stopping at vEnd. Each expanded vertex's list is sorted in
        place in reverse alphabetical order, so each next vertex is the alphabetically least
        unvisited neighbour of the last one when it has any; no edge changes. */
    method Dfs(vStart: string, vEnd: Option<string> := None) returns (path: seq<string>)
      requires Valid()
      modifies this
      ensures Valid()
      ensures adjList == SortedAt(old(adjList), Expanded(path, vEnd), true)
      ensures forall a, b :: Adj(adjList, a, b) <==> Adj(old(adjList), a, b)
      ensures IsTraversal(old(adjList), vStart, vEnd, path)
      ensures PicksLeastFresh(old(adjList), path)
    {
      path := [];
      if vStart !in adjList {
        assert adjList == SortedAt(adjList, {}, true);
        return;
      }
      ghost var g := adjList;
      var stack := [vStart];
      var visited: set<string> := {};
      ghost var owner := [-1];
      DfsInit(g, vStart, vEnd);
      assert adjList == SortedAt(g, {}, true);
      while |stack| > 0
        invariant DfsInv(g, vStart, vEnd, path, visited, stack, owner)
        invariant adjList == SortedAt(g, visited, true)
        decreases g.Keys - visited, |stack|
      {
        SplitLast(stack);
        var current := stack[|stack| - 1];
        stack := stack[..|stack| - 1];
        if Some(current) == vEnd {
          DfsStop(g, vStart, vEnd, path, visited, stack, current, owner);
          path := path + [current];
          PermutedValid(g, adjList);
          PermutedAdj(g, adjList);
          return;
        }
        if current !in visited {
          DfsVisit(g, vStart, vEnd, path, visited, stack, current, owner);
          SortedAtVisit(g, visited, current, true);
          assert adjList[current] == g[current];
          adjList := adjList[current := SortBy(adjList[current], true)];
          owner := owner[..|stack|] + Repeat(|path|, |adjList[current]|);
          stack := AppendAll(stack, adjList[current]);
          visited := visited + {current};
          path := path + [current];
        } else {
          DfsSkip(g, vStart, vEnd, path, visited, stack, current, owner);
          owner := owner[..|stack|];
        }
      }
      DfsDone(g, vStart, vEnd, path, visited, owner);
      PermutedValid(g, adjList);
      PermutedAdj(g, adjList);
    }

    /** Breadth-first search from vStart, stopping at vEnd. Each expanded vertex's list is sorted
        in place in alphabetical order and enqueued in that order; no edge changes. */
    method Bfs(vStart: string, vEnd: Option<string> := None) returns (path: seq<string>)
      requires Valid()
      modifies this
      ensures Valid()
      ensures adjList == SortedAt(old(adjList), Expanded(path, vEnd), false)
      ensures forall a, b :: Adj(adjList, a, b) <==> Adj(old(adjList), a, b)
      ensures IsTraversal(old(adjList), vStart, vEnd, path)
      ensures PicksBreadthFirst(old(adjList), path)
    {
      path := [];
      if vStart !in adjList {
        assert adjList == SortedAt(adjList, {}, false);
        return;
      }
      ghost var g := adjList;
      var queue := [vStart];
      var visited: set<string> := {};
      ghost var owner := [-1];
      BfsInit(g, vStart, vEnd);
      assert adjList == SortedAt(g, {}, false);
      while |queue| > 0
        invariant BfsInv(g, vStart, vEnd, path, visited, queue, owner)
        invariant adjList == SortedAt(g, visited, false)
        decreases g.Keys - visited, |queue|
      {
        ghost var queue0, owner0 := queue, owner;
        var current := queue[0];
        queue := queue[1..];
        owner := owner[1..];
        if Some(current) == vEnd {
          BfsStop(g, vStart, vEnd, path, visited, queue0, owner0);
          path := path + [current];
          PermutedValid(g, adjList);
          PermutedAdj(g, adjList);
          return;
        }
        if current !in visited {
          BfsVisit(g, vStart, vEnd, path, visited, queue0, owner0);
          SortedAtVisit(g, visited, current, false);
          assert adjList[current] == g[current];
          adjList := adjList[current := SortBy(adjList[current], false)];
          owner := owner + Repeat(|path|, |adjList[current]|);
          queue := AppendAll(queue, adjList[current]);
          visited := visited + {current};
          path := path + [current];
        } else {
          BfsSkip(g, vStart, vEnd, path, visited, queue0, owner0);
        }
      }
      BfsDone(g, vStart, vEnd, path, visited, owner);
      PermutedValid(g, adjList);
      PermutedAdj(g, adjList);
    }

    /** The number of connected components: each round takes a vertex not yet counted and removes
        everything dfs reaches from it. As a side effect every list ends up sorted in reverse
        alphabetical order. */
    method CountConnectedComponents() returns (count: nat)
      requires Valid()
      modifies this
      ensures Valid()
      ensures adjList == SortedAt(old(adjList), old(adjList).Keys, true)
      ensures forall a, b :: Adj(adjList, a, b) <==> Adj(old(adjList), a, b)
      ensures count == |Components(old(adjList))|
    {
      ghost var g := adjList;
      var vertices := adjList.Keys;
      count := 0;
      assert adjList == SortedAt(g, {}, true);
      while |vertices| > 0
        invariant Valid() && vertices <= g.Keys
        invariant adjList == SortedAt(g, g.Keys - vertices, true)
        invariant forall v | v in vertices :: Component(g, v) <= vertices
        invariant count + |ComponentsOf(g, vertices)| == |Components(g)|
        decreases vertices
      {
        var vertex :| vertex in vertices;
        ghost var V := vertices;
        vertices := vertices - {vertex};
        ghost var before := adjList;
        var path := Dfs(vertex);
        var connected := set v | v in path;
        TraversalIsComponent(g, before, vertex, path);
        ComponentRound(g, V, vertex, connected);
        ExpandedAll(path);
        SortedAtTwice(g, g.Keys - V, connected, true);
        vertices := vertices - connected;
        count := count + 1;
      }
      PermutedAdj(g, adjList);
    }

    /** True exactly when the graph has a cycle. */
    method HasCycle() returns (found: bool)
      requires Valid()
      ensures found <==> UdGraphSpec.HasCycle(adjList)
    {
      var unvisited := adjList.Keys;
      var visited: set<string> := {};
      ghost var parent: map<string, string> := map[];
      ghost var time: map<string, nat> := map[];
      ghost var clock: nat := 0;
      while |unvisited| > 0
        invariant unvisited !! visited && unvisited + visited == adjList.Keys
        invariant Timed(parent, time, visited, clock)
        invariant FinishedTree(adjList, visited, [], parent)
        decreases unvisited
      {
        var vertex :| vertex in unvisited;
        unvisited := unvisited - {vertex};
        found, unvisited, visited, parent, time, clock :=
          HasCycleRec(vertex, unvisited, visited, None, [], parent, time, clock);
        if found {
          return;
        }
      }
      ForestAcyclic(adjList, parent, time);
      return false;
    }

    /** Explores `vertex`, reached from lastVisited (None at a root), on top of the recursion stack:
        true only when a cycle exists; otherwise `vertex` and everything it reaches are visited,
        and every edge at a vertex off the stack joins it to its parent in the search forest. */
    method HasCycleRec(vertex: string, unvisited: set<string>, visited: set<string>, lastVisited: Option<string>,
                       ghost stack: seq<string>, ghost parent: map<string, string>,
                       ghost time: map<string, nat>, ghost clock: nat)
      returns (found: bool, unvisited': set<string>, visited': set<string>,
               ghost parent': map<string, string>, ghost time': map<string, nat>, ghost clock': nat)
      requires Valid()
      requires vertex in adjList && vertex !in visited
      requires unvisited !! visited && unvisited + visited + {vertex} == adjList.Keys
      requires SearchStack(adjList, stack, visited)
      requires lastVisited == if |stack| == 0 then None else Some(stack[|stack| - 1])
      requires |stack| > 0 ==> Adj(adjList, stack[|stack| - 1], vertex)
      requires Timed(parent, time, visited, clock)
      requires FinishedTree(adjList, visited, stack, parent)
      ensures found ==> UdGraphSpec.HasCycle(adjList)
      ensures !found ==> && unvisited' !! visited' && unvisited' + visited' == adjList.Keys
                         && Explored(adjList, vertex, lastVisited, stack, visited, parent, visited', parent', time', clock')
      decreases unvisited + {vertex}
    {
      ghost var g := adjList;
      unvisited' := unvisited - {vertex};
      visited' := visited + {vertex};
      ScanStart(g, vertex, lastVisited, stack, visited, parent, time, clock);
      parent' := if lastVisited.Some? then parent[vertex := lastVisited.value] else parent;
      time' := time[vertex := clock];
      clock' := clock + 1;
      var nbrs := adjList[vertex];
      var i := 0;
      while i < |nbrs|
        invariant 0 <= i <= |nbrs|
        invariant unvisited' !! visited' && unvisited' + visited' == g.Keys && unvisited' <= unvisited
        invariant Scanning(g, vertex, nbrs[..i], lastVisited, stack, visited, parent, visited', parent', time', clock')
        decreases |nbrs| - i
      {
        var neighbor := nbrs[i];
        assert nbrs[..i + 1] == nbrs[..i] + [neighbor];
        if neighbor in visited' && Some(neighbor) != lastVisited {
          ScanBackEdge(g, vertex, i, lastVisited, stack, visited, parent, visited', parent', time', clock');
          return true, unvisited', visited', parent', time', clock';
        }
        if neighbor !in visited' {
          assert neighbor in g by {
            assert Adj(g, vertex, neighbor);
          }
          ghost var visited0, parent0, time0, clock0 := visited', parent', time', clock';
          var f;
          f, unvisited', visited', parent', time', clock' :=
            HasCycleRec(neighbor, unvisited', visited', Some(vertex), stack + [vertex], parent', time', clock');
          if f {
            return true, unvisited', visited', parent', time', clock';
          }
          ScanChild(g, vertex, nbrs[..i], lastVisited, stack, visited, parent, visited0, parent0, time0, clock0,
                    neighbor, visited', parent', time', clock');
        } else {
          ScanParent(g, vertex, nbrs[..i], lastVisited, stack, visited, parent, visited', parent', time', clock', neighbor);
        }
        i := i + 1;
      }
      assert nbrs[..i] == nbrs;
      ScanEnd(g, vertex, lastVisited, stack, visited, parent, visited', parent', time', clock');
      found := false;
    }
  }
}
