/**
 * A directed graph stored as a map from each vertex to the set of its
 * out-neighbours, with breadth-first and depth-first traversals and
 * searches (projects/graph/graph.py).
 */
module Graphs {
  import opened Wrappers
  import opened Seqs
  import opened Reach

  /** The error graph.py raises when an operation names a vertex that is not in the graph. */
  datatype GraphError = MissingVertex(id: int)

  /** The marks of the colour dictionaries: not yet seen, discovered, finished. */
  datatype Color = White | Gray | Black

  /** All vertices of the graph start out white. */
  function AllWhite(g: Adjacency): (color: map<int, Color>)
    ensures color.Keys == g.Keys
    ensures forall v :: v in color ==> color[v] == White
  {
    map v | v in g :: White
  }

  class Graph {
    /** Each vertex mapped to the set of vertices its out-edges lead to. */
    var vertices: Adjacency

    /** Every out-neighbour is itself a vertex of the graph. */
    ghost predicate Valid()
      reads this
    {
      Closed(vertices)
    }

    constructor ()
      ensures Valid() && vertices == map[]
    {
      vertices := map[];
    }

    /** Adds v with no out-edges, discarding any out-edges v had before. */
    method AddVertex(v: int)
      requires Valid()
      modifies this
      ensures Valid()
      ensures v in vertices && vertices[v] == {}
      ensures vertices.Keys == old(vertices).Keys + {v}
      ensures forall u :: u in old(vertices) && u != v ==> vertices[u] == old(vertices)[u]
    {
      vertices := vertices[v := {}];
    }

    /**
     * Adds the edge v1 -> v2 when both ends are vertices. Otherwise fails,
     * naming v1 first when both are missing, and leaves the graph unchanged.
     */
    method AddEdge(v1: int, v2: int) returns (r: Result<(), GraphError>)
      requires Valid()
      modifies this
      ensures Valid()
      ensures v1 !in old(vertices) ==> r == Err(MissingVertex(v1))
      ensures v1 in old(vertices) && v2 !in old(vertices) ==> r == Err(MissingVertex(v2))
      ensures r.Err? ==> vertices == old(vertices)
      ensures v1 in old(vertices) && v2 in old(vertices) ==>
                r == Ok(()) && vertices.Keys == old(vertices).Keys
                && vertices[v1] == old(vertices)[v1] + {v2}
                && forall u :: u in vertices && u != v1 ==> vertices[u] == old(vertices)[u]
    {
      if v1 in vertices && v2 in vertices {
        vertices := vertices[v1 := vertices[v1] + {v2}];
        r := Ok(());
      } else if v1 !in vertices {
        r := Err(MissingVertex(v1));
      } else {
        r := Err(MissingVertex(v2));
      }
    }

    /** The out-neighbours of v; fails when v is not a vertex. */
    function GetNeighbors(v: int): (r: Result<set<int>, GraphError>)
      reads this
      ensures r.Err? <==> v !in vertices
      ensures r.Err? ==> r.error == MissingVertex(v)
      ensures r.Ok? ==> forall w :: w in r.value <==> v in vertices && w in vertices[v]
      ensures Valid() && r.Ok? ==> forall w :: w in r.value ==> w in vertices
    {
      if v in vertices then Ok(vertices[v]) else Err(MissingVertex(v))
    }

    /**
     * The neighbour loop of Bft for the queue head out[k]: each white
     * out-neighbour is greyed and appended to the visit list and to the
     * queue.
     */
    method EnqueueWhiteNeighbors(ghost k: nat, neighbors: set<int>, out: seq<int>, queue: seq<int>, color: map<int, Color>)
      returns (out': seq<int>, queue': seq<int>, color': map<int, Color>)
      requires Valid()
      requires k < |out| && queue == out[k..] && out[k] in vertices && neighbors == vertices[out[k]]
      requires Elems(out) <= vertices.Keys && Distinct(out) && WhiteIffUnlisted(vertices, color, out)
      ensures |out| <= |out'| && out'[..|out|] == out && queue' == out'[k..]
      ensures Elems(out') <= vertices.Keys && Distinct(out') && WhiteIffUnlisted(vertices, color', out')
      ensures forall i :: |out| <= i < |out'| ==> out'[i] in neighbors && out'[i] !in Elems(out)
      ensures forall i :: |out| <= i < |out'| ==> out'[i] in color' && color'[out'[i]] == Gray
      ensures forall w :: w in neighbors ==> w in Elems(out')
    {
      ClosedNeighbors(vertices, out[k]);
      out', queue', color' := out, queue, color;
      var rest := neighbors;
      while rest != {}
        invariant rest <= neighbors
        invariant |out| <= |out'| && out'[..|out|] == out && queue' == out'[k..]
        invariant Elems(out') <= vertices.Keys && Distinct(out') && WhiteIffUnlisted(vertices, color', out')
        invariant forall i :: |out| <= i < |out'| ==> out'[i] in neighbors && out'[i] !in Elems(out)
        invariant forall i :: |out| <= i < |out'| ==> out'[i] in color' && color'[out'[i]] == Gray
        invariant forall w :: w in neighbors && w !in rest ==> w in Elems(out')
        decreases rest
      {
        ghost var some := Witness(rest);
        var neighbor: int :| neighbor in rest;
        rest := rest - {neighbor};
        if color'[neighbor] == White {
          DistinctAppend(out', neighbor);
          assert (out' + [neighbor])[k..] == queue' + [neighbor];
          assert (out' + [neighbor])[..|out|] == out;
          queue' := queue' + [neighbor];
          color' := color'[neighbor := Gray];
          out' := out' + [neighbor];
        }
      }
    }

    /**
     * The breadth-first visit order from start: the vertices reachable from
     * start, each once, start first, by non-decreasing distance from start.
     * Fails when start is not a vertex.
     */
    method Bft(start: int) returns (r: Result<seq<int>, GraphError>)
      requires Valid()
      ensures r.Err? <==> start !in vertices
      ensures r.Err? ==> r.error == MissingVertex(start)
      ensures r.Ok? ==> |r.value| > 0 && r.value[0] == start && Distinct(r.value)
      ensures r.Ok? ==> forall v :: v in r.value <==> Reachable(vertices, start, v)
      ensures r.Ok? ==> BreadthFirstOrdered(vertices, start, r.value)
    {
      if start !in vertices {
        // the first get_neighbors call, on start, raises
        return Err(MissingVertex(start));
      }
      var out := [start];
      var color := AllWhite(vertices);
      var queue := [start];
      color := color[start := Gray];
      // lvl[i] is the layer out[i] was discovered in; out[..k] is finished
      ghost var lvl: seq<nat> := [0];
      ghost var k: nat := 0;
      while |queue| > 0
        invariant Listed(vertices, start, out, k, queue, color)
        invariant Layered(vertices, start, out, lvl)
        invariant k < |out| ==> lvl[|out| - 1] <= lvl[k] + 1
        invariant k < |out| ==> EarlierLayersFinished(vertices, start, out, k, lvl[k])
        invariant FinishedExpanded(vertices, out, k)
        invariant |out| <= |vertices.Keys|
        decreases |vertices.Keys| - k
      {
        var head := queue[0];
        var neighbors := GetNeighbors(head).value;
        ghost var before := out;
        out, queue, color := EnqueueWhiteNeighbors(k, neighbors, out, queue, color);
        lvl := BftStep(vertices, start, before, out, lvl, k);
        DistinctBound(out, vertices.Keys);
        ListedDequeue(vertices, start, out, k, queue, color);
        queue := queue[1..];
        color := color[head := Black];
        k := k + 1;
      }
      BftComplete(vertices, start, out, lvl);
      r := Ok(out);
    }

    /**
     * The breadth-first search of bfs: a queue of walks from start, the
     * first walk whose last vertex is destination and not yet visited is
     * returned. It is a shortest walk from start to destination, present
     * exactly when destination is reachable. Fails when start is not a
     * vertex and not the destination.
     */
    method Bfs(start: int, destination: int) returns (r: Result<Option<seq<int>>, GraphError>)
      requires Valid()
      ensures r.Err? <==> start !in vertices && start != destination
      ensures r.Err? ==> r.error == MissingVertex(start)
      ensures r.Ok? ==> (r.value.Some? <==> Reachable(vertices, start, destination))
      ensures r.Ok? && r.value.Some? ==> ShortestWalk(vertices, r.value.value, start, destination)
    {
      var queue := [[start]];
      var visited := {};
      while |queue| > 0
        invariant BfsState(vertices, start, destination, queue, visited)
        decreases vertices.Keys - visited, |queue|
      {
        ghost var queue0, visited0 := queue, visited;
        var path := queue[0];
        queue := queue[1..];
        var vertex := path[|path| - 1];
        if vertex !in visited {
          if vertex == destination {
            BfsFound(vertices, start, destination, queue0, visited0);
            return Ok(Some(path));
          }
          visited := visited + {vertex};
          var neighbors := GetNeighbors(vertex);
          if neighbors.Err? {
            BfsMissing(vertices, start, destination, queue0, visited0);
            return Err(neighbors.error);
          }
          queue := AppendPaths(path, neighbors.value, queue);
          BfsVisitStep(vertices, start, destination, queue0, visited0, queue);
          assert vertex in vertices.Keys - visited0;
        } else {
          BfsSkipStep(vertices, start, destination, queue0, visited0);
        }
      }
      BfsExhausted(vertices, start, destination, visited);
      r := Ok(None);
    }

    /**
     * The depth-first visit order from start: a stack is popped until empty,
     * a white vertex popped is listed and all its out-neighbours are pushed.
     * Lists the vertices reachable from start, each once, start first, in
     * depth-first order: each later one is an out-neighbour of the latest
     * listed vertex whose out-neighbours are not all listed yet. Fails when
     * start is not a vertex.
     */
    method Dft(start: int) returns (r: Result<seq<int>, GraphError>)
      requires Valid()
      ensures r.Err? <==> start !in vertices
      ensures r.Err? ==> r.error == MissingVertex(start)
      ensures r.Ok? ==> |r.value| > 0 && r.value[0] == start && Distinct(r.value)
      ensures r.Ok? ==> forall v :: v in r.value <==> Reachable(vertices, start, v)
      ensures r.Ok? ==> DepthFirstOrdered(vertices, r.value)
    {
      if start !in vertices {
        // the colour lookup of the first vertex popped, start, raises
        return Err(MissingVertex(start));
      }
      var out := [];
      var color := AllWhite(vertices);
      var stack := [start];
      // src[i] is the index in out of the vertex that pushed stack[i] (-1 for start);
      // par[i] that of the vertex out[i] was discovered from
      ghost var src: seq<int> := [-1];
      ghost var par: seq<nat> := [];
      while |stack| > 0
        invariant StackState(vertices, start, out, stack, color, src, par)
        invariant StackAbove(vertices, out, stack, src) && DepthFirstOrdered(vertices, out)
        invariant |out| <= |vertices.Keys|
        decreases |vertices.Keys| - |out|, |stack|
      {
        ghost var out0, stack0, color0, src0 := out, stack, color, src;
        var head := stack[|stack| - 1];
        stack := stack[..|stack| - 1];
        if color[head] == White {
          color := color[head := Gray];
          out := out + [head];
          DepthListNext(vertices, start, out0, stack0, color0, src, par);
          var neighbors := GetNeighbors(head).value;
          stack := PushNeighbors(neighbors, stack);
          src, par := DepthStepNew(vertices, start, out0, stack0, color0, src, par, neighbors, stack);
          AboveStepNew(vertices, out0, stack0, src0, neighbors, stack, src);
          DistinctBound(out, vertices.Keys);
        } else {
          DepthStepSeen(vertices, start, out, stack0, color, src, par);
          AboveStepSeen(vertices, out, stack0, src);
          src := src[..|src| - 1];
        }
        color := color[head := Black];
      }
      DepthComplete(vertices, start, out, color, src, par);
      r := Ok(out);
    }

    /**
     * The depth-first search from start for destination as written: the
     * traversal of Dft that stops when destination is listed and returns
     * the visit order so far, or None when destination is never listed.
     * The visit order is Some exactly when destination is reachable; it
     * starts at start, ends at destination and lists distinct vertices, each
     * after start an out-neighbour of some vertex listed before it (not
     * necessarily of the one just before it). Fails when start is not a
     * vertex, even when it is the destination.
     */
    method Dfs(start: int, destination: int) returns (r: Result<Option<seq<int>>, GraphError>)
      requires Valid()
      ensures r.Err? <==> start !in vertices
      ensures r.Err? ==> r.error == MissingVertex(start)
      ensures r.Ok? ==> (r.value.Some? <==> Reachable(vertices, start, destination))
      ensures r.Ok? && r.value.Some? ==> VisitOrderTo(vertices, start, destination, r.value.value)
    {
      if start !in vertices {
        return Err(MissingVertex(start));
      }
      var out := [];
      var color := AllWhite(vertices);
      var stack := [start];
      ghost var src: seq<int> := [-1];
      ghost var par: seq<nat> := [];
      while |stack| > 0
        invariant StackState(vertices, start, out, stack, color, src, par)
        invariant destination !in out
        invariant StackAbove(vertices, out, stack, src) && DepthFirstOrdered(vertices, out)
        invariant |out| <= |vertices.Keys|
        decreases |vertices.Keys| - |out|, |stack|
      {
        ghost var out0, stack0, color0, src0 := out, stack, color, src;
        var head := stack[|stack| - 1];
        stack := stack[..|stack| - 1];
        if color[head] == White {
          color := color[head := Gray];
          out := out + [head];
          DepthListNext(vertices, start, out0, stack0, color0, src, par);
          if head == destination {
            DepthFound(vertices, start, out0, stack0, color0, src, par);
            return Ok(Some(out));
          }
          var neighbors := GetNeighbors(head).value;
          stack := PushNeighbors(neighbors, stack);
          src, par := DepthStepNew(vertices, start, out0, stack0, color0, src, par, neighbors, stack);
          AboveStepNew(vertices, out0, stack0, src0, neighbors, stack, src);
          DistinctBound(out, vertices.Keys);
        } else {
          DepthStepSeen(vertices, start, out, stack0, color, src, par);
          AboveStepSeen(vertices, out, stack0, src);
          src := src[..|src| - 1];
        }
        color := color[head := Black];
      }
      DepthComplete(vertices, start, out, color, src, par);
      r := Ok(None);
    }

    /**
     * The depth-first search from start for destination, corrected to return
     * what its documentation promises: a path. The stack holds walks from
     * start instead of single vertices, as the queue of bfs does; the walk
     * popped is extended by each out-neighbour of its last vertex when that
     * vertex is new. Returns a walk from start to destination exactly when
     * destination is reachable. Fails when start is not a vertex.
     */
    method DfsPath(start: int, destination: int) returns (r: Result<Option<seq<int>>, GraphError>)
      requires Valid()
      ensures r.Err? <==> start !in vertices
      ensures r.Err? ==> r.error == MissingVertex(start)
      ensures r.Ok? ==> (r.value.Some? <==> Reachable(vertices, start, destination))
      ensures r.Ok? && r.value.Some? ==> PathFromTo(vertices, r.value.value, start, destination)
      ensures r.Ok? && r.value.Some? ==> Distinct(r.value.value)
    {
      if start !in vertices {
        return Err(MissingVertex(start));
      }
      var visited: set<int> := {};
      var stack: seq<seq<int>> := [[start]];
      PathStackInit(vertices, start, destination);
      while |stack| > 0
        invariant PathStack(vertices, start, destination, stack, visited)
        invariant VisitedBefore(stack, visited)
        decreases vertices.Keys - visited, |stack|
      {
        ghost var stack0 := stack;
        var path := stack[|stack| - 1];
        stack := stack[..|stack| - 1];
        var head := path[|path| - 1];
        if head !in visited {
          if head == destination {
            PathStackFound(vertices, start, destination, stack0, visited);
            DistinctAppend(path[..|path| - 1], head);
            assert path[..|path| - 1] + [head] == path;
            return Ok(Some(path));
          }
          ghost var visited0 := visited;
          visited := visited + {head};
          var neighbors := GetNeighbors(head).value;
          stack := AppendPaths(path, neighbors, stack);
          PathStackNew(vertices, start, destination, stack0, visited0, stack);
          VisitedBeforeNew(stack0, visited0, stack);
          assert head in vertices.Keys - visited0;
        } else {
          PathStackSeen(vertices, start, destination, stack0, visited);
          VisitedBeforeSeen(stack0, visited);
        }
      }
      PathStackExhausted(vertices, start, destination, visited);
      r := Ok(None);
    }

    /**
     * The recursive visit of dft_recursive from the white vertex v: v is
     * greyed and listed, each white out-neighbour is visited in turn, and v
     * is blackened. Lists v and then only vertices that were white, each
     * discovered from a vertex listed earlier in this visit; every vertex it
     * lists ends black with all its out-neighbours listed, and vertices that
     * were already grey or black keep their colour.
     */
    method DftVisit(v: int, color: map<int, Color>, out: seq<int>) returns (color': map<int, Color>, out': seq<int>)
      requires Valid()
      requires v in vertices && v !in out
      requires Elems(out) <= vertices.Keys && Distinct(out) && WhiteIffUnlisted(vertices, color, out)
      ensures |out| < |out'| && out'[..|out|] == out && out'[|out|] == v
      ensures Elems(out') <= vertices.Keys && Distinct(out') && WhiteIffUnlisted(vertices, color', out')
      ensures Finished(vertices, out', |out|, |out'|) && TreeFrom(vertices, out', |out|)
      ensures forall i :: |out| <= i < |out'| ==> out'[i] in color' && color'[out'[i]] == Black
      ensures KeepsColors(color, color')
      decreases |vertices.Keys| - |out|
    {
      DistinctAppend(out, v);
      DistinctBound(out + [v], vertices.Keys);
      color' := color[v := Gray];
      out' := out + [v];
      var neighbors := GetNeighbors(v).value;
      var rest := neighbors;
      while rest != {}
        invariant rest <= neighbors
        invariant VisitState(vertices, color, out, v, color', out')
        invariant Elems(out') <= vertices.Keys && Distinct(out') && WhiteIffUnlisted(vertices, color', out')
        invariant forall w :: w in neighbors - rest ==> w in out'
        decreases rest
      {
        ghost var some := Witness(rest);
        var neighbor: int :| neighbor in rest;
        rest := rest - {neighbor};
        if color'[neighbor] == White {
          ghost var mid, midColor := out', color';
          color', out' := DftVisit(neighbor, color', out');
          VisitCall(vertices, color, out, v, midColor, mid, color', out');
        }
      }
      FinishRoot(vertices, color, out, v, color', out', neighbors);
      color' := color'[v := Black];
    }

    /**
     * dft_recursive: visits each vertex still white, taking the vertices in
     * any order, so that every vertex is listed exactly once. Each
     * listed vertex is discovered from an earlier one or starts a new visit
     * once everything the earlier ones lead to is listed.
     */
    method DftRecursive() returns (out: seq<int>)
      requires Valid()
      ensures Distinct(out) && Elems(out) == vertices.Keys && |out| == |vertices|
      ensures DepthForest(vertices, out)
    {
      var color := AllWhite(vertices);
      out := [];
      var rest := vertices.Keys;
      while rest != {}
        invariant rest <= vertices.Keys && vertices.Keys - rest <= Elems(out)
        invariant Elems(out) <= vertices.Keys && Distinct(out) && WhiteIffUnlisted(vertices, color, out)
        invariant Finished(vertices, out, 0, |out|) && DepthForest(vertices, out)
        decreases rest
      {
        ghost var some := Witness(rest);
        var vertex: int :| vertex in rest;
        rest := rest - {vertex};
        if color[vertex] == White {
          ghost var before := out;
          color, out := DftVisit(vertex, color, out);
          ForestGrow(vertices, before, out);
          ElemsGrow(before, out);
          assert out[|before|] in Elems(out);
        }
      }
      DistinctCard(out);
    }

    /**
     * The recursive depth-first search of dfs_recursive from v for
     * destination, extending path (the walk that led to v) and adding to
     * visited the vertices it enters. Returns the first completed walk,
     * which extends path + [v], ends at destination and repeats no vertex,
     * or None when every vertex it entered had all its out-neighbours
     * entered without reaching destination. Fails when v is not a vertex and
     * not the destination.
     */
    method DfsVisit(v: int, destination: int, visited: set<int>, path: seq<int>)
      returns (r: Result<Option<seq<int>>, GraphError>, visited': set<int>)
      requires Valid()
      requires v !in visited && destination !in visited
      requires IsWalk(vertices, path + [v]) && Elems(path) <= visited && Distinct(path)
      ensures r.Err? <==> v !in vertices && v != destination
      ensures r.Err? ==> r.error == MissingVertex(v)
      ensures visited + {v} <= visited'
      ensures r.Ok? && r.value.Some? ==> var p := r.value.value;
                |path| < |p| && p[..|path| + 1] == path + [v] && p[|p| - 1] == destination
                && IsWalk(vertices, p) && Distinct(p)
      ensures r.Ok? && r.value.None? ==>
                destination !in visited' && forall u :: u in visited' - visited ==> u in vertices && vertices[u] <= visited'
      decreases vertices.Keys - visited
    {
      visited' := visited + {v};
      var path' := path + [v];
      DistinctAppend(path, v);
      if v == destination {
        return Ok(Some(path')), visited';
      }
      if v !in vertices {
        return Err(MissingVertex(v)), visited';
      }
      var children := vertices[v];
      var rest := children;
      while rest != {}
        invariant rest <= children
        invariant visited + {v} <= visited' && destination !in visited'
        invariant forall u :: u in visited' - visited && u != v ==> u in vertices && vertices[u] <= visited'
        invariant forall w :: w in children - rest ==> w in visited'
        decreases rest
      {
        ghost var some := Witness(rest);
        var child: int :| child in rest;
        rest := rest - {child};
        if child !in visited' {
          WalkAppend(vertices, path', child);
          var found;
          found, visited' := DfsVisit(child, destination, visited', path');
          if found != Ok(None) {
            DfsFound(vertices, path', child, destination, found);
            return found, visited';
          }
        }
      }
      forall w | w in children
        ensures w in visited'
      {
        assert w in children - rest;
      }
      return Ok(None), visited';
    }

    /**
     * dfs_recursive called without visited and path: a walk from start to
     * destination repeating no vertex, present exactly when destination is
     * reachable from start. Fails when start is not a vertex and not the
     * destination.
     */
    method DfsRecursive(start: int, destination: int) returns (r: Result<Option<seq<int>>, GraphError>)
      requires Valid()
      ensures r.Err? <==> start !in vertices && start != destination
      ensures r.Err? ==> r.error == MissingVertex(start)
      ensures r.Ok? ==> (r.value.Some? <==> Reachable(vertices, start, destination))
      ensures r.Ok? && r.value.Some? ==> PathFromTo(vertices, r.value.value, start, destination) && Distinct(r.value.value)
    {
      assert IsWalk(vertices, [] + [start]);
      var visited;
      r, visited := DfsVisit(start, destination, {}, []);
      if r.Ok? && r.value.Some? {
        var p := r.value.value;
        assert p[0] == ([] + [start])[0];
        assert PathFromTo(vertices, p, start, destination);
      } else if r.Ok? {
        forall u, w | u in visited && u in vertices && w in vertices[u]
          ensures w in visited
        {
        }
        if Reachable(vertices, start, destination) {
          ClosedSetHoldsReachable(vertices, start, visited, destination);
        }
      }
    }
  }

  /**
   * The visit list is in breadth-first order: whenever a vertex of it is
   * within n edges of s, so is every vertex listed before it.
   */
  ghost predicate BreadthFirstOrdered(g: Adjacency, s: int, out: seq<int>)
  {
    forall i, j, n: nat :: 0 <= i < j < |out| && out[j] in Within(g, s, n) ==> out[i] in Within(g, s, n)
  }

  /**
   * The state of the breadth-first traversal: out lists distinct vertices
   * from s on, the queue is the unfinished suffix out[k..], and exactly the
   * unlisted vertices are white.
   */
  ghost predicate Listed(g: Adjacency, s: int, out: seq<int>, k: nat, queue: seq<int>, color: map<int, Color>)
  {
    && k <= |out| && queue == out[k..]
    && 0 < |out| && out[0] == s
    && Elems(out) <= g.Keys && Distinct(out)
    && WhiteIffUnlisted(g, color, out)
  }

  lemma ListedDequeue(g: Adjacency, s: int, out: seq<int>, k: nat, queue: seq<int>, color: map<int, Color>)
    requires Listed(g, s, out, k, queue, color) && k < |out|
    ensures Listed(g, s, out, k + 1, queue[1..], color[out[k] := Black])
  {
    assert out[k] in Elems(out);
  }

  /**
   * When every listed vertex is finished, the list holds exactly the
   * vertices reachable from s, in breadth-first order.
   */
  lemma BftComplete(g: Adjacency, s: int, out: seq<int>, lvl: seq<nat>)
    requires 0 < |out| && out[0] == s && s in g
    requires Layered(g, s, out, lvl) && FinishedExpanded(g, out, |out|)
    ensures forall v :: v in out <==> Reachable(g, s, v)
    ensures BreadthFirstOrdered(g, s, out)
  {
    BftCovers(g, s, out);
    BftListed(g, s, out, lvl);
    BftOrdered(g, s, out, lvl);
  }

  /** A finished visit list holding s lists every vertex s reaches. */
  lemma BftCovers(g: Adjacency, s: int, out: seq<int>)
    requires 0 < |out| && out[0] == s && FinishedExpanded(g, out, |out|)
    ensures forall v :: Reachable(g, s, v) ==> v in out
  {
    forall u, w | u in Elems(out) && u in g && w in g[u]
      ensures w in Elems(out)
    {
      var i :| 0 <= i < |out| && out[i] == u;
    }
    forall v | Reachable(g, s, v)
      ensures v in out
    {
      ClosedSetHoldsReachable(g, s, Elems(out), v);
    }
  }

  /** Every vertex of a layered list is reachable. */
  lemma BftListed(g: Adjacency, s: int, out: seq<int>, lvl: seq<nat>)
    requires Layered(g, s, out, lvl)
    ensures forall v :: v in out ==> Reachable(g, s, v)
  {
    forall v | v in out
      ensures Reachable(g, s, v)
    {
      var i :| 0 <= i < |out| && out[i] == v;
      WithinReachable(g, s, v, lvl[i]);
    }
  }

  /** A layered list is in breadth-first order. */
  lemma BftOrdered(g: Adjacency, s: int, out: seq<int>, lvl: seq<nat>)
    requires Layered(g, s, out, lvl)
    ensures BreadthFirstOrdered(g, s, out)
  {
    forall i, j, n: nat | 0 <= i < j < |out| && out[j] in Within(g, s, n)
      ensures out[i] in Within(g, s, n)
    {
      if n < lvl[j] {
        WithinMono(g, s, n, lvl[j] - 1);
      }
      WithinMono(g, s, lvl[i], n);
    }
  }

  /** The vertices not yet listed in out are exactly the white ones. */
  ghost predicate WhiteIffUnlisted(g: Adjacency, color: map<int, Color>, out: seq<int>)
  {
    forall v :: v in g ==> v in color && (color[v] == White <==> v !in out)
  }

  /** Every vertex closer to s than L edges is among the first k listed (layer L - 1 is, and the earlier layers lie inside it). */
  ghost predicate EarlierLayersFinished(g: Adjacency, s: int, out: seq<int>, k: nat, L: nat)
    requires k <= |out|
  {
    L > 0 ==> Within(g, s, L - 1) <= Elems(out[..k])
  }

  /** All out-neighbours of the first k listed vertices are listed. */
  ghost predicate FinishedExpanded(g: Adjacency, out: seq<int>, k: nat)
  {
    forall i, w :: 0 <= i < k && i < |out| && out[i] in g && w in g[out[i]] ==> w in Elems(out)
  }

  /**
   * lvl[i] is the breadth-first distance of out[i] from s: out[i] is within
   * lvl[i] edges of s and not within fewer; the distances never decrease.
   */
  ghost predicate Layered(g: Adjacency, s: int, out: seq<int>, lvl: seq<nat>)
  {
    && |lvl| == |out|
    && (forall i, j :: 0 <= i < j < |out| ==> lvl[i] <= lvl[j])
    && (forall i {:trigger lvl[i]} :: 0 <= i < |out| ==> out[i] in Within(g, s, lvl[i]))
    && (forall i {:trigger lvl[i]} :: 0 <= i < |out| && lvl[i] > 0 ==> out[i] !in Within(g, s, lvl[i] - 1))
  }

  /**
   * Appending vertices that lie one edge beyond layer L but not within it, at
   * layer L + 1, keeps the distances right and in order.
   */
  lemma LayeredExtend(g: Adjacency, s: int, out: seq<int>, lvl: seq<nat>, out': seq<int>, lvl': seq<nat>,
                      L: nat, next: set<int>)
    requires Layered(g, s, out, lvl) && |out| > 0 && lvl[|out| - 1] <= L + 1
    requires |out| <= |out'| && out'[..|out|] == out
    requires |lvl'| == |out'| && lvl'[..|out|] == lvl && forall i :: |out| <= i < |out'| ==> lvl'[i] == L + 1
    requires next <= Within(g, s, L + 1)
    requires Within(g, s, L) <= Elems(out)
    requires forall i :: |out| <= i < |out'| ==> out'[i] in next && out'[i] !in Elems(out)
    ensures Layered(g, s, out', lvl') && lvl'[|out'| - 1] <= L + 1
  {
    LayeredExtendOrder(out, lvl, out', lvl', L);
    LayeredExtendDistance(g, s, out, lvl, out', lvl', L, next);
  }

  lemma LayeredExtendOrder(out: seq<int>, lvl: seq<nat>, out': seq<int>, lvl': seq<nat>, L: nat)
    requires |lvl| == |out| > 0 && (forall i, j :: 0 <= i < j < |out| ==> lvl[i] <= lvl[j]) && lvl[|out| - 1] <= L + 1
    requires |out| <= |out'|
    requires |lvl'| == |out'| && lvl'[..|out|] == lvl && forall i :: |out| <= i < |out'| ==> lvl'[i] == L + 1
    ensures forall i, j :: 0 <= i < j < |out'| ==> lvl'[i] <= lvl'[j]
  {
    forall i, j | 0 <= i < j < |out'|
      ensures lvl'[i] <= lvl'[j]
    {
      if i < |out| {
        assert lvl'[i] == lvl'[..|out|][i];
        if j < |out| {
          assert lvl'[j] == lvl'[..|out|][j];
        } else {
          assert lvl[i] <= lvl[|out| - 1];
        }
      }
    }
  }

  lemma LayeredExtendDistance(g: Adjacency, s: int, out: seq<int>, lvl: seq<nat>, out': seq<int>, lvl': seq<nat>,
                              L: nat, next: set<int>)
    requires Layered(g, s, out, lvl)
    requires |out| <= |out'| && out'[..|out|] == out
    requires |lvl'| == |out'| && lvl'[..|out|] == lvl && forall i :: |out| <= i < |out'| ==> lvl'[i] == L + 1
    requires next <= Within(g, s, L + 1)
    requires Within(g, s, L) <= Elems(out)
    requires forall i :: |out| <= i < |out'| ==> out'[i] in next && out'[i] !in Elems(out)
    ensures forall i {:trigger lvl'[i]} :: 0 <= i < |out'| ==> out'[i] in Within(g, s, lvl'[i])
    ensures forall i {:trigger lvl'[i]} :: 0 <= i < |out'| && lvl'[i] > 0 ==> out'[i] !in Within(g, s, lvl'[i] - 1)
  {
    forall i | 0 <= i < |out'|
      ensures out'[i] in Within(g, s, lvl'[i])
      ensures lvl'[i] > 0 ==> out'[i] !in Within(g, s, lvl'[i] - 1)
    {
      if i < |out| {
        assert out'[i] == out'[..|out|][i] && lvl'[i] == lvl'[..|out|][i];
        assert lvl[i] == lvl'[i];
      }
    }
  }

  /**
   * Expanding out[k], which appended its unlisted out-neighbours to before,
   * keeps the layer invariants once the appended vertices are given layer
   * lvl[k] + 1, and leaves out[..k + 1] finished.
   */
  lemma BftStep(g: Adjacency, s: int, before: seq<int>, out: seq<int>, lvl: seq<nat>, k: nat)
    returns (lvl': seq<nat>)
    requires 0 < |before| && before[0] == s && k < |before| && before[k] in g
    requires Layered(g, s, before, lvl) && lvl[|before| - 1] <= lvl[k] + 1
    requires EarlierLayersFinished(g, s, before, k, lvl[k]) && FinishedExpanded(g, before, k)
    requires |before| <= |out| && out[..|before|] == before
    requires forall i :: |before| <= i < |out| ==> out[i] in g[before[k]] && out[i] !in Elems(before)
    requires forall w :: w in g[before[k]] ==> w in Elems(out)
    ensures Layered(g, s, out, lvl')
    ensures k + 1 < |out| ==> lvl'[|out| - 1] <= lvl'[k + 1] + 1
    ensures k + 1 < |out| ==> EarlierLayersFinished(g, s, out, k + 1, lvl'[k + 1])
    ensures FinishedExpanded(g, out, k + 1)
  {
    var L := lvl[k];
    LayerListed(g, s, before, k, L);
    assert before[k] in Within(g, s, L);
    SuccIntroAll(g, Within(g, s, L), before[k]);
    lvl' := LayerNext(g, s, before, out, lvl, L);
    assert lvl'[k] == L;
    ElemsGrow(before, out);
    if k + 1 < |out| {
      EarlierPrefix(g, s, before, out, k, L);
      LayerAdvance(g, s, out, lvl', k);
    }
    FinishedExpandedStep(g, before, out, k);
  }

  /** The vertices appended after before, one edge beyond layer L, form layer L + 1. */
  lemma LayerNext(g: Adjacency, s: int, before: seq<int>, out: seq<int>, lvl: seq<nat>, L: nat)
    returns (lvl': seq<nat>)
    requires Layered(g, s, before, lvl) && |before| > 0 && lvl[|before| - 1] <= L + 1
    requires |before| <= |out| && out[..|before|] == before
    requires Within(g, s, L) <= Elems(before)
    requires forall i :: |before| <= i < |out| ==> out[i] in Succ(g, Within(g, s, L)) && out[i] !in Elems(before)
    ensures Layered(g, s, out, lvl') && lvl'[|out| - 1] <= L + 1
    ensures forall i :: 0 <= i < |before| ==> lvl'[i] == lvl[i]
  {
    lvl' := lvl + seq(|out| - |before|, _ => L + 1);
    assert lvl'[..|before|] == lvl;
    LayeredExtend(g, s, before, lvl, out, lvl', L, Succ(g, Within(g, s, L)));
  }

  lemma ElemsGrow(before: seq<int>, out: seq<int>)
    requires |before| <= |out| && out[..|before|] == before
    ensures Elems(before) <= Elems(out)
  {
    forall x | x in Elems(before)
      ensures x in Elems(out)
    {
      var i :| 0 <= i < |before| && before[i] == x;
      assert out[..|before|][i] == x;
    }
  }

  lemma EarlierPrefix(g: Adjacency, s: int, before: seq<int>, out: seq<int>, k: nat, L: nat)
    requires k <= |before| <= |out| && out[..|before|] == before
    requires EarlierLayersFinished(g, s, before, k, L)
    ensures EarlierLayersFinished(g, s, out, k, L)
  {
    assert out[..k] == before[..k];
  }

  lemma FinishedExpandedStep(g: Adjacency, before: seq<int>, out: seq<int>, k: nat)
    requires FinishedExpanded(g, before, k) && k < |before| <= |out| && out[..|before|] == before
    requires out[k] in g ==> forall w :: w in g[out[k]] ==> w in Elems(out)
    ensures FinishedExpanded(g, out, k + 1)
  {
    forall i, w | 0 <= i < k + 1 && i < |out| && out[i] in g && w in g[out[i]]
      ensures w in Elems(out)
    {
      if i < k {
        assert before[i] == out[i];
        assert w in Elems(before);
      }
    }
  }

    /**
   * Every vertex within L edges of s is listed, when every layer before L lies
   * in the finished prefix out[..k] and all out-neighbours of finished
   * vertices are listed.
   */
  lemma LayerListed(g: Adjacency, s: int, out: seq<int>, k: nat, L: nat)
    requires 0 < |out| && out[0] == s && k <= |out|
    requires EarlierLayersFinished(g, s, out, k, L)
    requires FinishedExpanded(g, out, k)
    ensures Within(g, s, L) <= Elems(out)
  {
    if L == 0 {
      assert out[0] in Elems(out);
    } else {
      forall x | x in Within(g, s, L)
        ensures x in Elems(out)
      {
        if x in Within(g, s, L - 1) {
          assert x in Elems(out[..k]);
          var i :| 0 <= i < k && out[..k][i] == x;
          assert out[i] == x;
        } else {
          var u :| u in Within(g, s, L - 1) && u in g && x in g[u];
          assert u in Elems(out[..k]);
          var i :| 0 <= i < k && out[..k][i] == u;
          assert out[i] == u;
        }
      }
    }
  }

  /**
   * Finishing out[k] keeps the layer invariant for out[k + 1]: every layer
   * before out[k + 1]'s lies in out[..k + 1].
   */
  lemma LayerAdvance(g: Adjacency, s: int, out: seq<int>, lvl: seq<nat>, k: nat)
    requires k + 1 < |out| && Layered(g, s, out, lvl)
    requires lvl[|out| - 1] <= lvl[k] + 1
    requires EarlierLayersFinished(g, s, out, k, lvl[k])
    requires Within(g, s, lvl[k]) <= Elems(out)
    ensures EarlierLayersFinished(g, s, out, k + 1, lvl[k + 1])
  {
    if lvl[k + 1] == lvl[k] {
      if lvl[k] > 0 {
        var below := Within(g, s, lvl[k] - 1);
        forall x | x in below
          ensures x in Elems(out[..k + 1])
        {
          var i :| 0 <= i < k && out[..k][i] == x;
          assert out[..k + 1][i] == x;
        }
      }
    } else {
      assert lvl[k + 1] == lvl[k] + 1;
      forall x | x in Within(g, s, lvl[k])
        ensures x in Elems(out[..k + 1])
      {
        var i :| 0 <= i < |out| && out[i] == x;
        if i > k {
          WithinMono(g, s, lvl[k], lvl[i] - 1);
        }
        assert out[..k + 1][i] == x;
      }
    }
  }

  /** The neighbour loop of Dft and Dfs: every out-neighbour is pushed once, in any order. */
  method PushNeighbors(neighbors: set<int>, stack: seq<int>) returns (stack': seq<int>)
    ensures |stack| <= |stack'| && stack'[..|stack|] == stack
    ensures forall i :: |stack| <= i < |stack'| ==> stack'[i] in neighbors
    ensures forall w :: w in neighbors ==> w in stack'[|stack|..]
    ensures |stack'| == |stack| + |neighbors|
  {
    stack' := stack;
    var rest := neighbors;
    while rest != {}
      invariant rest <= neighbors
      invariant |stack| <= |stack'| && stack'[..|stack|] == stack
      invariant forall i :: |stack| <= i < |stack'| ==> stack'[i] in neighbors
      invariant forall w :: w in neighbors - rest ==> w in stack'[|stack|..]
      invariant |stack'| == |stack| + |neighbors - rest|
      decreases rest
    {
      ghost var some := Witness(rest);
      var neighbor: int :| neighbor in rest;
      assert neighbors - (rest - {neighbor}) == (neighbors - rest) + {neighbor};
      assert (stack' + [neighbor])[|stack|..] == stack'[|stack|..] + [neighbor];
      rest := rest - {neighbor};
      stack' := stack' + [neighbor];
    }
  }

  /**
   * Each listed vertex after the first is an out-neighbour of some vertex
   * listed before it: the weaker form of DepthFirstOrdered, without its
   * condition on the vertices listed in between, which is all that the
   * reachability argument of DepthComplete and DepthFound needs.
   */
  ghost predicate EachFromEarlier(g: Adjacency, out: seq<int>)
  {
    forall i :: 0 < i < |out| ==> FromEarlier(g, out, i)
  }

  /** out[i] is an out-neighbour of some vertex listed before it (FromSince without its condition on the vertices in between). */
  ghost predicate FromEarlier(g: Adjacency, out: seq<int>, i: nat)
    requires i < |out|
  {
    exists j :: 0 <= j < i && out[j] in g && out[i] in g[out[j]]
  }

  /** par[i] is the index of an earlier listed vertex with an edge to out[i]. */
  ghost predicate ParentLinks(g: Adjacency, out: seq<int>, par: seq<nat>)
  {
    |par| == |out| && forall i :: 0 < i < |out| ==> par[i] < i && out[par[i]] in g && out[i] in g[out[par[i]]]
  }

  /** Every out-neighbour of a listed vertex is listed or still on the stack. */
  ghost predicate StackClosed(g: Adjacency, out: seq<int>, stack: seq<int>)
  {
    forall i, w :: 0 <= i < |out| && out[i] in g && w in g[out[i]] ==> w in out || w in stack
  }

  /**
   * The state of the depth-first traversal from s: out lists distinct
   * vertices from s on, exactly the unlisted vertices are white, every stack
   * entry other than the initial s was pushed by the listed vertex src[i]
   * names, and every out-neighbour of a listed vertex is listed or stacked.
   */
  ghost predicate StackState(g: Adjacency, s: int, out: seq<int>, stack: seq<int>, color: map<int, Color>,
                             src: seq<int>, par: seq<nat>)
  {
    && |src| == |stack|
    && Elems(out) <= g.Keys && Distinct(out) && WhiteIffUnlisted(g, color, out)
    && (|out| == 0 ==> stack == [s] && src == [-1])
    && (|out| > 0 ==> out[0] == s)
    && (forall i :: 0 <= i < |stack| ==> stack[i] in g)
    && (forall i :: 0 <= i < |stack| && src[i] == -1 ==> stack[i] == s)
    && (forall i :: 0 <= i < |stack| && src[i] != -1 ==>
          0 <= src[i] < |out| && out[src[i]] in g && stack[i] in g[out[src[i]]])
    && ParentLinks(g, out, par)
    && StackClosed(g, out, stack)
  }

  /**
   * Every out-neighbour of a vertex listed after the one that pushed stack
   * entry q is listed or stacked above q: it was pushed later, so it is
   * popped first.
   */
  ghost predicate StackAbove(g: Adjacency, out: seq<int>, stack: seq<int>, src: seq<int>)
  {
    && |src| == |stack|
    && forall q, k :: 0 <= q < |stack| && 0 <= k < |out| && src[q] < k ==>
         out[k] in g && g[out[k]] <= Elems(out) + Elems(stack[q + 1..])
  }

  /** Listing the popped white vertex and pushing its out-neighbours keeps StackAbove. */
  lemma AboveStepNew(g: Adjacency, out: seq<int>, stack: seq<int>, src: seq<int>,
                     nbrs: set<int>, stack': seq<int>, src': seq<int>)
    requires 0 < |stack| && StackAbove(g, out, stack, src)
    requires stack[|stack| - 1] in g && nbrs == g[stack[|stack| - 1]]
    requires |stack| - 1 <= |stack'| && stack'[..|stack| - 1] == stack[..|stack| - 1]
    requires forall w :: w in nbrs ==> w in stack'[|stack| - 1..]
    requires |src'| == |stack'| && src'[..|stack| - 1] == src[..|stack| - 1]
    requires forall i :: |stack| - 1 <= i < |src'| ==> src'[i] == |out|
    ensures StackAbove(g, out + [stack[|stack| - 1]], stack', src')
  {
    var m := |stack| - 1;
    var v := stack[m];
    var out' := out + [v];
    forall q, k | 0 <= q < |stack'| && 0 <= k < |out'| && src'[q] < k
      ensures out'[k] in g && g[out'[k]] <= Elems(out') + Elems(stack'[q + 1..])
    {
      assert q < m;
      assert src'[q] == src[..m][q] == src[q];
      SuffixStep(out, stack, stack', q);
      if k < |out| {
        assert out'[k] == out[k];
      } else {
        forall w | w in g[v]
          ensures w in Elems(stack'[q + 1..])
        {
          var t :| 0 <= t < |stack'[m..]| && stack'[m..][t] == w;
          assert stack'[q + 1..][m - q - 1 + t] == w;
        }
      }
    }
  }

  /** What was stacked above q, other than the popped vertex, is still stacked above q. */
  lemma SuffixStep(out: seq<int>, stack: seq<int>, stack': seq<int>, q: nat)
    requires q < |stack| - 1 <= |stack'| && stack'[..|stack| - 1] == stack[..|stack| - 1]
    ensures Elems(stack[q + 1..]) <= Elems(out + [stack[|stack| - 1]]) + Elems(stack'[q + 1..])
  {
    var m := |stack| - 1;
    forall t | q + 1 <= t < |stack|
      ensures stack[t] in Elems(out + [stack[m]]) + Elems(stack'[q + 1..])
    {
      if t < m {
        assert stack'[..m][t] == stack[t];
        assert stack'[q + 1..][t - q - 1] == stack[t];
      } else {
        assert (out + [stack[m]])[|out|] == stack[t];
      }
    }
  }

  /** Popping a vertex that is already listed keeps StackAbove. */
  lemma AboveStepSeen(g: Adjacency, out: seq<int>, stack: seq<int>, src: seq<int>)
    requires 0 < |stack| && StackAbove(g, out, stack, src) && stack[|stack| - 1] in out
    ensures StackAbove(g, out, stack[..|stack| - 1], src[..|src| - 1])
  {
    var m := |stack| - 1;
    var stack' := stack[..m];
    forall q, k | 0 <= q < m && 0 <= k < |out| && src[..m][q] < k
      ensures out[k] in g && g[out[k]] <= Elems(out) + Elems(stack'[q + 1..])
    {
      assert src[..m][q] == src[q];
      forall t | q + 1 <= t < |stack|
        ensures stack[t] in Elems(out) + Elems(stack'[q + 1..])
      {
        if t < m {
          assert stack'[q + 1..][t - q - 1] == stack[t];
        }
      }
    }
  }

  /**
   * The white vertex on top of the stack is discovered depth-first from the
   * listed vertex that pushed it, so listing it keeps the depth-first order.
   */
  lemma DepthListNext(g: Adjacency, s: int, out: seq<int>, stack: seq<int>, color: map<int, Color>,
                      src: seq<int>, par: seq<nat>)
    requires 0 < |stack| && StackState(g, s, out, stack, color, src, par)
    requires StackAbove(g, out, stack, src) && DepthFirstOrdered(g, out)
    requires stack[|stack| - 1] !in out
    ensures DepthFirstOrdered(g, out + [stack[|stack| - 1]])
  {
    var m := |stack| - 1;
    var out' := out + [stack[m]];
    var p := DepthParent(g, s, out, stack, color, src, par);
    forall i | 0 < i < |out'|
      ensures FromSince(g, out', 0, i)
    {
      if i < |out| {
        FromSincePrefix(g, out, out', 0, i);
      } else {
        assert out'[..i] == out;
        forall k | p < k < i
          ensures out'[k] in g && g[out'[k]] <= Elems(out'[..i])
        {
          assert out'[k] == out[k];
          assert stack[m + 1..] == [];
        }
        assert DepthParentAt(g, out', p, i);
      }
    }
  }

  /**
   * Popping a white vertex, listing it and pushing all its out-neighbours
   * keeps the traversal state; the listed vertex's parent is the vertex that
   * pushed it.
   */
  lemma DepthStepNew(g: Adjacency, s: int, out: seq<int>, stack: seq<int>, color: map<int, Color>,
                     src: seq<int>, par: seq<nat>, nbrs: set<int>, stack': seq<int>)
    returns (src': seq<int>, par': seq<nat>)
    requires Closed(g) && 0 < |stack| && StackState(g, s, out, stack, color, src, par)
    requires stack[|stack| - 1] !in out && nbrs == g[stack[|stack| - 1]]
    requires |stack| - 1 <= |stack'| && stack'[..|stack| - 1] == stack[..|stack| - 1]
    requires forall i :: |stack| - 1 <= i < |stack'| ==> stack'[i] in nbrs
    requires forall w :: w in nbrs ==> w in stack'[|stack| - 1..]
    ensures StackState(g, s, out + [stack[|stack| - 1]], stack',
                       color[stack[|stack| - 1] := Gray][stack[|stack| - 1] := Black], src', par')
    ensures src'[..|stack| - 1] == src[..|stack| - 1]
    ensures forall i :: |stack| - 1 <= i < |src'| ==> src'[i] == |out|
  {
    var head := stack[|stack| - 1];
    var m := |stack| - 1;
    var p := DepthParent(g, s, out, stack, color, src, par);
    par' := par + [p];
    src' := src[..m] + seq(|stack'| - m, _ => |out|);
    DistinctAppend(out, head);
    forall i | 0 <= i < m
      ensures stack'[i] == stack[i] && src'[i] == src[i]
    {
      assert stack'[..m][i] == stack[i];
    }
    ParentLinksAppend(g, out, par, head, p);
    StackClosedStep(g, out, stack, nbrs, stack');
  }

  /** The index of the listed vertex that pushed the stack top, when anything is listed. */
  lemma DepthParent(g: Adjacency, s: int, out: seq<int>, stack: seq<int>, color: map<int, Color>,
                    src: seq<int>, par: seq<nat>)
    returns (p: nat)
    requires 0 < |stack| && StackState(g, s, out, stack, color, src, par)
    requires stack[|stack| - 1] !in out
    ensures stack[|stack| - 1] in g
    ensures |out| > 0 ==> p == src[|stack| - 1] && p < |out| && out[p] in g && stack[|stack| - 1] in g[out[p]]
    ensures |out| == 0 ==> stack[|stack| - 1] == s
  {
    var m := |stack| - 1;
    if |out| == 0 {
      p := 0;
    } else {
      assert out[0] == s;
      p := src[m];
    }
  }

  /** Listing the stack top when it is the destination: the visit list ends there, each vertex discovered from an earlier one. */
  lemma DepthFound(g: Adjacency, s: int, out: seq<int>, stack: seq<int>, color: map<int, Color>,
                   src: seq<int>, par: seq<nat>)
    requires 0 < |stack| && StackState(g, s, out, stack, color, src, par)
    requires stack[|stack| - 1] !in out
    ensures var out' := out + [stack[|stack| - 1]];
            out'[0] == s && Distinct(out') && EachFromEarlier(g, out') && Reachable(g, s, stack[|stack| - 1])
  {
    var head := stack[|stack| - 1];
    var p := DepthParent(g, s, out, stack, color, src, par);
    DistinctAppend(out, head);
    ParentLinksAppend(g, out, par, head, p);
    ParentsEarlier(g, out + [head], par + [p]);
    assert (out + [head])[|out|] == head;
  }

  lemma ParentLinksAppend(g: Adjacency, out: seq<int>, par: seq<nat>, v: int, p: nat)
    requires ParentLinks(g, out, par)
    requires |out| > 0 ==> p < |out| && out[p] in g && v in g[out[p]]
    ensures ParentLinks(g, out + [v], par + [p])
  {
    var out', par' := out + [v], par + [p];
    forall i | 0 < i < |out'|
      ensures par'[i] < i && out'[par'[i]] in g && out'[i] in g[out'[par'[i]]]
    {
      if i < |out| {
        assert par'[i] == par[i] && out'[i] == out[i] && out'[par[i]] == out[par[i]];
      }
    }
  }

  lemma StackClosedStep(g: Adjacency, out: seq<int>, stack: seq<int>, nbrs: set<int>, stack': seq<int>)
    requires 0 < |stack| && StackClosed(g, out, stack)
    requires |stack| - 1 <= |stack'| && stack'[..|stack| - 1] == stack[..|stack| - 1]
    requires stack[|stack| - 1] in g && nbrs == g[stack[|stack| - 1]]
    requires forall w :: w in nbrs ==> w in stack'[|stack| - 1..]
    ensures StackClosed(g, out + [stack[|stack| - 1]], stack')
  {
    var head := stack[|stack| - 1];
    var m := |stack| - 1;
    var out' := out + [head];
    forall i, w | 0 <= i < |out'| && out'[i] in g && w in g[out'[i]]
      ensures w in out' || w in stack'
    {
      if i < |out| {
        assert out'[i] == out[i];
        if w in stack && w != head {
          var j :| 0 <= j < |stack| && stack[j] == w;
          assert stack'[..m][j] == w;
        }
      } else {
        var j :| 0 <= j < |stack'[m..]| && stack'[m..][j] == w;
        assert stack'[m + j] == w;
      }
    }
  }

  /** Popping a vertex that is already listed only blackens it. */
  lemma DepthStepSeen(g: Adjacency, s: int, out: seq<int>, stack: seq<int>, color: map<int, Color>,
                      src: seq<int>, par: seq<nat>)
    requires 0 < |stack| && StackState(g, s, out, stack, color, src, par)
    requires stack[|stack| - 1] in out
    ensures StackState(g, s, out, stack[..|stack| - 1], color[stack[|stack| - 1] := Black], src[..|src| - 1], par)
  {
    var head := stack[|stack| - 1];
    var stack' := stack[..|stack| - 1];
    forall i, w | 0 <= i < |out| && out[i] in g && w in g[out[i]]
      ensures w in out || w in stack'
    {
      if w !in out {
        var j :| 0 <= j < |stack| && stack[j] == w;
        assert j != |stack| - 1;
        assert stack'[j] == w;
      }
    }
  }

  /** Parent links make every listed vertex an out-neighbour of an earlier one, and reachable from the first. */
  lemma ParentsEarlier(g: Adjacency, out: seq<int>, par: seq<nat>)
    requires ParentLinks(g, out, par)
    ensures EachFromEarlier(g, out)
    ensures |out| > 0 ==> forall i :: 0 <= i < |out| ==> Reachable(g, out[0], out[i])
  {
    forall i | 0 < i < |out|
      ensures FromEarlier(g, out, i)
    {
      var j := par[i];
      assert 0 <= j < i && out[j] in g && out[i] in g[out[j]];
    }
    if |out| > 0 {
      EarlierReachable(g, out);
    }
  }

  lemma EarlierReachable(g: Adjacency, out: seq<int>)
    requires |out| > 0 && EachFromEarlier(g, out)
    ensures forall i :: 0 <= i < |out| ==> Reachable(g, out[0], out[i])
  {
    forall i | 0 <= i < |out|
      ensures Reachable(g, out[0], out[i])
    {
      EarlierReachableAt(g, out, i);
    }
  }

  lemma {:induction false} EarlierReachableAt(g: Adjacency, out: seq<int>, i: nat)
    requires i < |out| && EachFromEarlier(g, out)
    ensures Reachable(g, out[0], out[i])
    decreases i
  {
    if i == 0 {
      assert PathFromTo(g, [out[0]], out[0], out[0]);
    } else {
      assert FromEarlier(g, out, i);
      var j :| 0 <= j < i && out[j] in g && out[i] in g[out[j]];
      EarlierReachableAt(g, out, j);
      ReachableStep(g, out[0], out[j], out[i]);
    }
  }

  /**
   * When the stack is empty the visit list is non-empty, holds exactly the
   * vertices reachable from s, and each vertex after s was discovered from
   * an earlier one.
   */
  lemma DepthComplete(g: Adjacency, s: int, out: seq<int>, color: map<int, Color>, src: seq<int>, par: seq<nat>)
    requires StackState(g, s, out, [], color, src, par)
    ensures |out| > 0 && out[0] == s
    ensures forall v :: v in out <==> Reachable(g, s, v)
    ensures EachFromEarlier(g, out)
  {
    assert |out| > 0;
    ParentsEarlier(g, out, par);
    ListClosed(g, out);
    forall v | Reachable(g, s, v)
      ensures v in out
    {
      assert out[0] in Elems(out);
      ClosedSetHoldsReachable(g, s, Elems(out), v);
    }
  }

  lemma ListClosed(g: Adjacency, out: seq<int>)
    requires StackClosed(g, out, [])
    ensures forall u, w :: u in Elems(out) && u in g && w in g[u] ==> w in Elems(out)
  {
    forall u, w | u in Elems(out) && u in g && w in g[u]
      ensures w in Elems(out)
    {
      var i :| 0 <= i < |out| && out[i] == u;
      assert w in out || w in [];
    }
  }

  /** Every vertex listed at an index in [lo, hi) has all its out-neighbours listed. */
  ghost predicate Finished(g: Adjacency, out: seq<int>, lo: nat, hi: nat)
  {
    forall i :: lo <= i < hi && i < |out| ==> out[i] in g && forall w :: w in g[out[i]] ==> w in out
  }

  /**
   * out[j] was discovered depth-first from out[i]: it is an out-neighbour of
   * out[i], and every vertex listed between the two had all its
   * out-neighbours listed before out[j], so the search had backed up from
   * each of them to out[i].
   */
  ghost predicate DepthParentAt(g: Adjacency, out: seq<int>, i: nat, j: nat)
    requires i < j < |out|
  {
    && out[i] in g && out[j] in g[out[i]]
    && forall k :: i < k < j ==> out[k] in g && g[out[k]] <= Elems(out[..j])
  }

  /** out[i] was discovered depth-first from a vertex listed at an index in [lo, i). */
  ghost predicate FromSince(g: Adjacency, out: seq<int>, lo: nat, i: nat)
    requires i < |out|
  {
    exists j :: lo <= j < i && DepthParentAt(g, out, j, i)
  }

  /** Every vertex listed after out[lo] was discovered depth-first from one listed at lo or later. */
  ghost predicate TreeFrom(g: Adjacency, out: seq<int>, lo: nat)
  {
    forall i :: lo < i < |out| ==> FromSince(g, out, lo, i)
  }

  /**
   * The visit list is in depth-first order: every vertex after the first
   * was discovered depth-first from a vertex listed before it.
   */
  ghost predicate DepthFirstOrdered(g: Adjacency, out: seq<int>)
  {
    TreeFrom(g, out, 0)
  }

  /**
   * On the graph 1 -> 2, 1 -> 3, 2 -> 4 the depth-first order from 1 may be
   * [1, 2, 4, 3] but not the breadth-first [1, 2, 3, 4]: 3 cannot be
   * listed while 4, an out-neighbour of the earlier 2, is still unlisted.
   */
  lemma DepthFirstExample()
    ensures var g := map[1 := {2, 3}, 2 := {4}, 3 := {}, 4 := {}];
            DepthFirstOrdered(g, [1, 2, 4, 3]) && !DepthFirstOrdered(g, [1, 2, 3, 4])
  {
    var g := map[1 := {2, 3}, 2 := {4}, 3 := {}, 4 := {}];
    var p := [1, 2, 4, 3];
    assert DepthParentAt(g, p, 0, 1);
    assert DepthParentAt(g, p, 1, 2);
    assert DepthParentAt(g, p, 0, 3) by {
      assert p[..3] == [1, 2, 4];
      assert p[1] in g && g[p[1]] <= Elems(p[..3]);
      assert p[2] in g && g[p[2]] == {};
    }
    assert FromSince(g, p, 0, 1) && FromSince(g, p, 0, 2) && FromSince(g, p, 0, 3);
    var b := [1, 2, 3, 4];
    assert !FromSince(g, b, 0, 2) by {
      assert b[..2] == [1, 2] && 4 !in Elems(b[..2]);
      assert !DepthParentAt(g, b, 0, 2) by {
        assert 4 in g[b[1]];
      }
      assert !DepthParentAt(g, b, 1, 2);
    }
  }

  /** Discovery depends only on the list up to the discovered vertex, so it survives appending. */
  lemma FromSincePrefix(g: Adjacency, a: seq<int>, b: seq<int>, lo: nat, i: nat)
    requires i < |a| <= |b| && b[..|a|] == a && FromSince(g, a, lo, i)
    ensures FromSince(g, b, lo, i)
  {
    var j :| lo <= j < i && DepthParentAt(g, a, j, i);
    assert b[..i] == a[..i];
    assert forall k :: 0 <= k < |a| ==> b[k] == a[k];
    assert DepthParentAt(g, b, j, i);
  }

  /** No listed vertex has an out-neighbour outside the list. */
  ghost predicate ClosedList(g: Adjacency, p: seq<int>)
  {
    forall j, w :: 0 <= j < |p| && p[j] in g && w in g[p[j]] ==> w in p
  }

  /**
   * Every listed vertex is discovered depth-first from an earlier one, or
   * starts a new tree after every out-neighbour of the earlier ones is
   * listed.
   */
  ghost predicate DepthForest(g: Adjacency, out: seq<int>)
  {
    forall i :: 0 <= i < |out| ==> FromSince(g, out, 0, i) || ClosedList(g, out[..i])
  }

  /** Vertices that are grey or black keep their colour. */
  ghost predicate KeepsColors(color: map<int, Color>, color': map<int, Color>)
  {
    forall u :: u in color && color[u] != White ==> u in color' && color'[u] == color[u]
  }

  /**
   * The state of a visit from v that started on the list out with colours
   * color: v is listed after out and still grey, every vertex listed after it
   * is black, finished and discovered within this visit.
   */
  ghost predicate VisitState(g: Adjacency, color: map<int, Color>, out: seq<int>, v: int,
                             color': map<int, Color>, out': seq<int>)
  {
    && |out| < |out'| && out'[..|out|] == out && out'[|out|] == v
    && Finished(g, out', |out| + 1, |out'|) && TreeFrom(g, out', |out|)
    && v in color' && color'[v] == Gray
    && (forall i :: |out| < i < |out'| ==> out'[i] in color' && color'[out'[i]] == Black)
    && KeepsColors(color, color')
  }

  /** A nested visit appended after mid keeps the state of the enclosing visit from v. */
  lemma VisitCall(g: Adjacency, color: map<int, Color>, out: seq<int>, v: int,
                  midColor: map<int, Color>, mid: seq<int>, color': map<int, Color>, out': seq<int>)
    requires VisitState(g, color, out, v, midColor, mid)
    requires |mid| < |out'| && out'[..|mid|] == mid && v in g && out'[|mid|] in g[v]
    requires Finished(g, out', |mid|, |out'|) && TreeFrom(g, out', |mid|)
    requires forall i :: |mid| <= i < |out'| ==> out'[i] in color' && color'[out'[i]] == Black
    requires KeepsColors(midColor, color')
    ensures VisitState(g, color, out, v, color', out')
  {
    var lo := |out|;
    assert out'[..lo] == mid[..lo];
    assert out'[lo] == mid[lo];
    forall i | lo + 1 <= i < |out'|
      ensures out'[i] in g && forall w :: w in g[out'[i]] ==> w in out'
    {
      if i < |mid| {
        assert out'[i] == mid[i];
        forall w | w in g[out'[i]]
          ensures w in out'
        {
          var k :| 0 <= k < |mid| && mid[k] == w;
          assert out'[k] == w;
        }
      }
    }
    forall i | lo < i < |out'|
      ensures FromSince(g, out', lo, i)
    {
      if i < |mid| {
        FromSincePrefix(g, mid, out', lo, i);
      } else if i == |mid| {
        ChildDiscovered(g, color, out, v, midColor, mid, out');
      } else {
        assert FromSince(g, out', |mid|, i);
        var j :| |mid| <= j < i && DepthParentAt(g, out', j, i);
      }
    }
    forall i | lo < i < |out'|
      ensures out'[i] in color' && color'[out'[i]] == Black
    {
      if i < |mid| {
        assert out'[i] == mid[i];
      }
    }
  }

  /**
   * A child visited from v after the earlier children's visits finished is
   * discovered depth-first from v.
   */
  lemma ChildDiscovered(g: Adjacency, color: map<int, Color>, out: seq<int>, v: int,
                        midColor: map<int, Color>, mid: seq<int>, out': seq<int>)
    requires VisitState(g, color, out, v, midColor, mid)
    requires |mid| < |out'| && out'[..|mid|] == mid && v in g && out'[|mid|] in g[v]
    ensures FromSince(g, out', |out|, |mid|)
  {
    var lo := |out|;
    assert out'[lo] == mid[lo];
    assert out'[..|mid|] == mid;
    forall k | lo < k < |mid|
      ensures out'[k] in g && g[out'[k]] <= Elems(out'[..|mid|])
    {
      assert out'[k] == mid[k] && mid[k] in g;
      forall w | w in g[mid[k]]
        ensures w in Elems(mid)
      {
        assert w in mid;
      }
    }
    assert DepthParentAt(g, out', lo, |mid|);
  }

  /** Once all out-neighbours of the root v are listed, the whole visit is finished. */
  lemma FinishRoot(g: Adjacency, color: map<int, Color>, out: seq<int>, v: int,
                   color': map<int, Color>, out': seq<int>, nbrs: set<int>)
    requires VisitState(g, color, out, v, color', out') && v in g && nbrs == g[v]
    requires forall w :: w in nbrs ==> w in out'
    requires v in color && color[v] == White
    ensures Finished(g, out', |out|, |out'|)
    ensures forall i :: |out| <= i < |out'| ==> out'[i] in color'[v := Black] && color'[v := Black][out'[i]] == Black
    ensures KeepsColors(color, color'[v := Black])
  {
  }

  /** A completed visit appended to a finished depth-first forest extends the forest. */
  lemma ForestGrow(g: Adjacency, before: seq<int>, out: seq<int>)
    requires |before| < |out| && out[..|before|] == before
    requires Finished(g, before, 0, |before|) && DepthForest(g, before)
    requires Finished(g, out, |before|, |out|) && TreeFrom(g, out, |before|)
    ensures Finished(g, out, 0, |out|) && DepthForest(g, out)
  {
    forall i | 0 <= i < |out|
      ensures out[i] in g && forall w :: w in g[out[i]] ==> w in out
    {
      if i < |before| {
        assert out[i] == before[i];
        forall w | w in g[out[i]]
          ensures w in out
        {
          var k :| 0 <= k < |before| && before[k] == w;
          assert out[k] == w;
        }
      }
    }
    forall i | 0 <= i < |out|
      ensures FromSince(g, out, 0, i) || ClosedList(g, out[..i])
    {
      if i < |before| {
        assert out[..i] == before[..i];
        if FromSince(g, before, 0, i) {
          FromSincePrefix(g, before, out, 0, i);
        }
      } else if i == |before| {
        forall j, w | 0 <= j < i && out[..i][j] in g && w in g[out[..i][j]]
          ensures w in out[..i]
        {
          assert out[..i][j] == before[j];
        }
      } else {
        assert FromSince(g, out, |before|, i);
        var j :| |before| <= j < i && DepthParentAt(g, out, j, i);
      }
    }
  }

  /** A walk found by a nested search from child, a neighbour of the walk's end, extends that walk. */
  lemma DfsFound(g: Adjacency, path: seq<int>, child: int, d: int, found: Result<Option<seq<int>>, GraphError>)
    requires |path| > 0
    requires found.Ok? && found.value.Some? ==> var p := found.value.value;
               |path| < |p| && p[..|path| + 1] == path + [child] && p[|p| - 1] == d
    ensures found.Ok? && found.value.Some? ==> var p := found.value.value;
              |path| - 1 < |p| && p[..|path|] == path && p[|p| - 1] == d
  {
    if found.Ok? && found.value.Some? {
      var p := found.value.value;
      assert p[..|path|] == p[..|path| + 1][..|path|];
    }
  }

  /**
   * The neighbour loop of bfs (and of DfsPath): the walk extended by each
   * out-neighbour is appended, in any order.
   */
  method AppendPaths(path: seq<int>, neighbors: set<int>, queue: seq<seq<int>>) returns (queue': seq<seq<int>>)
    ensures |queue| <= |queue'| && queue'[..|queue|] == queue
    ensures forall i :: |queue| <= i < |queue'| ==> |queue'[i]| == |path| + 1 && queue'[i] == path + [queue'[i][|path|]] && queue'[i][|path|] in neighbors
    ensures forall w :: w in neighbors ==> path + [w] in queue'[|queue|..]
    ensures |queue'| == |queue| + |neighbors|
  {
    queue' := queue;
    var rest := neighbors;
    while rest != {}
      invariant rest <= neighbors
      invariant |queue| <= |queue'| && queue'[..|queue|] == queue
      invariant forall i :: |queue| <= i < |queue'| ==> |queue'[i]| == |path| + 1 && queue'[i] == path + [queue'[i][|path|]] && queue'[i][|path|] in neighbors
      invariant forall w :: w in neighbors - rest ==> path + [w] in queue'[|queue|..]
      invariant |queue'| == |queue| + |neighbors - rest|
      decreases rest
    {
      ghost var some := Witness(rest);
      var next: int :| next in rest;
      assert neighbors - (rest - {next}) == (neighbors - rest) + {next};
      rest := rest - {next};
      assert (queue' + [path + [next]])[|queue|..] == queue'[|queue|..] + [path + [next]];
      queue' := queue' + [path + [next]];
    }
  }

  /** The last vertex of a non-empty walk. */
  ghost function Last(p: seq<int>): int
    requires |p| > 0
  {
    p[|p| - 1]
  }

  /** The last vertices of the queued walks with at most n vertices. */
  ghost function Ends(queue: seq<seq<int>>, n: int): set<int>
  {
    set i | 0 <= i < |queue| && 0 < |queue[i]| <= n :: queue[i][|queue[i]| - 1]
  }

  /** The number of vertices of the walk at the head of the queue, 0 when it is empty. */
  ghost function Front(queue: seq<seq<int>>): nat
  {
    if |queue| > 0 then |queue[0]| else 0
  }

  /**
   * The state of the breadth-first search from s for d: the queue holds
   * walks from s, by non-decreasing length, at most one vertex longer than
   * the head; d is not visited; every vertex within Front - 2 edges of s is
   * visited, every vertex within Front - 1 edges is visited or ends a walk
   * of the head's length; out-neighbours of visited vertices are visited or
   * end a queued walk at most one longer than the head, and those of the
   * vertices within Front - 2 edges end a walk of the head's length.
   */
  ghost predicate BfsState(g: Adjacency, s: int, d: int, queue: seq<seq<int>>, visited: set<int>)
  {
    && QueueShape(g, s, queue)
    && d !in visited && visited <= g.Keys
    && (s in visited || (visited == {} && queue == [[s]]))
    && LayersHold(g, s, queue, visited)
  }

  /** The queue holds walks from s, by non-decreasing length, at most one vertex longer than its head. */
  ghost predicate QueueShape(g: Adjacency, s: int, queue: seq<seq<int>>)
  {
    && (forall i :: 0 <= i < |queue| ==> IsWalk(g, queue[i]) && queue[i][0] == s)
    && (forall i, j :: 0 <= i < j < |queue| ==> |queue[i]| <= |queue[j]|)
    && (forall i :: 0 <= i < |queue| ==> |queue[i]| <= Front(queue) + 1)
  }

  /** The layer conjuncts of the search state, for the head length Front(queue). */
  ghost predicate LayersHold(g: Adjacency, s: int, queue: seq<seq<int>>, visited: set<int>)
  {
    LayersNear(g, s, queue, visited) && Covered(g, queue, visited)
  }

  /**
   * Every vertex within Front - 2 edges of s is visited, every vertex within
   * Front - 1 edges is visited or ends a walk of the head's length, and the
   * out-neighbours of the vertices within Front - 2 edges end such a walk.
   */
  ghost predicate LayersNear(g: Adjacency, s: int, queue: seq<seq<int>>, visited: set<int>)
  {
    && (Front(queue) >= 2 ==> Within(g, s, Front(queue) - 2) <= visited)
    && (Front(queue) >= 1 ==> Within(g, s, Front(queue) - 1) <= visited + Ends(queue, Front(queue)))
    && (Front(queue) >= 2 ==>
          forall u :: u in Within(g, s, Front(queue) - 2) && u in g ==> g[u] <= visited + Ends(queue, Front(queue)))
  }

  /** Out-neighbours of visited vertices are visited or end a queued walk at most one longer than the head. */
  ghost predicate Covered(g: Adjacency, queue: seq<seq<int>>, visited: set<int>)
  {
    forall u :: u in visited && u in g ==> g[u] <= visited + Ends(queue, Front(queue) + 1)
  }

  /** The walk at the head of the queue ending at an unvisited d is a shortest walk from s to d. */
  lemma BfsFound(g: Adjacency, s: int, d: int, queue: seq<seq<int>>, visited: set<int>)
    requires BfsState(g, s, d, queue, visited) && |queue| > 0 && queue[0][|queue[0]| - 1] == d
    ensures ShortestWalk(g, queue[0], s, d) && Reachable(g, s, d)
    ensures s in g || s == d
  {
    var p := queue[0];
    assert IsWalk(g, p) && p[0] == s;
    assert PathFromTo(g, p, s, d);
    if |p| >= 2 {
      assert p[0] in g;
    }
  }

  /** The only queued walk whose last vertex can lack an entry is the initial [s]. */
  lemma BfsMissing(g: Adjacency, s: int, d: int, queue: seq<seq<int>>, visited: set<int>)
    requires Closed(g) && BfsState(g, s, d, queue, visited) && |queue| > 0
    requires queue[0][|queue[0]| - 1] !in g
    ensures queue[0][|queue[0]| - 1] == s && s !in g
  {
    var p := queue[0];
    assert IsWalk(g, p) && p[0] == s;
    if |p| >= 2 {
      assert p[|p| - 2] in g && p[|p| - 1] in g[p[|p| - 2]];
      ClosedNeighbors(g, p[|p| - 2]);
    }
  }

  /** With the queue empty, the visited vertices hold s, are closed under out-edges and miss d. */
  lemma BfsExhausted(g: Adjacency, s: int, d: int, visited: set<int>)
    requires BfsState(g, s, d, [], visited)
    ensures s in g && !Reachable(g, s, d)
  {
    assert Ends([], 1) == {};
    forall u, w | u in visited && u in g && w in g[u]
      ensures w in visited
    {
      assert g[u] <= visited + Ends([], 1);
    }
    if Reachable(g, s, d) {
      ClosedSetHoldsReachable(g, s, visited, d);
    }
  }

  lemma EndsPop(q: seq<seq<int>>, n: int)
    requires |q| > 0 && |q[0]| > 0
    ensures Ends(q, n) <= Ends(q[1..], n) + {q[0][|q[0]| - 1]}
  {
    forall x | x in Ends(q, n)
      ensures x in Ends(q[1..], n) + {q[0][|q[0]| - 1]}
    {
      var i :| 0 <= i < |q| && 0 < |q[i]| <= n && q[i][|q[i]| - 1] == x;
      if i > 0 {
        assert q[1..][i - 1] == q[i];
      }
    }
  }

  lemma EndsConcat(a: seq<seq<int>>, b: seq<seq<int>>, n: int)
    ensures Ends(a, n) <= Ends(a + b, n) && Ends(b, n) <= Ends(a + b, n)
  {
    forall x | x in Ends(a, n)
      ensures x in Ends(a + b, n)
    {
      var i :| 0 <= i < |a| && 0 < |a[i]| <= n && a[i][|a[i]| - 1] == x;
      assert (a + b)[i] == a[i];
    }
    forall x | x in Ends(b, n)
      ensures x in Ends(a + b, n)
    {
      var i :| 0 <= i < |b| && 0 < |b[i]| <= n && b[i][|b[i]| - 1] == x;
      assert (a + b)[|a| + i] == b[i];
    }
  }

  lemma EndsAbove(q: seq<seq<int>>, n: int)
    requires forall i :: 0 <= i < |q| ==> |q[i]| > n
    ensures Ends(q, n) == {}
  {
  }

  lemma ExtEnds(p: seq<int>, nbrs: set<int>, ext: seq<seq<int>>)
    requires forall w :: w in nbrs ==> p + [w] in ext
    ensures nbrs <= Ends(ext, |p| + 1)
  {
    forall w | w in nbrs
      ensures w in Ends(ext, |p| + 1)
    {
      var i :| 0 <= i < |ext| && ext[i] == p + [w];
      assert ext[i][|ext[i]| - 1] == w;
    }
  }

  /**
   * Dequeuing the head walk p, visiting its last vertex v and queuing the
   * extensions of p by the out-neighbours of v (none when v was already
   * visited) keeps the search state.
   */
  lemma BfsStep(g: Adjacency, s: int, d: int, queue: seq<seq<int>>, visited: set<int>, ext: seq<seq<int>>)
    requires BfsState(g, s, d, queue, visited) && |queue| > 0
    requires var p := queue[0]; var v := p[|p| - 1];
      || (v in visited && ext == [])
      || (&& v !in visited && v != d && v in g
          && (forall i :: 0 <= i < |ext| ==> |ext[i]| == |p| + 1 && ext[i] == p + [ext[i][|p|]] && ext[i][|p|] in g[v])
          && (forall w :: w in g[v] ==> p + [w] in ext))
    ensures BfsState(g, s, d, queue[1..] + ext, visited + {queue[0][|queue[0]| - 1]})
  {
    var p := queue[0];
    var F := |p|;
    var v := p[F - 1];
    var rest := queue[1..];
    var q' := rest + ext;
    var V' := visited + {v};
    assert IsWalk(g, p) && p[0] == s;
    // walks and lengths
    forall i | 0 <= i < |ext|
      ensures IsWalk(g, ext[i]) && ext[i][0] == s && |ext[i]| == F + 1
    {
      WalkAppend(g, p, ext[i][F]);
      assert ext[i] == p + [ext[i][F]];
    }
    BfsQueueShape(g, s, queue, ext);
    var F' := Front(q');
    assert |q'| > 0 ==> F <= F' <= F + 1;
    // the ends of the new queue
    EndsPop(queue, F);
    EndsPop(queue, F + 1);
    EndsConcat(rest, ext, F);
    EndsConcat(rest, ext, F + 1);
    if v !in visited {
      ExtEnds(p, g[v], ext);
    }
    if |q'| > 0 && F' == F + 1 {
      forall i | 0 <= i < |rest|
        ensures |rest[i]| > F
      {
        assert |queue[1]| <= |queue[i + 1]|;
      }
      EndsAbove(rest, F);
    }
    BfsLayers(g, s, d, queue, visited, ext, F');
  }

  /** Visiting the unvisited last vertex of the head walk and queuing its extensions keeps the search state. */
  lemma BfsVisitStep(g: Adjacency, s: int, d: int, queue: seq<seq<int>>, visited: set<int>, queue': seq<seq<int>>)
    requires BfsState(g, s, d, queue, visited) && |queue| > 0
    requires var p := queue[0]; var v := p[|p| - 1];
      && v !in visited && v != d && v in g
      && |queue| - 1 <= |queue'| && queue'[..|queue| - 1] == queue[1..]
      && (forall i :: |queue| - 1 <= i < |queue'| ==>
            |queue'[i]| == |p| + 1 && queue'[i] == p + [queue'[i][|p|]] && queue'[i][|p|] in g[v])
      && (forall w :: w in g[v] ==> p + [w] in queue'[|queue| - 1..])
    ensures BfsState(g, s, d, queue', visited + {queue[0][|queue[0]| - 1]})
  {
    var m := |queue| - 1;
    var ext := queue'[m..];
    assert queue' == queue[1..] + ext;
    BfsStep(g, s, d, queue, visited, ext);
  }

  /** Dequeuing a walk whose last vertex is already visited keeps the search state. */
  lemma BfsSkipStep(g: Adjacency, s: int, d: int, queue: seq<seq<int>>, visited: set<int>)
    requires BfsState(g, s, d, queue, visited) && |queue| > 0 && queue[0][|queue[0]| - 1] in visited
    ensures BfsState(g, s, d, queue[1..], visited)
  {
    BfsStep(g, s, d, queue, visited, []);
    assert queue[1..] + [] == queue[1..];
    assert visited + {queue[0][|queue[0]| - 1]} == visited;
  }

  /** The new queue holds walks from s, by non-decreasing length, at most one longer than its head. */
  lemma BfsQueueShape(g: Adjacency, s: int, queue: seq<seq<int>>, ext: seq<seq<int>>)
    requires |queue| > 0 && |queue[0]| > 0
    requires forall i :: 0 <= i < |queue| ==> IsWalk(g, queue[i]) && queue[i][0] == s
    requires forall i, j :: 0 <= i < j < |queue| ==> |queue[i]| <= |queue[j]|
    requires forall i :: 0 <= i < |queue| ==> |queue[i]| <= |queue[0]| + 1
    requires forall i :: 0 <= i < |ext| ==> IsWalk(g, ext[i]) && ext[i][0] == s && |ext[i]| == |queue[0]| + 1
    ensures QueueShape(g, s, queue[1..] + ext)
    ensures |queue[1..] + ext| > 0 ==> |queue[0]| <= Front(queue[1..] + ext) <= |queue[0]| + 1
  {
    var q' := queue[1..] + ext;
    var F := |queue[0]|;
    forall i | 0 <= i < |q'|
      ensures IsWalk(g, q'[i]) && q'[i][0] == s && F <= |q'[i]| <= F + 1
    {
      if i < |queue| - 1 {
        assert q'[i] == queue[i + 1];
      } else {
        assert q'[i] == ext[i - (|queue| - 1)];
      }
    }
    forall i, j | 0 <= i < j < |q'|
      ensures |q'[i]| <= |q'[j]|
    {
      if j < |queue| - 1 {
        assert q'[i] == queue[i + 1] && q'[j] == queue[j + 1];
      } else if i >= |queue| - 1 {
        assert q'[i] == ext[i - (|queue| - 1)] && q'[j] == ext[j - (|queue| - 1)];
      } else {
        assert q'[j] == ext[j - (|queue| - 1)];
      }
    }
  }

  /**
   * One step of the search from a state: the head walk p is dequeued and,
   * unless its last vertex v was visited, the extensions ext of p cover the
   * out-neighbours of v; F' is the new head length, and the ends of the
   * queue move as shown.
   */
  ghost predicate LayerStep(g: Adjacency, s: int, d: int, queue: seq<seq<int>>, visited: set<int>, ext: seq<seq<int>>, F': nat)
  {
    && BfsState(g, s, d, queue, visited) && |queue| > 0
    && (var p := queue[0]; var v := p[|p| - 1];
        || (v in visited && ext == [])
        || (v !in visited && v != d && v in g && g[v] <= Ends(ext, |p| + 1)))
    && F' == Front(queue[1..] + ext)
    && (|queue[1..] + ext| > 0 ==> |queue[0]| <= F' <= |queue[0]| + 1)
    && (|queue[1..] + ext| == 0 ==> queue[1..] == [] && ext == [])
    && (var p := queue[0]; var v := p[|p| - 1]; var rest := queue[1..];
        && Ends(queue, |p|) <= Ends(rest, |p|) + {v} && Ends(queue, |p| + 1) <= Ends(rest, |p| + 1) + {v}
        && Ends(rest, |p|) <= Ends(rest + ext, |p|) && Ends(rest, |p| + 1) <= Ends(rest + ext, |p| + 1)
        && Ends(ext, |p| + 1) <= Ends(rest + ext, |p| + 1)
        && (|rest + ext| > 0 && F' == |p| + 1 ==> Ends(rest, |p|) == {}))
  }

  /** The layer conjuncts of the search state after one step. */
  lemma BfsLayers(g: Adjacency, s: int, d: int, queue: seq<seq<int>>, visited: set<int>, ext: seq<seq<int>>, F': nat)
    requires LayerStep(g, s, d, queue, visited, ext, F')
    ensures LayersHold(g, s, queue[1..] + ext, visited + {queue[0][|queue[0]| - 1]})
  {
    var F := |queue[0]|;
    var q' := queue[1..] + ext;
    CoveredStep(g, s, d, queue, visited, ext, F');
    if |q'| == 0 {
      assert Front(q') == 0;
    } else if F' == F {
      NearSame(g, s, d, queue, visited, ext, F');
    } else {
      NearAdvance(g, s, d, queue, visited, ext, F');
    }
  }

  /** Out-neighbours of the visited vertices stay covered after one step. */
  lemma CoveredStep(g: Adjacency, s: int, d: int, queue: seq<seq<int>>, visited: set<int>, ext: seq<seq<int>>, F': nat)
    requires LayerStep(g, s, d, queue, visited, ext, F')
    ensures Covered(g, queue[1..] + ext, visited + {queue[0][|queue[0]| - 1]})
  {
    var p := queue[0];
    var F := |p|;
    var v := p[F - 1];
    var q' := queue[1..] + ext;
    var V := visited;
    var V' := visited + {v};
    assert Front(queue) == F;
    if |q'| == 0 {
      assert Ends(q', F + 1) == {};
    } else {
      assert Ends(q', F + 1) <= Ends(q', F' + 1);
    }
    forall u | u in V' && u in g
      ensures g[u] <= V' + Ends(q', F' + 1)
    {
      if u in V {
        assert g[u] <= V + Ends(queue, F + 1);
      }
    }
  }

  /** The near layers after a step that keeps the head length. */
  lemma NearSame(g: Adjacency, s: int, d: int, queue: seq<seq<int>>, visited: set<int>, ext: seq<seq<int>>, F': nat)
    requires LayerStep(g, s, d, queue, visited, ext, F')
    requires |queue[1..] + ext| > 0 && F' == |queue[0]|
    ensures LayersNear(g, s, queue[1..] + ext, visited + {queue[0][|queue[0]| - 1]})
  {
    var p := queue[0];
    var F := |p|;
    var v := p[F - 1];
    var q' := queue[1..] + ext;
    var V := visited;
    var V' := visited + {v};
    assert Front(queue) == F;
    if F >= 2 {
      assert Within(g, s, F - 2) <= V;
      forall u | u in Within(g, s, F - 2) && u in g
        ensures g[u] <= V' + Ends(q', F)
      {
        assert g[u] <= V + Ends(queue, F);
      }
    }
    assert Within(g, s, F - 1) <= V + Ends(queue, F);
  }

  /** The near layers after a step that moves the head to the next layer. */
  lemma NearAdvance(g: Adjacency, s: int, d: int, queue: seq<seq<int>>, visited: set<int>, ext: seq<seq<int>>, F': nat)
    requires LayerStep(g, s, d, queue, visited, ext, F')
    requires |queue[1..] + ext| > 0 && F' == |queue[0]| + 1
    ensures LayersNear(g, s, queue[1..] + ext, visited + {queue[0][|queue[0]| - 1]})
  {
    var p := queue[0];
    var F := |p|;
    var v := p[F - 1];
    var q' := queue[1..] + ext;
    var V := visited;
    var V' := visited + {v};
    assert Front(queue) == F;
    assert Within(g, s, F - 1) <= V + Ends(queue, F);
    assert Within(g, s, F - 1) <= V';
    forall u | u in Within(g, s, F - 1) && u in g
      ensures g[u] <= V' + Ends(q', F')
    {
      if u in V {
        assert g[u] <= V + Ends(queue, F + 1);
      }
    }
    forall x | x in Within(g, s, F)
      ensures x in V' + Ends(q', F')
    {
      if x !in Within(g, s, F - 1) {
        var u :| u in Within(g, s, F - 1) && u in g && x in g[u];
      }
    }
  }

  /**
   * What dfs returns when it finds destination d: its visit order, which
   * starts at s, ends at d, lists distinct vertices and lists each vertex
   * after s as discovered depth-first from some vertex listed before it.
   */
  ghost predicate VisitOrderTo(g: Adjacency, s: int, d: int, p: seq<int>)
  {
    && |p| > 0 && p[0] == s && p[|p| - 1] == d && Distinct(p)
    && DepthFirstOrdered(g, p) && d !in p[..|p| - 1]
  }

  /**
   * A visit order that the contract of Dfs allows need not be a path: on
   * the graph 1 -> 2, 1 -> 3 a search from 1 for 2 that pops 3 first
   * returns [1, 3, 2], which has no edge from 3 to 2.
   */
  lemma DfsVisitOrderNotPath()
    ensures var g := map[1 := {2, 3}, 2 := {}, 3 := {}];
            Closed(g) && VisitOrderTo(g, 1, 2, [1, 3, 2]) && !IsWalk(g, [1, 3, 2])
  {
    var g := map[1 := {2, 3}, 2 := {}, 3 := {}];
    var p := [1, 3, 2];
    assert DepthParentAt(g, p, 0, 1) by {
      assert p[0] in g && p[1] in g[p[0]];
    }
    assert DepthParentAt(g, p, 0, 2) by {
      assert p[0] in g && p[2] in g[p[0]];
      assert p[1] in g && g[p[1]] == {};
    }
    assert FromSince(g, p, 0, 1) && FromSince(g, p, 0, 2);
    assert p[2] !in g[p[1]];
  }

  /** The last vertices of the stacked walks. */
  ghost function Tops(stack: seq<seq<int>>): set<int>
  {
    set i | 0 <= i < |stack| && 0 < |stack[i]| :: stack[i][|stack[i]| - 1]
  }

  /**
   * The state of the corrected depth-first search from s for d: every
   * stacked entry is a walk from s to a vertex; d is not visited; s and
   * every out-neighbour of a visited vertex are visited or end a stacked walk.
   */
  ghost predicate PathStack(g: Adjacency, s: int, d: int, stack: seq<seq<int>>, visited: set<int>)
  {
    && visited <= g.Keys && d !in visited
    && (forall i :: 0 <= i < |stack| ==> IsWalk(g, stack[i]) && stack[i][0] == s && Last(stack[i]) in g)
    && (s in visited || s in Tops(stack))
    && (forall u, w :: u in visited && u in g && w in g[u] ==> w in visited || w in Tops(stack))
  }

  /**
   * In every stacked walk all vertices but the last are distinct and
   * visited: a walk is extended only from a vertex not yet visited.
   */
  ghost predicate VisitedBefore(stack: seq<seq<int>>, visited: set<int>)
  {
    forall i :: 0 <= i < |stack| ==>
      |stack[i]| > 0 && Distinct(stack[i][..|stack[i]| - 1]) && Elems(stack[i][..|stack[i]| - 1]) <= visited
  }

  /** Extending the popped walk, whose last vertex was not visited, keeps VisitedBefore once that vertex is visited. */
  lemma VisitedBeforeNew(stack: seq<seq<int>>, visited: set<int>, stack': seq<seq<int>>)
    requires VisitedBefore(stack, visited) && |stack| > 0 && Last(stack[|stack| - 1]) !in visited
    requires var m, p := |stack| - 1, stack[|stack| - 1];
             && m <= |stack'| && stack'[..m] == stack[..m]
             && forall i :: m <= i < |stack'| ==> |stack'[i]| == |p| + 1 && stack'[i] == p + [stack'[i][|p|]]
    ensures VisitedBefore(stack', visited + {Last(stack[|stack| - 1])})
  {
    var m, p := |stack| - 1, stack[|stack| - 1];
    var head := Last(p);
    var front := p[..|p| - 1];
    assert p == front + [head];
    DistinctAppend(front, head);
    forall i | 0 <= i < |stack'|
      ensures |stack'[i]| > 0 && Distinct(stack'[i][..|stack'[i]| - 1])
              && Elems(stack'[i][..|stack'[i]| - 1]) <= visited + {head}
    {
      if i < m {
        assert stack'[i] == stack'[..m][i] == stack[i];
      } else {
        assert stack'[i][..|stack'[i]| - 1] == p;
      }
    }
  }

  lemma VisitedBeforeSeen(stack: seq<seq<int>>, visited: set<int>)
    requires VisitedBefore(stack, visited) && |stack| > 0
    ensures VisitedBefore(stack[..|stack| - 1], visited)
  {
  }

  lemma PathStackInit(g: Adjacency, s: int, d: int)
    requires s in g
    ensures PathStack(g, s, d, [[s]], {}) && VisitedBefore([[s]], {})
  {
    var stack := [[s]];
    assert stack[0] == [s] && IsWalk(g, [s]);
    assert s in Tops(stack);
  }

  /** A popped walk ending at d is a walk from s to d. */
  lemma PathStackFound(g: Adjacency, s: int, d: int, stack: seq<seq<int>>, visited: set<int>)
    requires PathStack(g, s, d, stack, visited) && |stack| > 0 && Last(stack[|stack| - 1]) == d
    ensures PathFromTo(g, stack[|stack| - 1], s, d) && Reachable(g, s, d)
  {
    var p := stack[|stack| - 1];
    assert IsWalk(g, p) && p[0] == s;
    assert PathFromTo(g, p, s, d);
  }

  /** Visiting the last vertex of the popped walk and pushing its extensions keeps the state. */
  lemma PathStackNew(g: Adjacency, s: int, d: int, stack: seq<seq<int>>, visited: set<int>,
                     stack': seq<seq<int>>)
    requires Closed(g) && PathStack(g, s, d, stack, visited) && |stack| > 0
    requires Last(stack[|stack| - 1]) !in visited && Last(stack[|stack| - 1]) != d
    requires var m, p := |stack| - 1, stack[|stack| - 1];
             && m <= |stack'| && stack'[..m] == stack[..m]
             && (forall i :: m <= i < |stack'| ==>
                   |stack'[i]| == |p| + 1 && stack'[i] == p + [stack'[i][|p|]] && stack'[i][|p|] in g[Last(p)])
             && (forall w :: w in g[Last(p)] ==> p + [w] in stack'[m..])
    ensures PathStack(g, s, d, stack', visited + {Last(stack[|stack| - 1])})
  {
    var m, p := |stack| - 1, stack[|stack| - 1];
    var head := Last(p);
    forall i | 0 <= i < |stack'|
      ensures IsWalk(g, stack'[i]) && stack'[i][0] == s && Last(stack'[i]) in g
    {
      if i < m {
        assert stack'[i] == stack'[..m][i] == stack[i];
      } else {
        WalkAppend(g, p, stack'[i][|p|]);
      }
    }
    TopsKept(stack, stack', head);
    forall w | w in g[head]
      ensures w in Tops(stack')
    {
      var j :| 0 <= j < |stack'[m..]| && stack'[m..][j] == p + [w];
      assert stack'[m + j] == p + [w];
    }
  }

  /** Popping a walk whose last vertex is visited keeps the state. */
  lemma PathStackSeen(g: Adjacency, s: int, d: int, stack: seq<seq<int>>, visited: set<int>)
    requires PathStack(g, s, d, stack, visited) && |stack| > 0
    requires Last(stack[|stack| - 1]) in visited
    ensures PathStack(g, s, d, stack[..|stack| - 1], visited)
  {
    TopsKept(stack, stack[..|stack| - 1], Last(stack[|stack| - 1]));
  }

  /** Popping the top walk and keeping the rest loses at most the top's last vertex. */
  lemma TopsKept(stack: seq<seq<int>>, stack': seq<seq<int>>, head: int)
    requires |stack| > 0 && |stack[|stack| - 1]| > 0 && head == Last(stack[|stack| - 1])
    requires |stack| - 1 <= |stack'| && stack'[..|stack| - 1] == stack[..|stack| - 1]
    ensures Tops(stack) <= Tops(stack') + {head}
  {
    var m := |stack| - 1;
    forall w | w in Tops(stack)
      ensures w in Tops(stack') + {head}
    {
      var i :| 0 <= i < |stack| && 0 < |stack[i]| && stack[i][|stack[i]| - 1] == w;
      if i < m {
        assert stack'[i] == stack'[..m][i] == stack[i];
      }
    }
  }

  /** With the stack empty, the visited vertices hold s, are closed under out-edges and miss d. */
  lemma PathStackExhausted(g: Adjacency, s: int, d: int, visited: set<int>)
    requires PathStack(g, s, d, [], visited)
    ensures !Reachable(g, s, d)
  {
    assert Tops([]) == {};
    if Reachable(g, s, d) {
      ClosedSetHoldsReachable(g, s, visited, d);
    }
  }
}
