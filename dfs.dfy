/**
 * Depth-first search with an explicit stack and a visited set. A popped
 * vertex already visited is skipped, so each vertex is expanded at most
 * once; only targets not yet visited are pushed. When the stack empties the
 * visited set is exactly the set of vertices reachable from the root.
 */
module DepthFirst {
  import opened Base
  import opened Edges
  import opened Graphs

  /** The vertices a search from root can ever meet: the root and the graph's vertices. */
  ghost function Candidates(g: Graph, root: int): set<int>
  {
    {root} + Below(if g.verticesCount < 0 then 0 else g.verticesCount)
  }

  /**
   * The search in progress: the root is visited or still stacked, everything
   * visited or stacked is reachable from the root and a candidate, and the
   * expanded vertices are the visited ones, each expanded once.
   */
  ghost predicate Sound(g: Graph, root: int, visited: set<int>, stack: seq<int>, expanded: seq<int>)
  {
    && (root in visited || root in stack)
    && (forall x :: x in visited ==> x in Candidates(g, root) && Reachable(g, root, x))
    && (forall x :: x in stack ==> x in Candidates(g, root) && Reachable(g, root, x))
    && Distinct(expanded) && (forall x :: x in expanded <==> x in visited)
  }

  /** Every edge stored under a vertex of done leads to a visited or a stacked vertex. */
  ghost predicate Closed(g: Graph, done: set<int>, visited: set<int>, stack: seq<int>)
  {
    forall u, e :: u in done && e in Neighbours(g, u) ==> e.target in visited || e.target in stack
  }

  /** The search starts with only the root on the stack. */
  lemma Start(g: Graph, root: int)
    ensures Sound(g, root, {}, [root], []) && Closed(g, {}, {}, [root])
  {
    assert IsPath(g, root, root, []);
  }

  /** Popping a vertex already visited loses nothing. */
  lemma PopVisited(g: Graph, root: int, visited: set<int>, stack: seq<int>, expanded: seq<int>)
    requires Sound(g, root, visited, stack, expanded) && Closed(g, visited, visited, stack)
    requires |stack| > 0 && stack[|stack| - 1] in visited
    ensures Sound(g, root, visited, stack[..|stack| - 1], expanded)
    ensures Closed(g, visited, visited, stack[..|stack| - 1])
  {
    var rest := stack[..|stack| - 1];
    assert forall x :: x in stack ==> x in rest || x == stack[|stack| - 1];
  }

  /** Popping a new vertex visits it; the edges stored under it are still to be followed. */
  lemma PopNew(g: Graph, root: int, visited: set<int>, stack: seq<int>, expanded: seq<int>)
    requires Sound(g, root, visited, stack, expanded) && Closed(g, visited, visited, stack)
    requires |stack| > 0 && stack[|stack| - 1] !in visited
    ensures var c := stack[|stack| - 1];
            && Sound(g, root, visited + {c}, stack[..|stack| - 1], expanded + [c])
            && Closed(g, visited, visited + {c}, stack[..|stack| - 1])
            && |Candidates(g, root) - (visited + {c})| < |Candidates(g, root) - visited|
  {
    var c := stack[|stack| - 1];
    var rest := stack[..|stack| - 1];
    assert forall x :: x in stack ==> x in rest || x == c;
    assert Candidates(g, root) - (visited + {c}) == (Candidates(g, root) - visited) - {c};
  }

  /** Pushing the target of an edge stored under a visited vertex keeps the search sound. */
  lemma Push(g: Graph, root: int, visited: set<int>, stack: seq<int>, expanded: seq<int>, c: int, e: Edge)
    requires WellFormed(g) && Sound(g, root, visited, stack, expanded)
    requires c in visited && e in Neighbours(g, c)
    ensures Sound(g, root, visited, stack + [e.target], expanded)
  {
    StoredEdge(g, c, e);
    StepReachable(g, root, c, e);
    BelowFacts(g.verticesCount);
  }

  /** When the stack is empty, the visited vertices are exactly the reachable ones. */
  lemma Finished(g: Graph, root: int, visited: set<int>, expanded: seq<int>)
    requires Sound(g, root, visited, [], expanded) && Closed(g, visited, visited, [])
    ensures forall x :: x in visited <==> Reachable(g, root, x)
    ensures Distinct(expanded) && forall x :: x in expanded <==> x in visited
  {
    forall x | Reachable(g, root, x)
      ensures x in visited
    {
      var p :| IsPath(g, root, x, p);
      ClosedHoldsReachable(g, root, visited, x, p);
    }
  }

  class DepthFirstSearchAlgorithm {
    const graph: Graph

    constructor (graph: Graph)
      ensures this.graph == graph
    {
      this.graph := graph;
    }

    /**
     * The set of visited vertices when the stack empties: exactly those
     * reachable from root. expanded lists them in the order they were
     * expanded, none twice. No range check: a root without stored edges
     * visits only itself.
     */
    method RunDfs(root: int) returns (visited: set<int>, ghost expanded: seq<int>)
      requires WellFormed(graph)
      ensures forall x :: x in visited <==> Reachable(graph, root, x)
      ensures Distinct(expanded) && forall x :: x in expanded <==> x in visited
    {
      var stack := [root];
      visited := {};
      expanded := [];
      Start(graph, root);
      while |stack| != 0
        invariant Sound(graph, root, visited, stack, expanded) && Closed(graph, visited, visited, stack)
        decreases |Candidates(graph, root) - visited|, |stack|
      {
        var current := stack[|stack| - 1];
        if current in visited {
          PopVisited(graph, root, visited, stack, expanded);
          stack := stack[..|stack| - 1];
          continue;
        }
        PopNew(graph, root, visited, stack, expanded);
        stack := stack[..|stack| - 1];
        visited := visited + {current};
        expanded := expanded + [current];
        stack := PushUnvisited(root, current, visited, stack, expanded);
      }
      Finished(graph, root, visited, expanded);
    }

    /** Pushes, in stored order, the target of each edge stored under current that is not visited. */
    method PushUnvisited(ghost root: int, current: int, visited: set<int>, stack: seq<int>, ghost expanded: seq<int>)
      returns (stack': seq<int>)
      requires WellFormed(graph) && current in visited
      requires Sound(graph, root, visited, stack, expanded) && Closed(graph, visited - {current}, visited, stack)
      ensures Sound(graph, root, visited, stack', expanded) && Closed(graph, visited, visited, stack')
    {
      stack' := stack;
      var neighbours := Neighbours(graph, current);
      for j := 0 to |neighbours|
        invariant Sound(graph, root, visited, stack', expanded)
        invariant Closed(graph, visited - {current}, visited, stack')
        invariant forall k :: 0 <= k < j ==> neighbours[k].target in visited || neighbours[k].target in stack'
      {
        var e := neighbours[j];
        if e.target !in visited {
          Push(graph, root, visited, stack', expanded, current, e);
          stack' := stack' + [e.target];
        }
      }
    }
  }
}
