/**
 * Breadth-first search over the edges stored under each vertex. A vertex is
 * marked visited before it is queued, so no vertex is queued twice, and when
 * the queue empties the visited array marks exactly the vertices reachable
 * from the root.
 */
module BreadthFirst {
  import opened Base
  import opened Edges
  import opened Graphs

  /**
   * The search in progress: order lists the vertices queued so far, the root
   * first and none twice; done are those already dequeued and queue the rest,
   * in FIFO order; the marks are exactly the queued vertices, all reachable.
   */
  ghost predicate Searching(g: Graph, root: int, marks: seq<bool>, order: seq<int>, done: seq<int>, queue: seq<int>)
  {
    && Distinct(order) && order == done + queue
    && |order| > 0 && order[0] == root
    && (forall x :: 0 <= x < |marks| ==> (marks[x] <==> x in order))
    && (forall x :: x in order ==> 0 <= x < |marks| && Reachable(g, root, x))
  }

  /** Every edge stored under a vertex in done leads to a queued vertex. */
  ghost predicate Closed(g: Graph, done: seq<int>, order: seq<int>)
  {
    forall u, e :: u in done && e in Neighbours(g, u) ==> e.target in order
  }

  /** Marking and queueing the unmarked target of an edge stored under a queued vertex keeps the search consistent. */
  lemma Enqueue(g: Graph, root: int, marks: seq<bool>, order: seq<int>, done: seq<int>, queue: seq<int>, cur: int, e: Edge)
    requires WellFormed(g) && Searching(g, root, marks, order, done, queue)
    requires cur in order && e in Neighbours(g, cur)
    requires 0 <= e.target < |marks| && !marks[e.target]
    ensures Searching(g, root, marks[e.target := true], order + [e.target], done, queue + [e.target])
  {
    StepReachable(g, root, cur, e);
  }

  /** The queued vertices are distinct marks, so there are at most as many as marks. */
  lemma Bounded(g: Graph, root: int, marks: seq<bool>, order: seq<int>, done: seq<int>, queue: seq<int>)
    requires Searching(g, root, marks, order, done, queue)
    ensures |order| <= |marks|
  {
    forall i | 0 <= i < |order|
      ensures 0 <= order[i] < |marks|
    {
      assert order[i] in order;
    }
    DistinctBound(order, |marks|);
  }

  /** The search starts with the root marked and queued, and nothing else. */
  lemma Start(g: Graph, root: int, marks: seq<bool>)
    requires 0 <= root < |marks| && forall x :: 0 <= x < |marks| ==> (marks[x] <==> x == root)
    ensures Searching(g, root, marks, [root], [], [root]) && Closed(g, [], [root])
  {
    assert IsPath(g, root, root, []);
  }

  /** When nothing is left to dequeue, the queued vertices are exactly the reachable ones. */
  lemma Finished(g: Graph, root: int, marks: seq<bool>, order: seq<int>)
    requires Searching(g, root, marks, order, order, []) && Closed(g, order, order)
    ensures |order| > 0 && order[0] == root
    ensures Distinct(order) && |order| <= |marks|
    ensures forall x :: 0 <= x < |marks| ==> (marks[x] <==> x in order)
    ensures forall x :: 0 <= x < |marks| ==> (marks[x] <==> Reachable(g, root, x))
  {
    Bounded(g, root, marks, order, order, []);
    forall x | 0 <= x < |marks| && Reachable(g, root, x)
      ensures marks[x]
    {
      var p :| IsPath(g, root, x, p);
      ClosedHoldsReachable(g, root, (set y | y in order), x, p);
    }
  }

  class BreadthFirstSearchAlgorithm {
    const graph: Graph
    /** The marks of the latest run; no array before the first run. */
    var visited: array?<bool>

    /** The parents argument is accepted and never used. */
    constructor (graph: Graph, parents: seq<int>)
      ensures this.graph == graph && visited == null
    {
      this.graph := graph;
      visited := null;
    }

    /**
     * Allocates a fresh visited array of VerticesCount + 1 entries and, for
     * a root that indexes it, marks everything reachable from the root.
     * order is the sequence in which vertices were queued: the root first,
     * no vertex twice, exactly the marked ones.
     */
    method RunBFS(root: int) returns (r: Outcome, ghost order: seq<int>)
      requires WellFormed(graph)
      modifies this
      ensures visited != null && fresh(visited) && visited.Length == graph.verticesCount + 1
      ensures r == Pass <==> 0 <= root < visited.Length
      ensures r.Fail? ==> r.error == InvalidIndex && order == []
      ensures r == Pass ==> |order| > 0 && order[0] == root
      ensures Distinct(order) && |order| <= visited.Length
      ensures forall x :: 0 <= x < visited.Length ==> (visited[x] <==> x in order)
      ensures r == Pass ==> forall x :: 0 <= x < visited.Length ==> (visited[x] <==> Reachable(graph, root, x))
    {
      var n := graph.verticesCount;
      var v := new bool[n + 1](_ => false);
      visited := v;
      for i := 0 to n
        modifies v
        invariant forall x :: 0 <= x < v.Length ==> !v[x]
      {
        v[i] := false;
      }
      order := [];
      if !(0 <= root < v.Length) {
        return Fail(InvalidIndex), order;
      }

      v[root] := true;
      order := Search(root, v);
      r := Pass;
    }

    /** The FIFO loop: from a marked root and nothing else marked, marks what the root reaches. */
    method Search(root: int, v: array<bool>) returns (ghost order: seq<int>)
      requires WellFormed(graph) && v.Length == graph.verticesCount + 1
      requires 0 <= root < v.Length && forall x :: 0 <= x < v.Length ==> (v[x] <==> x == root)
      modifies v
      ensures |order| > 0 && order[0] == root
      ensures Distinct(order) && |order| <= v.Length
      ensures forall x :: 0 <= x < v.Length ==> (v[x] <==> x in order)
      ensures forall x :: 0 <= x < v.Length ==> (v[x] <==> Reachable(graph, root, x))
    {
      var queue := [root];
      order := [root];
      ghost var done: seq<int> := [];
      Start(graph, root, v[..]);
      while |queue| > 0
        invariant Searching(graph, root, v[..], order, done, queue)
        invariant Closed(graph, done, order)
        decreases v.Length - |done|
      {
        Bounded(graph, root, v[..], order, done, queue);
        var cur := queue[0];
        queue, order := Visit(root, v, cur, queue[1..], order, done);
        done := done + [cur];
      }
      Finished(graph, root, v[..], order);
    }

    /** Dequeues cur: marks and queues, in stored order, each target of its edges not yet marked. */
    method Visit(ghost root: int, v: array<bool>, cur: int, queue: seq<int>, ghost order: seq<int>, ghost done: seq<int>)
      returns (queue': seq<int>, ghost order': seq<int>)
      requires WellFormed(graph) && v.Length == graph.verticesCount + 1
      requires Searching(graph, root, v[..], order, done + [cur], queue)
      requires Closed(graph, done, order)
      modifies v
      ensures Searching(graph, root, v[..], order', done + [cur], queue')
      ensures Closed(graph, done + [cur], order')
    {
      queue', order' := queue, order;
      var neighbours := Neighbours(graph, cur);
      for j := 0 to |neighbours|
        invariant Searching(graph, root, v[..], order', done + [cur], queue')
        invariant Closed(graph, done, order')
        invariant forall k :: 0 <= k < j ==> neighbours[k].target in order'
      {
        var e := neighbours[j];
        StoredEdge(graph, cur, e);
        if !v[e.target] {
          Enqueue(graph, root, v[..], order', done + [cur], queue', cur, e);
          v[e.target] := true;
          queue' := queue' + [e.target];
          order' := order' + [e.target];
        }
      }
    }
  }
}
