/**
 * The graph store: an adjacency-list graph whose multimap sends a vertex to
 * the edges stored under it, and the read-only view of it that the
 * algorithms consume. Neighbours, Vertices and Degrees are the queries the
 * algorithms call on the graph; they are defined over the adjacency map.
 * Distances (an integer or +infinity) and paths over the stored edges also
 * live here, since both shortest paths and the spanning forest speak of them.
 */
module Graphs {
  import opened Base
  import opened Edges
  import opened MultiMaps

  /** A snapshot of a graph: the adjacency map and the declared vertex count. */
  datatype Graph = Graph(adj: map<int, seq<Edge>>, verticesCount: int)

  /** The edges stored under v; none for a vertex without a collection. */
  function Neighbours(g: Graph, v: int): (r: seq<Edge>)
    ensures v in g.adj ==> r == g.adj[v]
    ensures v !in g.adj ==> r == []
  {
    Lookup(g.adj, v)
  }

  /** The vertices that have at least one stored edge. */
  function Vertices(g: Graph): (r: set<int>)
    requires WellFormed(g)
    ensures forall v :: v in r <==> |Neighbours(g, v)| > 0
  {
    g.adj.Keys
  }

  /** The number of edges stored under each vertex that has any. */
  function Degrees(g: Graph): (r: map<int, int>)
    requires WellFormed(g)
    ensures r.Keys == Vertices(g)
    ensures forall v :: v in r ==> r[v] == |Neighbours(g, v)| && r[v] > 0
  {
    map v | v in g.adj :: |g.adj[v]|
  }

  /** An edge of the graph: one stored under its own source. */
  predicate IsEdge(g: Graph, e: Edge)
  {
    e in Neighbours(g, e.source)
  }

  /**
   * What building a graph with AddEdge guarantees: keys and endpoints are
   * vertices, no stored collection is empty, and an edge is stored under its
   * source or its target, and always under its source.
   */
  ghost predicate WellFormed(g: Graph)
  {
    && g.verticesCount >= 0
    && (forall k :: k in g.adj ==> 0 <= k < g.verticesCount && |g.adj[k]| > 0)
    && (forall k, e | k in g.adj && e in g.adj[k] ::
          && 0 <= e.source < g.verticesCount && 0 <= e.target < g.verticesCount
          && (k == e.source || k == e.target)
          && IsEdge(g, e))
  }

  /** What a well-formed graph says about one stored edge. */
  lemma StoredEdge(g: Graph, k: int, e: Edge)
    requires WellFormed(g) && e in Neighbours(g, k)
    ensures 0 <= k < g.verticesCount
    ensures 0 <= e.source < g.verticesCount && 0 <= e.target < g.verticesCount
    ensures k == e.source || k == e.target
    ensures IsEdge(g, e)
  {
    assert k in g.adj;
  }

  /** Some stored edge has a negative weight. */
  ghost predicate HasNegativeEdge(g: Graph)
  {
    exists k, e :: k in g.adj && e in g.adj[k] && e.weight < 0
  }

  // ---------------------------------------------------------------------
  // Distances

  /** A tentative distance: a finite integer or +infinity. */
  datatype Dist = Inf | Fin(d: int)

  /** A distance plus an edge weight; infinity absorbs it. */
  function Plus(a: Dist, w: int): (r: Dist)
    ensures r.Inf? <==> a.Inf?
    ensures a.Fin? ==> r.d - w == a.d
  {
    if a.Inf? then Inf else Fin(a.d + w)
  }

  /** Strictly smaller, with every finite value below infinity. */
  predicate Less(a: Dist, b: Dist)
  {
    a.Fin? && (b.Inf? || a.d < b.d)
  }

  /** The comparison is a strict order whose complement is the non-strict one. */
  lemma LessFacts(a: Dist, b: Dist, c: Dist)
    ensures !Less(a, a)
    ensures Less(a, b) ==> !Less(b, a)
    ensures Less(a, b) && Less(b, c) ==> Less(a, c)
    ensures Less(a, b) || a == b || Less(b, a)
  {
  }

  // ---------------------------------------------------------------------
  // Paths over the graph's edges

  /** p is a path from s to v: consecutive edges of the graph, each leaving where the previous one ends. */
  predicate IsPath(g: Graph, s: int, v: int, p: seq<Edge>)
    decreases |p|
  {
    if |p| == 0 then v == s
    else
      var e := p[|p| - 1];
      e.target == v && IsEdge(g, e) && IsPath(g, s, e.source, p[..|p| - 1])
  }

  /** The total weight of the edges of p. */
  function PathWeight(p: seq<Edge>): int
    decreases |p|
  {
    if |p| == 0 then 0 else PathWeight(p[..|p| - 1]) + p[|p| - 1].weight
  }

  ghost predicate Reachable(g: Graph, s: int, v: int)
  {
    exists p :: IsPath(g, s, v, p)
  }

  /** A path extended by an edge of the graph leaving its end is a path one edge longer. */
  lemma {:induction false} PathSnoc(g: Graph, s: int, p: seq<Edge>, e: Edge)
    requires IsPath(g, s, e.source, p) && IsEdge(g, e)
    ensures IsPath(g, s, e.target, p + [e])
    ensures PathWeight(p + [e]) == PathWeight(p) + e.weight
  {
    assert (p + [e])[..|p|] == p;
  }

  /** A path from s to u followed by one edge in front: the one edge from s' to s, then the path. */
  lemma {:induction false} PathCons(g: Graph, e: Edge, v: int, p: seq<Edge>)
    requires IsEdge(g, e) && IsPath(g, e.target, v, p)
    ensures IsPath(g, e.source, v, [e] + p)
    ensures PathWeight([e] + p) == e.weight + PathWeight(p)
    decreases |p|
  {
    if |p| == 0 {
      assert [e] + p == [e];
      assert [e][..0] == [];
    } else {
      var last := p[|p| - 1];
      PathCons(g, e, last.source, p[..|p| - 1]);
      assert ([e] + p)[..|p|] == [e] + p[..|p| - 1];
    }
  }

  /** Consecutive edges of a path meet: each edge ends where the next one starts. */
  lemma {:induction false} PathIsChained(g: Graph, s: int, v: int, p: seq<Edge>)
    requires IsPath(g, s, v, p)
    ensures |p| > 0 ==> p[0].source == s && p[|p| - 1].target == v
    ensures forall i :: 0 <= i < |p| - 1 ==> p[i].target == p[i + 1].source
    ensures forall i :: 0 <= i < |p| ==> IsEdge(g, p[i])
    decreases |p|
  {
    if |p| > 0 {
      var q := p[..|p| - 1];
      PathIsChained(g, s, p[|p| - 1].source, q);
      assert forall i :: 0 <= i < |q| ==> p[i] == q[i];
    }
  }

  /**
   * Following any edge stored under a reachable vertex to its target stays
   * reachable: an edge stored under its own target leads back to that vertex.
   */
  lemma StepReachable(g: Graph, s: int, u: int, e: Edge)
    requires WellFormed(g) && Reachable(g, s, u) && e in Neighbours(g, u)
    ensures Reachable(g, s, e.target)
  {
    StoredEdge(g, u, e);
    var p :| IsPath(g, s, u, p);
    if e.target != u {
      PathSnoc(g, s, p, e);
    }
  }

  /**
   * A set holding s and closed under following the edges stored under its
   * members holds every vertex reachable from s.
   */
  lemma {:induction false} ClosedHoldsReachable(g: Graph, s: int, S: set<int>, v: int, p: seq<Edge>)
    requires s in S
    requires forall u, e :: u in S && e in Neighbours(g, u) ==> e.target in S
    requires IsPath(g, s, v, p)
    ensures v in S
    decreases |p|
  {
    if |p| > 0 {
      var e := p[|p| - 1];
      ClosedHoldsReachable(g, s, S, e.source, p[..|p| - 1]);
    }
  }

  // ---------------------------------------------------------------------
  // The adjacency-list graph

  /** The adjacency map after AddEdge: e appended under its source and, when undirected, under its target too. */
  function WithEdge(adj: map<int, seq<Edge>>, directed: bool, source: int, target: int, cost: int): (r: map<int, seq<Edge>>)
  {
    var e := Edge(source, target, cost);
    var once := adj[source := Lookup(adj, source) + [e]];
    if directed then once else once[target := Lookup(once, target) + [e]]
  }

  /** What AddEdge does to the collections: exactly e is appended, twice under a self-loop's vertex when undirected. */
  lemma WithEdgeCollections(adj: map<int, seq<Edge>>, directed: bool, source: int, target: int, cost: int, k: int)
    ensures var r := WithEdge(adj, directed, source, target, cost);
            var e := Edge(source, target, cost);
            && r.Keys == adj.Keys + {source} + (if directed then {} else {target})
            && (k != source && (directed || k != target) ==> Lookup(r, k) == Lookup(adj, k))
            && (k == source && (directed || k != target) ==> Lookup(r, k) == Lookup(adj, k) + [e])
            && (k != source && !directed && k == target ==> Lookup(r, k) == Lookup(adj, k) + [e])
            && (k == source && !directed && k == target ==> Lookup(r, k) == Lookup(adj, k) + [e, e])
  {
    var e := Edge(source, target, cost);
    if k == source && !directed && k == target {
      assert Lookup(adj, k) + [e] + [e] == Lookup(adj, k) + [e, e];
    }
  }

  /** Adding an edge between two vertices keeps a graph well formed. */
  lemma AddEdgeKeepsWellFormed(g: Graph, directed: bool, source: int, target: int, cost: int)
    requires WellFormed(g)
    requires 0 <= source < g.verticesCount && 0 <= target < g.verticesCount
    ensures WellFormed(Graph(WithEdge(g.adj, directed, source, target, cost), g.verticesCount))
  {
    var adj' := WithEdge(g.adj, directed, source, target, cost);
    var e := Edge(source, target, cost);
    forall k: int, x: Edge | k in adj' && x in adj'[k]
      ensures && 0 <= x.source < g.verticesCount && 0 <= x.target < g.verticesCount
              && (k == x.source || k == x.target) && x in Lookup(adj', x.source)
    {
      WithEdgeCollections(g.adj, directed, source, target, cost, k);
      WithEdgeCollections(g.adj, directed, source, target, cost, x.source);
      if x != e {
        assert x in Lookup(g.adj, k);
      }
    }
    forall k | k in adj'
      ensures 0 <= k < g.verticesCount && |adj'[k]| > 0
    {
      WithEdgeCollections(g.adj, directed, source, target, cost, k);
    }
  }

  /** In an undirected graph every stored edge sits under both of its endpoints. */
  ghost predicate Mirrored(g: Graph)
  {
    forall k, e | k in g.adj && e in g.adj[k] :: e in Neighbours(g, e.source) && e in Neighbours(g, e.target)
  }

  /** Undirected insertion keeps every edge stored under both endpoints; the new edge is not reversed. */
  lemma AddUndirectedKeepsMirrored(g: Graph, source: int, target: int, cost: int)
    requires Mirrored(g)
    ensures Mirrored(Graph(WithEdge(g.adj, false, source, target, cost), g.verticesCount))
  {
    var g' := Graph(WithEdge(g.adj, false, source, target, cost), g.verticesCount);
    var e := Edge(source, target, cost);
    forall k: int, x: Edge | k in g'.adj && x in g'.adj[k]
      ensures x in Neighbours(g', x.source) && x in Neighbours(g', x.target)
    {
      WithEdgeCollections(g.adj, false, source, target, cost, k);
      WithEdgeCollections(g.adj, false, source, target, cost, x.source);
      WithEdgeCollections(g.adj, false, source, target, cost, x.target);
      if x != e {
        assert x in Lookup(g.adj, k);
      }
    }
  }

  class AdjacencyListGraph {
    var isDirected: bool
    var isWeighted: bool
    /** Set by whoever builds the graph; the store never reads it. */
    var verticesCount: int
    const vertices: DictionaryOfCollection<int, Edge>

    ghost predicate Valid()
      reads this, vertices
    {
      !vertices.ensureUniqueness && vertices.Valid()
    }

    /** The read-only view the algorithms work on. */
    function Snapshot(): (g: Graph)
      reads this, vertices
      ensures g.adj == vertices.dict && g.verticesCount == verticesCount
    {
      Graph(vertices.dict, verticesCount)
    }

    /** A graph with no stored edges; unweighted and undirected unless told otherwise. */
    constructor (isWeighted: bool := false, isDirected: bool := false)
      ensures Valid() && fresh(vertices)
      ensures vertices.dict == map[] && verticesCount == 0
      ensures this.isDirected == isDirected && this.isWeighted == isWeighted
    {
      vertices := new DictionaryOfCollection<int, Edge>();
      this.isDirected := isDirected;
      this.isWeighted := isWeighted;
      verticesCount := 0;
    }

    /**
     * Stores Edge(source, target, cost) under source and, when undirected,
     * the same edge again under target. No endpoint is checked.
     */
    method AddEdge(source: int, target: int, cost: int := 1)
      requires Valid()
      modifies vertices
      ensures Valid()
      ensures vertices.dict == WithEdge(old(vertices.dict), isDirected, source, target, cost)
    {
      var e := NewEdge(target, source, cost);
      vertices.Add(source, e);
      if !isDirected {
        vertices.Add(target, e);
      }
    }
  }
}
