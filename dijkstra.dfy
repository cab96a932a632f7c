/**
 * Dijkstra: single-source shortest paths over a graph with non-negative
 * weights, driven by the indexed minimum-priority queue. The distance and
 * predecessor-edge arrays have one slot more than there are vertices, as in
 * the source; the extra slot (index VerticesCount) keeps distance 0 and no
 * edge. A relaxation reads the edge's own source and target, so an
 * undirected edge stored under its target is never travelled backwards.
 *
 * The proof keeps a ghost record of the vertices taken from the queue, in
 * the order they were taken ("settled").
 */
module ShortestPaths {
  import opened Base
  import opened Edges
  import opened Graphs
  import opened PriorityQueues

  /** Every stored edge weighs at least 0. */
  ghost predicate NonNegative(g: Graph)
  {
    forall k, e | k in g.adj && e in g.adj[k] :: e.weight >= 0
  }

  /** The arrays' shape: one slot per vertex and the extra slot at distance 0 with no edge. */
  ghost predicate Shaped(g: Graph, D: seq<Dist>, E: seq<Option<Edge>>)
  {
    && WellFormed(g) && NonNegative(g)
    && |D| == g.verticesCount + 1 && |E| == g.verticesCount + 1
    && D[g.verticesCount] == Fin(0) && E[g.verticesCount] == None
  }

  // ---------------------------------------------------------------------
  // The state of a run, one fact at a time

  /** s is at distance 0 with no edge, and any other vertex without an edge is unreached. */
  ghost predicate Rooted(g: Graph, s: int, D: seq<Dist>, E: seq<Option<Edge>>)
  {
    && 0 <= s < g.verticesCount && s < |D| && s < |E| && D[s] == Fin(0) && E[s] == None
    && forall w :: 0 <= w < g.verticesCount && w < |D| && w < |E| && E[w].None? && w != s ==> D[w] == Inf
  }

  /** Queued vertices are vertices, each queued with its distance as key. */
  ghost predicate Keyed(n: int, D: seq<Dist>, Q: map<int, int>)
  {
    forall x :: x in Q ==> 0 <= x < n && x < |D| && D[x] == Fin(Q[x])
  }

  /** Settled vertices are distinct vertices with finite distances, no longer queued. */
  ghost predicate SettledOk(n: int, D: seq<Dist>, Q: map<int, int>, S: seq<int>)
  {
    && Distinct(S)
    && forall i :: 0 <= i < |S| ==> 0 <= S[i] < n && S[i] < |D| && S[i] !in Q && D[S[i]].Fin?
  }

  /** Vertices were settled in non-decreasing order of distance. */
  ghost predicate Ordered(D: seq<Dist>, S: seq<int>)
  {
    forall i, j :: 0 <= i < j < |S| && 0 <= S[i] < |D| && 0 <= S[j] < |D| ==> !Less(D[S[j]], D[S[i]])
  }

  /** No settled distance exceeds a queued key. */
  ghost predicate BelowQueue(D: seq<Dist>, Q: map<int, int>, S: seq<int>)
  {
    forall i, x :: 0 <= i < |S| && 0 <= S[i] < |D| && x in Q ==> !Less(Fin(Q[x]), D[S[i]])
  }

  /** Every finite distance is non-negative and belongs to a queued or a settled vertex. */
  ghost predicate Accounted(n: int, D: seq<Dist>, Q: map<int, int>, S: seq<int>)
  {
    forall x :: 0 <= x < n && x < |D| && D[x].Fin? ==> D[x].d >= 0 && (x in Q || x in S)
  }

  /** Every finite distance is the weight of some path from s. */
  ghost predicate Sound(g: Graph, s: int, D: seq<Dist>)
  {
    forall x :: 0 <= x < g.verticesCount && x < |D| && D[x].Fin? ==> exists p :: IsPath(g, s, x, p) && PathWeight(p) == D[x].d
  }

  /**
   * The recorded predecessor edge of w: an edge of the graph into w from a
   * settled vertex, settled before w if w is settled, whose distance plus the
   * edge's weight is w's distance.
   */
  ghost predicate TreeEdge(g: Graph, D: seq<Dist>, S: seq<int>, w: int, e: Edge)
  {
    && e.target == w && IsEdge(g, e) && e.source in S
    && 0 <= e.source < |D| && 0 <= w < |D| && D[e.source].Fin?
    && D[w] == Plus(D[e.source], e.weight)
    && (w in S ==> IndexOf(S, e.source) < IndexOf(S, w))
  }

  /** Every recorded predecessor edge is a tree edge. */
  ghost predicate Tree(g: Graph, D: seq<Dist>, E: seq<Option<Edge>>, S: seq<int>)
  {
    forall w :: 0 <= w < g.verticesCount && w < |E| && E[w].Some? ==> TreeEdge(g, D, S, w, E[w].value)
  }

  /**
   * The state of a run from s while the queue holds Q and the vertices S have
   * been taken from it, in that order.
   */
  ghost predicate Core(g: Graph, s: int, D: seq<Dist>, E: seq<Option<Edge>>, Q: map<int, int>, S: seq<int>)
  {
    var n := g.verticesCount;
    && Shaped(g, D, E) && Rooted(g, s, D, E) && Keyed(n, D, Q)
    && SettledOk(n, D, Q, S) && Ordered(D, S) && BelowQueue(D, Q, S)
    && Accounted(n, D, Q, S) && Sound(g, s, D) && Tree(g, D, E, S)
  }

  /** No edge in es that leaves u offers its target a shorter distance than it has. */
  ghost predicate Relaxed(D: seq<Dist>, u: int, es: seq<Edge>)
  {
    forall e :: e in es && e.source == u && 0 <= u < |D| && 0 <= e.target < |D| ==>
      !Less(Plus(D[u], e.weight), D[e.target])
  }

  /** The first k settled vertices have had all their edges relaxed. */
  ghost predicate AllRelaxed(g: Graph, D: seq<Dist>, S: seq<int>, k: int)
  {
    forall i {:trigger Relaxed(D, S[i], Neighbours(g, S[i]))} :: 0 <= i < k && i < |S| ==> Relaxed(D, S[i], Neighbours(g, S[i]))
  }

  /** Between two queue extractions. */
  ghost predicate Between(g: Graph, s: int, D: seq<Dist>, E: seq<Option<Edge>>, Q: map<int, int>, S: seq<int>)
  {
    Core(g, s, D, E, Q, S) && AllRelaxed(g, D, S, |S|)
  }

  /** While scanning v, the last vertex taken, whose edges in done have been relaxed. */
  ghost predicate Scanning(g: Graph, s: int, D: seq<Dist>, E: seq<Option<Edge>>, Q: map<int, int>, S: seq<int>, v: int, done: seq<Edge>)
  {
    && |S| > 0 && S[|S| - 1] == v
    && Core(g, s, D, E, Q, S) && AllRelaxed(g, D, S, |S| - 1) && Relaxed(D, v, done)
  }

  /** Distances are shortest: finite exactly for the vertices reachable from s, and then the least weight of a path. */
  ghost predicate ShortestFrom(g: Graph, s: int, D: seq<Dist>)
    requires |D| >= g.verticesCount
  {
    forall v :: 0 <= v < g.verticesCount ==>
      && (D[v].Fin? <==> Reachable(g, s, v))
      && (D[v].Fin? ==> exists p :: IsPath(g, s, v, p) && PathWeight(p) == D[v].d)
      && (D[v].Fin? ==> forall p :: IsPath(g, s, v, p) ==> D[v].d <= PathWeight(p))
  }

  /** The only finite vertex without a predecessor edge is s, at distance 0. */
  ghost predicate Anchored(g: Graph, s: int, D: seq<Dist>, E: seq<Option<Edge>>)
  {
    forall w :: 0 <= w < g.verticesCount && w < |D| && w < |E| && E[w].None? && D[w].Fin? ==> w == s && D[w] == Fin(0)
  }

  /**
   * The state between public calls, before and after a run: every finite
   * distance belongs to a settled vertex, the predecessor edges form a tree,
   * and the only finite vertex without an edge is s, at distance 0.
   */
  ghost predicate Idle(g: Graph, s: int, D: seq<Dist>, E: seq<Option<Edge>>, S: seq<int>)
  {
    var n := g.verticesCount;
    && Shaped(g, D, E) && SettledOk(n, D, map[], S) && Accounted(n, D, map[], S)
    && Tree(g, D, E, S) && Anchored(g, s, D, E)
  }

  // ---------------------------------------------------------------------
  // Starting a run

  /** Freshly initialised arrays, with nothing settled, are an idle state from any vertex. */
  lemma Blank(g: Graph, s: int, D: seq<Dist>, E: seq<Option<Edge>>)
    requires Shaped(g, D, E)
    requires forall x :: 0 <= x < g.verticesCount ==> D[x] == Inf && E[x] == None
    ensures Idle(g, s, D, E, [])
  {
  }

  /** Inserting the source into an empty queue over freshly initialised arrays starts a run. */
  lemma Start(g: Graph, s: int, D: seq<Dist>, E: seq<Option<Edge>>)
    requires Shaped(g, D, E) && 0 <= s < g.verticesCount
    requires forall x :: 0 <= x < g.verticesCount ==> D[x] == Inf && E[x] == None
    ensures Between(g, s, D[s := Fin(0)], E, map[s := 0], [])
  {
    var D' := D[s := Fin(0)];
    assert IsPath(g, s, s, []) && PathWeight([]) == 0;
    forall x | 0 <= x < g.verticesCount && x < |D'| && D'[x].Fin?
      ensures exists p :: IsPath(g, s, x, p) && PathWeight(p) == D'[x].d
    {
      assert x == s;
    }
    assert Sound(g, s, D');
  }

  // ---------------------------------------------------------------------
  // Taking the vertex of least key from the queue

  lemma TakeMinSettled(n: int, D: seq<Dist>, Q: map<int, int>, S: seq<int>, v: int)
    requires SettledOk(n, D, Q, S) && Keyed(n, D, Q) && v in Q
    ensures v !in S && SettledOk(n, D, Q - {v}, S + [v])
  {
    assert forall i :: 0 <= i < |S| ==> S[i] != v;
    var S' := S + [v];
    assert forall i :: 0 <= i < |S| ==> S'[i] == S[i];
  }

  lemma TakeMinOrdered(D: seq<Dist>, Q: map<int, int>, S: seq<int>, v: int)
    requires Ordered(D, S) && BelowQueue(D, Q, S)
    requires v in Q && 0 <= v < |D| && D[v] == Fin(Q[v])
    ensures Ordered(D, S + [v])
  {
    var S' := S + [v];
    forall i, j | 0 <= i < j < |S'| && 0 <= S'[i] < |D| && 0 <= S'[j] < |D|
      ensures !Less(D[S'[j]], D[S'[i]])
    {
      if j < |S| {
        assert S'[i] == S[i] && S'[j] == S[j];
      } else {
        assert S'[i] == S[i] && S'[j] == v;
      }
    }
  }

  lemma TakeMinBelow(D: seq<Dist>, Q: map<int, int>, S: seq<int>, v: int)
    requires BelowQueue(D, Q, S)
    requires v in Q && 0 <= v < |D| && D[v] == Fin(Q[v])
    requires forall x :: x in Q ==> Q[v] <= Q[x]
    ensures BelowQueue(D, Q - {v}, S + [v])
  {
    var S', Q' := S + [v], Q - {v};
    forall i, x | 0 <= i < |S'| && 0 <= S'[i] < |D| && x in Q'
      ensures !Less(Fin(Q'[x]), D[S'[i]])
    {
      if i < |S| {
        assert S'[i] == S[i];
      }
    }
  }

  lemma TakeMinAccounted(n: int, D: seq<Dist>, Q: map<int, int>, S: seq<int>, v: int)
    requires Accounted(n, D, Q, S)
    ensures Accounted(n, D, Q - {v}, S + [v])
  {
    forall x | 0 <= x < n && x < |D| && D[x].Fin?
      ensures x in Q - {v} || x in S + [v]
    {
      if x != v && x in S {
        var i :| 0 <= i < |S| && S[i] == x;
        assert (S + [v])[i] == x;
      }
    }
  }

  lemma TakeMinTree(g: Graph, D: seq<Dist>, E: seq<Option<Edge>>, S: seq<int>, v: int)
    requires Tree(g, D, E, S) && v !in S
    ensures Tree(g, D, E, S + [v])
  {
    IndexOfSnoc(S, v);
    forall w | 0 <= w < g.verticesCount && w < |E| && E[w].Some?
      ensures TreeEdge(g, D, S + [v], w, E[w].value)
    {
      assert TreeEdge(g, D, S, w, E[w].value);
    }
  }

  lemma TakeMinRelaxed(g: Graph, D: seq<Dist>, S: seq<int>, v: int)
    requires AllRelaxed(g, D, S, |S|)
    ensures AllRelaxed(g, D, S + [v], |S|)
  {
    forall i | 0 <= i < |S|
      ensures Relaxed(D, (S + [v])[i], Neighbours(g, (S + [v])[i]))
    {
      assert (S + [v])[i] == S[i];
    }
  }

  /** Taking a vertex of least key from the queue makes it the last settled vertex, with no edge relaxed yet. */
  lemma TakeMin(g: Graph, s: int, D: seq<Dist>, E: seq<Option<Edge>>, Q: map<int, int>, S: seq<int>, v: int)
    requires Between(g, s, D, E, Q, S)
    requires v in Q && forall x :: x in Q ==> Q[v] <= Q[x]
    ensures Scanning(g, s, D, E, Q - {v}, S + [v], v, [])
  {
    var n := g.verticesCount;
    TakeMinSettled(n, D, Q, S, v);
    TakeMinOrdered(D, Q, S, v);
    TakeMinBelow(D, Q, S, v);
    TakeMinAccounted(n, D, Q, S, v);
    TakeMinTree(g, D, E, S, v);
    TakeMinRelaxed(g, D, S, v);
    assert Keyed(n, D, Q - {v});
  }

  // ---------------------------------------------------------------------
  // Relaxing an edge of the vertex being scanned

  /** Relaxing an edge that offers nothing shorter changes nothing and adds it to the edges done. */
  lemma RelaxKeeps(g: Graph, s: int, D: seq<Dist>, E: seq<Option<Edge>>, Q: map<int, int>, S: seq<int>, v: int, done: seq<Edge>, e: Edge)
    requires Scanning(g, s, D, E, Q, S, v, done)
    requires 0 <= e.source < |D| && 0 <= e.target < |D|
    requires !Less(Plus(D[e.source], e.weight), D[e.target])
    ensures Scanning(g, s, D, E, Q, S, v, done + [e])
  {
    assert Relaxed(D, v, done + [e]);
  }

  /** The vertex being scanned has the largest distance of all settled vertices. */
  lemma LastIsLargest(D: seq<Dist>, S: seq<int>, v: int)
    requires |S| > 0 && S[|S| - 1] == v && 0 <= v < |D|
    requires Ordered(D, S)
    ensures forall i :: 0 <= i < |S| && 0 <= S[i] < |D| ==> !Less(D[v], D[S[i]])
  {
    forall i | 0 <= i < |S| && 0 <= S[i] < |D|
      ensures !Less(D[v], D[S[i]])
    {
      if i < |S| - 1 {
        assert !Less(D[S[|S| - 1]], D[S[i]]);
      }
    }
  }

  /** A shorter offer can only come from the vertex being scanned, along one of its own edges, to an unsettled vertex other than s. */
  lemma OfferFromScanned(g: Graph, s: int, D: seq<Dist>, E: seq<Option<Edge>>, Q: map<int, int>, S: seq<int>, v: int, done: seq<Edge>, e: Edge)
    requires Scanning(g, s, D, E, Q, S, v, done)
    requires e in Neighbours(g, v)
    requires 0 <= e.source < |D| && 0 <= e.target < |D|
    requires Less(Plus(D[e.source], e.weight), D[e.target])
    ensures e.source == v && e.target !in S && e.target != s
    ensures 0 <= e.target < g.verticesCount && 0 <= v < g.verticesCount
  {
    Offer(g, s, D, Q, S, v, e);
  }

  /** OfferFromScanned, from only the facts about distances its argument needs. */
  lemma Offer(g: Graph, s: int, D: seq<Dist>, Q: map<int, int>, S: seq<int>, v: int, e: Edge)
    requires WellFormed(g) && NonNegative(g) && |D| == g.verticesCount + 1
    requires 0 <= s < g.verticesCount && D[s] == Fin(0)
    requires Keyed(g.verticesCount, D, Q) && SettledOk(g.verticesCount, D, Q, S) && Ordered(D, S)
    requires BelowQueue(D, Q, S) && Accounted(g.verticesCount, D, Q, S)
    requires |S| > 0 && S[|S| - 1] == v && AllRelaxed(g, D, S, |S| - 1)
    requires e in Neighbours(g, v)
    requires 0 <= e.source < |D| && 0 <= e.target < |D|
    requires Less(Plus(D[e.source], e.weight), D[e.target])
    ensures e.source == v && e.target !in S && e.target != s
    ensures 0 <= e.target < g.verticesCount && 0 <= v < g.verticesCount
  {
    var u, w := e.source, e.target;
    StoredEdge(g, v, e);
    LastIsLargest(D, S, v);
    assert v in g.adj;
    assert e.weight >= 0;
    assert D[v].Fin? && D[v].d >= 0 && D[u].Fin?;
    var init := S[..|S| - 1];
    assert S == init + [v];
    assert u in S ==> u == v || u in init;
    EarlierRelaxed(g, D, S, |S| - 1);
  }

  /** Every vertex settled among the first k has had its edges relaxed. */
  lemma EarlierRelaxed(g: Graph, D: seq<Dist>, S: seq<int>, k: int)
    requires AllRelaxed(g, D, S, k) && 0 <= k <= |S|
    ensures forall x :: x in S[..k] ==> Relaxed(D, x, Neighbours(g, x))
  {
    forall x | x in S[..k]
      ensures Relaxed(D, x, Neighbours(g, x))
    {
      var i :| 0 <= i < k && S[..k][i] == x;
      assert S[i] == x;
    }
  }

  lemma ImproveKeyed(n: int, D: seq<Dist>, Q: map<int, int>, w: int, k: int)
    requires Keyed(n, D, Q) && 0 <= w < n && w < |D|
    ensures Keyed(n, D[w := Fin(k)], Q[w := k])
  {
  }

  lemma ImproveSettled(n: int, D: seq<Dist>, Q: map<int, int>, S: seq<int>, w: int, k: int)
    requires SettledOk(n, D, Q, S) && w !in S && 0 <= w < |D|
    ensures SettledOk(n, D[w := Fin(k)], Q[w := k], S)
  {
    assert forall i :: 0 <= i < |S| ==> S[i] != w;
  }

  lemma ImproveOrdered(D: seq<Dist>, S: seq<int>, w: int, d: Dist)
    requires Ordered(D, S) && w !in S && 0 <= w < |D|
    ensures Ordered(D[w := d], S)
  {
    assert forall i :: 0 <= i < |S| ==> S[i] != w;
  }

  lemma ImproveBelow(D: seq<Dist>, Q: map<int, int>, S: seq<int>, w: int, k: int)
    requires BelowQueue(D, Q, S) && w !in S && 0 <= w < |D|
    requires forall i :: 0 <= i < |S| && 0 <= S[i] < |D| ==> !Less(Fin(k), D[S[i]])
    ensures BelowQueue(D[w := Fin(k)], Q[w := k], S)
  {
    assert forall i :: 0 <= i < |S| ==> S[i] != w;
  }

  lemma ImproveAccounted(n: int, D: seq<Dist>, Q: map<int, int>, S: seq<int>, w: int, k: int)
    requires Accounted(n, D, Q, S) && 0 <= w < |D| && k >= 0
    ensures Accounted(n, D[w := Fin(k)], Q[w := k], S)
  {
  }

  lemma ImproveSound(g: Graph, s: int, D: seq<Dist>, e: Edge)
    requires Sound(g, s, D) && IsEdge(g, e)
    requires 0 <= e.source < g.verticesCount && e.source < |D| && D[e.source].Fin? && 0 <= e.target < |D|
    ensures Sound(g, s, D[e.target := Plus(D[e.source], e.weight)])
  {
    var D' := D[e.target := Plus(D[e.source], e.weight)];
    var p :| IsPath(g, s, e.source, p) && PathWeight(p) == D[e.source].d;
    PathSnoc(g, s, p, e);
    forall x | 0 <= x < g.verticesCount && x < |D'| && D'[x].Fin?
      ensures exists p :: IsPath(g, s, x, p) && PathWeight(p) == D'[x].d
    {
      if x == e.target {
        assert IsPath(g, s, x, p + [e]) && PathWeight(p + [e]) == D'[x].d;
      }
    }
  }

  lemma ImproveTree(g: Graph, D: seq<Dist>, E: seq<Option<Edge>>, S: seq<int>, e: Edge)
    requires Tree(g, D, E, S) && e.target !in S && 0 <= e.target < |D| && e.target < |E| && 0 <= e.source < |D|
    requires TreeEdge(g, D[e.target := Plus(D[e.source], e.weight)], S, e.target, e)
    ensures Tree(g, D[e.target := Plus(D[e.source], e.weight)], E[e.target := Some(e)], S)
  {
    var w, D', E' := e.target, D[e.target := Plus(D[e.source], e.weight)], E[e.target := Some(e)];
    forall x | 0 <= x < g.verticesCount && x < |E'| && E'[x].Some?
      ensures TreeEdge(g, D', S, x, E'[x].value)
    {
      if x != w {
        assert TreeEdge(g, D, S, x, E[x].value);
        assert E[x].value.source != w;
      }
    }
  }

  lemma ImproveRooted(g: Graph, s: int, D: seq<Dist>, E: seq<Option<Edge>>, w: int, d: Dist, e: Edge)
    requires Rooted(g, s, D, E) && w != s && 0 <= w < |D| && w < |E|
    ensures Rooted(g, s, D[w := d], E[w := Some(e)])
  {
  }

  lemma ImproveRelaxed(g: Graph, D: seq<Dist>, S: seq<int>, v: int, done: seq<Edge>, e: Edge)
    requires |S| > 0 && S[|S| - 1] == v && AllRelaxed(g, D, S, |S| - 1) && Relaxed(D, v, done)
    requires e.source == v && 0 <= v < |D| && 0 <= e.target < |D| && e.target !in S
    requires Less(Plus(D[v], e.weight), D[e.target])
    ensures var D' := D[e.target := Plus(D[v], e.weight)];
            AllRelaxed(g, D', S, |S| - 1) && Relaxed(D', v, done + [e])
  {
    var w, D' := e.target, D[e.target := Plus(D[v], e.weight)];
    assert forall i :: 0 <= i < |S| ==> S[i] != w;
    forall i | 0 <= i < |S| - 1
      ensures Relaxed(D', S[i], Neighbours(g, S[i]))
    {
      assert Relaxed(D, S[i], Neighbours(g, S[i]));
    }
  }

  /** Accepting a shorter offer from the scanned vertex v keeps the run's state. */
  lemma RelaxImproves(g: Graph, s: int, D: seq<Dist>, E: seq<Option<Edge>>, Q: map<int, int>, S: seq<int>, v: int, done: seq<Edge>, e: Edge)
    requires Scanning(g, s, D, E, Q, S, v, done)
    requires e in Neighbours(g, v) && e.source == v
    requires 0 <= e.target < g.verticesCount && e.target !in S && e.target != s
    requires Less(Plus(D[v], e.weight), D[e.target])
    ensures var w, nd := e.target, Plus(D[v], e.weight);
            && nd.Fin? && (w in Q ==> nd.d < Q[w])
            && Scanning(g, s, D[w := nd], E[w := Some(e)], Q[w := nd.d], S, v, done + [e])
  {
    var n, w, nd := g.verticesCount, e.target, Plus(D[v], e.weight);
    StoredEdge(g, v, e);
    assert v in g.adj && e.weight >= 0;
    LastIsLargest(D, S, v);
    assert D[v].Fin? && D[v].d >= 0;
    ImproveKeyed(n, D, Q, w, nd.d);
    ImproveSettled(n, D, Q, S, w, nd.d);
    ImproveOrdered(D, S, w, nd);
    ImproveBelow(D, Q, S, w, nd.d);
    ImproveAccounted(n, D, Q, S, w, nd.d);
    ImproveSound(g, s, D, e);
    assert v in S && v != w;
    ImproveTree(g, D, E, S, e);
    ImproveRooted(g, s, D, E, w, nd, e);
    ImproveRelaxed(g, D, S, v, done, e);
  }

  /**
   * What relaxing e does to the distances, the predecessor edges and the
   * queue: when e's source plus e's weight is strictly less than its
   * target's distance, the target gets that distance, e as its edge and that
   * key in the queue; otherwise nothing changes.
   */
  ghost function Relaxation(D: seq<Dist>, E: seq<Option<Edge>>, Q: map<int, int>, e: Edge): (r: (seq<Dist>, seq<Option<Edge>>, map<int, int>))
    requires 0 <= e.source < |D| && 0 <= e.target < |D| && |E| == |D|
    ensures |r.0| == |D| && |r.1| == |E|
    ensures (r.0, r.1, r.2) != (D, E, Q) ==> Less(Plus(D[e.source], e.weight), D[e.target])
    ensures Less(Plus(D[e.source], e.weight), D[e.target]) ==> r.0[e.target] != D[e.target] && r.1[e.target] == Some(e)
    ensures forall x :: 0 <= x < |D| ==> !Less(D[x], r.0[x])
    ensures forall x :: 0 <= x < |D| && x != e.target ==> r.0[x] == D[x] && r.1[x] == E[x]
    ensures forall x :: x in Q ==> x in r.2
  {
    var w, nd := e.target, Plus(D[e.source], e.weight);
    if Less(nd, D[w]) then (D[w := nd], E[w := Some(e)], Q[w := nd.d]) else (D, E, Q)
  }

  /** Relaxing an edge stored under the vertex being scanned keeps the run's state. */
  lemma RelaxStep(g: Graph, s: int, D: seq<Dist>, E: seq<Option<Edge>>, Q: map<int, int>, S: seq<int>, v: int, done: seq<Edge>, e: Edge)
    requires Scanning(g, s, D, E, Q, S, v, done) && e in Neighbours(g, v)
    ensures 0 <= e.source < g.verticesCount && 0 <= e.target < g.verticesCount
    ensures var r := Relaxation(D, E, Q, e); Scanning(g, s, r.0, r.1, r.2, S, v, done + [e])
  {
    StoredEdge(g, v, e);
    if Less(Plus(D[e.source], e.weight), D[e.target]) {
      OfferFromScanned(g, s, D, E, Q, S, v, done, e);
      RelaxImproves(g, s, D, E, Q, S, v, done, e);
    } else {
      RelaxKeeps(g, s, D, E, Q, S, v, done, e);
    }
  }

  /** Once every edge stored under v has been relaxed, the state is again one between two extractions. */
  lemma Scanned(g: Graph, s: int, D: seq<Dist>, E: seq<Option<Edge>>, Q: map<int, int>, S: seq<int>, v: int)
    requires Scanning(g, s, D, E, Q, S, v, Neighbours(g, v))
    ensures Between(g, s, D, E, Q, S)
  {
    LastRelaxed(g, D, S, v);
  }

  lemma LastRelaxed(g: Graph, D: seq<Dist>, S: seq<int>, v: int)
    requires |S| > 0 && S[|S| - 1] == v
    requires AllRelaxed(g, D, S, |S| - 1) && Relaxed(D, v, Neighbours(g, v))
    ensures AllRelaxed(g, D, S, |S|)
  {
    forall i | 0 <= i < |S|
      ensures Relaxed(D, S[i], Neighbours(g, S[i]))
    {
      if i == |S| - 1 {
        assert S[i] == v;
      }
    }
  }

  // ---------------------------------------------------------------------
  // Ending a run

  /** A path from s is no lighter than the distance at its end, once every settled vertex has been relaxed and nothing is queued. */
  lemma {:induction false} NoShorterPath(g: Graph, s: int, D: seq<Dist>, E: seq<Option<Edge>>, S: seq<int>, v: int, p: seq<Edge>)
    requires Shaped(g, D, E) && Rooted(g, s, D, E)
    requires Accounted(g.verticesCount, D, map[], S) && AllRelaxed(g, D, S, |S|)
    requires IsPath(g, s, v, p)
    ensures 0 <= v < g.verticesCount ==> D[v].Fin? && D[v].d <= PathWeight(p)
    decreases |p|
  {
    if |p| > 0 {
      var e := p[|p| - 1];
      var u := e.source;
      StoredEdge(g, u, e);
      NoShorterPath(g, s, D, E, S, u, p[..|p| - 1]);
      assert u in S;
      var i :| 0 <= i < |S| && S[i] == u;
      assert Relaxed(D, S[i], Neighbours(g, S[i]));
    }
  }

  /** When the queue is empty the distances are shortest and the state is idle again. */
  lemma Finish(g: Graph, s: int, D: seq<Dist>, E: seq<Option<Edge>>, S: seq<int>)
    requires Between(g, s, D, E, map[], S)
    ensures ShortestFrom(g, s, D)
    ensures Idle(g, s, D, E, S)
  {
    forall v | 0 <= v < g.verticesCount
      ensures D[v].Fin? <==> Reachable(g, s, v)
      ensures D[v].Fin? ==> exists p :: IsPath(g, s, v, p) && PathWeight(p) == D[v].d
      ensures D[v].Fin? ==> forall p :: IsPath(g, s, v, p) ==> D[v].d <= PathWeight(p)
    {
      if Reachable(g, s, v) {
        var p :| IsPath(g, s, v, p);
        NoShorterPath(g, s, D, E, S, v, p);
      }
      forall p | IsPath(g, s, v, p)
        ensures D[v].d <= PathWeight(p)
      {
        NoShorterPath(g, s, D, E, S, v, p);
      }
    }
  }

  // ---------------------------------------------------------------------
  // The engine

  class Dijkstra {
    const graph: Graph
    const distanceTo: array<Dist>
    const edgeTo: array<Option<Edge>>
    const priorityQueue: MinPriorityQueue
    ghost const Repr: set<object>
    /** The vertex of the last run (meaningless before one). */
    ghost var source: int
    /** The vertices taken from the queue, in order. */
    ghost var settled: seq<int>
    /** Whether a run has completed. */
    ghost var ran: bool

    ghost predicate Valid()
      reads this, distanceTo, edgeTo, priorityQueue, priorityQueue.pq, priorityQueue.qp, priorityQueue.keys
    {
      && Repr == {this, distanceTo, edgeTo, priorityQueue, priorityQueue.pq, priorityQueue.qp, priorityQueue.keys}
      && priorityQueue.Valid() && priorityQueue.nmax == graph.verticesCount
      && priorityQueue.Contents() == map[]
      && Idle(graph, source, distanceTo[..], edgeTo[..], settled)
      && (ran ==> 0 <= source < graph.verticesCount && ShortestFrom(graph, source, distanceTo[..]))
    }

    /** Nothing has run yet: every vertex at +infinity with no edge. */
    ghost predicate Fresh()
      reads this, distanceTo, edgeTo
    {
      && settled == [] && !ran
      && distanceTo.Length == graph.verticesCount + 1 && edgeTo.Length == graph.verticesCount + 1
      && forall x :: 0 <= x < graph.verticesCount ==> distanceTo[x] == Inf && edgeTo[x] == None
    }

    /** The arrays and the queue, sized for the graph; requires the weight check to have passed. */
    constructor (g: Graph)
      requires WellFormed(g) && !HasNegativeEdge(g)
      ensures Valid() && Fresh() && fresh(Repr) && graph == g
    {
      graph := g;
      var n := g.verticesCount;
      var e, d := Arrays(n);
      var q := new MinPriorityQueue(n);
      distanceTo, edgeTo, priorityQueue := d, e, q;
      settled := [];
      ran := false;
      Repr := {this, d, e, q, q.pq, q.qp, q.keys};
      new;
      Blank(graph, source, distanceTo[..], edgeTo[..]);
    }

    /** The constructor's arrays: every vertex at +infinity with no edge, the extra slot at distance 0. */
    static method Arrays(n: nat) returns (e: array<Option<Edge>>, d: array<Dist>)
      ensures fresh(e) && fresh(d)
      ensures e.Length == n + 1 && d.Length == n + 1
      ensures forall x :: 0 <= x <= n ==> e[x] == None
      ensures forall x :: 0 <= x < n ==> d[x] == Inf
      ensures d[n] == Fin(0)
    {
      e := new Option<Edge>[n + 1](_ => None);
      d := new Dist[n + 1](_ => Fin(0));
      var i := 0;
      while i < n
        modifies d
        invariant 0 <= i <= n
        invariant forall x :: 0 <= x < i ==> d[x] == Inf
        invariant forall x :: i <= x <= n ==> d[x] == Fin(0)
      {
        d[i] := Inf;
        i := i + 1;
      }
    }

    /** Whether some stored edge has a negative weight, looking at the edges stored under every vertex. */
    static method HasNegativeWeight(g: Graph) returns (found: bool)
      requires WellFormed(g)
      ensures found <==> HasNegativeEdge(g)
    {
      found := false;
      var v := 0;
      while v < g.verticesCount && !found
        invariant 0 <= v <= g.verticesCount
        invariant found ==> HasNegativeEdge(g)
        invariant !found ==> forall k, e | k in g.adj && k < v && e in g.adj[k] :: e.weight >= 0
      {
        var edges := Neighbours(g, v);
        var j := 0;
        while j < |edges| && !found
          invariant 0 <= j <= |edges|
          invariant found ==> HasNegativeEdge(g)
          invariant !found ==> forall i :: 0 <= i < j ==> edges[i].weight >= 0
        {
          if edges[j].weight < 0 {
            found := true;
          }
          j := j + 1;
        }
        v := v + 1;
      }
    }

    /** Construction: NegativeWeight if any stored edge weighs less than 0, else a fresh engine. */
    static method Create(g: Graph) returns (r: Result<Dijkstra>)
      requires WellFormed(g)
      ensures r.Err? <==> HasNegativeEdge(g)
      ensures r.Err? ==> r.error == NegativeWeight
      ensures r.Ok? ==> r.value.Valid() && r.value.Fresh() && fresh(r.value.Repr) && r.value.graph == g
    {
      var negative := HasNegativeWeight(g);
      if negative {
        return Err(NegativeWeight);
      }
      var d := new Dijkstra(g);
      r := Ok(d);
    }

    /**
     * Relaxes one edge: when going through the edge's source is strictly
     * shorter than the target's distance, records the new distance and the
     * edge, and queues the target with the new key (DecreaseKey when it is
     * queued, Insert otherwise).
     */
    method Relax(edge: Edge)
      requires Repr == {this, distanceTo, edgeTo, priorityQueue, priorityQueue.pq, priorityQueue.qp, priorityQueue.keys}
      requires priorityQueue.Valid() && priorityQueue.nmax == graph.verticesCount
      requires distanceTo.Length == graph.verticesCount + 1 && edgeTo.Length == graph.verticesCount + 1
      requires 0 <= edge.source < graph.verticesCount && 0 <= edge.target < graph.verticesCount
      requires Keyed(graph.verticesCount, distanceTo[..], priorityQueue.Contents())
      modifies distanceTo, edgeTo, priorityQueue, priorityQueue.pq, priorityQueue.qp, priorityQueue.keys
      ensures priorityQueue.Valid()
      ensures var r := Relaxation(old(distanceTo[..]), old(edgeTo[..]), old(priorityQueue.Contents()), edge);
              distanceTo[..] == r.0 && edgeTo[..] == r.1 && priorityQueue.Contents() == r.2
    {
      var v, w := edge.source, edge.target;
      ghost var D, E, Q := distanceTo[..], edgeTo[..], priorityQueue.Contents();
      if Less(Plus(distanceTo[v], edge.weight), distanceTo[w]) {
        distanceTo[w] := Plus(distanceTo[v], edge.weight);
        edgeTo[w] := Some(edge);
        var queued := priorityQueue.Contains(w);
        if queued == Ok(true) {
          var _ := priorityQueue.DecreaseKey(w, distanceTo[w].d);
        } else {
          var _ := priorityQueue.Insert(w, distanceTo[w].d);
        }
        assert distanceTo[..] == D[w := Plus(D[v], edge.weight)];
        assert edgeTo[..] == E[w := Some(edge)];
      }
    }

    /**
     * Shortest paths from vertex: InvalidIndex outside the vertices. The
     * distance of vertex is set to 0 before the queue is asked to hold it,
     * so the extra slot (vertex == VerticesCount) is written, with the 0 it
     * already holds, and then refused by the queue. Otherwise the queue is
     * drained and the distances are the shortest.
     */
    method Run(vertex: int) returns (r: Outcome)
      requires Valid() && Fresh()
      modifies Repr
      ensures Valid()
      ensures !(0 <= vertex < graph.verticesCount) ==> r == Fail(InvalidIndex)
      ensures !(0 <= vertex < graph.verticesCount) ==> distanceTo[..] == old(distanceTo[..]) && edgeTo[..] == old(edgeTo[..])
      ensures 0 <= vertex < graph.verticesCount ==> r == Pass && source == vertex
      ensures r.Pass? ==> ran && ShortestFrom(graph, vertex, distanceTo[..])
    {
      var n := graph.verticesCount;
      if vertex < 0 || vertex > n {
        return Fail(InvalidIndex);
      }
      ghost var D0 := distanceTo[..];
      distanceTo[vertex] := Fin(0);
      var inserted := priorityQueue.Insert(vertex, 0);
      if inserted.Fail? {
        assert distanceTo[..] == D0;
        return inserted;
      }
      source := vertex;
      Start(graph, vertex, D0, edgeTo[..]);
      assert distanceTo[..] == D0[vertex := Fin(0)];
      Drain();
      Finish(graph, vertex, distanceTo[..], edgeTo[..], settled);
      ran := true;
      r := Pass;
    }

    /** The loop of Run: takes the vertex of least distance from the queue and relaxes the edges stored under it, until the queue is empty. */
    method Drain()
      requires Repr == {this, distanceTo, edgeTo, priorityQueue, priorityQueue.pq, priorityQueue.qp, priorityQueue.keys}
      requires priorityQueue.Valid() && priorityQueue.nmax == graph.verticesCount
      requires Between(graph, source, distanceTo[..], edgeTo[..], priorityQueue.Contents(), settled)
      modifies this, distanceTo, edgeTo, priorityQueue, priorityQueue.pq, priorityQueue.qp, priorityQueue.keys
      ensures source == old(source) && priorityQueue.Valid() && priorityQueue.Contents() == map[]
      ensures Between(graph, source, distanceTo[..], edgeTo[..], map[], settled)
    {
      while !priorityQueue.IsEmpty()
        invariant source == old(source)
        invariant priorityQueue.Valid() && priorityQueue.nmax == graph.verticesCount
        invariant Between(graph, source, distanceTo[..], edgeTo[..], priorityQueue.Contents(), settled)
        decreases graph.verticesCount - |settled|
      {
        SettleNext();
      }
    }

    /** One round of Run's loop: settles the queued vertex of least distance and relaxes the edges stored under it. */
    method SettleNext()
      requires Repr == {this, distanceTo, edgeTo, priorityQueue, priorityQueue.pq, priorityQueue.qp, priorityQueue.keys}
      requires priorityQueue.Valid() && priorityQueue.nmax == graph.verticesCount
      requires priorityQueue.Contents() != map[]
      requires Between(graph, source, distanceTo[..], edgeTo[..], priorityQueue.Contents(), settled)
      modifies this, distanceTo, edgeTo, priorityQueue, priorityQueue.pq, priorityQueue.qp, priorityQueue.keys
      ensures source == old(source) && |settled| == |old(settled)| + 1 <= graph.verticesCount
      ensures priorityQueue.Valid() && priorityQueue.nmax == graph.verticesCount
      ensures Between(graph, source, distanceTo[..], edgeTo[..], priorityQueue.Contents(), settled)
    {
      ghost var D, E, Q := distanceTo[..], edgeTo[..], priorityQueue.Contents();
      var m := priorityQueue.DeleteMin();
      var v := m.value;
      TakeMin(graph, source, D, E, Q, settled, v);
      settled := settled + [v];
      DistinctBound(settled, graph.verticesCount);
      ScanEdges(v, D, E, Q - {v});
      Scanned(graph, source, distanceTo[..], edgeTo[..], priorityQueue.Contents(), settled, v);
    }

    /** The inner loop of Run: relaxes, in order, every edge stored under v, the vertex just taken. */
    method ScanEdges(v: int, ghost D0: seq<Dist>, ghost E0: seq<Option<Edge>>, ghost Q0: map<int, int>)
      requires Repr == {this, distanceTo, edgeTo, priorityQueue, priorityQueue.pq, priorityQueue.qp, priorityQueue.keys}
      requires priorityQueue.Valid() && priorityQueue.nmax == graph.verticesCount
      requires D0 == distanceTo[..] && E0 == edgeTo[..] && Q0 == priorityQueue.Contents()
      requires Scanning(graph, source, D0, E0, Q0, settled, v, [])
      modifies distanceTo, edgeTo, priorityQueue, priorityQueue.pq, priorityQueue.qp, priorityQueue.keys
      ensures priorityQueue.Valid()
      ensures Scanning(graph, source, distanceTo[..], edgeTo[..], priorityQueue.Contents(), settled, v, Neighbours(graph, v))
    {
      var edges := Neighbours(graph, v);
      ghost var D, E, Q := D0, E0, Q0;
      var j := 0;
      while j < |edges|
        invariant 0 <= j <= |edges|
        invariant priorityQueue.Valid() && priorityQueue.nmax == graph.verticesCount
        invariant D == distanceTo[..] && E == edgeTo[..] && Q == priorityQueue.Contents()
        invariant Scanning(graph, source, D, E, Q, settled, v, edges[..j])
      {
        PrefixSnoc(edges, j);
        RelaxStep(graph, source, D, E, Q, settled, v, edges[..j], edges[j]);
        Relax(edges[j]);
        D, E, Q := distanceTo[..], edgeTo[..], priorityQueue.Contents();
        j := j + 1;
      }
      assert edges[..j] == edges;
    }

    /** The distance of vertex (+infinity when unreached); InvalidIndex outside the arrays. */
    function DistanceTo(vertex: int): (r: Result<Dist>)
      reads this, distanceTo, edgeTo, priorityQueue, priorityQueue.pq, priorityQueue.qp, priorityQueue.keys
      requires Valid()
      ensures r.Err? <==> !(0 <= vertex <= graph.verticesCount)
      ensures r.Err? ==> r.error == InvalidIndex
      ensures r.Ok? ==> r.value == distanceTo[vertex]
      ensures vertex == graph.verticesCount ==> r == Ok(Fin(0))
      ensures ran && 0 <= vertex < graph.verticesCount ==> (r.value.Fin? <==> Reachable(graph, source, vertex))
      ensures ran && 0 <= vertex < graph.verticesCount && r.value.Fin? ==>
                forall p :: IsPath(graph, source, vertex, p) ==> r.value.d <= PathWeight(p)
    {
      if 0 <= vertex < distanceTo.Length then Ok(distanceTo[vertex]) else Err(InvalidIndex)
    }

    /** Whether vertex has a finite distance; InvalidIndex outside the arrays. */
    function HasPathTo(v: int): (r: Result<bool>)
      reads this, distanceTo, edgeTo, priorityQueue, priorityQueue.pq, priorityQueue.qp, priorityQueue.keys
      requires Valid()
      ensures r.Err? <==> !(0 <= v <= graph.verticesCount)
      ensures r.Ok? ==> (r.value <==> distanceTo[v].Fin?)
      ensures ran && 0 <= v < graph.verticesCount ==> r == Ok(Reachable(graph, source, v))
    {
      if 0 <= v < distanceTo.Length then Ok(distanceTo[v].Fin?) else Err(InvalidIndex)
    }

    /**
     * The edges of the recorded path to v, from the source onwards: the
     * predecessor edges followed back through each edge's source and stacked,
     * so that the one nearest the source comes first. None when v has no path.
     */
    method PathTo(v: int) returns (r: Result<Option<seq<Edge>>>)
      requires Valid()
      ensures r.Err? <==> !(0 <= v <= graph.verticesCount)
      ensures r.Ok? ==> (r.value.None? <==> distanceTo[v].Inf?)
      ensures ran && 0 <= v < graph.verticesCount ==> (r.Ok? && r.value.Some? <==> Reachable(graph, source, v))
      ensures ran && r.Ok? && r.value.Some? && v < graph.verticesCount ==>
                forall p :: IsPath(graph, source, v, p) ==> PathWeight(r.value.value) <= PathWeight(p)
      ensures r.Ok? && r.value.Some? && v < graph.verticesCount ==>
                IsPath(graph, source, v, r.value.value) && PathWeight(r.value.value) == distanceTo[v].d
      ensures v == graph.verticesCount ==> r == Ok(Some([]))
    {
      if v < 0 || v >= distanceTo.Length {
        return Err(InvalidIndex);
      }
      if distanceTo[v].Inf? {
        return Ok(None);
      }
      var n := graph.verticesCount;
      var path: seq<Edge> := [];
      ghost var cur := v;
      var e := edgeTo[v];
      while e.Some?
        invariant 0 <= cur <= n && e == edgeTo[cur] && distanceTo[cur].Fin?
        invariant v < n ==> cur < n && cur in settled
        invariant v == n ==> cur == n && path == []
        invariant v < n ==> IsPath(graph, cur, v, path) && PathWeight(path) + distanceTo[cur].d == distanceTo[v].d
        decreases if cur in settled then IndexOf(settled, cur) else 0
      {
        assert TreeEdge(graph, distanceTo[..], settled, cur, e.value);
        PathCons(graph, e.value, v, path);
        path := [e.value] + path;
        cur := e.value.source;
        e := edgeTo[e.value.source];
      }
      assert distanceTo[..][cur] == distanceTo[cur] && edgeTo[..][cur] == edgeTo[cur];
      r := Ok(Some(path));
    }
  }
}
