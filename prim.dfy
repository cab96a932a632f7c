/**
 * Eager Prim over the graph snapshot: a run from every still-unmarked vertex,
 * in ascending order, grows one tree of a spanning forest. The queue holds the
 * unmarked vertices reached so far, keyed by the weight of the lightest edge
 * seen into them from a marked vertex; edgeTo records that edge and distTo its
 * weight. Weights are integers and +infinity is Inf.
 *
 * The state of a construction is described on values: D = distTo, E = edgeTo,
 * M = marked, Q = the queue's contents, O = the marked vertices in the order
 * they were marked, R = the roots of the runs in the order they were started.
 */
module SpanningForest {
  import opened Base
  import opened Edges
  import opened Graphs
  import opened PriorityQueues

  /** The arrays' shape: one slot per vertex and the extra slot at distance 0, with no edge, unmarked. */
  ghost predicate Shaped(g: Graph, D: seq<Dist>, E: seq<Option<Edge>>, M: seq<bool>)
  {
    && WellFormed(g)
    && |D| == g.verticesCount + 1 && |E| == g.verticesCount + 1 && |M| == g.verticesCount + 1
    && D[g.verticesCount] == Fin(0) && E[g.verticesCount] == None && !M[g.verticesCount]
  }

  /** O lists the marked vertices, each once. */
  ghost predicate MarkOrder(n: int, M: seq<bool>, O: seq<int>)
  {
    && Distinct(O)
    && (forall i :: 0 <= i < |O| ==> 0 <= O[i] < n)
    && (forall x :: 0 <= x < n && x < |M| ==> (M[x] <==> x in O))
  }

  /** Queued vertices are unmarked and keyed by their distance. */
  ghost predicate Keyed(n: int, D: seq<Dist>, M: seq<bool>, Q: map<int, int>)
  {
    forall x :: x in Q ==> 0 <= x < n && x < |D| && x < |M| && !M[x] && D[x] == Fin(Q[x])
  }

  /** An unmarked vertex outside the queue has not been reached: distance +infinity and no edge. */
  ghost predicate Unreached(n: int, D: seq<Dist>, E: seq<Option<Edge>>, M: seq<bool>, Q: map<int, int>)
  {
    forall x :: 0 <= x < n && x < |D| && x < |E| && x < |M| && !M[x] && x !in Q ==> D[x] == Inf && E[x] == None
  }

  /**
   * The recorded edge e into w: an edge of the graph ending at w from a marked
   * vertex, whose weight is w's distance; when w is marked too, its source was
   * marked first.
   */
  ghost predicate TreeEdge(g: Graph, D: seq<Dist>, O: seq<int>, w: int, e: Edge)
  {
    && e.target == w && IsEdge(g, e) && e.source in O && 0 <= w < |D| && D[w] == Fin(e.weight)
    && (w in O ==> IndexOf(O, e.source) < IndexOf(O, w))
  }

  ghost predicate Tree(g: Graph, D: seq<Dist>, E: seq<Option<Edge>>, O: seq<int>)
  {
    forall w :: 0 <= w < g.verticesCount && w < |E| && E[w].Some? ==> TreeEdge(g, D, O, w, E[w].value)
  }

  /**
   * The roots are distinct vertices at distance 0 with no edge, each marked
   * unless the queue holds only that root with key 0 (a run that has just
   * started); a marked or queued vertex without an edge is a root.
   */
  ghost predicate Rooted(n: int, D: seq<Dist>, E: seq<Option<Edge>>, M: seq<bool>, Q: map<int, int>, R: seq<int>)
  {
    && Distinct(R)
    && (forall i :: 0 <= i < |R| ==>
          && 0 <= R[i] < n && R[i] < |D| && R[i] < |E| && R[i] < |M|
          && D[R[i]] == Fin(0) && E[R[i]] == None && (M[R[i]] || Q == map[R[i] := 0]))
    && (forall x :: 0 <= x < n && x < |E| && x < |M| && E[x].None? && (M[x] || x in Q) ==> x in R)
  }

  /** Every root is marked. */
  ghost predicate RootsMarked(M: seq<bool>, R: seq<int>)
  {
    forall i :: 0 <= i < |R| ==> 0 <= R[i] < |M| && M[R[i]]
  }

  /** The state of a construction while the queue holds Q. */
  ghost predicate State(g: Graph, D: seq<Dist>, E: seq<Option<Edge>>, M: seq<bool>, Q: map<int, int>, O: seq<int>, R: seq<int>)
  {
    var n := g.verticesCount;
    && Shaped(g, D, E, M) && MarkOrder(n, M, O) && Keyed(n, D, M, Q)
    && Unreached(n, D, E, M, Q) && Tree(g, D, E, O) && Rooted(n, D, E, M, Q, R)
  }

  /**
   * What the construction leaves: every vertex marked; exactly the roots lack
   * an edge and sit at distance 0; every other vertex has an edge of the graph
   * into it, weighing its distance, from a vertex marked before it.
   */
  ghost predicate SpanningForest(g: Graph, D: seq<Dist>, E: seq<Option<Edge>>, M: seq<bool>, O: seq<int>, R: seq<int>)
  {
    var n := g.verticesCount;
    && n >= 0 && |D| == n + 1 && |E| == n + 1 && |M| == n + 1
    && (forall v :: 0 <= v < n ==> M[v] && v in O)
    && (forall v :: 0 <= v < n ==> (E[v].None? <==> v in R))
    && (forall i :: 0 <= i < |R| ==> 0 <= R[i] < n && D[R[i]] == Fin(0))
    && (forall v :: 0 <= v < n && E[v].Some? ==> TreeEdge(g, D, O, v, E[v].value))
  }

  // ---------------------------------------------------------------------
  // One step at a time

  /** After the arrays are set up nothing is marked, queued or reached. */
  lemma Blank(g: Graph, D: seq<Dist>, E: seq<Option<Edge>>, M: seq<bool>)
    requires Shaped(g, D, E, M)
    requires forall x :: 0 <= x < g.verticesCount ==> D[x] == Inf && E[x] == None && !M[x]
    ensures State(g, D, E, M, map[], [], [])
  {
  }

  /** Once the queue is empty, every root is marked. */
  lemma Drained(g: Graph, D: seq<Dist>, E: seq<Option<Edge>>, M: seq<bool>, O: seq<int>, R: seq<int>)
    requires State(g, D, E, M, map[], O, R)
    ensures RootsMarked(M, R)
  {
    forall i | 0 <= i < |R|
      ensures M[R[i]]
    {
      assert map[R[i] := 0] != map[] by {
        assert R[i] in map[R[i] := 0];
      }
    }
  }

  /** Starting a run from an unmarked vertex s over an empty queue: s is at distance 0, has no edge, and becomes the newest root. */
  lemma Root(g: Graph, D: seq<Dist>, E: seq<Option<Edge>>, M: seq<bool>, O: seq<int>, R: seq<int>, s: int)
    requires State(g, D, E, M, map[], O, R)
    requires 0 <= s < g.verticesCount && !M[s]
    ensures E[s] == None && D[s] == Inf
    ensures State(g, D[s := Fin(0)], E, M, map[s := 0], O, R + [s])
  {
    var n, D' := g.verticesCount, D[s := Fin(0)];
    Drained(g, D, E, M, O, R);
    assert s !in R;
    assert Tree(g, D', E, O) by {
      forall w | 0 <= w < n && E[w].Some?
        ensures TreeEdge(g, D', O, w, E[w].value)
      {
        assert w != s && D'[w] == D[w];
      }
    }
    var R' := R + [s];
    assert forall i :: 0 <= i < |R| ==> R'[i] == R[i];
  }

  /** Taking v from the queue and marking it: v joins the marked vertices, after the source of its edge. */
  lemma Take(g: Graph, D: seq<Dist>, E: seq<Option<Edge>>, M: seq<bool>, Q: map<int, int>, O: seq<int>, R: seq<int>, v: int)
    requires State(g, D, E, M, Q, O, R) && v in Q
    ensures State(g, D, E, M[v := true], Q - {v}, O + [v], R)
    ensures RootsMarked(M[v := true], R)
  {
    var n, M', O' := g.verticesCount, M[v := true], O + [v];
    assert v !in O;
    IndexOfSnoc(O, v);
    assert MarkOrder(n, M', O') by {
      forall i, j | 0 <= i < j < |O'|
        ensures O'[i] != O'[j]
      {
        if j < |O| {
          assert O'[i] == O[i] && O'[j] == O[j];
        } else {
          assert O'[i] == O[i];
        }
      }
    }
    assert Tree(g, D, E, O') by {
      forall w | 0 <= w < n && E[w].Some?
        ensures TreeEdge(g, D, O', w, E[w].value)
      {
        assert TreeEdge(g, D, O, w, E[w].value);
      }
    }
    assert RootsMarked(M', R) by {
      forall i | 0 <= i < |R|
        ensures M'[R[i]]
      {
        if !M[R[i]] {
          assert Q == map[R[i] := 0];
        }
      }
    }
  }

  /**
   * Offering edge e during a scan: when its target is unmarked and the edge
   * is strictly lighter than the target's distance, the target takes the
   * edge's weight as distance and as key, and the edge as its edge; otherwise
   * nothing changes.
   */
  ghost function Offer(D: seq<Dist>, E: seq<Option<Edge>>, M: seq<bool>, Q: map<int, int>, e: Edge): (r: (seq<Dist>, seq<Option<Edge>>, map<int, int>))
    requires 0 <= e.target < |D| && |E| == |D| && |M| == |D|
    ensures |r.0| == |D| && |r.1| == |E|
    ensures r != (D, E, Q) <==> !M[e.target] && Less(Fin(e.weight), D[e.target])
    ensures r != (D, E, Q) ==> r.0[e.target] == Fin(e.weight) && r.1[e.target] == Some(e) && r.2 == Q[e.target := e.weight]
    ensures forall x :: 0 <= x < |D| ==> !Less(D[x], r.0[x])
    ensures forall x :: 0 <= x < |D| && (x != e.target || M[x]) ==> r.0[x] == D[x] && r.1[x] == E[x]
  {
    var w := e.target;
    if !M[w] && Less(Fin(e.weight), D[w]) then (D[w := Fin(e.weight)], E[w := Some(e)], Q[w := e.weight]) else (D, E, Q)
  }

  /** The edges es offered in turn. */
  ghost function OfferAll(D: seq<Dist>, E: seq<Option<Edge>>, M: seq<bool>, Q: map<int, int>, es: seq<Edge>): (r: (seq<Dist>, seq<Option<Edge>>, map<int, int>))
    requires |E| == |D| && |M| == |D|
    requires forall i :: 0 <= i < |es| ==> 0 <= es[i].target < |D|
    ensures |r.0| == |D| && |r.1| == |E|
    ensures forall x :: 0 <= x < |D| ==> !Less(D[x], r.0[x])
    ensures forall x :: 0 <= x < |D| && M[x] ==> r.0[x] == D[x] && r.1[x] == E[x]
    decreases |es|
  {
    if |es| == 0 then (D, E, Q)
    else
      var s := OfferAll(D, E, M, Q, es[..|es| - 1]);
      var r := Offer(s.0, s.1, M, s.2, es[|es| - 1]);
      assert forall x :: 0 <= x < |D| ==> !Less(D[x], s.0[x]) && !Less(s.0[x], r.0[x]);
      r
  }

  /** Offering an edge stored under a marked vertex keeps the state. */
  lemma OfferStep(g: Graph, D: seq<Dist>, E: seq<Option<Edge>>, M: seq<bool>, Q: map<int, int>, O: seq<int>, R: seq<int>, v: int, e: Edge)
    requires State(g, D, E, M, Q, O, R) && RootsMarked(M, R)
    requires 0 <= v < g.verticesCount && M[v] && e in Neighbours(g, v)
    ensures 0 <= e.target < g.verticesCount
    ensures var r := Offer(D, E, M, Q, e); State(g, r.0, r.1, M, r.2, O, R)
  {
    StoredEdge(g, v, e);
    var w, n := e.target, g.verticesCount;
    if !M[w] && Less(Fin(e.weight), D[w]) {
      var D', E', Q' := D[w := Fin(e.weight)], E[w := Some(e)], Q[w := e.weight];
      assert e.source == v;
      assert TreeEdge(g, D', O, w, e);
      assert Tree(g, D', E', O) by {
        forall x | 0 <= x < n && E'[x].Some?
          ensures TreeEdge(g, D', O, x, E'[x].value)
        {
          if x != w {
            assert TreeEdge(g, D, O, x, E[x].value);
          }
        }
      }
      assert Rooted(n, D', E', M, Q', R) by {
        forall i | 0 <= i < |R|
          ensures R[i] != w
        {
          assert M[R[i]];
        }
      }
    }
  }

  /** Offering, in turn, edges stored under a marked vertex keeps the state. */
  lemma {:induction false} OfferAllKeeps(g: Graph, D: seq<Dist>, E: seq<Option<Edge>>, M: seq<bool>, Q: map<int, int>, O: seq<int>, R: seq<int>, v: int, es: seq<Edge>)
    requires State(g, D, E, M, Q, O, R) && RootsMarked(M, R)
    requires 0 <= v < g.verticesCount && M[v]
    requires forall i :: 0 <= i < |es| ==> es[i] in Neighbours(g, v)
    ensures forall i :: 0 <= i < |es| ==> 0 <= es[i].target < g.verticesCount
    ensures var r := OfferAll(D, E, M, Q, es); State(g, r.0, r.1, M, r.2, O, R)
    decreases |es|
  {
    forall i | 0 <= i < |es|
      ensures 0 <= es[i].target < g.verticesCount
    {
      StoredEdge(g, v, es[i]);
    }
    if |es| > 0 {
      var init := es[..|es| - 1];
      OfferAllKeeps(g, D, E, M, Q, O, R, v, init);
      var s := OfferAll(D, E, M, Q, init);
      OfferStep(g, s.0, s.1, M, s.2, O, R, v, es[|es| - 1]);
    }
  }

  /** Taking v from the queue and then scanning it keeps the state; the marked order grows by v. */
  lemma TakeAndScan(g: Graph, D: seq<Dist>, E: seq<Option<Edge>>, M: seq<bool>, Q: map<int, int>, O: seq<int>, R: seq<int>, v: int)
    requires State(g, D, E, M, Q, O, R) && v in Q
    ensures 0 <= v < g.verticesCount && |O| + 1 <= g.verticesCount
    ensures var r := OfferAll(D, E, M[v := true], Q - {v}, Neighbours(g, v));
            State(g, r.0, r.1, M[v := true], r.2, O + [v], R)
  {
    Take(g, D, E, M, Q, O, R, v);
    DistinctBound(O + [v], g.verticesCount);
    OfferAllKeeps(g, D, E, M[v := true], Q - {v}, O + [v], R, v, Neighbours(g, v));
  }

  /** A state with every vertex marked and nothing queued is a spanning forest. */
  lemma Spanned(g: Graph, D: seq<Dist>, E: seq<Option<Edge>>, M: seq<bool>, O: seq<int>, R: seq<int>)
    requires State(g, D, E, M, map[], O, R)
    requires forall v :: 0 <= v < g.verticesCount ==> M[v]
    ensures SpanningForest(g, D, E, M, O, R)
  {
  }

  // ---------------------------------------------------------------------
  // What the eager scan keeps: the lightest offered edge

  /**
   * Every edge stored under a marked vertex u, into a vertex that is still
   * unmarked or was marked after u, weighs at least that vertex's distance.
   */
  ghost predicate Greedy(g: Graph, D: seq<Dist>, O: seq<int>)
  {
    forall u, e | u in O && e in Neighbours(g, u) && 0 <= e.target < |D| &&
                  (e.target in O ==> IndexOf(O, u) < IndexOf(O, e.target)) ::
      !Less(Fin(e.weight), D[e.target])
  }

  /** After offering es, no offered edge into an unmarked vertex is lighter than that vertex's distance. */
  lemma {:induction false} OfferAllLightest(D: seq<Dist>, E: seq<Option<Edge>>, M: seq<bool>, Q: map<int, int>, es: seq<Edge>)
    requires |E| == |D| && |M| == |D|
    requires forall i :: 0 <= i < |es| ==> 0 <= es[i].target < |D|
    ensures forall i :: 0 <= i < |es| && !M[es[i].target] ==> !Less(Fin(es[i].weight), OfferAll(D, E, M, Q, es).0[es[i].target])
    decreases |es|
  {
    if |es| > 0 {
      var init := es[..|es| - 1];
      OfferAllLightest(D, E, M, Q, init);
      var s := OfferAll(D, E, M, Q, init);
      var r := Offer(s.0, s.1, M, s.2, es[|es| - 1]);
      forall i | 0 <= i < |es| && !M[es[i].target]
        ensures !Less(Fin(es[i].weight), r.0[es[i].target])
      {
        if i < |es| - 1 {
          assert es[i] == init[i];
          assert !Less(s.0[es[i].target], r.0[es[i].target]);
        }
      }
    }
  }

  /** Nothing is marked at the start, so nothing has been offered. */
  lemma GreedyBlank(g: Graph, D: seq<Dist>)
    ensures Greedy(g, D, [])
  {
  }

  /**
   * A new root s is unmarked and unreached, so no marked vertex has an edge
   * into it: setting its distance to 0 keeps the property.
   */
  lemma GreedyRoot(g: Graph, D: seq<Dist>, E: seq<Option<Edge>>, M: seq<bool>, O: seq<int>, R: seq<int>, s: int)
    requires State(g, D, E, M, map[], O, R) && Greedy(g, D, O)
    requires 0 <= s < g.verticesCount && !M[s]
    ensures Greedy(g, D[s := Fin(0)], O)
  {
    var D' := D[s := Fin(0)];
    forall u, e | u in O && e in Neighbours(g, u) && 0 <= e.target < |D'| &&
                  (e.target in O ==> IndexOf(O, u) < IndexOf(O, e.target))
      ensures !Less(Fin(e.weight), D'[e.target])
    {
      assert e.target != s;
    }
  }

  /**
   * Taking v and scanning it keeps the property: v's own edges now bound the
   * distances of the unmarked vertices, distances only fall, and v's distance
   * is frozen once it is marked.
   */
  lemma GreedyScan(g: Graph, D: seq<Dist>, E: seq<Option<Edge>>, M: seq<bool>, Q: map<int, int>, O: seq<int>, v: int)
    requires WellFormed(g) && |D| == g.verticesCount + 1 && |E| == |D| && |M| == |D|
    requires MarkOrder(g.verticesCount, M, O) && Greedy(g, D, O)
    requires 0 <= v < g.verticesCount && !M[v]
    ensures forall i :: 0 <= i < |Neighbours(g, v)| ==> 0 <= Neighbours(g, v)[i].target < |D|
    ensures Greedy(g, OfferAll(D, E, M[v := true], Q - {v}, Neighbours(g, v)).0, O + [v])
  {
    var es, M' := Neighbours(g, v), M[v := true];
    forall i | 0 <= i < |es|
      ensures 0 <= es[i].target < |D|
    {
      StoredEdge(g, v, es[i]);
    }
    var D' := OfferAll(D, E, M', Q - {v}, es).0;
    OfferAllLightest(D, E, M', Q - {v}, es);
    forall e | e in es && 0 <= e.target < |D| && e.target !in O && e.target != v
      ensures !Less(Fin(e.weight), D'[e.target])
    {
      var i :| 0 <= i < |es| && es[i] == e;
    }
    GreedyExtend(g, D, D', O, v);
  }

  /** The step of GreedyScan on distances alone: D' lowers D, keeps the marked vertices' distances, and respects v's edges. */
  lemma GreedyExtend(g: Graph, D: seq<Dist>, D': seq<Dist>, O: seq<int>, v: int)
    requires Greedy(g, D, O) && v !in O && |D'| == |D|
    requires forall x :: 0 <= x < |D| ==> !Less(D[x], D'[x])
    requires forall x :: 0 <= x < |D| && (x in O || x == v) ==> D'[x] == D[x]
    requires forall e | e in Neighbours(g, v) && 0 <= e.target < |D| && e.target !in O && e.target != v ::
               !Less(Fin(e.weight), D'[e.target])
    ensures Greedy(g, D', O + [v])
  {
    var O' := O + [v];
    IndexOfSnoc(O, v);
    forall u, e | u in O' && e in Neighbours(g, u) && 0 <= e.target < |D'| &&
                  (e.target in O' ==> IndexOf(O', u) < IndexOf(O', e.target))
      ensures !Less(Fin(e.weight), D'[e.target])
    {
      var t := e.target;
      if u == v {
        assert t !in O';
      } else {
        assert !Less(Fin(e.weight), D[t]);
      }
    }
  }

  // ---------------------------------------------------------------------
  // The forest, read back

  /** The edge that reaches every vertex through tree edges from some root. */
  lemma {:induction false} TreePath(g: Graph, D: seq<Dist>, E: seq<Option<Edge>>, M: seq<bool>, O: seq<int>, R: seq<int>, v: int)
    returns (r: int, p: seq<Edge>)
    requires WellFormed(g) && SpanningForest(g, D, E, M, O, R)
    requires 0 <= v < g.verticesCount
    ensures r in R && IsPath(g, r, v, p)
    ensures forall i :: 0 <= i < |p| ==> 0 <= p[i].target < |E| && E[p[i].target] == Some(p[i])
    decreases IndexOf(O, v)
  {
    if E[v].None? {
      r, p := v, [];
    } else {
      var e := E[v].value;
      assert TreeEdge(g, D, O, v, e);
      StoredEdge(g, e.source, e);
      var q;
      r, q := TreePath(g, D, E, M, O, R, e.source);
      PathSnoc(g, r, q, e);
      p := q + [e];
      assert forall i :: 0 <= i < |q| ==> p[i] == q[i];
    }
  }

  /** The recorded edges, in increasing order of the vertex they reach. */
  function Recorded(E: seq<Option<Edge>>): (r: seq<Edge>)
    decreases |E|
  {
    if |E| == 0 then []
    else if E[|E| - 1].Some? then Recorded(E[..|E| - 1]) + [E[|E| - 1].value]
    else Recorded(E[..|E| - 1])
  }

  /** The sum of the finite distances. */
  function DistSum(D: seq<Dist>): int
    decreases |D|
  {
    if |D| == 0 then 0
    else DistSum(D[..|D| - 1]) + (if D[|D| - 1].Fin? then D[|D| - 1].d else 0)
  }

  /** When each vertex's edge reaches it, the recorded edges are those of E, one per vertex with an edge, in vertex order. */
  lemma {:induction false} RecordedInOrder(E: seq<Option<Edge>>)
    requires forall v :: 0 <= v < |E| && E[v].Some? ==> E[v].value.target == v
    ensures forall i :: 0 <= i < |Recorded(E)| ==> 0 <= Recorded(E)[i].target < |E| && E[Recorded(E)[i].target] == Some(Recorded(E)[i])
    ensures forall i, j :: 0 <= i < j < |Recorded(E)| ==> Recorded(E)[i].target < Recorded(E)[j].target
    ensures forall v :: 0 <= v < |E| && E[v].Some? ==> E[v].value in Recorded(E)
    decreases |E|
  {
    if |E| > 0 {
      var init := E[..|E| - 1];
      RecordedInOrder(init);
      var r0, r := Recorded(init), Recorded(E);
      if E[|E| - 1].Some? {
        assert r == r0 + [E[|E| - 1].value];
        assert forall i :: 0 <= i < |r0| ==> r[i] == r0[i];
      }
      forall v | 0 <= v < |E| - 1 && E[v].Some?
        ensures E[v].value in r
      {
        assert init[v] == E[v];
        assert E[v].value in r0;
      }
    }
  }

  /** The number of vertices without an edge, below k. */
  ghost function Unrecorded(E: seq<Option<Edge>>, k: int): (s: set<int>)
    requires 0 <= k <= |E|
  {
    set v | 0 <= v < k && E[v].None?
  }

  /** Every slot holds an edge or counts as unrecorded. */
  lemma {:induction false} RecordedCount(E: seq<Option<Edge>>)
    ensures |Recorded(E)| + |Unrecorded(E, |E|)| == |E|
    decreases |E|
  {
    if |E| > 0 {
      var k := |E| - 1;
      var init := E[..k];
      RecordedCount(init);
      assert Unrecorded(init, k) == Unrecorded(E, k) by {
        assert forall v :: 0 <= v < k ==> init[v] == E[v];
      }
      if E[k].None? {
        assert Unrecorded(E, k + 1) == Unrecorded(E, k) + {k};
      } else {
        assert Unrecorded(E, k + 1) == Unrecorded(E, k);
      }
    }
  }

  /** A forest over n vertices with |R| roots records n - |R| edges. */
  lemma ForestSize(g: Graph, D: seq<Dist>, E: seq<Option<Edge>>, M: seq<bool>, O: seq<int>, R: seq<int>)
    requires SpanningForest(g, D, E, M, O, R) && Distinct(R) && E[g.verticesCount] == None
    ensures |Recorded(E)| == g.verticesCount - |R|
  {
    var n := g.verticesCount;
    RecordedCount(E);
    forall x | x in R
      ensures x in Unrecorded(E, |E|)
    {
      var i :| 0 <= i < |R| && R[i] == x;
    }
    assert Unrecorded(E, |E|) == (set x | x in R) + {n};
    DistinctSize(R);
  }

  /** When each edge weighs its target's distance and edgeless slots are at 0, the recorded edges weigh the sum of the distances. */
  lemma {:induction false} RecordedWeight(D: seq<Dist>, E: seq<Option<Edge>>)
    requires |D| == |E|
    requires forall v :: 0 <= v < |E| && E[v].Some? ==> D[v] == Fin(E[v].value.weight)
    requires forall v :: 0 <= v < |E| && E[v].None? ==> D[v] == Fin(0)
    ensures PathWeight(Recorded(E)) == DistSum(D)
    decreases |E|
  {
    if |E| > 0 {
      var k := |E| - 1;
      RecordedWeight(D[..k], E[..k]);
      if E[k].Some? {
        var r0 := Recorded(E[..k]);
        assert (r0 + [E[k].value])[..|r0|] == r0;
      }
    }
  }

  /** What the forest's edges say together: the recorded edges, by vertex, weighing the sum of the distances. */
  lemma ForestEdges(g: Graph, D: seq<Dist>, E: seq<Option<Edge>>, M: seq<bool>, O: seq<int>, R: seq<int>)
    requires SpanningForest(g, D, E, M, O, R) && E[g.verticesCount] == None && D[g.verticesCount] == Fin(0)
    ensures forall i :: 0 <= i < |Recorded(E)| ==> IsEdge(g, Recorded(E)[i])
    ensures forall i, j :: 0 <= i < j < |Recorded(E)| ==> Recorded(E)[i].target < Recorded(E)[j].target
    ensures PathWeight(Recorded(E)) == DistSum(D)
  {
    var n := g.verticesCount;
    assert forall v :: 0 <= v < |E| && E[v].Some? ==> v < n && TreeEdge(g, D, O, v, E[v].value);
    RecordedInOrder(E);
    forall v | 0 <= v < |E| && E[v].None?
      ensures D[v] == Fin(0)
    {
      if v < n {
        var i :| 0 <= i < |R| && R[i] == v;
      }
    }
    RecordedWeight(D, E);
  }

  /** Each edge of es weighs no more than any stored edge into the same vertex from a vertex marked before it. */
  ghost predicate LightestInto(g: Graph, O: seq<int>, es: seq<Edge>)
  {
    forall i, u, e | 0 <= i < |es| && u in O && es[i].target in O && e in Neighbours(g, u) &&
                     e.target == es[i].target && IndexOf(O, u) < IndexOf(O, es[i].target) ::
      es[i].weight <= e.weight
  }

  /**
   * The greedy property the finished forest keeps: the recorded edge into w
   * weighs no more than any stored edge into w from a vertex marked before w.
   * It says nothing about edges followed only from their target.
   */
  lemma Lightest(g: Graph, D: seq<Dist>, E: seq<Option<Edge>>, M: seq<bool>, O: seq<int>, R: seq<int>)
    requires SpanningForest(g, D, E, M, O, R) && Greedy(g, D, O) && E[g.verticesCount] == None
    ensures LightestInto(g, O, Recorded(E))
  {
    var n := g.verticesCount;
    forall v | 0 <= v < |E| && E[v].Some?
      ensures E[v].value.target == v
    {
      assert v < n && TreeEdge(g, D, O, v, E[v].value);
    }
    RecordedInOrder(E);
    var es := Recorded(E);
    forall i, u, e | 0 <= i < |es| && u in O && es[i].target in O && e in Neighbours(g, u) &&
                     e.target == es[i].target && IndexOf(O, u) < IndexOf(O, es[i].target)
      ensures es[i].weight <= e.weight
    {
      var t := es[i].target;
      assert t < n && TreeEdge(g, D, O, t, es[i]);
    }
  }

  /** An undirected triangle built by three AddEdge calls: 1–0 weighing 1, then 0–2 and 2–1 weighing 10. */
  function Triangle(): (g: Graph)
    ensures g.verticesCount == 3
  {
    var adj := WithEdge(WithEdge(WithEdge(map[], false, 1, 0, 1), false, 0, 2, 10), false, 2, 1, 10);
    Graph(adj, 3)
  }

  /** What Triangle() stores under each vertex: every edge under both of its endpoints, unreversed. */
  lemma TriangleStored()
    ensures Neighbours(Triangle(), 0) == [Edge(1, 0, 1), Edge(0, 2, 10)]
    ensures Neighbours(Triangle(), 1) == [Edge(1, 0, 1), Edge(2, 1, 10)]
    ensures Neighbours(Triangle(), 2) == [Edge(0, 2, 10), Edge(2, 1, 10)]
  {
    var a, b, c := Edge(1, 0, 1), Edge(0, 2, 10), Edge(2, 1, 10);
    var m0: map<int, seq<Edge>> := map[];
    var m1 := WithEdge(m0, false, 1, 0, 1);
    var m2 := WithEdge(m1, false, 0, 2, 10);
    assert Triangle().adj == WithEdge(m2, false, 2, 1, 10);
    WithEdgeCollections(m0, false, 1, 0, 1, 0);
    WithEdgeCollections(m0, false, 1, 0, 1, 1);
    WithEdgeCollections(m0, false, 1, 0, 1, 2);
    WithEdgeCollections(m1, false, 0, 2, 10, 0);
    WithEdgeCollections(m1, false, 0, 2, 10, 1);
    WithEdgeCollections(m1, false, 0, 2, 10, 2);
    WithEdgeCollections(m2, false, 2, 1, 10, 0);
    WithEdgeCollections(m2, false, 2, 1, 10, 1);
    WithEdgeCollections(m2, false, 2, 1, 10, 2);
    assert [] + [a] + [b] == [a, b] && [] + [a] + [c] == [a, c] && [] + [b] + [c] == [b, c];
  }

  /** The three scans of a run from 0 over Triangle(), each after taking the only queued vertex. */
  lemma TriangleScans()
    ensures var a, b, c := Edge(1, 0, 1), Edge(0, 2, 10), Edge(2, 1, 10);
            var M1 := [true, false, false, false];
            var D0, E0: seq<Option<Edge>> := [Fin(0), Inf, Inf, Fin(0)], [None, None, None, None];
            var D1, E1 := D0[2 := Fin(10)], E0[2 := Some(b)];
            var D2, E2 := D1[1 := Fin(10)], E1[1 := Some(c)];
            && OfferAll(D0, E0, M1, map[], [a, b]) == (D1, E1, map[2 := 10])
            && OfferAll(D1, E1, M1[2 := true], map[], [b, c]) == (D2, E2, map[1 := 10])
            && OfferAll(D2, E2, M1[2 := true][1 := true], map[], [a, c]) == (D2, E2, map[])
  {
    var a, b, c := Edge(1, 0, 1), Edge(0, 2, 10), Edge(2, 1, 10);
    var M1 := [true, false, false, false];
    var D0, E0: seq<Option<Edge>> := [Fin(0), Inf, Inf, Fin(0)], [None, None, None, None];
    var D1, E1 := D0[2 := Fin(10)], E0[2 := Some(b)];
    var D2, E2 := D1[1 := Fin(10)], E1[1 := Some(c)];
    assert [a, b][..1] == [a] && [b, c][..1] == [b] && [a, c][..1] == [a];
    assert [a][..0] == [] && [b][..0] == [];
    assert Offer(D0, E0, M1, map[], a) == (D0, E0, map[]);
    assert Offer(D0, E0, M1, map[], b) == (D1, E1, map[2 := 10]);
    assert Offer(D1, E1, M1[2 := true], map[], b) == (D1, E1, map[]);
    assert Offer(D1, E1, M1[2 := true], map[], c) == (D2, E2, map[1 := 10]);
    assert Offer(D2, E2, M1[2 := true][1 := true], map[], a) == (D2, E2, map[]);
    assert Offer(D2, E2, M1[2 := true][1 := true], map[], c) == (D2, E2, map[]);
    assert OfferAll(D0, E0, M1, map[], [a]) == (D0, E0, map[]);
    assert OfferAll(D1, E1, M1[2 := true], map[], [b]) == (D1, E1, map[]);
    assert OfferAll(D2, E2, M1[2 := true][1 := true], map[], [a]) == (D2, E2, map[]);
  }

  /**
   * The weight is not always least. A run over Triangle() from 0 follows
   * each edge only from its source: scanning 0 reaches 2 through 0–2,
   * scanning 2 reaches 1 through 2–1, and scanning 1 offers nothing. The
   * recorded forest weighs 20, while the graph's edges 1–0 and 0–2 already
   * connect every vertex for 11.
   */
  lemma EagerScanNotMinimal()
    ensures var g, M := Triangle(), [false, false, false, false];
            var r0 := ([Fin(0), Inf, Inf, Fin(0)], [None, None, None, None], map[0 := 0]);
            var r1 := OfferAll(r0.0, r0.1, M[0 := true], r0.2 - {0}, Neighbours(g, 0));
            var r2 := OfferAll(r1.0, r1.1, M[0 := true][2 := true], r1.2 - {2}, Neighbours(g, 2));
            var r3 := OfferAll(r2.0, r2.1, M[0 := true][2 := true][1 := true], r2.2 - {1}, Neighbours(g, 1));
            && r1.2 == map[2 := 10] && r2.2 == map[1 := 10] && r3.2 == map[]
            && Recorded(r3.1) == [Edge(2, 1, 10), Edge(0, 2, 10)]
            && PathWeight(Recorded(r3.1)) == 20 && DistSum(r3.0) == 20
    ensures var g, tree := Triangle(), [Edge(1, 0, 1), Edge(0, 2, 10)];
            && IsPath(g, 1, 0, tree[..1]) && IsPath(g, 1, 2, tree)
            && PathWeight(tree) == 11
  {
    TriangleStored();
    TriangleScans();
    var b, c := Edge(0, 2, 10), Edge(2, 1, 10);
    var E2: seq<Option<Edge>> := [None, Some(c), Some(b), None];
    var D2 := [Fin(0), Fin(10), Fin(10), Fin(0)];
    var E0: seq<Option<Edge>> := [None, None, None, None];
    assert [false, false, false, false][0 := true] == [true, false, false, false];
    assert E0[2 := Some(b)][1 := Some(c)] == E2;
    assert [Fin(0), Inf, Inf, Fin(0)][2 := Fin(10)][1 := Fin(10)] == D2;
    assert map[0 := 0] - {0} == map[] && map[2 := 10] - {2} == map[] && map[1 := 10] - {1} == map[];
    TriangleForests();
    var a := Edge(1, 0, 1);
    assert [a, b][..1] == [a];
  }

  /** The two forests of Triangle(): the one the run records, and the lighter one through 1–0 and 0–2. */
  lemma TriangleForests()
    ensures var a, b, c := Edge(1, 0, 1), Edge(0, 2, 10), Edge(2, 1, 10);
            && Recorded([None, Some(c), Some(b), None]) == [c, b] && PathWeight([c, b]) == 20
            && DistSum([Fin(0), Fin(10), Fin(10), Fin(0)]) == 20
            && IsPath(Triangle(), 1, 0, [a]) && IsPath(Triangle(), 1, 2, [a, b]) && PathWeight([a, b]) == 11
  {
    var a, b, c := Edge(1, 0, 1), Edge(0, 2, 10), Edge(2, 1, 10);
    TriangleStored();
    var E2: seq<Option<Edge>> := [None, Some(c), Some(b), None];
    var D2 := [Fin(0), Fin(10), Fin(10), Fin(0)];
    assert Recorded(E2) == [c, b] by {
      var e3, e2, e1: seq<Option<Edge>> := [None, Some(c), Some(b)], [None, Some(c)], [None];
      assert E2[..3] == e3 && e3[..2] == e2 && e2[..1] == e1 && e1[..0] == [];
      assert Recorded(e1) == [] && Recorded(e2) == [c] && Recorded(e3) == [c, b];
    }
    assert PathWeight([c, b]) == 20 by {
      assert [c, b][..1] == [c] && [c][..0] == [];
      assert PathWeight([c]) == 10;
    }
    assert DistSum(D2) == 20 by {
      var d3, d2, d1 := [Fin(0), Fin(10), Fin(10)], [Fin(0), Fin(10)], [Fin(0)];
      assert D2[..3] == d3 && d3[..2] == d2 && d2[..1] == d1 && d1[..0] == [];
      assert DistSum(d1) == 0 && DistSum(d2) == 10 && DistSum(d3) == 20;
    }
    assert [a, b][..1] == [a] && [a][..0] == [];
  }

  class Prim {
    const graph: Graph
    const edgeTo: array<Option<Edge>>
    const distTo: array<Dist>
    const marked: array<bool>
    const priorityQueue: MinPriorityQueue
    ghost const Repr: set<object>
    /** The vertices in the order they were marked. */
    ghost var order: seq<int>
    /** The vertices each run started from, in order. */
    ghost var roots: seq<int>

    ghost predicate Valid()
      reads this, edgeTo, distTo, marked, priorityQueue, priorityQueue.pq, priorityQueue.qp, priorityQueue.keys
    {
      Repr == {this, edgeTo, distTo, marked, priorityQueue, priorityQueue.pq, priorityQueue.qp, priorityQueue.keys} && Built()
    }

    /** The forest is built and the queue is empty again. */
    ghost predicate Built()
      reads this, edgeTo, distTo, marked, priorityQueue, priorityQueue.pq, priorityQueue.qp, priorityQueue.keys
    {
      && priorityQueue.Valid() && priorityQueue.nmax == graph.verticesCount
      && priorityQueue.Contents() == map[]
      && State(graph, distTo[..], edgeTo[..], marked[..], map[], order, roots)
      && SpanningForest(graph, distTo[..], edgeTo[..], marked[..], order, roots)
      && Greedy(graph, distTo[..], order)
      && forall i, j :: 0 <= i < j < |roots| ==> roots[i] < roots[j]
    }

    /** Sets up the arrays and the queue, then runs from every vertex still unmarked, in ascending order. */
    constructor (g: Graph)
      requires WellFormed(g)
      ensures Valid() && fresh(Repr) && graph == g
    {
      graph := g;
      var n := g.verticesCount;
      var e, d, m := Arrays(n);
      var q := new MinPriorityQueue(n);
      edgeTo, distTo, marked, priorityQueue := e, d, m, q;
      order, roots := [], [];
      ghost var parts := {e, d, m, q, q.pq, q.qp, q.keys};
      assert fresh(parts);
      Repr := {this} + parts;
      new;
      Grow();
    }

    /** The arrays of the constructor: no edges, nothing marked, every vertex at +infinity and the extra slot at 0. */
    static method Arrays(n: nat) returns (e: array<Option<Edge>>, d: array<Dist>, m: array<bool>)
      ensures fresh(e) && fresh(d) && fresh(m)
      ensures e.Length == n + 1 && d.Length == n + 1 && m.Length == n + 1
      ensures forall x :: 0 <= x <= n ==> e[x] == None && !m[x]
      ensures forall x :: 0 <= x < n ==> d[x] == Inf
      ensures d[n] == Fin(0)
    {
      e := new Option<Edge>[n + 1](_ => None);
      d := new Dist[n + 1](_ => Fin(0));
      m := new bool[n + 1](_ => false);
      var v := 0;
      while v < n
        modifies d
        invariant 0 <= v <= n
        invariant forall x :: 0 <= x < v ==> d[x] == Inf
        invariant forall x :: v <= x <= n ==> d[x] == Fin(0)
      {
        d[v] := Inf;
        v := v + 1;
      }
    }

    /** The second loop of the constructor: a run from each vertex not yet marked, in ascending order. */
    method Grow()
      requires priorityQueue.Valid() && priorityQueue.nmax == graph.verticesCount && priorityQueue.Contents() == map[]
      requires WellFormed(graph) && distTo.Length == graph.verticesCount + 1 && edgeTo.Length == graph.verticesCount + 1 && marked.Length == graph.verticesCount + 1
      requires forall x :: 0 <= x < graph.verticesCount ==> distTo[x] == Inf
      requires forall x :: 0 <= x <= graph.verticesCount ==> edgeTo[x] == None && !marked[x]
      requires distTo[graph.verticesCount] == Fin(0) && order == [] && roots == []
      modifies this, edgeTo, distTo, marked, priorityQueue, priorityQueue.pq, priorityQueue.qp, priorityQueue.keys
      ensures Built()
    {
      Blank(graph, distTo[..], edgeTo[..], marked[..]);
      GreedyBlank(graph, distTo[..]);
      var n := graph.verticesCount;
      var v := 0;
      while v < n
        invariant 0 <= v <= n
        invariant priorityQueue.Valid() && priorityQueue.nmax == n && priorityQueue.Contents() == map[]
        invariant State(graph, distTo[..], edgeTo[..], marked[..], map[], order, roots)
        invariant Greedy(graph, distTo[..], order)
        invariant forall x :: 0 <= x < v ==> marked[x]
        invariant forall i :: 0 <= i < |roots| ==> roots[i] < v
        invariant forall i, j :: 0 <= i < j < |roots| ==> roots[i] < roots[j]
      {
        if !marked[v] {
          Run(v);
        }
        v := v + 1;
      }
      Spanned(graph, distTo[..], edgeTo[..], marked[..], order, roots);
    }

    /** A run from s: s at distance 0 enters the queue, which is then drained, scanning each vertex taken. */
    method Run(s: int)
      requires priorityQueue.Valid() && priorityQueue.nmax == graph.verticesCount && priorityQueue.Contents() == map[]
      requires State(graph, distTo[..], edgeTo[..], marked[..], map[], order, roots) && Greedy(graph, distTo[..], order)
      requires 0 <= s < graph.verticesCount && !marked[s]
      modifies this, edgeTo, distTo, marked, priorityQueue, priorityQueue.pq, priorityQueue.qp, priorityQueue.keys
      ensures priorityQueue.Valid() && priorityQueue.nmax == graph.verticesCount && priorityQueue.Contents() == map[]
      ensures State(graph, distTo[..], edgeTo[..], marked[..], map[], order, roots) && Greedy(graph, distTo[..], order)
      ensures roots == old(roots) + [s] && marked[s]
      ensures forall x :: 0 <= x < graph.verticesCount && old(marked[x]) ==> marked[x]
    {
      var n := graph.verticesCount;
      ghost var M0 := marked[..];
      Begin(s);
      while !priorityQueue.IsEmpty()
        invariant priorityQueue.Valid() && priorityQueue.nmax == n
        invariant State(graph, distTo[..], edgeTo[..], marked[..], priorityQueue.Contents(), order, roots)
        invariant Greedy(graph, distTo[..], order)
        invariant roots == old(roots) + [s]
        invariant forall x :: 0 <= x < n && M0[x] ==> marked[x]
        decreases n - |order|
      {
        Settle();
      }
      Drained(graph, distTo[..], edgeTo[..], marked[..], order, roots);
      assert roots[|roots| - 1] == s;
    }

    /** The start of a run from s: s at distance 0 is the only vertex queued, with key 0. */
    method Begin(s: int)
      requires priorityQueue.Valid() && priorityQueue.nmax == graph.verticesCount && priorityQueue.Contents() == map[]
      requires State(graph, distTo[..], edgeTo[..], marked[..], map[], order, roots) && Greedy(graph, distTo[..], order)
      requires 0 <= s < graph.verticesCount && !marked[s]
      modifies this, distTo, priorityQueue, priorityQueue.pq, priorityQueue.qp, priorityQueue.keys
      ensures priorityQueue.Valid() && priorityQueue.nmax == graph.verticesCount && priorityQueue.Contents() == map[s := 0]
      ensures State(graph, distTo[..], edgeTo[..], marked[..], priorityQueue.Contents(), order, roots)
      ensures Greedy(graph, distTo[..], order)
      ensures roots == old(roots) + [s] && order == old(order) && marked[..] == old(marked[..])
    {
      Root(graph, distTo[..], edgeTo[..], marked[..], order, roots, s);
      GreedyRoot(graph, distTo[..], edgeTo[..], marked[..], order, roots, s);
      distTo[s] := Fin(0);
      var _ := priorityQueue.Insert(s, 0);
      roots := roots + [s];
    }

    /** One round of a run: takes the queued vertex of least key and scans it. */
    method Settle()
      requires priorityQueue.Valid() && priorityQueue.nmax == graph.verticesCount && priorityQueue.Contents() != map[]
      requires State(graph, distTo[..], edgeTo[..], marked[..], priorityQueue.Contents(), order, roots)
      requires Greedy(graph, distTo[..], order)
      modifies this, edgeTo, distTo, marked, priorityQueue, priorityQueue.pq, priorityQueue.qp, priorityQueue.keys
      ensures priorityQueue.Valid() && priorityQueue.nmax == graph.verticesCount
      ensures State(graph, distTo[..], edgeTo[..], marked[..], priorityQueue.Contents(), order, roots)
      ensures Greedy(graph, distTo[..], order)
      ensures roots == old(roots) && |order| == |old(order)| + 1 <= graph.verticesCount
      ensures forall x :: 0 <= x < graph.verticesCount && old(marked[x]) ==> marked[x]
    {
      ghost var D, E, M, Q := distTo[..], edgeTo[..], marked[..], priorityQueue.Contents();
      var min := priorityQueue.DeleteMin();
      var v := min.value;
      TakeAndScan(graph, D, E, M, Q, order, roots, v);
      GreedyScan(graph, D, E, M, Q, order, v);
      order := order + [v];
      Scan(v);
      forall x | 0 <= x < graph.verticesCount && M[x]
        ensures marked[x]
      {
        assert marked[..][x] == M[v := true][x];
      }
    }

    /** Marks v and offers every edge stored under it, in order. */
    method Scan(v: int)
      requires priorityQueue.Valid() && priorityQueue.nmax == graph.verticesCount
      requires Shaped(graph, distTo[..], edgeTo[..], marked[..]) && 0 <= v < graph.verticesCount
      modifies edgeTo, distTo, marked, priorityQueue, priorityQueue.pq, priorityQueue.qp, priorityQueue.keys
      ensures priorityQueue.Valid() && priorityQueue.nmax == graph.verticesCount
      ensures marked[..] == old(marked[..])[v := true]
      ensures forall i :: 0 <= i < |Neighbours(graph, v)| ==> 0 <= Neighbours(graph, v)[i].target < marked.Length
      ensures var r := OfferAll(old(distTo[..]), old(edgeTo[..]), marked[..], old(priorityQueue.Contents()), Neighbours(graph, v));
              distTo[..] == r.0 && edgeTo[..] == r.1 && priorityQueue.Contents() == r.2
    {
      marked[v] := true;
      var edges := Neighbours(graph, v);
      forall i | 0 <= i < |edges|
        ensures 0 <= edges[i].target < graph.verticesCount
      {
        StoredEdge(graph, v, edges[i]);
      }
      ghost var M := marked[..];
      ghost var D0, E0, Q0 := distTo[..], edgeTo[..], priorityQueue.Contents();
      ghost var D, E, Q := D0, E0, Q0;
      for j := 0 to |edges|
        invariant priorityQueue.Valid() && priorityQueue.nmax == graph.verticesCount
        invariant marked[..] == M
        invariant D == distTo[..] && E == edgeTo[..] && Q == priorityQueue.Contents()
        invariant (D, E, Q) == OfferAll(D0, E0, M, Q0, edges[..j])
      {
        PrefixSnoc(edges, j);
        var e := edges[j];
        var w := e.target;
        if marked[w] {
          continue;
        }
        if Less(Fin(e.weight), distTo[w]) {
          Improve(e);
        }
        D, E, Q := distTo[..], edgeTo[..], priorityQueue.Contents();
      }
      assert edges[..|edges|] == edges;
    }

    /** The update of Scan for an edge it accepts: its target takes the edge, its weight as distance, and that weight as key (ChangeKey when queued, Insert otherwise). */
    method Improve(e: Edge)
      requires priorityQueue.Valid() && priorityQueue.nmax == graph.verticesCount
      requires distTo.Length == graph.verticesCount + 1 && edgeTo.Length == graph.verticesCount + 1
      requires 0 <= e.target < graph.verticesCount
      modifies edgeTo, distTo, priorityQueue, priorityQueue.pq, priorityQueue.qp, priorityQueue.keys
      ensures priorityQueue.Valid() && priorityQueue.nmax == graph.verticesCount
      ensures distTo[..] == old(distTo[..])[e.target := Fin(e.weight)]
      ensures edgeTo[..] == old(edgeTo[..])[e.target := Some(e)]
      ensures priorityQueue.Contents() == old(priorityQueue.Contents())[e.target := e.weight]
    {
      var w := e.target;
      distTo[w] := Fin(e.weight);
      edgeTo[w] := Some(e);
      var queued := priorityQueue.Contains(w);
      if queued == Ok(true) {
        var _ := priorityQueue.ChangeKey(w, e.weight);
      } else {
        var _ := priorityQueue.Insert(w, e.weight);
      }
    }

    /** The recorded edges, in increasing order of the vertex each reaches; one per vertex that is not a root. */
    method Edges() returns (mst: seq<Edge>)
      requires Valid()
      ensures mst == Recorded(edgeTo[..])
      ensures |mst| == graph.verticesCount - |roots|
      ensures forall i :: 0 <= i < |mst| ==> IsEdge(graph, mst[i])
      ensures forall i, j :: 0 <= i < j < |mst| ==> mst[i].target < mst[j].target
      ensures LightestInto(graph, order, mst)
    {
      mst := [];
      for v := 0 to edgeTo.Length
        invariant mst == Recorded(edgeTo[..v])
      {
        assert edgeTo[..v + 1][..v] == edgeTo[..v];
        var e := edgeTo[v];
        if e.Some? {
          mst := mst + [e.value];
        }
      }
      assert edgeTo[..edgeTo.Length] == edgeTo[..];
      ForestSize(graph, distTo[..], edgeTo[..], marked[..], order, roots);
      ForestEdges(graph, distTo[..], edgeTo[..], marked[..], order, roots);
      Lightest(graph, distTo[..], edgeTo[..], marked[..], order, roots);
    }

    /** The total weight of the recorded edges, which is also the sum of the distances. */
    method Weight() returns (weight: int)
      requires Valid()
      ensures weight == PathWeight(Recorded(edgeTo[..]))
      ensures weight == DistSum(distTo[..])
    {
      var es := Edges();
      weight := Total(es);
      ForestEdges(graph, distTo[..], edgeTo[..], marked[..], order, roots);
    }

    /** The loop of Weight: the weights of es added up in order. */
    static method Total(es: seq<Edge>) returns (weight: int)
      ensures weight == PathWeight(es)
    {
      weight := 0;
      for i := 0 to |es|
        invariant weight == PathWeight(es[..i])
      {
        assert es[..i + 1][..i] == es[..i];
        weight := weight + es[i].weight;
      }
      assert es[..|es|] == es;
    }
  }
}
