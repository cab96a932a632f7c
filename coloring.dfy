/**
 * Welsh-Powell greedy colouring. The vertices with stored edges are ordered
 * by degree, highest first; each round opens a new colour and gives it, in
 * that order, to every remaining vertex none of whose edges leads to a
 * vertex already given the colour in this round; the vertices coloured leave
 * the worklist. The finished colour map is then checked, and a map that
 * fails the check is an error.
 *
 * A colour map is checked against the target of every edge stored under a
 * vertex. In an undirected graph an edge is also stored under its own target,
 * so the check compares that vertex with itself and fails
 * (UndirectedNeverValid): only directed graphs can pass.
 */
module Coloring {
  import opened Base
  import opened Edges
  import opened Graphs
  import opened MultiMaps

  // ---------------------------------------------------------------------
  // Ordering by degree

  /** The number of edges stored under v: its entry in the degree map when it has any. */
  function Degree(g: Graph, v: int): (d: nat)
    ensures WellFormed(g) && v in Degrees(g) ==> d == Degrees(g)[v]
  {
    |Neighbours(g, v)|
  }

  /** The degrees never increase along s. */
  ghost predicate DegreeDescending(g: Graph, s: seq<int>)
  {
    forall i, j :: 0 <= i < j < |s| ==> Degree(g, s[i]) >= Degree(g, s[j])
  }

  /** x placed before the first vertex of sorted whose degree is no greater than its own. */
  function InsertByDegree(g: Graph, x: int, sorted: seq<int>): (r: seq<int>)
    ensures |r| == |sorted| + 1
    ensures forall y :: y in r <==> y in sorted || y == x
    decreases |sorted|
  {
    if |sorted| == 0 || Degree(g, sorted[0]) <= Degree(g, x) then [x] + sorted
    else [sorted[0]] + InsertByDegree(g, x, sorted[1..])
  }

  /** Inserting into a degree-descending sequence keeps it degree-descending. */
  lemma {:induction false} InsertByDegreeSorted(g: Graph, x: int, sorted: seq<int>)
    requires DegreeDescending(g, sorted)
    ensures DegreeDescending(g, InsertByDegree(g, x, sorted))
    decreases |sorted|
  {
    if |sorted| > 0 && Degree(g, sorted[0]) > Degree(g, x) {
      var tail := sorted[1..];
      var rest := InsertByDegree(g, x, tail);
      InsertByDegreeSorted(g, x, tail);
      var r := [sorted[0]] + rest;
      assert r == InsertByDegree(g, x, sorted);
      forall i, j | 0 <= i < j < |r|
        ensures Degree(g, r[i]) >= Degree(g, r[j])
      {
        assert r[j] == rest[j - 1];
        if i > 0 {
          assert r[i] == rest[i - 1];
        } else if r[j] != x {
          assert r[j] in tail;
          var k :| 0 <= k < |tail| && tail[k] == r[j];
          assert sorted[k + 1] == r[j];
        }
      }
    }
  }

  /** Inserting a new vertex into a sequence without repeats leaves none. */
  lemma {:induction false} InsertByDegreeDistinct(g: Graph, x: int, sorted: seq<int>)
    requires Distinct(sorted) && x !in sorted
    ensures Distinct(InsertByDegree(g, x, sorted))
    decreases |sorted|
  {
    if |sorted| > 0 && Degree(g, sorted[0]) > Degree(g, x) {
      var tail := sorted[1..];
      var rest := InsertByDegree(g, x, tail);
      InsertByDegreeDistinct(g, x, tail);
      var r := [sorted[0]] + rest;
      assert r == InsertByDegree(g, x, sorted);
      assert sorted[0] !in tail;
      forall i, j | 0 <= i < j < |r|
        ensures r[i] != r[j]
      {
        assert r[j] == rest[j - 1];
        if i > 0 {
          assert r[i] == rest[i - 1];
        } else {
          assert r[j] in rest;
        }
      }
    }
  }

  /**
   * keys sorted by degree, highest first; vertices of equal degree keep their
   * order in keys, as a stable sort does.
   */
  function ByDegree(g: Graph, keys: seq<int>): (r: seq<int>)
    ensures |r| == |keys|
    ensures forall y :: y in r <==> y in keys
    decreases |keys|
  {
    if |keys| == 0 then []
    else InsertByDegree(g, keys[0], ByDegree(g, keys[1..]))
  }

  /** The sorted order is degree-descending, and without repeats when keys has none. */
  lemma {:induction false} ByDegreeSorted(g: Graph, keys: seq<int>)
    ensures DegreeDescending(g, ByDegree(g, keys))
    ensures Distinct(keys) ==> Distinct(ByDegree(g, keys))
    decreases |keys|
  {
    if |keys| > 0 {
      ByDegreeSorted(g, keys[1..]);
      InsertByDegreeSorted(g, keys[0], ByDegree(g, keys[1..]));
      if Distinct(keys) {
        assert keys[0] !in keys[1..];
        InsertByDegreeDistinct(g, keys[0], ByDegree(g, keys[1..]));
      }
    }
  }

  /**
   * The worklist loses the vertices coloured in a round, one removal per
   * coloured vertex; the others stay, in order.
   */
  method Dismiss(work: seq<int>, colored: seq<int>) returns (rest: seq<int>)
    requires Distinct(work) && Distinct(colored) && forall x :: x in colored ==> x in work
    ensures Distinct(rest) && |rest| == |work| - |colored|
    ensures forall v :: v in rest <==> v in work && v !in colored
    ensures rest == RemoveEach(work, colored)
  {
    rest := work;
    for j := 0 to |colored|
      invariant Distinct(rest) && |rest| == |work| - j
      invariant forall v :: v in rest <==> v in work && v !in colored[..j]
      invariant rest == RemoveEach(work, colored[..j])
    {
      assert colored[..j + 1] == colored[..j] + [colored[j]];
      RemoveEachSnoc(work, colored[..j], colored[j]);
      RemoveFirstMembers(rest, colored[j]);
      RemoveFirstDistinct(rest, colored[j]);
      rest := RemoveFirst(rest, colored[j]);
    }
    assert colored[..|colored|] == colored;
  }

  /** Removing occurrences never lengthens a sequence. */
  lemma {:induction false} RemoveEachShorter(s: seq<int>, xs: seq<int>)
    ensures |RemoveEach(s, xs)| <= |s|
    decreases |xs|
  {
    if |xs| > 0 {
      RemoveEachShorter(RemoveFirst(s, xs[0]), xs[1..]);
    }
  }

  // ---------------------------------------------------------------------
  // The colouring a run computes

  /** The vertices of s that occur in c, in the order of s. */
  function InOrder(s: seq<int>, c: seq<int>): (r: seq<int>)
    ensures |r| <= |s|
    ensures forall x :: x in r <==> x in s && x in c
    decreases |s|
  {
    if |s| == 0 then []
    else
      var last := s[|s| - 1];
      assert s == s[..|s| - 1] + [last];
      InOrder(s[..|s| - 1], c) + (if last in c then [last] else [])
  }

  /** InOrder looks only at which vertices of s are in c. */
  lemma {:induction false} InOrderSame(s: seq<int>, c1: seq<int>, c2: seq<int>)
    requires forall x :: x in s ==> (x in c1 <==> x in c2)
    ensures InOrder(s, c1) == InOrder(s, c2)
    decreases |s|
  {
    if |s| > 0 {
      assert s == s[..|s| - 1] + [s[|s| - 1]];
      InOrderSame(s[..|s| - 1], c1, c2);
    }
  }

  /**
   * The vertices one round colours from the worklist work: in worklist
   * order, each vertex none of whose stored edges leads to a vertex already
   * taken. The first vertex is always taken.
   */
  ghost function Pick(g: Graph, work: seq<int>): (c: seq<int>)
    ensures forall x :: x in c ==> x in work
    ensures |work| > 0 ==> |c| > 0 && c[0] == work[0]
    decreases |work|
  {
    if |work| == 0 then []
    else
      var last := work[|work| - 1];
      var c := Pick(g, work[..|work| - 1]);
      assert work == work[..|work| - 1] + [last];
      if ConflictFree(g, last, c) then c + [last] else c
  }

  /** No edge stored under v leads to a vertex that is both in c and in before. */
  ghost predicate NoEdgeBack(g: Graph, v: int, c: seq<int>, before: seq<int>)
  {
    forall e :: e in Neighbours(g, v) ==> !(e.target in c && e.target in before)
  }

  /**
   * The rule of a round, stated without reference to how it is computed: c
   * holds vertices of work in worklist order, and a vertex of work is in c
   * exactly when none of its stored edges leads to a vertex of c placed
   * before it in work.
   */
  ghost predicate GreedyRound(g: Graph, work: seq<int>, c: seq<int>)
  {
    && c == InOrder(work, c)
    && forall i :: 0 <= i < |work| ==> TakenByRule(g, work, c, i)
  }

  /** The vertex at position i of work is in c exactly when it has no edge back into c. */
  ghost predicate TakenByRule(g: Graph, work: seq<int>, c: seq<int>, i: int)
    requires 0 <= i < |work|
  {
    work[i] in c <==> NoEdgeBack(g, work[i], c, work[..i])
  }

  /** Whether v has an edge back into c depends only on the vertices of before that c holds. */
  lemma NoEdgeBackSame(g: Graph, v: int, c1: seq<int>, c2: seq<int>, before: seq<int>)
    requires forall y :: y in before ==> (y in c1 <==> y in c2)
    ensures NoEdgeBack(g, v, c1, before) <==> NoEdgeBack(g, v, c2, before)
  {
  }

  /** Following the rule on w, one more vertex taken exactly when conflict-free follows it on w + [x]. */
  lemma ExtendRule(g: Graph, w: seq<int>, x: int, c': seq<int>, c: seq<int>)
    requires x !in w && GreedyRound(g, w, c')
    requires c == if ConflictFree(g, x, c') then c' + [x] else c'
    ensures GreedyRound(g, w + [x], c)
  {
    var work := w + [x];
    assert forall y :: y in c' ==> y in w;
    assert forall y :: y in w ==> (y in c <==> y in c');
    InOrderSame(w, c, c');
    assert work[..|w|] == w;
    assert InOrder(work, c) == c;
    forall i | 0 <= i < |work|
      ensures TakenByRule(g, work, c, i)
    {
      if i < |w| {
        assert TakenByRule(g, w, c', i);
        assert work[i] == w[i] && work[..i] == w[..i];
        assert forall y :: y in w[..i] ==> y in w;
        NoEdgeBackSame(g, w[i], c, c', w[..i]);
      } else {
        assert NoEdgeBack(g, x, c, w) <==> ConflictFree(g, x, c');
      }
    }
  }

  /** A round's pick follows the rule. */
  lemma {:induction false} PickGreedy(g: Graph, work: seq<int>)
    requires Distinct(work)
    ensures GreedyRound(g, work, Pick(g, work))
    decreases |work|
  {
    if |work| > 0 {
      var n := |work| - 1;
      var w := work[..n];
      assert work == w + [work[n]];
      PickGreedy(g, w);
      ExtendRule(g, w, work[n], Pick(g, w), Pick(g, work));
    }
  }

  /** Two sequences that follow a round's rule agree on the first i vertices of the worklist. */
  lemma {:induction false} SameUpTo(g: Graph, work: seq<int>, c1: seq<int>, c2: seq<int>, i: int)
    requires GreedyRound(g, work, c1) && GreedyRound(g, work, c2) && 0 <= i <= |work|
    ensures forall y :: y in work[..i] ==> (y in c1 <==> y in c2)
    decreases i
  {
    if i > 0 {
      SameUpTo(g, work, c1, c2, i - 1);
      var v := work[i - 1];
      assert TakenByRule(g, work, c1, i - 1) && TakenByRule(g, work, c2, i - 1);
      NoEdgeBackSame(g, v, c1, c2, work[..i - 1]);
      assert work[..i] == work[..i - 1] + [v];
    }
  }

  /** The rule fixes a round: the pick is the only sequence that follows it. */
  lemma RoundUnique(g: Graph, work: seq<int>, c: seq<int>)
    requires Distinct(work) && GreedyRound(g, work, c)
    ensures c == Pick(g, work)
  {
    PickGreedy(g, work);
    SameUpTo(g, work, c, Pick(g, work), |work|);
    assert work[..|work|] == work;
    InOrderSame(work, c, Pick(g, work));
  }

  /**
   * The rounds of a run from the worklist work: the round's pick, then the
   * rounds from the worklist with the picked vertices removed one by one.
   * There is one round per colour, at most one per vertex, and at least one
   * when there are vertices.
   */
  ghost function Schedule(g: Graph, work: seq<int>): (rounds: seq<seq<int>>)
    ensures |rounds| <= |work|
    ensures |rounds| == 0 <==> |work| == 0
    decreases |work|
  {
    if |work| == 0 then []
    else
      var c := Pick(g, work);
      RemoveEachShorter(RemoveFirst(work, c[0]), c[1..]);
      assert RemoveEach(work, c) == RemoveEach(RemoveFirst(work, c[0]), c[1..]);
      [c] + Schedule(g, RemoveEach(work, c))
  }

  /** The rounds one after the other. */
  function Flat(rounds: seq<seq<int>>): seq<int>
    decreases |rounds|
  {
    if |rounds| == 0 then [] else Flat(rounds[..|rounds| - 1]) + rounds[|rounds| - 1]
  }

  /** A vertex is in the flattened rounds exactly when it is in one of them. */
  lemma {:induction false} FlatMembers(rounds: seq<seq<int>>, x: int)
    ensures x in Flat(rounds) <==> exists j :: 0 <= j < |rounds| && x in rounds[j]
    decreases |rounds|
  {
    if |rounds| > 0 {
      var front := rounds[..|rounds| - 1];
      FlatMembers(front, x);
      assert forall j :: 0 <= j < |front| ==> front[j] == rounds[j];
    }
  }

  /** Round j of rounds, numbered from base + 1, gives its colour to each of its vertices. */
  ghost predicate RoundColours(cm: seq<int>, base: int, rounds: seq<seq<int>>)
  {
    forall j, k :: 0 <= j < |rounds| && 0 <= k < |rounds[j]| ==> 0 <= rounds[j][k] < |cm| && cm[rounds[j][k]] == base + j + 1
  }

  /**
   * The colour map is fixed by the rounds: two maps that give every
   * vertex of round j the colour base + j + 1, give no colour to a vertex
   * with no stored edges, and whose rounds hold every vertex with stored
   * edges, are equal.
   */
  lemma ColoursDetermined(g: Graph, rounds: seq<seq<int>>, base: int, c1: seq<int>, c2: seq<int>)
    requires WellFormed(g) && |c1| == |c2|
    requires RoundColours(c1, base, rounds) && RoundColours(c2, base, rounds)
    requires forall v :: 0 <= v < |c1| && v !in Vertices(g) ==> c1[v] == 0 && c2[v] == 0
    requires forall v :: v in Vertices(g) ==> v in Flat(rounds)
    ensures c1 == c2
  {
    forall v | 0 <= v < |c1|
      ensures c1[v] == c2[v]
    {
      if v in Vertices(g) {
        assert v in Flat(rounds);
        FlatMembers(rounds, v);
        var j :| 0 <= j < |rounds| && v in rounds[j];
        var k :| 0 <= k < |rounds[j]| && rounds[j][k] == v;
      }
    }
  }

  /** A finished round adds its colour to the round colours, the earlier rounds keeping theirs. */
  lemma NextColours(cm0: seq<int>, cm: seq<int>, base: int, rounds: seq<seq<int>>, colored: seq<int>)
    requires base >= 0 && RoundColours(cm0, base, rounds) && Extends(cm0, cm)
    requires forall x :: x in colored ==> 0 <= x < |cm| && cm[x] == base + |rounds| + 1
    ensures RoundColours(cm, base, rounds + [colored])
  {
    var r := rounds + [colored];
    forall j, k | 0 <= j < |r| && 0 <= k < |r[j]|
      ensures 0 <= r[j][k] < |cm| && cm[r[j][k]] == base + j + 1
    {
      if j < |rounds| {
        assert r[j][k] == rounds[j][k];
      } else {
        assert r[j][k] in colored;
      }
    }
  }

  // ---------------------------------------------------------------------
  // The state of a run

  /** Some edge stored under v leads to a vertex of colour c. */
  ghost predicate SeesColour(g: Graph, cm: seq<int>, v: int, c: int)
  {
    exists e :: e in Neighbours(g, v) && 0 <= e.target < |cm| && cm[e.target] == c
  }

  /** cm' keeps every colour cm has handed out. */
  ghost predicate Extends(cm: seq<int>, cm': seq<int>)
  {
    |cm'| == |cm| && forall x :: 0 <= x < |cm| && cm[x] != 0 ==> cm'[x] == cm[x]
  }

  /** A colour seen along an edge is still seen once more colours are handed out. */
  lemma KeptSeen(g: Graph, cm: seq<int>, cm': seq<int>)
    requires Extends(cm, cm')
    ensures forall v, c :: c != 0 && SeesColour(g, cm, v, c) ==> SeesColour(g, cm', v, c)
  {
    forall v, c | c != 0 && SeesColour(g, cm, v, c)
      ensures SeesColour(g, cm', v, c)
    {
      var e :| e in Neighbours(g, v) && 0 <= e.target < |cm| && cm[e.target] == c;
      assert cm'[e.target] == c;
    }
  }

  /**
   * Between rounds: the worklist holds, once each, the vertices with stored
   * edges still uncoloured; every other vertex with stored edges has a colour
   * of this run (above base, at most count) and a vertex without any has none.
   */
  ghost predicate Between(g: Graph, cm: seq<int>, base: int, count: int, work: seq<int>)
  {
    && Distinct(work)
    && (forall v :: v in work ==> v in g.adj && 0 <= v < |cm| && cm[v] == 0)
    && (forall v :: 0 <= v < |cm| && v !in work && v in g.adj ==> base < cm[v] <= count)
    && (forall v :: 0 <= v < |cm| && v !in g.adj ==> cm[v] == 0)
  }

  /**
   * The greedy guarantee: a vertex given colour c saw, along its edges, every
   * earlier colour of the run, and a vertex still uncoloured saw every colour
   * handed out so far.
   */
  ghost predicate Greedy(g: Graph, cm: seq<int>, base: int, count: int, work: seq<int>)
  {
    && (forall v, c :: 0 <= v < |cm| && base < c < cm[v] ==> SeesColour(g, cm, v, c))
    && (forall v, c :: v in work && base < c <= count ==> SeesColour(g, cm, v, c))
  }

  /** No edge stored under v leads to a vertex of colored. */
  ghost predicate ConflictFree(g: Graph, v: int, colored: seq<int>)
  {
    forall e :: e in Neighbours(g, v) ==> e.target !in colored
  }

  /**
   * A round with colour count part-way through, from the colour map cm0 at
   * its start: the vertices coloured so far are among those seen, now carry
   * count and saw every earlier colour; each of them, when it was coloured,
   * had no edge leading to a vertex coloured before it in the round; every
   * other vertex keeps its colour; every vertex seen and not coloured saw count.
   */
  ghost predicate Painted(g: Graph, cm0: seq<int>, cm: seq<int>, base: int, count: int, seen: seq<int>, colored: seq<int>)
  {
    && Extends(cm0, cm)
    && (forall x :: 0 <= x < |cm| && x !in colored ==> cm[x] == cm0[x])
    && (forall x :: x in colored ==> x in seen && 0 <= x < |cm| && cm[x] == count)
    && (forall x, c :: x in colored && base < c < count ==> SeesColour(g, cm, x, c))
    && (forall x :: x in seen && x !in colored ==> SeesColour(g, cm, x, count))
    && (forall l :: 0 <= l < |colored| ==> ConflictFree(g, colored[l], colored[..l]))
  }

  /** Every edge stored under an index below m leads to an index below m. */
  ghost predicate TargetsBelow(g: Graph, m: int)
  {
    forall i, e :: 0 <= i < m && e in Neighbours(g, i) ==> 0 <= e.target < m
  }

  /** No edge stored under an index of the map leads to an index with the same colour. */
  ghost predicate Proper(g: Graph, cm: seq<int>)
    requires TargetsBelow(g, |cm|)
  {
    forall i, e :: 0 <= i < |cm| && e in Neighbours(g, i) ==> cm[e.target] != cm[i]
  }

  /** Every edge target of a well-formed graph indexes a map with an entry per vertex. */
  lemma TargetsIndex(g: Graph, m: int)
    requires WellFormed(g) && m >= g.verticesCount
    ensures forall i, e :: e in Neighbours(g, i) ==> 0 <= e.target < m
  {
    forall i, e | e in Neighbours(g, i)
      ensures 0 <= e.target < m
    {
      StoredEdge(g, i, e);
    }
  }

  /**
   * The end of a run: every vertex with stored edges has a colour of the run,
   * so the colouring order lists exactly those vertices; each saw every
   * earlier colour of the run, and every target indexes the map.
   */
  lemma Coloured(g: Graph, cm: seq<int>, base: int, count: int, order: seq<int>)
    requires WellFormed(g) && |cm| == g.verticesCount + 1 && base >= 0
    requires Between(g, cm, base, count, []) && Greedy(g, cm, base, count, [])
    requires Covers(cm, order)
    ensures forall v :: v in order <==> 0 <= v < |cm| && v in Vertices(g)
    ensures forall v :: 0 <= v < |cm| && v in Vertices(g) ==> base < cm[v] <= count
    ensures forall v :: 0 <= v < |cm| && v !in Vertices(g) ==> cm[v] == 0
    ensures forall v, c :: 0 <= v < |cm| && base < c < cm[v] ==> SeesColour(g, cm, v, c)
    ensures TargetsBelow(g, |cm|)
  {
    TargetsIndex(g, |cm|);
  }

  /** The end of a run: what the loop of rounds leaves, stated as a run's result over its keys. */
  lemma Finished(g: Graph, cm: seq<int>, base: int, count: int, keys: seq<int>, order: seq<int>, rounds: seq<seq<int>>)
    requires WellFormed(g) && |cm| == g.verticesCount + 1 && base >= 0
    requires Between(g, cm, base, count, []) && Greedy(g, cm, base, count, []) && Covers(cm, order)
    requires rounds == Schedule(g, ByDegree(g, keys)) && count == base + |rounds|
    ensures base <= count <= base + |keys|
    ensures count == base <==> |keys| == 0
    ensures forall v :: v in order <==> 0 <= v < |cm| && v in Vertices(g)
    ensures forall v :: 0 <= v < |cm| && v in Vertices(g) ==> base < cm[v] <= count
    ensures forall v :: 0 <= v < |cm| && v !in Vertices(g) ==> cm[v] == 0
    ensures forall v, c :: 0 <= v < |cm| && base < c < cm[v] ==> SeesColour(g, cm, v, c)
    ensures TargetsBelow(g, |cm|)
  {
    Coloured(g, cm, base, count, order);
  }

  /** The start of a run: nothing coloured, every vertex with stored edges in the worklist, once. */
  lemma Started(g: Graph, cm: seq<int>, base: int, keys: seq<int>)
    requires WellFormed(g) && base >= 0
    requires |cm| == g.verticesCount + 1 && forall x :: 0 <= x < |cm| ==> cm[x] == 0
    requires Distinct(keys) && forall v :: v in keys <==> v in Degrees(g)
    ensures Between(g, cm, base, base, ByDegree(g, keys)) && Greedy(g, cm, base, base, ByDegree(g, keys))
  {
    ByDegreeSorted(g, keys);
  }

  /** The vertex a round reaches next is uncoloured and not yet coloured in the round. */
  lemma Uncoloured(g: Graph, cm0: seq<int>, cm: seq<int>, base: int, count: int, work: seq<int>, i: int, colored: seq<int>)
    requires Between(g, cm0, base, count - 1, work) && 0 <= i < |work|
    requires Painted(g, cm0, cm, base, count, work[..i], colored)
    ensures work[i] !in colored && 0 <= work[i] < |cm| && cm[work[i]] == 0
  {
    assert forall k :: 0 <= k < i ==> work[k] != work[i];
    assert work[i] !in work[..i];
    assert forall x :: x in colored ==> x in work[..i];
    assert work[i] in work;
  }

  /** Giving the round's colour to the next vertex keeps the round consistent. */
  lemma Paint(g: Graph, cm0: seq<int>, cm: seq<int>, base: int, count: int, work: seq<int>, i: int, colored: seq<int>)
    requires Between(g, cm0, base, count - 1, work) && Greedy(g, cm0, base, count - 1, work)
    requires 0 <= base < count && 0 <= i < |work|
    requires Painted(g, cm0, cm, base, count, work[..i], colored)
    requires work[i] !in colored && 0 <= work[i] < |cm| && cm[work[i]] == 0
    requires ConflictFree(g, work[i], colored)
    ensures Painted(g, cm0, cm[work[i] := count], base, count, work[..i + 1], colored + [work[i]])
  {
    var v := work[i];
    var cm' := cm[v := count];
    assert work[..i + 1] == work[..i] + [v];
    assert (colored + [v])[..|colored|] == colored;
    assert forall l :: 0 <= l < |colored| ==> (colored + [v])[..l] == colored[..l];
    KeptSeen(g, cm, cm');
    KeptSeen(g, cm0, cm');
  }

  /** Skipping a vertex that sees the round's colour keeps the round consistent. */
  lemma Skip(g: Graph, cm0: seq<int>, cm: seq<int>, base: int, count: int, work: seq<int>, i: int, colored: seq<int>, e: Edge)
    requires 0 <= i < |work| && Painted(g, cm0, cm, base, count, work[..i], colored)
    requires e in Neighbours(g, work[i]) && e.target in colored
    ensures Painted(g, cm0, cm, base, count, work[..i + 1], colored)
  {
    assert work[..i + 1] == work[..i] + [work[i]];
  }

  /** After a round and the removal of its vertices, the run is between rounds again, one colour further. */
  lemma AfterRound(g: Graph, cm0: seq<int>, cm: seq<int>, base: int, count: int, work: seq<int>, colored: seq<int>, rest: seq<int>)
    requires Between(g, cm0, base, count - 1, work) && Greedy(g, cm0, base, count - 1, work)
    requires 0 <= base < count
    requires Painted(g, cm0, cm, base, count, work, colored)
    requires Distinct(rest) && forall v :: v in rest <==> v in work && v !in colored
    ensures Between(g, cm, base, count, rest) && Greedy(g, cm, base, count, rest)
  {
    KeptSeen(g, cm0, cm);
  }

  /**
   * order lists coloured vertices in the order they got their colour: colours
   * never fall along it, and an edge stored under a vertex never leads to a
   * vertex of the same colour listed before it.
   */
  ghost predicate Ordered(g: Graph, cm: seq<int>, order: seq<int>)
  {
    && Distinct(order)
    && (forall k :: 0 <= k < |order| ==> 0 <= order[k] < |cm|)
    && (forall k, l :: 0 <= k < l < |order| ==> cm[order[k]] <= cm[order[l]])
    && (forall k, l, e :: 0 <= k < l < |order| && e in Neighbours(g, order[l]) && e.target == order[k] ==> cm[order[k]] != cm[order[l]])
  }

  /** order lists exactly the vertices with a colour. */
  ghost predicate Covers(cm: seq<int>, order: seq<int>)
  {
    forall v :: v in order <==> 0 <= v < |cm| && cm[v] != 0
  }

  /** Appending a round's vertices, in the order the round coloured them, keeps the colouring order. */
  lemma NextOrder(g: Graph, cm0: seq<int>, cm: seq<int>, base: int, count: int, work: seq<int>, colored: seq<int>, order: seq<int>)
    requires Between(g, cm0, base, count - 1, work) && 0 <= base < count
    requires Ordered(g, cm0, order) && Covers(cm0, order)
    requires Painted(g, cm0, cm, base, count, work, colored) && Distinct(colored)
    ensures Ordered(g, cm, order + colored) && Covers(cm, order + colored)
  {
    var o := order + colored;
    forall k | 0 <= k < |order|
      ensures order[k] !in colored && cm[order[k]] == cm0[order[k]] < count
    {
      assert order[k] in order;
    }
    forall v | v in o
      ensures 0 <= v < |cm| && cm[v] != 0
    {
      if v !in order {
        assert v in colored;
      }
    }
    assert forall k :: 0 <= k < |o| ==> o[k] in o;
    forall k, l | 0 <= k < l < |o|
      ensures o[k] != o[l] && cm[o[k]] <= cm[o[l]]
    {
      if l >= |order| && k < |order| {
        assert o[l] in colored;
      }
    }
    forall k, l, e | 0 <= k < l < |o| && e in Neighbours(g, o[l])
      ensures e.target == o[k] ==> cm[o[k]] != cm[o[l]]
    {
      if k >= |order| {
        var c := colored[..l - |order|];
        assert ConflictFree(g, colored[l - |order|], c);
        assert o[k] == c[k - |order|];
        assert e.target != o[k];
      } else if l >= |order| {
        assert o[l] in colored;
      }
    }
  }

  /** Two listed vertices joined both ways get different colours. */
  lemma OrderedEdge(g: Graph, cm: seq<int>, order: seq<int>, u: int, e: Edge, e': Edge)
    requires Ordered(g, cm, order) && u in order && e.target in order && e.target != u
    requires e in Neighbours(g, u) && e' in Neighbours(g, e.target) && e'.target == u
    ensures 0 <= u < |cm| && 0 <= e.target < |cm| && cm[e.target] != cm[u]
  {
    var lu :| 0 <= lu < |order| && order[lu] == u;
    var lt :| 0 <= lt < |order| && order[lt] == e.target;
    if lt < lu {
      assert e in Neighbours(g, order[lu]) && e.target == order[lt];
    } else {
      assert e' in Neighbours(g, order[lt]) && e'.target == order[lu];
    }
  }

  /**
   * A run part-way through, from the worklist all: the rounds so far are the
   * first rounds of the schedule, the rest of it is the schedule of the
   * worklist rest, the colour map holds their colours with the greedy
   * guarantee, and order lists their vertices.
   */
  ghost predicate Progress(g: Graph, cm: seq<int>, base: int, count: int, all: seq<int>, rest: seq<int>, order: seq<int>, rounds: seq<seq<int>>)
  {
    && Between(g, cm, base, count, rest) && Greedy(g, cm, base, count, rest)
    && Ordered(g, cm, order) && Covers(cm, order)
    && Schedule(g, all) == rounds + Schedule(g, rest)
    && order == Flat(rounds) && count == base + |rounds|
    && RoundColours(cm, base, rounds)
  }

  /** A finished round moves the run on by a colour, one round along the schedule. */
  lemma NextRound(g: Graph, cm0: seq<int>, cm: seq<int>, base: int, count: int, all: seq<int>, work: seq<int>, colored: seq<int>, rest: seq<int>, order: seq<int>, rounds: seq<seq<int>>)
    requires Progress(g, cm0, base, count - 1, all, work, order, rounds) && 0 <= base < count && |work| > 0
    requires Painted(g, cm0, cm, base, count, work, colored) && Distinct(colored) && colored == Pick(g, work)
    requires Distinct(rest) && (forall v :: v in rest <==> v in work && v !in colored) && rest == RemoveEach(work, colored)
    ensures Progress(g, cm, base, count, all, rest, order + colored, rounds + [colored])
  {
    AfterRound(g, cm0, cm, base, count, work, colored, rest);
    NextOrder(g, cm0, cm, base, count, work, colored, order);
    NextColours(cm0, cm, base, rounds, colored);
    ScheduleStep(g, all, work, colored, rest, rounds);
    FlatSnoc(rounds, colored);
  }

  /** A round picked from rest and removed from it takes the run one round along the schedule. */
  lemma ScheduleStep(g: Graph, work: seq<int>, rest: seq<int>, colored: seq<int>, left: seq<int>, rounds: seq<seq<int>>)
    requires |rest| > 0 && colored == Pick(g, rest) && left == RemoveEach(rest, colored)
    requires Schedule(g, work) == rounds + Schedule(g, rest)
    ensures Schedule(g, work) == (rounds + [colored]) + Schedule(g, left)
  {
    assert Schedule(g, rest) == [colored] + Schedule(g, left);
  }

  /** Flattening one more round appends its vertices. */
  lemma FlatSnoc(rounds: seq<seq<int>>, colored: seq<int>)
    ensures Flat(rounds + [colored]) == Flat(rounds) + colored
  {
    assert (rounds + [colored])[..|rounds|] == rounds;
  }

  /** Every stored edge joins two distinct vertices, and an edge leading back is stored under its target. */
  ghost predicate Reciprocal(g: Graph)
  {
    forall u, e | e in Neighbours(g, u) :: e.target != u && LeadsTo(Neighbours(g, e.target), u)
  }

  /** Some edge of es leads to u. */
  ghost predicate LeadsTo(es: seq<Edge>, u: int)
  {
    exists e :: e in es && e.target == u
  }

  /** The edge form of ReciprocalPasses: every stored edge joins two colours. */
  lemma ReciprocalColours(g: Graph, cm: seq<int>, order: seq<int>)
    requires WellFormed(g) && Reciprocal(g) && |cm| == g.verticesCount + 1
    requires forall v :: v in order <==> 0 <= v < |cm| && v in Vertices(g)
    requires Ordered(g, cm, order)
    ensures forall i, e :: e in Neighbours(g, i) ==> 0 <= i < |cm| && 0 <= e.target < |cm| && cm[e.target] != cm[i]
  {
    forall i, e | e in Neighbours(g, i)
      ensures 0 <= i < |cm| && 0 <= e.target < |cm| && cm[e.target] != cm[i]
    {
      StoredEdge(g, i, e);
      assert LeadsTo(Neighbours(g, e.target), i);
      var e' :| e' in Neighbours(g, e.target) && e'.target == i;
      assert i in Vertices(g) && e.target in Vertices(g);
      OrderedEdge(g, cm, order, i, e, e');
    }
  }

  class ColoringAlgorithm {
    const graph: Graph
    /** The number of colours handed out, over all runs: never reset. */
    var colorCount: int

    ghost predicate Valid()
      reads this
    {
      colorCount >= 0
    }

    constructor (graph: Graph)
      ensures Valid() && this.graph == graph && colorCount == 0
    {
      this.graph := graph;
      colorCount := 0;
    }

    /** The colours handed out so far, over every run. */
    function ColorCount(): (r: int)
      requires Valid()
      reads this
      ensures r >= 0 && r == colorCount
    {
      colorCount
    }

    /** Some edge stored under vertex leads to a vertex coloured in this round. */
    function Conflict(vertex: int, colored: seq<int>): (r: bool)
      ensures r <==> !ConflictFree(graph, vertex, colored)
    {
      exists e | e in Neighbours(graph, vertex) :: e.target in colored
    }

    /**
     * No index i of the map has an edge stored under it whose target carries
     * the colour of i. Every such target must index the map.
     */
    function IsValidColoring(colorMap: seq<int>): (r: bool)
      requires TargetsBelow(graph, |colorMap|)
      ensures r <==> Proper(graph, colorMap)
    {
      !exists i | 0 <= i < |colorMap| :: exists e | e in Neighbours(graph, i) :: colorMap[e.target] == colorMap[i]
    }

    /**
     * In an undirected graph with an edge, no colour map covering the
     * vertices passes the check: the edge is also stored under its target,
     * whose colour is compared with itself.
     */
    lemma UndirectedNeverValid(colorMap: seq<int>, k: int)
      requires WellFormed(graph) && Mirrored(graph) && k in graph.adj
      requires |colorMap| >= graph.verticesCount
      ensures !IsValidColoring(colorMap)
    {
      var e := graph.adj[k][0];
      StoredEdge(graph, k, e);
      assert e in Neighbours(graph, e.target);
      assert colorMap[e.target] == colorMap[e.target];
    }

    /**
     * When every stored edge has a stored edge leading back (as with two
     * opposite directed edges), a colouring in which no edge leads back to a
     * vertex of the same colour coloured earlier, such as the one a run
     * returns with its order, passes the check.
     */
    lemma ReciprocalPasses(colors: seq<int>, order: seq<int>)
      requires WellFormed(graph) && Reciprocal(graph) && |colors| == graph.verticesCount + 1
      requires forall v :: v in order <==> 0 <= v < |colors| && v in Vertices(graph)
      requires Ordered(graph, colors, order)
      ensures TargetsBelow(graph, |colors|)
      ensures IsValidColoring(colors)
    {
      ReciprocalColours(graph, colors, order);
    }

    /**
     * One run of Welsh-Powell. keys is the order in which the degree map
     * enumerates its vertices; the worklist is that order sorted by degree.
     * The colour map of the run (local to the run in the library) is
     * returned as colors. Each round opens a colour and colours at least the
     * first remaining vertex, so the run uses at most one colour per vertex
     * and at least one when there are vertices; colours continue from the
     * previous runs' count.
     */
    method RunColoring(keys: seq<int>) returns (r: Outcome, colors: seq<int>, ghost order: seq<int>, ghost rounds: seq<seq<int>>)
      requires Valid() && WellFormed(graph)
      requires Distinct(keys) && forall v :: v in keys <==> v in Degrees(graph)
      modifies this
      ensures Valid()
      ensures old(colorCount) <= colorCount <= old(colorCount) + |keys|
      ensures colorCount == old(colorCount) <==> |keys| == 0
      ensures |colors| == graph.verticesCount + 1
      ensures forall v :: 0 <= v < |colors| && v in Vertices(graph) ==> old(colorCount) < colors[v] <= colorCount
      ensures forall v :: 0 <= v < |colors| && v !in Vertices(graph) ==> colors[v] == 0
      ensures forall v, c :: 0 <= v < |colors| && old(colorCount) < c < colors[v] ==> SeesColour(graph, colors, v, c)
      ensures forall v :: v in order <==> 0 <= v < |colors| && v in Vertices(graph)
      ensures Ordered(graph, colors, order)
      ensures rounds == Schedule(graph, ByDegree(graph, keys)) && order == Flat(rounds)
      ensures colorCount == old(colorCount) + |rounds| && RoundColours(colors, old(colorCount), rounds)
      ensures TargetsBelow(graph, |colors|)
      ensures r == Pass <==> IsValidColoring(colors)
      ensures r.Fail? ==> r.error == InvalidColoring
    {
      colors, order, rounds := Colour(keys);
      r := if IsValidColoring(colors) then Pass else Fail(InvalidColoring);
    }

    /** The colouring part of a run, up to the final check of the colour map. */
    method Colour(keys: seq<int>) returns (colors: seq<int>, ghost order: seq<int>, ghost rounds: seq<seq<int>>)
      requires Valid() && WellFormed(graph)
      requires Distinct(keys) && forall v :: v in keys <==> v in Degrees(graph)
      modifies this
      ensures Valid()
      ensures old(colorCount) <= colorCount <= old(colorCount) + |keys|
      ensures colorCount == old(colorCount) <==> |keys| == 0
      ensures |colors| == graph.verticesCount + 1
      ensures forall v :: 0 <= v < |colors| && v in Vertices(graph) ==> old(colorCount) < colors[v] <= colorCount
      ensures forall v :: 0 <= v < |colors| && v !in Vertices(graph) ==> colors[v] == 0
      ensures forall v, c :: 0 <= v < |colors| && old(colorCount) < c < colors[v] ==> SeesColour(graph, colors, v, c)
      ensures forall v :: v in order <==> 0 <= v < |colors| && v in Vertices(graph)
      ensures Ordered(graph, colors, order)
      ensures rounds == Schedule(graph, ByDegree(graph, keys)) && order == Flat(rounds)
      ensures colorCount == old(colorCount) + |rounds| && RoundColours(colors, old(colorCount), rounds)
      ensures TargetsBelow(graph, |colors|)
    {
      var work := ByDegree(graph, keys);
      var colorMap := new int[graph.verticesCount + 1](_ => 0);
      ghost var base := colorCount;
      Started(graph, colorMap[..], base, keys);
      order, rounds := Rounds(colorMap, work, base);
      colors := colorMap[..];
      Finished(graph, colors, base, colorCount, keys, order, rounds);
    }

    /** The loop of rounds: one new colour per round until the worklist is empty. */
    method Rounds(colorMap: array<int>, work: seq<int>, ghost base: int) returns (ghost order: seq<int>, ghost rounds: seq<seq<int>>)
      requires WellFormed(graph) && 0 <= base == colorCount
      requires Between(graph, colorMap[..], base, base, work) && Greedy(graph, colorMap[..], base, base, work)
      requires forall x :: 0 <= x < colorMap.Length ==> colorMap[x] == 0
      modifies this, colorMap
      ensures base <= colorCount <= base + |work|
      ensures colorCount == base <==> |work| == 0
      ensures Between(graph, colorMap[..], base, colorCount, []) && Greedy(graph, colorMap[..], base, colorCount, [])
      ensures Ordered(graph, colorMap[..], order) && Covers(colorMap[..], order)
      ensures rounds == Schedule(graph, work) && order == Flat(rounds) && colorCount == base + |rounds|
      ensures RoundColours(colorMap[..], base, rounds)
    {
      var rest := work;
      order := [];
      rounds := [];
      while |rest| > 0
        invariant Progress(graph, colorMap[..], base, colorCount, work, rest, order, rounds)
        decreases |rest|
      {
        rest, order, rounds := NextColour(colorMap, work, rest, base, order, rounds);
      }
    }

    /** One pass of the loop of rounds: a new colour, a round with it, and the removal of the round's vertices. */
    method NextColour(colorMap: array<int>, work: seq<int>, rest: seq<int>, ghost base: int, ghost order: seq<int>, ghost rounds: seq<seq<int>>)
      returns (left: seq<int>, ghost order': seq<int>, ghost rounds': seq<seq<int>>)
      requires WellFormed(graph) && 0 <= base && |rest| > 0
      requires Progress(graph, colorMap[..], base, colorCount, work, rest, order, rounds)
      modifies this, colorMap
      ensures Progress(graph, colorMap[..], base, colorCount, work, left, order', rounds')
      ensures colorCount == old(colorCount) + 1 && |left| < |rest|
    {
      colorCount := colorCount + 1;
      ghost var cm0 := colorMap[..];
      var colored := Round(colorMap, rest, colorCount, base);
      left := Dismiss(rest, colored);
      NextRound(graph, cm0, colorMap[..], base, colorCount, work, rest, colored, left, order, rounds);
      order' := order + colored;
      rounds' := rounds + [colored];
    }

    /**
     * One round with colour count: in worklist order, each vertex still
     * uncoloured with no edge leading to a vertex coloured in this round
     * gets count. The first vertex always does.
     */
    method Round(cm: array<int>, work: seq<int>, count: int, ghost base: int) returns (colored: seq<int>)
      requires WellFormed(graph) && 0 <= base < count && |work| > 0
      requires Between(graph, cm[..], base, count - 1, work) && Greedy(graph, cm[..], base, count - 1, work)
      modifies cm
      ensures Painted(graph, old(cm[..]), cm[..], base, count, work, colored)
      ensures Distinct(colored) && |colored| > 0
      ensures colored == Pick(graph, work)
    {
      ghost var cm0 := cm[..];
      colored := [];
      for i := 0 to |work|
        invariant Painted(graph, cm0, cm[..], base, count, work[..i], colored)
        invariant Distinct(colored)
        invariant i > 0 ==> |colored| > 0
        invariant colored == Pick(graph, work[..i])
      {
        var vertex := work[i];
        assert work[..i + 1][..i] == work[..i];
        Uncoloured(graph, cm0, cm[..], base, count, work, i, colored);
        if cm[vertex] == 0 && !Conflict(vertex, colored) {
          Paint(graph, cm0, cm[..], base, count, work, i, colored);
          colored := colored + [vertex];
          cm[vertex] := count;
        } else {
          var e :| e in Neighbours(graph, vertex) && e.target in colored;
          Skip(graph, cm0, cm[..], base, count, work, i, colored, e);
        }
      }
      assert work[..|work|] == work;
    }
  }
}
