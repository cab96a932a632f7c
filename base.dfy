/**
 * Shared outcome types (the exceptions the library throws become typed error
 * values) and a few facts about sequences and sets used by several modules.
 */
module Base {

  /** The library's failure conditions, one per distinct exception it raises. */
  datatype Error =
    | InvalidCapacity   // negative capacity for a priority queue
    | InvalidIndex      // a queue index outside [0, nmax), or a vertex outside the arrays
    | DuplicateIndex    // Insert of an index already in the queue
    | NotPresent        // ChangeKey/DecreaseKey/IncreaseKey/Delete of an absent index
    | NotADecrease      // DecreaseKey whose key does not strictly decrease
    | NotAnIncrease     // IncreaseKey whose key does not strictly increase
    | Underflow         // MinKey/DeleteMin on an empty queue
    | NegativeWeight    // Dijkstra over a graph holding an edge of negative weight
    | InvalidColoring   // RunColoring whose colour map fails IsValidColoring
    | NegativeDimension // a bit matrix of negative dimension

  datatype Option<T> = None | Some(value: T)

  datatype Result<T> = Ok(value: T) | Err(error: Error)

  datatype Outcome = Pass | Fail(error: Error)

  /** The integers 0..m-1. */
  ghost function Below(m: nat): set<int>
  {
    if m == 0 then {} else Below(m - 1) + {m - 1}
  }

  lemma {:induction false} BelowFacts(m: nat)
    ensures |Below(m)| == m
    ensures forall x :: x in Below(m) <==> 0 <= x < m
  {
    if m > 0 {
      BelowFacts(m - 1);
    }
  }

  /** A subset is no larger than its superset. */
  lemma {:induction false} SubsetSize<T>(a: set<T>, b: set<T>)
    requires a <= b
    ensures |a| <= |b|
    decreases a
  {
    if a != {} {
      var x :| x in a;
      SubsetSize(a - {x}, b - {x});
    }
  }

  /** No element occurs twice. */
  ghost predicate Distinct<T>(s: seq<T>)
  {
    forall i, j :: 0 <= i < j < |s| ==> s[i] != s[j]
  }

  /** The position of the first occurrence of x. */
  function IndexOf<T(==)>(s: seq<T>, x: T): (i: nat)
    requires x in s
    ensures i < |s| && s[i] == x && x !in s[..i]
    decreases |s|
  {
    if s[0] == x then 0
    else
      assert x in s[1..];
      var j := IndexOf(s[1..], x);
      assert s[..j + 1] == [s[0]] + s[1..][..j];
      j + 1
  }

  /** A prefix one element longer is the shorter prefix followed by that element. */
  lemma PrefixSnoc<T>(s: seq<T>, j: int)
    requires 0 <= j < |s|
    ensures s[..j + 1] == s[..j] + [s[j]]
  {
  }

  /** A first occurrence is the first occurrence. */
  lemma IndexOfUnique<T>(s: seq<T>, x: T, i: int)
    requires 0 <= i < |s| && s[i] == x && x !in s[..i]
    ensures IndexOf(s, x) == i
  {
  }

  /** Appending a new element keeps the positions of the old ones and puts the new one last. */
  lemma IndexOfSnoc<T>(s: seq<T>, v: T)
    requires v !in s
    ensures IndexOf(s + [v], v) == |s|
    ensures forall x :: x in s ==> IndexOf(s + [v], x) == IndexOf(s, x)
  {
    assert (s + [v])[..|s|] == s;
    IndexOfUnique(s + [v], v, |s|);
    forall x | x in s
      ensures IndexOf(s + [v], x) == IndexOf(s, x)
    {
      var i := IndexOf(s, x);
      assert (s + [v])[..i] == s[..i];
      IndexOfUnique(s + [v], x, i);
    }
  }

  /** A sequence without repeats has as many distinct elements as positions. */
  lemma {:induction false} DistinctSize<T>(s: seq<T>)
    requires Distinct(s)
    ensures |set x | x in s| == |s|
    decreases |s|
  {
    if |s| > 0 {
      var init := s[..|s| - 1];
      DistinctSize(init);
      assert (set x | x in s) == (set x | x in init) + {s[|s| - 1]};
      assert s[|s| - 1] !in init;
    }
  }

  /** Distinct integers drawn from 0..m-1 number at most m. */
  lemma DistinctBound(s: seq<int>, m: nat)
    requires Distinct(s)
    requires forall i :: 0 <= i < |s| ==> 0 <= s[i] < m
    ensures |s| <= m
  {
    DistinctSize(s);
    BelowFacts(m);
    SubsetSize((set x | x in s), Below(m));
  }
}
