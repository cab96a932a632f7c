/**
 * The order and link invariants of the indexed binary heap, stated on the
 * contents of its arrays (`p` for heap position -> index, `q` for index ->
 * position, `ks` for index -> key), and the lemmas that the swim and sink
 * passes of the priority queue rest on. Heap positions are 1-based: the
 * parent of position c is c / 2.
 */
module Heaps {
  import opened Base

  /** The key stored at heap position c, or 0 where the position holds no valid index. */
  function KeyOf(p: seq<int>, ks: seq<int>, c: int): int
  {
    if 0 <= c < |p| && 0 <= p[c] < |ks| then ks[p[c]] else 0
  }

  /** Exchange of heap positions i and j. */
  function Swap(p: seq<int>, i: int, j: int): (r: seq<int>)
    requires 0 <= i < |p| && 0 <= j < |p|
    ensures |r| == |p| && r[i] == p[j] && r[j] == p[i]
    ensures forall c :: 0 <= c < |p| && c != i && c != j ==> r[c] == p[c]
  {
    p[i := p[j]][j := p[i]]
  }

  /**
   * Positions 1..n hold indices in [0, nmax), each recorded at its position in `q`,
   * and every index whose recorded position lies in 1..n sits at that position.
   */
  ghost predicate Linked(p: seq<int>, q: seq<int>, nmax: int, n: int)
  {
    && 0 <= n <= nmax
    && |p| == nmax + 1 && |q| == nmax + 1
    && (forall k :: 1 <= k <= n ==> 0 <= p[k] < nmax && q[p[k]] == k)
    && (forall i :: 0 <= i < nmax && 1 <= q[i] <= n ==> p[q[i]] == i)
  }

  /** The key at position c is no smaller than the key at its parent. */
  ghost predicate ParentOk(p: seq<int>, ks: seq<int>, c: int)
  {
    KeyOf(p, ks, c / 2) <= KeyOf(p, ks, c)
  }

  /** Min-heap order on positions 1..n. */
  ghost predicate Heap(p: seq<int>, ks: seq<int>, n: int)
  {
    forall c :: 2 <= c <= n ==> ParentOk(p, ks, c)
  }

  /** The parent of h is no greater than the children of h. */
  ghost predicate GrandOk(p: seq<int>, ks: seq<int>, n: int, h: int)
  {
    h > 1 ==>
      && (2 * h <= n ==> KeyOf(p, ks, h / 2) <= KeyOf(p, ks, 2 * h))
      && (2 * h + 1 <= n ==> KeyOf(p, ks, h / 2) <= KeyOf(p, ks, 2 * h + 1))
  }

  /** Heap order everywhere except on the two kinds of edge that touch position h. */
  ghost predicate HoleAt(p: seq<int>, ks: seq<int>, n: int, h: int)
  {
    && (forall c :: 2 <= c <= n && c != h && c / 2 != h ==> ParentOk(p, ks, c))
    && GrandOk(p, ks, n, h)
  }

  /** The state from which swimming position h restores the heap. */
  ghost predicate UpReady(p: seq<int>, ks: seq<int>, n: int, h: int)
  {
    && (forall c :: 2 <= c <= n && c != h ==> ParentOk(p, ks, c))
    && GrandOk(p, ks, n, h)
  }

  /** The state from which sinking position h restores the heap. */
  ghost predicate DownReady(p: seq<int>, ks: seq<int>, n: int, h: int)
  {
    && (forall c :: 2 <= c <= n && c / 2 != h ==> ParentOk(p, ks, c))
    && GrandOk(p, ks, n, h)
  }

  /** Position h holds a key strictly smaller than its parent's. */
  ghost predicate Swims(p: seq<int>, ks: seq<int>, h: int)
  {
    h > 1 && KeyOf(p, ks, h / 2) > KeyOf(p, ks, h)
  }

  /** j is the child of k that the sink pass chooses: the right one only when strictly smaller. */
  ghost predicate SmallerChild(p: seq<int>, ks: seq<int>, n: int, k: int, j: int)
  {
    || (j == 2 * k && (2 * k + 1 > n || KeyOf(p, ks, 2 * k) <= KeyOf(p, ks, 2 * k + 1)))
    || (j == 2 * k + 1 && 2 * k + 1 <= n && KeyOf(p, ks, 2 * k) > KeyOf(p, ks, 2 * k + 1))
  }

  /** In a heap, the root holds a key no greater than any other position's. */
  lemma {:induction false} RootIsMinimum(p: seq<int>, ks: seq<int>, n: int, c: int)
    requires Heap(p, ks, n)
    requires 1 <= c <= n
    ensures KeyOf(p, ks, 1) <= KeyOf(p, ks, c)
    decreases c
  {
    if c > 1 {
      RootIsMinimum(p, ks, n, c / 2);
      assert ParentOk(p, ks, c);
    }
  }

  /** A position with an undetermined key either needs to swim or is ready to sink. */
  lemma HoleIsReady(p: seq<int>, ks: seq<int>, n: int, h: int)
    requires HoleAt(p, ks, n, h)
    requires 1 <= h
    ensures Swims(p, ks, h) ==> UpReady(p, ks, n, h)
    ensures !Swims(p, ks, h) ==> DownReady(p, ks, n, h)
  {
    if Swims(p, ks, h) {
      forall c | 2 <= c <= n && c != h
        ensures ParentOk(p, ks, c)
      {
        if c / 2 == h {
          assert c == 2 * h || c == 2 * h + 1;
        }
      }
    } else {
      forall c | 2 <= c <= n && c / 2 != h
        ensures ParentOk(p, ks, c)
      {
      }
    }
  }

  /** A heap is ready to sink from any position. */
  lemma HeapIsDownReady(p: seq<int>, ks: seq<int>, n: int, h: int)
    requires Heap(p, ks, n)
    requires 1 <= h
    ensures DownReady(p, ks, n, h)
  {
    if h > 1 && 2 * h <= n {
      assert ParentOk(p, ks, h) && ParentOk(p, ks, 2 * h);
      if 2 * h + 1 <= n {
        assert ParentOk(p, ks, 2 * h + 1);
      }
    }
  }

  /** Changing only the key at position h of a heap leaves a hole at h. */
  lemma {:induction false} KeyChangeLeavesHole(p: seq<int>, ks: seq<int>, ks': seq<int>, n: int, h: int)
    requires Heap(p, ks, n)
    requires 1 <= h <= n
    requires forall c :: 1 <= c <= n && c != h ==> KeyOf(p, ks', c) == KeyOf(p, ks, c)
    ensures HoleAt(p, ks', n, h)
  {
    forall c | 2 <= c <= n && c != h && c / 2 != h
      ensures ParentOk(p, ks', c)
    {
      assert ParentOk(p, ks, c);
    }
    if h > 1 && 2 * h <= n {
      assert ParentOk(p, ks, h) && ParentOk(p, ks, 2 * h);
      if 2 * h + 1 <= n {
        assert ParentOk(p, ks, 2 * h + 1);
      }
    }
  }

  /** Moving the last position of a heap into position h and shrinking it leaves a hole at h. */
  lemma {:induction false} SwapOutLeavesHole(p: seq<int>, ks: seq<int>, n: int, h: int)
    requires Heap(p, ks, n)
    requires 1 <= h < n < |p|
    ensures HoleAt(Swap(p, h, n), ks, n - 1, h)
  {
    var p' := Swap(p, h, n);
    forall c | 2 <= c <= n - 1 && c != h && c / 2 != h
      ensures ParentOk(p', ks, c)
    {
      assert ParentOk(p, ks, c);
      assert KeyOf(p', ks, c) == KeyOf(p, ks, c) && KeyOf(p', ks, c / 2) == KeyOf(p, ks, c / 2);
    }
    if h > 1 && 2 * h <= n - 1 {
      assert ParentOk(p, ks, h) && ParentOk(p, ks, 2 * h);
      assert KeyOf(p', ks, h / 2) == KeyOf(p, ks, h / 2);
      assert KeyOf(p', ks, 2 * h) == KeyOf(p, ks, 2 * h);
      if 2 * h + 1 <= n - 1 {
        assert ParentOk(p, ks, 2 * h + 1);
        assert KeyOf(p', ks, 2 * h + 1) == KeyOf(p, ks, 2 * h + 1);
      }
    }
  }

  /** One swim step: exchanging a too-small position with its parent moves the defect up. */
  lemma {:induction false} SwimStep(p: seq<int>, ks: seq<int>, n: int, k: int)
    requires 2 <= k <= n < |p|
    requires UpReady(p, ks, n, k)
    requires KeyOf(p, ks, k / 2) > KeyOf(p, ks, k)
    ensures UpReady(Swap(p, k, k / 2), ks, n, k / 2)
  {
    var h := k / 2;
    var p' := Swap(p, k, h);
    assert KeyOf(p', ks, k) == KeyOf(p, ks, h) && KeyOf(p', ks, h) == KeyOf(p, ks, k);
    forall c | 2 <= c <= n && c != h
      ensures ParentOk(p', ks, c)
    {
      if c == k {
      } else if c / 2 == k {
        assert c == 2 * k || c == 2 * k + 1;
        assert KeyOf(p', ks, c) == KeyOf(p, ks, c);
      } else if c / 2 == h {
        assert ParentOk(p, ks, c);
        assert KeyOf(p', ks, c) == KeyOf(p, ks, c);
      } else {
        assert ParentOk(p, ks, c);
        assert KeyOf(p', ks, c) == KeyOf(p, ks, c) && KeyOf(p', ks, c / 2) == KeyOf(p, ks, c / 2);
      }
    }
    if h > 1 {
      assert ParentOk(p, ks, h);
      assert KeyOf(p', ks, h / 2) == KeyOf(p, ks, h / 2);
      if 2 * h + 1 <= n {
        var s := if k == 2 * h then 2 * h + 1 else 2 * h;
        assert ParentOk(p, ks, s);
        assert KeyOf(p', ks, s) == KeyOf(p, ks, s);
      }
    }
  }

  /** A swim pass that stops (at the root or below a parent no greater) leaves a heap. */
  lemma SwimDone(p: seq<int>, ks: seq<int>, n: int, k: int)
    requires UpReady(p, ks, n, k)
    requires 1 <= k
    requires !Swims(p, ks, k)
    ensures Heap(p, ks, n)
  {
  }

  /** One sink step: exchanging a too-large position with its smaller child moves the defect down. */
  lemma {:induction false} SinkStep(p: seq<int>, ks: seq<int>, n: int, k: int, j: int)
    requires 1 <= k && 2 * k <= n < |p|
    requires DownReady(p, ks, n, k)
    requires SmallerChild(p, ks, n, k, j)
    requires KeyOf(p, ks, k) > KeyOf(p, ks, j)
    ensures DownReady(Swap(p, k, j), ks, n, j)
  {
    var p' := Swap(p, k, j);
    assert KeyOf(p', ks, k) == KeyOf(p, ks, j) && KeyOf(p', ks, j) == KeyOf(p, ks, k);
    forall c | 2 <= c <= n && c / 2 != j
      ensures ParentOk(p', ks, c)
    {
      if c == j {
      } else if c / 2 == k {
        assert KeyOf(p', ks, c) == KeyOf(p, ks, c);
      } else if c == k {
        assert KeyOf(p', ks, k / 2) == KeyOf(p, ks, k / 2);
      } else {
        assert ParentOk(p, ks, c);
        assert KeyOf(p', ks, c) == KeyOf(p, ks, c) && KeyOf(p', ks, c / 2) == KeyOf(p, ks, c / 2);
      }
    }
    if 2 * j <= n {
      assert ParentOk(p, ks, 2 * j);
      assert KeyOf(p', ks, 2 * j) == KeyOf(p, ks, 2 * j);
      if 2 * j + 1 <= n {
        assert ParentOk(p, ks, 2 * j + 1);
        assert KeyOf(p', ks, 2 * j + 1) == KeyOf(p, ks, 2 * j + 1);
      }
    }
  }

  /** A sink pass that stops (no child, or no smaller child) leaves a heap. */
  lemma SinkDone(p: seq<int>, ks: seq<int>, n: int, k: int, j: int)
    requires DownReady(p, ks, n, k)
    requires 1 <= k
    requires 2 * k > n || (SmallerChild(p, ks, n, k, j) && KeyOf(p, ks, k) <= KeyOf(p, ks, j))
    ensures Heap(p, ks, n)
  {
    forall c | 2 <= c <= n
      ensures ParentOk(p, ks, c)
    {
      if c / 2 == k {
        assert c == 2 * k || c == 2 * k + 1;
      }
    }
  }

  /**
   * From (p0, q0) to (p, q) only positions 1..n were rearranged: positions outside
   * keep their index, indices recorded outside 1..n keep their record, and indices
   * recorded inside stay inside.
   */
  ghost predicate OnlyHeapMoved(p0: seq<int>, q0: seq<int>, p: seq<int>, q: seq<int>, n: int)
  {
    && |p| == |p0| && |q| == |q0|
    && (forall c :: 0 <= c < |p| && !(1 <= c <= n) ==> p[c] == p0[c])
    && (forall i :: 0 <= i < |q| && !(1 <= q0[i] <= n) ==> q[i] == q0[i])
    && (forall i :: 0 <= i < |q| && 1 <= q0[i] <= n ==> 1 <= q[i] <= n)
  }

  lemma MovedTransitive(p0: seq<int>, q0: seq<int>, p1: seq<int>, q1: seq<int>, p: seq<int>, q: seq<int>, n: int)
    requires OnlyHeapMoved(p0, q0, p1, q1, n) && OnlyHeapMoved(p1, q1, p, q, n)
    ensures OnlyHeapMoved(p0, q0, p, q, n)
  {
  }

  /** Appending a position below a heap leaves it ready to swim from the new last position. */
  lemma AppendIsUpReady(p: seq<int>, ks: seq<int>, p': seq<int>, ks': seq<int>, n: int)
    requires Heap(p, ks, n)
    requires forall c :: 1 <= c <= n ==> KeyOf(p', ks', c) == KeyOf(p, ks, c)
    ensures UpReady(p', ks', n + 1, n + 1)
  {
    forall c | 2 <= c <= n
      ensures ParentOk(p', ks', c)
    {
      assert ParentOk(p, ks, c);
    }
  }

  /** Heap order on positions 1..n depends only on the keys held there. */
  lemma SameKeysSameHeap(p: seq<int>, ks: seq<int>, p': seq<int>, ks': seq<int>, n: int)
    requires Heap(p, ks, n)
    requires forall c :: 1 <= c <= n ==> KeyOf(p', ks', c) == KeyOf(p, ks, c)
    ensures Heap(p', ks', n)
  {
    forall c | 2 <= c <= n
      ensures ParentOk(p', ks', c)
    {
      assert ParentOk(p, ks, c);
    }
  }

  /** The indices held at positions 1..n. */
  ghost function Held(p: seq<int>, n: int): set<int>
    requires n < |p|
  {
    set k | 1 <= k <= n :: p[k]
  }

  /** Distinct positions hold distinct indices, so n positions hold n indices. */
  lemma {:induction false} HeldSize(p: seq<int>, q: seq<int>, nmax: int, n: int)
    requires Linked(p, q, nmax, n)
    ensures |Held(p, n)| == n
    decreases n
  {
    if n > 0 {
      assert Linked(p, q, nmax, n - 1);
      HeldSize(p, q, nmax, n - 1);
      assert Held(p, n) == Held(p, n - 1) + {p[n]};
      assert p[n] !in Held(p, n - 1);
    }
  }

  /** When some index in [0, nmax) is held nowhere, fewer than nmax positions are in use. */
  lemma RoomForAbsent(p: seq<int>, q: seq<int>, nmax: int, n: int, i: int)
    requires Linked(p, q, nmax, n)
    requires 0 <= i < nmax && i !in Held(p, n)
    ensures n < nmax
  {
    HeldSize(p, q, nmax, n);
    BelowFacts(nmax);
    var others := Below(nmax) - {i};
    assert |others| == nmax - 1;
    SubsetSize(Held(p, n), others);
  }

  /** Every index in [0, nmax) is absent (-1) or recorded at a position in 1..n; the sentinel slot nmax is absent. */
  ghost predicate Ranged(q: seq<int>, nmax: int, n: int)
  {
    && 0 <= nmax && |q| == nmax + 1 && q[nmax] == -1
    && (forall x :: 0 <= x < nmax ==> q[x] == -1 || 1 <= q[x] <= n)
  }

  /** The present indices (those not recorded as -1) with their keys. */
  ghost function Present(q: seq<int>, ks: seq<int>, nmax: int): map<int, int>
    requires nmax <= |q| && nmax <= |ks|
  {
    map x | 0 <= x < nmax && q[x] != -1 :: ks[x]
  }

  /** The queue holds exactly n indices: the present ones are the indices at positions 1..n. */
  lemma PresentSize(p: seq<int>, q: seq<int>, ks: seq<int>, nmax: int, n: int)
    requires Linked(p, q, nmax, n) && Ranged(q, nmax, n) && |ks| == nmax + 1
    ensures |Present(q, ks, nmax)| == n
  {
    HeldSize(p, q, nmax, n);
    assert Present(q, ks, nmax).Keys == Held(p, n);
  }

  /** Placing an absent index at the new last position keeps the links, readies the swim and adds it to the contents. */
  lemma InsertState(p: seq<int>, q: seq<int>, ks: seq<int>, nmax: int, n: int, i: int, key: int)
    requires Linked(p, q, nmax, n) && Heap(p, ks, n) && Ranged(q, nmax, n) && |ks| == nmax + 1
    requires 0 <= i < nmax && q[i] == -1
    ensures n < nmax
    ensures Linked(p[n + 1 := i], q[i := n + 1], nmax, n + 1)
    ensures UpReady(p[n + 1 := i], ks[i := key], n + 1, n + 1)
    ensures Ranged(q[i := n + 1], nmax, n + 1)
    ensures Present(q[i := n + 1], ks[i := key], nmax) == Present(q, ks, nmax)[i := key]
  {
    assert i !in Held(p, n);
    RoomForAbsent(p, q, nmax, n, i);
    var p', ks' := p[n + 1 := i], ks[i := key];
    forall c | 1 <= c <= n
      ensures KeyOf(p', ks', c) == KeyOf(p, ks, c)
    {
      assert p[c] != i;
    }
    AppendIsUpReady(p, ks, p', ks', n);
  }

  /** Rearranging positions 1..n keeps every index's presence, so the contents are unchanged. */
  lemma MovedKeepsPresent(p0: seq<int>, q0: seq<int>, p: seq<int>, q: seq<int>, ks: seq<int>, nmax: int, n: int)
    requires OnlyHeapMoved(p0, q0, p, q, n) && Ranged(q0, nmax, n) && |ks| == nmax + 1
    ensures Ranged(q, nmax, n)
    ensures Present(q, ks, nmax) == Present(q0, ks, nmax)
  {
    assert forall x :: 0 <= x < nmax ==> (q[x] == -1 <==> q0[x] == -1);
  }

  /** Changing the key of a present index leaves a hole at its position: a decrease readies a swim, an increase a sink. */
  lemma KeyChangeState(p: seq<int>, q: seq<int>, ks: seq<int>, nmax: int, n: int, i: int, key: int)
    requires Linked(p, q, nmax, n) && Heap(p, ks, n) && Ranged(q, nmax, n) && |ks| == nmax + 1
    requires 0 <= i < nmax && q[i] != -1
    ensures 1 <= q[i] <= n && p[q[i]] == i
    ensures HoleAt(p, ks[i := key], n, q[i])
    ensures key <= ks[i] ==> UpReady(p, ks[i := key], n, q[i])
    ensures key >= ks[i] ==> DownReady(p, ks[i := key], n, q[i])
    ensures Present(q, ks[i := key], nmax) == Present(q, ks, nmax)[i := key]
  {
    var h, ks' := q[i], ks[i := key];
    forall c | 1 <= c <= n && c != h
      ensures KeyOf(p, ks', c) == KeyOf(p, ks, c)
    {
      assert p[c] != i;
    }
    KeyChangeLeavesHole(p, ks, ks', n, h);
    if key <= ks[i] {
      forall c | 2 <= c <= n && c != h
        ensures ParentOk(p, ks', c)
      {
        if c / 2 == h {
          assert ParentOk(p, ks, c);
        }
      }
    }
    if key >= ks[i] {
      forall c | 2 <= c <= n && c / 2 != h
        ensures ParentOk(p, ks', c)
      {
        if c == h {
          assert ParentOk(p, ks, c);
        }
      }
    }
  }

  /** Like Ranged, except that index x is recorded one past the last position: it is being removed. */
  ghost predicate Detached(q: seq<int>, nmax: int, n: int, x: int)
  {
    && 0 <= nmax && |q| == nmax + 1 && q[nmax] == -1
    && 0 <= x < nmax && q[x] == n + 1
    && (forall y :: 0 <= y < nmax && y != x ==> q[y] == -1 || 1 <= q[y] <= n)
  }

  /** Exchanging position h with the last position and dropping the last detaches the index held at h. */
  lemma SwapOutState(p: seq<int>, q: seq<int>, ks: seq<int>, nmax: int, n: int, h: int, p1: seq<int>, q1: seq<int>)
    requires Linked(p, q, nmax, n) && Heap(p, ks, n) && Ranged(q, nmax, n) && |ks| == nmax + 1
    requires 1 <= h <= n
    requires p1 == Swap(p, h, n) && q1 == q[p[n] := h][p[h] := n]
    ensures Linked(p1, q1, nmax, n - 1) && Detached(q1, nmax, n - 1, p[h]) && p1[n] == p[h]
    ensures Present(q1, ks, nmax) == Present(q, ks, nmax)
    ensures h < n ==> HoleAt(p1, ks, n - 1, h)
    ensures h == n ==> Heap(p1, ks, n - 1) && !Swims(p1, ks, h)
  {
    SwapKeepsLinks(p, q, nmax, n, h, n);
    assert forall y :: 0 <= y < nmax ==> (q1[y] == -1 <==> q[y] == -1);
    if h < n {
      SwapOutLeavesHole(p, ks, n, h);
    } else {
      assert p1 == p;
      if h > 1 {
        assert ParentOk(p, ks, h);
      }
    }
  }

  /** Rearranging positions 1..n keeps a detached index detached and every presence as it was. */
  lemma MovedKeepsDetached(p0: seq<int>, q0: seq<int>, p: seq<int>, q: seq<int>, ks: seq<int>, nmax: int, n: int, x: int)
    requires OnlyHeapMoved(p0, q0, p, q, n) && Detached(q0, nmax, n, x) && |ks| == nmax + 1
    ensures Detached(q, nmax, n, x)
    ensures Present(q, ks, nmax) == Present(q0, ks, nmax)
  {
    assert forall y :: 0 <= y < nmax ==> (q[y] == -1 <==> q0[y] == -1);
  }

  /** Recording the detached index as absent (and clearing its key) removes it from the contents and restores the invariant. */
  lemma RemoveState(p: seq<int>, q: seq<int>, ks: seq<int>, p': seq<int>, nmax: int, n: int, x: int)
    requires Linked(p, q, nmax, n) && Heap(p, ks, n) && Detached(q, nmax, n, x) && |ks| == nmax + 1
    requires |p'| == |p| && forall c :: 1 <= c <= n ==> p'[c] == p[c]
    ensures Linked(p', q[x := -1], nmax, n) && Heap(p', ks[x := 0], n) && Ranged(q[x := -1], nmax, n)
    ensures Present(q[x := -1], ks[x := 0], nmax) == Present(q, ks, nmax) - {x}
  {
    forall c | 1 <= c <= n
      ensures KeyOf(p', ks[x := 0], c) == KeyOf(p, ks, c)
    {
      assert p[c] != x;
    }
    SameKeysSameHeap(p, ks, p', ks[x := 0], n);
  }

  /** Links and heap order look only at positions 1..n. */
  lemma SamePrefixSameState(p: seq<int>, q: seq<int>, ks: seq<int>, p': seq<int>, nmax: int, n: int)
    requires Linked(p, q, nmax, n) && Heap(p, ks, n)
    requires |p'| == |p| && forall c :: 1 <= c <= n ==> p'[c] == p[c]
    ensures Linked(p', q, nmax, n) && Heap(p', ks, n)
  {
    SameKeysSameHeap(p, ks, p', ks, n);
  }

  /** The indices at positions 1..m with their keys, added position by position. */
  ghost function Prefix(p: seq<int>, ks: seq<int>, m: int): map<int, int>
    requires m < |p|
    decreases m
  {
    if m <= 0 then map[] else Prefix(p, ks, m - 1)[p[m] := KeyOf(p, ks, m)]
  }

  /** The first m positions hold exactly the indices recorded at positions 1..m, each with its key. */
  lemma {:induction false} PrefixFacts(p: seq<int>, q: seq<int>, ks: seq<int>, nmax: int, n: int, m: int)
    requires Linked(p, q, nmax, n) && |ks| == nmax + 1
    requires 0 <= m <= n
    ensures forall x :: x in Prefix(p, ks, m) <==> 0 <= x < nmax && 1 <= q[x] <= m
    ensures forall x :: x in Prefix(p, ks, m) ==> Prefix(p, ks, m)[x] == ks[x]
    decreases m
  {
    if m > 0 {
      PrefixFacts(p, q, ks, nmax, n, m - 1);
    }
  }

  /** The index at position m + 1 is not among the first m, and adding it with its key gives the first m + 1. */
  lemma PrefixNext(p: seq<int>, q: seq<int>, ks: seq<int>, nmax: int, n: int, m: int)
    requires Linked(p, q, nmax, n) && |ks| == nmax + 1
    requires 0 <= m < n
    ensures 0 <= p[m + 1] < nmax && p[m + 1] !in Prefix(p, ks, m)
    ensures Prefix(p, ks, m + 1) == Prefix(p, ks, m)[p[m + 1] := ks[p[m + 1]]]
  {
    PrefixFacts(p, q, ks, nmax, n, m);
  }

  /** All n positions together hold the present indices. */
  lemma PrefixIsPresent(p: seq<int>, q: seq<int>, ks: seq<int>, nmax: int, n: int)
    requires Linked(p, q, nmax, n) && Ranged(q, nmax, n) && |ks| == nmax + 1
    ensures Prefix(p, ks, n) == Present(q, ks, nmax)
  {
    PrefixFacts(p, q, ks, nmax, n, n);
  }

  /** Exchanging two heap positions keeps the position/index links. */
  lemma SwapKeepsLinks(p: seq<int>, q: seq<int>, nmax: int, n: int, i: int, j: int)
    requires Linked(p, q, nmax, n)
    requires 1 <= i <= n && 1 <= j <= n
    ensures Linked(Swap(p, i, j), q[p[j] := i][p[i] := j], nmax, n)
    ensures OnlyHeapMoved(p, q, Swap(p, i, j), q[p[j] := i][p[i] := j], n)
  {
  }
}
