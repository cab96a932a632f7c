/**
 * MinPriorityQueue: an indexed minimum-priority queue over indices [0, nmax).
 * `pq` maps 1-based heap positions to indices, `qp` is its inverse (-1 for an
 * absent index) and `keys` holds each index's key. Keys are integers here; the
 * library is generic over any comparable key.
 */
module PriorityQueues {
  import opened Base
  import opened Heaps

  class MinPriorityQueue {
    const nmax: int
    var n: int
    const pq: array<int>
    const qp: array<int>
    const keys: array<int>
    ghost const Repr: set<object>

    /** Array sizes, distinct arrays and the size bound. */
    ghost predicate Shape()
      reads this
    {
      && 0 <= nmax
      && pq.Length == nmax + 1 && qp.Length == nmax + 1 && keys.Length == nmax + 1
      && pq != qp && pq != keys && qp != keys
      && 0 <= n <= nmax
      && Repr == {this, pq, qp, keys}
    }

    /** The object invariant: links, heap order, and "absent iff qp[i] == -1". */
    ghost predicate Valid()
      reads this, pq, qp, keys
    {
      && Shape()
      && Linked(pq[..], qp[..], nmax, n)
      && Heap(pq[..], keys[..], n)
      && Ranged(qp[..], nmax, n)
    }

    /** The abstract value: each present index with its key. */
    ghost function Contents(): map<int, int>
      reads this, qp, keys
      requires Shape()
    {
      Present(qp[..], keys[..], nmax)
    }

    constructor (nmax: int)
      requires nmax >= 0
      ensures Valid() && fresh(Repr)
      ensures this.nmax == nmax && n == 0 && Contents() == map[]
    {
      this.nmax := nmax;
      keys := new int[nmax + 1];
      pq := new int[nmax + 1];
      qp := new int[nmax + 1];
      n := 0;
      Repr := {this, pq, qp, keys};
      new;
      var i := 0;
      while i <= nmax
        modifies qp
        invariant 0 <= i <= nmax + 1
        invariant forall j :: 0 <= j < i ==> qp[j] == -1
      {
        qp[i] := -1;
        i := i + 1;
      }
    }

    /** Construction that rejects a negative capacity. */
    static method Create(nmax: int) returns (r: Result<MinPriorityQueue>)
      ensures nmax < 0 <==> r == Err(InvalidCapacity)
      ensures r.Ok? ==> && fresh(r.value.Repr) && r.value.Valid()
                        && r.value.nmax == nmax && r.value.n == 0 && r.value.Contents() == map[]
    {
      if nmax < 0 {
        return Err(InvalidCapacity);
      }
      var q := new MinPriorityQueue(nmax);
      r := Ok(q);
    }

    function IsEmpty(): (r: bool)
      reads this, pq, qp, keys
      requires Valid()
      ensures r <==> Contents() == map[]
    {
      assert n > 0 ==> pq[1] in Contents();
      n == 0
    }

    /** The number of queued indices. */
    function Size(): (r: int)
      reads this, pq, qp, keys
      requires Valid()
      ensures r == |Contents()|
    {
      PresentSize(pq[..], qp[..], keys[..], nmax, n);
      n
    }

    function Contains(i: int): (r: Result<bool>)
      reads this, pq, qp, keys
      requires Valid()
      ensures r.Err? <==> !(0 <= i < nmax)
      ensures r.Err? ==> r.error == InvalidIndex
      ensures r.Ok? ==> (r.value <==> i in Contents())
    {
      if i < 0 || i >= nmax then Err(InvalidIndex) else Ok(qp[i] != -1)
    }

    /** Key comparison of two heap positions. */
    function Greater(i: int, j: int): (r: bool)
      reads this, pq, keys
      requires Shape()
      requires 0 <= i <= nmax && 0 <= j <= nmax
      requires 0 <= pq[i] < nmax && 0 <= pq[j] < nmax
      ensures r <==> KeyOf(pq[..], keys[..], i) > KeyOf(pq[..], keys[..], j)
    {
      keys[pq[i]] > keys[pq[j]]
    }

    /** Exchanges heap positions i and j and re-records both indices' positions. */
    method Exchange(i: int, j: int)
      requires Shape() && Linked(pq[..], qp[..], nmax, n)
      requires 1 <= i <= n && 1 <= j <= n
      modifies pq, qp
      ensures Shape() && Linked(pq[..], qp[..], nmax, n)
      ensures pq[..] == Swap(old(pq[..]), i, j)
      ensures qp[..] == old(qp[..])[old(pq[j]) := i][old(pq[i]) := j]
      ensures OnlyHeapMoved(old(pq[..]), old(qp[..]), pq[..], qp[..], n)
    {
      SwapKeepsLinks(pq[..], qp[..], nmax, n, i, j);
      var swap := pq[i];
      pq[i] := pq[j];
      pq[j] := swap;
      qp[pq[i]] := i;
      qp[pq[j]] := j;
    }

    /** The swim pass: moves position k0 up while its parent's key is strictly greater. */
    method Up(k0: int)
      requires Shape() && Linked(pq[..], qp[..], nmax, n)
      requires 1 <= k0 <= n + 1 && k0 <= nmax
      requires 0 <= pq[k0] < nmax
      requires Swims(pq[..], keys[..], k0) ==> k0 <= n && UpReady(pq[..], keys[..], n, k0)
      modifies pq, qp
      ensures Shape() && Linked(pq[..], qp[..], nmax, n)
      ensures OnlyHeapMoved(old(pq[..]), old(qp[..]), pq[..], qp[..], n)
      ensures !old(Swims(pq[..], keys[..], k0)) ==> pq[..] == old(pq[..]) && qp[..] == old(qp[..])
      ensures old(UpReady(pq[..], keys[..], n, k0)) ==> Heap(pq[..], keys[..], n)
    {
      ghost var p0, q0 := pq[..], qp[..];
      ghost var swims := Swims(pq[..], keys[..], k0);
      ghost var ready := UpReady(pq[..], keys[..], n, k0);
      var k := k0;
      while k > 1 && Greater(k / 2, k)
        invariant Shape() && Linked(pq[..], qp[..], nmax, n)
        invariant 1 <= k <= k0 && 0 <= pq[k] < nmax
        invariant swims ==> k <= n && UpReady(pq[..], keys[..], n, k)
        invariant !swims ==> k == k0 && pq[..] == old(pq[..]) && qp[..] == old(qp[..])
        invariant !swims && ready ==> UpReady(pq[..], keys[..], n, k)
        invariant OnlyHeapMoved(p0, q0, pq[..], qp[..], n)
        decreases k
      {
        SwimStep(pq[..], keys[..], n, k);
        ghost var p1, q1 := pq[..], qp[..];
        Exchange(k, k / 2);
        MovedTransitive(p0, q0, p1, q1, pq[..], qp[..], n);
        k := k / 2;
      }
      if swims || ready {
        SwimDone(pq[..], keys[..], n, k);
      }
    }

    /** The child of position k that the sink pass compares k with: the right one only when strictly smaller. */
    function SmallerChildOf(k: int): (j: int)
      reads this, pq, qp, keys
      requires Shape() && Linked(pq[..], qp[..], nmax, n)
      requires 1 <= k && 2 * k <= n
      ensures SmallerChild(pq[..], keys[..], n, k, j) && 2 * k <= j <= n
    {
      var j := 2 * k;
      if j < n && Greater(j, j + 1) then j + 1 else j
    }

    /** The sink pass: moves position k0 down while its smaller child's key is strictly smaller. */
    method Down(k0: int)
      requires Shape() && Linked(pq[..], qp[..], nmax, n)
      requires 1 <= k0 <= n + 1 && k0 <= nmax
      modifies pq, qp
      ensures Shape() && Linked(pq[..], qp[..], nmax, n)
      ensures OnlyHeapMoved(old(pq[..]), old(qp[..]), pq[..], qp[..], n)
      ensures old(DownReady(pq[..], keys[..], n, k0)) ==> Heap(pq[..], keys[..], n)
    {
      ghost var p0, q0 := pq[..], qp[..];
      ghost var ready := DownReady(pq[..], keys[..], n, k0);
      var k := k0;
      while 2 * k <= n
        invariant Shape() && Linked(pq[..], qp[..], nmax, n)
        invariant k0 <= k <= n + 1
        invariant ready ==> DownReady(pq[..], keys[..], n, k)
        invariant OnlyHeapMoved(p0, q0, pq[..], qp[..], n)
        decreases n - k
      {
        var j := SmallerChildOf(k);
        if !Greater(k, j) {
          if ready {
            SinkDone(pq[..], keys[..], n, k, j);
          }
          break;
        }
        if ready {
          SinkStep(pq[..], keys[..], n, k, j);
        }
        ghost var p1, q1 := pq[..], qp[..];
        Exchange(k, j);
        MovedTransitive(p0, q0, p1, q1, pq[..], qp[..], n);
        k := j;
      }
      if ready && 2 * k > n {
        SinkDone(pq[..], keys[..], n, k, 0);
      }
    }

    /** Inserts index i with the given key. */
    method Insert(i: int, key: int) returns (r: Outcome)
      requires Valid()
      modifies this, pq, qp, keys
      ensures Valid()
      ensures !(0 <= i < nmax) ==> r == Fail(InvalidIndex)
      ensures 0 <= i < nmax && i in old(Contents()) ==> r == Fail(DuplicateIndex)
      ensures 0 <= i < nmax && i !in old(Contents()) ==> r == Pass
      ensures r.Pass? ==> n == old(n) + 1 && Contents() == old(Contents())[i := key]
      ensures r.Fail? ==> n == old(n) && unchanged(pq, qp, keys)
    {
      if i < 0 || i >= nmax {
        return Fail(InvalidIndex);
      }
      if Contains(i) == Ok(true) {
        return Fail(DuplicateIndex);
      }
      ghost var p0, q0, ks0 := pq[..], qp[..], keys[..];
      InsertState(p0, q0, ks0, nmax, n, i, key);
      n := n + 1;
      qp[i] := n;
      pq[n] := i;
      keys[i] := key;
      assert pq[..] == p0[n := i] && qp[..] == q0[i := n] && keys[..] == ks0[i := key];
      ghost var p1, q1 := pq[..], qp[..];
      Up(n);
      MovedKeepsPresent(p1, q1, pq[..], qp[..], keys[..], nmax, n);
      r := Pass;
    }

    /** The smallest key; Underflow on an empty queue. */
    function MinKey(): (r: Result<int>)
      reads this, pq, qp, keys
      requires Valid()
      ensures r.Err? <==> Contents() == map[]
      ensures r.Err? ==> r.error == Underflow
      ensures r.Ok? ==> (exists i :: i in Contents() && Contents()[i] == r.value)
      ensures r.Ok? ==> forall i :: i in Contents() ==> r.value <= Contents()[i]
    {
      assert n > 0 ==> pq[1] in Contents();
      if n == 0 then Err(Underflow)
      else
        assert forall i :: i in Contents() ==> KeyOf(pq[..], keys[..], qp[i]) == keys[i];
        assert forall c :: 1 <= c <= n ==> KeyOf(pq[..], keys[..], 1) <= KeyOf(pq[..], keys[..], c) by {
          forall c | 1 <= c <= n { RootIsMinimum(pq[..], keys[..], n, c); }
        }
        Ok(keys[pq[1]])
    }

    /** `Exchange(h, n--)`: the last entry moves to position h and the index that was at h is detached. */
    method SwapOut(h: int)
      requires Valid() && 1 <= h <= n
      modifies this, pq, qp
      ensures Shape() && n == old(n) - 1 && Linked(pq[..], qp[..], nmax, n)
      ensures Detached(qp[..], nmax, n, old(pq[h])) && pq[n + 1] == old(pq[h])
      ensures Present(qp[..], keys[..], nmax) == old(Contents())
      ensures h <= n ==> HoleAt(pq[..], keys[..], n, h)
      ensures h == n + 1 ==> Heap(pq[..], keys[..], n) && !Swims(pq[..], keys[..], h)
    {
      ghost var p0, q0 := pq[..], qp[..];
      Exchange(h, n);
      SwapOutState(p0, q0, keys[..], nmax, n, h, pq[..], qp[..]);
      n := n - 1;
    }

    /** Records a detached index as absent and clears its key. */
    method Forget(x: int)
      requires Shape() && Linked(pq[..], qp[..], nmax, n) && Heap(pq[..], keys[..], n)
      requires Detached(qp[..], nmax, n, x)
      modifies qp, keys
      ensures Valid()
      ensures Present(qp[..], keys[..], nmax) == old(Present(qp[..], keys[..], nmax)) - {x}
      ensures qp[x] == -1 && keys[x] == 0
    {
      ghost var q0, ks0 := qp[..], keys[..];
      qp[x] := -1;
      keys[x] := 0;
      assert qp[..] == q0[x := -1] && keys[..] == ks0[x := 0];
      RemoveState(pq[..], q0, ks0, pq[..], nmax, n, x);
    }

    /** Removes and returns an index with the smallest key; Underflow on an empty queue. */
    method DeleteMin() returns (r: Result<int>)
      requires Valid()
      modifies this, pq, qp, keys
      ensures Valid()
      ensures r.Err? <==> old(Contents()) == map[]
      ensures r.Err? ==> r.error == Underflow && n == old(n) && unchanged(pq, qp, keys)
      ensures r.Ok? ==> && r.value in old(Contents())
                        && (forall x :: x in old(Contents()) ==> old(Contents())[r.value] <= old(Contents())[x])
                        && Contents() == old(Contents()) - {r.value}
                        && n == old(n) - 1
    {
      if n == 0 {
        assert IsEmpty();
        return Err(Underflow);
      }
      assert MinKey() == Ok(keys[pq[1]]);
      var min := pq[1];
      SwapOut(1);
      if 1 <= n {
        HoleIsReady(pq[..], keys[..], n, 1);
      } else {
        HeapIsDownReady(pq[..], keys[..], n, 1);
      }
      ghost var p1, q1 := pq[..], qp[..];
      Down(1);
      MovedKeepsDetached(p1, q1, pq[..], qp[..], keys[..], nmax, n, min);
      assert pq[n + 1] == min;
      // the key cleared is the one at position n + 1, which holds min
      Retire(min);
      r := Ok(min);
    }

    /** The end of DeleteMin: the detached index is recorded absent, its key cleared and its old heap slot emptied. */
    method Retire(x: int)
      requires Shape() && Linked(pq[..], qp[..], nmax, n) && Heap(pq[..], keys[..], n)
      requires Detached(qp[..], nmax, n, x) && n < nmax
      modifies pq, qp, keys
      ensures Valid()
      ensures Present(qp[..], keys[..], nmax) == old(Present(qp[..], keys[..], nmax)) - {x}
      ensures pq[n + 1] == -1 && qp[x] == -1 && keys[x] == 0
    {
      Forget(x);
      ghost var p2 := pq[..];
      pq[n + 1] := -1;
      SamePrefixSameState(p2, qp[..], keys[..], pq[..], nmax, n);
    }

    /** Sets the key of a present index and restores the heap order by a swim pass followed by a sink pass. */
    method ChangeKey(i: int, key: int) returns (r: Outcome)
      requires Valid()
      modifies pq, qp, keys
      ensures Valid()
      ensures !(0 <= i < nmax) ==> r == Fail(InvalidIndex)
      ensures 0 <= i < nmax && i !in old(Contents()) ==> r == Fail(NotPresent)
      ensures 0 <= i < nmax && i in old(Contents()) ==> r == Pass
      ensures r.Pass? ==> Contents() == old(Contents())[i := key]
      ensures r.Fail? ==> unchanged(pq, qp, keys)
    {
      if i < 0 || i >= nmax {
        return Fail(InvalidIndex);
      }
      if Contains(i) == Ok(false) {
        return Fail(NotPresent);
      }
      ghost var p0, q0, ks0 := pq[..], qp[..], keys[..];
      KeyChangeState(p0, q0, ks0, nmax, n, i, key);
      keys[i] := key;
      assert keys[..] == ks0[i := key];
      HoleIsReady(p0, keys[..], n, q0[i]);
      Up(qp[i]);
      MovedKeepsPresent(p0, q0, pq[..], qp[..], keys[..], nmax, n);
      if Swims(p0, keys[..], q0[i]) {
        HeapIsDownReady(pq[..], keys[..], n, qp[i]);
      }
      ghost var p1, q1 := pq[..], qp[..];
      Down(qp[i]);
      MovedKeepsPresent(p1, q1, pq[..], qp[..], keys[..], nmax, n);
      r := Pass;
    }

    /** Lowers the key of a present index, which then swims; NotADecrease unless the new key is strictly smaller. */
    method DecreaseKey(i: int, key: int) returns (r: Outcome)
      requires Valid()
      modifies pq, qp, keys
      ensures Valid()
      ensures !(0 <= i < nmax) ==> r == Fail(InvalidIndex)
      ensures 0 <= i < nmax && i !in old(Contents()) ==> r == Fail(NotPresent)
      ensures 0 <= i < nmax && i in old(Contents()) && old(Contents())[i] <= key ==> r == Fail(NotADecrease)
      ensures 0 <= i < nmax && i in old(Contents()) && key < old(Contents())[i] ==> r == Pass
      ensures r.Pass? ==> Contents() == old(Contents())[i := key]
      ensures r.Fail? ==> unchanged(pq, qp, keys)
    {
      if i < 0 || i >= nmax {
        return Fail(InvalidIndex);
      }
      if Contains(i) == Ok(false) {
        return Fail(NotPresent);
      }
      if keys[i] <= key {
        return Fail(NotADecrease);
      }
      ghost var p0, q0, ks0 := pq[..], qp[..], keys[..];
      KeyChangeState(p0, q0, ks0, nmax, n, i, key);
      keys[i] := key;
      assert keys[..] == ks0[i := key];
      Up(qp[i]);
      MovedKeepsPresent(p0, q0, pq[..], qp[..], keys[..], nmax, n);
      r := Pass;
    }

    /** Raises the key of a present index, which then sinks; NotAnIncrease unless the new key is strictly greater. */
    method IncreaseKey(i: int, key: int) returns (r: Outcome)
      requires Valid()
      modifies pq, qp, keys
      ensures Valid()
      ensures !(0 <= i < nmax) ==> r == Fail(InvalidIndex)
      ensures 0 <= i < nmax && i !in old(Contents()) ==> r == Fail(NotPresent)
      ensures 0 <= i < nmax && i in old(Contents()) && key <= old(Contents())[i] ==> r == Fail(NotAnIncrease)
      ensures 0 <= i < nmax && i in old(Contents()) && old(Contents())[i] < key ==> r == Pass
      ensures r.Pass? ==> Contents() == old(Contents())[i := key]
      ensures r.Fail? ==> unchanged(pq, qp, keys)
    {
      if i < 0 || i >= nmax {
        return Fail(InvalidIndex);
      }
      if Contains(i) == Ok(false) {
        return Fail(NotPresent);
      }
      if keys[i] >= key {
        return Fail(NotAnIncrease);
      }
      ghost var p0, q0, ks0 := pq[..], qp[..], keys[..];
      KeyChangeState(p0, q0, ks0, nmax, n, i, key);
      keys[i] := key;
      assert keys[..] == ks0[i := key];
      Down(qp[i]);
      MovedKeepsPresent(p0, q0, pq[..], qp[..], keys[..], nmax, n);
      r := Pass;
    }

    /** Removes a present index: its position takes the last entry, which then swims and sinks. */
    method Delete(i: int) returns (r: Outcome)
      requires Valid()
      modifies this, pq, qp, keys
      ensures Valid()
      ensures !(0 <= i < nmax) ==> r == Fail(InvalidIndex)
      ensures 0 <= i < nmax && i !in old(Contents()) ==> r == Fail(NotPresent)
      ensures 0 <= i < nmax && i in old(Contents()) ==> r == Pass
      ensures r.Pass? ==> Contents() == old(Contents()) - {i} && n == old(n) - 1
      ensures r.Fail? ==> n == old(n) && unchanged(pq, qp, keys)
    {
      if i < 0 || i >= nmax {
        return Fail(InvalidIndex);
      }
      if Contains(i) == Ok(false) {
        return Fail(NotPresent);
      }
      var index := qp[i];
      SwapOut(index);
      Restore(index, i);
      Forget(i);
      r := Pass;
    }

    /** The swim pass and then the sink pass at position h, after SwapOut has detached x from it. */
    method Restore(h: int, ghost x: int)
      requires Shape() && Linked(pq[..], qp[..], nmax, n) && Detached(qp[..], nmax, n, x)
      requires 1 <= h <= n + 1 && n < nmax && pq[n + 1] == x
      requires h <= n ==> HoleAt(pq[..], keys[..], n, h)
      requires h == n + 1 ==> Heap(pq[..], keys[..], n) && !Swims(pq[..], keys[..], h)
      modifies pq, qp
      ensures Shape() && Linked(pq[..], qp[..], nmax, n) && Heap(pq[..], keys[..], n)
      ensures Detached(qp[..], nmax, n, x)
      ensures Present(qp[..], keys[..], nmax) == old(Present(qp[..], keys[..], nmax))
    {
      if h <= n {
        HoleIsReady(pq[..], keys[..], n, h);
      }
      ghost var p1, q1 := pq[..], qp[..];
      ghost var swims := Swims(p1, keys[..], h);
      Up(h);
      MovedKeepsDetached(p1, q1, pq[..], qp[..], keys[..], nmax, n, x);
      if swims || n < h {
        HeapIsDownReady(pq[..], keys[..], n, h);
      }
      ghost var p2, q2 := pq[..], qp[..];
      Down(h);
      MovedKeepsDetached(p2, q2, pq[..], qp[..], keys[..], nmax, n, x);
    }

    /** The first half of the enumerator: a fresh queue of the same capacity holding the same entries. */
    method Copy() returns (copy: MinPriorityQueue)
      requires Valid()
      ensures copy.Valid() && fresh(copy.Repr) && copy.nmax == nmax && copy.n == n
      ensures copy.Contents() == Contents()
    {
      copy := new MinPriorityQueue(pq.Length - 1);
      InsertPrefix(copy, pq[..], qp[..], keys[..], n);
      PrefixIsPresent(pq[..], qp[..], keys[..], nmax, n);
    }

    /** Inserts into an empty queue the indices at heap positions 1..m of p, in position order, each with its key. */
    static method InsertPrefix(copy: MinPriorityQueue, p: seq<int>, ghost q: seq<int>, ks: seq<int>, m: int)
      requires copy.Valid() && copy.n == 0 && copy.Contents() == map[]
      requires Linked(p, q, copy.nmax, m) && |ks| == copy.nmax + 1
      modifies copy.Repr
      ensures copy.Valid() && copy.n == m && copy.Contents() == Prefix(p, ks, m)
    {
      var i := 1;
      while i <= m
        invariant 1 <= i <= m + 1
        invariant copy.Valid() && copy.n == i - 1
        invariant copy.Contents() == Prefix(p, ks, i - 1)
        decreases m + 1 - i
      {
        PrefixNext(p, q, ks, copy.nmax, m, i - 1);
        var _ := copy.Insert(p[i], ks[p[i]]);
        i := i + 1;
      }
    }

    /** The second half of the enumerator: count calls of DeleteMin on a queue of count entries. */
    static method Drain(q: MinPriorityQueue, count: int) returns (order: seq<int>)
      requires q.Valid() && count == q.n
      modifies q.Repr
      ensures |order| == count
      ensures forall x :: x in order <==> x in old(q.Contents())
      ensures forall a, b :: 0 <= a < b < |order| ==> order[a] != order[b]
      ensures forall a, b :: 0 <= a < b < |order| ==> old(q.Contents())[order[a]] <= old(q.Contents())[order[b]]
    {
      ghost var c0 := q.Contents();
      order := [];
      var i := 1;
      while i <= count
        invariant 1 <= i <= count + 1 && |order| == i - 1
        invariant q.Valid() && q.n == count - |order|
        invariant DrainedSoFar(c0, order, q.Contents())
        decreases count + 1 - i
      {
        assert !q.IsEmpty();
        ghost var rest := q.Contents();
        var m := q.DeleteMin();
        DrainStep(c0, order, rest, m.value, q.Contents());
        order := order + [m.value];
        i := i + 1;
      }
      assert q.IsEmpty();
    }

    /** The present indices in non-decreasing key order, as the library's enumerator yields them. */
    method Enumerate() returns (order: seq<int>)
      requires Valid()
      ensures |order| == n
      ensures forall x :: x in order <==> x in Contents()
      ensures forall a, b :: 0 <= a < b < |order| ==> order[a] != order[b]
      ensures forall a, b :: 0 <= a < b < |order| ==> Contents()[order[a]] <= Contents()[order[b]]
    {
      var copy := Copy();
      order := Drain(copy, n);
    }
}

  /**
   * After draining `order` from a queue that held c0, `rest` is what remains:
   * order holds distinct indices of c0 in non-decreasing key order, none of
   * them keyed above anything that remains.
   */
  ghost predicate DrainedSoFar(c0: map<int, int>, order: seq<int>, rest: map<int, int>)
  {
    && (forall x :: x in rest <==> x in c0 && x !in order)
    && (forall x :: x in rest ==> rest[x] == c0[x])
    && (forall x :: x in order ==> x in c0)
    && (forall a, b :: 0 <= a < b < |order| ==> order[a] != order[b])
    && (forall a, b :: 0 <= a < b < |order| ==> c0[order[a]] <= c0[order[b]])
    && (forall a, y :: 0 <= a < |order| && y in rest ==> c0[order[a]] <= c0[y])
  }

  /** Removing a minimum of what remains extends the drained order. */
  lemma DrainStep(c0: map<int, int>, order: seq<int>, rest: map<int, int>, x: int, rest': map<int, int>)
    requires DrainedSoFar(c0, order, rest)
    requires x in rest && (forall y :: y in rest ==> rest[x] <= rest[y])
    requires rest' == rest - {x}
    ensures DrainedSoFar(c0, order + [x], rest')
  {
    var order' := order + [x];
    forall a, y | 0 <= a < |order'| && y in rest'
      ensures c0[order'[a]] <= c0[y]
    {
      assert y in rest && y != x;
      if a == |order| {
        assert order'[a] == x && rest[x] <= rest[y];
      } else {
        assert order'[a] == order[a];
      }
    }
  }
}
