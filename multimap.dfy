/**
 * DictionaryOfCollection: a map from keys to non-empty collections of
 * elements. With `ensureUniqueness` each collection is a set (an element is
 * added at most once); otherwise it is a list that keeps duplicates and
 * insertion order. Collections are value sequences here, and elements compare
 * by value.
 */
module MultiMaps {
  import opened Base

  /** The collection stored under key, or the empty collection for a missing key. */
  function Lookup<K, E>(m: map<K, seq<E>>, key: K): (r: seq<E>)
    ensures key in m ==> r == m[key]
    ensures key !in m ==> r == []
  {
    if key in m then m[key] else []
  }

  /** The elements of s that satisfy p, in order. */
  function Filter<E>(s: seq<E>, p: E -> bool): (r: seq<E>)
    ensures |r| <= |s|
    ensures forall x | x in r :: x in s && p(x)
    ensures forall x | x in s && p(x) :: x in r
    decreases |s|
  {
    if |s| == 0 then []
    else if p(s[0]) then [s[0]] + Filter(s[1..], p)
    else Filter(s[1..], p)
  }

  /** The elements of s that do not satisfy p, in order. */
  function Reject<E>(s: seq<E>, p: E -> bool): (r: seq<E>)
    ensures |r| <= |s|
    ensures forall x | x in r :: x in s && !p(x)
    ensures forall x | x in s && !p(x) :: x in r
    decreases |s|
  {
    if |s| == 0 then []
    else if p(s[0]) then Reject(s[1..], p)
    else [s[0]] + Reject(s[1..], p)
  }

  /** Filter and Reject split a collection: together they hold each element as often as s does. */
  lemma {:induction false} FilterRejectSplit<E>(s: seq<E>, p: E -> bool)
    ensures multiset(Filter(s, p)) + multiset(Reject(s, p)) == multiset(s)
    decreases |s|
  {
    if |s| > 0 {
      FilterRejectSplit(s[1..], p);
      assert s == [s[0]] + s[1..];
    }
  }

  /** Filter keeps every occurrence of a matching element and none of the others. */
  lemma {:induction false} FilterCount<E>(s: seq<E>, p: E -> bool, x: E)
    ensures multiset(Filter(s, p))[x] == if p(x) then multiset(s)[x] else 0
    decreases |s|
  {
    if |s| > 0 {
      FilterCount(s[1..], p, x);
      assert s == [s[0]] + s[1..];
    }
  }

  /** Reject keeps a subsequence, so it keeps the absence of duplicates. */
  lemma {:induction false} RejectDistinct<E>(s: seq<E>, p: E -> bool)
    requires Distinct(s)
    ensures Distinct(Reject(s, p))
    decreases |s|
  {
    if |s| > 0 {
      RejectDistinct(s[1..], p);
    }
  }

  /** s without its first occurrence of x; s itself when x does not occur. */
  function RemoveFirst<E(==)>(s: seq<E>, x: E): (r: seq<E>)
    ensures x in s ==> |r| == |s| - 1 && multiset(r) == multiset(s) - multiset{x}
    ensures x !in s ==> r == s
    decreases |s|
  {
    if |s| == 0 then s
    else if s[0] == x then assert s == [s[0]] + s[1..]; s[1..]
    else assert s == [s[0]] + s[1..]; [s[0]] + RemoveFirst(s[1..], x)
  }

  /** Removing an occurrence adds no element. */
  lemma {:induction false} RemoveFirstWithin<E>(s: seq<E>, x: E, y: E)
    requires y in RemoveFirst(s, x)
    ensures y in s
    decreases |s|
  {
    if |s| > 0 && s[0] != x && y != s[0] {
      RemoveFirstWithin(s[1..], x, y);
    }
  }

  lemma {:induction false} RemoveFirstDistinct<E>(s: seq<E>, x: E)
    requires Distinct(s)
    ensures Distinct(RemoveFirst(s, x))
    decreases |s|
  {
    if |s| > 0 && s[0] != x {
      var t := RemoveFirst(s[1..], x);
      RemoveFirstDistinct(s[1..], x);
      assert s[0] !in s[1..];
      if s[0] in t {
        RemoveFirstWithin(s[1..], x, s[0]);
      }
      var r := [s[0]] + t;
      assert RemoveFirst(s, x) == r;
      forall i, j | 0 <= i < j < |r|
        ensures r[i] != r[j]
      {
        assert r[j] == t[j - 1];
        if i > 0 {
          assert r[i] == t[i - 1];
        }
      }
    }
  }

  /** From a sequence without repeats, removing x leaves exactly the other elements. */
  lemma {:induction false} RemoveFirstMembers<E>(s: seq<E>, x: E)
    requires Distinct(s)
    ensures forall y :: y in RemoveFirst(s, x) <==> y in s && y != x
    decreases |s|
  {
    if |s| > 0 {
      assert s == [s[0]] + s[1..];
      assert s[0] !in s[1..];
      if s[0] != x {
        RemoveFirstMembers(s[1..], x);
      }
    }
  }

  /** The first-occurrence removals of xs[0], xs[1], ... applied to s in turn. */
  function RemoveEach<E(==)>(s: seq<E>, xs: seq<E>): seq<E>
    decreases |xs|
  {
    if |xs| == 0 then s else RemoveEach(RemoveFirst(s, xs[0]), xs[1..])
  }

  lemma {:induction false} RemoveEachSnoc<E>(s: seq<E>, xs: seq<E>, x: E)
    ensures RemoveEach(s, xs + [x]) == RemoveFirst(RemoveEach(s, xs), x)
    decreases |xs|
  {
    if |xs| > 0 {
      assert (xs + [x])[1..] == xs[1..] + [x];
      RemoveEachSnoc(RemoveFirst(s, xs[0]), xs[1..], x);
    }
  }

  lemma {:induction false} RemoveEachFront<E>(a: E, t: seq<E>, xs: seq<E>)
    requires a !in xs
    ensures RemoveEach([a] + t, xs) == [a] + RemoveEach(t, xs)
    decreases |xs|
  {
    if |xs| > 0 {
      assert ([a] + t)[1..] == t;
      RemoveEachFront(a, RemoveFirst(t, xs[0]), xs[1..]);
    }
  }

  /** Removing, one occurrence at a time, every element that satisfies p leaves exactly those that do not. */
  lemma {:induction false} RemoveMatching<E>(s: seq<E>, p: E -> bool)
    ensures RemoveEach(s, Filter(s, p)) == Reject(s, p)
    decreases |s|
  {
    if |s| > 0 {
      var t := s[1..];
      assert s == [s[0]] + t;
      RemoveMatching(t, p);
      if p(s[0]) {
        assert RemoveFirst(s, s[0]) == t;
        assert Filter(s, p)[1..] == Filter(t, p);
      } else {
        RemoveEachFront(s[0], t, Filter(t, p));
      }
    }
  }

  /** The first element of s that satisfies p. */
  function FirstWhere<E>(s: seq<E>, p: E -> bool): (r: Option<E>)
    ensures r.None? <==> forall i :: 0 <= i < |s| ==> !p(s[i])
    ensures r.Some? ==> exists i :: 0 <= i < |s| && s[i] == r.value && p(s[i]) && forall j :: 0 <= j < i ==> !p(s[j])
    decreases |s|
  {
    if |s| == 0 then None
    else if p(s[0]) then Some(s[0])
    else
      var r := FirstWhere(s[1..], p);
      assert r.Some? ==> exists i :: 0 <= i < |s| && s[i] == r.value && p(s[i]) && forall j :: 0 <= j < i ==> !p(s[j]) by {
        if r.Some? {
          var i :| 0 <= i < |s| - 1 && s[1..][i] == r.value && p(s[1..][i]) && forall j :: 0 <= j < i ==> !p(s[1..][j]);
          assert s[i + 1] == r.value && forall j :: 0 <= j < i + 1 ==> !p(s[j]);
        }
      }
      r
  }

  /** The elements of the collections under the keys ks, counted with multiplicity. */
  ghost function Flatten<K, E>(m: map<K, seq<E>>, ks: set<K>): multiset<E>
    requires ks <= m.Keys
    decreases ks
  {
    if ks == {} then multiset{} else
      var k :| k in ks;
      multiset(m[k]) + Flatten(m, ks - {k})
  }

  /** Flatten does not depend on which key it takes first. */
  lemma {:induction false} FlattenPick<K, E>(m: map<K, seq<E>>, ks: set<K>, k: K)
    requires ks <= m.Keys && k in ks
    ensures Flatten(m, ks) == multiset(m[k]) + Flatten(m, ks - {k})
    decreases ks
  {
    var k' :| k' in ks && Flatten(m, ks) == multiset(m[k']) + Flatten(m, ks - {k'});
    if k' != k {
      FlattenPick(m, ks - {k'}, k);
      FlattenPick(m, ks - {k}, k');
      assert ks - {k'} - {k} == ks - {k} - {k'};
    }
  }

  /** When no collection is empty, there are at least as many elements as keys. */
  lemma {:induction false} ElementsOutnumberKeys<K, E>(m: map<K, seq<E>>, ks: set<K>)
    requires ks <= m.Keys
    requires forall k :: k in ks ==> |m[k]| > 0
    ensures |Flatten(m, ks)| >= |ks|
    decreases ks
  {
    if ks != {} {
      var k :| k in ks;
      FlattenPick(m, ks, k);
      ElementsOutnumberKeys(m, ks - {k});
    }
  }

  /** The map after cleaning the keys ks: under each, only elements not satisfying p remain, and a key left empty is dropped. */
  ghost function Cleaned<K, E>(m: map<K, seq<E>>, ks: set<K>, p: E -> bool): map<K, seq<E>>
  {
    map k | k in m && (k !in ks || |Reject(m[k], p)| > 0) :: if k in ks then Reject(m[k], p) else m[k]
  }

  /** The map with collection s stored under key; an empty s removes the key instead. */
  function Put<K, E>(m: map<K, seq<E>>, key: K, s: seq<E>): (r: map<K, seq<E>>)
    ensures Lookup(r, key) == s
    ensures key in r <==> |s| > 0
    ensures r - {key} == m - {key}
  {
    if |s| > 0 then m[key := s] else m - {key}
  }

  lemma PutTwice<K, E>(m: map<K, seq<E>>, key: K, s: seq<E>, t: seq<E>)
    ensures Put(Put(m, key, s), key, t) == Put(m, key, t)
  {
  }

  /** Removing one more element from the collection stored under key, after removing xs from s. */
  lemma RemoveEachStep<K, E>(m: map<K, seq<E>>, key: K, s: seq<E>, xs: seq<E>, x: E)
    ensures var d := Put(m, key, RemoveEach(s, xs));
            Put(d, key, RemoveFirst(Lookup(d, key), x)) == Put(m, key, RemoveEach(s, xs + [x]))
  {
    RemoveEachSnoc(s, xs, x);
  }

  /** Cleaning one more key is putting its cleaned collection into the map cleaned so far. */
  lemma CleanedStep<K, E>(m: map<K, seq<E>>, done: set<K>, key: K, p: E -> bool)
    requires key in m && key !in done
    ensures key in Cleaned(m, done, p) && Cleaned(m, done, p)[key] == m[key]
    ensures Cleaned(m, done + {key}, p) == Put(Cleaned(m, done, p), key, Reject(m[key], p))
  {
    var before := Cleaned(m, done, p);
    var after := Cleaned(m, done + {key}, p);
    var put := Put(before, key, Reject(m[key], p));
    assert forall k :: k in after <==> k in put;
    assert forall k :: k in after ==> after[k] == put[k];
  }

  /** Under every cleaned key, no remaining element satisfies p. */
  lemma CleanedHasNoMatch<K, E>(m: map<K, seq<E>>, ks: set<K>, p: E -> bool)
    ensures forall k :: k in Cleaned(m, ks, p) && k in ks ==> forall e :: e in Cleaned(m, ks, p)[k] ==> !p(e)
  {
  }

  /** The keys of `done` whose collection in m holds an element satisfying p. */
  ghost function Involved<K, E>(m: map<K, seq<E>>, done: set<K>, p: E -> bool): set<K>
    requires done <= m.Keys
  {
    set k | k in done && |Filter(m[k], p)| > 0
  }

  lemma InvolvedStep<K, E>(m: map<K, seq<E>>, done: set<K>, key: K, p: E -> bool)
    requires done <= m.Keys && key in m
    ensures Involved(m, done + {key}, p) == if |Filter(m[key], p)| > 0 then Involved(m, done, p) + {key} else Involved(m, done, p)
  {
  }

  class DictionaryOfCollection<K(==), E(==)> {
    var dict: map<K, seq<E>>
    const ensureUniqueness: bool

    /** No key maps to an empty collection, and in set mode no collection repeats an element. */
    ghost predicate Valid()
      reads this
    {
      forall k :: k in dict ==> Proper(dict[k])
    }

    /** A collection the map may hold: non-empty, and without repeats in set mode. */
    ghost predicate Proper(s: seq<E>)
    {
      |s| > 0 && (ensureUniqueness ==> Distinct(s))
    }

    /** The key order option only affects enumeration order, which is not modelled. */
    constructor (sortedKeys: bool := false, ensureUniqueness: bool := false)
      ensures Valid() && dict == map[] && this.ensureUniqueness == ensureUniqueness
    {
      this.ensureUniqueness := ensureUniqueness;
      dict := map[];
    }

    /** A collection after adding one element: appended to a list, or added to a set unless already there. */
    function Added(s: seq<E>, element: E): (r: seq<E>)
      ensures element in r
      ensures ensureUniqueness && element in s ==> r == s
      ensures !(ensureUniqueness && element in s) ==> r == s + [element]
    {
      if ensureUniqueness && element in s then s else s + [element]
    }

    /** A collection after adding values in order. */
    function AddedAll(s: seq<E>, values: seq<E>): (r: seq<E>)
      ensures !ensureUniqueness ==> r == s + values
      decreases |values|
    {
      if |values| == 0 then s
      else
        var r := Added(AddedAll(s, values[..|values| - 1]), values[|values| - 1]);
        assert values == values[..|values| - 1] + [values[|values| - 1]];
        r
    }

    /** In either mode, the result holds exactly the elements of s and of values. */
    lemma {:induction false} AddedAllMembers(s: seq<E>, values: seq<E>)
      ensures forall x | x in AddedAll(s, values) :: x in s || x in values
      ensures forall x | x in s || x in values :: x in AddedAll(s, values)
      decreases |values|
    {
      if |values| > 0 {
        var init := values[..|values| - 1];
        AddedAllMembers(s, init);
        assert values == init + [values[|values| - 1]];
      }
    }

    lemma {:induction false} AddedAllDistinct(s: seq<E>, values: seq<E>)
      requires ensureUniqueness && Distinct(s)
      ensures Distinct(AddedAll(s, values))
      decreases |values|
    {
      if |values| > 0 {
        AddedAllDistinct(s, values[..|values| - 1]);
      }
    }

    method Add(key: K, element: E)
      requires Valid()
      modifies this
      ensures Valid()
      ensures dict == Put(old(dict), key, Added(Lookup(old(dict), key), element))
    {
      if key in dict {
        var list := dict[key];
        if !(ensureUniqueness && element in list) {
          dict := dict[key := list + [element]];
        }
      } else {
        assert Added([], element) == [element];
        dict := dict[key := [element]];
      }
    }

    function ContainsKey(topic: K): (r: bool)
      reads this
      ensures r <==> topic in dict
    {
      topic in dict
    }

    /** The elements under the keys that satisfy predicate, as many times as they occur, in unspecified key order. */
    method GetWhen(keyPredicate: K -> bool) returns (matching: seq<E>)
      ensures multiset(matching) == Flatten(dict, (set k | k in dict && keyPredicate(k)))
    {
      var keys := set k | k in dict && keyPredicate(k);
      ghost var all := keys;
      matching := [];
      while keys != {}
        invariant keys <= all
        invariant multiset(matching) + Flatten(dict, keys) == Flatten(dict, all)
        decreases keys
      {
        var key :| key in keys;
        FlattenPick(dict, keys, key);
        matching := matching + dict[key];
        keys := keys - {key};
      }
    }

    /** GetWhen restricted further to the elements satisfying valuePredicate. */
    method GetWhenElements(keyPredicate: K -> bool, valuePredicate: E -> bool) returns (matching: seq<E>)
      ensures forall x :: x in matching <==> x in Flatten(dict, (set k | k in dict && keyPredicate(k))) && valuePredicate(x)
      ensures forall x :: multiset(matching)[x] ==
                if valuePredicate(x) then Flatten(dict, (set k | k in dict && keyPredicate(k)))[x] else 0
    {
      var all := GetWhen(keyPredicate);
      matching := Filter(all, valuePredicate);
      forall x
        ensures multiset(matching)[x] ==
                  if valuePredicate(x) then Flatten(dict, (set k | k in dict && keyPredicate(k)))[x] else 0
      {
        FilterCount(all, valuePredicate, x);
      }
    }

    function ContainsElement(key: K, value: E): (r: bool)
      reads this
      ensures r <==> key in dict && value in dict[key]
    {
      key in dict && value in dict[key]
    }

    /** Adds values in order; with no values, nothing changes (not even a new empty key). */
    method AddRange(key: K, values: seq<E>)
      requires Valid()
      modifies this
      ensures Valid()
      ensures dict == Put(old(dict), key, AddedAll(Lookup(old(dict), key), values))
    {
      ghost var s0 := Lookup(dict, key);
      var i := 0;
      while i < |values|
        invariant 0 <= i <= |values| && Valid()
        invariant dict == Put(old(dict), key, AddedAll(s0, values[..i]))
      {
        ghost var before := AddedAll(s0, values[..i]);
        Add(key, values[i]);
        assert values[..i + 1][..i] == values[..i];
        PutTwice(old(dict), key, before, AddedAll(s0, values[..i + 1]));
        i := i + 1;
      }
      assert values[..|values|] == values;
    }

    /** The indexer's getter: the collection under c, empty for a missing key. */
    function Get(c: K): (r: seq<E>)
      reads this
      ensures c in dict ==> r == dict[c]
      ensures c !in dict ==> r == []
    {
      var (_, values) := TryGetValue(c);
      values
    }

    /** The indexer's setter: the collection under c becomes exactly values (as a set in set mode); none leaves c absent. */
    method Set(c: K, values: seq<E>)
      requires Valid()
      modifies this
      ensures Valid()
      ensures dict == Put(old(dict), c, AddedAll([], values))
      ensures !ensureUniqueness ==> Get(c) == values
    {
      var _ := Remove(c);
      AddRange(c, values);
    }

    function CountKeys(): (r: int)
      reads this
      ensures r == |dict.Keys|
    {
      |dict|
    }

    /** The total number of elements across all collections. */
    method CountElements() returns (r: int)
      requires Valid()
      ensures r == |Flatten(dict, dict.Keys)|
      ensures r >= CountKeys()
    {
      var values := GetWhen(t => true);
      assert (set k | k in dict && (t => true)(k)) == dict.Keys;
      ElementsOutnumberKeys(dict, dict.Keys);
      r := |values|;
    }

    /** Whether key is present, and its collection (empty when absent). The copy flag makes no difference on values. */
    function TryGetValue(key: K, copy: bool := false): (r: (bool, seq<E>))
      reads this
      ensures r.0 <==> key in dict
      ensures r.1 == Lookup(dict, key)
    {
      if key in dict then (true, dict[key]) else (false, [])
    }

    /** The first element under key satisfying valuePredicate, if any. */
    function TryGetElement(key: K, valuePredicate: E -> bool): (r: Option<E>)
      reads this
      ensures r.None? <==> key !in dict || forall e :: e in dict[key] ==> !valuePredicate(e)
      ensures r.Some? ==> key in dict && valuePredicate(r.value)
      ensures r.Some? ==> key in dict && exists i :: 0 <= i < |dict[key]| && dict[key][i] == r.value && forall j :: 0 <= j < i ==> !valuePredicate(dict[key][j])
    {
      var (found, list) := TryGetValue(key);
      if !found then None else FirstWhere(list, valuePredicate)
    }

    method Remove(key: K) returns (removed: bool)
      modifies this
      ensures removed <==> key in old(dict)
      ensures dict == old(dict) - {key}
    {
      removed := key in dict;
      dict := dict - {key};
    }

    /** Removes one occurrence of value under key; a collection left empty takes its key with it. */
    method RemoveElement(key: K, value: E) returns (removed: bool)
      requires Valid()
      modifies this
      ensures Valid()
      ensures removed <==> key in old(dict) && value in old(dict)[key]
      ensures dict == Put(old(dict), key, RemoveFirst(Lookup(old(dict), key), value))
    {
      removed := key in dict && value in dict[key];
      if removed {
        var list := dict[key];
        RemoveKeepsSet(list, value);
        list := RemoveFirst(list, value);
        if |list| == 0 {
          var _ := Remove(key);
        } else {
          dict := dict[key := list];
        }
      }
    }

    /** RemoveFirst keeps a set a set. */
    lemma RemoveKeepsSet(s: seq<E>, x: E)
      ensures ensureUniqueness && Distinct(s) ==> Distinct(RemoveFirst(s, x))
    {
      if ensureUniqueness && Distinct(s) {
        RemoveFirstDistinct(s, x);
      }
    }

    /** Removes every key satisfying keyPredicate; true iff there was one. */
    method RemoveWhen(keyPredicate: K -> bool) returns (any: bool)
      modifies this
      ensures any <==> exists k :: k in old(dict) && keyPredicate(k)
      ensures dict == map k | k in old(dict) && !keyPredicate(k) :: old(dict)[k]
    {
      var keys := set k | k in dict && keyPredicate(k);
      ghost var all := keys;
      any := false;
      while keys != {}
        invariant keys <= all
        invariant any <==> all - keys != {}
        invariant dict == map k | k in old(dict) && k !in all - keys :: old(dict)[k]
        decreases keys
      {
        var key :| key in keys;
        var removed := Remove(key);
        any := removed || any;
        keys := keys - {key};
      }
      assert any ==> exists k :: k in old(dict) && keyPredicate(k) by {
        if any {
          var k :| k in all;
        }
      }
    }

    /** The keys elementPredicate's cleaning looks at: those satisfying keyPredicate, or all keys without one. */
    function Targeted(k: K, keyPredicate: Option<K -> bool>): bool
    {
      keyPredicate.None? || keyPredicate.value(k)
    }

    /** Removes, one at a time, the elements under key that satisfy elementPredicate. */
    method CleanKey(key: K, elementPredicate: E -> bool)
      requires Valid() && key in dict
      modifies this
      ensures Valid()
      ensures dict == Put(old(dict), key, Reject(old(dict)[key], elementPredicate))
    {
      ghost var s0 := dict[key];
      var toRemove := Filter(dict[key], elementPredicate);
      for j := 0 to |toRemove|
        invariant Valid() && dict == Put(old(dict), key, RemoveEach(s0, toRemove[..j]))
      {
        RemoveNext(old(dict), key, s0, toRemove, j);
      }
      assert toRemove[..|toRemove|] == toRemove;
      RemoveMatching(s0, elementPredicate);
    }

    /** One step of CleanKey: removes xs[j] from what is left under key after removing xs[..j] from s. */
    method RemoveNext(ghost m: map<K, seq<E>>, key: K, ghost s: seq<E>, xs: seq<E>, j: int)
      requires Valid() && 0 <= j < |xs| && dict == Put(m, key, RemoveEach(s, xs[..j]))
      modifies this
      ensures Valid() && dict == Put(m, key, RemoveEach(s, xs[..j + 1]))
    {
      RemoveEachStep(m, key, s, xs[..j], xs[j]);
      assert xs[..j + 1] == xs[..j] + [xs[j]];
      var _ := RemoveElement(key, xs[j]);
    }

    /**
     * One step of RemoveElementWhen: notes key as involved if it holds an
     * element satisfying elementPredicate, then cleans it.
     */
    method CleanNext(ghost d0: map<K, seq<E>>, ghost done: set<K>, key: K, elementPredicate: E -> bool, involved: set<K>)
      returns (involved': set<K>)
      requires Valid() && key in d0 && key !in done && done <= d0.Keys
      requires dict == Cleaned(d0, done, elementPredicate) && involved == Involved(d0, done, elementPredicate)
      modifies this
      ensures Valid()
      ensures dict == Cleaned(d0, done + {key}, elementPredicate)
      ensures involved' == Involved(d0, done + {key}, elementPredicate)
    {
      ghost var prev := dict;
      CleanedStep(d0, done, key, elementPredicate);
      InvolvedStep(d0, done, key, elementPredicate);
      involved' := involved;
      if |Filter(dict[key], elementPredicate)| > 0 {
        involved' := involved' + {key};
      }
      CleanKey(key, elementPredicate);
      assert dict == Put(prev, key, Reject(d0[key], elementPredicate));
    }

    /**
     * Under every targeted key, removes each element satisfying
     * elementPredicate; returns the targeted keys that held such an element.
     */
    method RemoveElementWhen(elementPredicate: E -> bool, keyPredicate: Option<K -> bool> := None) returns (involved: set<K>)
      requires Valid()
      modifies this
      ensures Valid()
      ensures involved == set k | k in old(dict) && Targeted(k, keyPredicate) && |Filter(old(dict)[k], elementPredicate)| > 0
      ensures dict == Cleaned(old(dict), (set k | k in old(dict) && Targeted(k, keyPredicate)), elementPredicate)
      ensures forall k :: k in dict && Targeted(k, keyPredicate) ==> forall e :: e in dict[k] ==> !elementPredicate(e)
    {
      var targetKeys := set k | k in dict && Targeted(k, keyPredicate);
      ghost var d0 := dict;
      involved := {};
      var keys := targetKeys;
      while keys != {}
        invariant keys <= targetKeys <= d0.Keys && Valid()
        invariant dict == Cleaned(d0, targetKeys - keys, elementPredicate)
        invariant involved == Involved(d0, targetKeys - keys, elementPredicate)
        decreases keys
      {
        var key :| key in keys;
        ghost var done := targetKeys - keys;
        involved := CleanNext(d0, done, key, elementPredicate, involved);
        keys := keys - {key};
        assert targetKeys - keys == done + {key};
      }
      assert targetKeys - keys == targetKeys;
      CleanedHasNoMatch(d0, targetKeys, elementPredicate);
    }

    method Clear()
      modifies this
      ensures dict == map[]
    {
      dict := map[];
    }
  }
}
