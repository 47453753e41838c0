// Grouping by a key with a JavaScript `Map`, which lists its keys in the order of their first insertion.
module Groups {
  import opened Sorting

  // A `Map` from keys to lists, in insertion order.
  type Grouped<K, T> = seq<(K, seq<T>)>

  // `map.set(k, [...(map.get(k) ?? []), x])`
  function Append<K(==), T>(groups: Grouped<K, T>, k: K, x: T): Grouped<K, T> {
    if groups == [] then [(k, [x])]
    else if groups[0].0 == k then [(k, groups[0].1 + [x])] + groups[1..]
    else [groups[0]] + Append(groups[1..], k, x)
  }

  // The groups of a list: the group of its first element, then the groups of the remaining elements.
  function GroupBy<K(==), T(!new)>(s: seq<T>, key: T -> K): Grouped<K, T>
    decreases |s|
  {
    if s == [] then []
    else
      var k := key(s[0]);
      Shrinks(s, key);
      [(k, Filter(s, (x: T) => key(x) == k))] + GroupBy(Filter(s, (x: T) => key(x) != k), key)
  }

  lemma Shrinks<K, T(!new)>(s: seq<T>, key: T -> K)
    requires s != []
    ensures |Filter(s, (x: T) => key(x) != key(s[0]))| < |s|
  {
  }

  lemma {:induction false} GroupBySnoc<K, T(!new)>(s: seq<T>, key: T -> K, x: T)
    ensures GroupBy(s + [x], key) == Append(GroupBy(s, key), key(x), x)
    decreases |s|
  {
    if s == [] {
      assert s + [x] == [x];
      FilterNone([x], (y: T) => key(y) != key(x));
      assert Filter([x], (y: T) => key(y) == key(x)) == [x];
    } else {
      var k := key(s[0]);
      Shrinks(s, key);
      assert (s + [x])[0] == s[0];
      FilterAppend(s, [x], (y: T) => key(y) == k);
      FilterAppend(s, [x], (y: T) => key(y) != k);
      var rest := Filter(s, (y: T) => key(y) != k);
      if key(x) == k {
        assert Filter([x], (y: T) => key(y) == k) == [x];
        assert Filter([x], (y: T) => key(y) != k) == [];
        assert rest + [] == rest;
      } else {
        var own := Filter(s, (y: T) => key(y) == k);
        assert Filter([x], (y: T) => key(y) == k) == [];
        assert Filter([x], (y: T) => key(y) != k) == [x];
        assert own + [] == own;
        GroupBySnoc(rest, key, x);
      }
    }
  }

  method Collect<K(==), T(!new)>(s: seq<T>, key: T -> K) returns (groups: Grouped<K, T>)
    ensures groups == GroupBy(s, key)
  {
    groups := [];
    for i := 0 to |s|
      invariant groups == GroupBy(s[..i], key)
    {
      GroupBySnoc(s[..i], key, s[i]);
      assert s[..i] + [s[i]] == s[..i + 1];
      groups := Append(groups, key(s[i]), s[i]);
    }
    assert s[..|s|] == s;
  }

  // A group holds exactly the elements with its key, in order, and at least one.
  lemma {:induction false} GroupExact<K, T(!new)>(s: seq<T>, key: T -> K, i: nat)
    requires i < |GroupBy(s, key)|
    ensures GroupBy(s, key)[i].1 == Filter(s, (x: T) => key(x) == GroupBy(s, key)[i].0)
    ensures GroupBy(s, key)[i].1 != []
    decreases |s|
  {
    var k := key(s[0]);
    if i == 0 {
      assert s[0] in Filter(s, (x: T) => key(x) == k);
    } else {
      var rest := Filter(s, (x: T) => key(x) != k);
      Shrinks(s, key);
      GroupExact(rest, key, i - 1);
      var l := GroupBy(rest, key)[i - 1].0;
      var g := GroupBy(rest, key)[i - 1].1;
      assert g[0] in g;
      assert key(g[0]) == l && l != k;
      FilterTwice(s, (x: T) => key(x) != k, (x: T) => key(x) == l);
    }
  }

  lemma {:induction false} FilterTwice<T(!new)>(s: seq<T>, p: T -> bool, q: T -> bool)
    requires forall x :: q(x) ==> p(x)
    ensures Filter(Filter(s, p), q) == Filter(s, q)
  {
    if s != [] {
      FilterTwice(s[1..], p, q);
    }
  }

  lemma {:induction false} GroupKeysDistinct<K, T(!new)>(s: seq<T>, key: T -> K, i: nat, j: nat)
    requires i < j < |GroupBy(s, key)|
    ensures GroupBy(s, key)[i].0 != GroupBy(s, key)[j].0
    decreases |s|
  {
    var rest := Filter(s, (x: T) => key(x) != key(s[0]));
    Shrinks(s, key);
    if i == 0 {
      GroupExact(rest, key, j - 1);
      var g := GroupBy(rest, key)[j - 1].1;
      assert g[0] in g;
    } else {
      GroupKeysDistinct(rest, key, i - 1, j - 1);
    }
  }

  lemma {:induction false} GroupOfElement<K, T(!new)>(s: seq<T>, key: T -> K, x: T)
    requires x in s
    ensures exists i :: 0 <= i < |GroupBy(s, key)| && GroupBy(s, key)[i].0 == key(x) && x in GroupBy(s, key)[i].1
    decreases |s|
  {
    var k := key(s[0]);
    if key(x) == k {
      assert x in GroupBy(s, key)[0].1;
    } else {
      var rest := Filter(s, (y: T) => key(y) != k);
      Shrinks(s, key);
      GroupOfElement(rest, key, x);
      var i :| 0 <= i < |GroupBy(rest, key)| && GroupBy(rest, key)[i].0 == key(x) && x in GroupBy(rest, key)[i].1;
      assert GroupBy(s, key)[i + 1] == GroupBy(rest, key)[i];
    }
  }

  // All groups, one after the other.
  function Flatten<K, T>(groups: Grouped<K, T>): seq<T> {
    if groups == [] then [] else groups[0].1 + Flatten(groups[1..])
  }

  lemma {:induction false} FilterSplits<T(!new)>(s: seq<T>, p: T -> bool)
    ensures multiset(s) == multiset(Filter(s, p)) + multiset(Filter(s, (x: T) => !p(x)))
  {
    if s != [] {
      FilterSplits(s[1..], p);
      assert s == [s[0]] + s[1..];
    }
  }

  // Grouping loses and duplicates nothing.
  lemma {:induction false} GroupsPartition<K, T(!new)>(s: seq<T>, key: T -> K)
    ensures multiset(Flatten(GroupBy(s, key))) == multiset(s)
    decreases |s|
  {
    if s != [] {
      var k := key(s[0]);
      var rest := Filter(s, (x: T) => key(x) != k);
      Shrinks(s, key);
      GroupsPartition(rest, key);
      var own := Filter(s, (x: T) => key(x) == k);
      SplitByKey(s, key, k);
      assert GroupBy(s, key) == [(k, own)] + GroupBy(rest, key);
      assert Flatten(GroupBy(s, key)) == own + Flatten(GroupBy(rest, key)) by {
        assert ([(k, own)] + GroupBy(rest, key))[1..] == GroupBy(rest, key);
      }
    }
  }

  lemma SplitByKey<K, T(!new)>(s: seq<T>, key: T -> K, k: K)
    ensures multiset(s) == multiset(Filter(s, (x: T) => key(x) == k)) + multiset(Filter(s, (x: T) => key(x) != k))
  {
    var own := (x: T) => key(x) == k;
    FilterSplits(s, own);
    FilterCongruence(s, (x: T) => !own(x), (x: T) => key(x) != k);
  }

  lemma EmptyGroups<K, T(!new)>(key: T -> K)
    ensures GroupBy([], key) == []
  {
  }

  // An element that shares its key with no later one is a group of its own.
  lemma FirstAlone<K, T(!new)>(s: seq<T>, key: T -> K)
    requires s != [] && forall x :: x in s[1..] ==> key(x) != key(s[0])
    ensures GroupBy(s, key) == [(key(s[0]), [s[0]])] + GroupBy(s[1..], key)
  {
    var k := key(s[0]);
    var own, others := (x: T) => key(x) == k, (x: T) => key(x) != k;
    FilterNone(s[1..], own);
    FilterAll(s[1..], others);
    assert Filter(s, own) == [s[0]] && Filter(s, others) == s[1..];
    assert GroupBy(s, key) == [(k, Filter(s, own))] + GroupBy(Filter(s, others), key);
  }
}
