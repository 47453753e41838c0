/** `groupedFacts`: the partition of the input by shared topic key or alias. */
module Grouping {
  import opened Sorting
  import opened Facts
  import UF = UnionFind

  predicate Linked(o: TextRules, f: Fact, g: Fact) {
    CanonicalTopicKey(o, f) == CanonicalTopicKey(o, g) || o.alias(f, g)
  }

  /** A walk inside `s` from `f` to `g` along shared keys and aliases. */
  ghost predicate Chain(o: TextRules, s: set<Fact>, c: seq<Fact>, f: Fact, g: Fact) {
    && c != [] && c[0] == f && c[|c| - 1] == g
    && (forall i :: 0 <= i < |c| ==> c[i] in s)
    && (forall i :: 0 <= i < |c| - 1 ==> Linked(o, c[i], c[i + 1]))
  }

  ghost predicate Connected(o: TextRules, s: set<Fact>, f: Fact, g: Fact) {
    exists c :: Chain(o, s, c, f, g)
  }

  ghost function Component(o: TextRules, s: set<Fact>, f: Fact): set<Fact> {
    set g | g in s && Connected(o, s, f, g)
  }

  lemma ConnectedSelf(o: TextRules, s: set<Fact>, f: Fact)
    requires f in s
    ensures Connected(o, s, f, f)
  {
    assert Chain(o, s, [f], f, f);
  }

  lemma LinkedConnects(o: TextRules, s: set<Fact>, f: Fact, g: Fact)
    requires f in s && g in s && Linked(o, f, g)
    ensures Connected(o, s, f, g)
  {
    assert Chain(o, s, [f, g], f, g);
  }

  lemma ConnectedTransitive(o: TextRules, s: set<Fact>, f: Fact, g: Fact, h: Fact)
    requires Connected(o, s, f, g) && Connected(o, s, g, h)
    ensures Connected(o, s, f, h)
  {
    var c :| Chain(o, s, c, f, g);
    var d :| Chain(o, s, d, g, h);
    var e := c + d[1..];
    forall i | 0 <= i < |e| - 1 ensures Linked(o, e[i], e[i + 1]) {
      if i >= |c| - 1 {
        assert e[i] == d[i - |c| + 1] && e[i + 1] == d[i - |c| + 2];
      }
    }
    assert Chain(o, s, e, f, h);
  }

  lemma ConnectedSymmetric(o: TextRules, s: set<Fact>, f: Fact, g: Fact)
    requires WellBehaved(o) && Connected(o, s, f, g)
    ensures Connected(o, s, g, f)
  {
    var c :| Chain(o, s, c, f, g);
    var r := seq(|c|, i requires 0 <= i < |c| => c[|c| - 1 - i]);
    forall i | 0 <= i < |r| - 1 ensures Linked(o, r[i], r[i + 1]) {
      assert Linked(o, c[|c| - 2 - i], c[|c| - 2 - i + 1]);
    }
    assert Chain(o, s, r, g, f);
  }

  // ---- the union-find state against the chains ----

  /** Two indexes are together only if a chain of input facts joins them. */
  ghost predicate Sound(o: TextRules, input: seq<Fact>, p: seq<nat>) {
    && UF.Forest(p) && |p| == |input|
    && forall i, j {:trigger UF.Same(p, i, j)} ::
         0 <= i < |p| && 0 <= j < |p| && UF.Same(p, i, j) ==>
           Connected(o, Elements(input), input[i], input[j])
  }

  ghost predicate KeysTogether(o: TextRules, input: seq<Fact>, p: seq<nat>, n: nat) {
    && UF.Forest(p) && |p| == |input|
    && forall i, j {:trigger UF.Same(p, i, j)} ::
         (0 <= i < n && 0 <= j < n && i < |p| && j < |p| &&
          CanonicalTopicKey(o, input[i]) == CanonicalTopicKey(o, input[j])) ==> UF.Same(p, i, j)
  }

  /** Every aliased pair (i, j) that precedes (left, right) in the double loop is together. */
  ghost predicate AliasesTogether(o: TextRules, input: seq<Fact>, p: seq<nat>, left: nat, right: nat) {
    && UF.Forest(p) && |p| == |input|
    && forall i, j {:trigger UF.Same(p, i, j)} ::
         (0 <= i < j < |p| && (i < left || (i == left && j < right)) && o.alias(input[i], input[j])) ==>
           UF.Same(p, i, j)
  }

  lemma JoinKeepsSound(o: TextRules, input: seq<Fact>, p: seq<nat>, q: seq<nat>, left: nat, right: nat)
    requires WellBehaved(o) && Sound(o, input, p) && UF.Forest(q)
    requires left < |p| && right < |p| && UF.Merged(p, q, left, right)
    requires Linked(o, input[left], input[right])
    ensures Sound(o, input, q)
  {
    var s := Elements(input);
    LinkedConnects(o, s, input[left], input[right]);
    ConnectedSymmetric(o, s, input[left], input[right]);
    forall i, j | 0 <= i < |q| && 0 <= j < |q| && UF.Same(q, i, j)
      ensures Connected(o, s, input[i], input[j])
    {
      if UF.Same(p, i, j) {
      } else if UF.Same(p, i, left) && UF.Same(p, right, j) {
        ConnectedTransitive(o, s, input[i], input[left], input[right]);
        ConnectedTransitive(o, s, input[i], input[right], input[j]);
      } else {
        ConnectedTransitive(o, s, input[i], input[right], input[left]);
        ConnectedTransitive(o, s, input[i], input[left], input[j]);
      }
    }
  }

  lemma InitialSound(o: TextRules, input: seq<Fact>, p: seq<nat>)
    requires |p| == |input| && forall i :: 0 <= i < |p| ==> p[i] == i
    ensures Sound(o, input, p)
  {
    forall i, j | 0 <= i < |p| && 0 <= j < |p| && UF.Same(p, i, j)
      ensures Connected(o, Elements(input), input[i], input[j])
    {
      ConnectedSelf(o, Elements(input), input[i]);
    }
  }

  method JoinLinked(o: TextRules, input: seq<Fact>, parents: array<nat>, left: nat, right: nat)
    requires WellBehaved(o) && Sound(o, input, parents[..])
    requires left < parents.Length && right < parents.Length && Linked(o, input[left], input[right])
    modifies parents
    ensures Sound(o, input, parents[..])
    ensures UF.Merged(old(parents[..]), parents[..], left, right)
  {
    ghost var p := parents[..];
    UF.Join(parents, left, right);
    JoinKeepsSound(o, input, p, parents[..], left, right);
  }

  lemma KeyJoined(o: TextRules, input: seq<Fact>, p: seq<nat>, q: seq<nat>, first: nat, index: nat)
    requires KeysTogether(o, input, p, index) && UF.Forest(q) && first < index < |input|
    requires UF.Merged(p, q, first, index)
    requires CanonicalTopicKey(o, input[first]) == CanonicalTopicKey(o, input[index])
    ensures KeysTogether(o, input, q, index + 1)
  {
    forall i, j | 0 <= i <= index && 0 <= j <= index &&
                  CanonicalTopicKey(o, input[i]) == CanonicalTopicKey(o, input[j])
      ensures UF.Same(q, i, j)
    {
      assert i < index && j < index ==> UF.Same(p, i, j);
      assert i < index && j == index ==> UF.Same(p, i, first);
      assert i == index && j < index ==> UF.Same(p, first, j);
    }
  }

  /** A join keeps what was together together, and puts its two arguments together. */
  lemma AliasJoined(o: TextRules, input: seq<Fact>, p: seq<nat>, q: seq<nat>, left: nat, right: nat)
    requires KeysTogether(o, input, p, |input|) && AliasesTogether(o, input, p, left, right)
    requires UF.Forest(q) && left < right < |input| && UF.Merged(p, q, left, right)
    ensures KeysTogether(o, input, q, |input|) && AliasesTogether(o, input, q, left, right + 1)
  {
    forall i, j | 0 <= i < |q| && 0 <= j < |q| && UF.Same(p, i, j) ensures UF.Same(q, i, j) {
    }
    forall i, j | 0 <= i < |q| && 0 <= j < |q| &&
                  CanonicalTopicKey(o, input[i]) == CanonicalTopicKey(o, input[j])
      ensures UF.Same(q, i, j)
    {
      assert UF.Same(p, i, j);
    }
    forall i, j | 0 <= i < j < |q| && (i < left || (i == left && j < right + 1)) && o.alias(input[i], input[j])
      ensures UF.Same(q, i, j)
    {
      assert (i, j) != (left, right) ==> UF.Same(p, i, j);
    }
  }

  /** First pass: join every fact to the first fact with the same topic key. */
  method JoinByKey(o: TextRules, input: seq<Fact>, parents: array<nat>)
    requires WellBehaved(o) && Sound(o, input, parents[..])
    modifies parents
    ensures Sound(o, input, parents[..]) && KeysTogether(o, input, parents[..], |input|)
  {
    var firstByKey: map<string, nat> := map[];
    for index := 0 to |input|
      invariant Sound(o, input, parents[..]) && KeysTogether(o, input, parents[..], index)
      invariant forall k :: k in firstByKey ==>
        firstByKey[k] < index && CanonicalTopicKey(o, input[firstByKey[k]]) == k
      invariant forall i :: 0 <= i < index ==> CanonicalTopicKey(o, input[i]) in firstByKey
    {
      var key := CanonicalTopicKey(o, input[index]);
      ghost var p := parents[..];
      if key !in firstByKey {
        firstByKey := firstByKey[key := index];
      } else {
        JoinLinked(o, input, parents, firstByKey[key], index);
        KeyJoined(o, input, p, parents[..], firstByKey[key], index);
      }
    }
  }

  /** Second pass: join every aliased pair that is still apart. */
  method JoinByAlias(o: TextRules, input: seq<Fact>, parents: array<nat>)
    requires WellBehaved(o) && Sound(o, input, parents[..])
    requires KeysTogether(o, input, parents[..], |input|)
    modifies parents
    ensures Sound(o, input, parents[..]) && KeysTogether(o, input, parents[..], |input|)
    ensures AliasesTogether(o, input, parents[..], |input|, 0)
  {
    var left := 0;
    while left < |input|
      invariant left <= |input|
      invariant Sound(o, input, parents[..]) && KeysTogether(o, input, parents[..], |input|)
      invariant AliasesTogether(o, input, parents[..], left, left + 1)
    {
      var right := left + 1;
      while right < |input|
        invariant left < right <= |input|
        invariant Sound(o, input, parents[..]) && KeysTogether(o, input, parents[..], |input|)
        invariant AliasesTogether(o, input, parents[..], left, right)
      {
        ghost var p := parents[..];
        var a := UF.Root(parents, left);
        var b := UF.Root(parents, right);
        SameRootsKeep(o, input, p, parents[..], left, right);
        p := parents[..];
        if a != b && o.alias(input[left], input[right]) {
          JoinLinked(o, input, parents, left, right);
          AliasJoined(o, input, p, parents[..], left, right);
        } else if a == b {
          assert UF.Same(p, left, right);
        }
        right := right + 1;
      }
      left := left + 1;
    }
  }

  lemma SameRootsKeep(o: TextRules, input: seq<Fact>, p: seq<nat>, q: seq<nat>, left: nat, right: nat)
    requires Sound(o, input, p) && UF.SameRoots(p, q)
    requires KeysTogether(o, input, p, |input|) && AliasesTogether(o, input, p, left, right)
    ensures Sound(o, input, q) && KeysTogether(o, input, q, |input|)
    ensures AliasesTogether(o, input, q, left, right)
  {
    forall i, j | 0 <= i < |q| && 0 <= j < |q| ensures UF.Same(p, i, j) == UF.Same(q, i, j) {
      assert UF.RootOf(p, i) == UF.RootOf(q, i) && UF.RootOf(p, j) == UF.RootOf(q, j);
    }
  }

  /** Linked input facts are together, hence so are the ends of every chain. */
  lemma {:induction false} ChainTogether(o: TextRules, input: seq<Fact>, p: seq<nat>, c: seq<Fact>, i: nat, j: nat)
    requires WellBehaved(o) && KeysTogether(o, input, p, |input|) && AliasesTogether(o, input, p, |input|, 0)
    requires i < |p| && j < |p| && Chain(o, Elements(input), c, input[i], input[j])
    ensures UF.Same(p, i, j)
    decreases |c|
  {
    if |c| > 1 {
      assert c[1] in Elements(input);
      var k :| 0 <= k < |input| && input[k] == c[1];
      assert Linked(o, c[0], c[1]);
      LinkedTogether(o, input, p, i, k);
      assert Chain(o, Elements(input), c[1..], input[k], input[j]) by {
        forall m | 0 <= m < |c[1..]| - 1 ensures Linked(o, c[1..][m], c[1..][m + 1]) {
          assert Linked(o, c[m + 1], c[m + 2]);
        }
      }
      ChainTogether(o, input, p, c[1..], k, j);
      assert UF.Same(p, i, k) && UF.Same(p, k, j);
    } else {
      assert CanonicalTopicKey(o, input[i]) == CanonicalTopicKey(o, input[j]);
    }
  }

  lemma LinkedTogether(o: TextRules, input: seq<Fact>, p: seq<nat>, i: nat, j: nat)
    requires WellBehaved(o) && KeysTogether(o, input, p, |input|) && AliasesTogether(o, input, p, |input|, 0)
    requires i < |p| && j < |p| && Linked(o, input[i], input[j])
    ensures UF.Same(p, i, j)
  {
    assert o.alias(input[j], input[i]) == o.alias(input[i], input[j]);
    assert UF.Same(p, j, i) == UF.Same(p, i, j);
  }

  /** Together iff connected: the union-find computes exactly the components. */
  ghost predicate ExactRoots(o: TextRules, input: seq<Fact>, p: seq<nat>) {
    && UF.Forest(p) && |p| == |input|
    && forall i, j {:trigger UF.Same(p, i, j)} :: 0 <= i < |p| && 0 <= j < |p| ==>
         (UF.Same(p, i, j) <==> Connected(o, Elements(input), input[i], input[j]))
  }

  lemma RootsExact(o: TextRules, input: seq<Fact>, p: seq<nat>)
    requires WellBehaved(o) && Sound(o, input, p)
    requires KeysTogether(o, input, p, |input|) && AliasesTogether(o, input, p, |input|, 0)
    ensures ExactRoots(o, input, p)
  {
    forall i, j | 0 <= i < |p| && 0 <= j < |p|
      ensures UF.Same(p, i, j) <==> Connected(o, Elements(input), input[i], input[j])
    {
      if Connected(o, Elements(input), input[i], input[j]) {
        var c :| Chain(o, Elements(input), c, input[i], input[j]);
        ChainTogether(o, input, p, c, i, j);
      }
    }
  }

  // ---- reading the groups off the roots ----

  function Flatten(gs: seq<seq<Fact>>): seq<Fact> {
    if gs == [] then [] else gs[0] + Flatten(gs[1..])
  }

  /** `groups` hold every input fact once, and are exactly the connected components. */
  ghost predicate IsPartition(o: TextRules, input: seq<Fact>, groups: seq<seq<Fact>>) {
    && multiset(Flatten(groups)) == multiset(input)
    && (forall k :: 0 <= k < |groups| ==> groups[k] != [])
    && (forall k, f, g :: 0 <= k < |groups| && f in groups[k] && g in groups[k] ==>
          Connected(o, Elements(input), f, g))
    && (forall k, l, f, g :: 0 <= k < l < |groups| && f in groups[k] && g in groups[l] ==>
          !Connected(o, Elements(input), f, g))
  }

  /** One group per root, as the Map built in the last loop: keys in insertion order, values aligned. */
  ghost predicate GroupsByRoot(input: seq<Fact>, p: seq<nat>, n: nat, keys: seq<nat>, groups: seq<seq<Fact>>) {
    && UF.Forest(p) && |p| == |input| && n <= |input|
    && |keys| == |groups| && Distinct(keys)
    && multiset(Flatten(groups)) == multiset(input[..n])
    && (forall k :: 0 <= k < |groups| ==> groups[k] != [])
    && (forall k, f :: 0 <= k < |groups| && f in groups[k] ==>
          exists i :: 0 <= i < n && input[i] == f && UF.RootOf(p, i) == keys[k])
  }

  lemma {:induction false} FlattenUpdate(gs: seq<seq<Fact>>, k: nat, f: Fact)
    requires k < |gs|
    ensures multiset(Flatten(gs[k := gs[k] + [f]])) == multiset(Flatten(gs)) + multiset{f}
  {
    var u := gs[k := gs[k] + [f]];
    if k == 0 {
      assert u[1..] == gs[1..];
    } else {
      FlattenUpdate(gs[1..], k - 1, f);
      assert u[1..] == gs[1..][k - 1 := gs[1..][k - 1] + [f]];
    }
  }

  lemma {:induction false} FlattenSnoc(gs: seq<seq<Fact>>, g: seq<Fact>)
    ensures Flatten(gs + [g]) == Flatten(gs) + g
  {
    if gs == [] {
      assert Flatten([g]) == g + Flatten([g][1..]);
    } else {
      assert (gs + [g])[1..] == gs[1..] + [g];
      FlattenSnoc(gs[1..], g);
    }
  }

  lemma PartitionFromRoots(o: TextRules, input: seq<Fact>, p: seq<nat>, keys: seq<nat>, groups: seq<seq<Fact>>)
    requires ExactRoots(o, input, p) && GroupsByRoot(input, p, |input|, keys, groups)
    ensures IsPartition(o, input, groups)
  {
    assert input[..|input|] == input;
    var s := Elements(input);
    forall k, l, f, g | 0 <= k <= l < |groups| && f in groups[k] && g in groups[l]
      ensures Connected(o, s, f, g) <==> k == l
    {
      var i :| 0 <= i < |input| && input[i] == f && UF.RootOf(p, i) == keys[k];
      var j :| 0 <= j < |input| && input[j] == g && UF.RootOf(p, j) == keys[l];
      assert UF.Same(p, i, j) <==> Connected(o, s, f, g);
    }
  }

  lemma AppendToGroup(input: seq<Fact>, p: seq<nat>, n: nat, keys: seq<nat>, groups: seq<seq<Fact>>, k: nat)
    requires GroupsByRoot(input, p, n, keys, groups) && n < |input| && k < |keys|
    requires UF.RootOf(p, n) == keys[k]
    ensures GroupsByRoot(input, p, n + 1, keys, groups[k := groups[k] + [input[n]]])
  {
    assert input[..n + 1] == input[..n] + [input[n]];
    FlattenUpdate(groups, k, input[n]);
    var u := groups[k := groups[k] + [input[n]]];
    forall m, f | 0 <= m < |u| && f in u[m]
      ensures exists i :: 0 <= i < n + 1 && input[i] == f && UF.RootOf(p, i) == keys[m]
    {
      if f in groups[m] {
        var i :| 0 <= i < n && input[i] == f && UF.RootOf(p, i) == keys[m];
      } else {
        assert input[n] == f;
      }
    }
  }

  lemma StartGroup(input: seq<Fact>, p: seq<nat>, n: nat, keys: seq<nat>, groups: seq<seq<Fact>>, key: nat)
    requires GroupsByRoot(input, p, n, keys, groups) && n < |input|
    requires UF.RootOf(p, n) == key && key !in keys
    ensures GroupsByRoot(input, p, n + 1, keys + [key], groups + [[input[n]]])
  {
    assert input[..n + 1] == input[..n] + [input[n]];
    FlattenSnoc(groups, [input[n]]);
    var u := groups + [[input[n]]];
    forall m, f | 0 <= m < |u| && f in u[m]
      ensures exists i :: 0 <= i < n + 1 && input[i] == f && UF.RootOf(p, i) == (keys + [key])[m]
    {
      if m < |groups| {
        var i :| 0 <= i < n && input[i] == f && UF.RootOf(p, i) == keys[m];
      } else {
        assert input[n] == f;
      }
    }
  }

  method GroupedFacts(o: TextRules, input: seq<Fact>) returns (groups: seq<seq<Fact>>)
    requires WellBehaved(o)
    ensures IsPartition(o, input, groups)
  {
    var parents := new nat[|input|](i => i);
    InitialSound(o, input, parents[..]);
    JoinByKey(o, input, parents);
    JoinByAlias(o, input, parents);
    ghost var final := parents[..];
    RootsExact(o, input, final);
    var keys: seq<nat> := [];
    var position: map<nat, nat> := map[];
    groups := [];
    for index := 0 to |input|
      invariant parents.Length == |input| && UF.SameRoots(final, parents[..])
      invariant GroupsByRoot(input, final, index, keys, groups)
      invariant forall r :: r in position <==> r in keys
      invariant forall r :: r in position ==> position[r] < |keys| && keys[position[r]] == r
    {
      var key := UF.Root(parents, index);
      if key in position {
        var k := position[key];
        AppendToGroup(input, final, index, keys, groups, k);
        groups := groups[k := groups[k] + [input[index]]];
      } else {
        StartGroup(input, final, index, keys, groups, key);
        position := position[key := |keys|];
        keys := keys + [key];
        groups := groups + [[input[index]]];
      }
    }
    PartitionFromRoots(o, input, final, keys, groups);
  }
}
