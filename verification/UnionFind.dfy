/** The array union-find of `groupedFacts`: `parents`, `root` with path halving, `join`. */
module UnionFind {

  /** Parents never exceed their index, which is what makes `root` terminate. */
  ghost predicate Forest(p: seq<nat>) {
    forall i :: 0 <= i < |p| ==> p[i] <= i
  }

  ghost function RootOf(p: seq<nat>, i: nat): (r: nat)
    requires Forest(p) && i < |p|
    ensures r <= i && p[r] == r
    decreases i
  {
    if p[i] == i then i else RootOf(p, p[i])
  }

  /** Same root for every index: what path halving must preserve. */
  ghost predicate SameRoots(p: seq<nat>, q: seq<nat>) {
    && Forest(p) && Forest(q) && |p| == |q|
    && forall i :: 0 <= i < |p| ==> RootOf(p, i) == RootOf(q, i)
  }

  lemma {:induction false} HalvingKeepsRoot(p: seq<nat>, i: nat, k: nat)
    requires Forest(p) && i < |p| && k < |p|
    ensures Forest(p[i := p[p[i]]])
    ensures RootOf(p[i := p[p[i]]], k) == RootOf(p, k)
    decreases k
  {
    var q := p[i := p[p[i]]];
    if k == i {
      if p[i] != i {
        HalvingKeepsRoot(p, i, p[i]);
        if p[p[i]] != p[i] {
          HalvingKeepsRoot(p, i, p[p[i]]);
        }
      }
    } else if p[k] != k {
      HalvingKeepsRoot(p, i, p[k]);
    }
  }

  lemma {:induction false} JoinMergesRoots(p: seq<nat>, hi: nat, lo: nat, k: nat)
    requires Forest(p) && lo < hi < |p| && k < |p|
    requires p[hi] == hi && p[lo] == lo
    ensures Forest(p[hi := lo])
    ensures RootOf(p[hi := lo], k) == if RootOf(p, k) == hi then lo else RootOf(p, k)
    decreases k
  {
    if p[k] != k {
      JoinMergesRoots(p, hi, lo, p[k]);
    } else if k == hi {
      assert p[hi := lo][k] == lo;
      assert RootOf(p[hi := lo], lo) == lo;
    }
  }

  method Root(parents: array<nat>, start: nat) returns (r: nat)
    requires Forest(parents[..]) && start < parents.Length
    modifies parents
    ensures SameRoots(old(parents[..]), parents[..])
    ensures r == RootOf(old(parents[..]), start)
  {
    ghost var before := parents[..];
    var index: nat := start;
    while parents[index] != index
      invariant index < parents.Length
      invariant SameRoots(before, parents[..])
      invariant RootOf(before, index) == RootOf(before, start)
      decreases index
    {
      ghost var p := parents[..];
      forall k | 0 <= k < |p|
        ensures Forest(p[index := p[p[index]]]) && RootOf(p[index := p[p[index]]], k) == RootOf(p, k)
      {
        HalvingKeepsRoot(p, index, k);
      }
      parents[index] := parents[parents[index]];
      assert parents[..] == p[index := p[p[index]]];
      var next := parents[index];
      assert next < index by {
        assert p[index] != index && p[index] <= index && p[p[index]] <= p[index];
      }
      assert RootOf(p, next) == RootOf(p, index);
      assert RootOf(before, next) == RootOf(p, next);
      index := next;
    }
    assert parents[..][index] == index;
    r := index;
  }

  /** `join`: exactly the two classes are merged, onto the smaller root. */
  method Join(parents: array<nat>, left: nat, right: nat)
    requires Forest(parents[..]) && left < parents.Length && right < parents.Length
    modifies parents
    ensures Forest(parents[..])
    ensures Merged(old(parents[..]), parents[..], left, right)
  {
    ghost var before := parents[..];
    var a := Root(parents, left);
    var b := Root(parents, right);
    ghost var p := parents[..];
    if a != b {
      var hi: nat, lo: nat := if a < b then b else a, if a < b then a else b;
      assert before[a] == a && before[b] == b;
      assert RootOf(p, a) == RootOf(before, a) == a && RootOf(p, b) == RootOf(before, b) == b;
      forall k | 0 <= k < |p|
        ensures Forest(p[hi := lo])
        ensures RootOf(p[hi := lo], k) == if RootOf(p, k) == hi then lo else RootOf(p, k)
      {
        JoinMergesRoots(p, hi, lo, k);
      }
      parents[hi] := lo;
      assert parents[..] == p[hi := lo];
      ghost var q := parents[..];
      forall i, j | 0 <= i < |p| && 0 <= j < |p|
        ensures Same(q, i, j) <==>
                || Same(before, i, j)
                || (Same(before, i, left) && Same(before, right, j))
                || (Same(before, i, right) && Same(before, left, j))
      {
        assert RootOf(p, i) == RootOf(before, i) && RootOf(p, j) == RootOf(before, j);
      }
    } else {
      forall i, j | 0 <= i < |p| && 0 <= j < |p|
        ensures Same(p, i, j) <==> Same(before, i, j)
      {
        assert RootOf(p, i) == RootOf(before, i) && RootOf(p, j) == RootOf(before, j);
      }
    }
  }

  ghost predicate Same(p: seq<nat>, i: nat, j: nat)
    requires Forest(p) && i < |p| && j < |p|
  {
    RootOf(p, i) == RootOf(p, j)
  }

  /** After joining `left` and `right`: i ~ j iff they were together, or the new link bridges them. */
  ghost predicate Merged(p: seq<nat>, q: seq<nat>, left: nat, right: nat)
    requires Forest(p) && Forest(q) && left < |p| && right < |p|
  {
    && |q| == |p|
    && forall i, j {:trigger Same(q, i, j)} :: 0 <= i < |p| && 0 <= j < |p| ==>
         (Same(q, i, j) <==>
          || Same(p, i, j)
          || (Same(p, i, left) && Same(p, right, j))
          || (Same(p, i, right) && Same(p, left, j)))
  }
}
