/** Wrappers and the list operations the TypeScript code takes from its library:
    `filter`, and `sort` with a comparator. */
module Sorting {

  datatype Option<+T> = None | Some(value: T)

  /** `Array.prototype.filter`. */
  function Filter<T(!new)>(s: seq<T>, p: T -> bool): (r: seq<T>)
    ensures forall x :: x in r <==> x in s && p(x)
    ensures |r| <= |s|
  {
    if s == [] then []
    else if p(s[0]) then [s[0]] + Filter(s[1..], p)
    else Filter(s[1..], p)
  }

  lemma {:induction false} FilterAppend<T(!new)>(s: seq<T>, t: seq<T>, p: T -> bool)
    ensures Filter(s + t, p) == Filter(s, p) + Filter(t, p)
  {
    if s == [] {
      assert s + t == t;
    } else {
      assert (s + t)[1..] == s[1..] + t;
      FilterAppend(s[1..], t, p);
    }
  }

  lemma {:induction false} FilterCongruence<T(!new)>(s: seq<T>, p: T -> bool, q: T -> bool)
    requires forall x :: x in s ==> p(x) == q(x)
    ensures Filter(s, p) == Filter(s, q)
  {
    if s != [] {
      FilterCongruence(s[1..], p, q);
    }
  }

  lemma {:induction false} FilterNone<T(!new)>(s: seq<T>, p: T -> bool)
    requires forall x :: x in s ==> !p(x)
    ensures Filter(s, p) == []
  {
    if s != [] {
      FilterNone(s[1..], p);
    }
  }

  lemma {:induction false} FilterAll<T(!new)>(s: seq<T>, p: T -> bool)
    requires forall x :: x in s ==> p(x)
    ensures Filter(s, p) == s
  {
    if s != [] {
      FilterAll(s[1..], p);
    }
  }

  lemma {:induction false} FilterSole<T(!new)>(s: seq<T>, p: T -> bool, i: nat)
    requires i < |s| && p(s[i]) && forall j :: 0 <= j < |s| && p(s[j]) ==> j == i
    ensures Filter(s, p) == [s[i]]
  {
    if i == 0 {
      forall x | x in s[1..] ensures !p(x) {
        var j :| 0 <= j < |s[1..]| && s[1..][j] == x;
        assert s[j + 1] == x;
      }
      FilterNone(s[1..], p);
    } else {
      assert !p(s[0]);
      forall j | 0 <= j < |s[1..]| && p(s[1..][j]) ensures j == i - 1 { assert s[j + 1] == s[1..][j]; }
      FilterSole(s[1..], p, i - 1);
    }
  }

  lemma {:induction false} FilterTwo<T(!new)>(s: seq<T>, p: T -> bool, i: nat, j: nat)
    requires i < j < |s| && p(s[i]) && p(s[j])
    ensures |Filter(s, p)| >= 2
  {
    if i == 0 {
      assert s[j] == s[1..][j - 1];
      assert s[j] in Filter(s[1..], p);
    } else {
      FilterTwo(s[1..], p, i - 1, j - 1);
    }
  }

  lemma {:induction false} FilterDistinct<T(!new)>(s: seq<T>, p: T -> bool)
    requires Distinct(s)
    ensures Distinct(Filter(s, p))
  {
    if s != [] {
      FilterDistinct(s[1..], p);
    }
  }

  ghost predicate Distinct<T(!new)>(s: seq<T>) {
    forall i, j :: 0 <= i < j < |s| ==> s[i] != s[j]
  }

  ghost function Elements<T(!new)>(s: seq<T>): (r: set<T>)
    ensures forall x :: x in r <==> x in s
  {
    set x | x in s
  }

  lemma ElementsEmpty<T(!new)>(s: seq<T>)
    ensures Elements(s) == {} ==> s == []
  {
    if s != [] { assert s[0] in Elements(s); }
  }

  lemma SliceOfSlice<T>(s: seq<T>, a: nat, b: nat, i: nat, j: nat)
    requires a <= b <= |s| && i <= j <= b - a
    ensures s[a..b][i..j] == s[a + i..a + j]
  {
    var x, y := s[a..b][i..j], s[a + i..a + j];
    assert |x| == |y|;
    assert forall k :: 0 <= k < |x| ==> x[k] == y[k];
  }

  /** `less` orders the members of `d` strictly and totally. */
  ghost predicate StrictOrderOn<T(!new)>(less: (T, T) -> bool, d: set<T>) {
    && (forall x :: x in d ==> !less(x, x))
    && (forall x, y :: x in d && y in d && x != y ==> less(x, y) || less(y, x))
    && (forall x, y, z :: x in d && y in d && z in d && less(x, y) && less(y, z) ==> less(x, z))
  }

  ghost predicate Ascending<T(!new)>(s: seq<T>, less: (T, T) -> bool) {
    forall i, j :: 0 <= i < j < |s| ==> less(s[i], s[j])
  }

  lemma {:induction false} FilterAscending<T(!new)>(s: seq<T>, p: T -> bool, less: (T, T) -> bool)
    requires Ascending(s, less)
    ensures Ascending(Filter(s, p), less)
  {
    if s != [] {
      FilterAscending(s[1..], p, less);
      forall x | x in Filter(s[1..], p) ensures less(s[0], x) {
        var k :| 0 <= k < |s[1..]| && s[1..][k] == x;
      }
    }
  }

  function Insert<T(!new)>(s: seq<T>, x: T, less: (T, T) -> bool): (r: seq<T>)
    ensures multiset(r) == multiset(s) + multiset{x}
  {
    if s == [] then [x]
    else if less(s[0], x) then
      assert s == [s[0]] + s[1..];
      [s[0]] + Insert(s[1..], x, less)
    else [x] + s
  }

  /** `Array.prototype.sort` with comparator "negative iff `less`": stable, a permutation. */
  function Sort<T(!new)>(s: seq<T>, less: (T, T) -> bool): (r: seq<T>)
    ensures multiset(r) == multiset(s)
  {
    if s == [] then []
    else
      assert s == [s[0]] + s[1..];
      Insert(Sort(s[1..], less), s[0], less)
  }

  lemma {:induction false} InsertAscending<T(!new)>(s: seq<T>, x: T, less: (T, T) -> bool, d: set<T>)
    requires StrictOrderOn(less, d)
    requires Elements(s) <= d && x in d && x !in s
    requires Ascending(s, less)
    ensures Ascending(Insert(s, x, less), less)
  {
    if s != [] {
      if less(s[0], x) {
        var t := Insert(s[1..], x, less);
        assert s[0] in Elements(s);
        forall y | y in s[1..] ensures y in s { }
        assert Elements(s[1..]) <= Elements(s);
        InsertAscending(s[1..], x, less, d);
        forall k | 0 <= k < |t| ensures less(s[0], t[k]) {
          assert t[k] in multiset(t);
          assert t[k] in s[1..] || t[k] == x;
        }
      } else {
        assert s[0] in Elements(s);
        forall k | 0 <= k < |s| ensures less(x, s[k]) {
          assert s[k] in Elements(s);
          assert less(x, s[0]);
        }
      }
    }
  }

  lemma {:induction false} SortAscending<T(!new)>(s: seq<T>, less: (T, T) -> bool)
    requires StrictOrderOn(less, Elements(s))
    requires Distinct(s)
    ensures Ascending(Sort(s, less), less)
  {
    SortAscendingIn(s, less, Elements(s));
  }

  lemma {:induction false} SortAscendingIn<T(!new)>(s: seq<T>, less: (T, T) -> bool, d: set<T>)
    requires StrictOrderOn(less, d)
    requires Elements(s) <= d && Distinct(s)
    ensures Ascending(Sort(s, less), less)
  {
    if s != [] {
      var t := Sort(s[1..], less);
      forall y | y in s[1..] ensures y in d { assert y in Elements(s); }
      SortAscendingIn(s[1..], less, d);
      forall y | y in t ensures y in d && y != s[0] {
        assert y in multiset(t);
        assert y in s[1..];
        assert y in Elements(s);
      }
      assert s[0] in Elements(s);
      InsertAscending(t, s[0], less, d);
    }
  }

  /** `less` ranks without ties being equal: incomparable values may be different. */
  ghost predicate WeakOrder<T(!new)>(less: (T, T) -> bool) {
    && (forall x, y :: less(x, y) ==> !less(y, x))
    && (forall x, y, z :: less(x, z) ==> less(x, y) || less(y, z))
  }

  ghost predicate NeverDescends<T(!new)>(s: seq<T>, less: (T, T) -> bool) {
    forall i, j :: 0 <= i < j < |s| ==> !less(s[j], s[i])
  }

  lemma NotBelow<T(!new)>(less: (T, T) -> bool, x: T, y: T, z: T)
    requires WeakOrder(less) && (x == y || !less(x, y)) && !less(y, z)
    ensures !less(x, z)
  {
  }

  lemma {:induction false} InsertNeverDescends<T(!new)>(s: seq<T>, x: T, less: (T, T) -> bool)
    requires WeakOrder(less) && NeverDescends(s, less)
    ensures NeverDescends(Insert(s, x, less), less)
  {
    if s != [] {
      if less(s[0], x) {
        var t := Insert(s[1..], x, less);
        InsertNeverDescends(s[1..], x, less);
        forall k | 0 <= k < |t| ensures !less(t[k], s[0]) {
          assert t[k] in multiset(t);
          assert t[k] in s[1..] || t[k] == x;
        }
      } else {
        forall k | 0 <= k < |s| ensures !less(s[k], x) {
          NotBelow(less, s[k], s[0], x);
        }
      }
    }
  }

  lemma {:induction false} SortNeverDescends<T(!new)>(s: seq<T>, less: (T, T) -> bool)
    requires WeakOrder(less)
    ensures NeverDescends(Sort(s, less), less)
  {
    if s != [] {
      SortNeverDescends(s[1..], less);
      InsertNeverDescends(Sort(s[1..], less), s[0], less);
    }
  }

  lemma SortMembers<T(!new)>(s: seq<T>, less: (T, T) -> bool)
    ensures forall x :: x in Sort(s, less) <==> x in s
    ensures |Sort(s, less)| == |s|
  {
    forall x ensures x in Sort(s, less) <==> x in s {
      assert x in multiset(Sort(s, less)) <==> x in multiset(s);
    }
    assert |multiset(Sort(s, less))| == |multiset(s)|;
  }

  /** A set has at most one ascending enumeration. */
  lemma {:induction false} AscendingUnique<T(!new)>(s: seq<T>, t: seq<T>, less: (T, T) -> bool)
    requires StrictOrderOn(less, Elements(s))
    requires Elements(s) == Elements(t)
    requires Ascending(s, less) && Ascending(t, less)
    ensures s == t
  {
    AscendingUniqueIn(s, t, less, Elements(s));
  }

  lemma {:induction false} AscendingUniqueIn<T(!new)>(s: seq<T>, t: seq<T>, less: (T, T) -> bool, d: set<T>)
    requires StrictOrderOn(less, d)
    requires Elements(s) == Elements(t) <= d
    requires Ascending(s, less) && Ascending(t, less)
    ensures s == t
  {
    if s == [] {
      ElementsEmpty(t);
    } else {
      assert s[0] in Elements(t);
      assert t != [];
      assert t[0] in Elements(s);
      var i :| 0 <= i < |t| && t[i] == s[0];
      var j :| 0 <= j < |s| && s[j] == t[0];
      assert s[0] == t[0];
      forall x ensures x in s[1..] <==> x in t[1..] {
        if x in s[1..] {
          var k :| 1 <= k < |s| && s[k] == x;
          assert x in Elements(s) && less(s[0], x);
          assert x in t && x != t[0];
        }
        if x in t[1..] {
          var k :| 1 <= k < |t| && t[k] == x;
          assert x in Elements(t) && less(t[0], x);
          assert x in s && x != s[0];
        }
      }
      assert Elements(s[1..]) == Elements(t[1..]);
      forall x | x in Elements(s[1..]) ensures x in d { assert x in s; assert x in Elements(s); }
      AscendingUniqueIn(s[1..], t[1..], less, d);
      assert s == [s[0]] + s[1..];
      assert t == [t[0]] + t[1..];
    }
  }

  lemma {:induction false} DistinctMultisets<T(!new)>(a: seq<T>, b: seq<T>)
    requires Distinct(a) && Distinct(b) && forall x :: x in a <==> x in b
    ensures multiset(a) == multiset(b)
  {
    forall x ensures multiset(a)[x] == multiset(b)[x] {
      DistinctCount(a, x);
      DistinctCount(b, x);
    }
  }

  lemma {:induction false} DistinctCount<T(!new)>(a: seq<T>, x: T)
    requires Distinct(a)
    ensures multiset(a)[x] == if x in a then 1 else 0
  {
    if a != [] {
      assert a == [a[0]] + a[1..];
      DistinctCount(a[1..], x);
    }
  }

  lemma DistinctMultiplicity<T(!new)>(s: seq<T>)
    ensures Distinct(s) <==> forall x :: multiset(s)[x] <= 1
  {
    if Distinct(s) {
      forall x ensures multiset(s)[x] <= 1 { DistinctCount(s, x); }
    } else {
      RepeatCounts(s);
    }
  }

  lemma RepeatCounts<T(!new)>(s: seq<T>)
    requires !Distinct(s)
    ensures exists x :: multiset(s)[x] > 1
  {
    var i, j :| 0 <= i < j < |s| && s[i] == s[j];
    assert s == s[..j] + [s[j]] + s[j + 1..];
    assert s[i] in s[..j];
    assert multiset(s)[s[j]] >= multiset(s[..j])[s[j]] + 1;
  }
}
