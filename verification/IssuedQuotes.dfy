// Choosing one physical span among the occurrences of a quote in all fragments that were issued with a batch.
module IssuedQuotes {
  import opened Sorting
  import opened Texts

  // A resolved span. Its physical key is document, page, page text and raw range; the digest of the quote follows from it.
  datatype PhysicalKey = PhysicalKey(document: string, page: int, pageText: Text, start: nat, end: nat)
  datatype Resolved = Resolved(fragmentId: string, document: string, key: PhysicalKey, selectorStart: nat, selectorEnd: nat)

  // One issued fragment as the search sees it: whether its origin is intact, the selectors of the quote in it (None when
  // the search gives up), and the span to which each selector resolves.
  datatype Fragment = Fragment(id: string, document: string, intact: bool, matches: Option<seq<Option<Resolved>>>)

  // A relevant fragment that makes the whole search fail.
  predicate Blocks(f: Fragment, document: string) {
    && f.document == document
    && (!f.intact || f.matches == None ||
        exists m :: m in f.matches.value && (m == None || m.value.document != document))
  }

  function Spans(matches: seq<Option<Resolved>>): seq<Resolved> {
    if matches == [] then []
    else (if matches[0].Some? then [matches[0].value] else []) + Spans(matches[1..])
  }

  function SpansOf(f: Fragment, document: string): seq<Resolved> {
    if f.document == document && f.matches.Some? then Spans(f.matches.value) else []
  }

  function AllSpans(fragments: seq<Fragment>, document: string): seq<Resolved> {
    if fragments == [] then []
    else AllSpans(fragments[..|fragments| - 1], document) + SpansOf(fragments[|fragments| - 1], document)
  }

  function ById(before: (string, string) -> bool): (Resolved, Resolved) -> bool {
    (x: Resolved, y: Resolved) => before(x.fragmentId, y.fragmentId)
  }

  predicate OneKey(spans: seq<Resolved>) {
    spans != [] && forall s :: s in spans ==> s.key == spans[0].key
  }

  // The last span in the order of fragment identifiers is what the map keeps for the only key.
  function Choice(spans: seq<Resolved>, before: (string, string) -> bool): (r: Option<Resolved>) {
    if !OneKey(spans) then None
    else
      var sorted := Sort(spans, ById(before));
      SortMembers(spans, ById(before));
      Some(sorted[|sorted| - 1])
  }

  function Resolve(fragments: seq<Fragment>, document: string, before: (string, string) -> bool): Option<Resolved> {
    if exists f :: f in fragments && Blocks(f, document) then None
    else Choice(AllSpans(fragments, document), before)
  }

  // `map.set(key, span)` for each span in order.
  method LastByKey(sorted: seq<Resolved>) returns (byKey: map<PhysicalKey, Resolved>)
    ensures forall k :: k in byKey <==> exists s :: s in sorted && s.key == k
    ensures OneKey(sorted) ==> byKey == map[sorted[0].key := sorted[|sorted| - 1]]
  {
    byKey := map[];
    for i := 0 to |sorted|
      invariant forall k :: k in byKey <==> exists j :: 0 <= j < i && sorted[j].key == k
      invariant i > 0 && OneKey(sorted) ==> byKey == map[sorted[0].key := sorted[i - 1]]
    {
      byKey := byKey[sorted[i].key := sorted[i]];
    }
  }

  lemma SortedKeys(spans: seq<Resolved>, sorted: seq<Resolved>)
    requires |spans| == |sorted| && forall s :: s in spans <==> s in sorted
    ensures OneKey(spans) <==> OneKey(sorted)
  {
    if spans != [] { assert spans[0] in sorted && sorted[0] in spans; }
  }

  lemma SizeOne(sorted: seq<Resolved>, byKey: map<PhysicalKey, Resolved>)
    requires forall k :: k in byKey <==> exists s :: s in sorted && s.key == k
    requires OneKey(sorted) ==> byKey == map[sorted[0].key := sorted[|sorted| - 1]]
    ensures |byKey| == 1 <==> OneKey(sorted)
  {
    if |byKey| == 1 {
      var k :| k in byKey;
      assert byKey.Keys == {k} by { SingleKey(byKey.Keys, k); }
      var s :| s in sorted && s.key == k;
      forall x | x in sorted ensures x.key == k { assert x.key in byKey.Keys; }
    }
  }

  lemma SingleKey(keys: set<PhysicalKey>, k: PhysicalKey)
    requires |keys| == 1 && k in keys
    ensures keys == {k}
  {
    assert |keys - {k}| == 0;
  }

  method ChooseSpan(resolved: seq<Resolved>, before: (string, string) -> bool) returns (r: Option<Resolved>)
    ensures r == Choice(resolved, before)
  {
    hide Sort, OneKey;
    var sorted := Sort(resolved, ById(before));
    SortMembers(resolved, ById(before));
    SortedKeys(resolved, sorted);
    var byKey := LastByKey(sorted);
    SizeOne(sorted, byKey);
    if |byKey| != 1 { return None; }
    var k :| k in byKey;
    r := Some(byKey[k]);
  }

  // ---- Independence of the issue order ----

  ghost predicate TotalOrder(before: (string, string) -> bool) {
    && (forall a :: !before(a, a))
    && (forall a, b :: a != b ==> before(a, b) || before(b, a))
    && forall a, b, c :: before(a, b) && before(b, c) ==> before(a, c)
  }

  // The fragments of a source map have distinct identifiers, and a span names the fragment it was found in.
  ghost predicate Issued(fragments: seq<Fragment>, document: string) {
    && (forall i, j :: 0 <= i < j < |fragments| ==> fragments[i].id != fragments[j].id)
    && forall f :: f in fragments ==> OwnSpans(f, document)
  }

  ghost predicate OwnSpans(f: Fragment, document: string) {
    forall s :: s in SpansOf(f, document) ==> s.fragmentId == f.id
  }

  ghost predicate Sorted(s: seq<Resolved>, before: (string, string) -> bool) {
    forall i, j :: 0 <= i < j < |s| ==> !before(s[j].fragmentId, s[i].fragmentId)
  }

  lemma OrderFacts(a: string, b: string, c: string, before: (string, string) -> bool)
    requires TotalOrder(before)
    ensures before(a, b) ==> !before(b, a)
    ensures !before(b, a) && !before(c, b) ==> !before(c, a)
  {
  }

  lemma {:induction false} InsertSorted(t: seq<Resolved>, x: Resolved, before: (string, string) -> bool)
    requires TotalOrder(before) && Sorted(t, before)
    ensures Sorted(Insert(t, x, ById(before)), before)
  {
    hide TotalOrder;
    if t != [] {
      if before(t[0].fragmentId, x.fragmentId) {
        var rest := Insert(t[1..], x, ById(before));
        InsertSorted(t[1..], x, before);
        forall j | 0 <= j < |rest| ensures !before(rest[j].fragmentId, t[0].fragmentId) {
          OrderFacts(t[0].fragmentId, x.fragmentId, x.fragmentId, before);
          assert rest[j] in multiset(rest);
          assert rest[j] in t[1..] || rest[j] == x;
        }
      } else {
        forall j | 0 <= j < |t| ensures !before(t[j].fragmentId, x.fragmentId) {
          OrderFacts(x.fragmentId, t[0].fragmentId, t[j].fragmentId, before);
        }
      }
    }
  }

  lemma {:induction false} InsertEnds(t: seq<Resolved>, x: Resolved, before: (string, string) -> bool)
    requires TotalOrder(before) && Sorted(t, before)
    ensures |Insert(t, x, ById(before))| == |t| + 1
    ensures Insert(t, x, ById(before))[|t|] ==
            if t == [] || before(t[|t| - 1].fragmentId, x.fragmentId) then x else t[|t| - 1]
  {
    hide TotalOrder;
    if t != [] {
      if before(t[0].fragmentId, x.fragmentId) {
        InsertEnds(t[1..], x, before);
      } else {
        OrderFacts(x.fragmentId, t[0].fragmentId, t[|t| - 1].fragmentId, before);
      }
    }
  }

  // The last of the maximal elements, which is where a stable sort ends.
  ghost predicate LastOfMaximal(s: seq<Resolved>, k: nat, before: (string, string) -> bool) {
    && k < |s|
    && (forall i :: 0 <= i < |s| ==> !before(s[k].fragmentId, s[i].fragmentId))
    && forall i :: k < i < |s| ==> before(s[i].fragmentId, s[k].fragmentId)
  }

  lemma {:induction false} SortEnds(s: seq<Resolved>, k: nat, before: (string, string) -> bool)
    requires TotalOrder(before) && LastOfMaximal(s, k, before)
    ensures |Sort(s, ById(before))| == |s| && Sort(s, ById(before))[|s| - 1] == s[k]
  {
    hide TotalOrder, Insert, Sorted, LastOfMaximal;
    MaximalTail(s, k, before);
    var rest := s[1..];
    var t := Sort(rest, ById(before));
    SortSorted(rest, before);
    SortMembers(rest, ById(before));
    InsertEnds(t, s[0], before);
    if k > 0 {
      SortEnds(rest, k - 1, before);
    } else if t != [] {
      assert t[|t| - 1] in rest;
    }
  }

  lemma MaximalTail(s: seq<Resolved>, k: nat, before: (string, string) -> bool)
    requires LastOfMaximal(s, k, before)
    ensures k < |s|
    ensures k > 0 ==> LastOfMaximal(s[1..], k - 1, before) && !before(s[k].fragmentId, s[0].fragmentId)
    ensures k == 0 ==> forall x :: x in s[1..] ==> before(x.fragmentId, s[0].fragmentId)
  {
  }

  lemma {:induction false} SortSorted(s: seq<Resolved>, before: (string, string) -> bool)
    requires TotalOrder(before)
    ensures Sorted(Sort(s, ById(before)), before)
  {
    if s != [] {
      SortSorted(s[1..], before);
      InsertSorted(Sort(s[1..], ById(before)), s[0], before);
    }
  }

  // The fragment with the greatest identifier among those that hold a span.
  ghost predicate Greatest(fragments: seq<Fragment>, f: Fragment, document: string, before: (string, string) -> bool) {
    && f in fragments && SpansOf(f, document) != []
    && forall g :: g in fragments && SpansOf(g, document) != [] ==> g.id == f.id || before(g.id, f.id)
  }

  ghost predicate Occurs(fragments: seq<Fragment>, document: string, s: Resolved) {
    exists f :: f in fragments && s in SpansOf(f, document)
  }

  lemma {:induction false} SpansFromFragments(fragments: seq<Fragment>, document: string)
    ensures forall s :: s in AllSpans(fragments, document) <==> Occurs(fragments, document, s)
  {
    if fragments != [] {
      SpansFromFragments(fragments[..|fragments| - 1], document);
    }
  }

  lemma NoSpans(fragments: seq<Fragment>, f: Fragment, document: string)
    requires f in fragments && AllSpans(fragments, document) == []
    ensures SpansOf(f, document) == []
  {
    hide SpansOf, AllSpans;
    SpansFromFragments(fragments, document);
    assert forall s :: s in SpansOf(f, document) ==> s in AllSpans(fragments, document);
    assert Elements(SpansOf(f, document)) == {};
    ElementsEmpty(SpansOf(f, document));
  }

  lemma OrderTransitive(a: string, b: string, c: string, before: (string, string) -> bool)
    requires TotalOrder(before) && (a == b || before(a, b)) && before(b, c)
    ensures before(a, c)
  {
  }

  lemma OrderTotal(a: string, b: string, before: (string, string) -> bool)
    requires TotalOrder(before)
    ensures !before(a, b) ==> a == b || before(b, a)
  {
  }

  lemma {:induction false} GreatestExists(fragments: seq<Fragment>, document: string, before: (string, string) -> bool)
    returns (f: Fragment)
    requires TotalOrder(before) && AllSpans(fragments, document) != []
    ensures Greatest(fragments, f, document, before)
  {
    hide SpansOf, TotalOrder;
    var front, last := fragments[..|fragments| - 1], fragments[|fragments| - 1];
    if AllSpans(front, document) == [] {
      f := last;
      forall g | g in front ensures SpansOf(g, document) == [] { NoSpans(front, g, document); }
    } else {
      f := GreatestExists(front, document, before);
      if SpansOf(last, document) != [] && before(f.id, last.id) {
        forall g | g in front && SpansOf(g, document) != [] ensures g.id == last.id || before(g.id, last.id) {
          OrderTransitive(g.id, f.id, last.id, before);
        }
        f := last;
      } else {
        OrderTotal(f.id, last.id, before);
      }
    }
  }

  // The spans end, in sorted order, with the last span of the greatest fragment.
  lemma {:induction false} GreatestIsLast(
      fragments: seq<Fragment>, f: Fragment, document: string, before: (string, string) -> bool) returns (k: nat)
    requires TotalOrder(before) && Issued(fragments, document) && Greatest(fragments, f, document, before)
    ensures LastOfMaximal(AllSpans(fragments, document), k, before)
    ensures AllSpans(fragments, document)[k] == SpansOf(f, document)[|SpansOf(f, document)| - 1]
  {
    hide SpansOf, LastOfMaximal, TotalOrder;
    var front, last := fragments[..|fragments| - 1], fragments[|fragments| - 1];
    var earlier, own := AllSpans(front, document), SpansOf(last, document);
    SpansFromFragments(front, document);
    assert last in fragments && OwnSpans(last, document);
    assert AllSpans(fragments, document) == earlier + own;
    if f == last {
      k := |earlier| + |own| - 1;
      forall s | s in earlier ensures s.fragmentId == f.id || before(s.fragmentId, f.id) {
        var g :| g in front && s in SpansOf(g, document);
        assert g in fragments && OwnSpans(g, document) && SpansOf(g, document) != [];
      }
      LastBlock(earlier, own, f.id, before);
      assert (earlier + own)[k] == own[|own| - 1];
    } else {
      k := GreatestIsLast(front, f, document, before);
      var i :| 0 <= i < |front| && front[i] == f;
      assert fragments[i].id != last.id;
      assert SpansOf(f, document)[|SpansOf(f, document)| - 1] in SpansOf(f, document) && OwnSpans(f, document);
      forall s | s in own ensures before(s.fragmentId, f.id) { assert own != []; }
      SmallerBlock(earlier, own, k, f.id, before);
    }
  }

  // A block of spans of one fragment that is not before any other ends with the last maximal one.
  lemma LastBlock(earlier: seq<Resolved>, own: seq<Resolved>, id: string, before: (string, string) -> bool)
    requires TotalOrder(before) && own != []
    requires forall s :: s in own ==> s.fragmentId == id
    requires forall s :: s in earlier ==> s.fragmentId == id || before(s.fragmentId, id)
    ensures LastOfMaximal(earlier + own, |earlier| + |own| - 1, before)
  {
    var all, k := earlier + own, |earlier| + |own| - 1;
    assert own[|own| - 1] in own;
    forall i | 0 <= i < |all| ensures !before(all[k].fragmentId, all[i].fragmentId) {
      if i < |earlier| {
        assert earlier[i] in earlier;
        OrderFacts(earlier[i].fragmentId, id, id, before);
      } else {
        assert own[i - |earlier|] in own;
      }
    }
  }

  // Spans of a smaller fragment behind change nothing.
  lemma SmallerBlock(earlier: seq<Resolved>, own: seq<Resolved>, k: nat, id: string, before: (string, string) -> bool)
    requires TotalOrder(before) && LastOfMaximal(earlier, k, before) && earlier[k].fragmentId == id
    requires forall s :: s in own ==> before(s.fragmentId, id)
    ensures LastOfMaximal(earlier + own, k, before) && k < |earlier|
  {
    var all := earlier + own;
    forall i | |earlier| <= i < |all| ensures before(all[i].fragmentId, id) && !before(id, all[i].fragmentId) {
      assert own[i - |earlier|] in own;
      OrderFacts(all[i].fragmentId, id, id, before);
    }
  }

  // The result depends on the set of issued fragments and not on the order in which they were issued.
  lemma IssueOrderIrrelevant(
      fragments: seq<Fragment>, reordered: seq<Fragment>, document: string, before: (string, string) -> bool)
    requires TotalOrder(before) && Issued(fragments, document) && Issued(reordered, document)
    requires forall f :: f in fragments <==> f in reordered
    ensures Resolve(fragments, document, before) == Resolve(reordered, document, before)
  {
    hide Blocks, Issued, TotalOrder, AllSpans, Choice, Greatest;
    var s, t := AllSpans(fragments, document), AllSpans(reordered, document);
    SameSpans(fragments, reordered, document);
    assert (exists f :: f in fragments && Blocks(f, document)) <==> exists f :: f in reordered && Blocks(f, document);
    if s != [] {
      var f := GreatestExists(fragments, document, before);
      GreatestReordered(fragments, reordered, f, document, before);
      ChoiceIsGreatest(fragments, f, document, before);
      ChoiceIsGreatest(reordered, f, document, before);
      SameKeys(s, t);
    }
  }

  lemma SameSpans(fragments: seq<Fragment>, reordered: seq<Fragment>, document: string)
    requires forall f :: f in fragments <==> f in reordered
    ensures forall s :: s in AllSpans(fragments, document) <==> s in AllSpans(reordered, document)
    ensures AllSpans(fragments, document) == [] <==> AllSpans(reordered, document) == []
    ensures AllSpans(fragments, document) == [] ==> AllSpans(reordered, document) == AllSpans(fragments, document)
  {
    hide SpansOf, AllSpans;
    SpansFromFragments(fragments, document);
    SpansFromFragments(reordered, document);
    var s, t := AllSpans(fragments, document), AllSpans(reordered, document);
    assert forall x :: x in s <==> x in t;
    if s != [] { assert s[0] in t; }
    if t != [] { assert t[0] in s; }
  }

  lemma GreatestReordered(
      fragments: seq<Fragment>, reordered: seq<Fragment>, f: Fragment, document: string, before: (string, string) -> bool)
    requires Greatest(fragments, f, document, before) && forall g :: g in fragments <==> g in reordered
    ensures Greatest(reordered, f, document, before)
  {
    hide SpansOf;
  }

  lemma SameKeys(s: seq<Resolved>, t: seq<Resolved>)
    requires s != [] && t != [] && forall x :: x in s <==> x in t
    ensures OneKey(s) <==> OneKey(t)
  {
    assert s[0] in t && t[0] in s;
  }

  // With one key the choice is the last span of the greatest fragment.
  lemma ChoiceIsGreatest(fragments: seq<Fragment>, f: Fragment, document: string, before: (string, string) -> bool)
    requires TotalOrder(before) && Issued(fragments, document) && Greatest(fragments, f, document, before)
    ensures
      var s := AllSpans(fragments, document);
      && SpansOf(f, document) != []
      && Choice(s, before) == if OneKey(s) then Some(SpansOf(f, document)[|SpansOf(f, document)| - 1]) else None
  {
    hide TotalOrder, Issued, AllSpans, SpansOf, LastOfMaximal, OneKey, Sort;
    var s := AllSpans(fragments, document);
    var k := GreatestIsLast(fragments, f, document, before);
    SortEnds(s, k, before);
    SortMembers(s, ById(before));
    NotEmptyKeys(s);
  }

  lemma NotEmptyKeys(s: seq<Resolved>)
    ensures OneKey(s) ==> s != []
  {
  }

  // A span is returned exactly when nothing blocks, there is an occurrence, and all occurrences name one physical span.
  lemma ResolvedExactly(fragments: seq<Fragment>, document: string, before: (string, string) -> bool)
    ensures
      var r := Resolve(fragments, document, before);
      && (r.Some? <==>
          && (forall f :: f in fragments ==> !Blocks(f, document))
          && (exists s :: Occurs(fragments, document, s))
          && forall s, u :: Occurs(fragments, document, s) && Occurs(fragments, document, u) ==> s.key == u.key)
      && (r.Some? ==> forall s :: Occurs(fragments, document, s) ==> s.key == r.value.key)
  {
    hide Blocks, AllSpans, Sort, Occurs;
    var spans := AllSpans(fragments, document);
    SpansFromFragments(fragments, document);
    SortMembers(spans, ById(before));
    if spans != [] { assert spans[0] in spans; }
    if OneKey(spans) {
      var sorted := Sort(spans, ById(before));
      assert sorted[|sorted| - 1] in spans;
    }
  }
}
