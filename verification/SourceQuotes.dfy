// Resolving a quote against every fragment of a source map (`resolveUniqueIssuedSourceQuote`).
module SourceQuotes {
  import opened Sorting
  import opened Texts
  import opened Alignment
  import opened QuoteSearch
  import opened IssuedQuotes
  import opened SpanResolution

  // A `Map` of fragments has one for each identifier.
  ghost predicate UniqueIds(fragments: seq<SourceFragment>) {
    forall i, j :: 0 <= i < j < |fragments| ==> fragments[i].id != fragments[j].id
  }

  lemma {:induction false} FoundById(fragments: seq<SourceFragment>, i: nat)
    requires UniqueIds(fragments) && i < |fragments|
    ensures FindFragment(fragments, fragments[i].id) == Some(fragments[i])
  {
    if i > 0 { FoundById(fragments[1..], i - 1); }
  }

  // ---- A fragment as the choice among occurrences sees it ----

  function Resolutions(
      m: SourceMap, documents: seq<IndexedDocument>, f: SourceFragment, selectors: seq<Selector>): seq<Option<Resolved>>
  {
    seq(|selectors|, k requires 0 <= k < |selectors| => ResolveIn(m, documents, f, selectors[k]))
  }

  ghost function View(m: SourceMap, documents: seq<IndexedDocument>, quote: Text, f: SourceFragment): Fragment {
    var found := Selectors(f.text, quote);
    Fragment(f.id, f.document, Intact(m, f), if found == None then None else Some(Resolutions(m, documents, f, found.value)))
  }

  ghost function Views(
      m: SourceMap, documents: seq<IndexedDocument>, quote: Text, fragments: seq<SourceFragment>): (views: seq<Fragment>)
    ensures |views| == |fragments| && forall i :: 0 <= i < |views| ==> views[i] == View(m, documents, quote, fragments[i])
  {
    seq(|fragments|, i requires 0 <= i < |fragments| => View(m, documents, quote, fragments[i]))
  }

  predicate Askable(quote: Text) { 1 <= |quote| <= 500 && WellFormed(quote) }

  ghost function ResolveQuote(
      m: SourceMap, documents: seq<IndexedDocument>, document: string, quote: Text,
      before: (string, string) -> bool): Option<Resolved>
  {
    if !Askable(quote) then None else IssuedQuotes.Resolve(Views(m, documents, quote, m.fragments), document, before)
  }

  // ---- The loops ----

  // The first `k` matches resolve in the document, to these spans.
  ghost predicate TakenUpTo(matches: seq<Option<Resolved>>, document: string, k: nat, resolved: seq<Resolved>) {
    && k <= |matches|
    && (forall l :: 0 <= l < k ==> matches[l].Some? && matches[l].value.document == document)
    && Spans(matches) == resolved + Spans(matches[k..])
  }

  lemma TakeStep(matches: seq<Option<Resolved>>, document: string, k: nat, resolved: seq<Resolved>)
    requires TakenUpTo(matches, document, k, resolved) && k < |matches|
    requires matches[k].Some? && matches[k].value.document == document
    ensures TakenUpTo(matches, document, k + 1, resolved + [matches[k].value])
  {
    assert matches[k..][1..] == matches[k + 1..];
  }

  lemma AllTaken(matches: seq<Option<Resolved>>, document: string, resolved: seq<Resolved>)
    requires TakenUpTo(matches, document, |matches|, resolved)
    ensures Spans(matches) == resolved
    ensures forall x :: x in matches ==> x.Some? && x.value.document == document
  {
    assert Spans(matches[|matches|..]) == [];
  }

  lemma NoneTaken(matches: seq<Option<Resolved>>, document: string)
    ensures TakenUpTo(matches, document, 0, [])
  {
    assert matches[0..] == matches;
  }

  method TakeMatches(m: SourceMap, documents: seq<IndexedDocument>, f: SourceFragment, selectors: seq<Selector>, document: string)
    returns (spans: Option<seq<Resolved>>)
    requires FindFragment(m.fragments, f.id) == Some(f)
    ensures
      var matches := Resolutions(m, documents, f, selectors);
      && (spans == None <==> exists x :: x in matches && (x == None || x.value.document != document))
      && (spans.Some? ==> spans.value == Spans(matches))
  {
    hide ResolveIn, TakenUpTo;
    ghost var matches := Resolutions(m, documents, f, selectors);
    var resolved: seq<Resolved> := [];
    NoneTaken(matches, document);
    for k := 0 to |selectors|
      invariant TakenUpTo(matches, document, k, resolved)
    {
      var match_ := ResolveSemanticSpan(m, documents, f.id, selectors[k]);
      assert match_ == matches[k] && matches[k] in matches;
      if match_ == None || match_.value.document != document { return None; }
      TakeStep(matches, document, k, resolved);
      resolved := resolved + [match_.value];
    }
    AllTaken(matches, document, resolved);
    spans := Some(resolved);
  }

  // No view of the first `n` fragments blocks, and these are their spans.
  ghost predicate CollectedUpTo(views: seq<Fragment>, document: string, n: nat, resolved: seq<Resolved>) {
    && n <= |views|
    && (forall j :: 0 <= j < n ==> !Blocks(views[j], document))
    && resolved == AllSpans(views[..n], document)
  }

  lemma CollectStep(views: seq<Fragment>, document: string, n: nat, resolved: seq<Resolved>)
    requires CollectedUpTo(views, document, n, resolved) && n < |views| && !Blocks(views[n], document)
    ensures CollectedUpTo(views, document, n + 1, resolved + SpansOf(views[n], document))
  {
    hide Blocks, SpansOf;
    assert views[..n + 1][..n] == views[..n];
  }

  lemma NotOurDocument(v: Fragment, document: string)
    requires v.document != document
    ensures !Blocks(v, document) && SpansOf(v, document) == []
  {
  }

  lemma AllCollected(views: seq<Fragment>, document: string, resolved: seq<Resolved>, before: (string, string) -> bool)
    requires CollectedUpTo(views, document, |views|, resolved)
    ensures IssuedQuotes.Resolve(views, document, before) == Choice(resolved, before)
  {
    hide Blocks, Choice, AllSpans;
    assert views[..|views|] == views;
  }

  lemma BlockedResult(views: seq<Fragment>, document: string, i: nat, before: (string, string) -> bool)
    requires i < |views| && Blocks(views[i], document)
    ensures IssuedQuotes.Resolve(views, document, before) == None
  {
    hide Blocks, Choice, AllSpans;
    assert views[i] in views;
  }

  method ResolveUniqueIssuedSourceQuote(
      m: SourceMap, documents: seq<IndexedDocument>, document: string, quote: Text, before: (string, string) -> bool)
    returns (r: Option<Resolved>)
    requires UniqueIds(m.fragments)
    ensures r == ResolveQuote(m, documents, document, quote, before)
  {
    hide Choice, WellFormed, UniqueIds, View, Blocks, SpansOf, CollectedUpTo, IssuedQuotes.Resolve, FindFragment;
    var wellFormed := IsWellFormedUtf16(quote);
    if |quote| < 1 || |quote| > QuoteSearch.MAX_QUOTE_UTF16 || !wellFormed { return None; }
    ghost var views := Views(m, documents, quote, m.fragments);
    var resolved: seq<Resolved> := [];
    NothingCollected(views, document);
    for i := 0 to |m.fragments|
      invariant CollectedUpTo(views, document, i, resolved)
    {
      var f := m.fragments[i];
      if f.document == document {
        FoundById(m.fragments, i);
        var spans := FragmentSpans(m, documents, f, document, quote);
        if spans == None {
          BlockedResult(views, document, i, before);
          return None;
        }
        CollectStep(views, document, i, resolved);
        resolved := resolved + spans.value;
      } else {
        ViewDocument(m, documents, quote, f);
        NotOurDocument(views[i], document);
        CollectStep(views, document, i, resolved);
        assert resolved + [] == resolved;
      }
    }
    AllCollected(views, document, resolved, before);
    r := ChooseSpan(resolved, before);
  }

  lemma NothingCollected(views: seq<Fragment>, document: string)
    ensures CollectedUpTo(views, document, 0, [])
  {
  }

  lemma ViewDocument(m: SourceMap, documents: seq<IndexedDocument>, quote: Text, f: SourceFragment)
    ensures View(m, documents, quote, f).document == f.document
  {
    hide Selectors, Resolutions, Intact;
  }

  method FragmentSpans(m: SourceMap, documents: seq<IndexedDocument>, f: SourceFragment, document: string, quote: Text)
    returns (spans: Option<seq<Resolved>>)
    requires f.document == document && FindFragment(m.fragments, f.id) == Some(f)
    ensures spans == None <==> Blocks(View(m, documents, quote, f), document)
    ensures spans.Some? ==> spans.value == SpansOf(View(m, documents, quote, f), document)
  {
    hide Spans, Selectors, Searched, Intact, Resolutions, FindFragment;
    if !Intact(m, f) { return None; }
    var selectors := QuoteSelectors(f.text, quote);
    SearchUnique(f.text, quote, selectors);
    if selectors == None { return None; }
    spans := TakeMatches(m, documents, f, selectors.value, document);
  }

  // ---- What is resolved ----

  // The quote occurs in the fragment at these raw positions, up to the length of white-space runs.
  ghost predicate Quoted(m: SourceMap, document: string, quote: Text, f: SourceFragment, i: nat, j: nat) {
    f in m.fragments && f.document == document && Match(f.text, quote, i, j)
  }

  ghost function SpanAt(m: SourceMap, documents: seq<IndexedDocument>, f: SourceFragment, i: nat, j: nat): Option<Resolved> {
    if i <= j then ResolveIn(m, documents, f, Selector(i, j - i)) else None
  }

  // Every fragment of the document is intact, and every occurrence of the quote in it may be used and has a span.
  ghost predicate Explained(m: SourceMap, documents: seq<IndexedDocument>, document: string, quote: Text) {
    forall f :: f in m.fragments && f.document == document ==> FragmentExplained(m, documents, quote, f)
  }

  ghost predicate FragmentExplained(m: SourceMap, documents: seq<IndexedDocument>, quote: Text, f: SourceFragment) {
    && Intact(m, f) && Trimmed(quote)
    && forall i: nat, j: nat :: Match(f.text, quote, i, j) ==> Usable(f.text, i, j) && SpanAt(m, documents, f, i, j).Some?
  }

  lemma ResolvedDocument(m: SourceMap, documents: seq<IndexedDocument>, f: SourceFragment, selector: Selector)
    ensures
      var r := ResolveIn(m, documents, f, selector);
      r.Some? ==> r.value.document == f.document && r.value.fragmentId == f.id
  {
    hide ResolveIn;
    if ResolveIn(m, documents, f, selector).Some? { ResolvedText(m, documents, f, selector); }
  }

  lemma ResolutionMembers(m: SourceMap, documents: seq<IndexedDocument>, f: SourceFragment, selectors: seq<Selector>)
    ensures forall x :: x in Resolutions(m, documents, f, selectors) <==>
              exists s :: s in selectors && x == ResolveIn(m, documents, f, s)
    ensures forall s :: s in selectors ==> ResolveIn(m, documents, f, s) in Resolutions(m, documents, f, selectors)
  {
    hide ResolveIn;
    var matches := Resolutions(m, documents, f, selectors);
    forall s | s in selectors ensures ResolveIn(m, documents, f, s) in matches {
      var k :| 0 <= k < |selectors| && selectors[k] == s;
      assert matches[k] == ResolveIn(m, documents, f, s);
    }
  }

  lemma {:induction false} SpansExact(matches: seq<Option<Resolved>>)
    ensures forall s :: s in Spans(matches) <==> Some(s) in matches
  {
    if matches != [] { SpansExact(matches[1..]); }
  }

  lemma BlocksExactly(m: SourceMap, documents: seq<IndexedDocument>, quote: Text, f: SourceFragment)
    ensures Blocks(View(m, documents, quote, f), f.document) <==> !FragmentExplained(m, documents, quote, f)
  {
    hide ResolveIn, Intact, Match, Usable, Trimmed, Selectors, Resolutions, FragmentExplained;
    ExplainedBySelectors(m, documents, quote, f);
    var found := Selectors(f.text, quote);
    if found.Some? {
      ResolutionMembers(m, documents, f, found.value);
      forall s ensures ResolveIn(m, documents, f, s).Some? ==> ResolveIn(m, documents, f, s).value.document == f.document {
        ResolvedDocument(m, documents, f, s);
      }
    }
  }

  lemma ExplainedBySelectors(m: SourceMap, documents: seq<IndexedDocument>, quote: Text, f: SourceFragment)
    ensures
      var found := Selectors(f.text, quote);
      FragmentExplained(m, documents, quote, f) <==>
      Intact(m, f) && found.Some? && forall s :: s in found.value ==> ResolveIn(m, documents, f, s).Some?
  {
    hide ResolveIn, Intact, Match, Usable, Trimmed, Selectors, SpanAt;
    GivesUpExactly(f.text, quote);
    var found := Selectors(f.text, quote);
    if found.Some? {
      forall i: nat, j: nat | Match(f.text, quote, i, j)
        ensures i <= j <= |f.text| && Usable(f.text, i, j) && Selector(i, j - i) in found.value
        ensures SpanAt(m, documents, f, i, j) == ResolveIn(m, documents, f, Selector(i, j - i))
      {
        MatchSpans(f.text, quote, i, j);
        SpanIs(m, documents, f, i, j);
      }
      forall s | s in found.value
        ensures Match(f.text, quote, s.start, s.start + s.length)
        ensures SpanAt(m, documents, f, s.start, s.start + s.length) == ResolveIn(m, documents, f, s)
      {
        SpanIs(m, documents, f, s.start, s.start + s.length);
      }
    }
  }

  lemma SpanIs(m: SourceMap, documents: seq<IndexedDocument>, f: SourceFragment, i: nat, j: nat)
    requires i <= j
    ensures SpanAt(m, documents, f, i, j) == ResolveIn(m, documents, f, Selector(i, j - i))
  {
    hide ResolveIn;
  }

  // The spans of a fragment that does not block are those of the occurrences in it.
  lemma SpansOfOccurrences(m: SourceMap, documents: seq<IndexedDocument>, quote: Text, f: SourceFragment, r: Resolved)
    requires FragmentExplained(m, documents, quote, f)
    ensures r in SpansOf(View(m, documents, quote, f), f.document) <==>
            exists i: nat, j: nat :: Match(f.text, quote, i, j) && SpanAt(m, documents, f, i, j) == Some(r)
  {
    hide ResolveIn, Intact, Match, Usable, Selectors, Resolutions;
    GivesUpExactly(f.text, quote);
    var found := Selectors(f.text, quote);
    SpansExact(Resolutions(m, documents, f, found.value));
    ResolutionMembers(m, documents, f, found.value);
    if r in SpansOf(View(m, documents, quote, f), f.document) {
      var s :| s in found.value && Some(r) == ResolveIn(m, documents, f, s);
      assert Match(f.text, quote, s.start, s.start + s.length) && SpanAt(m, documents, f, s.start, s.start + s.length) == Some(r);
    }
    if exists i: nat, j: nat :: Match(f.text, quote, i, j) && SpanAt(m, documents, f, i, j) == Some(r) {
      var i: nat, j: nat :| Match(f.text, quote, i, j) && SpanAt(m, documents, f, i, j) == Some(r);
      MatchSpans(f.text, quote, i, j);
      assert Selector(i, j - i) in found.value;
    }
  }

  lemma OccursExactly(m: SourceMap, documents: seq<IndexedDocument>, document: string, quote: Text, r: Resolved)
    requires Explained(m, documents, document, quote)
    ensures Occurs(Views(m, documents, quote, m.fragments), document, r) <==>
            exists f, i: nat, j: nat :: Quoted(m, document, quote, f, i, j) && SpanAt(m, documents, f, i, j) == Some(r)
  {
    hide Match, FragmentExplained, SpansOf, SpanAt, View;
    var views := Views(m, documents, quote, m.fragments);
    if Occurs(views, document, r) {
      var v :| v in views && r in SpansOf(v, document);
      var k :| 0 <= k < |views| && views[k] == v;
      OwnDocument(m, documents, quote, m.fragments[k], document, r);
      SpansOfOccurrences(m, documents, quote, m.fragments[k], r);
      var i: nat, j: nat :| Match(m.fragments[k].text, quote, i, j) && SpanAt(m, documents, m.fragments[k], i, j) == Some(r);
      assert Quoted(m, document, quote, m.fragments[k], i, j);
    }
    if exists f, i: nat, j: nat :: Quoted(m, document, quote, f, i, j) && SpanAt(m, documents, f, i, j) == Some(r) {
      var f, i: nat, j: nat :| Quoted(m, document, quote, f, i, j) && SpanAt(m, documents, f, i, j) == Some(r);
      SpansOfOccurrences(m, documents, quote, f, r);
      var k :| 0 <= k < |m.fragments| && m.fragments[k] == f;
      assert views[k] in views;
    }
  }

  lemma OwnDocument(m: SourceMap, documents: seq<IndexedDocument>, quote: Text, f: SourceFragment, document: string, r: Resolved)
    requires r in SpansOf(View(m, documents, quote, f), document)
    ensures f.document == document
  {
    hide Selectors, Resolutions, Spans;
  }

  lemma BlockedExactly(m: SourceMap, documents: seq<IndexedDocument>, document: string, quote: Text)
    ensures (forall v :: v in Views(m, documents, quote, m.fragments) ==> !Blocks(v, document)) <==>
            Explained(m, documents, document, quote)
  {
    hide FragmentExplained, View, Blocks;
    var views := Views(m, documents, quote, m.fragments);
    forall f | f in m.fragments
      ensures View(m, documents, quote, f) in views
      ensures Blocks(View(m, documents, quote, f), document) <==> f.document == document && !FragmentExplained(m, documents, quote, f)
    {
      var k :| 0 <= k < |m.fragments| && m.fragments[k] == f;
      assert views[k] in views;
      if f.document == document { BlocksExactly(m, documents, quote, f); } else { OtherDocument(m, documents, quote, f, document); }
    }
    forall v | v in views ensures exists f :: f in m.fragments && v == View(m, documents, quote, f) {
      var k :| 0 <= k < |views| && views[k] == v;
      assert m.fragments[k] in m.fragments;
    }
  }

  lemma OtherDocument(m: SourceMap, documents: seq<IndexedDocument>, quote: Text, f: SourceFragment, document: string)
    requires f.document != document
    ensures !Blocks(View(m, documents, quote, f), document)
  {
    hide Selectors, Resolutions;
  }

  // Two occurrences of the quote stand at one physical span.
  ghost predicate OneSpan(m: SourceMap, documents: seq<IndexedDocument>, document: string, quote: Text, key: PhysicalKey) {
    forall f, i: nat, j: nat :: Quoted(m, document, quote, f, i, j) ==>
      SpanAt(m, documents, f, i, j).Some? && SpanAt(m, documents, f, i, j).value.key == key
  }

  // A quote is resolved exactly when it is well formed and of 1 to 500 units, every issued fragment of the document is
  // intact, every occurrence in every one of them may be used and resolves, there is one, and all name one physical span.
  lemma QuoteResolvedExactly(
      m: SourceMap, documents: seq<IndexedDocument>, document: string, quote: Text, before: (string, string) -> bool)
    ensures
      var r := ResolveQuote(m, documents, document, quote, before);
      && (r.Some? <==>
          && Askable(quote)
          && Explained(m, documents, document, quote)
          && (exists f, i: nat, j: nat :: Quoted(m, document, quote, f, i, j))
          && exists key :: OneSpan(m, documents, document, quote, key))
      && (r.Some? ==> OneSpan(m, documents, document, quote, r.value.key))
  {
    hide Views, SpanAt, FragmentExplained, WellFormed, Match, Blocks, IssuedQuotes.Resolve, IssuedQuotes.Occurs, Quoted;
    var views := Views(m, documents, quote, m.fragments);
    var r := ResolveQuote(m, documents, document, quote, before);
    ResolvedExactly(views, document, before);
    BlockedExactly(m, documents, document, quote);
    if Askable(quote) && Explained(m, documents, document, quote) {
      forall f, i: nat, j: nat | Quoted(m, document, quote, f, i, j)
        ensures SpanAt(m, documents, f, i, j).Some? && Occurs(views, document, SpanAt(m, documents, f, i, j).value)
      {
        QuotedOccurs(m, documents, document, quote, f, i, j);
      }
      if r.Some? {
        var s :| Occurs(views, document, s);
        OccursExactly(m, documents, document, quote, s);
        assert OneSpan(m, documents, document, quote, r.value.key);
      } else {
        forall key, f, i: nat, j: nat | OneSpan(m, documents, document, quote, key) && Quoted(m, document, quote, f, i, j) ensures false {
          forall s | Occurs(views, document, s) ensures s.key == key { OccursExactly(m, documents, document, quote, s); }
        }
      }
    }
  }

  lemma QuotedOccurs(
      m: SourceMap, documents: seq<IndexedDocument>, document: string, quote: Text, f: SourceFragment, i: nat, j: nat)
    requires Explained(m, documents, document, quote) && Quoted(m, document, quote, f, i, j)
    ensures SpanAt(m, documents, f, i, j).Some?
    ensures Occurs(Views(m, documents, quote, m.fragments), document, SpanAt(m, documents, f, i, j).value)
  {
    hide SpanAt, FragmentExplained, Match, IssuedQuotes.Occurs;
    OccurrenceResolves(m, documents, quote, f, i, j);
    OccursExactly(m, documents, document, quote, SpanAt(m, documents, f, i, j).value);
  }

  lemma OccurrenceResolves(m: SourceMap, documents: seq<IndexedDocument>, quote: Text, f: SourceFragment, i: nat, j: nat)
    requires FragmentExplained(m, documents, quote, f) && Match(f.text, quote, i, j)
    ensures SpanAt(m, documents, f, i, j).Some?
  {
    hide Match, SpanAt, Intact, Trimmed;
  }

  // A quote that occurs in the window of a coverage unit is resolved to a range of its page that equals it up to the
  // length of white-space runs.
  lemma WindowQuoteText(
      m: SourceMap, documents: seq<IndexedDocument>, document: string, quote: Text, before: (string, string) -> bool,
      f: SourceFragment, i: nat, j: nat)
    requires ResolveQuote(m, documents, document, quote, before).Some?
    requires Quoted(m, document, quote, f, i, j) && f.provenance.Window?
    ensures
      var key := ResolveQuote(m, documents, document, quote, before).value.key;
      && key.start < key.end <= |key.pageText| && key.document == document
      && Collapse(key.pageText[key.start..key.end]) == Collapse(quote)
  {
    hide ResolveQuote, ResolveIn, Collapse, Explained;
    QuoteResolvedExactly(m, documents, document, quote, before);
    ResolvedText(m, documents, f, Selector(i, j - i));
  }

  // The result does not depend on the order in which the fragments were issued.
  lemma FragmentOrderIrrelevant(
      m: SourceMap, n: SourceMap, documents: seq<IndexedDocument>, document: string, quote: Text,
      before: (string, string) -> bool)
    requires TotalOrder(before) && UniqueIds(m.fragments) && UniqueIds(n.fragments)
    requires m.pages == n.pages && forall f :: f in m.fragments <==> f in n.fragments
    ensures ResolveQuote(m, documents, document, quote, before) == ResolveQuote(n, documents, document, quote, before)
  {
    hide TotalOrder, IssuedQuotes.Resolve, View, Issued;
    var s, t := Views(m, documents, quote, m.fragments), Views(n, documents, quote, n.fragments);
    ViewsIssued(m, documents, document, quote);
    ViewsIssued(n, documents, document, quote);
    forall f ensures View(m, documents, quote, f) == View(n, documents, quote, f) { SamePages(m, n, documents, quote, f); }
    forall v ensures v in s <==> v in t { ViewMember(m, documents, quote, v); ViewMember(n, documents, quote, v); }
    IssueOrderIrrelevant(s, t, document, before);
  }

  lemma ViewMember(m: SourceMap, documents: seq<IndexedDocument>, quote: Text, v: Fragment)
    ensures v in Views(m, documents, quote, m.fragments) <==> exists f :: f in m.fragments && v == View(m, documents, quote, f)
  {
    hide View;
    var views := Views(m, documents, quote, m.fragments);
    if v in views {
      var k :| 0 <= k < |views| && views[k] == v;
      assert m.fragments[k] in m.fragments;
    }
    if exists f :: f in m.fragments && v == View(m, documents, quote, f) {
      var f :| f in m.fragments && v == View(m, documents, quote, f);
      var k :| 0 <= k < |m.fragments| && m.fragments[k] == f;
      assert views[k] == v;
    }
  }

  lemma SamePages(m: SourceMap, n: SourceMap, documents: seq<IndexedDocument>, quote: Text, f: SourceFragment)
    requires m.pages == n.pages
    ensures View(m, documents, quote, f) == View(n, documents, quote, f)
  {
    hide Selectors, Resolutions;
    var found := Selectors(f.text, quote);
    if found.Some? {
      forall s ensures ResolveIn(m, documents, f, s) == ResolveIn(n, documents, f, s) { SamePagesResolve(m, n, documents, f, s); }
      SameResolutions(m, n, documents, f, found.value);
    }
  }

  lemma SameResolutions(
      m: SourceMap, n: SourceMap, documents: seq<IndexedDocument>, f: SourceFragment, selectors: seq<Selector>)
    requires forall s :: ResolveIn(m, documents, f, s) == ResolveIn(n, documents, f, s)
    ensures Resolutions(m, documents, f, selectors) == Resolutions(n, documents, f, selectors)
  {
    hide ResolveIn;
  }

  lemma SamePagesResolve(m: SourceMap, n: SourceMap, documents: seq<IndexedDocument>, f: SourceFragment, selector: Selector)
    requires m.pages == n.pages
    ensures ResolveIn(m, documents, f, selector) == ResolveIn(n, documents, f, selector)
  {
    hide Align, SelectedAt, Sites, Survivors, WellFormed, FindPage, DocumentPage, Straddles, ValuesAt, LeftContext, RightContext,
         ResolveWindow, ResolveConverted;
    var s, e := selector.start, selector.start + selector.length;
    if f.provenance.Window? && s < e <= |f.text| { SamePagesWindow(m, n, f, s, e); }
    SamePagesConverted(m, n, documents, f, s, e);
  }

  lemma SamePagesWindow(m: SourceMap, n: SourceMap, f: SourceFragment, s: nat, e: nat)
    requires m.pages == n.pages && f.provenance.Window? && s < e <= |f.text|
    ensures ResolveWindow(m, f, s, e) == ResolveWindow(n, f, s, e)
  {
    hide WellFormed, FindPage;
    assert PagesOf(m, f.document) == PagesOf(n, f.document);
  }

  lemma SamePagesConverted(m: SourceMap, n: SourceMap, documents: seq<IndexedDocument>, f: SourceFragment, s: nat, e: nat)
    requires m.pages == n.pages
    ensures ResolveConverted(m, documents, f, s, e) == ResolveConverted(n, documents, f, s, e)
  {
    hide Align, SelectedAt, Sites, Survivors, DocumentPage, Straddles, ValuesAt, LeftContext, RightContext;
    assert PagesOf(m, f.document) == PagesOf(n, f.document);
  }

  lemma ViewsIssued(m: SourceMap, documents: seq<IndexedDocument>, document: string, quote: Text)
    requires UniqueIds(m.fragments)
    ensures Issued(Views(m, documents, quote, m.fragments), document)
  {
    hide View, SpansOf;
    var views := Views(m, documents, quote, m.fragments);
    forall f ensures View(m, documents, quote, f).id == f.id && OwnSpans(View(m, documents, quote, f), document) {
      ViewOwns(m, documents, document, quote, f);
    }
  }

  lemma ViewOwns(m: SourceMap, documents: seq<IndexedDocument>, document: string, quote: Text, f: SourceFragment)
    ensures View(m, documents, quote, f).id == f.id && OwnSpans(View(m, documents, quote, f), document)
  {
    hide ResolveIn, Selectors, Intact, Resolutions;
    var found := Selectors(f.text, quote);
    if found.Some? {
      SpansExact(Resolutions(m, documents, f, found.value));
      ResolutionMembers(m, documents, f, found.value);
      forall s | s in found.value { ResolvedDocument(m, documents, f, s); }
    }
  }

  // Quotes are compared up to the Unicode white space, pages are aligned up to what `\s` matches: the two differ in the
  // next-line control and the byte order mark only.
  lemma TwoKindsOfSpace(u: Utf16)
    ensures WhiteSpace(u) <==> (White(u) && u != 0xFEFF) || u == 0x85
  {
  }
}
