// What a discovered ledger guarantees: every short span of every page has exactly one candidate that may own it.
module LedgerProperties {
  import opened Sorting
  import opened Ownership
  import opened SubmissionLedger

  // A document digest identifies the pages.
  ghost predicate Consistent(inputs: seq<Document>) {
    forall d, e :: d in inputs && e in inputs && d.sha == e.sha ==> d.pages == e.pages
  }

  ghost predicate OriginOf(rules: Rules, c: Candidate, d: Document, p: Page, core: Core) {
    p in d.pages && core in Cores(|p.text|) && c == CandidateOf(rules, d, p, core)
  }

  lemma DocumentsAreInputs(rules: Rules, inputs: seq<Document>)
    ensures forall d :: d in Documents(rules, inputs) ==> d in inputs
  {
    SortMembers(inputs, rules.documentBefore);
    LastPerKeyMembers(Sort(inputs, rules.documentBefore), DocumentKey);
  }

  lemma {:induction false} DocumentCandidateOrigin(rules: Rules, d: Document, pages: seq<Page>, c: Candidate)
    requires c in DocumentCandidates(rules, d, pages)
    ensures exists p, core :: p in pages && core in Cores(|p.text|) && c == CandidateOf(rules, d, p, core)
  {
    var p := pages[|pages| - 1];
    if c in PageCandidates(rules, d, p) {
      var k :| 0 <= k < |Cores(|p.text|)| && c == PageCandidates(rules, d, p)[k];
      assert Cores(|p.text|)[k] in Cores(|p.text|);
    } else {
      DocumentCandidateOrigin(rules, d, pages[..|pages| - 1], c);
    }
  }

  lemma {:induction false} AllCandidatesOrigin(rules: Rules, documents: seq<Document>, c: Candidate)
    requires c in AllCandidates(rules, documents)
    ensures exists d, p, core :: d in documents && OriginOf(rules, c, d, p, core)
  {
    var d := documents[|documents| - 1];
    if c in DocumentCandidates(rules, d, OrderedPages(rules, d)) {
      DocumentCandidateOrigin(rules, d, OrderedPages(rules, d), c);
      SortMembers(d.pages, PageBefore(rules));
      var p, core :| p in d.pages && core in Cores(|p.text|) && c == CandidateOf(rules, d, p, core);
      assert OriginOf(rules, c, d, p, core);
    } else {
      AllCandidatesOrigin(rules, documents[..|documents| - 1], c);
    }
  }

  lemma CandidateOrigin(rules: Rules, inputs: seq<Document>, c: Candidate)
    requires c in Discovered(rules, inputs).candidates
    ensures exists d, p, core :: d in Documents(rules, inputs) && OriginOf(rules, c, d, p, core)
  {
    var all := AllCandidates(rules, Documents(rules, inputs));
    SortMembers(LastPerKey(all, IdOf), rules.candidateBefore);
    LastPerKeyMembers(all, IdOf);
    AllCandidatesOrigin(rules, Documents(rules, inputs), c);
  }

  lemma IdsUnique(rules: Rules, inputs: seq<Document>, a: Candidate, b: Candidate)
    requires a in Discovered(rules, inputs).candidates && b in Discovered(rules, inputs).candidates
    requires a.id == b.id
    ensures a == b
  {
    hide AllCandidates, CapacityExceeded, MetadataComplete, ExpectedPages, CoveredPages, LastPerKey, Documents;
    var all := AllCandidates(rules, Documents(rules, inputs));
    SortMembers(LastPerKey(all, IdOf), rules.candidateBefore);
    LastPerKeyUnique(all, IdOf);
  }

  // Complete page numbering leaves one page for each number.
  lemma SamePage(rules: Rules, d: Document, p: Page, q: Page)
    requires PagesComplete(rules, d)
    requires p in d.pages && q in d.pages && p.number == q.number
    ensures p == q
  {
    hide Sort;
    var pages := OrderedPages(rules, d);
    SortMembers(d.pages, PageBefore(rules));
    var i :| 0 <= i < |pages| && pages[i] == p;
    var j :| 0 <= j < |pages| && pages[j] == q;
    assert pages[i].number == i + 1 && pages[j].number == j + 1;
  }

  // Two candidates of one page that own the same span are one candidate, even when a package lists the same document
  // twice in different roles.
  lemma OneCandidate(rules: Rules, inputs: seq<Document>, a: Candidate, b: Candidate, start: int, end: int)
    requires Consistent(inputs) && Discovered(rules, inputs).metadataComplete
    requires a in Discovered(rules, inputs).candidates && b in Discovered(rules, inputs).candidates
    requires a.document == b.document && a.page == b.page
    requires Owns(a.core, start, end) && Owns(b.core, start, end)
    ensures a == b
  {
    hide Discovered, AllCandidates, LastPerKey, OrderedPages, PagesComplete, Documents, Owns, Cores, AmendmentsNumbered;
    var documents := Documents(rules, inputs);
    DocumentsAreInputs(rules, inputs);
    CandidateOrigin(rules, inputs, a);
    CandidateOrigin(rules, inputs, b);
    var d, p, core :| d in documents && OriginOf(rules, a, d, p, core);
    var e, q, core' :| e in documents && OriginOf(rules, b, e, q, core');
    MetadataGivesPages(rules, inputs, d);
    SamePage(rules, d, p, q);
    OwnerIsUnique(|p.text|, core, core', start, end);
    IdsUnique(rules, inputs, a, b);
  }

  lemma MetadataGivesPages(rules: Rules, inputs: seq<Document>, d: Document)
    requires Discovered(rules, inputs).metadataComplete
    requires d in Documents(rules, inputs)
    ensures PagesComplete(rules, d)
  {
  }

  lemma {:induction false} PageIsCandidate(rules: Rules, d: Document, pages: seq<Page>, p: Page, k: nat)
    requires p in pages && k < |Cores(|p.text|)|
    ensures CandidateOf(rules, d, p, Cores(|p.text|)[k]) in DocumentCandidates(rules, d, pages)
  {
    var last := pages[|pages| - 1];
    if p == last {
      assert PageCandidates(rules, d, p)[k] in PageCandidates(rules, d, p);
    } else {
      PageIsCandidate(rules, d, pages[..|pages| - 1], p, k);
    }
  }

  lemma {:induction false} CoreIsCandidate(rules: Rules, documents: seq<Document>, d: Document, p: Page, k: nat)
    requires d in documents && p in d.pages && k < |Cores(|p.text|)|
    ensures CandidateOf(rules, d, p, Cores(|p.text|)[k]) in AllCandidates(rules, documents)
  {
    var last := documents[|documents| - 1];
    if d == last {
      SortMembers(d.pages, PageBefore(rules));
      PageIsCandidate(rules, d, OrderedPages(rules, d), p, k);
    } else {
      CoreIsCandidate(rules, documents[..|documents| - 1], d, p, k);
    }
  }

  lemma {:induction false} LastPerKeyKeeps<T(!new), K>(items: seq<T>, key: T -> K, x: T)
    requires x in items
    ensures exists y :: y in LastPerKey(items, key) && key(y) == key(x)
  {
    var rest := LastPerKey(items[1..], key);
    if x in items[1..] {
      LastPerKeyKeeps(items[1..], key, x);
    } else if HasKey(rest, key, key(x)) {
      var i :| 0 <= i < |rest| && key(rest[i]) == key(x);
      assert rest[i] in rest;
    } else {
      assert x in LastPerKey(items, key);
    }
  }

  ghost predicate Reads(c: Candidate, d: Document, p: Page, start: nat, end: nat) {
    && c.document == d.sha && c.page == p.number && c.pageText == p.text
    && Owns(c.core, start, end)
    && Holds(c.core, start, end)
    && c.core.contextStart <= c.core.contextEnd <= |p.text|
    && c.window == p.text[c.core.contextStart..c.core.contextEnd]
  }

  // Some candidate of the ledger owns every span of a page and, up to 501 units, has all of it in its window.
  lemma SomeCandidate(rules: Rules, inputs: seq<Document>, d: Document, p: Page, start: nat, end: nat)
    requires d in Documents(rules, inputs) && p in d.pages
    requires start < end <= |p.text| && end - start <= 501
    ensures exists c :: c in Discovered(rules, inputs).candidates && Reads(c, d, p, start, end)
  {
    OneOwner(|p.text|, start, end);
    var k :| 0 <= k < |Cores(|p.text|)| && Owns(Cores(|p.text|)[k], start, end);
    OwnerReadsSpan(|p.text|, start, end - start);
    CoreIsCandidate(rules, Documents(rules, inputs), d, p, k);
    var owner := CandidateOf(rules, d, p, Cores(|p.text|)[k]);
    var c := SurvivorOf(rules, inputs, owner);
    CandidateOrigin(rules, inputs, c);
    CoreWithinPage(|p.text|, c.core);
    SurvivorReads(rules, inputs, c, d, p, start, end, k);
  }

  lemma SurvivorOf(rules: Rules, inputs: seq<Document>, owner: Candidate) returns (c: Candidate)
    requires owner in AllCandidates(rules, Documents(rules, inputs))
    ensures c in Discovered(rules, inputs).candidates && c.id == owner.id
  {
    hide AllCandidates, CapacityExceeded, MetadataComplete, ExpectedPages, CoveredPages, LastPerKey, Documents;
    var all := AllCandidates(rules, Documents(rules, inputs));
    LastPerKeyKeeps(all, IdOf, owner);
    c :| c in LastPerKey(all, IdOf) && IdOf(c) == IdOf(owner);
    SortMembers(LastPerKey(all, IdOf), rules.candidateBefore);
  }

  lemma SurvivorReads(rules: Rules, inputs: seq<Document>, c: Candidate, d: Document, p: Page, start: nat, end: nat, k: nat)
    requires c in Discovered(rules, inputs).candidates
    requires k < |Cores(|p.text|)| && c.id == CandidateOf(rules, d, p, Cores(|p.text|)[k]).id
    requires Owns(Cores(|p.text|)[k], start, end) && Holds(Cores(|p.text|)[k], start, end)
    ensures Reads(c, d, p, start, end)
  {
    hide Discovered, Documents, Owns, Holds;
    CandidateOrigin(rules, inputs, c);
    var e, q, core :| e in Documents(rules, inputs) && OriginOf(rules, c, e, q, core);
    CoreWithinPage(|q.text|, core);
  }

  // With complete metadata every expected page is counted, so the page-coverage check cannot fail on its own.
  lemma MetadataCoversPages(rules: Rules, inputs: seq<Document>)
    requires Discovered(rules, inputs).metadataComplete
    ensures Discovered(rules, inputs).coveredPages == Discovered(rules, inputs).expectedPages
  {
    CoverageAddsUp(rules, Documents(rules, inputs));
  }

  lemma {:induction false} CoverageAddsUp(rules: Rules, documents: seq<Document>)
    requires forall d :: d in documents ==> PagesComplete(rules, d)
    ensures CoveredPages(rules, documents) == ExpectedPages(documents)
  {
    if documents != [] {
      var d := documents[|documents| - 1];
      CoverageAddsUp(rules, documents[..|documents| - 1]);
      assert d in documents;
      CountInOrder(d, OrderedPages(rules, d));
    }
  }

  lemma {:induction false} CountInOrder(d: Document, pages: seq<Page>)
    requires |pages| <= d.pagesTotal
    requires forall i :: 0 <= i < |pages| ==> pages[i].number == i + 1
    ensures forall n :: n in CountedPages(d, pages) <==> 1 <= n <= |pages|
    ensures |CountedPages(d, pages)| == |pages|
  {
    if pages != [] {
      CountInOrder(d, pages[..|pages| - 1]);
    }
  }

  // A lexical mention of up to 501 units never exhausts the capacity through its position.
  lemma ShortMentionsCovered(rules: Rules, p: Page)
    requires forall m :: m in rules.mentions(p.text) ==> 0 <= m.start < m.end <= |p.text| && m.end - m.start <= 501
    ensures MentionsCovered(rules, p)
  {
    forall m | m in rules.mentions(p.text) ensures MentionCovered(Cores(|p.text|), m) {
      OneOwner(|p.text|, m.start, m.end);
      OwnerReadsSpan(|p.text|, m.start, m.end - m.start);
      var k :| 0 <= k < |Cores(|p.text|)| && Owns(Cores(|p.text|)[k], m.start, m.end);
    }
  }
}
