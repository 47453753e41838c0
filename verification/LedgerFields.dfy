// What discovery puts into a ledger, on the fields of documents, pages and mentions.
module LedgerFields {
  import opened Sorting
  import opened Ownership
  import opened SubmissionLedger
  import opened LedgerProperties

  // ---- Candidates ----

  // The mention has its middle unit in the core that starts at `start`.
  ghost predicate MiddleIn(m: Mention, start: int, end: int) {
    m.start < m.end && start <= m.start + (m.end - m.start - 1) / 2 < end
  }

  // `c` is the `k`-th unit of the page: 2,700 units of text, read with 250 more on both sides, and the mentions that have
  // their middle there. A unit of an empty page takes no relation, any other one for each mention, at least one and at most
  // ten.
  ghost predicate UnitOf(rules: Rules, c: Candidate, d: Document, p: Page, k: nat) {
    var length := |p.text|;
    && (k == 0 || 2_700 * k < length)
    && c.document == d.sha && c.role == d.role && c.amendment == d.amendment && c.page == p.number && c.pageText == p.text
    && c.core.coreStart == 2_700 * k
    && c.core.coreEnd == (if 2_700 * (k + 1) <= length then 2_700 * (k + 1) else length)
    && c.core.contextStart == (if k == 0 then 0 else 2_700 * k - 250)
    && c.core.contextEnd == (if c.core.coreEnd + 250 <= length then c.core.coreEnd + 250 else length)
    && c.core.contextStart <= c.core.contextEnd <= length
    && c.window == p.text[c.core.contextStart..c.core.contextEnd]
    && c.mentions == Filter(rules.mentions(p.text), (m: Mention) => MiddleIn(m, c.core.coreStart, c.core.coreEnd))
    && c.capacity == (if p.text == [] then 0 else if |c.mentions| == 0 then 1 else if |c.mentions| <= 10 then |c.mentions| else 10)
    && c.id == CandidateId(c.document, c.page, c.pageText, c.core, c.mentions)
  }

  lemma UnitExactly(rules: Rules, d: Document, p: Page, core: Core, k: nat)
    requires k < CoreCount(|p.text|) && core == CoreAt(|p.text|, k) && core in Cores(|p.text|)
    ensures UnitOf(rules, CandidateOf(rules, d, p, core), d, p, k)
  {
    var c := CandidateOf(rules, d, p, core);
    CoreWithinPage(|p.text|, core);
    FilterCongruence(rules.mentions(p.text), (m: Mention) => Owns(core, m.start, m.end),
                     (m: Mention) => MiddleIn(m, core.coreStart, core.coreEnd));
  }

  // Every candidate is a unit of a page of the package.
  lemma CandidatesAreUnits(rules: Rules, inputs: seq<Document>, c: Candidate)
    requires c in Discovered(rules, inputs).candidates
    ensures exists d, p, k :: d in Documents(rules, inputs) && p in d.pages && UnitOf(rules, c, d, p, k)
  {
    hide Discovered, Documents, CandidateOf, UnitOf;
    CandidateOrigin(rules, inputs, c);
    var d, p, core :| d in Documents(rules, inputs) && OriginOf(rules, c, d, p, core);
    var k :| 0 <= k < |Cores(|p.text|)| && Cores(|p.text|)[k] == core;
    UnitExactly(rules, d, p, core, k);
  }

  // And every unit of a page has a candidate with its identity.
  lemma UnitsAreCandidates(rules: Rules, inputs: seq<Document>, d: Document, p: Page, k: nat)
    requires d in Documents(rules, inputs) && p in d.pages && (k == 0 || 2_700 * k < |p.text|)
    ensures exists c, unit :: c in Discovered(rules, inputs).candidates && UnitOf(rules, unit, d, p, k) && c.id == unit.id
  {
    hide Discovered, Documents, CandidateOf, UnitOf;
    assert k < CoreCount(|p.text|);
    CoreIsCandidate(rules, Documents(rules, inputs), d, p, k);
    var unit := CandidateOf(rules, d, p, Cores(|p.text|)[k]);
    UnitExactly(rules, d, p, Cores(|p.text|)[k], k);
    var c := SurvivorOf(rules, inputs, unit);
  }

  // ---- Documents ----

  ghost predicate SameDocument(d: Document, e: Document) {
    && d.role == e.role && d.sha == e.sha
    && (d.amendment == e.amendment || (d.amendment in {None, Some("")} && e.amendment in {None, Some("")}))
  }

  // Of documents that agree in role, amendment number and digest one stays.
  lemma DocumentsExactly(rules: Rules, inputs: seq<Document>)
    ensures forall d :: d in Documents(rules, inputs) ==> d in inputs
    ensures forall d :: d in inputs ==> exists e :: e in Documents(rules, inputs) && SameDocument(d, e)
    ensures forall d, e :: d in Documents(rules, inputs) && e in Documents(rules, inputs) && SameDocument(d, e) ==> d == e
  {
    hide LastPerKey, Sort, SameDocument;
    var sorted := Sort(inputs, rules.documentBefore);
    DocumentsAreInputs(rules, inputs);
    SortMembers(inputs, rules.documentBefore);
    forall d, e ensures SameDocument(d, e) <==> DocumentKey(d) == DocumentKey(e) { KeyExactly(d, e); }
    LastPerKeyUnique(sorted, DocumentKey);
    forall d | d in inputs ensures exists e :: e in Documents(rules, inputs) && SameDocument(d, e) {
      LastPerKeyKeeps(sorted, DocumentKey, d);
      var e :| e in LastPerKey(sorted, DocumentKey) && DocumentKey(e) == DocumentKey(d);
    }
  }

  lemma KeyExactly(d: Document, e: Document)
    ensures SameDocument(d, e) <==> DocumentKey(d) == DocumentKey(e)
  {
  }

  // ---- Pages and amendment numbers ----

  // The pages are numbered 1, 2, 3, ... up to the total, in whatever order they are listed.
  ghost predicate PagesNumbered(d: Document) {
    && |d.pages| == d.pagesTotal
    && (forall p :: p in d.pages ==> 1 <= p.number <= d.pagesTotal)
    && forall i, j :: 0 <= i < j < |d.pages| ==> d.pages[i].number != d.pages[j].number
  }

  // Strictly increasing numbers from 1 to their count are all numbers up to it.
  lemma {:induction false} NoGaps(ns: seq<int>, i: nat)
    requires i < |ns| && (forall k :: 0 <= k < |ns| ==> 1 <= ns[k] <= |ns|) && forall j, k :: 0 <= j < k < |ns| ==> ns[j] < ns[k]
    ensures ns[i] == i + 1
  {
    AtLeast(ns, i);
    AtMost(ns, i);
  }

  lemma {:induction false} AtLeast(ns: seq<int>, i: nat)
    requires i < |ns| && (forall k :: 0 <= k < |ns| ==> 1 <= ns[k]) && forall j, k :: 0 <= j < k < |ns| ==> ns[j] < ns[k]
    ensures ns[i] >= i + 1
  {
    if i > 0 { AtLeast(ns, i - 1); }
  }

  lemma {:induction false} AtMost(ns: seq<int>, i: nat)
    requires i < |ns| && (forall k :: 0 <= k < |ns| ==> ns[k] <= |ns|) && forall j, k :: 0 <= j < k < |ns| ==> ns[j] < ns[k]
    ensures ns[i] <= i + 1
    decreases |ns| - i
  {
    if i < |ns| - 1 { AtMost(ns, i + 1); }
  }

  lemma PagesExactly(rules: Rules, d: Document)
    requires forall t :: !rules.textBefore(t, t)
    ensures PagesComplete(rules, d) <==> PagesNumbered(d)
  {
    hide Sort;
    var pages := OrderedPages(rules, d);
    SortMembers(d.pages, PageBefore(rules));
    if PagesNumbered(d) {
      SortedByNumber(rules, d);
      var ns := seq(|pages|, i requires 0 <= i < |pages| => pages[i].number);
      forall i | 0 <= i < |pages| ensures pages[i] in d.pages { assert pages[i] in pages; }
      forall i | 0 <= i < |pages| ensures pages[i].number == i + 1 { NoGaps(ns, i); assert ns[i] == pages[i].number; }
    }
    if PagesComplete(rules, d) {
      forall p | p in d.pages ensures 1 <= p.number <= d.pagesTotal {
        assert p in pages;
        var i :| 0 <= i < |pages| && pages[i] == p;
      }
      forall i, j | 0 <= i < j < |pages| ensures pages[i] != pages[j] { assert pages[i].number != pages[j].number; }
      DistinctPages(d.pages, pages);
      forall i, j | 0 <= i < j < |d.pages| ensures d.pages[i].number != d.pages[j].number {
        assert d.pages[i] in d.pages && d.pages[j] in d.pages && d.pages[i] != d.pages[j];
        if d.pages[i].number == d.pages[j].number { SamePage(rules, d, d.pages[i], d.pages[j]); }
      }
    }
  }

  lemma DistinctPages(a: seq<Page>, b: seq<Page>)
    requires multiset(a) == multiset(b) && Distinct(b)
    ensures Distinct(a)
  {
    DistinctMultiplicity(a);
    DistinctMultiplicity(b);
  }

  lemma SortedByNumber(rules: Rules, d: Document)
    requires PagesNumbered(d) && forall t :: !rules.textBefore(t, t)
    ensures
      var pages := OrderedPages(rules, d);
      forall i, j :: 0 <= i < j < |pages| ==> pages[i].number < pages[j].number
  {
    var less := PageBefore(rules);
    forall p, q | p in d.pages && q in d.pages && p != q ensures p.number != q.number {
      var i :| 0 <= i < |d.pages| && d.pages[i] == p;
      var j :| 0 <= j < |d.pages| && d.pages[j] == q;
    }
    forall i, j | 0 <= i < j < |d.pages| ensures d.pages[i] != d.pages[j] { }
    SortAscending(d.pages, less);
    SortMembers(d.pages, less);
    var pages := OrderedPages(rules, d);
    forall i, j | 0 <= i < j < |pages| ensures pages[i].number < pages[j].number {
      assert less(pages[i], pages[j]);
      assert pages[i] in pages && pages[j] in pages && pages[i] != pages[j];
    }
  }

  // The number of the amendment `d` is `n`.
  ghost predicate AmendmentIs(rules: Rules, d: Document, n: nat) {
    rules.numeral(match d.amendment case None => "" case Some(text) => text) == Some(n)
  }

  ghost function AmendmentsOf(documents: seq<Document>): seq<Document> {
    Filter(documents, (d: Document) => d.role != Base)
  }

  // One base document, without an amendment number, and amendments with the numbers 1, 2, 3, ... in whatever order.
  ghost predicate PackageNumbered(rules: Rules, documents: seq<Document>) {
    && (exists i ::
          && 0 <= i < |documents| && documents[i].role == Base && documents[i].amendment == None
          && forall j :: 0 <= j < |documents| && documents[j].role == Base ==> j == i)
    && (forall d :: d in AmendmentsOf(documents) ==> NumberedWithin(rules, d, |AmendmentsOf(documents)|))
    && NumbersDiffer(rules, AmendmentsOf(documents))
  }

  ghost predicate NumberedWithin(rules: Rules, d: Document, count: nat) {
    exists n: nat :: AmendmentIs(rules, d, n) && 1 <= n <= count
  }

  ghost predicate NumbersDiffer(rules: Rules, amendments: seq<Document>) {
    forall i, j, n: nat :: 0 <= i < j < |amendments| ==> !(AmendmentIs(rules, amendments[i], n) && AmendmentIs(rules, amendments[j], n))
  }

  lemma OneBase(documents: seq<Document>)
    ensures |Filter(documents, (d: Document) => d.role == Base)| == 1 &&
            Filter(documents, (d: Document) => d.role == Base)[0].amendment == None <==>
            exists i ::
              && 0 <= i < |documents| && documents[i].role == Base && documents[i].amendment == None
              && forall j :: 0 <= j < |documents| && documents[j].role == Base ==> j == i
  {
    var p := (d: Document) => d.role == Base;
    var bases := Filter(documents, p);
    if i :| 0 <= i < |documents| && documents[i].role == Base && documents[i].amendment == None &&
            forall j :: 0 <= j < |documents| && documents[j].role == Base ==> j == i
    {
      FilterSole(documents, p, i);
    }
    if |bases| == 1 && bases[0].amendment == None {
      assert bases[0] in bases;
      var i :| 0 <= i < |documents| && documents[i] == bases[0];
      forall j | 0 <= j < |documents| && documents[j].role == Base ensures j == i {
        if j < i { FilterTwo(documents, p, j, i); }
        if i < j { FilterTwo(documents, p, i, j); }
      }
    }
  }

  ghost predicate HasNumber(rules: Rules, d: Document) {
    exists n: nat :: AmendmentIs(rules, d, n)
  }

  // Whether every document of the list has a numeral.
  lemma {:induction false} NumeralsExactly(rules: Rules, documents: seq<Document>)
    ensures |Numerals(rules, documents)| <= |documents|
    ensures |Numerals(rules, documents)| == |documents| <==> forall d :: d in documents ==> HasNumber(rules, d)
    ensures |Numerals(rules, documents)| == |documents| ==>
              forall i :: 0 <= i < |documents| ==> AmendmentIs(rules, documents[i], Numerals(rules, documents)[i])
  {
    if documents != [] {
      var d := documents[0];
      NumeralsExactly(rules, documents[1..]);
      var numeral := rules.numeral(if d.amendment.Some? then d.amendment.value else "");
      assert numeral.Some? ==> AmendmentIs(rules, d, numeral.value);
      assert HasNumber(rules, d) <==> numeral.Some?;
      assert d in documents && forall x :: x in documents ==> x == d || x in documents[1..];
      hide HasNumber;
      assert forall x :: x in documents[1..] ==> x in documents;
    }
  }

  // The numbers 1 to the length of the list, each once.
  ghost predicate Numbering(ns: seq<nat>) {
    && (forall i :: 0 <= i < |ns| ==> 1 <= ns[i] <= |ns|)
    && forall i, j :: 0 <= i < j < |ns| ==> ns[i] != ns[j]
  }

  lemma NumberingSorts(ns: seq<nat>, sorted: seq<nat>)
    requires sorted == Sort(ns, (a: nat, b: nat) => a < b) && |sorted| == |ns| && Numbering(ns)
    ensures forall i :: 0 <= i < |ns| ==> sorted[i] == i + 1
  {
    var less := (a: nat, b: nat) => a < b;
    SortMembers(ns, less);
    SortAscending(ns, less);
    hide Sort;
    forall i | 0 <= i < |sorted| ensures 1 <= sorted[i] <= |ns| {
      assert sorted[i] in sorted;
      var k :| 0 <= k < |ns| && ns[k] == sorted[i];
    }
    forall i, j | 0 <= i < j < |sorted| ensures sorted[i] < sorted[j] { assert less(sorted[i], sorted[j]); }
    forall i | 0 <= i < |ns| ensures sorted[i] == i + 1 { NoGaps(sorted, i); }
  }

  lemma SortedNumbers(ns: seq<nat>, sorted: seq<nat>)
    requires sorted == Sort(ns, (a: nat, b: nat) => a < b) && |sorted| == |ns|
    ensures (forall i :: 0 <= i < |ns| ==> sorted[i] == i + 1) <==> Numbering(ns)
  {
    if Numbering(ns) { NumberingSorts(ns, sorted); }
    if forall i :: 0 <= i < |ns| ==> sorted[i] == i + 1 {
      SortMembers(ns, (a: nat, b: nat) => a < b);
      hide Sort;
      forall i | 0 <= i < |ns| ensures 1 <= ns[i] <= |ns| {
        assert ns[i] in sorted;
        var k :| 0 <= k < |sorted| && sorted[k] == ns[i];
      }
      assert Distinct(sorted);
      DistinctMultiplicity(ns);
      DistinctMultiplicity(sorted);
    }
  }

  lemma AmendmentsExactly(rules: Rules, documents: seq<Document>)
    ensures AmendmentsNumbered(rules, documents) <==> PackageNumbered(rules, documents)
  {
    hide Sort, Numerals, AmendmentIs;
    OneBase(documents);
    FilterCongruence(documents, (d: Document) => d.role == Amendment, (d: Document) => d.role != Base);
    var amendments := AmendmentsOf(documents);
    var ns := Numerals(rules, amendments);
    SortMembers(ns, (a: nat, b: nat) => a < b);
    NumeralsExactly(rules, amendments);
    SortedNumbers(ns, Sort(ns, (a: nat, b: nat) => a < b));
    if |ns| == |amendments| {
      NumbersExactly(rules, amendments, ns);
    } else {
      forall d | NumberedWithin(rules, d, |amendments|) ensures HasNumber(rules, d) { }
    }
  }

  lemma NumbersExactly(rules: Rules, amendments: seq<Document>, ns: seq<nat>)
    requires |ns| == |amendments| && forall i :: 0 <= i < |ns| ==> AmendmentIs(rules, amendments[i], ns[i])
    ensures (forall i :: 0 <= i < |ns| ==> 1 <= ns[i] <= |ns|) <==>
            forall d :: d in amendments ==> NumberedWithin(rules, d, |amendments|)
    ensures (forall i, j :: 0 <= i < j < |ns| ==> ns[i] != ns[j]) <==> NumbersDiffer(rules, amendments)
  {
    hide AmendmentIs;
    forall i: nat, n: nat | i < |ns| && AmendmentIs(rules, amendments[i], n) ensures n == ns[i] { OneNumber(rules, amendments[i], n, ns[i]); }
    forall i | 0 <= i < |ns| ensures amendments[i] in amendments { }
  }

  lemma OneNumber(rules: Rules, d: Document, m: nat, n: nat)
    requires AmendmentIs(rules, d, m) && AmendmentIs(rules, d, n)
    ensures m == n
  {
  }

  // ---- The flags of the ledger ----

  // The `k`-th unit of a page of this length holds the middle of the mention and reads all of it.
  ghost predicate ReadBy(length: nat, m: Mention, k: nat) {
    && MiddleIn(m, 2_700 * k, if 2_700 * (k + 1) <= length then 2_700 * (k + 1) else length)
    && 2_700 * k - 250 <= m.start && 0 <= m.start && m.end <= 2_700 * (k + 1) + 250 && m.end <= length
  }

  ghost predicate ReadWhole(p: Page, m: Mention) {
    exists k: nat :: (k == 0 || 2_700 * k < |p.text|) && ReadBy(|p.text|, m, k)
  }

  lemma UnitCount(length: nat, k: nat)
    ensures k == 0 || 2_700 * k < length <==> k < CoreCount(length)
  {
  }

  lemma ReadByExactly(length: nat, m: Mention, k: nat)
    requires k < CoreCount(length)
    ensures Owns(CoreAt(length, k), m.start, m.end) && Holds(CoreAt(length, k), m.start, m.end) <==> ReadBy(length, m, k)
  {
    UnitCount(length, k);
  }

  lemma ReadExactly(p: Page, m: Mention)
    ensures MentionCovered(Cores(|p.text|), m) <==> ReadWhole(p, m)
  {
    hide ReadBy, Owns, Holds, CoreAt, CoreCount;
    var cores := Cores(|p.text|);
    forall k: nat ensures k == 0 || 2_700 * k < |p.text| <==> k < |cores| { UnitCount(|p.text|, k); }
    forall k: nat | k < |cores| ensures Owns(cores[k], m.start, m.end) && Holds(cores[k], m.start, m.end) <==> ReadBy(|p.text|, m, k) {
      ReadByExactly(|p.text|, m, k);
    }
  }

  ghost predicate AllRead(rules: Rules, p: Page) {
    forall m :: m in rules.mentions(p.text) ==> ReadWhole(p, m)
  }

  lemma AllReadExactly(rules: Rules, p: Page)
    ensures MentionsCovered(rules, p) <==> AllRead(rules, p)
  {
    hide MentionCovered, Cores, ReadWhole;
    forall m ensures MentionCovered(Cores(|p.text|), m) <==> ReadWhole(p, m) { ReadExactly(p, m); }
  }

  // Metadata is complete exactly when the pages of every document and the documents of the package are numbered without
  // gap or repetition; capacity is exceeded exactly by a mention that no unit reads whole, more than 160 units, or more
  // than ten mentions in one of them.
  lemma FlagsExactly(rules: Rules, inputs: seq<Document>)
    requires forall t :: !rules.textBefore(t, t)
    ensures
      var ledger, documents := Discovered(rules, inputs), Documents(rules, inputs);
      && (ledger.metadataComplete <==> (forall d :: d in documents ==> PagesNumbered(d)) && PackageNumbered(rules, documents))
      && (ledger.capacityExceeded <==>
            || (exists d, p :: d in documents && p in d.pages && !AllRead(rules, p))
            || |ledger.candidates| > 160
            || exists c :: c in ledger.candidates && |c.mentions| > 10)
  {
    hide PagesComplete, AmendmentsNumbered, Candidates, Documents, MentionsCovered, PagesNumbered, PackageNumbered, AllRead;
    forall d ensures PagesComplete(rules, d) <==> PagesNumbered(d) { PagesExactly(rules, d); }
    AmendmentsExactly(rules, Documents(rules, inputs));
    forall p ensures MentionsCovered(rules, p) <==> AllRead(rules, p) { AllReadExactly(rules, p); }
  }
}
