// Discovery of the coverage units of a package: every page is tiled into ownership cores, and each core becomes one
// candidate that the model must adjudicate.
module SubmissionLedger {
  import opened Sorting
  import opened Ownership
  import opened Texts

  const MAX_COVERAGE_UNITS := 160
  const MAX_RELATIONS_PER_UNIT := 10

  datatype Role = Base | Amendment
  datatype Channel = Email | Portal | Electronic | Fax | PostalMail | Courier | HandDelivery | Unspecified

  datatype Page = Page(number: int, text: Text)
  datatype Document = Document(sha: string, role: Role, amendment: Option<string>, pagesTotal: nat, pages: seq<Page>)
  datatype Mention = Mention(channel: Channel, start: int, end: int)

  // The digest of a candidate's identity is taken to be injective, so the identity stands for it. The role and the
  // amendment number are not part of it.
  datatype CandidateId = CandidateId(document: string, page: int, pageText: Text, core: Core, mentions: seq<Mention>)

  datatype Candidate = Candidate(
    id: CandidateId, document: string, role: Role, amendment: Option<string>, page: int, pageText: Text,
    core: Core, window: Text, capacity: nat, mentions: seq<Mention>)

  datatype Ledger = Ledger(
    candidates: seq<Candidate>, expectedPages: nat, coveredPages: nat, metadataComplete: bool, capacityExceeded: bool)

  // The lexical channel patterns, amendment numerals and comparators. Everything below holds for every choice.
  datatype Rules = Rules(
    mentions: Text -> seq<Mention>,
    numeral: string -> Option<nat>,
    textBefore: (Text, Text) -> bool,
    documentBefore: (Document, Document) -> bool,
    candidateBefore: (Candidate, Candidate) -> bool)

  // `new Map(items.map(item => [key(item), item])).values()`: of the items that share a key the last one stays.
  function LastPerKey<T(!new), K(==)>(items: seq<T>, key: T -> K): seq<T> {
    if items == [] then []
    else
      var rest := LastPerKey(items[1..], key);
      if HasKey(rest, key, key(items[0])) then rest else [items[0]] + rest
  }

  predicate HasKey<T(!new), K(==)>(items: seq<T>, key: T -> K, k: K) {
    exists i :: 0 <= i < |items| && key(items[i]) == k
  }

  lemma {:induction false} LastPerKeyMembers<T(!new), K>(items: seq<T>, key: T -> K)
    ensures forall x :: x in LastPerKey(items, key) ==> x in items
  {
    if items != [] { LastPerKeyMembers(items[1..], key); }
  }

  lemma {:induction false} LastPerKeyUnique<T(!new), K>(items: seq<T>, key: T -> K)
    ensures forall x, y :: x in LastPerKey(items, key) && y in LastPerKey(items, key) && key(x) == key(y) ==> x == y
  {
    if items != [] {
      LastPerKeyUnique(items[1..], key);
      var rest := LastPerKey(items[1..], key);
      if !HasKey(rest, key, key(items[0])) {
        forall x | x in rest ensures key(x) != key(items[0]) {
          var i :| 0 <= i < |rest| && rest[i] == x;
        }
      }
    }
  }

  function DocumentKey(d: Document): (Role, string, string) {
    (d.role, if d.amendment.Some? then d.amendment.value else "", d.sha)
  }

  function Documents(rules: Rules, documents: seq<Document>): seq<Document> {
    LastPerKey(Sort(documents, rules.documentBefore), DocumentKey)
  }

  function PageBefore(rules: Rules): (Page, Page) -> bool {
    (p: Page, q: Page) => p.number < q.number || (p.number == q.number && rules.textBefore(p.text, q.text))
  }

  function OrderedPages(rules: Rules, d: Document): seq<Page> {
    Sort(d.pages, PageBefore(rules))
  }

  predicate PagesComplete(rules: Rules, d: Document) {
    var pages := OrderedPages(rules, d);
    |pages| == d.pagesTotal && forall i :: 0 <= i < |pages| ==> pages[i].number == i + 1
  }

  function CandidateOf(rules: Rules, d: Document, p: Page, core: Core): Candidate
    requires core in Cores(|p.text|)
  {
    var owned := Filter(rules.mentions(p.text), (m: Mention) => Owns(core, m.start, m.end));
    CoreWithinPage(|p.text|, core);
    Candidate(
      CandidateId(d.sha, p.number, p.text, core, owned), d.sha, d.role, d.amendment, p.number, p.text, core,
      p.text[core.contextStart..core.contextEnd],
      if p.text == [] then 0 else Min(MAX_RELATIONS_PER_UNIT, Max(1, |owned|)), owned)
  }

  lemma CoreWithinPage(length: nat, core: Core)
    requires core in Cores(length)
    ensures core.contextStart <= core.coreStart <= core.coreEnd <= core.contextEnd <= length
  {
    var k :| 0 <= k < |Cores(length)| && Cores(length)[k] == core;
    assert core == CoreAt(length, k);
  }

  function PageCandidates(rules: Rules, d: Document, p: Page): seq<Candidate> {
    var cores := Cores(|p.text|);
    seq(|cores|, k requires 0 <= k < |cores| => CandidateOf(rules, d, p, cores[k]))
  }

  function DocumentCandidates(rules: Rules, d: Document, pages: seq<Page>): seq<Candidate> {
    if pages == [] then []
    else DocumentCandidates(rules, d, pages[..|pages| - 1]) + PageCandidates(rules, d, pages[|pages| - 1])
  }

  function AllCandidates(rules: Rules, documents: seq<Document>): seq<Candidate> {
    if documents == [] then []
    else
      var d := documents[|documents| - 1];
      AllCandidates(rules, documents[..|documents| - 1]) + DocumentCandidates(rules, d, OrderedPages(rules, d))
  }

  // Some context holds the mention that its core owns.
  predicate MentionCovered(cores: seq<Core>, m: Mention) {
    exists k :: 0 <= k < |cores| && Owns(cores[k], m.start, m.end) && Holds(cores[k], m.start, m.end)
  }

  predicate MentionsCovered(rules: Rules, p: Page) {
    forall m :: m in rules.mentions(p.text) ==> MentionCovered(Cores(|p.text|), m)
  }

  function CountedPages(d: Document, pages: seq<Page>): set<int> {
    if pages == [] then {}
    else
      var n := pages[|pages| - 1].number;
      CountedPages(d, pages[..|pages| - 1]) + (if 1 <= n <= d.pagesTotal then {n} else {})
  }

  function ExpectedPages(documents: seq<Document>): nat {
    if documents == [] then 0
    else ExpectedPages(documents[..|documents| - 1]) + documents[|documents| - 1].pagesTotal
  }

  function CoveredPages(rules: Rules, documents: seq<Document>): nat {
    if documents == [] then 0
    else
      var d := documents[|documents| - 1];
      CoveredPages(rules, documents[..|documents| - 1]) + |CountedPages(d, OrderedPages(rules, d))|
  }

  // One base document without an amendment number, and amendments numbered 1, 2, 3, ... without gap or repetition.
  predicate AmendmentsNumbered(rules: Rules, documents: seq<Document>) {
    var bases := Filter(documents, (d: Document) => d.role == Base);
    var amendments := Filter(documents, (d: Document) => d.role == Amendment);
    var numbers := Sort(Numerals(rules, amendments), (a: nat, b: nat) => a < b);
    && |bases| == 1
    && bases[0].amendment == None
    && |numbers| == |amendments|
    && forall i :: 0 <= i < |numbers| ==> numbers[i] == i + 1
  }

  function Numerals(rules: Rules, documents: seq<Document>): seq<nat> {
    if documents == [] then []
    else
      var d := documents[0];
      var numeral := rules.numeral(if d.amendment.Some? then d.amendment.value else "");
      (if numeral.Some? then [numeral.value] else []) + Numerals(rules, documents[1..])
  }

  predicate MetadataComplete(rules: Rules, documents: seq<Document>) {
    (forall d :: d in documents ==> PagesComplete(rules, d)) && AmendmentsNumbered(rules, documents)
  }

  predicate CapacityExceeded(rules: Rules, documents: seq<Document>, candidates: seq<Candidate>) {
    || (exists d, p :: d in documents && p in d.pages && !MentionsCovered(rules, p))
    || |candidates| > MAX_COVERAGE_UNITS
    || exists c :: c in candidates && |c.mentions| > MAX_RELATIONS_PER_UNIT
  }

  function IdOf(c: Candidate): CandidateId { c.id }

  function Candidates(rules: Rules, documents: seq<Document>): seq<Candidate> {
    Sort(LastPerKey(AllCandidates(rules, documents), IdOf), rules.candidateBefore)
  }

  function Discovered(rules: Rules, inputs: seq<Document>): Ledger {
    var documents := Documents(rules, inputs);
    var candidates := Candidates(rules, documents);
    Ledger(candidates, ExpectedPages(documents), CoveredPages(rules, documents), MetadataComplete(rules, documents),
           CapacityExceeded(rules, documents, candidates))
  }

  // The loop over the cores of one page.
  method PageUnits(rules: Rules, d: Document, p: Page) returns (units: seq<Candidate>, covered: bool, tiled: bool)
    ensures units == PageCandidates(rules, d, p)
    ensures covered == MentionsCovered(rules, p)
    ensures tiled
  {
    var cores := PageOwnershipCores(|p.text|);
    CoresTile(|p.text|);
    covered := forall m :: m in rules.mentions(p.text) ==> MentionCovered(cores, m);
    tiled := Tiles(cores, |p.text|);
    units := [];
    for k := 0 to |cores|
      invariant |units| == k
      invariant forall j :: 0 <= j < k ==> units[j] == CandidateOf(rules, d, p, cores[j])
    {
      units := units + [CandidateOf(rules, d, p, cores[k])];
    }
  }

  // The loop over the pages of one document.
  method DocumentUnits(rules: Rules, d: Document) returns (units: seq<Candidate>, covered: bool, counted: set<int>)
    ensures units == DocumentCandidates(rules, d, OrderedPages(rules, d))
    ensures covered == forall p :: p in d.pages ==> MentionsCovered(rules, p)
    ensures counted == CountedPages(d, OrderedPages(rules, d))
  {
    hide DocumentCandidates, AllMentionsCovered, CountedPages, OrderedPages, PageCandidates;
    var pages := OrderedPages(rules, d);
    units, covered, counted := [], true, {};
    NoPages(rules, d);
    for i := 0 to |pages|
      invariant units == DocumentCandidates(rules, d, pages[..i])
      invariant covered == AllMentionsCovered(rules, pages[..i])
      invariant counted == CountedPages(d, pages[..i])
    {
      NextPage(rules, d, pages, i);
      var page, pageCovered, tiled := PageUnits(rules, d, pages[i]);
      units := units + page;
      covered := covered && pageCovered;
      if tiled && pages[i].number !in counted && 1 <= pages[i].number <= d.pagesTotal {
        counted := counted + {pages[i].number};
      }
    }
    assert pages[..|pages|] == pages;
    CoveredInAnyOrder(rules, d);
  }

  predicate AllMentionsCovered(rules: Rules, pages: seq<Page>) {
    forall i :: 0 <= i < |pages| ==> MentionsCovered(rules, pages[i])
  }

  lemma NoPages(rules: Rules, d: Document)
    ensures DocumentCandidates(rules, d, []) == [] && AllMentionsCovered(rules, []) && CountedPages(d, []) == {}
  {
  }

  lemma NextPage(rules: Rules, d: Document, pages: seq<Page>, i: nat)
    requires i < |pages|
    ensures DocumentCandidates(rules, d, pages[..i + 1]) == DocumentCandidates(rules, d, pages[..i]) + PageCandidates(rules, d, pages[i])
    ensures AllMentionsCovered(rules, pages[..i + 1]) <==> AllMentionsCovered(rules, pages[..i]) && MentionsCovered(rules, pages[i])
    ensures CountedPages(d, pages[..i + 1]) ==
            CountedPages(d, pages[..i]) + (if 1 <= pages[i].number <= d.pagesTotal then {pages[i].number} else {})
  {
    hide MentionsCovered, PageCandidates;
    var next := pages[..i + 1];
    assert next[..i] == pages[..i] && next[i] == pages[i];
    if AllMentionsCovered(rules, next) {
      forall j | 0 <= j < i ensures MentionsCovered(rules, pages[..i][j]) { assert MentionsCovered(rules, next[j]); }
      assert MentionsCovered(rules, next[i]);
    }
  }

  lemma CoveredInAnyOrder(rules: Rules, d: Document)
    ensures AllMentionsCovered(rules, OrderedPages(rules, d)) <==> forall p :: p in d.pages ==> MentionsCovered(rules, p)
  {
    hide MentionsCovered;
    SortMembers(d.pages, PageBefore(rules));
    var pages := OrderedPages(rules, d);
    assert forall i :: 0 <= i < |pages| ==> pages[i] in pages;
  }

  method DiscoverLedger(rules: Rules, inputs: seq<Document>) returns (ledger: Ledger)
    ensures ledger == Discovered(rules, inputs)
  {
    hide MentionsCovered, PagesComplete, AmendmentsNumbered, DocumentCandidates, CountedPages, OrderedPages, Documents;
    var documents := Documents(rules, inputs);
    var candidates: seq<Candidate> := [];
    var expected, covered := 0, 0;
    var pagesComplete, mentionsCovered := true, true;
    for i := 0 to |documents|
      invariant candidates == AllCandidates(rules, documents[..i])
      invariant expected == ExpectedPages(documents[..i])
      invariant covered == CoveredPages(rules, documents[..i])
      invariant pagesComplete == forall j :: 0 <= j < i ==> PagesComplete(rules, documents[j])
      invariant mentionsCovered == forall j, p :: 0 <= j < i && p in documents[j].pages ==> MentionsCovered(rules, p)
    {
      var d := documents[i];
      var units, unitsCovered, counted := DocumentUnits(rules, d);
      assert documents[..i + 1][..i] == documents[..i];
      candidates := candidates + units;
      expected := expected + d.pagesTotal;
      covered := covered + |counted|;
      pagesComplete := pagesComplete && PagesComplete(rules, d);
      mentionsCovered := mentionsCovered && unitsCovered;
    }
    assert documents[..|documents|] == documents;
    var stable := Sort(LastPerKey(candidates, IdOf), rules.candidateBefore);
    assert stable == Candidates(rules, documents);
    ledger := Ledger(
      stable, expected, covered, pagesComplete && AmendmentsNumbered(rules, documents),
      !mentionsCovered || |stable| > MAX_COVERAGE_UNITS ||
      exists c :: c in stable && |c.mentions| > MAX_RELATIONS_PER_UNIT);
    assert pagesComplete == forall d :: d in documents ==> PagesComplete(rules, d);
    assert mentionsCovered == forall d, p :: d in documents && p in d.pages ==> MentionsCovered(rules, p);
  }
}
