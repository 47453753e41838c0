// A manifest that fails its own checks, from an input of the whole pipeline.
module AuthorityExample {
  import opened Sorting
  import opened Groups
  import opened Texts
  import opened QuoteSearch
  import opened SpanResolution
  import opened Ownership
  import opened SubmissionLedger
  import opened Adjudication
  import opened CanonicalMerge
  import opened RecordAuthority
  import opened CitationLocation
  import opened AuthorityManifest
  import opened AuthorityJoins
  import opened AuthorityBookkeeping
  import opened AuthorityTheorem
  import opened AuthorityCorollaries
  import opened AuthorityDraft
  import opened AuthorityInputs

  // The only page of the only document, which is also the quotation: "quote".
  const QUOTE: Text := [0x71, 0x75, 0x6F, 0x74, 0x65]
  const QUOTE_SPAN := PageSpan(1, 0, 5)
  const PAGE := SubmissionLedger.Page(1, QUOTE)
  const DOCUMENT := Document("document", Role.Base, None, 1, [PAGE])

  // Its only coverage unit.
  const CORE := Core(0, 5, 0, 5)
  const UNIT := CandidateId("document", 1, QUOTE, CORE, [])
  const CANDIDATE := Candidate(UNIT, "document", Role.Base, None, 1, QUOTE, CORE, QUOTE, 1, [])
  const LEDGER := Ledger([CANDIDATE], 1, 1, true, false)

  // The unit is bound to one batch, and the model answers that it is uncertain.
  const UNIT_BINDING := Binding("batch", "digest", [UNIT], [], false)
  const ANSWER := Response("batch", "digest", [UNIT], [], [Unit(UNIT, "document", 1, true, [])])
  const UNCERTAIN := Verdict(UNIT, "document", 1, Some(SemanticUncertainty), [])
  const UNRESOLVED := Evidence([CANDIDATE], map[UNIT := UNCERTAIN])

  // The batch lists one claim twice, whatever else it says, and calls it a submission rule only the first time.
  function Quoted(serialization: Text): Content {
    Content("document", [Citation("document", QUOTE)], serialization)
  }

  function Claims(serialization: Text): seq<Record> {
    [Record([0x61], Quoted(serialization)), Record([0x62], Quoted(serialization))]
  }

  function ExampleDraft(serialization: Text): Draft { Draft(Claims(serialization), [], [], []) }

  function RelevanceAt(ordinal: nat): Relevance { if ordinal == 0 then Submission else NotSubmission }

  function ExampleAnnotation(ordinal: nat): Annotation {
    Annotation(Claim, ordinal, RelevanceAt(ordinal), Some([PhysicalBinding(0, Some(QUOTE_SPAN))]))
  }

  function ExampleBatch(serialization: Text): Batch {
    Batch("batch", false, ExampleDraft(serialization), [ExampleAnnotation(0), ExampleAnnotation(1)])
  }

  // ---- The unit and its verdict ----

  // Where no channel is mentioned, discovery gives this ledger.
  lemma ExampleDiscovered(rules: Rules)
    requires rules.mentions(QUOTE) == []
    ensures Discovered(rules, [DOCUMENT]) == LEDGER
  {
    assert SubmissionLedger.Documents(rules, [DOCUMENT]) == [DOCUMENT] by {
      OneOnly(DOCUMENT, rules.documentBefore);
      OneKept(DOCUMENT, DocumentKey);
    }
    OneDocument(rules);
    OneNumbered(rules);
    OneCandidate(rules);
  }

  lemma OneOnly<T(!new)>(x: T, less: (T, T) -> bool)
    ensures Sort([x], less) == [x] && [x][1..] == []
  {
    assert [x][1..] == [];
  }

  lemma OneKept<T(!new), K>(x: T, key: T -> K)
    ensures LastPerKey([x], key) == [x]
  {
    assert [x][1..] == [];
    assert !HasKey(LastPerKey([x][1..], key), key, key(x));
  }

  lemma OneDocument(rules: Rules)
    ensures OrderedPages(rules, DOCUMENT) == [PAGE] && PagesComplete(rules, DOCUMENT)
    ensures ExpectedPages([DOCUMENT]) == 1 && CoveredPages(rules, [DOCUMENT]) == 1
  {
    OneOnly(PAGE, PageBefore(rules));
    assert [DOCUMENT][..0] == [] && [PAGE][..0] == [];
    assert CountedPages(DOCUMENT, [PAGE]) == {1};
  }

  lemma OneNumbered(rules: Rules)
    ensures AmendmentsNumbered(rules, [DOCUMENT])
  {
    assert [DOCUMENT][1..] == [];
    assert Filter([DOCUMENT], (d: Document) => d.role == Base) == [DOCUMENT];
    assert Filter([DOCUMENT], (d: Document) => d.role == Amendment) == [];
  }

  lemma OneCandidate(rules: Rules)
    requires rules.mentions(QUOTE) == []
    ensures Candidates(rules, [DOCUMENT]) == [CANDIDATE]
    ensures !CapacityExceeded(rules, [DOCUMENT], [CANDIDATE])
  {
    OneDocument(rules);
    assert [DOCUMENT][..0] == [] && [PAGE][..0] == [] && [CANDIDATE][1..] == [];
    assert Cores(5) == [CORE] by { assert CoreAt(5, 0) == CORE; }
    assert CandidateOf(rules, DOCUMENT, PAGE, CORE) == CANDIDATE;
    assert PageCandidates(rules, DOCUMENT, PAGE) == [CANDIDATE];
    assert DocumentCandidates(rules, DOCUMENT, [PAGE]) == [CANDIDATE];
    assert AllCandidates(rules, [DOCUMENT]) == [CANDIDATE];
    OneKept(CANDIDATE, IdOf);
    OneOnly(CANDIDATE, rules.candidateBefore);
  }

  // Verifying the answer gives the verdict of the example.
  lemma ExampleVerdict(a: Adjudicated)
    requires IsAdjudication(LEDGER, [UNIT_BINDING], [ANSWER], true, a)
    ensures a.verdicts == [UNCERTAIN]
  {
    hide KnownBatches, CleanBatch, IntactFragments, FragmentCount, Complete;
    ExampleAssigned();
    assert OwnVerdict(LEDGER, [UNIT_BINDING], [ANSWER], 0, a.verdicts[0]);
    var b :| b in [UNIT_BINDING] && UNIT in b.candidates && a.verdicts[0] == Verdicts(Find(LEDGER.candidates, UNIT), b, [ANSWER]);
    assert b == UNIT_BINDING;
    ExampleAnswer();
  }

  lemma ExampleAssigned()
    ensures EarlyReason(LEDGER, [UNIT_BINDING], true) == None
    ensures Known(LEDGER.candidates, UNIT) && Find(LEDGER.candidates, UNIT) == CANDIDATE
  {
    assert LEDGER.candidates[0].id == UNIT;
    assert [UNIT_BINDING][..0] == [];
    assert Assigned([UNIT_BINDING]) == multiset{UNIT};
  }

  lemma ExampleAnswer()
    ensures Verdicts(CANDIDATE, UNIT_BINDING, [ANSWER]) == UNCERTAIN
  {
    assert [ANSWER][1..] == [] && ANSWER.units[1..] == [];
    assert ResponsesTo([ANSWER], UNIT_BINDING) == [ANSWER];
    assert BatchReason(UNIT_BINDING, [ANSWER]) == None;
    assert Filter(ANSWER.units, (u: Unit) => u.candidate == CANDIDATE.id) == ANSWER.units;
    assert !StrayUnit(UNIT_BINDING, ANSWER.units);
    assert UnitReason(CANDIDATE, ANSWER.units, false) == Some(SemanticUncertainty);
  }

  // ---- The citations ----

  // The batch as it is received: the unit's window is the only fragment, and both bindings select all of it.
  const PAGES := [SourcePage(1, QUOTE)]
  const WINDOW := SourceFragment("fragment", "document", QUOTE, {}, Window(Some(UNIT), 1, QUOTE, 0, 5, QUOTE))
  const SOURCES := SourceMap([WINDOW], map["document" := PAGES])
  const DOCUMENTS := [IndexedDocument("document", PAGES)]
  const BINDING := PrivateBinding(0, "fragment", QUOTE, 0, 5, "document", 1, QUOTE, 0, 5, QUOTE)

  function ReceivedBatch(serialization: Text): PrivateBatch {
    PrivateBatch("batch", false, ExampleDraft(serialization),
                 [PrivateAnnotation(Claim, 0, Submission, Some([BINDING])), PrivateAnnotation(Claim, 1, NotSubmission, Some([BINDING]))],
                 Some(SOURCES), [], [UNIT])
  }

  lemma ExampleIntact()
    ensures Intact(SOURCES, WINDOW)
    ensures FindFragment(SOURCES.fragments, "fragment") == Some(WINDOW)
    ensures DocumentPage(DOCUMENTS, "document", 1) == Some(PAGES[0])
    ensures WellFormed(QUOTE) && QUOTE[0..5] == QUOTE
  {
    assert FindPage(PAGES, 1) == Some(PAGES[0]);
    assert FindDocument(DOCUMENTS, "document") == Some(DOCUMENTS[0]) by { hide FindPage; }
    assert QUOTE[0..5] == QUOTE;
  }

  lemma ExampleCommitted(b: PrivateBatch)
    requires b.candidateIds == [UNIT]
    ensures Committed(b, UNRESOLVED.ledger, SOURCES, WINDOW)
  {
    hide Intact;
    ExampleIntact();
    assert FindCandidate(UNRESOLVED.ledger, UNIT) == Some(UNRESOLVED.ledger[0]);
  }

  // A binding that selects the whole window of a unit is its own resolution.
  lemma WholeWindow(m: SourceMap, documents: seq<IndexedDocument>, f: SourceFragment, b: PrivateBinding)
    requires f.provenance.Window? && Intact(m, f) && 1 <= |f.text| <= 500 && WellFormed(f.text)
    requires b.fragmentId == f.id && b.representation == b.quote == f.text && b.document == f.document
    requires b.page == f.provenance.page && b.pageText == f.provenance.pageText
    requires b.selectorStart == 0 && b.selectorEnd == |f.text|
    requires b.evidenceStart == f.provenance.start && b.evidenceEnd == f.provenance.end
    ensures
      var r := ResolveIn(m, documents, f, SelectorOf(b));
      r.Some? && IsResolution(b, f, r.value) && EvidenceText(r.value) == f.text && r.value.key.pageText == b.pageText
  {
    hide ResolveIn, WellFormed;
    assert f.text[0..|f.text|] == f.text;
    WindowResolvesExactly(m, documents, f, SelectorOf(b));
  }

  lemma ExampleBinding(serialization: Text)
    ensures LocationOf(ReceivedBatch(serialization), LEDGER.candidates, DOCUMENTS, Quoted(serialization), BINDING) == Some(QUOTE_SPAN)
  {
    hide ResolveIn, Committed, FindFragment, DocumentPage, IsResolution, EvidenceText, Intact, WellFormed;
    ExampleIntact();
    ExampleCommitted(ReceivedBatch(serialization));
    WholeWindow(SOURCES, DOCUMENTS, WINDOW, BINDING);
    LocatedExactly(ReceivedBatch(serialization), LEDGER.candidates, DOCUMENTS, Quoted(serialization), BINDING);
  }

  lemma ExampleIsLocated(serialization: Text)
    ensures Locate(ReceivedBatch(serialization), LEDGER.candidates, DOCUMENTS) == ExampleBatch(serialization)
  {
    hide LocationOf;
    ExampleBinding(serialization);
    var b := ReceivedBatch(serialization);
    assert ContentAt(b.draft, Claim, 0) == ContentAt(b.draft, Claim, 1) == Some(Quoted(serialization));
    assert LocateAll(b, LEDGER.candidates, DOCUMENTS, Some(Quoted(serialization)), [BINDING]) == [PhysicalBinding(0, Some(QUOTE_SPAN))];
    assert Locate(b, LEDGER.candidates, DOCUMENTS).annotations == ExampleBatch(serialization).annotations;
  }

  // ---- The judgements ----

  function ExampleOrigin(serialization: Text, ordinal: nat): Origin {
    Origin(OriginKey("batch", Claim, ordinal, Quoted(serialization)), if ordinal == 0 then [0x61] else [0x62], Some(RelevanceAt(ordinal)),
           Judgement(CoverageGap, if ordinal == 0 then Disagrees else Undecided, Some(IncompleteOccurrenceCoverage),
                     [CitationBinding("document", QUOTE, [Occurrence(QUOTE_SPAN, {UNIT}, multiset{})])], {}))
  }

  lemma ExampleOwners()
    ensures Owners(UNRESOLVED, "document", QUOTE_SPAN) == UNRESOLVED.ledger
    ensures CoveringVerdicts(UNRESOLVED, UNRESOLVED.ledger) == []
    ensures (set c | c in UNRESOLVED.ledger :: c.id) == {UNIT}
  {
    assert UNRESOLVED.ledger[1..] == [];
  }

  lemma ExampleAnnotated(serialization: Text, ordinal: nat)
    requires ordinal < 2
    ensures AnnotationsFor(ExampleBatch(serialization), Claim, ordinal) == [ExampleAnnotation(ordinal)]
  {
    var s := [ExampleAnnotation(0), ExampleAnnotation(1)];
    assert s[1..] == [ExampleAnnotation(1)] && s[1..][1..] == [];
  }

  lemma ExampleJudged(serialization: Text, ordinal: nat)
    requires ordinal < 2
    ensures OriginOf(UNRESOLVED, ExampleBatch(serialization), Item(Claim, ordinal, Claims(serialization)[ordinal])) ==
            ExampleOrigin(serialization, ordinal)
  {
    hide Owners, CoveringVerdicts, AnnotationsFor;
    var e, b, content := UNRESOLVED, ExampleBatch(serialization), Quoted(serialization);
    ExampleAnnotated(serialization, ordinal);
    var annotations := AnnotationsFor(b, Claim, ordinal);
    var bindings := annotations[0].bindings.value;
    assert BindingFor(bindings, 0) == Some(QUOTE_SPAN);
    assert EarlyFailure(b, annotations, content) == None;
    ExampleOwners();
    assert JudgeRecord(e, b, Claim, ordinal, content) == JudgeFrom(e, content, bindings, RelevanceAt(ordinal), 0);
  }

  lemma ExampleRecords(serialization: Text)
    ensures RecordsIn(ExampleDraft(serialization)) ==
            [Item(Claim, 0, Claims(serialization)[0]), Item(Claim, 1, Claims(serialization)[1])]
  {
  }

  lemma ExampleOrigins(serialization: Text)
    ensures Origins(UNRESOLVED, [ExampleBatch(serialization)]) == [ExampleOrigin(serialization, 0), ExampleOrigin(serialization, 1)]
  {
    hide OriginOf, ExampleOrigin, RecordsIn;
    ExampleRecords(serialization);
    ExampleJudged(serialization, 0);
    ExampleJudged(serialization, 1);
    assert [ExampleBatch(serialization)][..0] == [];
    assert BatchOrigins(UNRESOLVED, ExampleBatch(serialization)) == [ExampleOrigin(serialization, 0), ExampleOrigin(serialization, 1)];
  }

  // ---- The receipt is complete ----

  lemma ExampleNamed(naming: Naming, origins: seq<Origin>, o: Origin)
    requires o in origins && forall p :: p in origins ==> p.id != []
    ensures IdFor(naming, origins, o.key) != []
  {
    hide Plan, IdFor;
    var records := RecordsOf(OfKind(origins, o.key.kind));
    var i := PlannedId(naming, origins, o);
    var r := ItemKeepsContent(naming, records, i);
    var p := RecordOrigin(origins, o.key.kind, r);
  }

  lemma ExampleIds(naming: Naming, serialization: Text, origins: seq<Origin>)
    requires origins == [ExampleOrigin(serialization, 0), ExampleOrigin(serialization, 1)]
    ensures NoneLost(IdsOf(naming, origins), origins) && IdsApart(IdsOf(naming, origins), origins)
    ensures IdsOf(naming, origins)(origins[0].key) == IdsOf(naming, origins)(origins[1].key)
  {
    hide IdFor;
    forall o | o in origins ensures IdFor(naming, origins, o.key) != [] { ExampleNamed(naming, origins, o); }
    SameContentSameId(naming, origins, origins[0].key, origins[1].key);
    AllKept(IdsOf(naming, origins), origins);
  }

  lemma ExampleWellFormed(serialization: Text)
    ensures WellFormedBatch(ExampleBatch(serialization))
  {
    hide RecordsIn;
    ExampleRecords(serialization);
    var b := ExampleBatch(serialization);
    forall a | a in b.annotations
      ensures exists item :: item in RecordsIn(b.draft) && item.kind == a.kind && item.ordinal == a.ordinal
    {
      assert RecordsIn(b.draft)[a.ordinal] in RecordsIn(b.draft);
    }
  }

  lemma {:induction false} FewGroups<K, T(!new)>(s: seq<T>, key: T -> K)
    ensures |GroupBy(s, key)| <= |s|
    decreases |s|
  {
    if s != [] {
      Shrinks(s, key);
      FewGroups(Filter(s, (x: T) => key(x) != key(s[0])), key);
    }
  }

  // The merge of the only draft, which the extraction hands to the producer.
  lemma ExampleMerged(naming: Naming, serialization: Text)
    ensures MergeDrafts(naming, DraftsOf([ExampleBatch(serialization)])).Some?
  {
    hide GroupBy, Representative;
    var drafts := DraftsOf([ExampleBatch(serialization)]);
    assert drafts == [ExampleDraft(serialization)] && drafts[..0] == [];
    forall kind ensures |Plan(naming, Flat(drafts, kind))| <= Limit(kind) {
      assert |Flat(drafts, kind)| == |RecordsOfKind(ExampleDraft(serialization), kind)|;
      FewGroups(Flat(drafts, kind), ContentOf);
    }
  }

  lemma ExampleComplete(naming: Naming, serialization: Text)
    ensures
      var batches := [ExampleBatch(serialization)];
      Receipt(naming, UNRESOLVED, batches, MergeDrafts(naming, DraftsOf(batches))).complete
  {
    hide IdsOf, NoneLost, IdsApart, WellFormedBatch, Receipt, MergeDrafts, Origins, ExampleOrigin, ExampleBatch;
    var batches := [ExampleBatch(serialization)];
    ExampleOrigins(serialization);
    ExampleIds(naming, serialization, Origins(UNRESOLVED, batches));
    ExampleWellFormed(serialization);
    CompleteForInputs(naming, UNRESOLVED, batches, MergeDrafts(naming, DraftsOf(batches)));
  }

  // ---- The checks fail ----

  lemma ExampleDisagrees(ids: Ids, serialization: Text, origins: seq<Origin>)
    requires origins == [ExampleOrigin(serialization, 0), ExampleOrigin(serialization, 1)]
    requires NoneLost(ids, origins) && ids(origins[0].key) == ids(origins[1].key)
    ensures !AllAgree(ids, origins)
  {
    hide JoinedGroups, Kept;
    var a, b := origins[0], origins[1];
    AllKept(ids, origins);
    JoinedMirrors(ids, origins, []);
    var groups := JoinedGroups(ids, origins);
    var i := RecordOf(ids, origins, JoinAll(groups), groups, a);
    var j := RecordOf(ids, origins, JoinAll(groups), groups, b);
    assert i == j;
    assert a in groups[i].1 && b in groups[i].1;
    assert !GroupAgrees(groups[i].1);
  }

  // One batch that annotates two equal claims of an unresolved unit differently, with the merge of its draft, produces a
  // complete manifest that fails its own checks: the producer leaves the crosscheck undecided, the checks expect a
  // disagreement.
  lemma ConflictingAnnotationsFail(size: Payload -> nat, naming: Naming, serialization: Text)
    requires size(UnresolvedPayload(ReceiptCapacity)) <= MAX_RECEIPT_BYTES
    requires
      var batches := [ExampleBatch(serialization)];
      size(Receipt(naming, UNRESOLVED, batches, MergeDrafts(naming, DraftsOf(batches)))) <= MAX_RECEIPT_BYTES
    ensures
      var batches := [ExampleBatch(serialization)];
      var merged := MergeDrafts(naming, DraftsOf(batches));
      var m := Produced(size, naming, UNRESOLVED, batches, merged);
      merged.Some? && m.payload.complete && !Integrity(size, m)
  {
    hide IdsOf, Integrity, AllAgree, KeysApart, IdsApart, Origins, ReceiptOf, NoneLost, ExampleOrigin, ExampleBatch, MergeDrafts;
    var e, batches := UNRESOLVED, [ExampleBatch(serialization)];
    var origins := Origins(e, batches);
    ExampleOrigins(serialization);
    ExampleIds(naming, serialization, origins);
    ExampleMerged(naming, serialization);
    ExampleComplete(naming, serialization);
    ExampleDisagrees(IdsOf(naming, origins), serialization, origins);
    ProducedPassesExactly(size, naming, e, batches, MergeDrafts(naming, DraftsOf(batches)));
  }
}
