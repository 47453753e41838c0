// Locating the citations of a model record: the private binding that came with a citation is accepted only if the source
// map of its batch re-resolves it to the same range, and the page text there is the quotation.
module CitationLocation {
  import opened Sorting
  import opened Texts
  import opened QuoteSearch
  import opened IssuedQuotes
  import opened SpanResolution
  import SubmissionLedger
  import opened CanonicalMerge
  import opened RecordAuthority
  import opened AuthorityRecords

  type PageNumber = n: int | n > 0 witness 1

  // Digests of texts are represented by the texts.
  datatype PrivateBinding = PrivateBinding(
    citationOrdinal: nat, fragmentId: string, representation: Text, selectorStart: nat, selectorEnd: nat,
    document: string, page: PageNumber, pageText: Text, evidenceStart: nat, evidenceEnd: nat, quote: Text)

  datatype PrivateAnnotation = PrivateAnnotation(
    kind: Kind, ordinal: nat, relevance: Relevance, bindings: Option<seq<PrivateBinding>>)

  // A batch with the source map that was issued with it, and the fragments and coverage units its binding lists.
  datatype PrivateBatch = PrivateBatch(
    batchId: string, tainted: bool, draft: Draft, annotations: seq<PrivateAnnotation>, sourceMap: Option<SourceMap>,
    fragmentIds: seq<string>, candidateIds: seq<SubmissionLedger.CandidateId>)

  function FindCandidate(ledger: seq<SubmissionLedger.Candidate>, id: SubmissionLedger.CandidateId)
    : (c: Option<SubmissionLedger.Candidate>)
    ensures c.Some? ==> c.value in ledger && c.value.id == id
  {
    if ledger == [] then None
    else if ledger[0].id == id then Some(ledger[0])
    else FindCandidate(ledger[1..], id)
  }

  // `sourceOriginCommitted`
  predicate Committed(b: PrivateBatch, ledger: seq<SubmissionLedger.Candidate>, m: SourceMap, f: SourceFragment) {
    && Intact(m, f)
    && match f.provenance
       case Converted => f.id in b.fragmentIds
       case Window(unit, page, pageText, start, end, windowText) =>
         && unit.Some? && unit.value in b.candidateIds
         && var c := FindCandidate(ledger, unit.value);
            && c.Some?
            && c.value.document == f.document && c.value.page == page && c.value.pageText == pageText
            && c.value.core.contextStart == start && c.value.core.contextEnd == end && c.value.window == windowText
  }

  function EvidenceText(r: Resolved): Text {
    if r.key.start <= r.key.end <= |r.key.pageText| then r.key.pageText[r.key.start..r.key.end] else []
  }

  // The binding agrees in every field with what the selection resolves to.
  predicate IsResolution(b: PrivateBinding, f: SourceFragment, r: Resolved) {
    && b.fragmentId == f.id && b.representation == f.text
    && b.selectorStart == r.selectorStart && b.selectorEnd == r.selectorEnd
    && b.document == r.key.document && b.page == r.key.page && b.pageText == r.key.pageText
    && b.evidenceStart == r.key.start && b.evidenceEnd == r.key.end && b.quote == EvidenceText(r)
  }

  function SelectorOf(b: PrivateBinding): Selector
    requires b.selectorStart <= b.selectorEnd
  {
    Selector(b.selectorStart, b.selectorEnd - b.selectorStart)
  }

  function LocationOf(
      batch: PrivateBatch, ledger: seq<SubmissionLedger.Candidate>, documents: seq<IndexedDocument>, content: Content,
      b: PrivateBinding): Option<Span>
  {
    if batch.sourceMap == None || b.citationOrdinal >= |content.citations| then None
    else
      var m, citation := batch.sourceMap.value, content.citations[b.citationOrdinal];
      var f := FindFragment(m.fragments, b.fragmentId);
      var page := DocumentPage(documents, citation.document, b.page);
      if b.selectorEnd <= b.selectorStart || b.evidenceEnd <= b.evidenceStart || f == None ||
         !Committed(batch, ledger, m, f.value) || page == None then None
      else
        var r := SpanResolution.Resolve(m, documents, b.fragmentId, SelectorOf(b));
        if && r.Some? && IsResolution(b, f.value, r.value)
           && EvidenceText(r.value) == citation.quote
           && b.document == citation.document == content.document
           && b.pageText == page.value.text
           && b.quote == citation.quote
           && b.evidenceEnd <= |page.value.text|
           && page.value.text[b.evidenceStart..b.evidenceEnd] == citation.quote
        then Some(PageSpan(b.page, b.evidenceStart, b.evidenceEnd))
        else None
  }

  // What a batch looks like to the judgement of its records.
  function ContentAt(d: Draft, kind: Kind, ordinal: nat): Option<Content> {
    var records := RecordsOfKind(d, kind);
    if ordinal < |records| then Some(records[ordinal].content) else None
  }

  function LocateAll(
      batch: PrivateBatch, ledger: seq<SubmissionLedger.Candidate>, documents: seq<IndexedDocument>, content: Option<Content>,
      bindings: seq<PrivateBinding>): seq<PhysicalBinding>
  {
    seq(|bindings|, i requires 0 <= i < |bindings| =>
      PhysicalBinding(bindings[i].citationOrdinal,
                      if content == None then None else LocationOf(batch, ledger, documents, content.value, bindings[i])))
  }

  function LocateAnnotation(
      batch: PrivateBatch, ledger: seq<SubmissionLedger.Candidate>, documents: seq<IndexedDocument>, a: PrivateAnnotation)
    : Annotation
  {
    Annotation(a.kind, a.ordinal, a.relevance,
               if a.bindings == None then None
               else Some(LocateAll(batch, ledger, documents, ContentAt(batch.draft, a.kind, a.ordinal), a.bindings.value)))
  }

  function Locate(batch: PrivateBatch, ledger: seq<SubmissionLedger.Candidate>, documents: seq<IndexedDocument>): Batch {
    Batch(batch.batchId, batch.tainted, batch.draft,
          seq(|batch.annotations|, i requires 0 <= i < |batch.annotations| =>
            LocateAnnotation(batch, ledger, documents, batch.annotations[i])))
  }

  // ---- What is located ----

  // The text of the document's page at the span is the quotation.
  ghost predicate Stands(documents: seq<IndexedDocument>, citation: Citation, s: Span) {
    var page := DocumentPage(documents, citation.document, s.page);
    page.Some? && s.end <= |page.value.text| && page.value.text[s.start..s.end] == citation.quote
  }

  // The fragment was issued with the batch: as one of its fragments, or as the window of one of its coverage units, just as
  // the ledger lists that unit.
  ghost predicate IssuedWith(b: PrivateBatch, ledger: seq<SubmissionLedger.Candidate>, f: SourceFragment) {
    match f.provenance
    case Converted => exists i :: 0 <= i < |b.fragmentIds| && b.fragmentIds[i] == f.id
    case Window(unit, page, pageText, start, end, windowText) =>
      exists i, k ::
        && 0 <= i < |b.candidateIds| && 0 <= k < |ledger| && unit == Some(b.candidateIds[i]) && ledger[k].id == b.candidateIds[i]
        && (forall l :: 0 <= l < k ==> ledger[l].id != ledger[k].id)
        && ledger[k].document == f.document && ledger[k].page == page && ledger[k].pageText == pageText
        && ledger[k].core.contextStart == start && ledger[k].core.contextEnd == end && ledger[k].window == windowText
  }

  lemma {:induction false} FirstCandidate(ledger: seq<SubmissionLedger.Candidate>, k: nat)
    requires k < |ledger| && forall l :: 0 <= l < k ==> ledger[l].id != ledger[k].id
    ensures FindCandidate(ledger, ledger[k].id) == Some(ledger[k])
  {
    if k > 0 {
      forall l | 0 <= l < k - 1 ensures ledger[1..][l].id != ledger[k].id { assert ledger[l + 1].id != ledger[k].id; }
      FirstCandidate(ledger[1..], k - 1);
    }
  }

  lemma {:induction false} FoundCandidate(ledger: seq<SubmissionLedger.Candidate>, id: SubmissionLedger.CandidateId) returns (k: nat)
    requires FindCandidate(ledger, id).Some?
    ensures k < |ledger| && FindCandidate(ledger, id) == Some(ledger[k]) && ledger[k].id == id
    ensures forall l :: 0 <= l < k ==> ledger[l].id != id
  {
    if ledger[0].id == id {
      k := 0;
    } else {
      k := FoundCandidate(ledger[1..], id);
      k := k + 1;
      forall l | 0 <= l < k ensures ledger[l].id != id { assert l > 0 ==> ledger[1..][l - 1] == ledger[l]; }
    }
  }

  lemma CommittedExactly(b: PrivateBatch, ledger: seq<SubmissionLedger.Candidate>, m: SourceMap, f: SourceFragment)
    ensures Committed(b, ledger, m, f) <==> Intact(m, f) && IssuedWith(b, ledger, f)
  {
    hide Intact;
    match f.provenance {
      case Converted =>
      case Window(unit, page, pageText, start, end, windowText) =>
        if Committed(b, ledger, m, f) {
          var k := FoundCandidate(ledger, unit.value);
          var i :| 0 <= i < |b.candidateIds| && b.candidateIds[i] == unit.value;
        }
        if IssuedWith(b, ledger, f) {
          var i, k :|
            && 0 <= i < |b.candidateIds| && 0 <= k < |ledger| && unit == Some(b.candidateIds[i]) && ledger[k].id == b.candidateIds[i]
            && (forall l :: 0 <= l < k ==> ledger[l].id != ledger[k].id)
            && ledger[k].document == f.document && ledger[k].page == page && ledger[k].pageText == pageText
            && ledger[k].core.contextStart == start && ledger[k].core.contextEnd == end && ledger[k].window == windowText;
          FirstCandidate(ledger, k);
        }
    }
  }

  // The binding that a fragment and a resolved selection give.
  function BindingOf(ordinal: nat, f: SourceFragment, r: Resolved): PrivateBinding
    requires r.key.page > 0 && r.key.start <= r.key.end <= |r.key.pageText|
  {
    PrivateBinding(ordinal, f.id, f.text, r.selectorStart, r.selectorEnd, r.key.document, r.key.page, r.key.pageText,
                   r.key.start, r.key.end, r.key.pageText[r.key.start..r.key.end])
  }

  // A binding is accepted exactly when its fragment was issued, it is the resolution of its own selection, that resolution
  // is the quotation, all documents agree, and the page text is that of the document. The checks of lengths, of the
  // order of positions and of the text at the positions follow.
  lemma LocatedExactly(
      batch: PrivateBatch, ledger: seq<SubmissionLedger.Candidate>, documents: seq<IndexedDocument>, content: Content,
      b: PrivateBinding)
    requires b.citationOrdinal < |content.citations|
    ensures
      var citation, location := content.citations[b.citationOrdinal], LocationOf(batch, ledger, documents, content, b);
      && (location.Some? ==> location.value == PageSpan(b.page, b.evidenceStart, b.evidenceEnd))
      && (location.Some? <==>
          && batch.sourceMap.Some? && b.selectorStart < b.selectorEnd
          && var f := FindFragment(batch.sourceMap.value.fragments, b.fragmentId);
             && f.Some? && Intact(batch.sourceMap.value, f.value) && IssuedWith(batch, ledger, f.value)
             && var r := ResolveIn(batch.sourceMap.value, documents, f.value, Selector(b.selectorStart, b.selectorEnd - b.selectorStart));
                && r.Some? && r.value.key.page > 0 && r.value.key.start <= r.value.key.end <= |r.value.key.pageText|
                && b == BindingOf(b.citationOrdinal, f.value, r.value) && b.quote == citation.quote
                && b.document == citation.document == content.document
                && var page := DocumentPage(documents, citation.document, b.page);
                   page.Some? && page.value.text == b.pageText)
  {
    hide ResolveIn, Committed, FindFragment, DocumentPage, IssuedWith, Intact;
    if batch.sourceMap.Some? && b.selectorStart < b.selectorEnd {
      var f := FindFragment(batch.sourceMap.value.fragments, b.fragmentId);
      if f.Some? {
        CommittedExactly(batch, ledger, batch.sourceMap.value, f.value);
        if ResolveIn(batch.sourceMap.value, documents, f.value, SelectorOf(b)).Some? {
          ResolvedText(batch.sourceMap.value, documents, f.value, SelectorOf(b));
        }
      }
    }
  }

  lemma LocatedStands(
      batch: PrivateBatch, ledger: seq<SubmissionLedger.Candidate>, documents: seq<IndexedDocument>, content: Content,
      b: PrivateBinding)
    ensures
      var s := LocationOf(batch, ledger, documents, content, b);
      s.Some? ==> b.citationOrdinal < |content.citations| && Stands(documents, content.citations[b.citationOrdinal], s.value)
  {
    hide SpanResolution.Resolve, Committed, FindFragment, DocumentPage, IsResolution;
  }

  lemma BindingStands(
      batch: PrivateBatch, ledger: seq<SubmissionLedger.Candidate>, documents: seq<IndexedDocument>, content: Content,
      bindings: seq<PrivateBinding>, i: nat)
    requires i < |content.citations|
    ensures
      var s := BindingFor(LocateAll(batch, ledger, documents, Some(content), bindings), i);
      s.Some? ==> Stands(documents, content.citations[i], s.value)
  {
    hide LocationOf, Stands;
    var located := LocateAll(batch, ledger, documents, Some(content), bindings);
    var matching := Filter(located, (b: PhysicalBinding) => b.citationOrdinal == i);
    if matching != [] {
      assert matching[0] in matching;
      var k :| 0 <= k < |located| && located[k] == matching[0];
      LocatedStands(batch, ledger, documents, content, bindings[k]);
    }
  }

  // Located citations are as long as their spans.
  lemma LocationFits(
      batch: PrivateBatch, ledger: seq<SubmissionLedger.Candidate>, documents: seq<IndexedDocument>, content: Content,
      bindings: seq<PrivateBinding>)
    ensures LocatedAsQuoted(LocateAll(batch, ledger, documents, Some(content), bindings), content)
  {
    hide LocationOf;
    var located := LocateAll(batch, ledger, documents, Some(content), bindings);
    forall b | b in located && b.located.Some? && b.citationOrdinal < |content.citations|
      ensures |content.citations[b.citationOrdinal].quote| == b.located.value.end - b.located.value.start
    {
      var k :| 0 <= k < |located| && located[k] == b;
      LocatedStands(batch, ledger, documents, content, bindings[k]);
    }
  }

  lemma {:induction false} LocatedAnnotations(
      batch: PrivateBatch, ledger: seq<SubmissionLedger.Candidate>, documents: seq<IndexedDocument>, kind: Kind, ordinal: nat)
    ensures forall a :: a in AnnotationsFor(Locate(batch, ledger, documents), kind, ordinal) ==>
              exists p :: p in batch.annotations && p.kind == kind && p.ordinal == ordinal &&
                          a == LocateAnnotation(batch, ledger, documents, p)
  {
    hide LocateAll;
    var b := Locate(batch, ledger, documents);
    forall a | a in AnnotationsFor(b, kind, ordinal)
      ensures exists p :: p in batch.annotations && p.kind == kind && p.ordinal == ordinal && a == LocateAnnotation(batch, ledger, documents, p)
    {
      var k :| 0 <= k < |b.annotations| && b.annotations[k] == a;
      assert batch.annotations[k] in batch.annotations;
    }
  }

  // Every record that is published quotes its document: the page text at the span of each citation is the quotation, and
  // the verified relations back it there.
  lemma PublishedIsQuoted(
      batch: PrivateBatch, e: Evidence, documents: seq<IndexedDocument>, kind: Kind, ordinal: nat, content: Content, i: nat)
    requires ContentAt(batch.draft, kind, ordinal) == Some(content) && i < |content.citations|
    requires Publishable(JudgeRecord(e, Locate(batch, e.ledger, documents), kind, ordinal, content))
    ensures exists s: Span, relevance ::
              && content.citations[i].document == content.document
              && Stands(documents, content.citations[i], s)
              && Backed(e, relevance, content.document, s)
  {
    hide LocateAll, Stands, Backed, JudgeRecord, BindingFor, BindingsMatch;
    var b := Locate(batch, e.ledger, documents);
    PublishedExactly(e, b, kind, ordinal, content);
    var a :| AnnotationsFor(b, kind, ordinal) == [a] && a.bindings.Some? &&
             forall k :: 0 <= k < |content.citations| ==>
               && content.citations[k].document == content.document
               && BindingFor(a.bindings.value, k).Some?
               && Backed(e, a.relevance, content.document, BindingFor(a.bindings.value, k).value);
    LocatedAnnotations(batch, e.ledger, documents, kind, ordinal);
    assert a in [a];
    var p :| p in batch.annotations && p.kind == kind && p.ordinal == ordinal && a == LocateAnnotation(batch, e.ledger, documents, p);
    BindingStands(batch, e.ledger, documents, content, p.bindings.value, i);
    var s := BindingFor(a.bindings.value, i).value;
    assert Backed(e, a.relevance, content.document, s) && Stands(documents, content.citations[i], s);
  }
}
