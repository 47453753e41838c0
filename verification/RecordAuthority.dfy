// Record authority: each model record is judged against the issued source and the verified submission relations, equal
// records of different batches are joined, and the result is sealed into a manifest.
module RecordAuthority {
  import opened Sorting
  import opened Groups
  import opened Ownership
  import opened SubmissionLedger
  import opened Adjudication
  import opened CanonicalMerge
  import opened Texts

  const VERSION := 3
  const MAX_RECORDS_PER_BATCH := 2_600
  const MAX_CITATIONS := 3
  const MAX_OCCURRENCES := 8
  const MAX_RECEIPT_BYTES := 524_288

  datatype Relevance = Submission | NotSubmission | Uncertain
  datatype SourceBinding = Unlocated | ExactBound | CoverageGap | RelationGap | RelationConflict
  datatype Crosscheck = Consistent | Disagrees | Undecided

  datatype AuthorityReason =
    | MissingAnnotation | DuplicateAnnotation | LegacyUnboundCitation | TaintedBatch | CitationCapacity
    | MissingExactCitation | InvalidPrivateSourceBinding | CrossDocumentCitation | IncompleteOccurrenceCoverage
    | RelationlessSubmissionRecord | SubmissionRelationConflict | NonSubmissionRelationOverlap | UncertainRecord
    | RelevanceDisagreement | SemanticDisagreement
    | RepeatedBatch | UnknownAnnotation | RecordCapacity | LostOrigin | MergedRecordMappingMismatch
    | ReceiptCapacity | ReceiptIntegrity

  // Pages are numbered from 1, and a binding without extent is not accepted.
  datatype PageSpan = PageSpan(page: int, start: nat, end: nat)
  type Span = s: PageSpan | s.page > 0 && s.start < s.end witness PageSpan(1, 0, 1)

  // `located` is the span that the batch's source map re-resolves for the citation of that ordinal, when that
  // resolution agrees with the binding, the citation, the document and the page byte for byte.
  datatype PhysicalBinding = PhysicalBinding(citationOrdinal: nat, located: Option<Span>)

  // A located citation has the length of its span, since the page text at the span is the quotation.
  ghost predicate LocatedAsQuoted(bindings: seq<PhysicalBinding>, content: Content) {
    forall b :: b in bindings && b.located.Some? && b.citationOrdinal < |content.citations| ==>
      |content.citations[b.citationOrdinal].quote| == b.located.value.end - b.located.value.start
  }

  datatype Annotation = Annotation(
    kind: Kind, ordinal: nat, relevance: Relevance, bindings: Option<seq<PhysicalBinding>>)

  datatype Batch = Batch(batchId: string, tainted: bool, draft: Draft, annotations: seq<Annotation>)

  // The candidates of the ledger and the verdict on each.
  datatype Evidence = Evidence(ledger: seq<Candidate>, verdicts: map<CandidateId, Verdict>)

  // A sorted list of identifiers or digests is represented by the set or multiset of its members.
  datatype Occurrence = Occurrence(span: Span, candidates: set<CandidateId>, relations: multiset<Relation>)
  datatype CitationBinding = CitationBinding(document: string, quote: Text, occurrences: seq<Occurrence>)

  // An injective digest of these fields.
  datatype OriginKey = OriginKey(batchId: string, kind: Kind, ordinal: nat, content: Content)

  datatype Judgement = Judgement(
    source: SourceBinding, crosscheck: Crosscheck, reason: Option<AuthorityReason>,
    bindings: seq<CitationBinding>, channels: set<Channel>)

  datatype Origin = Origin(key: OriginKey, id: Text, relevance: Option<Relevance>, judgement: Judgement)

  // ---- One citation ----

  function Owners(e: Evidence, document: string, s: Span): seq<Candidate> {
    Filter(e.ledger, (c: Candidate) =>
      c.document == document && c.page == s.page && Owns(c.core, s.start, s.end) && Holds(c.core, s.start, s.end))
  }

  function CoveringVerdicts(e: Evidence, owners: seq<Candidate>): seq<Verdict> {
    if owners == [] then []
    else
      var id := owners[0].id;
      (if id in e.verdicts && e.verdicts[id].reason == None then [e.verdicts[id]] else []) + CoveringVerdicts(e, owners[1..])
  }

  predicate Overlaps(r: Relation, document: string, s: Span) {
    r.document == document && r.page == s.page && r.start < s.end && r.end > s.start
  }

  function Overlapping(verdicts: seq<Verdict>, document: string, s: Span): (rs: seq<Relation>)
    ensures forall r :: r in rs <==> Overlaps(r, document, s) && exists v :: v in verdicts && r in v.relations
  {
    if verdicts == [] then []
    else
      assert verdicts == [verdicts[0]] + verdicts[1..];
      Filter(verdicts[0].relations, (r: Relation) => Overlaps(r, document, s)) + Overlapping(verdicts[1..], document, s)
  }

  predicate Doubtful(r: Relation) {
    r.scope == Ambiguous || r.modality == UnknownModality || r.channel == Unspecified
  }

  predicate NamesBid(r: Relation) {
    r.scope == WholeBid && r.modality != UnknownModality && r.channel != Unspecified
  }

  predicate Contests(r: Relation) {
    r.channel != Unspecified && (r.scope == WholeBid || r.scope == Ambiguous)
  }

  datatype Failure = Failure(source: SourceBinding, crosscheck: Crosscheck, reason: AuthorityReason)

  // The verdict of the overlapping relations on a covered citation.
  function RelationFailure(relevance: Relevance, overlaps: seq<Relation>): Option<Failure> {
    match relevance
    case Submission =>
      if overlaps == [] then Some(Failure(RelationGap, Disagrees, RelationlessSubmissionRecord))
      else if (forall r :: r in overlaps ==> !NamesBid(r)) || exists r :: r in overlaps && Doubtful(r) then
        Some(Failure(RelationConflict, Disagrees, SubmissionRelationConflict))
      else None
    case NotSubmission =>
      if exists r :: r in overlaps && Contests(r) then
        Some(Failure(RelationConflict, Disagrees, NonSubmissionRelationOverlap))
      else None
    case Uncertain => Some(Failure(ExactBound, Disagrees, UncertainRecord))
  }

  function BidChannels(overlaps: seq<Relation>): set<Channel> {
    set r | r in overlaps && r.scope == WholeBid && r.channel != Unspecified :: r.channel
  }

  datatype Outcome = Outcome(failure: Option<Failure>, binding: Option<CitationBinding>, channels: set<Channel>)

  function BindingFor(bindings: seq<PhysicalBinding>, i: nat): Option<Span> {
    var matching := Filter(bindings, (b: PhysicalBinding) => b.citationOrdinal == i);
    if matching == [] then None else matching[0].located
  }

  function JudgeCitation(
      e: Evidence, content: Content, bindings: seq<PhysicalBinding>, relevance: Relevance, i: nat): Outcome
    requires i < |content.citations|
  {
    var citation := content.citations[i];
    if citation.document != content.document then
      Outcome(Some(Failure(Unlocated, Undecided, CrossDocumentCitation)), None, {})
    else if BindingFor(bindings, i) == None then
      Outcome(Some(Failure(Unlocated, Undecided, InvalidPrivateSourceBinding)), None, {})
    else
      var s := BindingFor(bindings, i).value;
      var owners := Owners(e, citation.document, s);
      var covering := CoveringVerdicts(e, owners);
      var overlaps := Overlapping(covering, citation.document, s);
      var binding := CitationBinding(
        citation.document, citation.quote, [Occurrence(s, set c | c in owners :: c.id, multiset(overlaps))]);
      if covering == [] then
        Outcome(
          Some(Failure(CoverageGap, if relevance == Submission then Disagrees else Undecided, IncompleteOccurrenceCoverage)),
          Some(binding), {})
      else
        Outcome(RelationFailure(relevance, overlaps), Some(binding), BidChannels(overlaps))
  }

  // ---- One record ----

  function Listed(binding: Option<CitationBinding>): seq<CitationBinding> {
    if binding == None then [] else [binding.value]
  }

  function JudgeFrom(
      e: Evidence, content: Content, bindings: seq<PhysicalBinding>, relevance: Relevance, i: nat): Judgement
    requires i <= |content.citations|
    decreases |content.citations| - i
  {
    if i == |content.citations| then Judgement(ExactBound, Consistent, None, [], {})
    else
      var o := JudgeCitation(e, content, bindings, relevance, i);
      if o.failure.Some? then
        var f := o.failure.value;
        Judgement(f.source, f.crosscheck, Some(f.reason), Listed(o.binding), o.channels)
      else
        var rest := JudgeFrom(e, content, bindings, relevance, i + 1);
        Prefixed(Listed(o.binding), o.channels, rest)
  }

  // A judgement with earlier bindings and channels put in front.
  function Prefixed(bindings: seq<CitationBinding>, channels: set<Channel>, j: Judgement): Judgement {
    j.(bindings := bindings + j.bindings, channels := channels + j.channels)
  }

  lemma PrefixedTwice(b: seq<CitationBinding>, c: set<Channel>, more: seq<CitationBinding>, others: set<Channel>, j: Judgement)
    ensures Prefixed(b, c, Prefixed(more, others, j)) == Prefixed(b + more, c + others, j)
  {
    assert b + (more + j.bindings) == b + more + j.bindings;
  }

  // The loop over the citations, which stops at the first one that fails.
  method JudgeCitations(e: Evidence, content: Content, bindings: seq<PhysicalBinding>, relevance: Relevance)
    returns (j: Judgement)
    requires content.citations != []
    ensures j == JudgeFrom(e, content, bindings, relevance, 0)
  {
    hide JudgeCitation;
    var listed: seq<CitationBinding> := [];
    var channels: set<Channel> := {};
    var i: nat := 0;
    assert JudgeFrom(e, content, bindings, relevance, 0) == Prefixed([], {}, JudgeFrom(e, content, bindings, relevance, 0));
    while i < |content.citations|
      invariant i <= |content.citations|
      invariant JudgeFrom(e, content, bindings, relevance, 0) ==
                Prefixed(listed, channels, JudgeFrom(e, content, bindings, relevance, i))
    {
      var o := JudgeCitation(e, content, bindings, relevance, i);
      if o.failure == None {
        PrefixedTwice(listed, channels, Listed(o.binding), o.channels, JudgeFrom(e, content, bindings, relevance, i + 1));
      }
      listed := listed + Listed(o.binding);
      channels := channels + o.channels;
      if o.failure.Some? {
        var f := o.failure.value;
        return Judgement(f.source, f.crosscheck, Some(f.reason), listed, channels);
      }
      i := i + 1;
    }
    j := Judgement(ExactBound, Consistent, None, listed, channels);
  }

  function AnnotationsFor(b: Batch, kind: Kind, ordinal: nat): seq<Annotation> {
    Filter(b.annotations, (a: Annotation) => a.kind == kind && a.ordinal == ordinal)
  }

  predicate AllDifferent<T(==)>(s: seq<T>) {
    forall i, j :: 0 <= i < j < |s| ==> s[i] != s[j]
  }

  predicate BindingsMatch(bindings: seq<PhysicalBinding>, content: Content) {
    && |bindings| == |content.citations|
    && AllDifferent(seq(|bindings|, i requires 0 <= i < |bindings| => bindings[i].citationOrdinal))
  }

  // The reasons that are found before any citation is located.
  function EarlyFailure(b: Batch, annotations: seq<Annotation>, content: Content): Option<AuthorityReason> {
    if |annotations| == 0 then Some(MissingAnnotation)
    else if |annotations| > 1 then Some(DuplicateAnnotation)
    else if annotations[0].bindings == None then Some(LegacyUnboundCitation)
    else if b.tainted then Some(TaintedBatch)
    else if |content.citations| > MAX_CITATIONS then Some(CitationCapacity)
    else if content.citations == [] then Some(MissingExactCitation)
    else if !BindingsMatch(annotations[0].bindings.value, content) then Some(InvalidPrivateSourceBinding)
    else None
  }

  function JudgeRecord(e: Evidence, b: Batch, kind: Kind, ordinal: nat, content: Content): Judgement {
    var annotations := AnnotationsFor(b, kind, ordinal);
    var early := EarlyFailure(b, annotations, content);
    if early.Some? then Judgement(Unlocated, Undecided, early, [], {})
    else JudgeFrom(e, content, annotations[0].bindings.value, annotations[0].relevance, 0)
  }

  function RelevanceOf(b: Batch, kind: Kind, ordinal: nat): Option<Relevance> {
    var annotations := AnnotationsFor(b, kind, ordinal);
    if |annotations| == 1 then Some(annotations[0].relevance) else None
  }

  predicate Publishable(j: Judgement) {
    j.reason == None && j.source == ExactBound && j.crosscheck == Consistent
  }

  // ---- All records ----

  datatype Item = Item(kind: Kind, ordinal: nat, record: Record)

  function Items(kind: Kind, records: seq<Record>): seq<Item> {
    seq(|records|, i requires 0 <= i < |records| => Item(kind, i, records[i]))
  }

  function RecordsIn(d: Draft): seq<Item> {
    Items(Claim, d.claims) + Items(Requirement, d.requirements) + Items(Risk, d.risks) + Items(Rule, d.rules)
  }

  function OriginOf(e: Evidence, b: Batch, item: Item): Origin {
    Origin(OriginKey(b.batchId, item.kind, item.ordinal, item.record.content), item.record.id,
           RelevanceOf(b, item.kind, item.ordinal),
           JudgeRecord(e, b, item.kind, item.ordinal, item.record.content))
  }

  function BatchOrigins(e: Evidence, b: Batch): seq<Origin> {
    var items := RecordsIn(b.draft);
    seq(|items|, i requires 0 <= i < |items| => OriginOf(e, b, items[i]))
  }

  function Origins(e: Evidence, batches: seq<Batch>): seq<Origin> {
    if batches == [] then []
    else Origins(e, batches[..|batches| - 1]) + BatchOrigins(e, batches[|batches| - 1])
  }

  function BatchReasons(b: Batch): seq<AuthorityReason> {
    var items := RecordsIn(b.draft);
    (if exists a :: a in b.annotations && forall item :: item in items ==> item.kind != a.kind || item.ordinal != a.ordinal
     then [UnknownAnnotation] else []) +
    (if |items| > MAX_RECORDS_PER_BATCH then [RecordCapacity] else [])
  }

  function BatchesReasons(batches: seq<Batch>): seq<AuthorityReason> {
    if batches == [] then []
    else BatchesReasons(batches[..|batches| - 1]) + BatchReasons(batches[|batches| - 1])
  }

  method CollectOrigins(e: Evidence, batches: seq<Batch>) returns (origins: seq<Origin>, reasons: seq<AuthorityReason>)
    ensures origins == Origins(e, batches)
    ensures reasons == BatchesReasons(batches)
  {
    hide JudgeRecord, JudgeFrom, JudgeCitation, RelevanceOf, EarlyFailure, BatchReasons, RecordsIn;
    origins, reasons := [], [];
    for i := 0 to |batches|
      invariant origins == Origins(e, batches[..i])
      invariant reasons == BatchesReasons(batches[..i])
    {
      var b := batches[i];
      assert batches[..i + 1][..i] == batches[..i];
      reasons := reasons + BatchReasons(b);
      var items := RecordsIn(b.draft);
      ghost var before := origins;
      for k := 0 to |items|
        invariant origins == before + BatchOrigins(e, b)[..k]
      {
        var content := items[k].record.content;
        var annotations := AnnotationsFor(b, items[k].kind, items[k].ordinal);
        var early := EarlyFailure(b, annotations, content);
        var judgement := Judgement(Unlocated, Undecided, early, [], {});
        if early == None {
          judgement := LocateRecord(e, b, annotations, content);
        }
        assert judgement == JudgeRecord(e, b, items[k].kind, items[k].ordinal, content) by {
          JudgedAsSpecified(e, b, items[k].kind, items[k].ordinal, content);
        }
        origins := origins + [Origin(
          OriginKey(b.batchId, items[k].kind, items[k].ordinal, content), items[k].record.id,
          RelevanceOf(b, items[k].kind, items[k].ordinal), judgement)];
      }
    }
    assert batches[..|batches|] == batches;
  }

  lemma JudgedAsSpecified(e: Evidence, b: Batch, kind: Kind, ordinal: nat, content: Content)
    ensures
      var annotations := AnnotationsFor(b, kind, ordinal);
      var early := EarlyFailure(b, annotations, content);
      JudgeRecord(e, b, kind, ordinal, content) ==
        if early.Some? then Judgement(Unlocated, Undecided, early, [], {})
        else JudgeFrom(e, content, annotations[0].bindings.value, annotations[0].relevance, 0)
  {
  }

  method LocateRecord(e: Evidence, b: Batch, annotations: seq<Annotation>, content: Content) returns (j: Judgement)
    requires EarlyFailure(b, annotations, content) == None
    ensures j == JudgeFrom(e, content, annotations[0].bindings.value, annotations[0].relevance, 0)
  {
    j := JudgeCitations(e, content, annotations[0].bindings.value, annotations[0].relevance);
  }

  // ---- Merged identifiers ----

  function RecordsOf(origins: seq<Origin>): (rs: seq<Record>)
    ensures |rs| == |origins|
    ensures forall i :: 0 <= i < |rs| ==> rs[i] == Record(origins[i].id, origins[i].key.content)
  {
    seq(|origins|, i requires 0 <= i < |origins| => Record(origins[i].id, origins[i].key.content))
  }

  function OfKind(origins: seq<Origin>, kind: Kind): seq<Origin> {
    Filter(origins, (o: Origin) => o.key.kind == kind)
  }

  // The identifier under which a record is merged; the empty one is treated as none.
  function IdFor(naming: Naming, origins: seq<Origin>, key: OriginKey): Text {
    LookUp(Plan(naming, RecordsOf(OfKind(origins, key.kind))), key.content)
  }

  // Only identifiers of origins are mapped, each to the identifier under which it is merged.
  ghost predicate IdsSound(naming: Naming, origins: seq<Origin>, ids: map<OriginKey, Text>) {
    forall k :: k in ids ==> ids[k] == IdFor(naming, origins, k) != [] && exists o :: o in origins && o.key == k
  }

  ghost predicate IdsComplete(naming: Naming, origins: seq<Origin>, part: seq<Origin>, ids: map<OriginKey, Text>) {
    forall o :: o in part && IdFor(naming, origins, o.key) != [] ==> o.key in ids
  }

  ghost predicate IsIdMap(naming: Naming, origins: seq<Origin>, ids: map<OriginKey, Text>) {
    IdsSound(naming, origins, ids) && IdsComplete(naming, origins, origins, ids)
  }

  function KindOf(o: Origin): Kind { o.key.kind }

  method MergeKind(naming: Naming, origins: seq<Origin>, kind: Kind, ids: map<OriginKey, Text>)
    returns (more: map<OriginKey, Text>)
    requires IdsSound(naming, origins, ids)
    ensures IdsSound(naming, origins, more)
    ensures ids.Keys <= more.Keys
    ensures IdsComplete(naming, origins, OfKind(origins, kind), more)
  {
    hide Plan, LookUp, IdFor, IdsSound;
    var values := OfKind(origins, kind);
    var plan := PlanCanonicalRecordMerge(naming, RecordsOf(values));
    more := ids;
    for k := 0 to |values|
      invariant IdsSound(naming, origins, more)
      invariant ids.Keys <= more.Keys
      invariant IdsComplete(naming, origins, values[..k], more)
    {
      var o := values[k];
      assert o in values;
      var mergedId := LookUp(plan, o.key.content);
      LookedUp(naming, origins, o.key);
      if mergedId != [] {
        OneMoreSound(naming, origins, more, o);
        more := more[o.key := mergedId];
      }
    }
    assert values[..|values|] == values;
  }

  lemma LookedUp(naming: Naming, origins: seq<Origin>, key: OriginKey)
    ensures IdFor(naming, origins, key) == LookUp(Plan(naming, RecordsOf(OfKind(origins, key.kind))), key.content)
  {
  }

  lemma OneMoreSound(naming: Naming, origins: seq<Origin>, ids: map<OriginKey, Text>, o: Origin)
    requires IdsSound(naming, origins, ids) && o in origins && IdFor(naming, origins, o.key) != []
    ensures IdsSound(naming, origins, ids[o.key := IdFor(naming, origins, o.key)])
  {
    hide IdFor;
  }

  method MergedIds(naming: Naming, origins: seq<Origin>) returns (ids: map<OriginKey, Text>)
    ensures IsIdMap(naming, origins, ids)
  {
    hide GroupBy, IdFor, OfKind;
    var byKind := Collect(origins, KindOf);
    ids := map[];
    for i := 0 to |byKind|
      invariant IdsSound(naming, origins, ids)
      invariant forall j :: 0 <= j < i ==> IdsComplete(naming, origins, OfKind(origins, byKind[j].0), ids)
    {
      ids := MergeKind(naming, origins, byKind[i].0, ids);
    }
    forall o | o in origins && IdFor(naming, origins, o.key) != [] ensures o.key in ids {
      GroupOfElement(origins, KindOf, o);
      var j :| 0 <= j < |byKind| && byKind[j].0 == KindOf(o) && o in byKind[j].1;
      InKind(origins, o);
    }
  }

  lemma InKind(origins: seq<Origin>, o: Origin)
    requires o in origins
    ensures o in OfKind(origins, o.key.kind)
  {
  }
}
