// Verification of the model's answer to a submission ledger: which coverage units are accepted, and when the whole
// answer is complete.
module Adjudication {
  import opened Sorting
  import opened Ownership
  import opened SubmissionLedger
  import opened Texts

  const MAX_QUOTE_UTF16 := 500
  const MIN_CONFIDENCE := 0.9

  datatype Scope = WholeBid | Question | Artifact | OtherScope | Ambiguous
  datatype Modality = Required | Permitted | Prohibited | Conditional | UnknownModality

  datatype Decision = Decision(
    start: nat, end: nat, scope: Scope, modality: Modality, channel: Channel,
    conditionStart: Option<nat>, conditionEnd: Option<nat>, confidence: real)

  datatype Unit = Unit(candidate: CandidateId, document: string, page: int, uncertain: bool, decisions: seq<Decision>)

  datatype Binding = Binding(
    batchId: string, ledgerDigest: string, candidates: seq<CandidateId>, fragments: seq<string>, tainted: bool)

  datatype Response = Response(
    batchId: string, ledgerDigest: string, candidates: seq<CandidateId>, fragments: seq<string>, units: seq<Unit>)

  // A digest of a text is represented by the text.
  datatype Relation = Relation(
    document: string, role: Role, amendment: Option<string>, page: int, start: nat, end: nat,
    scope: Scope, modality: Modality, channel: Channel, condition: Option<Text>, confidence: real, quote: Text)

  datatype Reason =
    | Capacity | IncompletePageCoverage | InvalidAmendmentMetadata | MissingBatch | DuplicateBatch | UnknownBatch
    | LedgerDigestMismatch | BatchManifestMismatch | MissingCandidate | DuplicateCandidate | UnknownCandidate
    | ShaMismatch | PageMismatch | OffsetMismatch | QuoteTooLong | ConditionMismatch | OwnershipMismatch
    | LowConfidence | SemanticUncertainty | OverlapDisagreement | PromptInjection

  // A verdict without a reason is "verified", a verdict with one "unresolved".
  datatype Verdict = Verdict(
    candidate: CandidateId, document: string, page: int, reason: Option<Reason>, relations: seq<Relation>)

  datatype Adjudicated = Adjudicated(
    expectedCandidates: nat, verifiedCandidates: nat, expectedPages: nat, coveredPages: nat,
    expectedFragments: nat, verifiedFragments: nat, complete: bool, reasons: set<Reason>,
    verdicts: seq<Verdict>)

  datatype Validation = Accepted(relation: Relation) | Rejected(reason: Reason)

  // `String.prototype.slice` with a non-negative start.
  function JsSlice(s: Text, start: nat, end: int): Text {
    var to := Max(0, Min(end, |s|));
    if start >= to then [] else s[start..to]
  }

  function PageSlice(c: Candidate, start: int, end: int): Option<Text> {
    if start < c.core.contextStart || end > c.core.contextEnd || end <= start then None
    else Some(JsSlice(c.window, start - c.core.contextStart, end - c.core.contextStart))
  }

  function ValidateRelation(c: Candidate, d: Decision): (v: Validation)
    ensures v.Accepted? ==> v.relation.start == d.start && v.relation.end == d.end
  {
    var quote := PageSlice(c, d.start, d.end);
    if quote == None || quote.value == [] then Rejected(OffsetMismatch)
    else if |quote.value| > MAX_QUOTE_UTF16 then Rejected(QuoteTooLong)
    else if !Owns(c.core, d.start, d.end) then Rejected(OwnershipMismatch)
    else if d.confidence < MIN_CONFIDENCE then Rejected(LowConfidence)
    else
      var unconditional := d.conditionStart == None && d.conditionEnd == None;
      var bounded := d.conditionStart.Some? && d.conditionEnd.Some?;
      var condition := if bounded then PageSlice(c, d.conditionStart.value, d.conditionEnd.value) else None;
      if (!unconditional && condition == None) || (condition.Some? && condition.value == []) then
        Rejected(ConditionMismatch)
      else if bounded && (d.conditionStart.value < d.start || d.conditionEnd.value > d.end) then
        Rejected(ConditionMismatch)
      else if d.scope == Ambiguous || d.modality == UnknownModality || (d.scope == WholeBid && d.channel == Unspecified) then
        Rejected(SemanticUncertainty)
      else
        Accepted(Relation(c.document, c.role, c.amendment, c.page, d.start, d.end, d.scope, d.modality, d.channel,
                          condition, d.confidence, quote.value))
  }

  // A candidate whose window is the text of its context.
  predicate Windowed(c: Candidate) {
    && c.core.contextStart <= c.core.contextEnd <= |c.pageText|
    && c.window == c.pageText[c.core.contextStart..c.core.contextEnd]
  }

  predicate Inside(c: Candidate, start: nat, end: nat) {
    c.core.contextStart <= start < end <= c.core.contextEnd
  }

  // What a model decision must satisfy, stated without the order of the checks.
  predicate ValidDecision(c: Candidate, d: Decision) {
    && Inside(c, d.start, d.end)
    && d.end - d.start <= MAX_QUOTE_UTF16
    && Owns(c.core, d.start, d.end)
    && d.confidence >= MIN_CONFIDENCE
    && d.conditionStart.Some? == d.conditionEnd.Some?
    && (d.conditionStart.Some? ==> d.start <= d.conditionStart.value < d.conditionEnd.value <= d.end)
    && d.scope != Ambiguous
    && d.modality != UnknownModality
    && (d.scope == WholeBid ==> d.channel != Unspecified)
  }

  lemma SliceIsPageText(c: Candidate, start: nat, end: nat)
    requires Windowed(c)
    ensures PageSlice(c, start, end).Some? <==> Inside(c, start, end)
    ensures Inside(c, start, end) ==> PageSlice(c, start, end).value == c.pageText[start..end]
  {
  }

  // The relation repeats the decision, at its place in the page.
  ghost predicate Repeats(c: Candidate, d: Decision, r: Relation) {
    && r.start == d.start && r.end == d.end && d.start <= d.end <= |c.pageText|
    && r.scope == d.scope && r.modality == d.modality && r.channel == d.channel && r.confidence == d.confidence
    && r.document == c.document && r.role == c.role && r.amendment == c.amendment && r.page == c.page
    && r.quote == c.pageText[d.start..d.end]
    && match (d.conditionStart, d.conditionEnd)
       case (Some(from), Some(to)) => from <= to <= |c.pageText| && r.condition == Some(c.pageText[from..to])
       case (None, None) => r.condition == None
       case _ => false
  }

  // Exactly the valid decisions are accepted. The relation says what the decision says, about the document and page of
  // the unit, and the quote and the condition it carries are the page text itself.
  lemma ValidationExact(c: Candidate, d: Decision)
    requires Windowed(c)
    ensures ValidateRelation(c, d).Accepted? <==> ValidDecision(c, d)
    ensures ValidDecision(c, d) ==> Repeats(c, d, ValidateRelation(c, d).relation)
  {
    SliceIsPageText(c, d.start, d.end);
    if d.conditionStart.Some? && d.conditionEnd.Some? {
      SliceIsPageText(c, d.conditionStart.value, d.conditionEnd.value);
    }
  }

  // The first condition that an invalid decision misses gives the reason.
  lemma RejectionExact(c: Candidate, d: Decision)
    requires Windowed(c) && !ValidDecision(c, d)
    ensures ValidateRelation(c, d) == Rejected(
      if !Inside(c, d.start, d.end) then OffsetMismatch
      else if d.end - d.start > 500 then QuoteTooLong
      else if !(c.core.coreStart <= d.start + (d.end - d.start - 1) / 2 < c.core.coreEnd) then OwnershipMismatch
      else if d.confidence < 0.9 then LowConfidence
      else if d.conditionStart.Some? && d.conditionEnd.Some? && d.start <= d.conditionStart.value < d.conditionEnd.value <= d.end
      then SemanticUncertainty
      else if d.conditionStart == None && d.conditionEnd == None then SemanticUncertainty
      else ConditionMismatch)
  {
    SliceIsPageText(c, d.start, d.end);
    if d.conditionStart.Some? && d.conditionEnd.Some? {
      SliceIsPageText(c, d.conditionStart.value, d.conditionEnd.value);
    }
  }

  function FirstRejection(c: Candidate, decisions: seq<Decision>): (r: Option<Reason>)
    ensures r == None <==> forall d :: d in decisions ==> ValidateRelation(c, d).Accepted?
  {
    if decisions == [] then None
    else match ValidateRelation(c, decisions[0])
      case Rejected(reason) => Some(reason)
      case Accepted(_) => FirstRejection(c, decisions[1..])
  }

  predicate SpansDistinct(decisions: seq<Decision>) {
    forall i, j :: 0 <= i < j < |decisions| ==>
      decisions[i].start != decisions[j].start || decisions[i].end != decisions[j].end
  }

  function Relations(c: Candidate, decisions: seq<Decision>): (rs: seq<Relation>)
    requires FirstRejection(c, decisions) == None
  {
    seq(|decisions|, i requires 0 <= i < |decisions| => ValidateRelation(c, decisions[i]).relation)
  }

  // The reason why one coverage unit of a well-transported batch is not accepted.
  function UnitReason(c: Candidate, units: seq<Unit>, strayUnit: bool): Option<Reason> {
    var own := Filter(units, (u: Unit) => u.candidate == c.id);
    if strayUnit then Some(UnknownCandidate)
    else if |own| == 0 then Some(MissingCandidate)
    else if |own| > 1 then Some(DuplicateCandidate)
    else if own[0].document != c.document then Some(ShaMismatch)
    else if own[0].page != c.page then Some(PageMismatch)
    else if own[0].uncertain then Some(SemanticUncertainty)
    else if |own[0].decisions| > c.capacity then Some(Capacity)
    else if FirstRejection(c, own[0].decisions).Some? then FirstRejection(c, own[0].decisions)
    else if !SpansDistinct(own[0].decisions) then Some(OverlapDisagreement)
    else None
  }

  function Unresolved(c: Candidate, reason: Reason): Verdict {
    Verdict(c.id, c.document, c.page, Some(reason), [])
  }

  function UnitVerdict(c: Candidate, units: seq<Unit>, strayUnit: bool): Verdict {
    var reason := UnitReason(c, units, strayUnit);
    if reason.Some? then Unresolved(c, reason.value)
    else
      var own := Filter(units, (u: Unit) => u.candidate == c.id);
      Verdict(c.id, c.document, c.page, None, Relations(c, own[0].decisions))
  }

  function ResponsesTo(responses: seq<Response>, b: Binding): seq<Response> {
    Filter(responses, (r: Response) => r.batchId == b.batchId)
  }

  function BatchReason(b: Binding, responses: seq<Response>): Option<Reason> {
    var answers := ResponsesTo(responses, b);
    if |answers| == 0 then Some(MissingBatch)
    else if |answers| > 1 then Some(DuplicateBatch)
    else if answers[0].ledgerDigest != b.ledgerDigest then Some(LedgerDigestMismatch)
    else if answers[0].candidates != b.candidates || answers[0].fragments != b.fragments then Some(BatchManifestMismatch)
    else if b.tainted then Some(PromptInjection)
    else None
  }

  predicate StrayUnit(b: Binding, units: seq<Unit>) {
    exists u :: u in units && u.candidate !in b.candidates
  }

  function Verdicts(c: Candidate, b: Binding, responses: seq<Response>): Verdict {
    var reason := BatchReason(b, responses);
    if reason.Some? then Unresolved(c, reason.value)
    else
      var units := ResponsesTo(responses, b)[0].units;
      UnitVerdict(c, units, StrayUnit(b, units))
  }

  predicate Known(candidates: seq<Candidate>, id: CandidateId) {
    exists i :: 0 <= i < |candidates| && candidates[i].id == id
  }

  // `candidates.find(candidate => candidate.candidate_id === id)`.
  function Find(candidates: seq<Candidate>, id: CandidateId): (c: Candidate)
    requires Known(candidates, id)
    ensures c in candidates && c.id == id
  {
    if candidates[0].id == id then candidates[0] else Find(candidates[1..], id)
  }

  ghost function Assigned(bindings: seq<Binding>): multiset<CandidateId> {
    if bindings == [] then multiset{}
    else Assigned(bindings[..|bindings| - 1]) + multiset(bindings[|bindings| - 1].candidates)
  }

  ghost function FragmentCount(bindings: seq<Binding>): nat {
    if bindings == [] then 0
    else FragmentCount(bindings[..|bindings| - 1]) + |bindings[|bindings| - 1].fragments|
  }

  // The fragments of the batches whose transport is intact.
  ghost function IntactFragments(bindings: seq<Binding>, responses: seq<Response>): nat {
    if bindings == [] then 0
    else
      var b := bindings[|bindings| - 1];
      IntactFragments(bindings[..|bindings| - 1], responses) + (if BatchReason(b, responses) == None then |b.fragments| else 0)
  }

  // The reason for which the whole answer is set aside before any batch is read.
  ghost function EarlyReason(ledger: Ledger, bindings: seq<Binding>, packingComplete: bool): Option<Reason> {
    if ledger.capacityExceeded || !packingComplete then Some(Capacity)
    else if ledger.expectedPages != ledger.coveredPages then Some(IncompletePageCoverage)
    else if !ledger.metadataComplete then Some(InvalidAmendmentMetadata)
    else if exists id :: id in Assigned(bindings) && !Known(ledger.candidates, id) then Some(UnknownCandidate)
    else if exists c :: c in ledger.candidates && Assigned(bindings)[c.id] > 1 then Some(DuplicateCandidate)
    else if exists c :: c in ledger.candidates && Assigned(bindings)[c.id] == 0 then Some(MissingCandidate)
    else None
  }

  // An acceptable unit, stated without the order of the checks.
  predicate ValidUnit(c: Candidate, u: Unit) {
    && u.document == c.document
    && u.page == c.page
    && !u.uncertain
    && |u.decisions| <= c.capacity
    && (forall d :: d in u.decisions ==> ValidateRelation(c, d).Accepted?)
    && SpansDistinct(u.decisions)
  }

  // A batch is clean when it has exactly one, faithful, untainted answer which covers each of its candidates once.
  ghost predicate CleanBatch(ledger: Ledger, b: Binding, responses: seq<Response>) {
    exists r ::
      && ResponsesTo(responses, b) == [r]
      && r.ledgerDigest == b.ledgerDigest && r.candidates == b.candidates && r.fragments == b.fragments
      && !b.tainted
      && (forall u :: u in r.units ==> u.candidate in b.candidates)
      && forall id :: id in b.candidates && Known(ledger.candidates, id) ==> CleanUnit(Find(ledger.candidates, id), r.units)
  }

  ghost predicate CleanUnit(c: Candidate, units: seq<Unit>) {
    exists u :: Filter(units, (v: Unit) => v.candidate == c.id) == [u] && ValidUnit(c, u)
  }

  ghost predicate KnownBatches(bindings: seq<Binding>, responses: seq<Response>) {
    forall r :: r in responses ==> exists b :: b in bindings && b.batchId == r.batchId
  }

  // When an answer is complete.
  ghost predicate Complete(ledger: Ledger, bindings: seq<Binding>, responses: seq<Response>, packingComplete: bool) {
    && |ledger.candidates| > 0
    && !ledger.capacityExceeded && packingComplete
    && ledger.expectedPages == ledger.coveredPages
    && ledger.metadataComplete
    && (forall id :: id in Assigned(bindings) ==> Known(ledger.candidates, id))
    && (forall c :: c in ledger.candidates ==> Assigned(bindings)[c.id] == 1)
    && KnownBatches(bindings, responses)
    && forall b :: b in bindings ==> CleanBatch(ledger, b, responses)
  }

  // The verdict on a candidate comes from the one batch that it is bound to.
  ghost predicate JudgedBy(ledger: Ledger, bindings: seq<Binding>, responses: seq<Response>, id: CandidateId, v: Verdict)
    requires Known(ledger.candidates, id)
  {
    exists b :: b in bindings && id in b.candidates && v == Verdicts(Find(ledger.candidates, id), b, responses)
  }

  function Verified(verdicts: seq<Verdict>): nat {
    |Filter(verdicts, (v: Verdict) => v.reason == None)|
  }

  // The contract of `verifySubmissionAdjudication`.
  ghost predicate IsAdjudication(
    ledger: Ledger, bindings: seq<Binding>, responses: seq<Response>, packingComplete: bool, a: Adjudicated)
  {
    var n := |ledger.candidates|;
    var early := EarlyReason(ledger, bindings, packingComplete);
    && a.expectedCandidates == n == |a.verdicts|
    && a.expectedPages == ledger.expectedPages && a.coveredPages == ledger.coveredPages
    && a.expectedFragments == FragmentCount(bindings)
    && (a.complete <==> Complete(ledger, bindings, responses, packingComplete))
    && (a.complete ==> a.reasons == {})
    && a.verifiedCandidates == Verified(a.verdicts)
    && match early
       case Some(reason) =>
         && a.reasons == {reason}
         && a.verifiedFragments == 0
         && forall i :: 0 <= i < n ==> a.verdicts[i] == Unresolved(ledger.candidates[i], reason)
       case None =>
         && (a.reasons == {} <==>
             KnownBatches(bindings, responses) && forall b :: b in bindings ==> CleanBatch(ledger, b, responses))
         && a.verifiedFragments == IntactFragments(bindings, responses)
         && forall i :: 0 <= i < n ==> OwnVerdict(ledger, bindings, responses, i, a.verdicts[i])
  }

  ghost predicate OwnVerdict(ledger: Ledger, bindings: seq<Binding>, responses: seq<Response>, i: nat, v: Verdict)
    requires i < |ledger.candidates|
  {
    var id := ledger.candidates[i].id;
    Known(ledger.candidates, id) && JudgedBy(ledger, bindings, responses, id, v)
  }
}
