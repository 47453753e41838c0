// When a single model record may be published, and what decides otherwise.
module AuthorityRecords {
  import opened Sorting
  import opened Ownership
  import opened SubmissionLedger
  import opened LedgerProperties
  import opened Adjudication
  import opened CanonicalMerge
  import opened RecordAuthority

  predicate Passes(e: Evidence, content: Content, bindings: seq<PhysicalBinding>, relevance: Relevance, i: nat)
    requires i < |content.citations|
  {
    JudgeCitation(e, content, bindings, relevance, i).failure == None
  }

  // The first citation that fails decides the judgement.
  lemma {:induction false} FirstFailureDecides(
      e: Evidence, content: Content, bindings: seq<PhysicalBinding>, relevance: Relevance, i: nat)
    requires i <= |content.citations|
    ensures
      var j := JudgeFrom(e, content, bindings, relevance, i);
      if forall k :: i <= k < |content.citations| ==> Passes(e, content, bindings, relevance, k)
      then j.source == ExactBound && j.crosscheck == Consistent && j.reason == None
      else exists k :: i <= k < |content.citations| &&
                       (forall l :: i <= l < k ==> Passes(e, content, bindings, relevance, l)) &&
                       j.reason.Some? &&
                       JudgeCitation(e, content, bindings, relevance, k).failure == Some(Failure(j.source, j.crosscheck, j.reason.value))
    decreases |content.citations| - i
  {
    hide JudgeCitation;
    if i < |content.citations| {
      if Passes(e, content, bindings, relevance, i) {
        FirstFailureDecides(e, content, bindings, relevance, i + 1);
      }
    }
  }

  // A verified relation that overlaps a span and belongs to the unit that owns the span.
  ghost predicate Bears(e: Evidence, document: string, s: Span, c: Candidate, r: Relation) {
    && Covers(e, document, s, c)
    && r in e.verdicts[c.id].relations
    && r.document == document && r.page == s.page && r.start < s.end && s.start < r.end
  }

  // The relation says how the whole bid is to be sent.
  ghost predicate Directs(r: Relation) {
    r.scope == WholeBid && !r.modality.UnknownModality? && !r.channel.Unspecified?
  }

  // Nothing about the relation is left open.
  ghost predicate Clear(r: Relation) {
    !r.scope.Ambiguous? && !r.modality.UnknownModality? && !r.channel.Unspecified?
  }

  // The relation names no channel for the bid, not even possibly.
  ghost predicate Unrelated(r: Relation) {
    r.channel == Unspecified || r.scope == Question || r.scope == Artifact || r.scope == OtherScope
  }

  // A unit of the ledger, verified or not, that holds the middle of the span in its core and reads all of it.
  ghost predicate Reads(e: Evidence, document: string, s: Span, c: Candidate) {
    && c in e.ledger && c.document == document && c.page == s.page
    && c.core.contextStart <= s.start && s.end <= c.core.contextEnd
    && c.core.coreStart <= s.start + (s.end - s.start - 1) / 2 < c.core.coreEnd
  }

  ghost predicate Covers(e: Evidence, document: string, s: Span, c: Candidate) {
    Reads(e, document, s, c) && c.id in e.verdicts && e.verdicts[c.id].reason == None
  }

  lemma OwnersExactly(e: Evidence, document: string, s: Span)
    ensures forall c :: c in Owners(e, document, s) <==> Reads(e, document, s, c)
  {
  }

  // What the verified relations must say about a citation, by relevance.
  ghost predicate Backed(e: Evidence, relevance: Relevance, document: string, s: Span) {
    (exists c :: Covers(e, document, s, c)) && Compatible(e, relevance, document, s)
  }

  ghost predicate Compatible(e: Evidence, relevance: Relevance, document: string, s: Span) {
    match relevance
    case Submission =>
      && (exists c, r :: Bears(e, document, s, c, r) && Directs(r))
      && forall c, r :: Bears(e, document, s, c, r) ==> Clear(r)
    case NotSubmission => forall c, r :: Bears(e, document, s, c, r) ==> Unrelated(r)
    case Uncertain => false
  }

  lemma {:induction false} CoveringExact(e: Evidence, owners: seq<Candidate>)
    ensures forall v :: v in CoveringVerdicts(e, owners) <==>
      exists c :: c in owners && c.id in e.verdicts && e.verdicts[c.id].reason == None && v == e.verdicts[c.id]
    ensures CoveringVerdicts(e, owners) == [] <==> forall c :: c in owners ==> !(c.id in e.verdicts && e.verdicts[c.id].reason == None)
  {
    if owners != [] {
      CoveringExact(e, owners[1..]);
    }
  }

  lemma OverlapExact(e: Evidence, document: string, s: Span)
    ensures
      var covering := CoveringVerdicts(e, Owners(e, document, s));
      && (covering != [] <==> exists c :: Covers(e, document, s, c))
      && forall r :: r in Overlapping(covering, document, s) <==> exists c :: Bears(e, document, s, c, r)
  {
    hide Owners, Reads, CoveringVerdicts, Overlapping;
    var owners := Owners(e, document, s);
    var covering := CoveringVerdicts(e, owners);
    OwnersExactly(e, document, s);
    CoveringExact(e, owners);
    forall c ensures Covers(e, document, s, c) <==> c in owners && c.id in e.verdicts && e.verdicts[c.id].reason == None { }
    forall r ensures r in Overlapping(covering, document, s) <==> exists c :: Bears(e, document, s, c, r) {
      if r in Overlapping(covering, document, s) {
        var v :| v in covering && r in v.relations;
        var c :| c in owners && c.id in e.verdicts && e.verdicts[c.id].reason == None && v == e.verdicts[c.id];
        assert Bears(e, document, s, c, r);
      }
      if exists c :: Bears(e, document, s, c, r) {
        var c :| Bears(e, document, s, c, r);
        assert e.verdicts[c.id] in covering;
      }
    }
  }

  lemma KindsOfRelation(r: Relation)
    ensures NamesBid(r) == Directs(r) && Doubtful(r) == !Clear(r) && Contests(r) == !Unrelated(r)
  {
  }

  lemma PassesExactly(e: Evidence, content: Content, bindings: seq<PhysicalBinding>, relevance: Relevance, i: nat)
    requires i < |content.citations|
    ensures Passes(e, content, bindings, relevance, i) <==>
            content.citations[i].document == content.document && BindingFor(bindings, i).Some? &&
            Backed(e, relevance, content.document, BindingFor(bindings, i).value)
  {
    hide Owners, CoveringVerdicts, Overlapping, Covers, Bears, BindingFor, Compatible, RelationFailure;
    if content.citations[i].document == content.document && BindingFor(bindings, i).Some? {
      var s := BindingFor(bindings, i).value;
      OverlapExact(e, content.document, s);
      var overlaps := Overlapping(CoveringVerdicts(e, Owners(e, content.document, s)), content.document, s);
      CompatibleExactly(e, relevance, content.document, s, overlaps);
    }
  }

  lemma CompatibleExactly(e: Evidence, relevance: Relevance, document: string, s: Span, overlaps: seq<Relation>)
    requires forall r :: r in overlaps <==> exists c :: Bears(e, document, s, c, r)
    ensures RelationFailure(relevance, overlaps) == None <==> Compatible(e, relevance, document, s)
  {
    hide Bears, NamesBid, Doubtful, Contests, Directs, Clear, Unrelated;
    forall r ensures NamesBid(r) == Directs(r) && Doubtful(r) == !Clear(r) && Contests(r) == !Unrelated(r) { KindsOfRelation(r); }
    forall c, r | Bears(e, document, s, c, r) ensures r in overlaps { }
    if relevance == Submission && Compatible(e, relevance, document, s) {
      var c, r :| Bears(e, document, s, c, r) && Directs(r);
      assert r in overlaps;
      assert overlaps != [];
    }
  }

  // A record may be published.
  ghost predicate Supported(e: Evidence, b: Batch, kind: Kind, ordinal: nat, content: Content) {
    exists a ::
      && AnnotationsFor(b, kind, ordinal) == [a]
      && a.bindings.Some?
      && !b.tainted
      && 1 <= |content.citations| <= MAX_CITATIONS
      && BindingsMatch(a.bindings.value, content)
      && forall i :: 0 <= i < |content.citations| ==>
          && content.citations[i].document == content.document
          && BindingFor(a.bindings.value, i).Some?
          && Backed(e, a.relevance, content.document, BindingFor(a.bindings.value, i).value)
  }

  // A record is published exactly when its batch is untainted, it has one bound annotation, and each of its one to three
  // citations is located in its own document and backed by the verified relations.
  lemma PublishedExactly(e: Evidence, b: Batch, kind: Kind, ordinal: nat, content: Content)
    ensures Publishable(JudgeRecord(e, b, kind, ordinal, content)) <==> Supported(e, b, kind, ordinal, content)
  {
    hide JudgeFrom, Backed, BindingFor, BindingsMatch, Passes;
    var annotations := AnnotationsFor(b, kind, ordinal);
    if EarlyFailure(b, annotations, content) == None {
      var a := annotations[0];
      assert annotations == [a];
      FirstFailureDecides(e, content, a.bindings.value, a.relevance, 0);
      forall i | 0 <= i < |content.citations|
        ensures Passes(e, content, a.bindings.value, a.relevance, i) <==>
                content.citations[i].document == content.document && BindingFor(a.bindings.value, i).Some? &&
                Backed(e, a.relevance, content.document, BindingFor(a.bindings.value, i).value)
      {
        PassesExactly(e, content, a.bindings.value, a.relevance, i);
      }
    }
  }

  // Over a discovered ledger one unit at most covers a citation.
  lemma OneUnitCovers(rules: Rules, inputs: seq<Document>, e: Evidence, document: string, s: Span, c: Candidate, d: Candidate)
    requires LedgerProperties.Consistent(inputs) && Discovered(rules, inputs).metadataComplete
    requires e.ledger == Discovered(rules, inputs).candidates
    requires Covers(e, document, s, c) && Covers(e, document, s, d)
    ensures c == d
  {
    hide Discovered;
    OneCandidate(rules, inputs, c, d, s.start, s.end);
  }
}
