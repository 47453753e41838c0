// The verdict on every model record, in terms of its annotation, the spans of its citations and the verified relations.
module AuthorityVerdicts {
  import opened Sorting
  import opened SubmissionLedger
  import opened Adjudication
  import opened CanonicalMerge
  import opened RecordAuthority
  import opened AuthorityRecords

  // ---- One citation ----

  // A binding of citation `i` places it at `s`.
  ghost predicate PlacedAt(bindings: seq<PhysicalBinding>, i: nat, s: Span) {
    exists k :: 0 <= k < |bindings| && bindings[k].citationOrdinal == i && bindings[k].located == Some(s)
  }

  // As many bindings as citations, no two for the same one.
  ghost predicate Paired(bindings: seq<PhysicalBinding>, content: Content) {
    && |bindings| == |content.citations|
    && forall j, k :: 0 <= j < |bindings| && 0 <= k < |bindings| && bindings[j].citationOrdinal == bindings[k].citationOrdinal ==> j == k
  }

  ghost predicate Covered(e: Evidence, document: string, s: Span) {
    exists c :: Covers(e, document, s, c)
  }

  ghost predicate Bearing(e: Evidence, document: string, s: Span, r: Relation) {
    exists c :: Bears(e, document, s, c, r)
  }

  // What is wrong with a citation that lies at `s`, by the relevance the model claims for its record.
  ghost predicate SpanFails(e: Evidence, relevance: Relevance, document: string, s: Span, f: Failure) {
    || (!Covered(e, document, s) && relevance == Submission && f == Failure(CoverageGap, Disagrees, IncompleteOccurrenceCoverage))
    || (!Covered(e, document, s) && relevance != Submission && f == Failure(CoverageGap, Undecided, IncompleteOccurrenceCoverage))
    || (Covered(e, document, s) && relevance == Uncertain && f == Failure(ExactBound, Disagrees, UncertainRecord))
    || (Covered(e, document, s) && relevance == Submission && (forall r :: !Bearing(e, document, s, r)) &&
        f == Failure(RelationGap, Disagrees, RelationlessSubmissionRecord))
    || (Covered(e, document, s) && relevance == Submission && (exists r :: Bearing(e, document, s, r)) &&
        ((forall r :: Bearing(e, document, s, r) ==> !Directs(r)) || exists r :: Bearing(e, document, s, r) && !Clear(r)) &&
        f == Failure(RelationConflict, Disagrees, SubmissionRelationConflict))
    || (Covered(e, document, s) && relevance == NotSubmission && (exists r :: Bearing(e, document, s, r) && !Unrelated(r)) &&
        f == Failure(RelationConflict, Disagrees, NonSubmissionRelationOverlap))
  }

  // Citation `i` fails with this binding, crosscheck and reason.
  ghost predicate CitationFails(
      e: Evidence, relevance: Relevance, content: Content, bindings: seq<PhysicalBinding>, i: nat, f: Failure)
    requires i < |content.citations|
  {
    if content.citations[i].document != content.document then f == Failure(Unlocated, Undecided, CrossDocumentCitation)
    else if forall s :: !PlacedAt(bindings, i, s) then f == Failure(Unlocated, Undecided, InvalidPrivateSourceBinding)
    else exists s :: PlacedAt(bindings, i, s) && SpanFails(e, relevance, content.document, s, f)
  }

  ghost predicate CitationHolds(
      e: Evidence, relevance: Relevance, content: Content, bindings: seq<PhysicalBinding>, i: nat)
    requires i < |content.citations|
  {
    forall f :: !CitationFails(e, relevance, content, bindings, i, f)
  }

  lemma PairedExactly(bindings: seq<PhysicalBinding>, content: Content)
    ensures Paired(bindings, content) <==> BindingsMatch(bindings, content)
  {
    if |bindings| == |content.citations| {
      var ordinals := seq(|bindings|, i requires 0 <= i < |bindings| => bindings[i].citationOrdinal);
      if Paired(bindings, content) {
        forall i, j | 0 <= i < j < |ordinals| ensures ordinals[i] != ordinals[j] {
          assert bindings[i].citationOrdinal != bindings[j].citationOrdinal;
        }
      }
      if AllDifferent(ordinals) {
        forall j, k | 0 <= j < k < |bindings| ensures bindings[j].citationOrdinal != bindings[k].citationOrdinal {
          assert ordinals[j] != ordinals[k];
        }
      }
    }
  }

  lemma PlacedExactly(bindings: seq<PhysicalBinding>, content: Content, i: nat)
    requires Paired(bindings, content)
    ensures forall s :: PlacedAt(bindings, i, s) <==> BindingFor(bindings, i) == Some(s)
  {
    var matching := Filter(bindings, (b: PhysicalBinding) => b.citationOrdinal == i);
    if matching != [] {
      assert matching[0] in matching;
      var k :| 0 <= k < |bindings| && bindings[k] == matching[0];
      assert forall j :: 0 <= j < |bindings| && bindings[j].citationOrdinal == i ==> j == k;
    }
    forall s | PlacedAt(bindings, i, s) ensures matching != [] {
      var k :| 0 <= k < |bindings| && bindings[k].citationOrdinal == i && bindings[k].located == Some(s);
      assert bindings[k] in matching;
    }
  }

  lemma SpanFailsExactly(e: Evidence, relevance: Relevance, document: string, s: Span, f: Failure)
    ensures
      var covering := CoveringVerdicts(e, Owners(e, document, s));
      var expected :=
        if covering == [] then
          Some(Failure(CoverageGap, if relevance == Submission then Disagrees else Undecided, IncompleteOccurrenceCoverage))
        else RelationFailure(relevance, Overlapping(covering, document, s));
      SpanFails(e, relevance, document, s, f) <==> expected == Some(f)
  {
    hide Owners, CoveringVerdicts, Overlapping, Covers, Bears, NamesBid, Doubtful, Contests, Directs, Clear, Unrelated;
    OverlapExact(e, document, s);
    forall r ensures NamesBid(r) == Directs(r) && Doubtful(r) == !Clear(r) && Contests(r) == !Unrelated(r) { KindsOfRelation(r); }
    var overlaps := Overlapping(CoveringVerdicts(e, Owners(e, document, s)), document, s);
    forall r ensures r in overlaps <==> Bearing(e, document, s, r) { }
    if overlaps != [] { assert Bearing(e, document, s, overlaps[0]); }
  }

  lemma CitationFailsExactly(
      e: Evidence, relevance: Relevance, content: Content, bindings: seq<PhysicalBinding>, i: nat, f: Failure)
    requires i < |content.citations| && Paired(bindings, content)
    ensures CitationFails(e, relevance, content, bindings, i, f) <==>
            JudgeCitation(e, content, bindings, relevance, i).failure == Some(f)
  {
    hide Owners, CoveringVerdicts, Overlapping, RelationFailure, SpanFails, PlacedAt, BindingFor, Paired;
    PlacedExactly(bindings, content, i);
    if content.citations[i].document == content.document && BindingFor(bindings, i).Some? {
      var s := BindingFor(bindings, i).value;
      assert PlacedAt(bindings, i, s);
      SpanFailsExactly(e, relevance, content.document, s, f);
    }
  }

  // ---- One record ----

  ghost predicate Annotates(b: Batch, kind: Kind, ordinal: nat, i: int) {
    0 <= i < |b.annotations| && b.annotations[i].kind == kind && b.annotations[i].ordinal == ordinal
  }

  ghost predicate SoleAnnotation(b: Batch, kind: Kind, ordinal: nat, a: Annotation) {
    exists i :: Annotates(b, kind, ordinal, i) && b.annotations[i] == a && forall j :: Annotates(b, kind, ordinal, j) ==> j == i
  }

  // The record can be judged by its citations: one bound annotation, an untainted batch, one to three citations.
  ghost predicate Judgeable(b: Batch, content: Content, a: Annotation) {
    && a.bindings.Some? && !b.tainted
    && 1 <= |content.citations| <= 3
    && Paired(a.bindings.value, content)
  }

  // Why a record is set aside before its citations are located, earlier reasons first.
  ghost predicate SetAside(b: Batch, kind: Kind, ordinal: nat, content: Content, reason: AuthorityReason) {
    if forall a :: !SoleAnnotation(b, kind, ordinal, a) then
      reason == if exists i :: Annotates(b, kind, ordinal, i) then DuplicateAnnotation else MissingAnnotation
    else exists a :: SoleAnnotation(b, kind, ordinal, a) && !Judgeable(b, content, a) && reason == Shortcoming(b, content, a)
  }

  ghost function Shortcoming(b: Batch, content: Content, a: Annotation): AuthorityReason {
    if a.bindings.None? then LegacyUnboundCitation
    else if b.tainted then TaintedBatch
    else if |content.citations| >= 4 then CitationCapacity
    else if |content.citations| == 0 then MissingExactCitation
    else InvalidPrivateSourceBinding
  }

  // The verdict on a record that can be judged: the first citation that fails gives it.
  ghost predicate JudgedByCitations(e: Evidence, content: Content, a: Annotation, j: Judgement)
    requires a.bindings.Some?
  {
    var n, bindings := |content.citations|, a.bindings.value;
    match j.reason
    case None =>
      j.source == ExactBound && j.crosscheck == RecordAuthority.Consistent &&
      forall i :: 0 <= i < n ==> CitationHolds(e, a.relevance, content, bindings, i)
    case Some(reason) =>
      exists i :: 0 <= i < n && CitationFails(e, a.relevance, content, bindings, i, Failure(j.source, j.crosscheck, reason)) &&
        forall k :: 0 <= k < i ==> CitationHolds(e, a.relevance, content, bindings, k)
  }

  lemma AnnotationsExactly(b: Batch, kind: Kind, ordinal: nat)
    ensures forall a :: SoleAnnotation(b, kind, ordinal, a) <==> AnnotationsFor(b, kind, ordinal) == [a]
    ensures AnnotationsFor(b, kind, ordinal) == [] <==> forall i :: !Annotates(b, kind, ordinal, i)
    ensures |AnnotationsFor(b, kind, ordinal)| == 1 <==> exists a :: SoleAnnotation(b, kind, ordinal, a)
  {
    var p := (a: Annotation) => a.kind == kind && a.ordinal == ordinal;
    var own := AnnotationsFor(b, kind, ordinal);
    forall i | Annotates(b, kind, ordinal, i) ensures own != [] { assert b.annotations[i] in own; }
    if own != [] {
      assert own[0] in own;
      var i :| 0 <= i < |b.annotations| && b.annotations[i] == own[0];
      assert Annotates(b, kind, ordinal, i);
      if forall j :: Annotates(b, kind, ordinal, j) ==> j == i {
        forall j | 0 <= j < |b.annotations| && p(b.annotations[j]) ensures j == i { assert Annotates(b, kind, ordinal, j); }
        FilterSole(b.annotations, p, i);
        assert SoleAnnotation(b, kind, ordinal, own[0]);
      } else {
        var j :| Annotates(b, kind, ordinal, j) && j != i;
        FilterTwo(b.annotations, p, if i < j then i else j, if i < j then j else i);
      }
    }
  }

  // Every judged record: set aside with its first shortcoming, or judged by its citations.
  lemma JudgedExactly(e: Evidence, b: Batch, kind: Kind, ordinal: nat, content: Content)
    ensures
      var j := JudgeRecord(e, b, kind, ordinal, content);
      if exists a :: SoleAnnotation(b, kind, ordinal, a) && Judgeable(b, content, a) then
        exists a :: SoleAnnotation(b, kind, ordinal, a) && Judgeable(b, content, a) && JudgedByCitations(e, content, a, j)
      else
        && j.source == Unlocated && j.crosscheck == Undecided && j.bindings == [] && j.channels == {}
        && j.reason.Some? && SetAside(b, kind, ordinal, content, j.reason.value)
  {
    hide JudgeFrom, SoleAnnotation, Annotates, AnnotationsFor, JudgedByCitations, Paired, BindingsMatch;
    var annotations := AnnotationsFor(b, kind, ordinal);
    AnnotationsExactly(b, kind, ordinal);
    if |annotations| == 1 {
      var a := annotations[0];
      assert annotations == [a];
      if a.bindings.Some? {
        PairedExactly(a.bindings.value, content);
        if Judgeable(b, content, a) { CitationsDecide(e, content, a); }
      }
    }
  }

  lemma CitationsDecide(e: Evidence, content: Content, a: Annotation)
    requires a.bindings.Some? && Paired(a.bindings.value, content)
    ensures JudgedByCitations(e, content, a, JudgeFrom(e, content, a.bindings.value, a.relevance, 0))
  {
    hide JudgeFrom, JudgeCitation, CitationFails, Paired;
    var bindings := a.bindings.value;
    FirstFailureDecides(e, content, bindings, a.relevance, 0);
    forall i, f | 0 <= i < |content.citations|
      ensures CitationFails(e, a.relevance, content, bindings, i, f) <==>
              JudgeCitation(e, content, bindings, a.relevance, i).failure == Some(f)
    {
      CitationFailsExactly(e, a.relevance, content, bindings, i, f);
    }
    forall i | 0 <= i < |content.citations|
      ensures CitationHolds(e, a.relevance, content, bindings, i) <==> Passes(e, content, bindings, a.relevance, i)
    {
      var failure := JudgeCitation(e, content, bindings, a.relevance, i).failure;
      if failure.Some? { assert CitationFails(e, a.relevance, content, bindings, i, failure.value); }
    }
  }

  // ---- When a record speaks against the package ----

  // The citations that are looked at: all before the first that fails, and that one.
  ghost predicate Reached(e: Evidence, content: Content, a: Annotation, i: nat)
    requires a.bindings.Some?
  {
    i < |content.citations| && forall k :: 0 <= k < i ==> CitationHolds(e, a.relevance, content, a.bindings.value, k)
  }

  // Citation `i` lies at `s`, in the document of its record.
  ghost predicate LiesAt(content: Content, a: Annotation, i: nat, s: Span)
    requires a.bindings.Some? && i < |content.citations|
  {
    content.citations[i].document == content.document && PlacedAt(a.bindings.value, i, s)
  }

  // The verified relations contradict what the model claims about a record cited at `s`.
  ghost predicate Contradicted(e: Evidence, relevance: Relevance, document: string, s: Span) {
    match relevance
    case Uncertain => Covered(e, document, s)
    case NotSubmission => exists r :: Bearing(e, document, s, r) && !Unrelated(r)
    case Submission =>
      (forall r :: Bearing(e, document, s, r) ==> !Directs(r)) || exists r :: Bearing(e, document, s, r) && !Clear(r)
  }

  ghost predicate Refuted(e: Evidence, content: Content, a: Annotation, i: nat)
    requires a.bindings.Some? && i < |content.citations|
  {
    exists s :: LiesAt(content, a, i, s) && Contradicted(e, a.relevance, content.document, s)
  }

  ghost predicate InVerifiedUnit(e: Evidence, content: Content, a: Annotation, i: nat)
    requires a.bindings.Some? && i < |content.citations|
  {
    exists s :: LiesAt(content, a, i, s) && Covered(e, content.document, s)
  }

  // A citation that is looked at is contradicted.
  ghost predicate Disputed(e: Evidence, b: Batch, kind: Kind, ordinal: nat, content: Content) {
    exists a, i ::
      SoleAnnotation(b, kind, ordinal, a) && Judgeable(b, content, a) && Reached(e, content, a, i) && Refuted(e, content, a, i)
  }

  // Every citation that is looked at lies in a verified unit.
  ghost predicate FullyCovered(e: Evidence, b: Batch, kind: Kind, ordinal: nat, content: Content) {
    exists a ::
      && SoleAnnotation(b, kind, ordinal, a) && Judgeable(b, content, a)
      && forall i :: Reached(e, content, a, i) ==> InVerifiedUnit(e, content, a, i)
  }

  lemma DisagreesWhen(e: Evidence, relevance: Relevance, document: string, s: Span)
    ensures Contradicted(e, relevance, document, s) <==>
            exists f :: SpanFails(e, relevance, document, s, f) && f.crosscheck == Disagrees
    ensures Covered(e, document, s) <==>
            forall f :: SpanFails(e, relevance, document, s, f) ==> f.source != Unlocated && f.source != CoverageGap
  {
    hide Directs, Clear, Unrelated, Covers;
    forall r | Bearing(e, document, s, r) ensures Covered(e, document, s) {
      var c :| Bears(e, document, s, c, r);
    }
    var gap := Failure(CoverageGap, if relevance == Submission then Disagrees else Undecided, IncompleteOccurrenceCoverage);
    assert !Covered(e, document, s) ==> SpanFails(e, relevance, document, s, gap);
    if Contradicted(e, relevance, document, s) {
      var f := match relevance
        case Uncertain => Failure(ExactBound, Disagrees, UncertainRecord)
        case NotSubmission => Failure(RelationConflict, Disagrees, NonSubmissionRelationOverlap)
        case Submission =>
          if !Covered(e, document, s) then gap
          else if forall r :: !Bearing(e, document, s, r) then Failure(RelationGap, Disagrees, RelationlessSubmissionRecord)
          else Failure(RelationConflict, Disagrees, SubmissionRelationConflict);
      assert SpanFails(e, relevance, document, s, f);
    }
  }

  lemma OneFailure(
      e: Evidence, relevance: Relevance, content: Content, bindings: seq<PhysicalBinding>, i: nat, f: Failure, g: Failure)
    requires i < |content.citations| && Paired(bindings, content)
    requires CitationFails(e, relevance, content, bindings, i, f) && CitationFails(e, relevance, content, bindings, i, g)
    ensures f == g
  {
    hide CitationFails, JudgeCitation, Paired;
    CitationFailsExactly(e, relevance, content, bindings, i, f);
    CitationFailsExactly(e, relevance, content, bindings, i, g);
  }

  lemma OnePlace(content: Content, a: Annotation, i: nat, s: Span, t: Span)
    requires a.bindings.Some? && i < |content.citations| && Paired(a.bindings.value, content)
    requires LiesAt(content, a, i, s) && LiesAt(content, a, i, t)
    ensures s == t
  {
    hide BindingFor, PlacedAt, Paired;
    PlacedExactly(a.bindings.value, content, i);
  }

  lemma FailsAtPlace(e: Evidence, content: Content, a: Annotation, i: nat, s: Span, f: Failure)
    requires a.bindings.Some? && i < |content.citations| && Paired(a.bindings.value, content) && LiesAt(content, a, i, s)
    ensures CitationFails(e, a.relevance, content, a.bindings.value, i, f) <==> SpanFails(e, a.relevance, content.document, s, f)
  {
    hide SpanFails, PlacedAt, Paired;
    forall t | PlacedAt(a.bindings.value, i, t) ensures t == s { OnePlace(content, a, i, s, t); }
  }

  // A citation that lies nowhere fails as not located.
  lemma FailsNowhere(e: Evidence, content: Content, a: Annotation, i: nat)
    requires a.bindings.Some? && i < |content.citations| && forall s :: !LiesAt(content, a, i, s)
    ensures !CitationHolds(e, a.relevance, content, a.bindings.value, i)
    ensures forall f :: CitationFails(e, a.relevance, content, a.bindings.value, i, f) ==> f.source == Unlocated && f.crosscheck == Undecided
  {
    hide SpanFails, PlacedAt;
    var document := content.citations[i].document;
    var reason := if document != content.document then CrossDocumentCitation else InvalidPrivateSourceBinding;
    assert document == content.document ==> forall s :: !PlacedAt(a.bindings.value, i, s) by {
      if document == content.document {
        forall s ensures !PlacedAt(a.bindings.value, i, s) { assert !LiesAt(content, a, i, s); }
      }
    }
    assert CitationFails(e, a.relevance, content, a.bindings.value, i, Failure(Unlocated, Undecided, reason));
  }

  // What one citation does to the verdict.
  lemma CitationDecides(e: Evidence, content: Content, a: Annotation, i: nat)
    requires a.bindings.Some? && i < |content.citations| && Paired(a.bindings.value, content)
    ensures Refuted(e, content, a, i) <==>
            exists f :: CitationFails(e, a.relevance, content, a.bindings.value, i, f) && f.crosscheck == Disagrees
    ensures InVerifiedUnit(e, content, a, i) <==>
            forall f :: CitationFails(e, a.relevance, content, a.bindings.value, i, f) ==> f.source != Unlocated && f.source != CoverageGap
  {
    hide SpanFails, Contradicted, Covered, Paired, CitationFails, LiesAt;
    if s :| LiesAt(content, a, i, s) {
      forall t | LiesAt(content, a, i, t) ensures t == s { OnePlace(content, a, i, s, t); }
      DisagreesWhen(e, a.relevance, content.document, s);
      forall f ensures CitationFails(e, a.relevance, content, a.bindings.value, i, f) <==> SpanFails(e, a.relevance, content.document, s, f) {
        FailsAtPlace(e, content, a, i, s, f);
      }
    } else {
      FailsNowhere(e, content, a, i);
    }
  }

  // The verdict disagrees exactly when a citation that is looked at is contradicted, and its source is located in
  // verified units exactly when every citation that is looked at is.
  lemma CitationsDisagree(e: Evidence, content: Content, a: Annotation, j: Judgement)
    requires a.bindings.Some? && Paired(a.bindings.value, content) && content.citations != []
    requires JudgedByCitations(e, content, a, j)
    ensures j.crosscheck == Disagrees <==> exists i :: Reached(e, content, a, i) && Refuted(e, content, a, i)
    ensures j.source != Unlocated && j.source != CoverageGap <==>
            forall i :: Reached(e, content, a, i) ==> InVerifiedUnit(e, content, a, i)
  {
    hide CitationFails, Refuted, InVerifiedUnit, Paired;
    var bindings := a.bindings.value;
    forall i: nat | i < |content.citations|
      ensures Refuted(e, content, a, i) <==>
              exists f :: CitationFails(e, a.relevance, content, bindings, i, f) && f.crosscheck == Disagrees
      ensures InVerifiedUnit(e, content, a, i) <==>
              forall f :: CitationFails(e, a.relevance, content, bindings, i, f) ==> f.source != Unlocated && f.source != CoverageGap
    {
      CitationDecides(e, content, a, i);
    }
    if j.reason.Some? {
      var failure := Failure(j.source, j.crosscheck, j.reason.value);
      var i :| 0 <= i < |content.citations| && CitationFails(e, a.relevance, content, bindings, i, failure) &&
               forall k :: 0 <= k < i ==> CitationHolds(e, a.relevance, content, bindings, k);
      forall f | CitationFails(e, a.relevance, content, bindings, i, f) ensures f == failure {
        OneFailure(e, a.relevance, content, bindings, i, f, failure);
      }
      assert Reached(e, content, a, i);
      forall k: nat | Reached(e, content, a, k) ensures k <= i {
        assert i < k ==> CitationHolds(e, a.relevance, content, bindings, i);
      }
      forall k: nat | k < i ensures !Refuted(e, content, a, k) && InVerifiedUnit(e, content, a, k) {
        assert CitationHolds(e, a.relevance, content, bindings, k);
      }
    } else {
      forall i: nat | i < |content.citations| ensures !Refuted(e, content, a, i) && InVerifiedUnit(e, content, a, i) {
        assert CitationHolds(e, a.relevance, content, bindings, i);
      }
    }
  }

  // The record disagrees with the verified relations.
  lemma DisagreesExactly(e: Evidence, b: Batch, kind: Kind, ordinal: nat, content: Content)
    ensures JudgeRecord(e, b, kind, ordinal, content).crosscheck == Disagrees <==> Disputed(e, b, kind, ordinal, content)
    ensures JudgeRecord(e, b, kind, ordinal, content).source !in {Unlocated, CoverageGap} <==>
            FullyCovered(e, b, kind, ordinal, content)
  {
    hide JudgeRecord, JudgedByCitations, Contradicted, Covered, LiesAt, Reached, SoleAnnotation, Paired;
    JudgedExactly(e, b, kind, ordinal, content);
    var j := JudgeRecord(e, b, kind, ordinal, content);
    forall a, c | SoleAnnotation(b, kind, ordinal, a) && SoleAnnotation(b, kind, ordinal, c) ensures a == c {
      AnnotationsExactly(b, kind, ordinal);
    }
    if a :| SoleAnnotation(b, kind, ordinal, a) && Judgeable(b, content, a) {
      assert JudgedByCitations(e, content, a, j);
      CitationsDisagree(e, content, a, j);
    }
  }

  // ---- What is published about its citations ----

  // The binding names the citation, its one place, the units that own it and the verified relations that overlap it.
  ghost predicate Describes(e: Evidence, content: Content, i: nat, s: Span, binding: CitationBinding)
    requires i < |content.citations|
  {
    && binding.document == content.document && binding.quote == content.citations[i].quote
    && |binding.occurrences| == 1 && binding.occurrences[0].span == s
    && (forall id :: id in binding.occurrences[0].candidates <==> exists c :: Reads(e, content.document, s, c) && c.id == id)
    && forall r :: r in binding.occurrences[0].relations <==> Bearing(e, content.document, s, r)
  }

  // A verified relation at citation `i` names the channel for the whole bid.
  ghost predicate Allows(e: Evidence, content: Content, a: Annotation, i: nat, channel: Channel)
    requires a.bindings.Some? && i < |content.citations|
  {
    channel != Unspecified &&
    exists s, r :: LiesAt(content, a, i, s) && Bearing(e, content.document, s, r) && r.scope == WholeBid && r.channel == channel
  }

  lemma PlaceDescribed(e: Evidence, content: Content, i: nat, s: Span)
    requires i < |content.citations| && content.citations[i].document == content.document
    ensures
      var owners := Owners(e, content.document, s);
      var overlaps := Overlapping(CoveringVerdicts(e, owners), content.document, s);
      && Describes(e, content, i, s, CitationBinding(content.document, content.citations[i].quote,
           [Occurrence(s, set c | c in owners :: c.id, multiset(overlaps))]))
      && (forall r :: r in overlaps <==> Bearing(e, content.document, s, r))
      && (CoveringVerdicts(e, owners) == [] ==> overlaps == [])
  {
    hide CoveringVerdicts, Covers, Bears, Bearing;
    OverlapExact(e, content.document, s);
    forall r ensures Bearing(e, content.document, s, r) <==> exists c :: Bears(e, content.document, s, c, r) { BearingIs(e, content.document, s, r); }
    var owners := Owners(e, content.document, s);
    OwnersExactly(e, content.document, s);
    var overlaps := Overlapping(CoveringVerdicts(e, owners), content.document, s);
    var binding := CitationBinding(content.document, content.citations[i].quote,
      [Occurrence(s, set c | c in owners :: c.id, multiset(overlaps))]);
    forall id ensures id in binding.occurrences[0].candidates <==> exists c :: Reads(e, content.document, s, c) && c.id == id {
      if c :| Reads(e, content.document, s, c) && c.id == id { assert c in owners; }
    }
    forall r ensures r in multiset(overlaps) <==> Bearing(e, content.document, s, r) { assert r in multiset(overlaps) <==> r in overlaps; }
    assert Describes(e, content, i, s, binding);
  }

  lemma PlaceAllows(e: Evidence, content: Content, a: Annotation, i: nat, s: Span, overlaps: seq<Relation>)
    requires a.bindings.Some? && i < |content.citations| && Paired(a.bindings.value, content) && LiesAt(content, a, i, s)
    requires forall r :: r in overlaps <==> Bearing(e, content.document, s, r)
    ensures forall c :: c in BidChannels(overlaps) <==> Allows(e, content, a, i, c)
  {
    hide PlacedAt, Paired, Bearing, LiesAt;
    forall c | Allows(e, content, a, i, c) ensures c in BidChannels(overlaps) {
      var t, r :| LiesAt(content, a, i, t) && Bearing(e, content.document, t, r) && r.scope == WholeBid && r.channel == c;
      OnePlace(content, a, i, s, t);
    }
    forall c | c in BidChannels(overlaps) ensures Allows(e, content, a, i, c) {
      var r :| r in overlaps && r.scope == WholeBid && r.channel == c;
    }
  }

  lemma OutcomeDescribes(e: Evidence, content: Content, a: Annotation, i: nat)
    requires a.bindings.Some? && i < |content.citations| && Paired(a.bindings.value, content)
    ensures
      var o := JudgeCitation(e, content, a.bindings.value, a.relevance, i);
      && (o.binding.Some? <==> exists s :: LiesAt(content, a, i, s))
      && (o.binding.Some? ==> exists s :: LiesAt(content, a, i, s) && Describes(e, content, i, s, o.binding.value))
      && (o.failure == None ==> o.binding.Some?)
      && forall c :: c in o.channels <==> Allows(e, content, a, i, c)
  {
    hide Owners, CoveringVerdicts, Overlapping, RelationFailure, PlacedAt, BindingFor, Paired, Bearing, Describes;
    PlacedExactly(a.bindings.value, content, i);
    if content.citations[i].document == content.document && BindingFor(a.bindings.value, i).Some? {
      var s := BindingFor(a.bindings.value, i).value;
      assert LiesAt(content, a, i, s);
      PlaceDescribed(e, content, i, s);
      PlaceAllows(e, content, a, i, s, Overlapping(CoveringVerdicts(e, Owners(e, content.document, s)), content.document, s));
      assert BidChannels([]) == {};
    }
  }

  lemma BearingIs(e: Evidence, document: string, s: Span, r: Relation)
    ensures Bearing(e, document, s, r) <==> exists c :: Bears(e, document, s, c, r)
    ensures Bearing(e, document, s, r) ==> Covered(e, document, s)
  {
    hide Covers;
  }

  lemma HoldsExactly(e: Evidence, content: Content, a: Annotation, i: nat)
    requires a.bindings.Some? && i < |content.citations| && Paired(a.bindings.value, content)
    ensures CitationHolds(e, a.relevance, content, a.bindings.value, i) <==>
            JudgeCitation(e, content, a.bindings.value, a.relevance, i).failure == None
  {
    hide JudgeCitation, CitationFails, Paired;
    forall f
      ensures CitationFails(e, a.relevance, content, a.bindings.value, i, f) <==>
              JudgeCitation(e, content, a.bindings.value, a.relevance, i).failure == Some(f)
    {
      CitationFailsExactly(e, a.relevance, content, a.bindings.value, i, f);
    }
    var failure := JudgeCitation(e, content, a.bindings.value, a.relevance, i).failure;
    if failure.Some? { assert CitationFails(e, a.relevance, content, a.bindings.value, i, failure.value); }
  }

  ghost predicate ReachedFrom(e: Evidence, content: Content, a: Annotation, i: nat, k: nat)
    requires a.bindings.Some?
  {
    i <= k < |content.citations| && forall l :: i <= l < k ==> CitationHolds(e, a.relevance, content, a.bindings.value, l)
  }

  ghost predicate DescribesSome(e: Evidence, content: Content, a: Annotation, i: nat, binding: CitationBinding)
    requires a.bindings.Some? && i < |content.citations|
  {
    exists s :: LiesAt(content, a, i, s) && Describes(e, content, i, s, binding)
  }

  ghost predicate Placed(content: Content, a: Annotation, i: nat)
    requires a.bindings.Some? && i < |content.citations|
  {
    exists s :: LiesAt(content, a, i, s)
  }

  // The bindings describe the citations looked at from `i` on, in their order, and the channels are those they allow.
  ghost predicate ListedFrom(e: Evidence, content: Content, a: Annotation, i: nat, j: Judgement)
    requires a.bindings.Some?
  {
    && i + |j.bindings| <= |content.citations|
    && (forall m :: 0 <= m < |j.bindings| ==> DescribesSome(e, content, a, i + m, j.bindings[m]))
    && (forall k :: i <= k < |content.citations| ==>
          (k < i + |j.bindings| <==> ReachedFrom(e, content, a, i, k) && Placed(content, a, k)))
    && forall c :: c in j.channels <==> exists k :: ReachedFrom(e, content, a, i, k) && Allows(e, content, a, k, c)
  }

  lemma {:induction false} ListingFrom(e: Evidence, content: Content, a: Annotation, i: nat)
    requires a.bindings.Some? && i <= |content.citations| && Paired(a.bindings.value, content)
    ensures ListedFrom(e, content, a, i, JudgeFrom(e, content, a.bindings.value, a.relevance, i))
    decreases |content.citations| - i
  {
    hide JudgeCitation, CitationHolds, Paired, Describes, LiesAt, Allows;
    if i < |content.citations| {
      var o := JudgeCitation(e, content, a.bindings.value, a.relevance, i);
      HoldsExactly(e, content, a, i);
      OutcomeDescribes(e, content, a, i);
      assert ReachedFrom(e, content, a, i, i);
      var j := JudgeFrom(e, content, a.bindings.value, a.relevance, i);
      if o.failure == None {
        ListingFrom(e, content, a, i + 1);
        forall k: nat | i < k ensures ReachedFrom(e, content, a, i, k) <==> ReachedFrom(e, content, a, i + 1, k) { }
      } else {
        assert j.bindings == Listed(o.binding) && j.channels == o.channels;
        forall k: nat | i < k ensures !ReachedFrom(e, content, a, i, k) {
          assert !CitationHolds(e, a.relevance, content, a.bindings.value, i);
        }
        assert o.binding.Some? ==> DescribesSome(e, content, a, i, o.binding.value);
        assert o.binding.Some? <==> Placed(content, a, i);
      }
    }
  }

  // The citation bindings of a record describe the citations that are looked at and lie somewhere, each with all units
  // and relations at its place; its channels are exactly those that a verified relation there names for the whole bid.
  lemma ListedExactly(e: Evidence, b: Batch, kind: Kind, ordinal: nat, content: Content, a: Annotation)
    requires SoleAnnotation(b, kind, ordinal, a) && Judgeable(b, content, a)
    ensures ListedFrom(e, content, a, 0, JudgeRecord(e, b, kind, ordinal, content))
  {
    hide JudgeFrom, SoleAnnotation, AnnotationsFor, ListedFrom, Paired, BindingsMatch;
    AnnotationsExactly(b, kind, ordinal);
    PairedExactly(a.bindings.value, content);
    ListingFrom(e, content, a, 0);
  }
}
