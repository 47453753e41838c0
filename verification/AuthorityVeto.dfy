// When the manifest vetoes the package, in terms of the batches and the verified relations, and what a joined record says.
module AuthorityVeto {
  import opened Sorting
  import opened Texts
  import opened SubmissionLedger
  import opened CanonicalMerge
  import opened RecordAuthority
  import opened AuthorityManifest
  import opened AuthorityJoins
  import opened AuthorityBookkeeping
  import opened AuthorityTheorem
  import opened AuthorityDraft
  import opened AuthorityInputs
  import opened AuthorityRecords
  import opened AuthorityVerdicts

  // ---- Joined records ----

  lemma WorstExactly(values: seq<SourceBinding>)
    requires values != []
    ensures
      Worst(values) ==
        if RelationConflict in values then RelationConflict
        else if RelationGap in values then RelationGap
        else if CoverageGap in values then CoverageGap
        else if Unlocated in values then Unlocated
        else ExactBound
  {
  }

  // The first reason that a member has.
  ghost predicate FirstReasonIs(group: seq<Origin>, reason: AuthorityReason) {
    exists i :: 0 <= i < |group| && group[i].judgement.reason == Some(reason) &&
      forall j :: 0 <= j < i ==> group[j].judgement.reason == None
  }

  lemma {:induction false} FirstReasonExactly(group: seq<Origin>)
    ensures FirstReason(group) == None <==> forall o :: o in group ==> o.judgement.reason == None
    ensures FirstReason(group).Some? ==> FirstReasonIs(group, FirstReason(group).value)
  {
    if group != [] && group[0].judgement.reason == None {
      FirstReasonExactly(group[1..]);
      if FirstReason(group).Some? {
        var i :| 0 <= i < |group[1..]| && group[1..][i].judgement.reason == FirstReason(group) &&
                 forall j :: 0 <= j < i ==> group[1..][j].judgement.reason == None;
        forall j | 0 <= j < i + 1 ensures group[j].judgement.reason == None {
          assert j > 0 ==> group[1..][j - 1] == group[j];
        }
        assert group[i + 1].judgement.reason == FirstReason(group);
      }
    }
  }

  // One relevance that a member claims, and no member claims another.
  ghost predicate AgreedRelevance(group: seq<Origin>, r: Relevance) {
    (exists o :: o in group && o.relevance == Some(r)) &&
    forall o :: o in group && o.relevance.Some? ==> o.relevance == Some(r)
  }

  // What a joined record says of its members.
  lemma JoinExactly(kind: Kind, mergedId: Text, group: seq<Origin>)
    requires group != [] && forall o :: o in group ==> Regular(o)
    ensures
      var j := Join(kind, mergedId, group);
      && j.kind == kind && j.mergedId == mergedId && j.content == group[0].key.content
      && |j.contributors| == |group| && (forall i :: 0 <= i < |group| ==> j.contributors[i] == group[i].key)
      && (forall r :: j.relevance == Some(r) <==> AgreedRelevance(group, r))
      && (j.crosscheck == Disagrees <==> if TwoRelevances(group) then AllExact(group) else SomeDisagrees(group))
      && (if j.relevance == None then j.reason == Some(RelevanceDisagreement)
          else if forall o :: o in group ==> o.judgement.reason == None then j.reason == None
          else j.reason.Some? && FirstReasonIs(group, j.reason.value))
      && (forall c :: c in j.channels <==> exists o :: o in group && c in o.judgement.channels)
  {
    hide Concrete, Sole, Worst, FirstReason, FirstReasonIs, Regular;
    SoleConcrete(group);
    ConcreteExact(group);
    CombinedExact(group);
    FirstReasonExactly(group);
    assert group[0] in group;
    SoleIsAgreed(group);
    if SameRelevance(group) && group[0].relevance == None {
      UnannotatedGroup(group);
      NoneDisagree(group);
    }
  }

  lemma SoleIsAgreed(group: seq<Origin>)
    ensures forall r :: Sole(Concrete(group)) == Some(r) <==> AgreedRelevance(group, r)
  {
    hide Concrete;
    ConcreteExact(group);
    var concrete := Concrete(group);
    if concrete != [] {
      assert concrete[0] in concrete;
      forall o | o in group && o.relevance.Some? ensures o.relevance.value in concrete { }
    }
  }

  lemma NoneDisagree(group: seq<Origin>)
    requires forall o :: o in group ==> Regular(o) && o.relevance == None
    ensures !SomeDisagrees(group) && !TwoRelevances(group)
  {
  }

  // ---- The records of the batches ----

  datatype Ref = Ref(batch: Batch, kind: Kind, ordinal: nat, record: Record)

  ghost predicate Appears(batches: seq<Batch>, x: Ref) {
    && x.batch in batches
    && x.ordinal < |RecordsOfKind(x.batch.draft, x.kind)| && RecordsOfKind(x.batch.draft, x.kind)[x.ordinal] == x.record
  }

  // The origin that stands for a record: its key, its identifier, its relevance and its judgement.
  ghost predicate StandsFor(e: Evidence, x: Ref, o: Origin) {
    && o.key.batchId == x.batch.batchId && o.key.kind == x.kind && o.key.ordinal == x.ordinal
    && o.key.content == x.record.content && o.id == x.record.id
    && (forall r :: o.relevance == Some(r) <==> Claims(x, r))
    && o.judgement == JudgeRecord(e, x.batch, x.kind, x.ordinal, x.record.content)
  }

  // Its one annotation claims the relevance `r`.
  ghost predicate Claims(x: Ref, r: Relevance) {
    exists a :: SoleAnnotation(x.batch, x.kind, x.ordinal, a) && a.relevance == r
  }

  lemma ItemsExactly(d: Draft, item: Item)
    ensures item in RecordsIn(d) <==>
            item.ordinal < |RecordsOfKind(d, item.kind)| && RecordsOfKind(d, item.kind)[item.ordinal] == item.record
  {
    forall kind, records: seq<Record>
      ensures item in Items(kind, records) <==> item.kind == kind && item.ordinal < |records| && records[item.ordinal] == item.record
    {
      if item.kind == kind && item.ordinal < |records| && records[item.ordinal] == item.record {
        assert Items(kind, records)[item.ordinal] == item;
      }
    }
  }

  lemma OriginStands(e: Evidence, b: Batch, item: Item)
    ensures StandsFor(e, Ref(b, item.kind, item.ordinal, item.record), OriginOf(e, b, item))
  {
    hide JudgeRecord, AnnotationsFor, SoleAnnotation;
    AnnotationsExactly(b, item.kind, item.ordinal);
  }

  // Exactly the records of a batch have origins in it.
  lemma BatchStands(e: Evidence, b: Batch)
    ensures forall o :: o in BatchOrigins(e, b) ==> exists x :: Appears([b], x) && x.batch == b && StandsFor(e, x, o)
    ensures forall x :: Appears([b], x) && x.batch == b ==> exists o :: o in BatchOrigins(e, b) && StandsFor(e, x, o)
  {
    hide RecordsIn, OriginOf, StandsFor;
    var items := RecordsIn(b.draft);
    forall o | o in BatchOrigins(e, b) ensures exists x :: Appears([b], x) && x.batch == b && StandsFor(e, x, o) {
      var i :| 0 <= i < |items| && BatchOrigins(e, b)[i] == o;
      OriginStands(e, b, items[i]);
      ItemsExactly(b.draft, items[i]);
      assert Appears([b], Ref(b, items[i].kind, items[i].ordinal, items[i].record));
    }
    forall x | Appears([b], x) && x.batch == b ensures exists o :: o in BatchOrigins(e, b) && StandsFor(e, x, o) {
      var item := Item(x.kind, x.ordinal, x.record);
      ItemsExactly(b.draft, item);
      OriginStands(e, b, item);
      var i :| 0 <= i < |items| && items[i] == item;
      assert BatchOrigins(e, b)[i] in BatchOrigins(e, b);
    }
  }

  lemma AppearsIn(batches: seq<Batch>, x: Ref)
    ensures Appears(batches, x) <==> x.batch in batches && Appears([x.batch], x)
  {
  }

  // The origins are those of the records of the batches, and of nothing else.
  lemma {:induction false} OriginsStand(e: Evidence, batches: seq<Batch>)
    ensures forall o :: o in Origins(e, batches) ==> exists x :: Appears(batches, x) && StandsFor(e, x, o)
    ensures forall x :: Appears(batches, x) ==> exists o :: o in Origins(e, batches) && StandsFor(e, x, o)
  {
    hide BatchOrigins, StandsFor, Appears;
    if batches == [] {
      forall x ensures !Appears(batches, x) { AppearsIn(batches, x); }
    } else {
      var front, b := batches[..|batches| - 1], batches[|batches| - 1];
      OriginsStand(e, front);
      BatchStands(e, b);
      assert batches == front + [b];
      forall x
        ensures Appears(batches, x) <==> Appears(front, x) || (Appears([b], x) && x.batch == b)
      {
        AppearsIn(batches, x);
        AppearsIn(front, x);
      }
    }
  }

  // ---- The veto ----

  ghost predicate Alike(x: Ref, y: Ref) {
    x.kind == y.kind && x.record.content == y.record.content
  }

  // Records equal to `x` claim two relevances.
  ghost predicate Torn(batches: seq<Batch>, x: Ref) {
    exists y, z, r, s :: Appears(batches, y) && Appears(batches, z) && Alike(x, y) && Alike(x, z) && Claims(y, r) && Claims(z, s) && r != s
  }

  ghost predicate DisputedRef(e: Evidence, x: Ref) {
    Disputed(e, x.batch, x.kind, x.ordinal, x.record.content)
  }

  ghost predicate CoveredRef(e: Evidence, x: Ref) {
    FullyCovered(e, x.batch, x.kind, x.ordinal, x.record.content)
  }

  // The record speaks against the package: a citation of it is contradicted, or, where equal records claim two
  // relevances, all citations looked at of all of them lie in verified units.
  ghost predicate SpeaksAgainst(e: Evidence, batches: seq<Batch>, x: Ref) {
    && Appears(batches, x)
    && if Torn(batches, x) then forall y :: Appears(batches, y) && Alike(x, y) ==> CoveredRef(e, y)
       else DisputedRef(e, x)
  }

  ghost predicate GroupDisagrees(group: seq<Origin>) {
    if TwoRelevances(group) then AllExact(group) else SomeDisagrees(group)
  }

  lemma StandingDisputes(e: Evidence, x: Ref, o: Origin)
    requires StandsFor(e, x, o)
    ensures o.judgement.crosscheck == Disagrees <==> DisputedRef(e, x)
    ensures Located(o.judgement.source) <==> CoveredRef(e, x)
  {
    hide Disputed, FullyCovered, JudgeRecord;
    DisagreesExactly(e, x.batch, x.kind, x.ordinal, x.record.content);
  }

  lemma StandingSays(e: Evidence, x: Ref, o: Origin)
    requires StandsFor(e, x, o)
    ensures o.key.kind == x.kind && o.key.content == x.record.content
    ensures forall r :: o.relevance == Some(r) <==> Claims(x, r)
  {
    hide JudgeRecord, SoleAnnotation;
  }

  // An origin of the group stands for `y`.
  ghost predicate StoodFor(e: Evidence, group: seq<Origin>, y: Ref) {
    exists p :: p in group && StandsFor(e, y, p)
  }

  // The origin stands for a record equal to `x`.
  ghost predicate StandsForAlike(e: Evidence, batches: seq<Batch>, x: Ref, p: Origin) {
    exists y :: Appears(batches, y) && Alike(x, y) && StandsFor(e, y, p)
  }

  // `group` holds the origins of the records equal to `x`.
  ghost predicate Gathers(e: Evidence, batches: seq<Batch>, x: Ref, group: seq<Origin>) {
    && (forall p :: p in group ==> StandsForAlike(e, batches, x, p))
    && (forall y :: Appears(batches, y) && Alike(x, y) ==> StoodFor(e, group, y))
  }

  lemma OriginOfRef(e: Evidence, group: seq<Origin>, y: Ref) returns (p: Origin)
    requires StoodFor(e, group, y)
    ensures p in group && StandsFor(e, y, p)
    ensures p.key.kind == y.kind && p.key.content == y.record.content
    ensures forall r :: p.relevance == Some(r) <==> Claims(y, r)
    ensures p.judgement.crosscheck == Disagrees <==> DisputedRef(e, y)
    ensures Located(p.judgement.source) <==> CoveredRef(e, y)
  {
    hide StandsFor, Located, DisputedRef, CoveredRef, Claims;
    p :| p in group && StandsFor(e, y, p);
    StandingSays(e, y, p);
    StandingDisputes(e, y, p);
  }

  lemma RefOfOrigin(e: Evidence, batches: seq<Batch>, x: Ref, p: Origin) returns (y: Ref)
    requires StandsForAlike(e, batches, x, p)
    ensures Appears(batches, y) && Alike(x, y) && StandsFor(e, y, p)
    ensures forall r :: p.relevance == Some(r) <==> Claims(y, r)
    ensures p.judgement.crosscheck == Disagrees <==> DisputedRef(e, y)
    ensures Located(p.judgement.source) <==> CoveredRef(e, y)
  {
    hide StandsFor, Located, DisputedRef, CoveredRef, Claims, Appears;
    y :| Appears(batches, y) && Alike(x, y) && StandsFor(e, y, p);
    StandingSays(e, y, p);
    StandingDisputes(e, y, p);
  }

  lemma AlikeGathered(e: Evidence, batches: seq<Batch>, x: Ref, o: Origin)
    requires Appears(batches, x) && StandsFor(e, x, o)
    ensures Gathers(e, batches, x, SameRecord(Origins(e, batches), o))
  {
    hide Origins, Appears, StandsFor, StoodFor, StandsForAlike;
    var group := SameRecord(Origins(e, batches), o);
    StandingSays(e, x, o);
    forall p | p in group ensures StandsForAlike(e, batches, x, p) { MemberStands(e, batches, x, p); }
    forall y | Appears(batches, y) && Alike(x, y) ensures StoodFor(e, group, y) {
      assert StoodFor(e, Origins(e, batches), y) by { EachStoodFor(e, batches, y); }
      var p := OriginOfRef(e, Origins(e, batches), y);
      assert p in group;
      IsStoodFor(e, group, y, p);
    }
  }

  lemma IsStoodFor(e: Evidence, group: seq<Origin>, y: Ref, p: Origin)
    requires p in group && StandsFor(e, y, p)
    ensures StoodFor(e, group, y)
  {
    hide StandsFor;
  }

  lemma EachStoodFor(e: Evidence, batches: seq<Batch>, y: Ref)
    requires Appears(batches, y)
    ensures StoodFor(e, Origins(e, batches), y)
  {
    hide Origins, Appears, StandsFor;
    OriginsStand(e, batches);
  }

  lemma MemberStands(e: Evidence, batches: seq<Batch>, x: Ref, p: Origin)
    requires p in Origins(e, batches) && p.key.kind == x.kind && p.key.content == x.record.content
    ensures StandsForAlike(e, batches, x, p)
  {
    hide Origins, Appears, StandsFor;
    OriginsStand(e, batches);
    var y :| Appears(batches, y) && StandsFor(e, y, p);
    StandingSays(e, y, p);
  }

  lemma TornExactly(e: Evidence, batches: seq<Batch>, x: Ref, group: seq<Origin>)
    requires Gathers(e, batches, x, group)
    ensures TwoRelevances(group) <==> Torn(batches, x)
  {
    hide Appears, StandsFor, Alike, Claims, StoodFor, StandsForAlike;
    if TwoRelevances(group) {
      var p, q :| p in group && q in group && p.relevance.Some? && q.relevance.Some? && p.relevance != q.relevance;
      var y := RefOfOrigin(e, batches, x, p);
      var z := RefOfOrigin(e, batches, x, q);
      assert Claims(y, p.relevance.value) && Claims(z, q.relevance.value);
    }
    if Torn(batches, x) {
      var y, z, r, s :| Appears(batches, y) && Appears(batches, z) && Alike(x, y) && Alike(x, z) && Claims(y, r) && Claims(z, s) && r != s;
      var p := OriginOfRef(e, group, y);
      var q := OriginOfRef(e, group, z);
    }
  }

  lemma GatheredSay(e: Evidence, batches: seq<Batch>, x: Ref, group: seq<Origin>)
    requires Gathers(e, batches, x, group)
    ensures AllExact(group) <==> forall y :: Appears(batches, y) && Alike(x, y) ==> CoveredRef(e, y)
    ensures SomeDisagrees(group) <==> exists y :: Appears(batches, y) && Alike(x, y) && DisputedRef(e, y)
  {
    hide Appears, StandsFor, Alike, DisputedRef, CoveredRef, Located, StoodFor, StandsForAlike;
    if !AllExact(group) {
      var p :| p in group && !Located(p.judgement.source);
      var y := RefOfOrigin(e, batches, x, p);
    }
    if y :| Appears(batches, y) && Alike(x, y) && !CoveredRef(e, y) {
      var p := OriginOfRef(e, group, y);
    }
    if SomeDisagrees(group) {
      var p :| p in group && p.judgement.crosscheck == Disagrees;
      var y := RefOfOrigin(e, batches, x, p);
    }
    if y :| Appears(batches, y) && Alike(x, y) && DisputedRef(e, y) {
      var p := OriginOfRef(e, group, y);
    }
  }

  // ---- The veto of a complete manifest ----

  lemma JoinedVetoes(ids: Ids, origins: seq<Origin>, i: nat)
    requires AllRegular(origins) && i < |JoinedGroups(ids, origins)|
    ensures JoinAll(JoinedGroups(ids, origins))[i].crosscheck == Disagrees <==> GroupDisagrees(JoinedGroups(ids, origins)[i].1)
  {
    hide Join, JoinedGroups, Regular, TwoRelevances, SomeDisagrees, AllExact;
    var group := JoinedGroups(ids, origins)[i].1;
    KeptRegular(ids, origins);
    forall o | o in group ensures Regular(o) { MembersKept(ids, origins, i, o); }
    JoinExactly(JoinedGroups(ids, origins)[i].0.0, JoinedGroups(ids, origins)[i].0.1, group);
  }

  lemma VetoOfGroups(naming: Naming, origins: seq<Origin>)
    requires AllRegular(origins) && NoneLost(IdsOf(naming, origins), origins) && IdsApart(IdsOf(naming, origins), origins)
    ensures Vetoes(JoinAll(JoinedGroups(IdsOf(naming, origins), origins))) <==>
            exists o :: o in origins && GroupDisagrees(SameRecord(origins, o))
  {
    hide IdsOf, JoinedGroups, Join, GroupDisagrees, SameRecord, IdsApart, Kept, AllRegular;
    var ids := IdsOf(naming, origins);
    var groups := JoinedGroups(ids, origins);
    var joined := JoinAll(groups);
    if Vetoes(joined) {
      var r :| r in joined && r.crosscheck == Disagrees;
      var i :| 0 <= i < |joined| && joined[i] == r;
      JoinedVetoes(ids, origins, i);
      assert groups[i].1[0] in groups[i].1;
      GroupIsSameRecord(naming, origins, i, groups[i].1[0]);
    }
    if o :| o in origins && GroupDisagrees(SameRecord(origins, o)) {
      AllKept(ids, origins);
      JoinedMirrors(ids, origins, []);
      var i := RecordOf(ids, origins, joined, groups, o);
      GroupIsSameRecord(naming, origins, i, o);
      JoinedVetoes(ids, origins, i);
      assert joined[i] in joined;
    }
  }

  lemma TornTogether(batches: seq<Batch>, x: Ref, y: Ref)
    requires Alike(x, y)
    ensures Torn(batches, x) <==> Torn(batches, y)
  {
    hide Appears, Claims;
    forall z ensures Alike(x, z) <==> Alike(y, z) { }
  }

  lemma OriginSpeaks(e: Evidence, batches: seq<Batch>, x: Ref, o: Origin)
    requires Appears(batches, x) && StandsFor(e, x, o)
    ensures GroupDisagrees(SameRecord(Origins(e, batches), o)) <==>
            exists y :: Alike(x, y) && SpeaksAgainst(e, batches, y)
  {
    hide Origins, Appears, StandsFor, StoodFor, StandsForAlike, SameRecord, Torn, Gathers, TwoRelevances, AllExact, SomeDisagrees,
      DisputedRef, CoveredRef;
    var group := SameRecord(Origins(e, batches), o);
    AlikeGathered(e, batches, x, o);
    TornExactly(e, batches, x, group);
    GatheredSay(e, batches, x, group);
    forall y | Alike(x, y) ensures Torn(batches, x) <==> Torn(batches, y) { TornTogether(batches, x, y); }
    forall y, z | Alike(x, y) ensures Alike(x, z) <==> Alike(y, z) { }
    assert Alike(x, x);
  }

  // Complete manifests whose identifiers keep contents apart veto exactly when some record speaks against the package.
  lemma VetoOfRecords(naming: Naming, e: Evidence, batches: seq<Batch>, merged: Option<Draft>)
    requires Receipt(naming, e, batches, merged).complete
    requires IdsApart(IdsOf(naming, Origins(e, batches)), Origins(e, batches))
    requires NoneLost(IdsOf(naming, Origins(e, batches)), Origins(e, batches))
    ensures Receipt(naming, e, batches, merged).veto <==> exists x :: SpeaksAgainst(e, batches, x)
  {
    hide IdsOf, Origins, IdsApart, NoneLost, SpeaksAgainst, SameRecord, GroupDisagrees, JoinAll, JoinedGroups, ReceiptReasons,
      Contributors, SafeAll, VetoReasons, DiscardedReasons, IdMap, PublishAll, StandsFor, Appears, Alike, Regular;
    var origins := Origins(e, batches);
    OriginsRegular(e, batches);
    VetoOfGroups(naming, origins);
    OriginsStand(e, batches);
    if o :| o in origins && GroupDisagrees(SameRecord(origins, o)) {
      var x :| Appears(batches, x) && StandsFor(e, x, o);
      OriginSpeaks(e, batches, x, o);
    }
    if x :| SpeaksAgainst(e, batches, x) {
      SpeakerAppears(e, batches, x);
      var o :| o in origins && StandsFor(e, x, o);
      OriginSpeaks(e, batches, x, o);
    }
  }

  lemma SpeakerAppears(e: Evidence, batches: seq<Batch>, x: Ref)
    requires SpeaksAgainst(e, batches, x)
    ensures Appears(batches, x) && Alike(x, x)
  {
    hide Torn, DisputedRef, CoveredRef;
  }

  // A manifest vetoes the package exactly when it is complete and some record of the batches speaks against it. The draft
  // given to the producer, if any, is the merged one; without one, no renaming of the merge may hit another identifier.
  lemma VetoExactly(size: Payload -> nat, naming: Naming, e: Evidence, batches: seq<Batch>, merged: Option<Draft>)
    requires MergedFits(naming, batches, merged)
    requires merged.Some? || IdsApart(IdsOf(naming, Origins(e, batches)), Origins(e, batches))
    ensures
      var p := Produced(size, naming, e, batches, merged).payload;
      p.veto <==> p.complete && exists x :: SpeaksAgainst(e, batches, x)
  {
    hide IdsOf, Origins, IdsApart, NoneLost, SpeaksAgainst, JoinAll, JoinedGroups, ReceiptReasons, MergedFits, WellFormedBatch,
      Contributors, SafeAll, VetoReasons, DiscardedReasons, IdMap, PublishAll, BatchIds, AllDifferent, Vetoes;
    CompleteForInputs(naming, e, batches, merged);
    if Receipt(naming, e, batches, merged).complete {
      VetoOfRecords(naming, e, batches, merged);
    }
  }

  // ---- The reasons of a receipt, and what it publishes ----

  lemma {:induction false} BatchesReasonsExactly(batches: seq<Batch>)
    ensures forall reason :: reason in BatchesReasons(batches) <==>
      || (reason == UnknownAnnotation && exists b :: b in batches && !KnownAnnotations(b))
      || (reason == RecordCapacity && exists b :: b in batches && !WithinCapacity(b))
  {
    hide KnownAnnotations, WithinCapacity, BatchReasons;
    if batches != [] {
      var front, b := batches[..|batches| - 1], batches[|batches| - 1];
      BatchesReasonsExactly(front);
      BatchReasonsExactly(b);
      assert batches == front + [b];
    }
  }

  ghost predicate WithinCapacity(b: Batch) {
    |b.draft.claims| + |b.draft.requirements| + |b.draft.risks| + |b.draft.rules| <= 2600
  }

  lemma BatchReasonsExactly(b: Batch)
    ensures forall reason :: reason in BatchReasons(b) <==>
      || (reason == UnknownAnnotation && !KnownAnnotations(b))
      || (reason == RecordCapacity && !WithinCapacity(b))
  {
    assert |RecordsIn(b.draft)| == |b.draft.claims| + |b.draft.requirements| + |b.draft.risks| + |b.draft.rules|;
    hide RecordsIn;
  }

  // A joined record whose located members claim two relevances.
  ghost predicate TornGroup(ids: Ids, origins: seq<Origin>) {
    exists i :: 0 <= i < |JoinedGroups(ids, origins)| &&
      TwoRelevances(JoinedGroups(ids, origins)[i].1) && AllExact(JoinedGroups(ids, origins)[i].1)
  }

  lemma TornGroupVetoes(ids: Ids, origins: seq<Origin>)
    requires AllRegular(origins)
    ensures TornGroup(ids, origins) <==>
            exists r :: r in JoinAll(JoinedGroups(ids, origins)) && r.relevance == None && r.crosscheck == Disagrees
  {
    hide Join, JoinedGroups, TwoRelevances, AllExact, AllRegular;
    var groups := JoinedGroups(ids, origins);
    var joined := JoinAll(groups);
    forall i | 0 <= i < |groups|
      ensures joined[i].relevance == None && joined[i].crosscheck == Disagrees <==> TwoRelevances(groups[i].1) && AllExact(groups[i].1)
    {
      TornRecord(ids, origins, i);
    }
    if TornGroup(ids, origins) {
      var i :| 0 <= i < |groups| && TwoRelevances(groups[i].1) && AllExact(groups[i].1);
      assert joined[i] in joined;
    }
  }

  lemma TornRecord(ids: Ids, origins: seq<Origin>, i: nat)
    requires AllRegular(origins) && i < |JoinedGroups(ids, origins)|
    ensures
      var r, group := JoinAll(JoinedGroups(ids, origins))[i], JoinedGroups(ids, origins)[i].1;
      r.relevance == None && r.crosscheck == Disagrees <==> TwoRelevances(group) && AllExact(group)
  {
    hide Join, JoinedGroups, Regular, AllExact;
    var group := JoinedGroups(ids, origins)[i].1;
    KeptRegular(ids, origins);
    forall o | o in group ensures Regular(o) { MembersKept(ids, origins, i, o); }
    JoinExactly(JoinedGroups(ids, origins)[i].0.0, JoinedGroups(ids, origins)[i].0.1, group);
    if r :| Join(JoinedGroups(ids, origins)[i].0.0, JoinedGroups(ids, origins)[i].0.1, group).relevance == Some(r) {
      assert AgreedRelevance(group, r);
    } else {
      UnclaimedOrTorn(group);
    }
  }

  lemma UnclaimedOrTorn(group: seq<Origin>)
    requires (forall o :: o in group ==> Regular(o)) && forall r :: !AgreedRelevance(group, r)
    ensures SomeDisagrees(group) ==> TwoRelevances(group)
  {
    forall o | o in group && o.relevance.Some? ensures TwoRelevances(group) {
      assert !AgreedRelevance(group, o.relevance.value);
    }
  }

  ghost predicate Repeats(batches: seq<Batch>) {
    exists i, j :: 0 <= i < j < |batches| && batches[i].batchId == batches[j].batchId
  }

  lemma RepeatsExactly(batches: seq<Batch>)
    ensures Repeats(batches) <==> !AllDifferent(BatchIds(batches))
  {
    if Repeats(batches) {
      var i, j :| 0 <= i < j < |batches| && batches[i].batchId == batches[j].batchId;
      assert BatchIds(batches)[i] == BatchIds(batches)[j];
    }
  }

  ghost predicate ReasonOf(e: Evidence, x: Ref, reason: AuthorityReason) {
    JudgeRecord(e, x.batch, x.kind, x.ordinal, x.record.content).reason == Some(reason)
  }

  lemma StandingReason(e: Evidence, x: Ref, o: Origin)
    requires StandsFor(e, x, o)
    ensures forall reason :: o.judgement.reason == Some(reason) <==> ReasonOf(e, x, reason)
    ensures o.judgement.crosscheck == Disagrees <==> DisputedRef(e, x)
    ensures o.judgement.crosscheck == Disagrees ==> o.judgement.reason.Some?
  {
    hide JudgeRecord, Disputed, SoleAnnotation, Judgeable, FullyCovered, CitationFails, CitationHolds;
    StandingDisputes(e, x, o);
    JudgedExactly(e, x.batch, x.kind, x.ordinal, x.record.content);
  }

  lemma OriginReasons(e: Evidence, batches: seq<Batch>, reason: AuthorityReason)
    ensures
      var origins := Origins(e, batches);
      && ((exists o :: o in origins && o.judgement.reason == Some(reason)) <==> exists x :: Appears(batches, x) && ReasonOf(e, x, reason))
      && ((exists o :: o in origins && o.judgement.crosscheck == Disagrees && o.judgement.reason == Some(reason)) <==>
          exists x :: Appears(batches, x) && DisputedRef(e, x) && ReasonOf(e, x, reason))
      && forall o :: o in origins && o.judgement.crosscheck == Disagrees ==> o.judgement.reason.Some?
  {
    hide Origins, Appears, StandsFor, ReasonOf, DisputedRef, StoodFor, StandsForAlike;
    var origins := Origins(e, batches);
    forall o | o in origins
      ensures o.judgement.crosscheck == Disagrees ==> o.judgement.reason.Some?
      ensures o.judgement.reason == Some(reason) ==>
        exists x :: Appears(batches, x) && ReasonOf(e, x, reason) && (o.judgement.crosscheck == Disagrees ==> DisputedRef(e, x))
    {
      var x := SomeRefOf(e, batches, o);
      StandingReason(e, x, o);
    }
    forall x | Appears(batches, x) && ReasonOf(e, x, reason)
      ensures exists o :: o in origins && o.judgement.reason == Some(reason) && (DisputedRef(e, x) ==> o.judgement.crosscheck == Disagrees)
    {
      EachStoodFor(e, batches, x);
      var o := OriginOfRef(e, origins, x);
      StandingReason(e, x, o);
    }
  }

  lemma SomeRefOf(e: Evidence, batches: seq<Batch>, o: Origin) returns (x: Ref)
    requires o in Origins(e, batches)
    ensures Appears(batches, x) && StandsFor(e, x, o)
  {
    hide Origins, Appears, StandsFor;
    OriginsStand(e, batches);
    x :| Appears(batches, x) && StandsFor(e, x, o);
  }

  // Why records are discarded, and why the package is vetoed, record by record.
  lemma RecordReasonsExactly(e: Evidence, batches: seq<Batch>, joined: seq<Joined>, reason: AuthorityReason)
    ensures reason in DiscardedReasons(Origins(e, batches), joined) <==>
      || (exists x :: Appears(batches, x) && ReasonOf(e, x, reason))
      || (reason == RelevanceDisagreement && exists r :: r in joined && r.relevance == None)
    ensures reason in VetoReasons(Origins(e, batches), joined) <==>
      || (exists x :: Appears(batches, x) && DisputedRef(e, x) && ReasonOf(e, x, reason))
      || (reason == RelevanceDisagreement && exists r :: r in joined && r.relevance == None && r.crosscheck == Disagrees)
  {
    hide Origins, Appears, ReasonOf, DisputedRef;
    OriginReasons(e, batches, reason);
  }

  // All reasons for which a receipt is incomplete.
  lemma ReceiptReasonExactly(naming: Naming, e: Evidence, batches: seq<Batch>, merged: Option<Draft>, reason: AuthorityReason)
    ensures
      var origins := Origins(e, batches);
      var ids := IdsOf(naming, origins);
      var joined := JoinAll(JoinedGroups(ids, origins));
      reason in ReceiptReasons(ids, batches, origins, joined, merged) <==>
        || (reason == RepeatedBatch && Repeats(batches))
        || (reason == UnknownAnnotation && exists b :: b in batches && !KnownAnnotations(b))
        || (reason == RecordCapacity && exists b :: b in batches && !WithinCapacity(b))
        || (reason == LostOrigin && !NoneLost(ids, origins))
        || (reason == MergedRecordMappingMismatch && merged.Some? && !SameRows(DraftRows(merged.value), RecordRows(joined)))
  {
    hide IdsOf, Origins, NoneLost, JoinAll, JoinedGroups, BatchIds, AllDifferent, KnownAnnotations, WithinCapacity, Repeats, SameRows,
      Lost, BatchesReasons, Kept, DraftRows, RecordRows;
    var origins := Origins(e, batches);
    var ids := IdsOf(naming, origins);
    RepeatsExactly(batches);
    BatchesReasonsExactly(batches);
    NoneLostKept(ids, origins);
    KeptBound(ids, origins);
    LostExactly(|origins| - |Kept(ids, origins)|, reason);
  }

  lemma UnresolvedIs(ids: Ids, origins: seq<Origin>, batches: seq<Batch>, merged: Option<Draft>, reason: AuthorityReason)
    ensures
      var joined := JoinAll(JoinedGroups(ids, origins));
      reason in ReceiptOf(ids, origins, batches, merged).unresolved <==>
      reason in ReceiptReasons(ids, batches, origins, joined, merged) || reason in VetoReasons(origins, joined)
  {
    hide JoinAll, JoinedGroups, ReceiptReasons, VetoReasons, DiscardedReasons, Contributors, SafeAll, IdMap, PublishAll, Vetoes;
  }

  // All reasons that a receipt leaves unresolved: those that make it incomplete, those of the records that speak against
  // the package, and the disagreement of located equal records.
  lemma UnresolvedExactly(naming: Naming, e: Evidence, batches: seq<Batch>, merged: Option<Draft>, reason: AuthorityReason)
    ensures
      var origins := Origins(e, batches);
      var ids := IdsOf(naming, origins);
      reason in Receipt(naming, e, batches, merged).unresolved <==>
        || reason in ReceiptReasons(ids, batches, origins, JoinAll(JoinedGroups(ids, origins)), merged)
        || (exists x :: Appears(batches, x) && DisputedRef(e, x) && ReasonOf(e, x, reason))
        || (reason == RelevanceDisagreement && TornGroup(ids, origins))
  {
    hide IdsOf, Origins, JoinAll, JoinedGroups, VetoReasons, Appears, DisputedRef, ReasonOf, TornGroup, ReceiptReasons, ReceiptOf, Regular;
    var origins := Origins(e, batches);
    var ids := IdsOf(naming, origins);
    OriginsRegular(e, batches);
    UnresolvedIs(ids, origins, batches, merged, reason);
    RecordReasonsExactly(e, batches, JoinAll(JoinedGroups(ids, origins)), reason);
    TornGroupVetoes(ids, origins);
  }

  lemma LostExactly(n: nat, reason: AuthorityReason)
    ensures reason in Lost(n) <==> reason == LostOrigin && n > 0
  {
    if n > 0 { assert Lost(n)[0] == LostOrigin; }
  }

  // What the manifest lists of one record.
  ghost predicate Lists(naming: Naming, e: Evidence, batches: seq<Batch>, complete: bool, x: Ref, v: VerifiedOrigin) {
    var j := JudgeRecord(e, x.batch, x.kind, x.ordinal, x.record.content);
    && v.key == OriginKey(x.batch.batchId, x.kind, x.ordinal, x.record.content)
    && v.kind == x.kind && v.content == x.record.content
    && v.mergedId == IdFor(naming, Origins(e, batches), v.key)
    && (forall r :: v.relevance == Some(r) <==> Claims(x, r))
    && v.source == j.source && v.crosscheck == j.crosscheck && v.reason == j.reason && v.bindings == j.bindings
    && (v.verified <==> complete && Supported(e, x.batch, x.kind, x.ordinal, x.record.content))
  }

  lemma PublishLists(naming: Naming, e: Evidence, batches: seq<Batch>, complete: bool, x: Ref, o: Origin)
    requires StandsFor(e, x, o)
    ensures Lists(naming, e, batches, complete, x, Publish(IdsOf(naming, Origins(e, batches)), complete, o))
  {
    hide IdFor, Origins, JudgeRecord, Supported, Claims;
    PublishedExactly(e, x.batch, x.kind, x.ordinal, x.record.content);
  }

  // Every listed origin is a record of the batches, verified exactly if the receipt is complete and it may be published.
  lemma ListedOrigin(naming: Naming, e: Evidence, batches: seq<Batch>, merged: Option<Draft>, v: VerifiedOrigin)
    requires v in Receipt(naming, e, batches, merged).origins
    ensures exists x :: Appears(batches, x) && Lists(naming, e, batches, Receipt(naming, e, batches, merged).complete, x, v)
  {
    hide Origins, ReceiptOf, Kept, Publish, Appears, Lists, StandsFor, Mirrors, JoinedGroups, Vetoes, IdMap;
    var origins := Origins(e, batches);
    var ids := IdsOf(naming, origins);
    var complete := Receipt(naming, e, batches, merged).complete;
    ReceiptFields(ids, origins, batches, merged);
    var kept := Kept(ids, origins);
    var i :| 0 <= i < |kept| && PublishAll(ids, origins, complete)[i] == v;
    KeptMember(ids, origins, i);
    var x := SomeRefOf(e, batches, kept[i]);
    PublishLists(naming, e, batches, complete, x, kept[i]);
  }

  lemma KeptMember(ids: Ids, origins: seq<Origin>, i: nat)
    requires i < |Kept(ids, origins)|
    ensures Kept(ids, origins)[i] in origins
  {
    assert Kept(ids, origins)[i] in Kept(ids, origins);
  }

  // An incomplete receipt withholds every record, with its own reason or the first reason of the receipt.
  lemma IncompleteWithholds(naming: Naming, e: Evidence, batches: seq<Batch>, merged: Option<Draft>)
    requires !Receipt(naming, e, batches, merged).complete
    ensures
      var origins := Origins(e, batches);
      var ids := IdsOf(naming, origins);
      var joined := JoinAll(JoinedGroups(ids, origins));
      var receipt := ReceiptReasons(ids, batches, origins, joined, merged);
      var records := Receipt(naming, e, batches, merged).records;
      && receipt != [] && |records| == |joined|
      && forall i :: 0 <= i < |records| ==>
          && !records[i].verified && records[i].crosscheck == Undecided
          && records[i].reason == (if joined[i].reason != None then joined[i].reason else Some(receipt[0]))
          && records[i].kind == joined[i].kind && records[i].mergedId == joined[i].mergedId && records[i].content == joined[i].content
          && records[i].relevance == joined[i].relevance && records[i].source == joined[i].source
          && records[i].contributors == joined[i].contributors && records[i].channels == joined[i].channels
  {
    hide IdsOf, Origins, JoinAll, JoinedGroups, VetoReasons, DiscardedReasons, ReceiptReasons, Contributors, IdMap, PublishAll, Vetoes;
    CompleteExactly(IdsOf(naming, Origins(e, batches)), Origins(e, batches), batches, merged);
  }

  // A receipt of more than half a mebibyte is replaced by one that decides nothing; any other is sealed as it is.
  lemma CapacityExactly(size: Payload -> nat, naming: Naming, e: Evidence, batches: seq<Batch>, merged: Option<Draft>)
    ensures
      var p, m := Receipt(naming, e, batches, merged), Produced(size, naming, e, batches, merged);
      && m.receiptBytes == size(m.payload) && m.capacityBytes == 512 * 1024 && m.digest == m.payload && m.payload.version == 3
      && if size(p) <= 512 * 1024 then m.payload == p
         else !m.payload.complete && !m.payload.veto && m.payload.unresolved == {ReceiptCapacity} && m.payload.discarded == {} &&
              |m.payload.ids| == 0 && |m.payload.origins| == 0 && |m.payload.records| == 0
  {
    hide ReceiptReasons, JoinAll, JoinedGroups, VetoReasons, DiscardedReasons, Contributors, IdMap, PublishAll, Vetoes, Origins, IdsOf;
  }
}
