// When a produced manifest passes its checks, in terms of the batches alone.
module AuthorityInputs {
  import opened Sorting
  import opened Groups
  import opened CanonicalMerge
  import opened RecordAuthority
  import opened AuthorityManifest
  import opened AuthorityJoins
  import opened AuthorityBookkeeping
  import opened AuthorityTheorem
  import opened AuthorityCorollaries
  import opened AuthorityDraft

  // ---- Batches without a reason ----

  predicate KnownAnnotations(b: Batch) {
    forall a :: a in b.annotations ==> exists item :: item in RecordsIn(b.draft) && item.kind == a.kind && item.ordinal == a.ordinal
  }

  predicate WellFormedBatch(b: Batch) {
    KnownAnnotations(b) && |RecordsIn(b.draft)| <= MAX_RECORDS_PER_BATCH
  }

  lemma {:induction false} NoBatchReason(batches: seq<Batch>)
    ensures BatchesReasons(batches) == [] <==> forall b :: b in batches ==> WellFormedBatch(b)
  {
    hide RecordsIn;
    if batches != [] {
      NoBatchReason(batches[..|batches| - 1]);
      assert BatchReasons(batches[|batches| - 1]) == [] <==> WellFormedBatch(batches[|batches| - 1]);
    }
  }

  // ---- Identifiers ----

  // A content whose only identifiers include the empty one, which is treated as none.
  predicate NameEmpty(naming: Naming, records: seq<Record>) {
    var bases := Bases(naming, records);
    exists i :: 0 <= i < |bases| && bases[i] == [] && !Ambiguous(bases, i)
  }

  lemma NoneLostExactly(naming: Naming, origins: seq<Origin>)
    ensures NoneLost(IdsOf(naming, origins), origins) <==>
            forall kind :: !NameEmpty(naming, RecordsOf(OfKind(origins, kind)))
  {
    hide IdFor, Plan, Bases, RecordsOf, OfKind;
    var ids := IdsOf(naming, origins);
    forall kind | NameEmpty(naming, RecordsOf(OfKind(origins, kind))) ensures !NoneLost(ids, origins) {
      var records := RecordsOf(OfKind(origins, kind));
      var i :| 0 <= i < |Bases(naming, records)| && Bases(naming, records)[i] == [] && !Ambiguous(Bases(naming, records), i);
      ItemId(naming, records, i);
      var o := ItemOrigin(naming, origins, kind, i);
    }
    forall o | o in origins && ids(o.key) == [] ensures NameEmpty(naming, RecordsOf(OfKind(origins, o.key.kind))) {
      var i := PlannedId(naming, origins, o);
      ItemId(naming, RecordsOf(OfKind(origins, o.key.kind)), i);
    }
  }

  // ---- Completeness ----

  // The draft given to the producer, if any, is the one that `mergeDrafts` makes of the same batches.
  predicate MergedFits(naming: Naming, batches: seq<Batch>, merged: Option<Draft>) {
    merged == None || MergeDrafts(naming, DraftsOf(batches)) == merged
  }

  lemma NoneLostKept(ids: Ids, origins: seq<Origin>)
    ensures |origins| - |Kept(ids, origins)| == 0 <==> NoneLost(ids, origins)
  {
    if NoneLost(ids, origins) {
      AllKept(ids, origins);
    } else if |Kept(ids, origins)| == |origins| {
      KeptWhole(ids, origins);
    }
  }

  lemma {:induction false} KeptWhole(ids: Ids, origins: seq<Origin>)
    requires |Kept(ids, origins)| == |origins|
    ensures NoneLost(ids, origins)
  {
    if origins != [] {
      KeptWhole(ids, origins[1..]);
    }
  }

  lemma NothingLost(n: nat)
    ensures Lost(n) == [] <==> n == 0
  {
    assert |Lost(n)| == n;
  }

  // A receipt is complete exactly when the batches are distinct, annotate only their own records and not too many, no
  // record is lost, and, if there is a merged draft, no two contents share an identifier.
  lemma CompleteForInputs(naming: Naming, e: Evidence, batches: seq<Batch>, merged: Option<Draft>)
    requires MergedFits(naming, batches, merged)
    ensures
      var origins := Origins(e, batches);
      var ids := IdsOf(naming, origins);
      Receipt(naming, e, batches, merged).complete <==>
      && AllDifferent(BatchIds(batches))
      && (forall b :: b in batches ==> WellFormedBatch(b))
      && NoneLost(ids, origins)
      && (merged.Some? ==> IdsApart(ids, origins))
  {
    hide IdsOf, Origins, ReceiptOf, Kept, JoinAll, JoinedGroups, SameRows, NoneLost, IdsApart, WellFormedBatch,
         BatchesReasons, RowsOfOrigins, DraftRows, MergeDrafts, Mirrors, AllDifferent, RecordRows, Lost, BatchIds, DraftsOf;
    var origins := Origins(e, batches);
    var ids := IdsOf(naming, origins);
    var joined := JoinAll(JoinedGroups(ids, origins));
    CompleteExactly(ids, origins, batches, merged);
    NoBatchReason(batches);
    KeptBound(ids, origins);
    NothingLost(|origins| - |Kept(ids, origins)|);
    NoneLostKept(ids, origins);
    JoinedMirrors(ids, origins, []);
    if merged.Some? {
      DraftListsOrigins(naming, e, batches, merged.value);
      RowsAgreeExactly(ids, origins, DraftRows(merged.value), joined);
    }
  }

  // ---- Agreement ----

  // The origins that say the same thing, whatever their identifiers.
  function SameRecord(origins: seq<Origin>, o: Origin): seq<Origin> {
    Filter(origins, Saying(o))
  }

  function Saying(o: Origin): Origin -> bool {
    (p: Origin) => p.key.kind == o.key.kind && p.key.content == o.key.content
  }

  lemma GroupFilters<K, T(!new)>(s: seq<T>, key: T -> K, i: nat, q: T -> bool)
    requires i < |GroupBy(s, key)|
    requires forall x :: x in s ==> (key(x) == GroupBy(s, key)[i].0) == q(x)
    ensures GroupBy(s, key)[i].1 == Filter(s, q)
  {
    hide GroupBy;
    var k := GroupBy(s, key)[i].0;
    GroupExact(s, key, i);
    FilterCongruence(s, (x: T) => key(x) == GroupBy(s, key)[i].0, q);
  }

  ghost predicate RecordsAgree(origins: seq<Origin>) {
    forall o :: o in origins ==> GroupAgrees(SameRecord(origins, o))
  }

  lemma GroupIsSameRecord(naming: Naming, origins: seq<Origin>, i: nat, o: Origin)
    requires
      var ids := IdsOf(naming, origins);
      && NoneLost(ids, origins) && IdsApart(ids, origins)
      && i < |JoinedGroups(ids, origins)| && o in JoinedGroups(ids, origins)[i].1
    ensures o in origins && JoinedGroups(IdsOf(naming, origins), origins)[i].1 == SameRecord(origins, o)
  {
    hide IdFor, GroupBy;
    var ids := IdsOf(naming, origins);
    AllKept(ids, origins);
    var group := JoinedGroups(ids, origins)[i];
    MembersKept(ids, origins, i, o);
    GroupExact(origins, JoinKey(ids), i);
    assert o in Filter(origins, (x: Origin) => JoinKey(ids)(x) == GroupBy(origins, JoinKey(ids))[i].0);
    assert JoinKey(ids)(o) == group.0;
    forall p | p in origins
      ensures (JoinKey(ids)(p) == group.0) == Saying(o)(p)
    {
      if JoinKey(ids)(p) == group.0 {
        assert SameEntry(ids, p, o);
        assert SameContent(p, o);
      } else if p.key.kind == o.key.kind && p.key.content == o.key.content {
        SameContentSameId(naming, origins, p.key, o.key);
      }
    }
    GroupFilters(origins, JoinKey(ids), i, Saying(o));
  }

  lemma AgreementForInputs(naming: Naming, origins: seq<Origin>)
    requires NoneLost(IdsOf(naming, origins), origins) && IdsApart(IdsOf(naming, origins), origins)
    ensures AllAgree(IdsOf(naming, origins), origins) <==> RecordsAgree(origins)
  {
    hide IdFor, GroupAgrees, JoinedGroups, IdsApart, Kept, SameRecord;
    var ids := IdsOf(naming, origins);
    var groups := JoinedGroups(ids, origins);
    if AllAgree(ids, origins) {
      forall o | o in origins ensures GroupAgrees(SameRecord(origins, o)) {
        AllKept(ids, origins);
        JoinedMirrors(ids, origins, []);
        var i := RecordOf(ids, origins, JoinAll(groups), groups, o);
        GroupIsSameRecord(naming, origins, i, o);
      }
    }
    if RecordsAgree(origins) {
      forall i | 0 <= i < |groups| ensures GroupAgrees(groups[i].1) {
        assert groups[i].1[0] in groups[i].1;
        GroupIsSameRecord(naming, origins, i, groups[i].1[0]);
      }
    }
  }

  // ---- Main result ----

  // Nothing in the batches makes the receipt incomplete.
  ghost predicate InputsComplete(naming: Naming, batches: seq<Batch>) {
    && AllDifferent(BatchIds(batches))
    && (forall b :: b in batches ==> WellFormedBatch(b))
    && forall kind :: !NameEmpty(naming, Flat(DraftsOf(batches), kind))
  }

  lemma NamesForInputs(naming: Naming, e: Evidence, batches: seq<Batch>)
    requires forall kind :: DigestPieces(naming, Flat(DraftsOf(batches), kind))
    ensures
      var origins := Origins(e, batches);
      var ids := IdsOf(naming, origins);
      && (IdsApart(ids, origins) <==> forall kind :: !NamesClash(naming, Flat(DraftsOf(batches), kind)))
      && (NoneLost(ids, origins) <==> forall kind :: !NameEmpty(naming, Flat(DraftsOf(batches), kind)))
  {
    hide IdsOf, IdsApart, NamesClash, NoneLost, NameEmpty, DraftsOf, OfKind, RecordsOf, DigestPieces;
    var origins := Origins(e, batches);
    forall kind ensures RecordsOf(OfKind(origins, kind)) == Flat(DraftsOf(batches), kind) { SameRecords(e, batches, kind); }
    assert PiecesOfDigests(naming, origins);
    IdsApartExactly(naming, origins);
    NoneLostExactly(naming, origins);
    assert RecordsOf(OfKind(origins, Claim)) == Flat(DraftsOf(batches), Claim);
    assert RecordsOf(OfKind(origins, Requirement)) == Flat(DraftsOf(batches), Requirement);
    assert RecordsOf(OfKind(origins, Risk)) == Flat(DraftsOf(batches), Risk);
    assert RecordsOf(OfKind(origins, Rule)) == Flat(DraftsOf(batches), Rule);
  }

  lemma InputsDecideCompleteness(naming: Naming, e: Evidence, batches: seq<Batch>, merged: Option<Draft>)
    requires MergedFits(naming, batches, merged)
    requires forall kind :: DigestPieces(naming, Flat(DraftsOf(batches), kind))
    requires forall kind :: !NamesClash(naming, Flat(DraftsOf(batches), kind))
    ensures Receipt(naming, e, batches, merged).complete <==> InputsComplete(naming, batches)
  {
    hide IdsOf, Receipt, IdsApart, NamesClash, NoneLost, WellFormedBatch, NameEmpty, DraftsOf, MergedFits, BatchIds,
         AllDifferent, OfKind, RecordsOf, DigestPieces;
    NamesForInputs(naming, e, batches);
    CompleteForInputs(naming, e, batches, merged);
    var ids, origins := IdsOf(naming, Origins(e, batches)), Origins(e, batches);
    assert NoneLost(ids, origins) <==> forall kind :: !NameEmpty(naming, Flat(DraftsOf(batches), kind));
  }

  // A produced manifest passes its checks exactly when it is the fallback, or no two origins share a key, no renaming of
  // the merge hits another identifier, and, when nothing makes the receipt incomplete, equal records agree.
  lemma ProducedPassesForInputs(
      size: Payload -> nat, naming: Naming, e: Evidence, batches: seq<Batch>, merged: Option<Draft>)
    requires size(UnresolvedPayload(ReceiptCapacity)) <= MAX_RECEIPT_BYTES
    requires MergedFits(naming, batches, merged)
    requires forall kind :: DigestPieces(naming, Flat(DraftsOf(batches), kind))
    ensures
      Integrity(size, Produced(size, naming, e, batches, merged)) <==>
      || size(Receipt(naming, e, batches, merged)) > MAX_RECEIPT_BYTES
      || (&& KeysApart(IdsOf(naming, Origins(e, batches)), Origins(e, batches))
          && (forall kind :: !NamesClash(naming, Flat(DraftsOf(batches), kind)))
          && (InputsComplete(naming, batches) ==> RecordsAgree(Origins(e, batches))))
  {
    hide IdsOf, Receipt, Produced, Integrity, KeysApart, IdsApart, AllAgree, NamesClash, RecordsAgree, NoneLost,
         WellFormedBatch, BatchOrigins, NameEmpty, DraftsOf, MergedFits, BatchIds, AllDifferent, OfKind, RecordsOf, DigestPieces;
    var origins := Origins(e, batches);
    var ids := IdsOf(naming, origins);
    NamesForInputs(naming, e, batches);
    ProducedPassesExactly(size, naming, e, batches, merged);
    if IdsApart(ids, origins) { InputsDecideCompleteness(naming, e, batches, merged); }
    if NoneLost(ids, origins) && IdsApart(ids, origins) { AgreementForInputs(naming, origins); }
    assert InputsComplete(naming, batches) ==> NoneLost(ids, origins);
  }

  // With distinct batch ids the keys never clash.
  lemma DistinctBatchesPassExactly(
      size: Payload -> nat, naming: Naming, e: Evidence, batches: seq<Batch>, merged: Option<Draft>)
    requires size(UnresolvedPayload(ReceiptCapacity)) <= MAX_RECEIPT_BYTES
    requires MergedFits(naming, batches, merged) && AllDifferent(BatchIds(batches))
    requires forall kind :: PiecesSeparate(naming, Flat(DraftsOf(batches), kind))
    ensures
      Integrity(size, Produced(size, naming, e, batches, merged)) <==>
      || size(Receipt(naming, e, batches, merged)) > MAX_RECEIPT_BYTES
      || (&& (forall kind :: !NameTaken(naming, Flat(DraftsOf(batches), kind)))
          && (InputsComplete(naming, batches) ==> RecordsAgree(Origins(e, batches))))
  {
    hide IdsOf, Origins, Receipt, Produced, Integrity, KeysApart, RecordsAgree, InputsComplete, NameTaken, NameShared,
         DraftsOf, MergedFits, DigestPieces, MergedIdsDiffer;
    DistinctBatchesKeepKeysApart(IdsOf(naming, Origins(e, batches)), e, batches);
    ProducedPassesForInputs(size, naming, e, batches, merged);
    forall kind ensures NamesClash(naming, Flat(DraftsOf(batches), kind)) <==> NameTaken(naming, Flat(DraftsOf(batches), kind)) {
      MergedIdsDifferExactly(naming, Flat(DraftsOf(batches), kind));
      MergedIdsDifferUnlessTaken(naming, Flat(DraftsOf(batches), kind));
    }
  }
}
