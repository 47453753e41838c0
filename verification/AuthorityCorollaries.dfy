// Conditions that a caller can check, a manifest that fails, and the comparison with the merged draft.
module AuthorityCorollaries {
  import opened Sorting
  import opened CanonicalMerge
  import opened RecordAuthority
  import opened AuthorityManifest
  import opened AuthorityJoins
  import opened AuthorityBookkeeping
  import opened AuthorityTheorem

  // ---- Distinct batches have distinct origin keys ----

  lemma ItemsPlaced(d: Draft, i: nat, j: nat)
    requires i < j < |RecordsIn(d)|
    ensures RecordsIn(d)[i].kind != RecordsIn(d)[j].kind || RecordsIn(d)[i].ordinal != RecordsIn(d)[j].ordinal
  {
  }

  lemma {:induction false} OriginOfBatch(e: Evidence, batches: seq<Batch>, o: Origin)
    requires o in Origins(e, batches)
    ensures o.key.batchId in BatchIds(batches)
  {
    hide OriginOf, RecordsIn;
    var n := |batches|;
    if o in BatchOrigins(e, batches[n - 1]) {
      var i :| 0 <= i < |RecordsIn(batches[n - 1].draft)| && o == BatchOrigins(e, batches[n - 1])[i];
      KeyOfOrigin(e, batches[n - 1], RecordsIn(batches[n - 1].draft)[i]);
      assert BatchIds(batches)[n - 1] == o.key.batchId;
    } else {
      OriginOfBatch(e, batches[..n - 1], o);
      var i :| 0 <= i < n - 1 && BatchIds(batches[..n - 1])[i] == o.key.batchId;
      assert BatchIds(batches)[i] == o.key.batchId;
    }
  }

  lemma KeyOfOrigin(e: Evidence, b: Batch, item: Item)
    ensures OriginOf(e, b, item).key == OriginKey(b.batchId, item.kind, item.ordinal, item.record.content)
    ensures OriginOf(e, b, item).id == item.record.id
  {
  }

  lemma {:induction false} AllKeysApart(e: Evidence, batches: seq<Batch>)
    requires AllDifferent(BatchIds(batches))
    ensures AllDifferent(KeysOf(Origins(e, batches)))
  {
    hide OriginOf, RecordsIn;
    if batches != [] {
      var n := |batches|;
      var front, b := batches[..n - 1], batches[n - 1];
      assert BatchIds(front) == BatchIds(batches)[..n - 1];
      AllKeysApart(e, front);
      var s, t := Origins(e, front), BatchOrigins(e, b);
      var all: seq<Origin> := s + t;
      forall i, j | 0 <= i < j < |all| ensures all[i].key != all[j].key {
        if j < |s| {
          assert KeysOf(s)[i] != KeysOf(s)[j];
        } else {
          var item := RecordsIn(b.draft)[j - |s|];
          KeyOfOrigin(e, b, item);
          if i < |s| {
            OriginOfBatch(e, front, s[i]);
            assert BatchIds(batches)[n - 1] == b.batchId;
          } else {
            KeyOfOrigin(e, b, RecordsIn(b.draft)[i - |s|]);
            ItemsPlaced(b.draft, i - |s|, j - |s|);
          }
        }
      }
    }
  }

  // Batches with distinct identifiers never produce two origins with one key.
  lemma DistinctBatchesKeepKeysApart(ids: Ids, e: Evidence, batches: seq<Batch>)
    requires AllDifferent(BatchIds(batches))
    ensures KeysApart(ids, Origins(e, batches))
  {
    hide Origins;
    AllKeysApart(e, batches);
    KeptKeysApart(ids, Origins(e, batches));
  }

  lemma KeptKeysApart(ids: Ids, origins: seq<Origin>)
    requires AllDifferent(KeysOf(origins))
    ensures KeysApart(ids, origins)
  {
    KeysDistinct(origins);
    FilterDistinct(origins, (o: Origin) => ids(o.key) != []);
    KeysDistinct(Kept(ids, origins));
  }

  // ---- When merged identifiers keep contents apart ----

  lemma PlannedId(naming: Naming, origins: seq<Origin>, o: Origin) returns (i: nat)
    requires o in origins
    ensures
      var plan := Plan(naming, RecordsOf(OfKind(origins, o.key.kind)));
      i < |plan| && plan[i].content == o.key.content && plan[i].mergedId == IdFor(naming, origins, o.key)
  {
    hide Plan;
    var values := OfKind(origins, o.key.kind);
    var records := RecordsOf(values);
    var k :| 0 <= k < |values| && values[k] == o;
    assert records[k] in records;
    i := ContentIsPlanned(naming, records, records[k]);
    var plan := Plan(naming, records);
    forall j, l | 0 <= j < l < |plan| ensures plan[j].content != plan[l].content { ContentsDistinct(naming, records, j, l); }
    LookUpAt(plan, i);
  }

  lemma RecordOrigin(origins: seq<Origin>, kind: Kind, r: Record) returns (o: Origin)
    requires r in RecordsOf(OfKind(origins, kind))
    ensures o in origins && o.key.kind == kind && o.key.content == r.content && o.id == r.id
  {
    var i :| 0 <= i < |RecordsOf(OfKind(origins, kind))| && RecordsOf(OfKind(origins, kind))[i] == r;
    o := OfKind(origins, kind)[i];
    assert o in OfKind(origins, kind);
  }

  // The origin behind an item of the plan.
  lemma ItemOrigin(naming: Naming, origins: seq<Origin>, kind: Kind, i: nat) returns (o: Origin)
    requires i < |Plan(naming, RecordsOf(OfKind(origins, kind)))|
    ensures
      var plan := Plan(naming, RecordsOf(OfKind(origins, kind)));
      && o in origins && o.key.kind == kind && o.key.content == plan[i].content
      && IdsOf(naming, origins)(o.key) == plan[i].mergedId
  {
    hide Plan, IdFor, RecordsOf, OfKind;
    var records := RecordsOf(OfKind(origins, kind));
    var r := ItemKeepsContent(naming, records, i);
    o := RecordOrigin(origins, kind, r);
    var j := PlannedId(naming, origins, o);
    if i < j { ContentsDistinct(naming, records, i, j); }
    if j < i { ContentsDistinct(naming, records, j, i); }
  }

  ghost predicate PiecesOfDigests(naming: Naming, origins: seq<Origin>) {
    forall kind :: DigestPieces(naming, RecordsOf(OfKind(origins, kind)))
  }

  // A renaming hits another identifier of its kind.
  ghost predicate NamesClash(naming: Naming, records: seq<Record>) {
    NameTaken(naming, records) || NameShared(naming, records)
  }

  // Merged identifiers keep contents apart exactly when no renaming hits another identifier of its kind.
  lemma IdsApartExactly(naming: Naming, origins: seq<Origin>)
    requires PiecesOfDigests(naming, origins)
    ensures IdsApart(IdsOf(naming, origins), origins) <==>
            forall kind :: !NamesClash(naming, RecordsOf(OfKind(origins, kind)))
  {
    hide IdFor, Plan, RecordsOf, OfKind, IdsApart, MergedIdsDiffer, NameTaken, NameShared, DigestPieces;
    forall kind ensures NamesClash(naming, RecordsOf(OfKind(origins, kind))) <==> !MergedIdsDiffer(naming, RecordsOf(OfKind(origins, kind))) {
      MergedIdsDifferExactly(naming, RecordsOf(OfKind(origins, kind)));
    }
    if forall kind :: MergedIdsDiffer(naming, RecordsOf(OfKind(origins, kind))) {
      DifferentKeepApart(naming, origins);
    } else {
      var kind :| !MergedIdsDiffer(naming, RecordsOf(OfKind(origins, kind)));
      CollisionMixes(naming, origins, kind);
    }
  }

  lemma DifferentKeepApart(naming: Naming, origins: seq<Origin>)
    requires forall kind :: MergedIdsDiffer(naming, RecordsOf(OfKind(origins, kind)))
    ensures IdsApart(IdsOf(naming, origins), origins)
  {
    hide IdFor, Plan, RecordsOf, OfKind;
    var ids := IdsOf(naming, origins);
    forall o, p | o in Kept(ids, origins) && p in Kept(ids, origins) && SameEntry(ids, o, p) ensures SameContent(o, p) {
      var i := PlannedId(naming, origins, o);
      var j := PlannedId(naming, origins, p);
      assert MergedIdsDiffer(naming, RecordsOf(OfKind(origins, o.key.kind)));
    }
  }

  lemma CollisionMixes(naming: Naming, origins: seq<Origin>, kind: Kind)
    requires DigestPieces(naming, RecordsOf(OfKind(origins, kind)))
    requires !MergedIdsDiffer(naming, RecordsOf(OfKind(origins, kind)))
    ensures !IdsApart(IdsOf(naming, origins), origins)
  {
    hide IdFor, Plan, RecordsOf, OfKind, TakenAt, SharedAt;
    var ids, records := IdsOf(naming, origins), RecordsOf(OfKind(origins, kind));
    var plan := Plan(naming, records);
    var i, j :| 0 <= i < j < |plan| && plan[i].mergedId == plan[j].mergedId;
    CollisionNamed(naming, records, i, j);
    ContentsDistinct(naming, records, i, j);
    var o := ItemOrigin(naming, origins, kind, i);
    var p := ItemOrigin(naming, origins, kind, j);
    assert o in Kept(ids, origins) && p in Kept(ids, origins);
    assert SameEntry(ids, o, p) && !SameContent(o, p);
  }

  // An identifier that two items share is not empty: at least one of them was renamed.
  lemma CollisionNamed(naming: Naming, records: seq<Record>, i: nat, j: nat)
    requires DigestPieces(naming, records) && i < j < |Plan(naming, records)|
    requires Plan(naming, records)[i].mergedId == Plan(naming, records)[j].mergedId
    ensures Plan(naming, records)[i].mergedId != []
  {
    hide Plan, Bases;
    ItemsCollide(naming, records, i, j);
    ItemId(naming, records, i);
    ItemId(naming, records, j);
  }

  lemma SeparableKeepsIdsApart(naming: Naming, origins: seq<Origin>)
    requires forall kind :: Separable(naming, RecordsOf(OfKind(origins, kind)))
    ensures IdsApart(IdsOf(naming, origins), origins)
  {
    hide Plan, RecordsOf, OfKind, IdsApart, MergedIdsDiffer, NameTaken, NameShared;
    forall kind
      ensures DigestPieces(naming, RecordsOf(OfKind(origins, kind))) && !NamesClash(naming, RecordsOf(OfKind(origins, kind)))
    {
      SeparableIdsDiffer(naming, RecordsOf(OfKind(origins, kind)));
      MergedIdsDifferExactly(naming, RecordsOf(OfKind(origins, kind)));
    }
    IdsApartExactly(naming, origins);
  }

  // ---- Agreement in terms of the annotations ----

  // With one annotation for each record, a group agrees when its relevances agree or all its sources are located.
  lemma AnnotatedGroupAgrees(group: seq<Origin>)
    requires forall o :: o in group ==> o.relevance.Some?
    requires SameRelevance(group) || AllExact(group)
    ensures GroupAgrees(group)
  {
    if !SameRelevance(group) {
      var o, p :| o in group && p in group && o.relevance != p.relevance;
    }
  }

  ghost predicate GroupsSettled(ids: Ids, origins: seq<Origin>) {
    forall i :: 0 <= i < |JoinedGroups(ids, origins)| ==>
      SameRelevance(JoinedGroups(ids, origins)[i].1) || AllExact(JoinedGroups(ids, origins)[i].1)
  }

  lemma SettledGroupsAgree(ids: Ids, origins: seq<Origin>)
    requires GroupsSettled(ids, origins) && forall o :: o in origins ==> o.relevance.Some?
    ensures AllAgree(ids, origins)
  {
    hide JoinedGroups, SameRelevance, AllExact, GroupAgrees;
    forall i | 0 <= i < |JoinedGroups(ids, origins)| ensures GroupAgrees(JoinedGroups(ids, origins)[i].1) {
      forall o | o in JoinedGroups(ids, origins)[i].1 ensures o.relevance.Some? {
        MembersKept(ids, origins, i, o);
        KeptOriginal(ids, origins, o);
      }
      AnnotatedGroupAgrees(JoinedGroups(ids, origins)[i].1);
    }
  }

  // With distinct batches, identifiers apart, one annotation for each record, and groups of one relevance or located
  // throughout, every manifest passes.
  lemma ProducedPasses(size: Payload -> nat, naming: Naming, e: Evidence, batches: seq<Batch>, merged: Option<Draft>)
    requires size(UnresolvedPayload(ReceiptCapacity)) <= MAX_RECEIPT_BYTES
    requires AllDifferent(BatchIds(batches))
    requires forall o :: o in Origins(e, batches) ==> o.relevance.Some?
    requires IdsApart(IdsOf(naming, Origins(e, batches)), Origins(e, batches))
    requires GroupsSettled(IdsOf(naming, Origins(e, batches)), Origins(e, batches))
    ensures Integrity(size, Produced(size, naming, e, batches, merged))
  {
    hide IdsOf, Origins, Receipt, Produced, Integrity, GroupsSettled, IdsApart, KeysApart, AllAgree;
    var origins := Origins(e, batches);
    SettledGroupsAgree(IdsOf(naming, origins), origins);
    DistinctBatchesKeepKeysApart(IdsOf(naming, origins), e, batches);
    ProducedPassesExactly(size, naming, e, batches, merged);
  }

  lemma KeptOriginal(ids: Ids, origins: seq<Origin>, o: Origin)
    requires o in Kept(ids, origins)
    ensures o in origins
  {
  }
}
