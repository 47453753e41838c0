// The producer of record authority manifests against the checks that later readers run.
module AuthorityTheorem {
  import opened Sorting
  import opened Texts
  import opened Groups
  import opened CanonicalMerge
  import opened RecordAuthority
  import opened AuthorityManifest
  import opened AuthorityJoins
  import opened AuthorityBookkeeping

  ghost predicate AllAgree(ids: Ids, origins: seq<Origin>) {
    forall i :: 0 <= i < |JoinedGroups(ids, origins)| ==> GroupAgrees(JoinedGroups(ids, origins)[i].1)
  }

  lemma JoinedMirrors(ids: Ids, origins: seq<Origin>, receipt: seq<AuthorityReason>)
    ensures Mirrors(JoinAll(JoinedGroups(ids, origins)), JoinedGroups(ids, origins))
    ensures Mirrors(SafeAll(JoinAll(JoinedGroups(ids, origins)), receipt), JoinedGroups(ids, origins))
  {
    hide JoinedGroups;
  }

  ghost predicate AllRegular(origins: seq<Origin>) {
    forall o :: o in origins ==> Regular(o)
  }

  lemma KeptRegular(ids: Ids, origins: seq<Origin>)
    requires AllRegular(origins)
    ensures forall o :: o in Kept(ids, origins) ==> Regular(o)
  {
    hide Regular;
  }

  lemma AllShaped(ids: Ids, origins: seq<Origin>, complete: bool)
    requires AllRegular(origins)
    ensures forall x :: x in PublishAll(ids, origins, complete) ==> OriginShaped(x)
  {
    hide Regular, OriginShaped, Publish;
    var kept := Kept(ids, origins);
    KeptRegular(ids, origins);
    forall x | x in PublishAll(ids, origins, complete) ensures OriginShaped(x) {
      var i :| 0 <= i < |kept| && PublishAll(ids, origins, complete)[i] == x;
      assert kept[i] in kept;
      PublishedShaped(ids, complete, kept[i]);
    }
  }

  // A record can only be published with an exact binding, an agreeing crosscheck and a relevance.
  lemma VerifiedJoin(kind: Kind, mergedId: Text, group: seq<Origin>)
    requires group != []
    ensures
      var r := Join(kind, mergedId, group);
      r.verified ==> r.source == ExactBound && r.crosscheck == Consistent && r.relevance.Some?
  {
    var w := Worst(Sources(group));
    assert Sources(group)[0] in Sources(group);
    var i :| 0 <= i < |group| && Sources(group)[i] == w;
    assert group[i] in group;
  }

  lemma {:induction false} StoredOrigin(origins: seq<VerifiedOrigin>, i: nat)
    requires i < |origins|
    requires AllDifferent(OriginKeys(origins))
    ensures OriginAt(origins, origins[i].key) == Some(origins[i])
  {
    var last := |origins| - 1;
    if i < last {
      assert OriginKeys(origins)[i] != OriginKeys(origins)[last];
      forall j, k | 0 <= j < k < last ensures OriginKeys(origins[..last])[j] != OriginKeys(origins[..last])[k] {
        assert OriginKeys(origins)[j] != OriginKeys(origins)[k];
      }
      StoredOrigin(origins[..last], i);
    }
  }

  lemma MembersOfGroup(ids: Ids, origins: seq<Origin>, i: nat)
    requires KeysApart(ids, origins) && i < |JoinedGroups(ids, origins)|
    ensures
      var out := PublishAll(ids, origins, true);
      var group := JoinedGroups(ids, origins)[i].1;
      AllPresent(out, KeysOf(group)) && Members(out, KeysOf(group)) == Publications(ids, true, group)
  {
    hide GroupBy, JoinedGroups, Kept, Publish;
    var out, kept := PublishAll(ids, origins, true), Kept(ids, origins);
    var group := JoinedGroups(ids, origins)[i].1;
    PublishedKeys(ids, origins, true);
    forall k | 0 <= k < |group| ensures OriginAt(out, group[k].key) == Some(Publish(ids, true, group[k])) {
      MembersKept(ids, origins, i, group[k]);
      var j :| 0 <= j < |kept| && kept[j] == group[k];
      assert out[j] == Publish(ids, true, kept[j]);
      PublishKeepsKey(ids, kept[j]);
      StoredOrigin(out, j);
    }
    forall x | x in KeysOf(group) ensures OriginAt(out, x).Some? {
      var k :| 0 <= k < |group| && KeysOf(group)[k] == x;
    }
  }

  lemma PublishKeepsKey(ids: Ids, o: Origin)
    ensures Publish(ids, true, o).key == o.key
  {
  }

  // One record of a complete manifest.
  lemma RecordPasses(ids: Ids, origins: seq<Origin>, i: nat)
    requires AllRegular(origins)
    requires KeysApart(ids, origins) && IdsApart(ids, origins)
    requires i < |JoinedGroups(ids, origins)|
    ensures
        RecordChecks(JoinAll(JoinedGroups(ids, origins))[i], PublishAll(ids, origins, true)) <==>
      GroupAgrees(JoinedGroups(ids, origins)[i].1)
  {
    hide GroupBy, Kept, JoinedAs, Publish, Seen, GroupAgrees, Regular, Join, KeysApart;
    var groups := JoinedGroups(ids, origins);
    var kind, mergedId, group := groups[i].0.0, groups[i].0.1, groups[i].1;
    GroupsFit(ids, origins);
    KeptRegular(ids, origins);
    assert group[0] in group;
    forall o | o in group ensures Regular(o) && o.key.content == group[0].key.content {
      MembersKept(ids, origins, i, o);
      MembersKept(ids, origins, i, group[0]);
      assert SameEntry(ids, o, group[0]);
      assert SameContent(o, group[0]);
    }
    MembersOfGroup(ids, origins, i);
    JoinNames(kind, mergedId, group);
    JoinedAsSeen(ids, Join(kind, mergedId, group), group, kind, mergedId);
    JoinMeetsChecks(group, kind, mergedId);
  }

  lemma JoinNames(kind: Kind, mergedId: Text, group: seq<Origin>)
    requires group != []
    ensures
      var r := Join(kind, mergedId, group);
      r.kind == kind && r.mergedId == mergedId && r.contributors == KeysOf(group)
  {
  }

  lemma RecordsPass(ids: Ids, origins: seq<Origin>)
    requires AllRegular(origins)
    requires KeysApart(ids, origins) && IdsApart(ids, origins)
    ensures
        (forall r :: r in JoinAll(JoinedGroups(ids, origins)) ==> RecordChecks(r, PublishAll(ids, origins, true))) <==>
      AllAgree(ids, origins)
  {
    hide GroupBy, Kept, RecordChecks, GroupAgrees, Join, KeysApart, IdsApart, JoinedGroups;
    var joined := JoinAll(JoinedGroups(ids, origins));
    forall i | 0 <= i < |joined|
      ensures RecordChecks(joined[i], PublishAll(ids, origins, true)) <==> GroupAgrees(JoinedGroups(ids, origins)[i].1)
    {
      RecordPasses(ids, origins, i);
    }
    if forall r :: r in joined ==> RecordChecks(r, PublishAll(ids, origins, true)) {
      forall i | 0 <= i < |joined| ensures GroupAgrees(JoinedGroups(ids, origins)[i].1) { assert joined[i] in joined; }
    }
  }

  // ---- Main results ----

  lemma FallbackPasses(size: Payload -> nat, reason: AuthorityReason)
    requires size(UnresolvedPayload(reason)) <= MAX_RECEIPT_BYTES
    ensures Integrity(size, Unresolved(size, reason))
  {
  }

  lemma ReceiptSemantics(ids: Ids, origins: seq<Origin>, batches: seq<Batch>, merged: Option<Draft>)
    requires AllRegular(origins) && KeysApart(ids, origins) && IdsApart(ids, origins)
    ensures
      var p := ReceiptOf(ids, origins, batches, merged);
      SemanticsValid(p) <==> (p.complete ==> AllAgree(ids, origins))
  {
    hide RecordChecks, AllAgree, KeysApart, IdsApart, JoinedGroups, ReceiptReasons, Contributors, PublishAll, IdMap,
         VetoReasons, DiscardedReasons, Vetoes, JoinAll;
    RecordsPass(ids, origins);
  }

  lemma ReceiptFields(ids: Ids, origins: seq<Origin>, batches: seq<Batch>, merged: Option<Draft>)
    ensures
      var p := ReceiptOf(ids, origins, batches, merged);
      && p.version == VERSION
      && p.ids == IdMap(ids, origins) && p.origins == PublishAll(ids, origins, p.complete)
      && Mirrors(p.records, JoinedGroups(ids, origins))
      && p.veto == (p.complete && Vetoes(p.records))
      && (forall r :: r in p.records && r.verified ==> r.source == ExactBound && r.crosscheck == Consistent && r.relevance.Some?)
  {
    hide JoinedGroups, ReceiptReasons, Contributors, PublishAll, IdMap, VetoReasons, DiscardedReasons, Vetoes, Join, Mirrors;
    var groups := JoinedGroups(ids, origins);
    var joined := JoinAll(groups);
    JoinedMirrors(ids, origins, ReceiptReasons(ids, batches, origins, joined, merged));
    forall r | r in joined && r.verified ensures r.source == ExactBound && r.crosscheck == Consistent && r.relevance.Some? {
      var i :| 0 <= i < |joined| && joined[i] == r;
      VerifiedJoin(groups[i].0.0, groups[i].0.1, groups[i].1);
    }
  }

  // For all judged origins, whatever identifiers they are merged under.
  lemma ManifestPassesExactly(
      size: Payload -> nat, ids: Ids, origins: seq<Origin>, batches: seq<Batch>, merged: Option<Draft>)
    requires AllRegular(origins)
    requires size(UnresolvedPayload(ReceiptCapacity)) <= MAX_RECEIPT_BYTES
    ensures
      var p := ReceiptOf(ids, origins, batches, merged);
      Integrity(size, SealOrGiveUp(size, p)) <==>
      || size(p) > MAX_RECEIPT_BYTES
      || (KeysApart(ids, origins) && IdsApart(ids, origins) && (p.complete ==> AllAgree(ids, origins)))
  {
    hide KeysApart, IdsApart, AllAgree, ReceiptOf, BookkeepingValid, SemanticsValid, OriginShaped, Vetoes, UnresolvedPayload,
         PublishAll, Mirrors, IdMap, JoinedGroups;
    var p := ReceiptOf(ids, origins, batches, merged);
    if size(p) > MAX_RECEIPT_BYTES {
      FallbackPasses(size, ReceiptCapacity);
    } else {
      ReceiptFields(ids, origins, batches, merged);
      AllShaped(ids, origins, p.complete);
      BookkeepingExactly(ids, origins, p.complete, p);
      if KeysApart(ids, origins) && IdsApart(ids, origins) {
        ReceiptSemantics(ids, origins, batches, merged);
      }
    }
  }

  // Every manifest that is produced passes the checks, complete, incomplete or over capacity, exactly unless two origins
  // share a key, two contents share a merged identifier, or the receipt is complete and some joined record has members
  // whose relevances conflict in the way that producer and checks decide differently.
  lemma ProducedPassesExactly(
      size: Payload -> nat, naming: Naming, e: Evidence, batches: seq<Batch>, merged: Option<Draft>)
    requires size(UnresolvedPayload(ReceiptCapacity)) <= MAX_RECEIPT_BYTES
    ensures
      var p, origins := Receipt(naming, e, batches, merged), Origins(e, batches);
      var ids := IdsOf(naming, origins);
      Integrity(size, Produced(size, naming, e, batches, merged)) <==>
      || size(p) > MAX_RECEIPT_BYTES
      || (KeysApart(ids, origins) && IdsApart(ids, origins) && (p.complete ==> AllAgree(ids, origins)))
  {
    hide IdsOf, Origins, KeysApart, IdsApart, AllAgree, ReceiptOf, SealOrGiveUp, Integrity, Regular;
    OriginsRegular(e, batches);
    ManifestPassesExactly(size, IdsOf(naming, Origins(e, batches)), Origins(e, batches), batches, merged);
  }

  // The count of contributors never decides completeness: a receipt is complete exactly when it has no reason.
  lemma CompleteExactly(ids: Ids, origins: seq<Origin>, batches: seq<Batch>, merged: Option<Draft>)
    ensures ReceiptOf(ids, origins, batches, merged).complete <==>
            ReceiptReasons(ids, batches, origins, JoinAll(JoinedGroups(ids, origins)), merged) == []
  {
    hide JoinedGroups, IdMap, PublishAll, SafeAll, VetoReasons, DiscardedReasons, Vetoes, Mirrors, Kept, JoinAll,
         Contributors, BatchesReasons, SameRows;
    var joined := JoinAll(JoinedGroups(ids, origins));
    var kept := Kept(ids, origins);
    JoinedMirrors(ids, origins, []);
    BookkeepingExactly(
      ids, origins, true,
      Payload(VERSION, true, false, {}, {}, IdMap(ids, origins), PublishAll(ids, origins, true), joined));
    KeptBound(ids, origins);
    if ReceiptReasons(ids, batches, origins, joined, merged) == [] {
      assert Lost(|origins| - |kept|) == [];
      assert |Lost(|origins| - |kept|)| == |origins| - |kept|;
    }
  }

  lemma KeptBound(ids: Ids, origins: seq<Origin>)
    ensures |Kept(ids, origins)| <= |origins|
  {
  }
}
