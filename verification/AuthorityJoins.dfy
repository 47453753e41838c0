// When a joined record passes the recomputation of the checks.
module AuthorityJoins {
  import opened Sorting
  import opened Texts
  import opened CanonicalMerge
  import opened RecordAuthority
  import opened AuthorityManifest

  // ---- Facts about every origin ----

  ghost predicate Regular(o: Origin) {
    && |o.judgement.bindings| <= MAX_CITATIONS
    && (forall b :: b in o.judgement.bindings ==> |b.occurrences| == 1)
    && (o.relevance == None ==>
          o.judgement.source == Unlocated && o.judgement.crosscheck == Undecided && o.judgement.reason.Some?)
  }

  lemma OneOccurrence(e: Evidence, content: Content, bindings: seq<PhysicalBinding>, relevance: Relevance, i: nat)
    requires i < |content.citations|
    ensures
      var binding := JudgeCitation(e, content, bindings, relevance, i).binding;
      binding.Some? ==> |binding.value.occurrences| == 1
  {
  }

  lemma {:induction false} JudgementBindings(
      e: Evidence, content: Content, bindings: seq<PhysicalBinding>, relevance: Relevance, i: nat)
    requires i <= |content.citations|
    ensures |JudgeFrom(e, content, bindings, relevance, i).bindings| <= |content.citations| - i
    ensures forall b :: b in JudgeFrom(e, content, bindings, relevance, i).bindings ==> |b.occurrences| == 1
    decreases |content.citations| - i
  {
    hide JudgeCitation;
    if i < |content.citations| {
      var o := JudgeCitation(e, content, bindings, relevance, i);
      OneOccurrence(e, content, bindings, relevance, i);
      if o.failure == None {
        JudgementBindings(e, content, bindings, relevance, i + 1);
      }
    }
  }

  lemma OriginRegular(e: Evidence, b: Batch, item: Item)
    ensures Regular(OriginOf(e, b, item))
  {
    hide JudgeFrom;
    var annotations := AnnotationsFor(b, item.kind, item.ordinal);
    var content := item.record.content;
    if EarlyFailure(b, annotations, content) == None {
      JudgementBindings(e, content, annotations[0].bindings.value, annotations[0].relevance, 0);
    }
  }

  lemma {:induction false} OriginsRegular(e: Evidence, batches: seq<Batch>)
    ensures forall o :: o in Origins(e, batches) ==> Regular(o)
  {
    hide OriginOf, RecordsIn, Regular;
    if batches != [] {
      var b := batches[|batches| - 1];
      OriginsRegular(e, batches[..|batches| - 1]);
      forall o | o in BatchOrigins(e, b) ensures Regular(o) {
        var i :| 0 <= i < |RecordsIn(b.draft)| && o == BatchOrigins(e, b)[i];
        OriginRegular(e, b, RecordsIn(b.draft)[i]);
      }
    }
  }

  lemma PublishedShaped(ids: Ids, complete: bool, o: Origin)
    requires Regular(o)
    ensures OriginShaped(Publish(ids, complete, o))
  {
  }

  // ---- Joining ----

  ghost predicate SameRelevance(group: seq<Origin>) {
    forall o, p :: o in group && p in group ==> o.relevance == p.relevance
  }

  ghost predicate TwoRelevances(group: seq<Origin>) {
    exists o, p :: o in group && p in group && o.relevance.Some? && p.relevance.Some? && o.relevance != p.relevance
  }

  ghost predicate SomeDisagrees(group: seq<Origin>) {
    exists o :: o in group && o.judgement.crosscheck == Disagrees
  }

  // The members of a joined record have one relevance, or several of which the conflict is decided the same way by the
  // producer and by the checks.
  ghost predicate GroupAgrees(group: seq<Origin>) {
    SameRelevance(group) || (TwoRelevances(group) && (AllExact(group) || !SomeDisagrees(group)))
  }

  lemma {:induction false} ConcreteExact(group: seq<Origin>)
    ensures forall r :: r in Concrete(group) <==> exists o :: o in group && o.relevance == Some(r)
  {
    if group != [] {
      ConcreteExact(group[1..]);
      forall r ensures r in Concrete(group) <==> exists o :: o in group && o.relevance == Some(r) {
        if r in Concrete(group) {
          if r in Concrete(group[1..]) {
            var o :| o in group[1..] && o.relevance == Some(r);
            assert o in group;
          } else {
            assert group[0] in group;
          }
        }
      }
    }
  }

  function Publications(ids: Ids, complete: bool, group: seq<Origin>): seq<VerifiedOrigin> {
    seq(|group|, i requires 0 <= i < |group| => Publish(ids, complete, group[i]))
  }

  lemma SoleRelevance(group: seq<Origin>)
    requires group != []
    ensures
      var relevances := seq(|group|, i requires 0 <= i < |group| => group[i].relevance);
      && (SameRelevance(group) ==> Sole(relevances) == Some(group[0].relevance))
      && (!SameRelevance(group) ==> Sole(relevances) == None)
  {
    var relevances := seq(|group|, i requires 0 <= i < |group| => group[i].relevance);
    assert relevances[0] == group[0].relevance;
    if SameRelevance(group) {
      forall v | v in relevances ensures v == relevances[0] {
        var i :| 0 <= i < |relevances| && relevances[i] == v;
        assert group[i] in group && group[0] in group;
      }
    } else {
      var o, p :| o in group && p in group && o.relevance != p.relevance;
      var i :| 0 <= i < |group| && group[i] == o;
      var j :| 0 <= j < |group| && group[j] == p;
      assert relevances[i] in relevances && relevances[j] in relevances;
    }
  }

  lemma SoleConcrete(group: seq<Origin>)
    requires group != []
    ensures SameRelevance(group) ==> Sole(Concrete(group)) == group[0].relevance
    ensures TwoRelevances(group) ==> Sole(Concrete(group)) == None
    ensures !SameRelevance(group) && !TwoRelevances(group) ==> Sole(Concrete(group)).Some?
  {
    hide Concrete, Sole;
    ConcreteExact(group);
    if SameRelevance(group) {
      SoleOfOne(group, Concrete(group));
    } else if TwoRelevances(group) {
      var o, p :| o in group && p in group && o.relevance.Some? && p.relevance.Some? && o.relevance != p.relevance;
      SoleOfTwo(Concrete(group), o.relevance.value, p.relevance.value);
    } else {
      SoleOfMixed(group, Concrete(group));
    }
  }

  lemma SoleOfOne(group: seq<Origin>, concrete: seq<Relevance>)
    requires group != [] && SameRelevance(group)
    requires forall r :: r in concrete <==> exists o :: o in group && o.relevance == Some(r)
    ensures Sole(concrete) == group[0].relevance
  {
    assert group[0] in group;
    if group[0].relevance.Some? {
      assert group[0].relevance.value in concrete;
      forall r | r in concrete ensures r == group[0].relevance.value {
        var o :| o in group && o.relevance == Some(r);
      }
      assert concrete != [] && concrete[0] in concrete;
    } else {
      assert Elements(concrete) == {};
      ElementsEmpty(concrete);
    }
  }

  lemma SoleOfTwo(concrete: seq<Relevance>, r: Relevance, s: Relevance)
    requires r in concrete && s in concrete && r != s
    ensures Sole(concrete) == None
  {
  }

  // One relevance beside origins that have none.
  lemma SoleOfMixed(group: seq<Origin>, concrete: seq<Relevance>)
    requires !SameRelevance(group) && !TwoRelevances(group)
    requires forall r :: r in concrete <==> exists o :: o in group && o.relevance == Some(r)
    ensures Sole(concrete).Some?
  {
    var o, p :| o in group && p in group && o.relevance != p.relevance;
    var q := if o.relevance.Some? then o else p;
    assert q.relevance.value in concrete;
    forall r | r in concrete ensures r == q.relevance.value {
      var x :| x in group && x.relevance == Some(r);
    }
  }

  // The crosscheck by the formula of the checks.
  function Checked(group: seq<Origin>, sole: bool): Crosscheck {
    if (exists o :: o in group && o.judgement.crosscheck == Disagrees) || (!sole && AllExact(group)) then Disagrees
    else if (exists o :: o in group && o.judgement.crosscheck == Undecided) || !sole then Undecided
    else Consistent
  }

  lemma CombinedExact(group: seq<Origin>)
    ensures Combined(Crosschecks(group)) == Checked(group, true)
  {
    forall c ensures c in Crosschecks(group) <==> exists o :: o in group && o.judgement.crosscheck == c {
      if c in Crosschecks(group) {
        var i :| 0 <= i < |group| && Crosschecks(group)[i] == c;
        assert group[i] in group;
      }
      if exists o :: o in group && o.judgement.crosscheck == c {
        var o :| o in group && o.judgement.crosscheck == c;
        var i :| 0 <= i < |group| && group[i] == o;
        assert Crosschecks(group)[i] == c;
      }
    }
  }

  // What the checks see of a group.
  ghost predicate Seen(r: Joined, group: seq<Origin>, kind: Kind, mergedId: Text)
    requires group != []
  {
    && r.relevance == (if SameRelevance(group) then group[0].relevance else None)
    && r.source == Worst(Sources(group))
    && r.crosscheck == Checked(group, SameRelevance(group))
    && r.verified == ((forall o :: o in group ==> Publishable(o.judgement)) && SameRelevance(group) &&
                      Checked(group, SameRelevance(group)) == Consistent)
    && r.kind == kind && r.mergedId == mergedId
    && forall o :: o in group ==> o.key.content == r.content
  }

  lemma JoinedAsSeen(ids: Ids, r: Joined, group: seq<Origin>, kind: Kind, mergedId: Text)
    requires group != []
    requires r.kind == kind && r.mergedId == mergedId
    requires forall o :: o in group ==> o.key.kind == kind && ids(o.key) == mergedId
    ensures JoinedAs(r, Publications(ids, true, group)) <==> Seen(r, group, kind, mergedId)
  {
    hide SameRelevance, Publishable, Worst, Sole, ExpectedCrosscheck, Checked, RelevancesAt, SourcesAt, Publications;
    var out := Publications(ids, true, group);
    SoleRelevance(group);
    RelevancesSeen(ids, group);
    CrosscheckSeen(ids, group);
    IdentitySeen(ids, r, group, kind, mergedId);
  }

  lemma RelevancesSeen(ids: Ids, group: seq<Origin>)
    ensures RelevancesAt(Publications(ids, true, group)) == seq(|group|, i requires 0 <= i < |group| => group[i].relevance)
    ensures SourcesAt(Publications(ids, true, group)) == Sources(group)
  {
    hide Publishable;
  }

  // Publishing an origin lists it among the published members, and nothing else is listed.
  lemma PublishedMembers(ids: Ids, group: seq<Origin>)
    ensures forall o :: o in group ==> Publish(ids, true, o) in Publications(ids, true, group)
    ensures forall x :: x in Publications(ids, true, group) ==> exists o :: o in group && x == Publish(ids, true, o)
  {
    hide Publish;
    var out := Publications(ids, true, group);
    forall o | o in group ensures Publish(ids, true, o) in out {
      var i :| 0 <= i < |group| && group[i] == o;
      assert out[i] == Publish(ids, true, o);
    }
    forall x | x in out ensures exists o :: o in group && x == Publish(ids, true, o) {
      var i :| 0 <= i < |out| && out[i] == x;
      assert group[i] in group;
    }
  }

  lemma IdentitySeen(ids: Ids, r: Joined, group: seq<Origin>, kind: Kind, mergedId: Text)
    requires r.kind == kind && r.mergedId == mergedId
    requires forall o :: o in group ==> o.key.kind == kind && ids(o.key) == mergedId
    ensures
      (forall o :: o in Publications(ids, true, group) ==> o.kind == r.kind && o.mergedId == r.mergedId && o.content == r.content) <==>
      forall o :: o in group ==> o.key.content == r.content
  {
    hide Publications, Publishable;
    PublishedMembers(ids, group);
  }

  lemma CrosscheckSeen(ids: Ids, group: seq<Origin>)
    ensures
      var out := Publications(ids, true, group);
      && ExpectedCrosscheck(out, SameRelevance(group)) == Checked(group, SameRelevance(group))
      && ((forall o :: o in out ==> o.verified) <==> forall o :: o in group ==> Publishable(o.judgement))
  {
    hide Publishable, Located, Publications, SameRelevance;
    CrosscheckOf(ids, group, Disagrees);
    CrosscheckOf(ids, group, Undecided);
    LocatedSeen(ids, group);
  }

  lemma CrosscheckOf(ids: Ids, group: seq<Origin>, c: Crosscheck)
    ensures (exists o :: o in Publications(ids, true, group) && o.crosscheck == c) <==>
            exists o :: o in group && o.judgement.crosscheck == c
  {
    hide Publishable, Publications;
    PublishedMembers(ids, group);
    if exists o :: o in group && o.judgement.crosscheck == c {
      var o :| o in group && o.judgement.crosscheck == c;
      assert Publish(ids, true, o).crosscheck == c;
    }
  }

  lemma LocatedSeen(ids: Ids, group: seq<Origin>)
    ensures (forall o :: o in Publications(ids, true, group) ==> Located(o.source)) <==> AllExact(group)
    ensures (forall o :: o in Publications(ids, true, group) ==> o.verified) <==> forall o :: o in group ==> Publishable(o.judgement)
  {
    hide Publishable, Located, Publications;
    PublishedMembers(ids, group);
    forall o | o in group
      ensures Publish(ids, true, o).source == o.judgement.source && Publish(ids, true, o).verified == Publishable(o.judgement)
    {
    }
  }

  // A joined record passes the recomputation exactly when its group agrees and has one content.
  lemma JoinMeetsChecks(group: seq<Origin>, kind: Kind, mergedId: Text)
    requires group != [] && forall o :: o in group ==> Regular(o)
    requires forall o :: o in group ==> o.key.content == group[0].key.content
    ensures Seen(Join(kind, mergedId, group), group, kind, mergedId) <==> GroupAgrees(group)
  {
    hide Concrete, Sole, Worst, Regular;
    SoleConcrete(group);
    CombinedExact(group);
    assert group[0] in group;
    if SameRelevance(group) && group[0].relevance == None {
      UnannotatedGroup(group);
    }
  }

  lemma UnannotatedGroup(group: seq<Origin>)
    requires group != [] && forall o :: o in group ==> Regular(o) && o.relevance == None
    ensures !AllExact(group) && Checked(group, true) == Undecided && !Publishable(group[0].judgement)
  {
    assert group[0] in group;
  }

  // Where a group agrees, its record vetoes the package exactly when a member disagrees, or when located members have
  // different relevances.
  lemma JoinVetoesExactly(kind: Kind, mergedId: Text, group: seq<Origin>)
    requires group != [] && (forall o :: o in group ==> Regular(o)) && GroupAgrees(group)
    ensures Join(kind, mergedId, group).crosscheck == Disagrees <==>
            SomeDisagrees(group) || (!SameRelevance(group) && AllExact(group))
  {
    hide Concrete, Sole, Worst, Regular;
    SoleConcrete(group);
    CombinedExact(group);
    assert group[0] in group;
    if SameRelevance(group) && group[0].relevance == None {
      UnannotatedGroup(group);
    }
  }

  // Where a group with several relevances does not agree, the disagreement of a member is lost.
  lemma DisagreementIsLost(kind: Kind, mergedId: Text, group: seq<Origin>)
    requires group != [] && TwoRelevances(group) && !GroupAgrees(group)
    ensures SomeDisagrees(group) && Join(kind, mergedId, group).crosscheck == Undecided
  {
    hide Concrete, Sole, Worst;
    SoleConcrete(group);
  }
}
