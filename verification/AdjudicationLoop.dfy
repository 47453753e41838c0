// The loops of `verifySubmissionAdjudication`, proved against the conditions of module Adjudication.
module AdjudicationLoop {
  import opened Sorting
  import opened SubmissionLedger
  import opened Adjudication

  method JudgeUnit(c: Candidate, units: seq<Unit>, strayUnit: bool) returns (v: Verdict)
    ensures v == UnitVerdict(c, units, strayUnit)
  {
    var own := Filter(units, (u: Unit) => u.candidate == c.id);
    var reason: Option<Reason> := if strayUnit then Some(UnknownCandidate) else None;
    if reason == None && |own| == 0 { reason := Some(MissingCandidate); }
    if reason == None && |own| > 1 { reason := Some(DuplicateCandidate); }
    if reason == None && own[0].document != c.document { reason := Some(ShaMismatch); }
    if reason == None && own[0].page != c.page { reason := Some(PageMismatch); }
    if reason == None && own[0].uncertain { reason := Some(SemanticUncertainty); }
    if reason == None && |own[0].decisions| > c.capacity { reason := Some(Capacity); }
    var relations: seq<Relation> := [];
    if reason == None {
      relations, reason := ValidateAll(c, own[0].decisions);
    }
    if reason == None {
      var repeated := RepeatsSpan(relations);
      assert forall i :: 0 <= i < |relations| ==>
        relations[i].start == own[0].decisions[i].start && relations[i].end == own[0].decisions[i].end;
      assert repeated <==> !SpansDistinct(own[0].decisions);
      if repeated { reason := Some(OverlapDisagreement); }
    }
    v := Verdict(c.id, c.document, c.page, reason, if reason == None then relations else []);
  }

  lemma FirstRejectionStep(c: Candidate, decisions: seq<Decision>, k: nat)
    requires k < |decisions|
    ensures FirstRejection(c, decisions[k..]) ==
            match ValidateRelation(c, decisions[k])
            case Rejected(r) => Some(r)
            case Accepted(_) => FirstRejection(c, decisions[k + 1..])
  {
    hide ValidateRelation;
    assert decisions[k..][0] == decisions[k] && decisions[k..][1..] == decisions[k + 1..];
  }

  lemma NothingRejected(c: Candidate, decisions: seq<Decision>)
    ensures decisions[0..] == decisions && FirstRejection(c, decisions[|decisions|..]) == None
  {
  }

  method ValidateAll(c: Candidate, decisions: seq<Decision>) returns (relations: seq<Relation>, reason: Option<Reason>)
    ensures reason == FirstRejection(c, decisions)
    ensures reason == None ==> relations == Relations(c, decisions)
  {
    hide FirstRejection, ValidateRelation;
    relations, reason := [], None;
    var k := 0;
    NothingRejected(c, decisions);
    while k < |decisions| && reason == None
      invariant k <= |decisions|
      invariant reason == None ==> FirstRejection(c, decisions) == FirstRejection(c, decisions[k..])
      invariant reason.Some? ==> FirstRejection(c, decisions) == reason
      invariant reason == None ==> |relations| == k
      invariant reason == None ==> forall j :: 0 <= j < k ==> ValidateRelation(c, decisions[j]) == Accepted(relations[j])
    {
      FirstRejectionStep(c, decisions, k);
      match ValidateRelation(c, decisions[k]) {
        case Rejected(r) => reason := Some(r);
        case Accepted(r) => relations := relations + [r];
      }
      k := k + 1;
    }
  }

  method RepeatsSpan(relations: seq<Relation>) returns (repeated: bool)
    ensures repeated <==> exists i, j :: 0 <= i < j < |relations| &&
                                         relations[i].start == relations[j].start && relations[i].end == relations[j].end
  {
    var spans: set<(nat, nat)> := {};
    repeated := false;
    var k := 0;
    while k < |relations| && !repeated
      invariant k <= |relations|
      invariant !repeated ==> forall i :: 0 <= i < k ==> (relations[i].start, relations[i].end) in spans
      invariant !repeated ==> forall s :: s in spans ==> exists i :: 0 <= i < k && (relations[i].start, relations[i].end) == s
      invariant !repeated ==> forall i, j :: 0 <= i < j < k ==>
        relations[i].start != relations[j].start || relations[i].end != relations[j].end
      invariant repeated ==> exists i, j :: 0 <= i < j < |relations| &&
                                            relations[i].start == relations[j].start && relations[i].end == relations[j].end
    {
      var span := (relations[k].start, relations[k].end);
      if span in spans {
        repeated := true;
      }
      spans := spans + {span};
      k := k + 1;
    }
  }

  // The candidates of `ids` have their verdicts, the others are as before.
  ghost predicate JudgedUpTo(
      ledger: Ledger, b: Binding, responses: seq<Response>, records: map<CandidateId, Verdict>,
      updated: map<CandidateId, Verdict>, ids: seq<CandidateId>)
  {
    && updated.Keys == records.Keys + (set id | id in ids)
    && (forall id :: id in ids ==>
          id in updated && Known(ledger.candidates, id) && updated[id] == Verdicts(Find(ledger.candidates, id), b, responses))
    && forall id :: id in records && id !in ids ==> id in updated && updated[id] == records[id]
  }

  // The reasons are those of the verdicts, and there is one exactly if the whole answer or a verdict has one.
  ghost predicate ReasonsUpTo(
      updated: map<CandidateId, Verdict>, ids: seq<CandidateId>, reasons: set<Reason>, early: bool)
  {
    && (forall id :: id in ids && id in updated && updated[id].reason.Some? ==> updated[id].reason.value in reasons)
    && (early ==> reasons != {})
    && (!early && reasons != {} ==> exists id :: id in ids && id in updated && updated[id].reason.Some?)
  }

  lemma JudgedStep(
      ledger: Ledger, b: Binding, responses: seq<Response>, records: map<CandidateId, Verdict>,
      updated: map<CandidateId, Verdict>, ids: seq<CandidateId>, id: CandidateId, v: Verdict)
    requires JudgedUpTo(ledger, b, responses, records, updated, ids)
    requires Known(ledger.candidates, id) && v == Verdicts(Find(ledger.candidates, id), b, responses)
    ensures JudgedUpTo(ledger, b, responses, records, updated[id := v], ids + [id])
    ensures id in ids ==> id in updated && updated[id] == v
  {
    hide Known, Verdicts;
  }

  lemma ReasonsStep(
      updated: map<CandidateId, Verdict>, ids: seq<CandidateId>, reasons: set<Reason>, early: bool, id: CandidateId, v: Verdict)
    requires ReasonsUpTo(updated, ids, reasons, early) && (id in ids ==> id in updated && updated[id] == v)
    ensures ReasonsUpTo(updated[id := v], ids + [id], if v.reason.Some? then reasons + {v.reason.value} else reasons, early)
  {
    var more, after := ids + [id], updated[id := v];
    assert id in more && after[id] == v;
    if !early && reasons != {} {
      var x :| x in ids && x in updated && updated[x].reason.Some?;
      assert x in more && after[x] == updated[x];
    }
  }

  lemma AllJudged(
      ledger: Ledger, b: Binding, responses: seq<Response>, records: map<CandidateId, Verdict>,
      updated: map<CandidateId, Verdict>, reasons: set<Reason>)
    requires forall id :: id in b.candidates ==> Known(ledger.candidates, id)
    requires JudgedUpTo(ledger, b, responses, records, updated, b.candidates)
    requires ReasonsUpTo(updated, b.candidates, reasons, SetAsideWhole(b, responses))
    ensures reasons == {} <==> CleanBatch(ledger, b, responses)
  {
    hide Known, Verdicts, CleanBatch, BatchReason, StrayUnit;
    CleanMeansNoReason(ledger, b, responses);
  }

  // The answer to a batch is unusable as a whole, or lists a unit that was not asked for.
  predicate SetAsideWhole(b: Binding, responses: seq<Response>) {
    BatchReason(b, responses).Some? || StrayUnit(b, ResponsesTo(responses, b)[0].units)
  }

  lemma VerdictIs(c: Candidate, b: Binding, responses: seq<Response>)
    ensures
      var reason := BatchReason(b, responses);
      Verdicts(c, b, responses) ==
        if reason.Some? then Unresolved(c, reason.value)
        else UnitVerdict(c, ResponsesTo(responses, b)[0].units, StrayUnit(b, ResponsesTo(responses, b)[0].units))
  {
  }

  // One batch: the answer is set aside as a whole, or each of its candidates is judged.
  method JudgeBatch(ledger: Ledger, b: Binding, responses: seq<Response>, records: map<CandidateId, Verdict>)
    returns (updated: map<CandidateId, Verdict>, reasons: set<Reason>, intact: bool)
    requires forall id :: id in b.candidates ==> Known(ledger.candidates, id)
    ensures updated.Keys == records.Keys + set id | id in b.candidates
    ensures forall id :: id in b.candidates ==> updated[id] == Verdicts(Find(ledger.candidates, id), b, responses)
    ensures forall id :: id in records && id !in b.candidates ==> updated[id] == records[id]
    ensures forall id :: id in b.candidates && updated[id].reason.Some? ==> updated[id].reason.value in reasons
    ensures intact <==> BatchReason(b, responses) == None
    ensures reasons == {} <==> CleanBatch(ledger, b, responses)
  {
    hide UnitVerdict, Known, Verdicts, CleanBatch, StrayUnit;
    var reason := BatchReason(b, responses);
    updated, reasons, intact := records, {}, reason == None;
    var stray := false;
    if reason.Some? {
      reasons := {reason.value};
    } else {
      stray := StrayUnit(b, ResponsesTo(responses, b)[0].units);
      if stray { reasons := {UnknownCandidate}; }
    }
    ghost var early := SetAsideWhole(b, responses);
    for k := 0 to |b.candidates|
      invariant JudgedUpTo(ledger, b, responses, records, updated, b.candidates[..k])
      invariant ReasonsUpTo(updated, b.candidates[..k], reasons, early)
    {
      hide JudgedUpTo, ReasonsUpTo, BatchReason;
      var c := Find(ledger.candidates, b.candidates[k]);
      VerdictIs(c, b, responses);
      var v: Verdict;
      if reason.Some? {
        v := Unresolved(c, reason.value);
      } else {
        v := JudgeUnit(c, ResponsesTo(responses, b)[0].units, stray);
      }
      assert b.candidates[..k + 1] == b.candidates[..k] + [c.id];
      JudgedStep(ledger, b, responses, records, updated, b.candidates[..k], c.id, v);
      ReasonsStep(updated, b.candidates[..k], reasons, early, c.id, v);
      updated := updated[c.id := v];
      if v.reason.Some? { reasons := reasons + {v.reason.value}; }
    }
    assert b.candidates[..|b.candidates|] == b.candidates;
    AllJudged(ledger, b, responses, records, updated, reasons);
  }

  ghost predicate AllAccepted(ledger: Ledger, b: Binding, responses: seq<Response>)
    requires forall id :: id in b.candidates ==> Known(ledger.candidates, id)
  {
    && BatchReason(b, responses) == None
    && !StrayUnit(b, ResponsesTo(responses, b)[0].units)
    && forall id :: id in b.candidates ==> Verdicts(Find(ledger.candidates, id), b, responses).reason == None
  }

  lemma UnitAccepted(c: Candidate, units: seq<Unit>)
    ensures UnitVerdict(c, units, false).reason == None <==> CleanUnit(c, units)
  {
    var own := Filter(units, (v: Unit) => v.candidate == c.id);
    if UnitReason(c, units, false) == None {
      assert own == [own[0]];
      assert CleanUnit(c, units);
    }
  }

  lemma CleanMeansNoReason(ledger: Ledger, b: Binding, responses: seq<Response>)
    requires forall id :: id in b.candidates ==> Known(ledger.candidates, id)
    ensures CleanBatch(ledger, b, responses) <==> AllAccepted(ledger, b, responses)
  {
    hide Known, UnitVerdict, CleanUnit;
    var answers := ResponsesTo(responses, b);
    if |answers| == 1 {
      assert answers == [answers[0]];
      forall id | id in b.candidates
        ensures UnitVerdict(Find(ledger.candidates, id), answers[0].units, false).reason == None <==>
                CleanUnit(Find(ledger.candidates, id), answers[0].units)
      {
        UnitAccepted(Find(ledger.candidates, id), answers[0].units);
      }
    }
  }

  lemma {:induction false} AssignedAbove(bindings: seq<Binding>, i: nat, j: nat, id: CandidateId)
    requires i <= j < |bindings|
    ensures Assigned(bindings)[id] >= Assigned(bindings[..i])[id] + multiset(bindings[j].candidates)[id]
  {
    var front := bindings[..|bindings| - 1];
    if j == |bindings| - 1 {
      if i < j {
        AssignedMonotone(front, i, id);
        assert front[..i] == bindings[..i];
      } else {
        assert bindings[..i] == front;
      }
    } else {
      AssignedAbove(front, i, j, id);
      assert front[..i] == bindings[..i];
    }
  }

  lemma {:induction false} AssignedMonotone(bindings: seq<Binding>, i: nat, id: CandidateId)
    requires i <= |bindings|
    ensures Assigned(bindings[..i])[id] <= Assigned(bindings)[id]
  {
    if i < |bindings| {
      var front := bindings[..|bindings| - 1];
      AssignedMonotone(front, i, id);
      assert front[..i] == bindings[..i];
    } else {
      assert bindings[..i] == bindings;
    }
  }

  lemma {:induction false} AllVerified(verdicts: seq<Verdict>)
    requires forall v :: v in verdicts ==> v.reason == None
    ensures Verified(verdicts) == |verdicts|
  {
    if verdicts != [] {
      AllVerified(verdicts[1..]);
    }
  }

  lemma {:induction false} NoneVerified(verdicts: seq<Verdict>)
    requires forall v :: v in verdicts ==> v.reason.Some?
    ensures Verified(verdicts) == 0
  {
    FilterNone(verdicts, (v: Verdict) => v.reason == None);
  }

  lemma {:induction false} AllFragmentsIntact(bindings: seq<Binding>, responses: seq<Response>)
    requires forall b :: b in bindings ==> BatchReason(b, responses) == None
    ensures IntactFragments(bindings, responses) == FragmentCount(bindings)
  {
    if bindings != [] {
      assert bindings[|bindings| - 1] in bindings;
      AllFragmentsIntact(bindings[..|bindings| - 1], responses);
    }
  }

  method CountAssignments(ledger: Ledger, bindings: seq<Binding>)
    returns (counts: multiset<CandidateId>, unknown: bool, fragments: nat)
    ensures counts == Assigned(bindings)
    ensures unknown <==> exists id :: id in Assigned(bindings) && !Known(ledger.candidates, id)
    ensures fragments == FragmentCount(bindings)
  {
    hide Stray;
    counts, unknown, fragments := multiset{}, false, 0;
    StrayNowhere(ledger);
    for i := 0 to |bindings|
      invariant counts == Assigned(bindings[..i])
      invariant fragments == FragmentCount(bindings[..i])
      invariant unknown <==> Stray(ledger, counts)
    {
      var ids := bindings[i].candidates;
      ghost var before := counts;
      for k := 0 to |ids|
        invariant counts == before + multiset(ids[..k])
        invariant unknown <==> Stray(ledger, counts)
      {
        StrayStep(ledger, counts, ids[k]);
        counts := counts + multiset{ids[k]};
        if !Known(ledger.candidates, ids[k]) { unknown := true; }
        assert ids[..k + 1] == ids[..k] + [ids[k]];
      }
      assert ids[..|ids|] == ids;
      assert bindings[..i + 1][..i] == bindings[..i];
      fragments := fragments + |bindings[i].fragments|;
    }
    assert bindings[..|bindings|] == bindings;
    StrayMeans(ledger, counts);
  }

  ghost predicate Stray(ledger: Ledger, counts: multiset<CandidateId>) {
    exists id :: id in counts && !Known(ledger.candidates, id)
  }

  lemma StrayNowhere(ledger: Ledger)
    ensures !Stray(ledger, multiset{})
  {
  }

  lemma StrayMeans(ledger: Ledger, counts: multiset<CandidateId>)
    ensures Stray(ledger, counts) <==> exists id :: id in counts && !Known(ledger.candidates, id)
  {
  }

  lemma StrayStep(ledger: Ledger, counts: multiset<CandidateId>, id: CandidateId)
    ensures Stray(ledger, counts + multiset{id}) <==> Stray(ledger, counts) || !Known(ledger.candidates, id)
  {
    hide Known;
    var more := counts + multiset{id};
    assert id in more;
    if Stray(ledger, counts) {
      var x :| x in counts && !Known(ledger.candidates, x);
      assert x in more;
    }
  }

  method SetAside(ledger: Ledger, reason: Reason, fragments: nat) returns (a: Adjudicated)
    ensures a == Adjudicated(|ledger.candidates|, 0, ledger.expectedPages, ledger.coveredPages, fragments, 0, false, {reason},
                             seq(|ledger.candidates|, i requires 0 <= i < |ledger.candidates| =>
                                   Unresolved(ledger.candidates[i], reason)))
  {
    a := Adjudicated(|ledger.candidates|, 0, ledger.expectedPages, ledger.coveredPages, fragments, 0, false, {reason},
                     seq(|ledger.candidates|, i requires 0 <= i < |ledger.candidates| =>
                           Unresolved(ledger.candidates[i], reason)));
  }

  lemma SetAsideIsAdjudication(
      ledger: Ledger, bindings: seq<Binding>, responses: seq<Response>, packingComplete: bool, a: Adjudicated, reason: Reason)
    requires EarlyReason(ledger, bindings, packingComplete) == Some(reason)
    requires a == Adjudicated(|ledger.candidates|, 0, ledger.expectedPages, ledger.coveredPages, FragmentCount(bindings), 0,
                              false, {reason}, seq(|ledger.candidates|, i requires 0 <= i < |ledger.candidates| =>
                                                     Unresolved(ledger.candidates[i], reason)))
    ensures IsAdjudication(ledger, bindings, responses, packingComplete, a)
  {
    hide CleanBatch, Known;
    NoneVerified(a.verdicts);
  }

  predicate UnknownBatch(bindings: seq<Binding>, responses: seq<Response>) {
    exists r :: r in responses && forall b :: b in bindings ==> b.batchId != r.batchId
  }

  // Every bound identifier is known, and every candidate is bound exactly once.
  ghost predicate Dispatched(ledger: Ledger, bindings: seq<Binding>) {
    && (forall id :: id in Assigned(bindings) ==> Known(ledger.candidates, id))
    && forall c :: c in ledger.candidates ==> Assigned(bindings)[c.id] == 1
  }

  lemma BoundIsKnown(ledger: Ledger, bindings: seq<Binding>, i: nat, id: CandidateId)
    requires Dispatched(ledger, bindings) && i < |bindings|
    requires id in bindings[i].candidates
    ensures Known(ledger.candidates, id)
    ensures id !in Assigned(bindings[..i])
  {
    AssignedAbove(bindings, i, i, id);
    assert id in multiset(bindings[i].candidates);
    var c := Find(ledger.candidates, id);
  }

  ghost predicate Recorded(ledger: Ledger, bindings: seq<Binding>, responses: seq<Response>, records: map<CandidateId, Verdict>) {
    && (forall id :: id in records <==> id in Assigned(bindings))
    && forall id :: id in records ==> Known(ledger.candidates, id) && JudgedBy(ledger, bindings, responses, id, records[id])
  }

  lemma RecordBatch(
      ledger: Ledger, bindings: seq<Binding>, i: nat, responses: seq<Response>,
      records: map<CandidateId, Verdict>, updated: map<CandidateId, Verdict>)
    requires Dispatched(ledger, bindings) && i < |bindings|
    requires Recorded(ledger, bindings[..i], responses, records)
    requires forall id :: id in bindings[i].candidates ==> Known(ledger.candidates, id)
    requires updated.Keys == records.Keys + set id | id in bindings[i].candidates
    requires forall id :: id in bindings[i].candidates ==>
      updated[id] == Verdicts(Find(ledger.candidates, id), bindings[i], responses)
    requires forall id :: id in records && id !in bindings[i].candidates ==> updated[id] == records[id]
    ensures Recorded(ledger, bindings[..i + 1], responses, updated)
  {
    hide Known, Verdicts, Find, Dispatched, JudgedBy;
    var next := bindings[..i + 1];
    assert next[..i] == bindings[..i];
    forall id ensures id in updated <==> id in Assigned(next) {
      assert id in multiset(bindings[i].candidates) <==> id in bindings[i].candidates;
    }
    forall id | id in updated ensures Known(ledger.candidates, id) && JudgedBy(ledger, next, responses, id, updated[id]) {
      if id in bindings[i].candidates {
        assert next[i] == bindings[i];
        JudgedNow(ledger, next, responses, bindings[i], id);
      } else {
        assert id in records;
        JudgedBefore(ledger, bindings, i, responses, id, records[id]);
      }
    }
  }

  lemma JudgedNow(ledger: Ledger, bindings: seq<Binding>, responses: seq<Response>, b: Binding, id: CandidateId)
    requires Known(ledger.candidates, id) && b in bindings && id in b.candidates
    ensures JudgedBy(ledger, bindings, responses, id, Verdicts(Find(ledger.candidates, id), b, responses))
  {
  }

  lemma JudgedBefore(ledger: Ledger, bindings: seq<Binding>, i: nat, responses: seq<Response>, id: CandidateId, v: Verdict)
    requires i < |bindings| && Known(ledger.candidates, id) && JudgedBy(ledger, bindings[..i], responses, id, v)
    ensures JudgedBy(ledger, bindings[..i + 1], responses, id, v)
  {
    hide Verdicts, Find, Known;
    var b :| b in bindings[..i] && id in b.candidates && v == Verdicts(Find(ledger.candidates, id), b, responses);
    assert b in bindings[..i + 1];
  }

  // The loop over the bindings.
  method JudgeBatches(ledger: Ledger, bindings: seq<Binding>, responses: seq<Response>)
    returns (records: map<CandidateId, Verdict>, reasons: set<Reason>, fragments: nat)
    requires Dispatched(ledger, bindings)
    ensures Recorded(ledger, bindings, responses, records)
    ensures reasons == {} <==> forall b :: b in bindings ==> CleanBatch(ledger, b, responses)
    ensures forall id :: id in records && records[id].reason.Some? ==> records[id].reason.value in reasons
    ensures fragments == IntactFragments(bindings, responses)
  {
    hide CleanBatch, Verdicts, Find, Known, Recorded, Dispatched, BatchReason;
    records, reasons, fragments := map[], {}, 0;
    NothingRecorded(ledger, responses);
    for i := 0 to |bindings|
      invariant Recorded(ledger, bindings[..i], responses, records)
      invariant reasons == {} <==> forall j :: 0 <= j < i ==> CleanBatch(ledger, bindings[j], responses)
      invariant forall id :: id in records && records[id].reason.Some? ==> records[id].reason.value in reasons
      invariant fragments == IntactFragments(bindings[..i], responses)
    {
      var b := bindings[i];
      forall id | id in b.candidates ensures Known(ledger.candidates, id) { BoundIsKnown(ledger, bindings, i, id); }
      var updated, found, intact := JudgeBatch(ledger, b, responses, records);
      RecordBatch(ledger, bindings, i, responses, records, updated);
      records := updated;
      reasons := reasons + found;
      if intact { fragments := fragments + |b.fragments|; }
      assert bindings[..i + 1][..i] == bindings[..i];
    }
    assert bindings[..|bindings|] == bindings;
  }

  lemma NothingRecorded(ledger: Ledger, responses: seq<Response>)
    ensures Recorded(ledger, [], responses, map[])
  {
  }

  // The verdicts in the order of the ledger. Each candidate is bound, so the sweep for candidates without a record,
  // which precedes this step, finds none.
  method InLedgerOrder(ledger: Ledger, bindings: seq<Binding>, responses: seq<Response>, records: map<CandidateId, Verdict>)
    returns (verdicts: seq<Verdict>)
    requires Dispatched(ledger, bindings) && Recorded(ledger, bindings, responses, records)
    ensures |verdicts| == |ledger.candidates|
    ensures forall i :: 0 <= i < |verdicts| ==> OwnVerdict(ledger, bindings, responses, i, verdicts[i])
    ensures forall v :: v in verdicts ==> v in records.Values
  {
    hide JudgedBy, Known;
    verdicts := [];
    for i := 0 to |ledger.candidates|
      invariant |verdicts| == i
      invariant forall j :: 0 <= j < i ==> OwnVerdict(ledger, bindings, responses, j, verdicts[j])
      invariant forall v :: v in verdicts ==> v in records.Values
    {
      var id := ledger.candidates[i].id;
      assert ledger.candidates[i] in ledger.candidates;
      assert id in records && records[id] in records.Values;
      verdicts := verdicts + [records[id]];
    }
  }

  lemma EarlyMeansDispatched(ledger: Ledger, bindings: seq<Binding>, packingComplete: bool)
    requires EarlyReason(ledger, bindings, packingComplete) == None
    ensures Dispatched(ledger, bindings)
  {
    hide Known;
  }

  lemma CleanIsIntact(ledger: Ledger, b: Binding, responses: seq<Response>)
    requires CleanBatch(ledger, b, responses)
    ensures BatchReason(b, responses) == None
  {
    hide Known, Find, CleanUnit;
  }

  lemma FinishAdjudication(
      ledger: Ledger, bindings: seq<Binding>, responses: seq<Response>, packingComplete: bool, a: Adjudicated)
    requires EarlyReason(ledger, bindings, packingComplete) == None
    requires a.expectedCandidates == |ledger.candidates| == |a.verdicts|
    requires a.expectedPages == ledger.expectedPages && a.coveredPages == ledger.coveredPages
    requires a.expectedFragments == FragmentCount(bindings)
    requires a.verifiedCandidates == Verified(a.verdicts)
    requires a.verifiedFragments == IntactFragments(bindings, responses)
    requires forall i :: 0 <= i < |ledger.candidates| ==> OwnVerdict(ledger, bindings, responses, i, a.verdicts[i])
    requires a.reasons == {} <==>
             KnownBatches(bindings, responses) && forall b :: b in bindings ==> CleanBatch(ledger, b, responses)
    requires a.complete <==> |ledger.candidates| > 0 && a.reasons == {}
    ensures IsAdjudication(ledger, bindings, responses, packingComplete, a)
  {
    hide CleanBatch, Known, OwnVerdict, KnownBatches;
  }

  method VerifySubmissionAdjudication(
      ledger: Ledger, bindings: seq<Binding>, responses: seq<Response>, packingComplete: bool) returns (a: Adjudicated)
    ensures IsAdjudication(ledger, bindings, responses, packingComplete, a)
  {
    hide CleanBatch, Verdicts, Find, Recorded, Dispatched, IsAdjudication, OwnVerdict, Verified, BatchReason;
    var counts, unknown, fragments := CountAssignments(ledger, bindings);
    var early: Option<Reason> :=
      if ledger.capacityExceeded || !packingComplete then Some(Capacity)
      else if ledger.expectedPages != ledger.coveredPages then Some(IncompletePageCoverage)
      else if !ledger.metadataComplete then Some(InvalidAmendmentMetadata)
      else if unknown then Some(UnknownCandidate)
      else if exists c :: c in ledger.candidates && counts[c.id] > 1 then Some(DuplicateCandidate)
      else if exists c :: c in ledger.candidates && counts[c.id] == 0 then Some(MissingCandidate)
      else None;
    if early.Some? {
      a := SetAside(ledger, early.value, fragments);
      SetAsideIsAdjudication(ledger, bindings, responses, packingComplete, a, early.value);
      return;
    }
    EarlyMeansDispatched(ledger, bindings, packingComplete);
    var records, found, verifiedFragments := JudgeBatches(ledger, bindings, responses);
    var reasons: set<Reason> := found + if UnknownBatch(bindings, responses) then {Reason.UnknownBatch} else {};
    var verdicts := InLedgerOrder(ledger, bindings, responses, records);
    var verified := Verified(verdicts);
    if reasons == {} {
      AllVerified(verdicts);
      forall b | b in bindings ensures BatchReason(b, responses) == None { CleanIsIntact(ledger, b, responses); }
      AllFragmentsIntact(bindings, responses);
    }
    a := Adjudicated(
      |ledger.candidates|, verified, ledger.expectedPages, ledger.coveredPages, fragments, verifiedFragments,
      |ledger.candidates| > 0 && reasons == {} && verified == |ledger.candidates| && verifiedFragments == fragments,
      reasons, verdicts);
    FinishAdjudication(ledger, bindings, responses, packingComplete, a);
  }
}
