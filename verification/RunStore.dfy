/** `NeonRunStore` on one run row, with other writers in between, and `admitQueuedRun` as its client. */
module RunStore {
  import opened Sorting
  import opened RunRow

  /** What the caller learns of a write: its answer, nothing although it reached the database, or nothing
      because it never got there. */
  datatype Fate = Answered | AnswerLost | NeverArrived

  /** How the network treats the read and the write of one attempt. */
  datatype Link = Link(readArrives: bool, write: Fate)

  datatype UpdateResult = Updated(row: Row) | MutatorThrew | UpdatedConcurrently | UpdateUnanswered
  datatype ExpiredResult = Applied(applied: Row) | NotApplied(current: Row) | ExpiredThrew | ExpiredConflict | ExpiredUnanswered

  /** Who committed a row: the worker whose calls are studied, or anybody else. */
  datatype Author = Own | Other

  class NeonRunStore {
    var row: Row
    ghost var history: seq<Row>      // every committed row, oldest first
    ghost var authors: seq<Author>   // who committed it

    ghost predicate Valid() reads this {
      && history != [] && history[|history| - 1] == row
      && |authors| == |history|
      && forall i :: 0 <= i < |history| ==> history[i].version == i
    }

    constructor (reserved: nat)
      ensures Valid() && history == [row] && authors == [Other]
      ensures row.version == 0 && row.status == Queued && row.reserved == reserved && row.fence == 0 && row.watchdogs == 0
      ensures row.admissionLease == None && row.admissionExpires == None && row.processingLease == None && row.processingExpires == None
      ensures row.dispatchClaim == None && row.dispatchStatus == None && row.workflowRunId == None
      ensures !row.paidStarted && !row.cleanupConfirmed && row.terminalAfterCleanup == None && row.failureId == None
    {
      row := NewRow(reserved);
      history := [NewRow(reserved)];
      authors := [Other];
    }

    /** Any number of committed writes by other workers. Only the contract is used. */
    method Interfere()
      requires Valid()
      modifies this
      ensures Valid() && old(history) <= history && NoneOwn(old(authors), authors)
    {
    }

    /** The write of `w` alone: it commits exactly when its guard matches the row as it is now. */
    method Commit(w: Write) returns (claimed: Option<Row>)
      requires Valid()
      modifies this
      ensures Valid() && claimed == Effect(w, old(row))
      ensures claimed.Some? ==> row == claimed.value && history == old(history) + [row] && authors == old(authors) + [Own]
      ensures claimed.None? ==> unchanged(this)
    {
      claimed := Effect(w, row);
      if claimed.Some? {
        row := claimed.value;
        history := history + [row];
        authors := authors + [Own];
      }
    }

    method ClaimAdmission(lease: Id, now: Time, ms: Time) returns (claimed: Option<Row>)
      requires Valid()
      modifies this
      ensures Valid() && old(history) <= history
      ensures claimed.Some? <==>
                && old(row).status == Queued && old(row).workflowRunId == None && old(row).dispatchClaim == None
                && (old(row).admissionLease.Some? ==> old(row).admissionExpires.Some? && !(now < old(row).admissionExpires.value))
      ensures claimed.Some? ==>
                row == claimed.value ==
                  old(row).(admissionLease := Some(lease), admissionExpires := Some(now + ms), version := old(row).version + 1)
      ensures claimed.Some? ==> authors == old(authors) + [Own]
      ensures claimed.None? ==> unchanged(this)
    {
      claimed := Commit(WClaimAdmission(lease, now, ms));
    }

    method ClaimProcessing(lease: Id, now: Time, ms: Time) returns (claimed: Option<Row>)
      requires Valid()
      modifies this
      ensures Valid() && old(history) <= history
      ensures claimed.Some? <==>
                && !old(row).paidStarted && old(row).watchdogs == 0
                && (|| old(row).status == Queued
                    || (&& old(row).status !in {Ready, Partial, Failed, CleanupPending, Expired}
                        && old(row).processingExpires.Some? && !(now < old(row).processingExpires.value)))
      ensures claimed.Some? ==>
                row == claimed.value ==
                  old(row).(status := Validating, processingLease := Some(lease), processingExpires := Some(now + ms),
                            fence := old(row).fence + 1, version := old(row).version + 1)
      ensures claimed.Some? ==> authors == old(authors) + [Own]
      ensures claimed.None? ==> unchanged(this)
    {
      claimed := Commit(WClaimProcessing(lease, now, ms));
    }

    method HeartbeatProcessing(lease: Id, fence: nat, now: Time, ms: Time) returns (beat: Option<Row>)
      requires Valid()
      modifies this
      ensures Valid() && old(history) <= history
      ensures beat.Some? <==>
                && old(row).processingLease == Some(lease) && old(row).fence == fence
                && old(row).status !in {Queued, Ready, Partial, Failed, CleanupPending, Expired}
      ensures beat.Some? ==> row == beat.value == old(row).(processingExpires := Some(now + ms), version := old(row).version + 1)
      ensures beat.Some? ==> authors == old(authors) + [Own]
      ensures beat.None? ==> unchanged(this)
    {
      LeasedExactly(row.status);
      beat := Commit(WHeartbeat(lease, fence, now, ms));
    }

    method ClaimAnalysisDispatch(admission: Id, claim: Id) returns (claimed: Option<Row>)
      requires Valid()
      modifies this
      ensures Valid() && old(history) <= history
      ensures claimed == ClaimDispatch(old(row), admission, claim)
      ensures claimed.Some? <==>
                && old(row).status == Queued && old(row).admissionLease == Some(admission)
                && old(row).dispatchClaim == None && old(row).workflowRunId == None
      ensures claimed.Some? ==>
                row == claimed.value ==
                  old(row).(dispatchClaim := Some(claim), dispatchStatus := Some(Dispatching), version := old(row).version + 1)
      ensures claimed.Some? ==> history == old(history) + [row] && authors == old(authors) + [Own]
      ensures claimed.None? ==> unchanged(this)
    {
      claimed := Commit(WClaimDispatch(admission, claim));
    }

    method SettleAnalysisDispatch(claim: Id, status: DispatchStatus, workflow: Option<Id>) returns (settled: Option<Row>)
      requires Valid()
      modifies this
      ensures Valid() && old(history) <= history
      ensures settled.Some? <==> old(row).dispatchClaim == Some(claim) && old(row).dispatchStatus == Some(Dispatching)
      ensures settled.Some? ==>
                row == settled.value ==
                  old(row).(workflowRunId := workflow, dispatchStatus := Some(status), admissionLease := None,
                            admissionExpires := None, version := old(row).version + 1)
      ensures settled.Some? ==> authors == old(authors) + [Own]
      ensures settled.None? ==> unchanged(this)
    {
      settled := Commit(WSettleDispatch(claim, status, workflow));
    }

    /** Five optimistic attempts. Other writers may commit at every await, and each read and write may lose its
        answer. A reported success is the mutation applied, under the claim, to the row committed immediately
        before it, and it is the only write of this call; a thrown mutator or a conflict means that this call
        committed nothing; without an answer it committed at most once, and then the same atomic step. */
    method Update(m: Mutation, claim: Claim, links: nat -> Link) returns (r: UpdateResult)
      requires Valid()
      modifies this
      ensures Valid() && old(history) <= history && old(authors) <= authors
      ensures r.Updated? ==> CommittedOnce(history, old(authors), authors, WUpdate(m, claim), r.row)
      ensures r.MutatorThrew? ==> NoneOwn(old(authors), authors)
      ensures r.MutatorThrew? ==> exists k :: |old(history)| - 1 <= k < |history| && Mutate(m, history[k]).None?
      ensures r.UpdatedConcurrently? ==> NoneOwn(old(authors), authors)
      ensures r.UpdatedConcurrently? ==>
                || |history| >= |old(history)| + ATTEMPTS
                || exists k :: |old(history)| - 1 <= k < |history| && !Holds(claim, history[k])
      ensures r.UpdateUnanswered? ==>
                || NoneOwn(old(authors), authors)
                || CommittedOnce(history, old(authors), authors, WUpdate(m, claim), row)
      ensures r.UpdateUnanswered? ==> exists i: nat :: i < ATTEMPTS && !(links(i).readArrives && links(i).write == Answered)
    {
      for attempt := 0 to ATTEMPTS
        invariant Valid() && old(history) <= history && NoneOwn(old(authors), authors)
        invariant || |history| >= |old(history)| + attempt
                  || exists k :: |old(history)| - 1 <= k < |history| && !Holds(claim, history[k])
      {
        ghost var before := authors;
        var tried := TryUpdate(m, claim, links(attempt));
        if tried.Some? {
          OwnSince(history, old(authors), before, authors, WUpdate(m, claim), row);
          return tried.value;
        }
        NoneSince(old(authors), before, authors);
      }
      r := UpdatedConcurrently;
    }

    /** One attempt of `Update`. Without a result it is to be repeated: somebody else committed in between, or the
        claim is not held. */
    method TryUpdate(m: Mutation, claim: Claim, link: Link) returns (r: Option<UpdateResult>)
      requires Valid()
      modifies this
      ensures Valid() && old(history) <= history && old(authors) <= authors
      ensures r.Some? && r.value.Updated? ==>
                CommittedOnce(history, old(authors), authors, WUpdate(m, claim), row) && r.value.row == row
      ensures r.Some? && r.value.MutatorThrew? ==> NoneOwn(old(authors), authors)
      ensures r.Some? && r.value.MutatorThrew? ==>
                exists k :: |old(history)| - 1 <= k < |history| && Mutate(m, history[k]).None?
      ensures r.Some? && r.value.UpdateUnanswered? ==>
                || NoneOwn(old(authors), authors)
                || CommittedOnce(history, old(authors), authors, WUpdate(m, claim), row)
      ensures r.Some? && r.value.UpdateUnanswered? ==> !(link.readArrives && link.write == Answered)
      ensures r != Some(UpdatedConcurrently)
      ensures r.None? ==> NoneOwn(old(authors), authors) && (|history| > |old(history)| || !Holds(claim, row))
    {
      hide Mutate, Holds;
      Interfere();
      if !link.readArrives { return Some(UpdateUnanswered); }
      var current := row;
      ghost var read, known := |history| - 1, authors;
      Interfere();
      NoneSince(old(authors), known, authors);
      assert history[read] == current;
      var mutated := Mutate(m, current);
      if mutated.None? { return Some(MutatorThrew); }
      if link.write == NeverArrived { return Some(UpdateUnanswered); }
      if row.version != current.version || !Holds(claim, row) {
        return if link.write == AnswerLost then Some(UpdateUnanswered) else None;
      }
      SameVersionSameRow(history, current, row);
      WriteRow(WUpdate(m, claim), Stamp(current, mutated.value));
      r := Some(if link.write == Answered then Updated(row) else UpdateUnanswered);
    }

    /** The guarded statement that writes a whole row computed from the row as it is. */
    method WriteRow(w: Write, next: Row)
      requires Valid() && Effect(w, row) == Some(next) && next.version == row.version + 1
      modifies this
      ensures Valid() && row == next && history == old(history) + [next] && authors == old(authors) + [Own]
      ensures forall before: seq<Author> :: NoneOwn(before, old(authors)) ==> CommittedOnce(history, before, authors, w, next)
    {
      row := next;
      history := history + [next];
      authors := authors + [Own];
      assert authors[..|authors| - 1] == old(authors);
    }

    /** As `Update`, but applies only over an expired lease and says so explicitly. A conflict needs another
        commit in each of the five attempts. */
    method UpdateIfProcessingLeaseExpired(m: Mutation, expiredAt: Time, links: nat -> Link) returns (r: ExpiredResult)
      requires Valid()
      modifies this
      ensures Valid() && old(history) <= history && old(authors) <= authors
      ensures r.Applied? ==> CommittedOnce(history, old(authors), authors, WUpdateExpired(m, expiredAt), r.applied)
      ensures r.NotApplied? ==> NoneOwn(old(authors), authors)
      ensures r.NotApplied? ==>
                exists k :: |old(history)| - 1 <= k < |history| && history[k] == r.current && !LeaseExpired(r.current, expiredAt)
      ensures r.ExpiredThrew? ==> NoneOwn(old(authors), authors)
      ensures r.ExpiredThrew? ==>
                exists k :: |old(history)| - 1 <= k < |history| && LeaseExpired(history[k], expiredAt) && Mutate(m, history[k]).None?
      ensures r.ExpiredConflict? ==> NoneOwn(old(authors), authors) && |history| >= |old(history)| + ATTEMPTS
      ensures r.ExpiredUnanswered? ==>
                || NoneOwn(old(authors), authors)
                || CommittedOnce(history, old(authors), authors, WUpdateExpired(m, expiredAt), row)
      ensures r.ExpiredUnanswered? ==> exists i: nat :: i < ATTEMPTS && !(links(i).readArrives && links(i).write == Answered)
    {
      for attempt := 0 to ATTEMPTS
        invariant Valid() && old(history) <= history && NoneOwn(old(authors), authors)
        invariant |history| >= |old(history)| + attempt
      {
        ghost var before := authors;
        var tried := TryOverExpired(m, expiredAt, links(attempt));
        if tried.Some? {
          OwnSince(history, old(authors), before, authors, WUpdateExpired(m, expiredAt), row);
          return tried.value;
        }
        NoneSince(old(authors), before, authors);
      }
      r := ExpiredConflict;
    }

    /** One attempt of `UpdateIfProcessingLeaseExpired`; it is repeated only if somebody else committed in between. */
    method TryOverExpired(m: Mutation, expiredAt: Time, link: Link) returns (r: Option<ExpiredResult>)
      requires Valid()
      modifies this
      ensures Valid() && old(history) <= history && old(authors) <= authors
      ensures r.Some? && r.value.Applied? ==>
                CommittedOnce(history, old(authors), authors, WUpdateExpired(m, expiredAt), row) && r.value.applied == row
      ensures r.Some? && r.value.NotApplied? ==> NoneOwn(old(authors), authors)
      ensures r.Some? && r.value.NotApplied? ==>
                exists k :: |old(history)| - 1 <= k < |history| && history[k] == r.value.current && !LeaseExpired(history[k], expiredAt)
      ensures r.Some? && r.value.ExpiredThrew? ==> NoneOwn(old(authors), authors)
      ensures r.Some? && r.value.ExpiredThrew? ==>
                exists k :: |old(history)| - 1 <= k < |history| && LeaseExpired(history[k], expiredAt) && Mutate(m, history[k]).None?
      ensures r.Some? && r.value.ExpiredUnanswered? ==>
                || NoneOwn(old(authors), authors)
                || CommittedOnce(history, old(authors), authors, WUpdateExpired(m, expiredAt), row)
      ensures r.Some? && r.value.ExpiredUnanswered? ==> !(link.readArrives && link.write == Answered)
      ensures r != Some(ExpiredConflict)
      ensures r.None? ==> NoneOwn(old(authors), authors) && |history| > |old(history)|
    {
      hide Mutate, LeaseExpired;
      Interfere();
      if !link.readArrives { return Some(ExpiredUnanswered); }
      var current := row;
      ghost var read, known := |history| - 1, authors;
      assert history[read] == current;
      if !LeaseExpired(current, expiredAt) { return Some(NotApplied(current)); }
      Interfere();
      NoneSince(old(authors), known, authors);
      assert history[read] == current;
      var mutated := Mutate(m, current);
      if mutated.None? { return Some(ExpiredThrew); }
      if link.write == NeverArrived { return Some(ExpiredUnanswered); }
      if row.version == current.version { SameVersionSameRow(history, current, row); }
      if row.version != current.version || !LeaseExpired(row, expiredAt) {
        return if link.write == AnswerLost then Some(ExpiredUnanswered) else None;
      }
      WriteRow(WUpdateExpired(m, expiredAt), Stamp(current, mutated.value));
      r := Some(if link.write == Answered then Applied(row) else ExpiredUnanswered);
    }
  }

  const ATTEMPTS: nat := 5

  /** The log has grown, and by no commit of one's own. */
  ghost predicate NoneOwn(before: seq<Author>, after: seq<Author>) {
    before <= after && forall i :: |before| <= i < |after| ==> after[i] == Other
  }

  /** The last committed row is `row`, one's own and the atomic effect of `w` on the row before it; all other new
      rows are by others. */
  ghost predicate CommittedOnce(history: seq<Row>, before: seq<Author>, after: seq<Author>, w: Write, row: Row) {
    && before <= after && |before| < |after| == |history| && |history| >= 2
    && after[|after| - 1] == Own && NoneOwn(before, after[..|after| - 1])
    && history[|history| - 1] == row
    && Effect(w, history[|history| - 2]) == Some(row)
  }

  lemma NoneSince(before: seq<Author>, between: seq<Author>, after: seq<Author>)
    requires NoneOwn(before, between) && NoneOwn(between, after)
    ensures NoneOwn(before, after)
  {
  }

  lemma OwnSince(history: seq<Row>, before: seq<Author>, between: seq<Author>, after: seq<Author>, w: Write, row: Row)
    requires NoneOwn(before, between)
    ensures NoneOwn(between, after) ==> NoneOwn(before, after)
    ensures CommittedOnce(history, between, after, w, row) ==> CommittedOnce(history, before, after, w, row)
  {
    if CommittedOnce(history, between, after, w, row) { NoneSince(before, between, after[..|after| - 1]); }
  }

  lemma SameVersionSameRow(history: seq<Row>, a: Row, b: Row)
    requires forall i :: 0 <= i < |history| ==> history[i].version == i
    requires a in history && b in history && a.version == b.version
    ensures a == b
  {
  }

  // ---- admitQueuedRun ----

  datatype Phase = Preflight | DispatchClaimUncertain | ScheduleUncertain
  datatype Admission = NotAcquired | AcquisitionUnanswered | NoDispatchClaim | Settled(workflowRunId: Option<Id>) | AdmissionFailed(phase: Phase)

  class Scheduler {
    ghost var calls: nat
    constructor () ensures calls == 0 { calls := 0; }
    method Schedule()
      modifies this
      ensures calls == old(calls) + 1
    {
      calls := calls + 1;
    }
  }

  /** The single-writer admission of a queued run. `schedule` is contacted at most once, and only after
      this very call was told that its permanent dispatch claim is in the row. `started` is the answer of
      `schedule`, if it gives one; `last` is the fate of recording that the outcome is uncertain. */
  method AdmitQueuedRun(store: NeonRunStore, scheduler: Scheduler, lease: Id, claim: Id, now: Time,
                        acquireFate: Fate, maximumReservation: nat, raise: nat -> Link, preflightOk: bool, claimFate: Fate,
                        started: Option<Option<Id>>, settleFate: Fate, last: Fate)
    returns (r: Admission)
    requires store.Valid()
    modifies store, scheduler
    ensures store.Valid() && old(store.history) <= store.history && old(store.authors) <= store.authors
    ensures scheduler.calls <= old(scheduler.calls) + 1
    ensures scheduler.calls == old(scheduler.calls) + 1 <==> r.Settled? || r == AdmissionFailed(ScheduleUncertain)
    ensures scheduler.calls == old(scheduler.calls) + 1 ==>
              exists k :: |old(store.history)| <= k + 1 < |store.history| && k >= 0 &&
                ClaimDispatch(store.history[k], lease, claim) == Some(store.history[k + 1]) && store.authors[k + 1] == Own
    ensures r == AdmissionFailed(DispatchClaimUncertain) ==> claimFate != Answered
    ensures r.NotAcquired? ==> unchanged(store)
  {
    if acquireFate == NeverArrived { return AcquisitionUnanswered; }
    var acquired := store.ClaimAdmission(lease, now, 120_000);
    if acquireFate == AnswerLost { return AcquisitionUnanswered; }
    if acquired.None? { return NotAcquired; }
    store.Interfere();
    if acquired.value.reserved < maximumReservation {
      var raised := store.Update(RaiseReservation(maximumReservation), RunRow.Admission(lease), raise);
      if !raised.Updated? { return AdmissionFailed(Preflight); }
    }
    if !preflightOk { return AdmissionFailed(Preflight); }
    r := DispatchOnce(store, scheduler, lease, claim, claimFate, started, settleFate, last);
  }

  /** From the permanent dispatch claim on. */
  method DispatchOnce(store: NeonRunStore, scheduler: Scheduler, lease: Id, claim: Id, claimFate: Fate,
                      started: Option<Option<Id>>, settleFate: Fate, last: Fate)
    returns (r: Admission)
    requires store.Valid()
    modifies store, scheduler
    ensures store.Valid() && old(store.history) <= store.history && old(store.authors) <= store.authors
    ensures r.NoDispatchClaim? || r.Settled? || r == AdmissionFailed(DispatchClaimUncertain) || r == AdmissionFailed(ScheduleUncertain)
    ensures scheduler.calls == old(scheduler.calls) + if r.Settled? || r == AdmissionFailed(ScheduleUncertain) then 1 else 0
    ensures scheduler.calls == old(scheduler.calls) + 1 ==>
              exists k :: |old(store.history)| <= k + 1 < |store.history| && k >= 0 &&
                ClaimDispatch(store.history[k], lease, claim) == Some(store.history[k + 1]) && store.authors[k + 1] == Own
    ensures r == AdmissionFailed(DispatchClaimUncertain) ==> claimFate != Answered
  {
    hide ClaimDispatch;
    store.Interfere();
    if claimFate == NeverArrived { return AdmissionFailed(DispatchClaimUncertain); }
    ghost var k := |store.history| - 1;
    var dispatch := store.ClaimAnalysisDispatch(lease, claim);
    if claimFate == AnswerLost { return AdmissionFailed(DispatchClaimUncertain); }
    if dispatch.None? { return NoDispatchClaim; }
    assert ClaimDispatch(store.history[k], lease, claim) == Some(store.history[k + 1]) && store.authors[k + 1] == Own;
    scheduler.Schedule();
    var settled := SettleOutcome(store, claim, started, settleFate, last);
    r := if settled then Settled(started.value) else AdmissionFailed(ScheduleUncertain);
  }

  /** Records what `schedule` answered. Without an answer, from it or from the record, the outcome is recorded as
      uncertain, which changes nothing when the first record arrived. */
  method SettleOutcome(store: NeonRunStore, claim: Id, started: Option<Option<Id>>, settleFate: Fate, last: Fate)
    returns (told: bool)
    requires store.Valid()
    modifies store
    ensures store.Valid() && old(store.history) <= store.history && old(store.authors) <= store.authors
    ensures told <==> started.Some? && settleFate == Answered
  {
    store.Interfere();
    if started.Some? && settleFate != NeverArrived {
      var outcome := started.value;
      var settled := store.SettleAnalysisDispatch(claim, if outcome.None? then NotDispatched else ScheduledRun, outcome);
      if settleFate == Answered { return true; }
    }
    store.Interfere();
    if last != NeverArrived {
      var uncertain := store.SettleAnalysisDispatch(claim, DispatchUncertain, None);
    }
    told := false;
  }
}
