/** The run row, and every guarded write to it as a partial function on rows: `None` is "no row matched
    the guard" for the SQL updates, and "the mutator threw" for the mutators passed to `update`. */
module RunRow {
  import opened Sorting

  type Id = nat
  type Time = int

  datatype RunStatus =
    | Queued | Validating | Staging | PageIndexing | Parsing | PurgingSource | Extracting | Reconciling | Verifying
    | Ready | Partial | Failed | CleanupPending | Expired

  datatype DispatchStatus = Dispatching | NotDispatched | ScheduledRun | DispatchUncertain

  datatype Row = Row(
    version: nat,
    status: RunStatus,
    reserved: nat,
    workflowRunId: Option<Id>,
    dispatchClaim: Option<Id>,
    dispatchStatus: Option<DispatchStatus>,
    admissionLease: Option<Id>,
    admissionExpires: Option<Time>,
    processingLease: Option<Id>,
    processingExpires: Option<Time>,
    fence: nat,
    paidStarted: bool,
    watchdogs: nat,
    terminalAfterCleanup: Option<RunStatus>,
    cleanupConfirmed: bool,
    failureId: Option<Id>)

  function NewRow(reserved: nat): Row {
    Row(0, Queued, reserved, None, None, None, None, None, None, None, 0, false, 0, None, false, None)
  }

  const PROCESSING_LEASE_MS := 45_000

  predicate Leased(s: RunStatus) {
    s in {Validating, Staging, PageIndexing, Parsing, PurgingSource, Extracting, Reconciling, Verifying}
  }

  lemma LeasedExactly(s: RunStatus)
    ensures Leased(s) <==> s !in {Queued, Ready, Partial, Failed, CleanupPending, Expired}
  {
  }

  /** Neither queued nor under a processing lease. */
  predicate Ended(s: RunStatus) {
    s != Queued && !Leased(s)
  }

  // ---- transitionRun ----

  predicate Allowed(from: RunStatus, to: RunStatus) {
    match from
    case Queued => to in {Validating, Failed, CleanupPending, Expired}
    case Validating => to in {Staging, Failed, CleanupPending, Expired}
    case Staging => to in {PageIndexing, Failed, CleanupPending, Expired}
    case PageIndexing => to in {Parsing, Failed, CleanupPending, Expired}
    case Parsing => to in {PurgingSource, Failed, CleanupPending, Expired}
    case PurgingSource => to in {Extracting, CleanupPending, Failed, Expired}
    case Extracting => to in {Reconciling, Partial, Failed, CleanupPending, Expired}
    case Reconciling => to in {Verifying, Partial, Failed, CleanupPending, Expired}
    case Verifying => to in {Ready, Partial, Failed, CleanupPending, Expired}
    case Ready => to in {CleanupPending, Expired}
    case Partial => to in {CleanupPending, Expired}
    case Failed => to in {CleanupPending, Expired}
    case CleanupPending => to in {Failed, Expired}
    case Expired => false
  }

  function Transition(r: Row, to: RunStatus): Option<Row> {
    if r.status == to then Some(r)
    else if !Allowed(r.status, to) then None
    else if (to == Ready || to == Partial) && !r.cleanupConfirmed then None
    else Some(r.(status := to))
  }

  /** The place of a status on the way through the pipeline. */
  function Place(s: RunStatus): nat {
    match s
    case Queued => 0
    case Validating => 1
    case Staging => 2
    case PageIndexing => 3
    case Parsing => 4
    case PurgingSource => 5
    case Extracting => 6
    case Reconciling => 7
    case Verifying => 8
    case Ready => 9
    case _ => 10
  }

  /** Runs advance one place at a time up to ready, may settle for a partial result from extraction on, may fail
      or await cleanup until they have a result, end as failed only after a cleanup, and never leave expiry. */
  lemma TransitionsExactly(r: Row, to: RunStatus)
    ensures Transition(r, to).Some? <==>
      || to == r.status
      || (&& (|| (Place(r.status) < 9 && (Place(to) == Place(r.status) + 1 <= 9 || to in {Failed, CleanupPending, Expired}))
              || (r.status in {Extracting, Reconciling, Verifying} && to == Partial)
              || (r.status in {Ready, Partial, Failed} && to in {CleanupPending, Expired})
              || (r.status == CleanupPending && to in {Failed, Expired}))
          && (to in {Ready, Partial} ==> r.cleanupConfirmed))
    ensures Transition(r, to).Some? ==> Transition(r, to).value == r.(status := to)
  {
  }

  // ---- SQL updates ----

  function ClaimAdmission(r: Row, lease: Id, now: Time, ms: Time): Option<Row> {
    if r.status == Queued && r.workflowRunId.None? && r.dispatchClaim.None? &&
       (r.admissionLease.None? || (r.admissionExpires.Some? && r.admissionExpires.value <= now))
    then Some(r.(admissionLease := Some(lease), admissionExpires := Some(now + ms), version := r.version + 1))
    else None
  }

  function ClaimDispatch(r: Row, admission: Id, claim: Id): Option<Row> {
    if r.status == Queued && r.admissionLease == Some(admission) && r.dispatchClaim.None? && r.workflowRunId.None?
    then Some(r.(dispatchClaim := Some(claim), dispatchStatus := Some(Dispatching), version := r.version + 1))
    else None
  }

  function SettleDispatch(r: Row, claim: Id, status: DispatchStatus, workflow: Option<Id>): Option<Row> {
    if r.dispatchClaim == Some(claim) && r.dispatchStatus == Some(Dispatching)
    then Some(r.(workflowRunId := workflow, dispatchStatus := Some(status),
                 admissionLease := None, admissionExpires := None, version := r.version + 1))
    else None
  }

  function ClaimProcessing(r: Row, lease: Id, now: Time, ms: Time): Option<Row> {
    if !r.paidStarted && r.watchdogs == 0 &&
       (r.status == Queued ||
        (Leased(r.status) && r.processingExpires.Some? && r.processingExpires.value <= now))
    then Some(r.(status := Validating, processingLease := Some(lease), processingExpires := Some(now + ms),
                 fence := r.fence + 1, version := r.version + 1))
    else None
  }

  function Heartbeat(r: Row, lease: Id, fence: nat, now: Time, ms: Time): Option<Row> {
    if r.processingLease == Some(lease) && r.fence == fence && Leased(r.status)
    then Some(r.(processingExpires := Some(now + ms), version := r.version + 1))
    else None
  }

  // ---- mutators given to `update` ----

  datatype Mutation =
    | RaiseReservation(amount: nat)
    | FailAdmission(failure: Id)
    | FailStranded(seenClaim: Option<Id>, seenWorkflow: Option<Id>, strandedFailure: Id)
    | Stage(status: RunStatus)
    | Annotate
    | ArmWatchdog
    | MarkPaid(now: Time)
    | ConfirmCleanup(confirmed: bool)
    | PipelineCleanupPending
    | Finish(final: RunStatus)
    | FailPipeline(confirmed: bool, sourceOpen: bool)
    | Revoke(terminal: RunStatus, revokedAt: Time)
    | CompleteCleanup(cleaned: bool, requested: RunStatus)

  function TerminalWinner(current: Option<RunStatus>, requested: RunStatus): RunStatus {
    if current == Some(Expired) || requested == Expired then Expired else Failed
  }

  function Mutate(m: Mutation, r: Row): Option<Row> {
    match m
    case RaiseReservation(amount) => Some(r.(reserved := amount))
    case FailAdmission(failure) =>
      var freed := r.(admissionLease := None, admissionExpires := None);
      Some(if r.status == Queued then freed.(status := Failed, failureId := Some(failure)) else freed)
    case FailStranded(seenClaim, seenWorkflow, failure) =>
      var same := if seenClaim.Some? then r.dispatchClaim == seenClaim
                  else seenWorkflow.Some? && r.workflowRunId == seenWorkflow;
      if r.status != Queued || !same || r.paidStarted then Some(r)
      else Some(r.(status := Failed, admissionLease := None, admissionExpires := None, failureId := Some(failure)))
    case Stage(status) => Transition(r, status)
    case Annotate => Some(r)
    case ArmWatchdog => Some(r.(watchdogs := r.watchdogs + 1))
    case MarkPaid(_) => Some(r.(paidStarted := true))
    case ConfirmCleanup(confirmed) => Some(r.(cleanupConfirmed := confirmed))
    case PipelineCleanupPending =>
      (match Transition(r, CleanupPending)
       case None => None
       case Some(p) => Some(p.(terminalAfterCleanup := Some(Failed))))
    case Finish(final) =>
      if final != Ready && final != Partial then None
      else (match Transition(r, final)
            case None => None
            case Some(p) => Some(p.(processingLease := None, processingExpires := None)))
    case FailPipeline(confirmed, sourceOpen) =>
      var desired := if confirmed then Failed else CleanupPending;
      var next := if r.status in {desired, Ready, Partial, Expired} then r else r.(status := desired);
      Some(next.(cleanupConfirmed := confirmed,
                 terminalAfterCleanup := if confirmed then None else Some(Failed),
                 processingLease := None,
                 processingExpires := if sourceOpen then r.processingExpires else None))
    case Revoke(terminal, now) => RevokeLease(r, terminal, now)
    case CompleteCleanup(cleaned, requested) => Complete(r, cleaned, requested)
  }

  /** First write of `cleanupRun`: take the processing capability away. */
  function RevokeLease(r: Row, terminal: RunStatus, now: Time): Option<Row> {
    if r.status == Expired then Some(r)
    else match Transition(r, CleanupPending)
      case None => None
      case Some(p) =>
        var had := r.processingLease.Some?;
        Some(p.(cleanupConfirmed := false,
                terminalAfterCleanup := Some(TerminalWinner(r.terminalAfterCleanup, terminal)),
                admissionLease := None, admissionExpires := None,
                processingLease := None,
                processingExpires := if had && r.processingExpires.None? then Some(now + PROCESSING_LEASE_MS)
                                     else r.processingExpires,
                fence := if had then r.fence + 1 else r.fence))
  }

  /** Last write of `cleanupRun`; an expired run is scrubbed, dispatch claim included. */
  function Complete(r: Row, cleaned: bool, requested: RunStatus): Option<Row> {
    if r.status == Expired then Some(r)
    else
      var terminal := TerminalWinner(r.terminalAfterCleanup, requested);
      if !cleaned then
        match Transition(r, CleanupPending)
        case None => None
        case Some(p) => Some(p.(cleanupConfirmed := false, terminalAfterCleanup := Some(terminal), processingLease := None))
      else
        match Transition(r, terminal)
        case None => None
        case Some(p) =>
          var done := p.(cleanupConfirmed := true, terminalAfterCleanup := None,
                         processingLease := None, processingExpires := None);
          Some(if terminal != Expired then done
               else done.(workflowRunId := None, dispatchClaim := None, dispatchStatus := None,
                          admissionLease := None, admissionExpires := None))
  }

  // ---- claims ----

  datatype Claim = NoClaim | Processing(lease: Id, fence: nat) | Admission(admissionLease: Id)

  predicate Holds(c: Claim, r: Row) {
    match c
    case NoClaim => true
    case Processing(lease, fence) => r.processingLease == Some(lease) && r.fence == fence
    case Admission(lease) => r.admissionLease == Some(lease)
  }

  /** The claim under which the clients of the store issue each mutator. */
  predicate Issues(c: Claim, m: Mutation) {
    match m
    case RaiseReservation(_) => c.Admission?
    case FailAdmission(_) => c.Admission?
    case FailStranded(_, _, _) => c.NoClaim?
    case Annotate => true
    case Revoke(_, _) => c.NoClaim?
    case CompleteCleanup(_, _) => c.NoClaim?
    case Stage(_) => c.Processing?
    case ArmWatchdog => c.Processing?
    case MarkPaid(_) => c.Processing?
    case ConfirmCleanup(_) => c.Processing?
    case PipelineCleanupPending => c.Processing?
    case Finish(_) => c.Processing?
    case FailPipeline(_, _) => c.Processing?
  }

  /** The row `update` writes: the mutated row under the version after the one it read. */
  function Stamp(read: Row, mutated: Row): Row { mutated.(version := read.version + 1) }

  /** Guard of `updateIfProcessingLeaseExpired`. */
  predicate LeaseExpired(r: Row, at: Time) {
    (Leased(r.status) || r.status == CleanupPending) && r.processingExpires.Some? && r.processingExpires.value <= at
  }

  // ---- one atomic write ----

  datatype Write =
    | WClaimAdmission(lease: Id, now: Time, ms: Time)
    | WClaimDispatch(admission: Id, claim: Id)
    | WSettleDispatch(settled: Id, status: DispatchStatus, workflow: Option<Id>)
    | WClaimProcessing(processing: Id, at: Time, span: Time)
    | WHeartbeat(holder: Id, fence: nat, beat: Time, length: Time)
    | WUpdate(mutation: Mutation, guard: Claim)
    | WUpdateExpired(expiredMutation: Mutation, expiredAt: Time)

  /** The write applied atomically to the committed row, guard included. */
  function Effect(w: Write, r: Row): (after: Option<Row>)
    ensures after.Some? ==> after.value.version == r.version + 1
  {
    match w
    case WClaimAdmission(lease, now, ms) => ClaimAdmission(r, lease, now, ms)
    case WClaimDispatch(admission, claim) => ClaimDispatch(r, admission, claim)
    case WSettleDispatch(claim, status, workflow) => SettleDispatch(r, claim, status, workflow)
    case WClaimProcessing(lease, now, ms) => ClaimProcessing(r, lease, now, ms)
    case WHeartbeat(lease, fence, now, ms) => Heartbeat(r, lease, fence, now, ms)
    case WUpdate(m, c) =>
      if !Holds(c, r) then None
      else (match Mutate(m, r) case None => None case Some(next) => Some(Stamp(r, next)))
    case WUpdateExpired(m, at) =>
      if !LeaseExpired(r, at) then None
      else (match Mutate(m, r) case None => None case Some(next) => Some(Stamp(r, next)))
  }

  // ---- what each write needs, and what it leaves ----

  /** Exactly the rows on which a whole-row write commits. */
  lemma GuardsExactly(m: Mutation, r: Row, c: Claim, at: Time)
    ensures Effect(WUpdate(m, c), r).Some? <==>
      && Mutate(m, r).Some?
      && match c
         case NoClaim => true
         case Processing(lease, fence) => r.processingLease.Some? && r.processingLease.value == lease && r.fence == fence
         case Admission(lease) => r.admissionLease.Some? && r.admissionLease.value == lease
    ensures Effect(WUpdateExpired(m, at), r).Some? <==>
      && Mutate(m, r).Some? && r.status !in {Queued, Ready, Partial, Failed, Expired}
      && r.processingExpires.Some? && !(at < r.processingExpires.value)
    ensures Effect(WUpdate(m, c), r).Some? ==>
              Effect(WUpdate(m, c), r).value == Mutate(m, r).value.(version := r.version + 1)
    ensures Effect(WUpdateExpired(m, at), r).Some? ==>
              Effect(WUpdateExpired(m, at), r).value == Mutate(m, r).value.(version := r.version + 1)
  {
    hide Mutate;
    LeasedExactly(r.status);
  }

  /** The mutators of admission: they free the admission lease when they fail a run, and fail it only while it is
      queued; a stranded run also only if it is the one that was seen and nothing was paid for it. */
  lemma AdmissionMutators(r: Row, amount: nat, failure: Id, seenClaim: Option<Id>, seenWorkflow: Option<Id>)
    ensures Mutate(RaiseReservation(amount), r) == Some(r.(reserved := amount))
    ensures
      var q := Mutate(FailAdmission(failure), r);
      && q.Some? && q.value.admissionLease == None && q.value.admissionExpires == None
      && q.value == r.(status := q.value.status, failureId := q.value.failureId, admissionLease := None, admissionExpires := None)
      && (r.status == Queued ==> q.value.status == Failed && q.value.failureId == Some(failure))
      && (r.status != Queued ==> q.value.status == r.status && q.value.failureId == r.failureId)
    ensures
      var q := Mutate(FailStranded(seenClaim, seenWorkflow, failure), r);
      var seen := if seenClaim != None then r.dispatchClaim == seenClaim else seenWorkflow != None && r.workflowRunId == seenWorkflow;
      && q.Some?
      && (r.status == Queued && seen && !r.paidStarted ==>
            q.value.status == Failed && q.value.failureId == Some(failure) &&
            q.value == r.(status := Failed, failureId := Some(failure), admissionLease := None, admissionExpires := None))
      && (!(r.status == Queued && seen && !r.paidStarted) ==> q.value == r)
  {
  }

  /** The small mutators of the worker that holds the lease. */
  lemma WorkerMutators(r: Row, to: RunStatus, now: Time, confirmed: bool)
    ensures Mutate(Stage(to), r) == Transition(r, to)
    ensures Mutate(Annotate, r) == Some(r)
    ensures Mutate(ArmWatchdog, r) == Some(r.(watchdogs := r.watchdogs + 1))
    ensures Mutate(MarkPaid(now), r) == Some(r.(paidStarted := true))
    ensures Mutate(ConfirmCleanup(confirmed), r) == Some(r.(cleanupConfirmed := confirmed))
    ensures
      var q := Mutate(PipelineCleanupPending, r);
      && (q.Some? <==> r.status != Expired)
      && (q.Some? ==> q.value == r.(status := CleanupPending, terminalAfterCleanup := Some(Failed)))
  {
    hide Allowed, Complete, RevokeLease, Transition;
    TransitionsExactly(r, CleanupPending);
  }

  /** A result is only published after a confirmed cleanup, from a status that allows it, and gives the lease back. */
  lemma FinishMutator(r: Row, to: RunStatus)
    ensures
      var q := Mutate(Finish(to), r);
      && (q.Some? <==> to in {Ready, Partial} && (to == r.status || (Allowed(r.status, to) && r.cleanupConfirmed)))
      && (q.Some? ==> q.value == r.(status := to, processingLease := None, processingExpires := None))
  {
    hide Allowed, Complete, RevokeLease;
  }

  /** A failed pipeline gives the lease back and leaves a failed run, or one that awaits its cleanup; what has ended
      with a result or expired keeps its status. */
  lemma FailPipelineMutator(r: Row, confirmed: bool, sourceOpen: bool)
    ensures
      var q := Mutate(FailPipeline(confirmed, sourceOpen), r);
      && q.Some?
      && q.value == r.(status := q.value.status, cleanupConfirmed := confirmed, terminalAfterCleanup := q.value.terminalAfterCleanup,
                       processingLease := None, processingExpires := q.value.processingExpires)
      && (r.status in {Ready, Partial, Expired} ==> q.value.status == r.status)
      && (r.status !in {Ready, Partial, Expired} ==> q.value.status == if confirmed then Failed else CleanupPending)
      && q.value.terminalAfterCleanup == (if confirmed then None else Some(Failed))
      && q.value.processingExpires == (if sourceOpen then r.processingExpires else None)
  {
    hide Allowed, Complete, RevokeLease, Transition;
  }

  /** What a run ends as: expired if anybody asked for it, else failed. */
  ghost predicate Wins(r: Row, requested: RunStatus, terminal: RunStatus) {
    terminal == if requested == Expired || r.terminalAfterCleanup == Some(Expired) then Expired else Failed
  }

  /** The first write of a cleanup takes every lease away, moves the fence if a worker was superseded, and keeps or
      sets the time after which that worker is gone. An expired run stays as it is. */
  lemma RevokeMutator(r: Row, requested: RunStatus, now: Time)
    ensures
      var q := Mutate(Revoke(requested, now), r);
      && q.Some? && (r.status == Expired ==> q.value == r)
      && (r.status != Expired ==>
            && q.value == r.(status := CleanupPending, cleanupConfirmed := false, terminalAfterCleanup := q.value.terminalAfterCleanup,
                             admissionLease := None, admissionExpires := None, processingLease := None,
                             processingExpires := q.value.processingExpires, fence := q.value.fence)
            && q.value.terminalAfterCleanup.Some? && Wins(r, requested, q.value.terminalAfterCleanup.value)
            && (r.processingLease.Some? ==> q.value.fence == r.fence + 1)
            && (r.processingLease.None? ==> q.value.fence == r.fence)
            && (r.processingLease.Some? && r.processingExpires.None? ==> q.value.processingExpires == Some(now + 45_000))
            && (r.processingLease.None? || r.processingExpires.Some? ==> q.value.processingExpires == r.processingExpires))
  {
    hide Allowed;
    TransitionsExactly(r, CleanupPending);
  }

  /** The second write leaves the run pending as long as something is left to clean. */
  lemma UncleanMutator(r: Row, requested: RunStatus)
    ensures
      var q := Mutate(CompleteCleanup(false, requested), r);
      if r.status == Expired then q == Some(r)
      else
        && q.Some? && q.value == r.(status := CleanupPending, cleanupConfirmed := false,
                                    terminalAfterCleanup := q.value.terminalAfterCleanup, processingLease := None)
        && q.value.terminalAfterCleanup.Some? && Wins(r, requested, q.value.terminalAfterCleanup.value)
  {
    hide Allowed;
    TransitionsExactly(r, CleanupPending);
  }

  /** Once everything is cleaned it ends the run; only an expired run loses its dispatch claim. */
  lemma CleanedMutator(r: Row, requested: RunStatus)
    ensures
      var q := Mutate(CompleteCleanup(true, requested), r);
      if r.status == Expired then q == Some(r)
      else
        && (q.Some? <==> !(r.status in {Ready, Partial} && Wins(r, requested, Failed)))
        && (q.Some? ==>
              && Wins(r, requested, q.value.status)
              && q.value.cleanupConfirmed && q.value.terminalAfterCleanup == None
              && q.value.processingLease == None && q.value.processingExpires == None
              && (q.value.status == Failed ==>
                    q.value == r.(status := Failed, cleanupConfirmed := true, terminalAfterCleanup := None, processingLease := None,
                                  processingExpires := None))
              && (q.value.status == Expired ==>
                    q.value == r.(status := Expired, cleanupConfirmed := true, terminalAfterCleanup := None, processingLease := None,
                                  processingExpires := None, workflowRunId := None, dispatchClaim := None, dispatchStatus := None,
                                  admissionLease := None, admissionExpires := None)))
  {
    hide Allowed;
    TransitionsExactly(r, Failed);
    TransitionsExactly(r, Expired);
  }

  // ---- what no write can do ----

  /** Once ended, always ended: no write queues or leases a run again. */
  lemma EndedForever(w: Write, r: Row)
    requires Effect(w, r).Some? && Ended(r.status)
    ensures Ended(Effect(w, r).value.status)
  {
    hide Mutate;
    match w {
      case WUpdate(m, _) => MutationKeepsEnd(m, r);
      case WUpdateExpired(m, _) => MutationKeepsEnd(m, r);
      case _ =>
    }
  }

  lemma MutationKeepsEnd(m: Mutation, r: Row)
    requires Mutate(m, r).Some? && Ended(r.status)
    ensures Ended(Mutate(m, r).value.status)
  {
  }

  /** The paid marker is permanent, and while it is set only the current holder keeps the lease. */
  lemma PaidMarkerPermanent(w: Write, r: Row)
    requires Effect(w, r).Some? && r.paidStarted
    ensures Effect(w, r).value.paidStarted
    ensures var after := Effect(w, r).value;
            after.processingLease.Some? ==> after.processingLease == r.processingLease && after.fence == r.fence
  {
    hide Mutate;
    match w {
      case WUpdate(m, _) => MutationKeepsMarker(m, r);
      case WUpdateExpired(m, _) => MutationKeepsMarker(m, r);
      case _ =>
    }
  }

  lemma MutationKeepsMarker(m: Mutation, r: Row)
    requires Mutate(m, r).Some? && r.paidStarted
    ensures Mutate(m, r).value.paidStarted
    ensures var after := Mutate(m, r).value;
            after.processingLease.Some? ==> after.processingLease == r.processingLease && after.fence == r.fence
  {
    hide Allowed;
  }

  /** A dispatch claim is only ever erased by scrubbing an expired run. */
  lemma DispatchClaimPermanent(w: Write, r: Row)
    requires Effect(w, r).Some? && (r.dispatchClaim.Some? || r.status == Expired)
    ensures Effect(w, r).value.dispatchClaim.Some? || Effect(w, r).value.status == Expired
  {
    hide Mutate;
    match w {
      case WUpdate(m, _) => MutationKeepsClaim(m, r);
      case WUpdateExpired(m, _) => MutationKeepsClaim(m, r);
      case _ =>
    }
  }

  lemma MutationKeepsClaim(m: Mutation, r: Row)
    requires Mutate(m, r).Some? && (r.dispatchClaim.Some? || r.status == Expired)
    ensures Mutate(m, r).value.dispatchClaim.Some? || Mutate(m, r).value.status == Expired
  {
  }

  /** A lease id appears in the row only by its own claim. */
  lemma LeaseOnlyByClaim(w: Write, r: Row, lease: Id)
    requires Effect(w, r).Some? && r.processingLease != Some(lease)
    requires w.WClaimProcessing? ==> w.processing != lease
    ensures Effect(w, r).value.processingLease != Some(lease)
  {
    hide Mutate;
    match w {
      case WUpdate(m, _) => MutationBringsNoLease(m, r);
      case WUpdateExpired(m, _) => MutationBringsNoLease(m, r);
      case _ =>
    }
  }

  lemma MutationBringsNoLease(m: Mutation, r: Row)
    requires Mutate(m, r).Some?
    ensures Mutate(m, r).value.processingLease in {None, r.processingLease}
  {
    hide Allowed;
  }

  /** No write lowers the fence. */
  lemma FenceGrows(w: Write, r: Row)
    requires Effect(w, r).Some?
    ensures Effect(w, r).value.fence >= r.fence
  {
    hide Mutate;
    match w {
      case WUpdate(m, _) => MutationKeepsFence(m, r);
      case WUpdateExpired(m, _) => MutationKeepsFence(m, r);
      case _ =>
    }
  }

  lemma MutationKeepsFence(m: Mutation, r: Row)
    requires Mutate(m, r).Some?
    ensures Mutate(m, r).value.fence >= r.fence
  {
    hide Allowed;
  }
}
