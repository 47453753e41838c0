/** Many workers against one row. Any worker may stall between any two steps, retry, or never learn that
    its write was committed. Clocks are arbitrary. */
module RunProtocol {
  import opened Sorting
  import opened RunRow

  /** A whole-row write between its read and its compare-and-set; `expiredAt` marks the conditional form. */
  datatype InFlight = InFlight(mutation: Mutation, claim: Claim, expiredAt: Option<Time>, snapshot: Row)

  datatype Mark = Mark(lease: Id, fence: nat)

  /** `row` is the committed row. `admissions`, `processing` and `dispatchRights` are what workers have
      been told they hold; they may be stale. `history`, `log`, `marks` and the counters only observe. */
  datatype System = System(
    row: Row,
    used: set<Id>,
    inFlight: set<InFlight>,
    admissions: set<Id>,
    processing: set<Claim>,
    dispatchRights: set<Id>,
    schedules: nat,
    dispatched: bool,
    stranded: bool,
    marks: seq<Mark>,
    history: seq<Row>,
    log: seq<Write>)

  function Start(reserved: nat): System {
    System(NewRow(reserved), {}, {}, {}, {}, {}, 0, false, false, [], [NewRow(reserved)], [])
  }

  /** `acknowledged` is false when the write is committed but its answer is lost. */
  datatype Step =
    | DoClaimAdmission(lease: Id, now: Time, ms: Time, acknowledged: bool)
    | DoClaimDispatch(admission: Id, claim: Id, acknowledged: bool)
    | DoSchedule(right: Id)
    | DoSettleDispatch(settled: Id, status: DispatchStatus, workflow: Option<Id>)
    | DoClaimProcessing(processing: Id, at: Time, span: Time, acknowledged: bool)
    | DoHeartbeat(holder: Claim, beat: Time, length: Time)
    | DoRead(mutation: Mutation, guard: Claim, expiredAt: Option<Time>)
    | DoCommit(flight: InFlight)

  /** The committed row becomes `Effect(w, row)`. */
  function Committed(s: System, w: Write, next: Row): System {
    s.(row := next, history := s.history + [next], log := s.log + [w])
  }

  function Commit(s: System, w: Write): Option<System> {
    match Effect(w, s.row)
    case None => None
    case Some(next) => Some(Committed(s, w, next))
  }

  predicate HasClaim(s: System, c: Claim) {
    match c
    case NoClaim => true
    case Admission(lease) => lease in s.admissions
    case Processing(_, _) => c in s.processing
  }

  /** The compare-and-set: version of the read, and the claim, against the row as it is now. */
  predicate CasMatches(f: InFlight, row: Row) {
    row.version == f.snapshot.version && Holds(f.claim, row) &&
    (f.expiredAt.Some? ==> LeaseExpired(row, f.expiredAt.value))
  }

  function WriteOf(f: InFlight): Write {
    match f.expiredAt
    case None => WUpdate(f.mutation, f.claim)
    case Some(at) => WUpdateExpired(f.mutation, at)
  }

  function Strands(m: Mutation, before: Row, after: Row): bool {
    m.FailStranded? && before.status == Queued && after.status == Failed
  }

  function Next(s: System, step: Step): Option<System> {
    match step
    case DoClaimAdmission(lease, now, ms, ack) =>
      if lease in s.used then None
      else (match Commit(s, WClaimAdmission(lease, now, ms))
            case None => None
            case Some(t) => Some(t.(used := s.used + {lease},
                                    admissions := if ack then s.admissions + {lease} else s.admissions)))
    case DoClaimDispatch(admission, claim, ack) =>
      if claim in s.used || admission !in s.admissions then None
      else (match Commit(s, WClaimDispatch(admission, claim))
            case None => None
            case Some(t) => Some(t.(used := s.used + {claim}, dispatched := true,
                                    dispatchRights := if ack then s.dispatchRights + {claim} else s.dispatchRights)))
    case DoSchedule(right) =>
      if right !in s.dispatchRights then None
      else Some(s.(dispatchRights := s.dispatchRights - {right}, schedules := s.schedules + 1))
    case DoSettleDispatch(claim, status, workflow) => Commit(s, WSettleDispatch(claim, status, workflow))
    case DoClaimProcessing(lease, now, ms, ack) =>
      if lease in s.used then None
      else (match Commit(s, WClaimProcessing(lease, now, ms))
            case None => None
            case Some(t) => Some(t.(used := s.used + {lease},
                                    processing := if ack then s.processing + {Processing(lease, t.row.fence)}
                                                  else s.processing)))
    case DoHeartbeat(holder, now, ms) =>
      if holder.Processing? && holder in s.processing
      then Commit(s, WHeartbeat(holder.lease, holder.fence, now, ms)) else None
    case DoRead(m, c, at) =>
      if !Issues(c, m) || !HasClaim(s, c) || (at.Some? && (!m.Revoke? || !LeaseExpired(s.row, at.value))) then None
      else Some(s.(inFlight := s.inFlight + {InFlight(m, c, at, s.row)}))
    case DoCommit(f) =>
      if f !in s.inFlight || !CasMatches(f, s.row) then None
      else
        match Mutate(f.mutation, f.snapshot)   // computed from the read, not from the current row
        case None => None
        case Some(mutated) =>
          var next := Stamp(f.snapshot, mutated);
          var t := Committed(s, WriteOf(f), next);
          Some(t.(stranded := s.stranded || Strands(f.mutation, s.row, next),
                  marks := if f.mutation.MarkPaid? && f.claim.Processing?
                           then s.marks + [Mark(f.claim.lease, f.claim.fence)] else s.marks))
  }

  function Run(s: System, steps: seq<Step>): Option<System>
    decreases |steps|
  {
    if steps == [] then Some(s)
    else match Next(s, steps[0])
      case None => None
      case Some(t) => Run(t, steps[1..])
  }

  // ---- the invariant ----

  /** Committed versions are consecutive, and each row is one atomic write applied to the row before. */
  ghost predicate Linear(s: System) {
    && |s.history| == |s.log| + 1
    && s.history[|s.log|] == s.row
    && (forall i :: 0 <= i < |s.history| ==> s.history[i].version == i)
    && (forall i :: 0 <= i < |s.log| ==> Effect(s.log[i], s.history[i]) == Some(s.history[i + 1]))
  }

  ghost predicate SnapshotsCommitted(s: System) {
    forall f :: f in s.inFlight ==>
      f.snapshot.version < |s.history| && s.history[f.snapshot.version] == f.snapshot && Issues(f.claim, f.mutation)
      && (f.expiredAt.Some? ==> f.claim.NoClaim?)
  }

  ghost predicate DispatchAccounted(s: System) {
    && s.schedules + |s.dispatchRights| <= (if s.dispatched then 1 else 0)
    && (s.dispatched ==> s.row.dispatchClaim.Some? || s.row.status == Expired)
  }

  ghost predicate MarksFenced(s: System) {
    && (s.marks != [] ==> s.row.paidStarted)
    && (forall i, j :: 0 <= i < |s.marks| && 0 <= j < |s.marks| ==> s.marks[i] == s.marks[j])
    && (s.marks != [] && s.row.processingLease.Some? ==>
          s.marks[0] == Mark(s.row.processingLease.value, s.row.fence))
  }

  ghost predicate Invariant(s: System) {
    && Linear(s) && SnapshotsCommitted(s) && DispatchAccounted(s) && MarksFenced(s)
    && (s.stranded ==> Ended(s.row.status))
    && (s.row.processingLease.Some? ==> s.row.processingLease.value in s.used)
  }

  lemma StartInvariant(reserved: nat)
    ensures Invariant(Start(reserved))
  {
  }

  lemma CommittedKeeps(s: System, w: Write)
    requires Invariant(s) && Effect(w, s.row).Some?
    ensures var t := Committed(s, w, Effect(w, s.row).value);
            && Linear(t) && SnapshotsCommitted(t)
            && (s.dispatched ==> t.row.dispatchClaim.Some? || t.row.status == Expired)
            && (t.stranded ==> Ended(t.row.status))
            && MarksFenced(t)
  {
    hide Effect, Mutate;
    var t := Committed(s, w, Effect(w, s.row).value);
    if s.stranded { EndedForever(w, s.row); }
    if s.row.paidStarted { PaidMarkerPermanent(w, s.row); }
    if s.dispatched { DispatchClaimPermanent(w, s.row); }
    forall f | f in t.inFlight ensures t.history[f.snapshot.version] == f.snapshot { }
  }

  /** A compare-and-set that matches is the atomic write: the read row is the committed row. */
  lemma CasIsAtomic(s: System, f: InFlight)
    requires Invariant(s) && f in s.inFlight && CasMatches(f, s.row)
    ensures f.snapshot == s.row
    ensures Mutate(f.mutation, f.snapshot).Some? ==>
              Effect(WriteOf(f), s.row) == Some(Stamp(f.snapshot, Mutate(f.mutation, f.snapshot).value))
  {
    hide Mutate;
    assert s.history[f.snapshot.version] == f.snapshot;
  }

  lemma LeaseInUse(s: System, w: Write)
    requires Invariant(s) && Effect(w, s.row).Some? && !w.WClaimProcessing?
    ensures var next := Effect(w, s.row).value;
            next.processingLease.Some? ==> next.processingLease.value in s.used
  {
    var next := Effect(w, s.row).value;
    if next.processingLease.Some? && next.processingLease != s.row.processingLease {
      LeaseOnlyByClaim(w, s.row, next.processingLease.value);
    }
  }

  lemma AdmissionKeeps(s: System, lease: Id, now: Time, ms: Time, ack: bool)
    requires Invariant(s) && Next(s, DoClaimAdmission(lease, now, ms, ack)).Some?
    ensures Invariant(Next(s, DoClaimAdmission(lease, now, ms, ack)).value)
  {
    hide Linear, SnapshotsCommitted, MarksFenced, Mutate;
    CommittedKeeps(s, WClaimAdmission(lease, now, ms));
    LeaseInUse(s, WClaimAdmission(lease, now, ms));
    SameCommitted(s, WClaimAdmission(lease, now, ms), Next(s, DoClaimAdmission(lease, now, ms, ack)).value);
  }

  lemma DispatchKeeps(s: System, admission: Id, claim: Id, ack: bool)
    requires Invariant(s) && Next(s, DoClaimDispatch(admission, claim, ack)).Some?
    ensures Invariant(Next(s, DoClaimDispatch(admission, claim, ack)).value)
  {
    hide Linear, SnapshotsCommitted, MarksFenced, Mutate;
    CommittedKeeps(s, WClaimDispatch(admission, claim));
    LeaseInUse(s, WClaimDispatch(admission, claim));
    SameCommitted(s, WClaimDispatch(admission, claim), Next(s, DoClaimDispatch(admission, claim, ack)).value);
  }

  lemma ProcessingKeeps(s: System, lease: Id, now: Time, ms: Time, ack: bool)
    requires Invariant(s) && Next(s, DoClaimProcessing(lease, now, ms, ack)).Some?
    ensures Invariant(Next(s, DoClaimProcessing(lease, now, ms, ack)).value)
  {
    hide Linear, SnapshotsCommitted, MarksFenced, Mutate;
    CommittedKeeps(s, WClaimProcessing(lease, now, ms));
    SameCommitted(s, WClaimProcessing(lease, now, ms), Next(s, DoClaimProcessing(lease, now, ms, ack)).value);
  }

  /** What depends only on the row, its history, the reads in flight and the marks. */
  lemma SameCommitted(s: System, w: Write, t: System)
    requires Effect(w, s.row).Some?
    requires
      var c := Committed(s, w, Effect(w, s.row).value);
      t.row == c.row && t.history == c.history && t.log == c.log && t.inFlight == c.inFlight && t.marks == c.marks
    ensures
      var c := Committed(s, w, Effect(w, s.row).value);
      Linear(t) == Linear(c) && SnapshotsCommitted(t) == SnapshotsCommitted(c) && MarksFenced(t) == MarksFenced(c)
  {
    hide Effect;
  }

  lemma CommitKeeps(s: System, f: InFlight)
    requires Invariant(s) && Next(s, DoCommit(f)).Some?
    ensures Invariant(Next(s, DoCommit(f)).value)
  {
    CasIsAtomic(s, f);
    CommittedKeeps(s, WriteOf(f));
    LeaseInUse(s, WriteOf(f));
    hide Effect;
    var t := Next(s, DoCommit(f)).value;
    if f.mutation.MarkPaid? {
      assert t.row.processingLease == s.row.processingLease && t.row.fence == s.row.fence;
      assert f.claim.Processing? && s.row.processingLease == Some(f.claim.lease) && s.row.fence == f.claim.fence;
    }
  }

  lemma StepKeeps(s: System, step: Step)
    requires Invariant(s) && Next(s, step).Some?
    ensures Invariant(Next(s, step).value)
  {
    hide Mutate, Effect;
    match step
    case DoClaimAdmission(lease, now, ms, ack) => AdmissionKeeps(s, lease, now, ms, ack);
    case DoClaimDispatch(admission, claim, ack) => DispatchKeeps(s, admission, claim, ack);
    case DoClaimProcessing(lease, now, ms, ack) => ProcessingKeeps(s, lease, now, ms, ack);
    case DoSchedule(right) =>
    case DoSettleDispatch(claim, status, workflow) =>
      CommittedKeeps(s, WSettleDispatch(claim, status, workflow));
      LeaseInUse(s, WSettleDispatch(claim, status, workflow));
    case DoHeartbeat(holder, now, ms) =>
      CommittedKeeps(s, WHeartbeat(holder.lease, holder.fence, now, ms));
      LeaseInUse(s, WHeartbeat(holder.lease, holder.fence, now, ms));
    case DoRead(m, c, at) =>
    case DoCommit(f) => CommitKeeps(s, f);
  }

  lemma {:induction false} RunKeeps(s: System, steps: seq<Step>)
    requires Invariant(s) && Run(s, steps).Some?
    ensures Invariant(Run(s, steps).value)
    decreases |steps|
  {
    if steps != [] {
      StepKeeps(s, steps[0]);
      RunKeeps(Next(s, steps[0]).value, steps[1..]);
    }
  }

  lemma Reachable(reserved: nat, steps: seq<Step>)
    requires Run(Start(reserved), steps).Some?
    ensures Invariant(Run(Start(reserved), steps).value)
  {
    StartInvariant(reserved);
    RunKeeps(Start(reserved), steps);
  }

  // ---- what holds over all runs ----

  /** Every paid attempt ever marked was committed under one single lease and fence. */
  lemma SingleFence(reserved: nat, steps: seq<Step>)
    requires Run(Start(reserved), steps).Some?
    ensures var s := Run(Start(reserved), steps).value;
            && (forall i, j :: 0 <= i < |s.marks| && 0 <= j < |s.marks| ==> s.marks[i] == s.marks[j])
            && (s.marks != [] ==> forall lease, now, ms :: ClaimProcessing(s.row, lease, now, ms).None?)
  {
    Reachable(reserved, steps);
  }

  /** `schedule` is called at most once, and never again once a worker has called it. */
  lemma AtMostOneSchedule(reserved: nat, steps: seq<Step>)
    requires Run(Start(reserved), steps).Some?
    ensures var s := Run(Start(reserved), steps).value;
            s.schedules <= 1 && (s.schedules == 1 ==> s.dispatchRights == {})
  {
    Reachable(reserved, steps);
    var s := Run(Start(reserved), steps).value;
    if s.schedules == 1 {
      assert |s.dispatchRights| == 0;
    }
  }

  /** A run failed as stranded is never claimed for processing, whatever happens next. */
  lemma StrandedNeverClaimed(reserved: nat, before: seq<Step>, after: seq<Step>)
    requires Run(Start(reserved), before).Some?
    requires var s := Run(Start(reserved), before).value; s.stranded && Run(s, after).Some?
    ensures var t := Run(Run(Start(reserved), before).value, after).value;
            forall lease, now, ms :: ClaimProcessing(t.row, lease, now, ms).None?
  {
    var s := Run(Start(reserved), before).value;
    Reachable(reserved, before);
    RunKeeps(s, after);
    StrandedStays(s, after);
  }

  lemma {:induction false} StrandedStays(s: System, steps: seq<Step>)
    requires s.stranded && Run(s, steps).Some?
    ensures Run(s, steps).value.stranded
    decreases |steps|
  {
    hide Effect, Mutate;
    if steps != [] {
      StrandedStays(Next(s, steps[0]).value, steps[1..]);
    }
  }

  function Replay(r: Row, log: seq<Write>): Option<Row>
    decreases |log|
  {
    if log == [] then Some(r)
    else match Effect(log[0], r)
      case None => None
      case Some(next) => Replay(next, log[1..])
  }

  /** Optimistic whole-row writes refine atomic ones: the committed row is the replay of the log. */
  lemma RunsAreLinear(reserved: nat, steps: seq<Step>)
    requires Run(Start(reserved), steps).Some?
    ensures var s := Run(Start(reserved), steps).value;
            && Replay(NewRow(reserved), s.log) == Some(s.row)
            && s.row.version == |s.log|
  {
    Reachable(reserved, steps);
    FirstRow(Start(reserved), steps);
    var s := Run(Start(reserved), steps).value;
    ReplayFrom(s, 0);
    assert s.log[0..] == s.log;
  }

  lemma {:induction false} FirstRow(s: System, steps: seq<Step>)
    requires s.history != [] && Run(s, steps).Some?
    ensures var t := Run(s, steps).value; t.history != [] && t.history[0] == s.history[0]
    decreases |steps|
  {
    hide Effect, Mutate;
    if steps != [] {
      FirstRow(Next(s, steps[0]).value, steps[1..]);
    }
  }

  lemma {:induction false} ReplayFrom(s: System, i: nat)
    requires Linear(s) && i <= |s.log|
    ensures Replay(s.history[i], s.log[i..]) == Some(s.row)
    decreases |s.log| - i
  {
    hide Effect;
    if i < |s.log| {
      ReplayFrom(s, i + 1);
      assert s.log[i..][1..] == s.log[i + 1..];
    }
  }

  predicate UsesLease(w: Write, lease: Id) {
    || (w.WUpdate? && w.guard.Processing? && w.guard.lease == lease)
    || (w.WHeartbeat? && w.holder == lease)
  }

  /** A superseded lease holder never commits again, neither a guarded write nor a heartbeat. */
  lemma {:induction false} SupersededNeverCommits(s: System, steps: seq<Step>, lease: Id)
    requires Invariant(s) && Run(s, steps).Some?
    requires lease in s.used && s.row.processingLease != Some(lease)
    ensures var t := Run(s, steps).value;
            && |s.log| <= |t.log|
            && t.row.processingLease != Some(lease)
            && forall i :: |s.log| <= i < |t.log| ==> !UsesLease(t.log[i], lease)
    decreases |steps|
  {
    hide Next, Effect, Mutate, Invariant, UsesLease;
    if steps != [] {
      var n := Next(s, steps[0]).value;
      StepKeeps(s, steps[0]);
      SupersededStep(s, steps[0], lease);
      SupersededNeverCommits(n, steps[1..], lease);
      LogGrows(n, steps[1..]);
      var t := Run(s, steps).value;
      assert t == Run(n, steps[1..]).value;
      forall i | |s.log| <= i < |t.log| ensures !UsesLease(t.log[i], lease) {
        if i < |n.log| { assert i == |s.log| && t.log[i] == n.log[i]; }
      }
    }
  }

  lemma SupersededStep(s: System, step: Step, lease: Id)
    requires Invariant(s) && Next(s, step).Some?
    requires lease in s.used && s.row.processingLease != Some(lease)
    ensures var t := Next(s, step).value;
            && lease in t.used && t.row.processingLease != Some(lease)
            && s.log <= t.log && |t.log| <= |s.log| + 1
            && (|t.log| > |s.log| ==> !UsesLease(t.log[|s.log|], lease))
  {
    hide Effect, Mutate, Invariant, UsesLease;
    if step.DoCommit? {
      CasIsAtomic(s, step.flight);
    }
    var t := Next(s, step).value;
    if |t.log| > |s.log| {
      LeaseStaysAway(s, step, lease);
    }
  }

  // A step that writes uses a lease only if it claims it, which needs a fresh one, or finds it in the row.
  lemma LeaseStaysAway(s: System, step: Step, lease: Id)
    requires Invariant(s) && Next(s, step).Some? && |Next(s, step).value.log| > |s.log|
    requires lease in s.used && s.row.processingLease != Some(lease)
    ensures var w := Next(s, step).value.log[|s.log|];
            && Effect(w, s.row) == Some(Next(s, step).value.row)
            && Next(s, step).value.row.processingLease != Some(lease) && !UsesLease(w, lease)
  {
    if step.DoCommit? {
      CasIsAtomic(s, step.flight);
    }
    LeaseOnlyByClaim(Next(s, step).value.log[|s.log|], s.row, lease);
  }

  lemma StepLogs(s: System, step: Step)
    requires Next(s, step).Some?
    ensures s.log <= Next(s, step).value.log
  {
    hide Effect, Mutate;
  }

  lemma {:induction false} LogGrows(s: System, steps: seq<Step>)
    requires Run(s, steps).Some?
    ensures s.log <= Run(s, steps).value.log
    decreases |steps|
  {
    hide Next;
    if steps != [] {
      StepLogs(s, steps[0]);
      LogGrows(Next(s, steps[0]).value, steps[1..]);
    }
  }

  /** Each committed row is the effect of its write on the row before. */
  lemma CommittedEffect(reserved: nat, steps: seq<Step>, i: nat)
    requires Run(Start(reserved), steps).Some?
    requires i < |Run(Start(reserved), steps).value.log|
    ensures
      var s := Run(Start(reserved), steps).value;
      |s.history| == |s.log| + 1 && Effect(s.log[i], s.history[i]) == Some(s.history[i + 1])
  {
    Reachable(reserved, steps);
    hide Run, Effect, DispatchAccounted, MarksFenced, SnapshotsCommitted;
  }

  /** A conditional expiry write commits only over a row whose lease had expired. */
  lemma ExpiryCommitsOnlyExpired(reserved: nat, steps: seq<Step>, i: nat)
    requires Run(Start(reserved), steps).Some?
    requires var s := Run(Start(reserved), steps).value; i < |s.log| && s.log[i].WUpdateExpired?
    ensures var s := Run(Start(reserved), steps).value;
            i < |s.history| && s.history[i].status !in {Queued, Ready, Partial, Failed, Expired} &&
            s.history[i].processingExpires.Some? && s.history[i].processingExpires.value <= s.log[i].expiredAt
  {
    CommittedEffect(reserved, steps, i);
    hide Run, Effect, Mutate;
    var s := Run(Start(reserved), steps).value;
    GuardsExactly(s.log[i].expiredMutation, s.history[i], NoClaim, s.log[i].expiredAt);
  }

  /** A live lease is never taken over: a processing claim that was committed at position `i` of any run found the
      run queued, or leased with an expiry at or before the time of the claim, and neither a paid marker nor a
      watchdog; it set the next fence and the lease of the claimant. */
  lemma ClaimsTakeOverExpired(reserved: nat, steps: seq<Step>, i: nat)
    requires Run(Start(reserved), steps).Some?
    requires var s := Run(Start(reserved), steps).value; i < |s.log| && s.log[i].WClaimProcessing?
    ensures
      var s := Run(Start(reserved), steps).value;
      && |s.history| == |s.log| + 1
      && var before, after, w := s.history[i], s.history[i + 1], s.log[i];
      && before.paidStarted == false && before.watchdogs == 0
      && (before.status != Queued ==>
            && before.status !in {Ready, Partial, Failed, CleanupPending, Expired}
            && before.processingExpires.Some? && before.processingExpires.value <= w.at)
      && after == before.(status := Validating, processingLease := Some(w.processing), processingExpires := Some(w.at + w.span),
                          fence := before.fence + 1, version := before.version + 1)
  {
    CommittedEffect(reserved, steps, i);
    hide Run, Mutate;
    var s := Run(Start(reserved), steps).value;
    assert Effect(s.log[i], s.history[i]) == Some(s.history[i + 1]);
  }

  /** Fences only grow, so two claims of one run never get the same fence. */
  lemma FencesNeverRepeat(reserved: nat, steps: seq<Step>, i: nat, j: nat)
    requires Run(Start(reserved), steps).Some?
    requires
      var s := Run(Start(reserved), steps).value;
      i < j < |s.log| && s.log[i].WClaimProcessing? && s.log[j].WClaimProcessing?
    ensures
      var s := Run(Start(reserved), steps).value;
      |s.history| == |s.log| + 1 && s.history[i + 1].fence < s.history[j + 1].fence
  {
    Reachable(reserved, steps);
    var s := Run(Start(reserved), steps).value;
    hide Run, Effect, DispatchAccounted, MarksFenced, SnapshotsCommitted;
    FencesGrow(s, i + 1, j);
    ClaimsTakeOverExpired(reserved, steps, j);
  }

  lemma {:induction false} FencesGrow(s: System, i: nat, j: nat)
    requires Linear(s) && i <= j <= |s.log|
    ensures s.history[i].fence <= s.history[j].fence
    decreases j - i
  {
    hide Effect;
    if i < j {
      assert Effect(s.log[i], s.history[i]) == Some(s.history[i + 1]);
      FenceGrows(s.log[i], s.history[i]);
      FencesGrow(s, i + 1, j);
    }
  }
}
