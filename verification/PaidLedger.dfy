/** The durable cost ledger of a run (`markPaidCostAttemptStarted`, `settlePaidCostAttempt`) and the
    sequential batch loop of `OpenAIResponsesAdapter.extract` that drives it. */
module PaidLedger {
  import opened Sorting
  import opened Pricing

  /** Attempt ids are digests of the run and the batch (or of the Monid registration): injective. */
  datatype AttemptId = OpenAi(batch: nat) | Monid(registration: nat) | Unattributed

  datatype EventStatus = Pending | Succeeded | FailedEvent
  datatype CostEvent = CostEvent(attempt: AttemptId, status: EventStatus, actual: Option<nat>, estimated: Option<nat>)

  function Commitment(e: CostEvent): nat {
    if e.actual.Some? then e.actual.value else if e.estimated.Some? then e.estimated.value else 0
  }

  function Total(costs: seq<CostEvent>): nat {
    if costs == [] then 0 else Commitment(costs[0]) + Total(costs[1..])
  }

  predicate Recorded(costs: seq<CostEvent>, a: AttemptId) {
    exists e :: e in costs && e.attempt == a
  }

  /** `assertDurableCommitmentFits` does not throw. */
  predicate Fits(cost: int, remaining: int, reserved: int, maximumRun: int) {
    && SafeNat(cost) && SafeNat(remaining) && SafeNat(reserved) && SafeNat(maximumRun)
    && reserved <= maximumRun && cost + remaining <= reserved
  }

  function Replaced(costs: seq<CostEvent>, e: CostEvent): (r: seq<CostEvent>)
    ensures |r| == |costs|
    ensures forall i :: 0 <= i < |r| ==> r[i] == if costs[i].attempt == e.attempt then e else costs[i]
  {
    seq(|costs|, i requires 0 <= i < |costs| => if costs[i].attempt == e.attempt then e else costs[i])
  }

  /** First event of the attempt, as `find` sees it. */
  function FindAttempt(costs: seq<CostEvent>, a: AttemptId): (r: Option<CostEvent>)
    ensures r.Some? <==> Recorded(costs, a)
    ensures r.Some? ==> r.value in costs && r.value.attempt == a
  {
    if costs == [] then None
    else if costs[0].attempt == a then Some(costs[0])
    else
      assert Recorded(costs, a) ==> Recorded(costs[1..], a);
      FindAttempt(costs[1..], a)
  }

  /** The first event of an attempt. */
  ghost predicate FirstOf(costs: seq<CostEvent>, a: AttemptId, i: int) {
    0 <= i < |costs| && costs[i].attempt == a && forall j :: 0 <= j < i ==> costs[j].attempt != a
  }

  lemma {:induction false} FirstFound(costs: seq<CostEvent>, a: AttemptId)
    ensures forall i :: FirstOf(costs, a, i) ==> FindAttempt(costs, a) == Some(costs[i])
    ensures FindAttempt(costs, a).Some? ==> exists i :: FirstOf(costs, a, i)
  {
    if costs != [] && costs[0].attempt != a {
      FirstFound(costs[1..], a);
      forall i | FirstOf(costs, a, i) ensures FindAttempt(costs, a) == Some(costs[i]) {
        assert FirstOf(costs[1..], a, i - 1) by {
          forall j | 0 <= j < i - 1 ensures costs[1..][j].attempt != a { assert costs[1..][j] == costs[j + 1]; }
        }
      }
      if FindAttempt(costs[1..], a).Some? {
        var i :| FirstOf(costs[1..], a, i);
        forall j | 0 <= j < i + 1 ensures costs[j].attempt != a { assert j > 0 ==> costs[1..][j - 1] == costs[j]; }
        assert FirstOf(costs, a, i + 1);
      }
    } else if costs != [] {
      assert FirstOf(costs, a, 0);
    }
  }

  /** The cost of a run is the sum of what each event commits: the actual amount, or else the estimated one, or nothing. */
  lemma {:induction false} TotalExactly(costs: seq<CostEvent>, amounts: seq<nat>)
    requires |amounts| == |costs|
    requires forall i :: 0 <= i < |costs| && costs[i].actual.Some? ==> amounts[i] == costs[i].actual.value
    requires forall i :: 0 <= i < |costs| && costs[i].actual == None && costs[i].estimated.Some? ==> amounts[i] == costs[i].estimated.value
    requires forall i :: 0 <= i < |costs| && costs[i].actual == None && costs[i].estimated == None ==> amounts[i] == 0
    ensures Total(costs) == Sum(amounts)
  {
    if costs != [] { TotalExactly(costs[1..], amounts[1..]); }
  }

  datatype LedgerOutcome = Accepted | ReplayBlocked | BudgetExceeded

  class RunLedger {
    var costs: seq<CostEvent>
    var costMicroUsd: int
    const reservedMicroUsd: int
    const maximumRunMicroUsd: int

    constructor (reserved: int, maximumRun: int)
      ensures costs == [] && costMicroUsd == 0
      ensures reservedMicroUsd == reserved && maximumRunMicroUsd == maximumRun
    {
      costs, costMicroUsd := [], 0;
      reservedMicroUsd, maximumRunMicroUsd := reserved, maximumRun;
    }

    /** The pending commitment is durable exactly when it is new and fits; otherwise nothing changes. */
    method MarkStarted(attempt: AttemptId, reserve: nat, remaining: nat) returns (r: LedgerOutcome)
      modifies this
      ensures r == Accepted <==>
              && (forall e :: e in old(costs) ==> e.attempt != attempt)
              && old(Total(costs)) + reserve + remaining <= reservedMicroUsd <= maximumRunMicroUsd <= 9007199254740991
      ensures r == Accepted ==>
              && costs == old(costs) + [CostEvent(attempt, Pending, None, Some(reserve))]
              && costMicroUsd == old(Total(costs)) + reserve == Total(costs)
      ensures r != Accepted ==> unchanged(this)
    {
      if !SafeNat(reserve) || !SafeNat(remaining) { return BudgetExceeded; }
      if Recorded(costs, attempt) { return ReplayBlocked; }
      var event := CostEvent(attempt, Pending, None, Some(reserve));
      TotalAppend(costs, event);
      var next := costs + [event];
      var cost := Total(next);
      if !Fits(cost, remaining, reservedMicroUsd, maximumRunMicroUsd) { return BudgetExceeded; }
      costs, costMicroUsd := next, cost;
      return Accepted;
    }

    /** The truthful settlement is persisted first; only then is the remaining plan checked. */
    method Settle(event: CostEvent, remaining: nat) returns (r: LedgerOutcome)
      modifies this
      ensures r != ReplayBlocked <==>
              exists i :: FirstOf(old(costs), event.attempt, i) && old(costs)[i].status == Pending
      ensures r == ReplayBlocked ==> unchanged(this)
      ensures r != ReplayBlocked ==>
              && costs == Replaced(old(costs), event) && costMicroUsd == Total(costs)
              && (r == Accepted <==>
                    costMicroUsd + remaining <= reservedMicroUsd <= maximumRunMicroUsd <= 9007199254740991)
    {
      FirstFound(costs, event.attempt);
      var pending := FindAttempt(costs, event.attempt);
      if pending.None? || pending.value.status != Pending { return ReplayBlocked; }
      costs := Replaced(costs, event);
      costMicroUsd := Total(costs);
      if !Fits(costMicroUsd, remaining, reservedMicroUsd, maximumRunMicroUsd) { return BudgetExceeded; }
      return Accepted;
    }
  }

  lemma {:induction false} TotalAppend(costs: seq<CostEvent>, e: CostEvent)
    ensures Total(costs + [e]) == Total(costs) + Commitment(e)
  {
    if costs == [] {
      assert Total([e]) == Commitment(e) + Total([e][1..]);
    } else {
      assert (costs + [e])[1..] == costs[1..] + [e];
      TotalAppend(costs[1..], e);
    }
  }

  /** Settling the attempt that was appended last replaces exactly that event. */
  lemma {:induction false} SettleLast(costs: seq<CostEvent>, p: CostEvent, e: CostEvent)
    requires !Recorded(costs, e.attempt) && p.attempt == e.attempt
    ensures FirstOf(costs + [p], e.attempt, |costs|) && FindAttempt(costs + [p], e.attempt) == Some(p)
    ensures Replaced(costs + [p], e) == costs + [e]
  {
    FindLast(costs, p);
    hide FindAttempt;
    forall i | 0 <= i < |costs| ensures costs[i].attempt != e.attempt { assert costs[i] in costs; }
    assert |Replaced(costs + [p], e)| == |costs + [e]|;
  }

  lemma {:induction false} FindLast(costs: seq<CostEvent>, p: CostEvent)
    requires !Recorded(costs, p.attempt)
    ensures FindAttempt(costs + [p], p.attempt) == Some(p)
  {
    if costs == [] {
      assert costs + [p] == [p];
    } else {
      assert (costs + [p])[1..] == costs[1..] + [p];
      assert costs[0] in costs;
      assert forall x :: x in costs[1..] ==> x in costs;
      FindLast(costs[1..], p);
    }
  }

  // ---- the batch loop ----

  datatype Usage = Missing | Reported(input: nat, output: nat)

  /** What happens to a batch. A deadline may expire before or after the durable mark; the request may
      throw; a response may lack usage, and may fail to parse or decode. */
  datatype BatchEvent =
    | DeadlineBeforeMark
    | DeadlineAfterMark
    | RequestFailed
    | Response(usage: Usage, decodes: bool)

  /** How `extract` ends. Refused output caps, dispatch marks and success settlements have no constructor:
      `MarkBatch` and `SettleSuccess` prove that they do not occur. */
  datatype Extraction =
    | PreflightRejected
    | FailureUnsettled(batch: nat, cap: nat)
    | BatchFailed(batch: nat)
    | Completed

  function ObservedCost(maximum: nat, usage: Usage): nat {
    match usage
    case Missing => maximum
    case Reported(i, o) => if SafeNat(Cost(i, o)) then Cost(i, o) else maximum
  }

  predicate InLimit(usage: Usage, tokens: nat, cap: nat) {
    usage.Reported? ==> usage.input <= tokens && usage.output <= cap
  }

  function Accounted(usage: Usage, cap: nat): nat {
    if usage.Reported? && usage.output <= cap then usage.output else cap
  }

  /** The configuration and preflight of one extraction. */
  datatype Plan = Plan(tokens: seq<nat>, floors: seq<nat>, maxOutput: nat, maxInput: nat,
                       context: nat, reserve: nat) {
    /** None of the preflight throws of `extract` fires. */
    predicate Preflight() {
      && |floors| == |tokens| && Sum(floors) <= maxOutput
      && Sum(tokens) <= maxInput
      && (forall t :: t in tokens ==> t + maxOutput <= context)
      && MultiCost(tokens, maxOutput) <= reserve
    }
  }

  /** The telescoping invariant before batch `i`: what is settled, plus the bound for everything still to
      come with all unaccounted output tokens, stays within the preflight maximum. */
  ghost predicate WithinPlan(plan: Plan, i: nat, settled: int, accounted: nat) {
    && i <= |plan.tokens| == |plan.floors| && 0 <= settled
    && SafeNat(MultiCost(plan.tokens, plan.maxOutput))
    && accounted + Sum(plan.floors[i..]) <= plan.maxOutput
    && settled + MultiCost(plan.tokens[i..], plan.maxOutput - accounted) <= MultiCost(plan.tokens, plan.maxOutput)
  }

  lemma DispatchFits(plan: Plan, i: nat, settled: int, accounted: nat, cap: nat)
    requires WithinPlan(plan, i, settled, accounted) && i < |plan.tokens|
    requires accounted + cap + Sum(plan.floors[i + 1..]) == plan.maxOutput
    ensures SafeNat(Cost(plan.tokens[i], cap))
    ensures settled + Cost(plan.tokens[i], cap) +
            MultiCost(plan.tokens[i + 1..], Sum(plan.floors[i + 1..])) <= MultiCost(plan.tokens, plan.maxOutput)
  {
    var ts := plan.tokens[i..];
    assert ts[1..] == plan.tokens[i + 1..];
    Telescope(ts, plan.maxOutput - accounted, cap);
  }

  lemma BatchKeepsPlan(plan: Plan, i: nat, settled: int, accounted: nat, cap: nat, usage: Usage)
    requires WithinPlan(plan, i, settled, accounted) && i < |plan.tokens|
    requires accounted + cap + Sum(plan.floors[i + 1..]) == plan.maxOutput
    requires InLimit(usage, plan.tokens[i], cap)
    ensures WithinPlan(plan, i + 1, settled + ObservedCost(Cost(plan.tokens[i], cap), usage),
                       accounted + Accounted(usage, cap))
  {
    var ts := plan.tokens[i..];
    assert ts[1..] == plan.tokens[i + 1..];
    Telescope(ts, plan.maxOutput - accounted, Accounted(usage, cap));
    DispatchFits(plan, i, settled, accounted, cap);
    ObservedBound(plan.tokens[i], cap, usage);
  }

  lemma CostMonotone(a: nat, b: nat, x: nat, y: nat)
    requires a <= b && x <= y
    ensures Cost(a, x) <= Cost(b, y)
  {
  }

  /** A usage within the request's limits costs no more than the input estimate with the accounted output. */
  lemma ObservedBound(tokens: nat, cap: nat, usage: Usage)
    requires InLimit(usage, tokens, cap) && SafeNat(Cost(tokens, cap))
    ensures ObservedCost(Cost(tokens, cap), usage) <= Cost(tokens, Accounted(usage, cap))
  {
    hide Cost;
    if usage.Reported? {
      CostMonotone(usage.input, tokens, usage.output, usage.output);
      CostMonotone(usage.input, tokens, usage.output, cap);
    }
  }

  ghost predicate SettledPrefix(costs: seq<CostEvent>, before: seq<CostEvent>, n: nat) {
    && |costs| == |before| + n && costs[..|before|] == before
    && forall k :: 0 <= k < n ==>
         costs[|before| + k].attempt == OpenAi(k) && costs[|before| + k].status == Succeeded
  }

  lemma NextAttemptIsNew(costs: seq<CostEvent>, before: seq<CostEvent>, n: nat)
    requires SettledPrefix(costs, before, n) && !Recorded(before, OpenAi(n))
    ensures !Recorded(costs, OpenAi(n))
  {
    forall e | e in costs ensures e.attempt != OpenAi(n) {
      var k :| 0 <= k < |costs| && costs[k] == e;
      if k < |before| {
        assert costs[..|before|][k] == e && e in before;
      } else {
        assert costs[|before| + (k - |before|)].attempt == OpenAi(k - |before|);
      }
    }
  }

  /** The cost `extract` reports when a batch ends in failure after its mark. */
  function FailureCost(event: BatchEvent, maximum: nat): nat {
    match event
    case Response(usage, _) => ObservedCost(maximum, usage)
    case RequestFailed => maximum
    case _ => 0
  }

  predicate Succeeds(event: BatchEvent, tokens: nat, cap: nat) {
    event.Response? && event.decodes && InLimit(event.usage, tokens, cap)
  }

  // ---- what is paid, in tokens and prices ----

  /** `c` micro-USD are 0.75 for every input and 4.5 for every output token, rounded up. */
  ghost predicate Priced(input: nat, output: nat, c: int) {
    0 <= 4 * c - (3 * input + 18 * output) <= 3
  }

  /** What a request with these limits is settled at: the price of the reported usage while that is a safe
      integer, and otherwise the price of the limits. */
  ghost predicate UsageAmount(tokens: nat, cap: nat, usage: Usage, c: int) {
    match usage
    case Missing => Priced(tokens, cap, c)
    case Reported(input, output) =>
      (Priced(input, output, c) && c <= 9007199254740991) ||
      (Priced(tokens, cap, c) && 3 * input + 18 * output > 4 * 9007199254740991)
  }

  /** What a batch that fails after its mark is settled at. */
  ghost predicate FailureAmount(tokens: nat, cap: nat, event: BatchEvent, c: int) {
    match event
    case Response(usage, _) => UsageAmount(tokens, cap, usage, c)
    case RequestFailed => Priced(tokens, cap, c)
    case _ => c == 0
  }

  lemma AmountsExactly(tokens: nat, cap: nat, event: BatchEvent, usage: Usage)
    ensures Priced(tokens, cap, Cost(tokens, cap))
    ensures UsageAmount(tokens, cap, usage, ObservedCost(Cost(tokens, cap), usage))
    ensures FailureAmount(tokens, cap, event, FailureCost(event, Cost(tokens, cap)))
  {
  }

  /** A batch is done: its answer decodes and stays within the counted input and its own output cap. */
  ghost predicate Done(event: BatchEvent, tokens: nat, cap: nat) {
    && event.Response? && event.decodes
    && (event.usage.Reported? ==> event.usage.input <= tokens && event.usage.output <= cap)
  }

  /** The output tokens used up by the first `k` batches: those reported, or else the whole cap. */
  ghost function Spent(events: seq<BatchEvent>, caps: seq<nat>, k: nat): nat
    requires k <= |events| && k <= |caps|
  {
    if k == 0 then 0
    else
      Spent(events, caps, k - 1) +
      match events[k - 1]
      case Response(Reported(_, output), _) => output
      case _ => caps[k - 1]
  }

  /** Batch `k` may use all output tokens that are neither spent nor the floor of a later batch. */
  ghost predicate Allotted(plan: Plan, events: seq<BatchEvent>, caps: seq<nat>, k: nat)
    requires k < |caps| && k <= |events| && k < |plan.floors|
  {
    caps[k] + Spent(events, caps, k) + Sum(plan.floors[k + 1..]) == plan.maxOutput
  }

  /** The first `n` batches are done and settled with these caps and amounts, and nothing else is recorded. */
  ghost predicate PaidAs(plan: Plan, events: seq<BatchEvent>, before: seq<CostEvent>, costs: seq<CostEvent>, n: nat,
                         caps: seq<nat>, amounts: seq<nat>)
  {
    && |caps| == |amounts| == n <= |events| == |plan.tokens| == |plan.floors|
    && |costs| == |before| + n && costs[..|before|] == before
    && forall k :: 0 <= k < n ==>
         && Allotted(plan, events, caps, k) && Done(events[k], plan.tokens[k], caps[k])
         && UsageAmount(plan.tokens[k], caps[k], events[k].usage, amounts[k])
         && costs[|before| + k] == CostEvent(OpenAi(k), Succeeded, None, Some(amounts[k]))
  }

  ghost predicate Paid(plan: Plan, events: seq<BatchEvent>, before: seq<CostEvent>, costs: seq<CostEvent>, n: nat) {
    exists caps, amounts :: PaidAs(plan, events, before, costs, n, caps, amounts) && Total(costs) == Total(before) + Sum(amounts)
  }

  /** Batch `n` ends the run: before its mark, or settled as failed at the amount its event calls for. */
  ghost predicate FailedAt(plan: Plan, events: seq<BatchEvent>, before: seq<CostEvent>, costs: seq<CostEvent>, n: nat) {
    exists caps, amounts ::
      && |caps| == n + 1 && n < |events| == |plan.tokens| == |plan.floors| && |before| + n <= |costs|
      && PaidAs(plan, events, before, costs[..|before| + n], n, caps[..n], amounts)
      && Allotted(plan, events, caps, n) && !Done(events[n], plan.tokens[n], caps[n])
      && if events[n].DeadlineBeforeMark? then |costs| == |before| + n && Total(costs) == Total(before) + Sum(amounts)
         else exists c: nat ::
           && FailureAmount(plan.tokens[n], caps[n], events[n], c)
           && costs == costs[..|before| + n] + [CostEvent(OpenAi(n), FailedEvent, None, Some(c))]
           && Total(costs) == Total(before) + Sum(amounts) + c
  }

  /** State between two batches: the ledger holds `n` settled batches and the plan still fits. */
  ghost predicate Between(plan: Plan, before: seq<CostEvent>, costs: seq<CostEvent>, cost: int,
                          reserved: int, maximumRun: int, n: nat, accounted: nat)
  {
    && SettledPrefix(costs, before, n) && cost == Total(costs)
    && WithinPlan(plan, n, Total(costs) - Total(before), accounted)
    && Total(before) + MultiCost(plan.tokens, plan.maxOutput) <= reserved <= maximumRun <= MAX_SAFE
    && forall b :: !Recorded(before, OpenAi(b))
  }

  ghost predicate CapOf(plan: Plan, index: nat, accounted: nat, cap: nat)
    requires index < |plan.floors|
  {
    plan.floors[index] <= cap && accounted + cap + Sum(plan.floors[index + 1..]) == plan.maxOutput
  }

  function PendingEvent(index: nat, maximum: nat): CostEvent {
    CostEvent(OpenAi(index), Pending, None, Some(maximum))
  }

  /** `beforePaidBatchDispatch`: the durable mark is accepted for every batch of an admitted plan. */
  method MarkBatch(ledger: RunLedger, plan: Plan, ghost before: seq<CostEvent>, index: nat,
                   ghost accounted: nat, cap: nat) returns (outcome: LedgerOutcome)
    requires index < |plan.tokens| == |plan.floors| && CapOf(plan, index, accounted, cap)
    requires Between(plan, before, ledger.costs, ledger.costMicroUsd, ledger.reservedMicroUsd,
                     ledger.maximumRunMicroUsd, index, accounted)
    modifies ledger
    ensures outcome == Accepted
    ensures ledger.costs == old(ledger.costs) + [PendingEvent(index, Cost(plan.tokens[index], cap))]
    ensures ledger.costMicroUsd == Total(ledger.costs)
  {
    DispatchFits(plan, index, Total(ledger.costs) - Total(before), accounted, cap);
    NextAttemptIsNew(ledger.costs, before, index);
    var remaining := MultiCost(plan.tokens[index + 1..], Sum(plan.floors[index + 1..]));
    outcome := ledger.MarkStarted(OpenAi(index), Cost(plan.tokens[index], cap), remaining);
  }

  /** Settling a batch within its limits leaves a fitting ledger, and the plan for the rest. */
  lemma SuccessNext(plan: Plan, before: seq<CostEvent>, costs: seq<CostEvent>, reserved: int, maximumRun: int,
                    index: nat, accounted: nat, cap: nat, usage: Usage)
    requires index < |plan.tokens| == |plan.floors| && CapOf(plan, index, accounted, cap)
    requires InLimit(usage, plan.tokens[index], cap)
    requires Between(plan, before, costs, Total(costs), reserved, maximumRun, index, accounted)
    ensures !Recorded(costs, OpenAi(index))
    ensures
      var cost := ObservedCost(Cost(plan.tokens[index], cap), usage);
      var after := costs + [CostEvent(OpenAi(index), Succeeded, None, Some(cost))];
      var accounted' := accounted + Accounted(usage, cap);
      && accounted' <= plan.maxOutput
      && Between(plan, before, after, Total(after), reserved, maximumRun, index + 1, accounted')
      && Fits(Total(after), MultiCost(plan.tokens[index + 1..],
                                      if index + 1 < |plan.tokens| then plan.maxOutput - accounted' else 0),
              reserved, maximumRun)
  {
    hide Cost, ObservedCost, Accounted, InLimit, Recorded, SettledPrefix, Total, Sum;
    var cost := ObservedCost(Cost(plan.tokens[index], cap), usage);
    var done := CostEvent(OpenAi(index), Succeeded, None, Some(cost));
    NextAttemptIsNew(costs, before, index);
    TotalAppend(costs, done);
    PrefixNext(costs, before, index, done);
    BatchKeepsPlan(plan, index, Total(costs) - Total(before), accounted, cap, usage);
    assert Total(costs + [done]) - Total(before) == Total(costs) - Total(before) + cost;
  }

  lemma PrefixNext(costs: seq<CostEvent>, before: seq<CostEvent>, n: nat, done: CostEvent)
    requires SettledPrefix(costs, before, n) && done.attempt == OpenAi(n) && done.status == Succeeded
    ensures SettledPrefix(costs + [done], before, n + 1)
  {
    var more := costs + [done];
    assert more[..|before|] == costs[..|before|] == before;
    forall i: nat | i < n + 1 ensures more[|before| + i].attempt == OpenAi(i) && more[|before| + i].status == Succeeded {
      assert i < n ==> more[|before| + i] == costs[|before| + i];
    }
  }

  /** Success settlement: never refused, and the invariant moves on to the next batch. */
  method SettleSuccess(ledger: RunLedger, plan: Plan, ghost before: seq<CostEvent>, ghost costs: seq<CostEvent>,
                       index: nat, accounted: nat, cap: nat, usage: Usage)
    returns (outcome: LedgerOutcome, accounted': nat)
    requires index < |plan.tokens| == |plan.floors| && CapOf(plan, index, accounted, cap)
    requires InLimit(usage, plan.tokens[index], cap)
    requires Between(plan, before, costs, Total(costs), ledger.reservedMicroUsd,
                     ledger.maximumRunMicroUsd, index, accounted)
    requires ledger.costs == costs + [PendingEvent(index, Cost(plan.tokens[index], cap))]
    modifies ledger
    ensures outcome == Accepted
    ensures Between(plan, before, ledger.costs, ledger.costMicroUsd, ledger.reservedMicroUsd,
                    ledger.maximumRunMicroUsd, index + 1, accounted')
    ensures accounted' == accounted + Accounted(usage, cap)
    ensures exists c: nat :: UsageAmount(plan.tokens[index], cap, usage, c) &&
              ledger.costs == costs + [CostEvent(OpenAi(index), Succeeded, None, Some(c))]
  {
    hide Cost, MultiCost, ObservedCost, Accounted, InLimit, Between, Total, Recorded, UsageAmount;
    var maximum := Cost(plan.tokens[index], cap);
    var cost := ObservedCost(maximum, usage);
    AmountsExactly(plan.tokens[index], cap, Response(usage, true), usage);
    accounted' := accounted + Accounted(usage, cap);
    var done := CostEvent(OpenAi(index), Succeeded, None, Some(cost));
    SuccessNext(plan, before, costs, ledger.reservedMicroUsd, ledger.maximumRunMicroUsd, index, accounted, cap, usage);
    SettleLast(costs, PendingEvent(index, maximum), done);
    var remaining := MultiCost(plan.tokens[index + 1..],
                               if index + 1 < |plan.tokens| then plan.maxOutput - accounted' else 0);
    outcome := ledger.Settle(done, remaining);
  }

  /** Failure settlement with nothing left to reserve: refused only beyond the response's own limits. */
  method SettleFailure(ledger: RunLedger, plan: Plan, ghost before: seq<CostEvent>, ghost costs: seq<CostEvent>,
                       index: nat, ghost accounted: nat, cap: nat, event: BatchEvent)
    returns (outcome: LedgerOutcome)
    requires index < |plan.tokens| == |plan.floors| && CapOf(plan, index, accounted, cap)
    requires Between(plan, before, costs, Total(costs), ledger.reservedMicroUsd,
                     ledger.maximumRunMicroUsd, index, accounted)
    requires ledger.costs == costs + [PendingEvent(index, Cost(plan.tokens[index], cap))]
    modifies ledger
    ensures ledger.costMicroUsd == Total(ledger.costs)
    ensures exists c: nat :: FailureAmount(plan.tokens[index], cap, event, c) &&
              ledger.costs == costs + [CostEvent(OpenAi(index), FailedEvent, None, Some(c))]
    ensures outcome != Accepted ==> event.Response? && !InLimit(event.usage, plan.tokens[index], cap)
    ensures outcome == Accepted <==> ledger.costMicroUsd <= ledger.reservedMicroUsd
  {
    var maximum := Cost(plan.tokens[index], cap);
    var failed := CostEvent(OpenAi(index), FailedEvent, None, Some(FailureCost(event, maximum)));
    DispatchFits(plan, index, Total(costs) - Total(before), accounted, cap);
    NextAttemptIsNew(costs, before, index);
    SettleLast(costs, PendingEvent(index, maximum), failed);
    TotalAppend(costs, failed);
    FailureCostBound(event, plan.tokens[index], cap);
    AmountsExactly(plan.tokens[index], cap, event, Missing);
    outcome := ledger.Settle(failed, 0);
  }

  /** One batch: mark, request, settle. `None` continues with the next batch. */
  method RunBatch(ledger: RunLedger, plan: Plan, ghost before: seq<CostEvent>, index: nat, accounted: nat,
                  event: BatchEvent) returns (stop: Option<Extraction>, accounted': nat, ghost cap: nat)
    requires index < |plan.tokens| && Sum(plan.floors) <= plan.maxOutput && SafeNat(plan.maxOutput)
    requires forall f :: f in plan.floors ==> 1 <= f
    requires Between(plan, before, ledger.costs, ledger.costMicroUsd, ledger.reservedMicroUsd,
                     ledger.maximumRunMicroUsd, index, accounted)
    modifies ledger
    ensures |plan.tokens| == |plan.floors| && CapOf(plan, index, accounted, cap)
    ensures stop.None? ==>
              && Done(event, plan.tokens[index], cap)
              && accounted' == accounted + Accounted(event.usage, cap)
              && Between(plan, before, ledger.costs, ledger.costMicroUsd, ledger.reservedMicroUsd,
                         ledger.maximumRunMicroUsd, index + 1, accounted')
              && exists c: nat :: UsageAmount(plan.tokens[index], cap, event.usage, c) &&
                   ledger.costs == old(ledger.costs) + [CostEvent(OpenAi(index), Succeeded, None, Some(c))]
    ensures stop.Some? ==>
              && !Done(event, plan.tokens[index], cap)
              && stop.value == (if ledger.costMicroUsd <= ledger.reservedMicroUsd then BatchFailed(index)
                                else FailureUnsettled(index, cap))
              && if event.DeadlineBeforeMark? then unchanged(ledger)
                 else exists c: nat ::
                   && FailureAmount(plan.tokens[index], cap, event, c)
                   && ledger.costs == old(ledger.costs) + [CostEvent(OpenAi(index), FailedEvent, None, Some(c))]
    ensures ledger.costMicroUsd == Total(ledger.costs)
    ensures stop.Some? && stop.value.FailureUnsettled? ==>
              event.Response? && !InLimit(event.usage, plan.tokens[index], cap)
  {
    accounted' := accounted;
    var room := OutputCap(plan.maxOutput, accounted, plan.floors, index);
    CapExists(plan.maxOutput, accounted, plan.floors, index);
    cap := room.value;
    if event.DeadlineBeforeMark? { return Some(BatchFailed(index)), accounted, cap; }
    ghost var costs := ledger.costs;
    var outcome := MarkBatch(ledger, plan, before, index, accounted, room.value);
    if outcome == Accepted && Succeeds(event, plan.tokens[index], room.value) {
      outcome, accounted' := SettleSuccess(ledger, plan, before, costs, index, accounted, room.value, event.usage);
      return None, accounted', cap;
    }
    outcome := SettleFailure(ledger, plan, before, costs, index, accounted, room.value, event);
    stop := Some(if outcome == Accepted then BatchFailed(index) else FailureUnsettled(index, room.value));
  }

  /** Only a response outside its own limits can cost more than was reserved for it. */
  lemma FailureCostBound(event: BatchEvent, tokens: nat, cap: nat)
    ensures FailureCost(event, Cost(tokens, cap)) > Cost(tokens, cap) ==>
              event.Response? && !InLimit(event.usage, tokens, cap)
  {
  }

  lemma {:induction false} SpentBefore(events: seq<BatchEvent>, caps: seq<nat>, more: seq<nat>, k: nat)
    requires k <= |events| && k <= |caps| && caps <= more
    ensures Spent(events, caps, k) == Spent(events, more, k)
  {
    if k > 0 {
      SpentBefore(events, caps, more, k - 1);
      assert more[k - 1] == caps[k - 1];
    }
  }

  lemma {:induction false} SumAppend(xs: seq<nat>, c: nat)
    ensures Sum(xs + [c]) == Sum(xs) + c
  {
    if xs == [] {
      assert [c][1..] == [];
    } else {
      assert (xs + [c])[1..] == xs[1..] + [c];
      SumAppend(xs[1..], c);
    }
  }

  lemma AllottedLater(plan: Plan, events: seq<BatchEvent>, caps: seq<nat>, more: seq<nat>, k: nat)
    requires k < |caps| && k <= |events| && k < |plan.floors| && caps <= more
    ensures Allotted(plan, events, caps, k) <==> Allotted(plan, events, more, k)
  {
    SpentBefore(events, caps, more, k);
    assert more[k] == caps[k];
  }

  lemma SpentNext(events: seq<BatchEvent>, caps: seq<nat>, cap: nat, tokens: nat, n: nat)
    requires n < |events| && |caps| == n && Done(events[n], tokens, cap)
    ensures Spent(events, caps + [cap], n + 1) == Spent(events, caps, n) + Accounted(events[n].usage, cap)
  {
    SpentBefore(events, caps, caps + [cap], n);
  }

  lemma PaidNext(plan: Plan, events: seq<BatchEvent>, before: seq<CostEvent>, costs: seq<CostEvent>, n: nat,
                 caps: seq<nat>, amounts: seq<nat>, cap: nat, c: nat)
    requires PaidAs(plan, events, before, costs, n, caps, amounts) && n < |events|
    requires CapOf(plan, n, Spent(events, caps, n), cap) && Done(events[n], plan.tokens[n], cap)
    requires UsageAmount(plan.tokens[n], cap, events[n].usage, c)
    ensures PaidAs(plan, events, before, costs + [CostEvent(OpenAi(n), Succeeded, None, Some(c))], n + 1, caps + [cap], amounts + [c])
    ensures Spent(events, caps + [cap], n + 1) == Spent(events, caps, n) + Accounted(events[n].usage, cap)
  {
    hide UsageAmount, Spent, Sum, Accounted;
    var more, all := caps + [cap], costs + [CostEvent(OpenAi(n), Succeeded, None, Some(c))];
    SpentNext(events, caps, cap, plan.tokens[n], n);
    SpentBefore(events, caps, more, n);
    assert all[..|before|] == before;
    forall k: nat | k < n + 1
      ensures Allotted(plan, events, more, k) && Done(events[k], plan.tokens[k], more[k])
      ensures UsageAmount(plan.tokens[k], more[k], events[k].usage, (amounts + [c])[k])
      ensures all[|before| + k] == CostEvent(OpenAi(k), Succeeded, None, Some((amounts + [c])[k]))
    {
      if k < n {
        AllottedLater(plan, events, caps, more, k);
        assert more[k] == caps[k] && all[|before| + k] == costs[|before| + k];
      }
    }
  }

  lemma FailedHere(plan: Plan, events: seq<BatchEvent>, before: seq<CostEvent>, costs: seq<CostEvent>, after: seq<CostEvent>,
                   n: nat, caps: seq<nat>, amounts: seq<nat>, cap: nat)
    requires PaidAs(plan, events, before, costs, n, caps, amounts) && n < |events|
    requires Total(costs) == Total(before) + Sum(amounts)
    requires CapOf(plan, n, Spent(events, caps, n), cap) && !Done(events[n], plan.tokens[n], cap)
    requires if events[n].DeadlineBeforeMark? then after == costs
             else exists c: nat ::
               && FailureAmount(plan.tokens[n], cap, events[n], c)
               && after == costs + [CostEvent(OpenAi(n), FailedEvent, None, Some(c))]
    ensures FailedAt(plan, events, before, after, n)
  {
    hide FailureAmount, PaidAs;
    var more := caps + [cap];
    PaidLength(plan, events, before, costs, n, caps, amounts);
    SpentBefore(events, caps, more, n);
    assert Allotted(plan, events, more, n);
    assert more[..n] == caps && after[..|before| + n] == costs;
    if !events[n].DeadlineBeforeMark? {
      var c: nat :| FailureAmount(plan.tokens[n], cap, events[n], c) &&
                    after == costs + [CostEvent(OpenAi(n), FailedEvent, None, Some(c))];
      TotalAppend(costs, CostEvent(OpenAi(n), FailedEvent, None, Some(c)));
      assert after == after[..|before| + n] + [CostEvent(OpenAi(n), FailedEvent, None, Some(c))];
    }
  }

  lemma PaidLength(plan: Plan, events: seq<BatchEvent>, before: seq<CostEvent>, costs: seq<CostEvent>, n: nat,
                   caps: seq<nat>, amounts: seq<nat>)
    requires PaidAs(plan, events, before, costs, n, caps, amounts)
    ensures |caps| == |amounts| == n <= |events| == |plan.tokens| == |plan.floors| && |costs| == |before| + n
  {
  }

  /** What the preflight admits: every batch fits the context, all of them the input limit, the floors fit the
      output limit, and the price of everything, with a unit for each division, fits the reserve. */
  ghost predicate Admissible(plan: Plan) {
    && |plan.floors| == |plan.tokens|
    && Sum(plan.floors) <= plan.maxOutput && Sum(plan.tokens) <= plan.maxInput
    && (forall k :: 0 <= k < |plan.tokens| ==> plan.tokens[k] + plan.maxOutput <= plan.context)
    && (|plan.tokens| > 0 ==>
          3 * Sum(plan.tokens) + 18 * plan.maxOutput <= 4 * (plan.reserve - (|plan.tokens| - 1)))
  }

  lemma AdmissibleExactly(plan: Plan)
    ensures plan.Preflight() <==> Admissible(plan)
  {
    hide Sum, Cost;
    CostWithin(Sum(plan.tokens), plan.maxOutput, plan.reserve - |plan.tokens| + 1);
    if Admissible(plan) {
      forall t | t in plan.tokens ensures t + plan.maxOutput <= plan.context {
        var k :| 0 <= k < |plan.tokens| && plan.tokens[k] == t;
      }
    }
    if plan.Preflight() {
      forall k | 0 <= k < |plan.tokens| ensures plan.tokens[k] + plan.maxOutput <= plan.context {
        assert plan.tokens[k] in plan.tokens;
      }
    }
  }

  lemma CostWithin(input: nat, output: nat, bound: int)
    ensures Cost(input, output) <= bound <==> 3 * input + 18 * output <= 4 * bound
  {
  }

  lemma BetweenStart(plan: Plan, before: seq<CostEvent>, reserved: int, maximumRun: int)
    requires plan.Preflight() && SafeNat(plan.maxOutput) && SafeNat(maximumRun)
    requires Total(before) + plan.reserve <= reserved <= maximumRun
    requires forall b :: !Recorded(before, OpenAi(b))
    ensures Between(plan, before, before, Total(before), reserved, maximumRun, 0, 0)
    ensures |plan.floors| == |plan.tokens| && Sum(plan.floors) <= plan.maxOutput
  {
    assert plan.tokens[0..] == plan.tokens && plan.floors[0..] == plan.floors;
  }

  lemma BetweenEnd(plan: Plan, before: seq<CostEvent>, costs: seq<CostEvent>, cost: int, reserved: int, maximumRun: int,
                   accounted: nat)
    requires Between(plan, before, costs, cost, reserved, maximumRun, |plan.tokens|, accounted)
    ensures cost == Total(costs) <= Total(before) + MultiCost(plan.tokens, plan.maxOutput)
  {
  }

  lemma NothingPaid(plan: Plan, events: seq<BatchEvent>, before: seq<CostEvent>)
    requires |events| == |plan.tokens| == |plan.floors|
    ensures PaidAs(plan, events, before, before, 0, [], []) && Spent(events, [], 0) == 0 && Sum([]) == 0
  {
  }

  /** The sequential batch loop. Whatever the provider does, no output cap, no dispatch mark and no
      success settlement is ever refused: the only refusal left is the failure settlement of a response
      that exceeded its own limits. Every batch is settled at exactly the price of its usage or of its limits,
      and a completed run costs the sum of these, which is at most the preflight maximum. */
  method Extract(ledger: RunLedger, plan: Plan, events: seq<BatchEvent>) returns (r: Extraction)
    requires |events| == |plan.tokens| && forall f :: f in plan.floors ==> 1 <= f
    requires SafeNat(plan.maxOutput) && SafeNat(ledger.maximumRunMicroUsd)
    requires ledger.costMicroUsd == Total(ledger.costs)
    requires ledger.costMicroUsd + plan.reserve <= ledger.reservedMicroUsd <= ledger.maximumRunMicroUsd
    requires forall b :: !Recorded(ledger.costs, OpenAi(b))
    modifies ledger
    ensures r == PreflightRejected <==> !Admissible(plan)
    ensures r == PreflightRejected ==> unchanged(ledger)
    ensures ledger.costMicroUsd == Total(ledger.costs)
    ensures r == Completed ==>
              && Paid(plan, events, old(ledger.costs), ledger.costs, |events|)
              && ledger.costMicroUsd <= old(ledger.costMicroUsd) + MultiCost(plan.tokens, plan.maxOutput)
    ensures r.BatchFailed? || r.FailureUnsettled? ==>
              && FailedAt(plan, events, old(ledger.costs), ledger.costs, r.batch)
              && (r.FailureUnsettled? <==> ledger.costMicroUsd > ledger.reservedMicroUsd)
    ensures r.FailureUnsettled? ==>
              r.batch < |events| && events[r.batch].Response? && !InLimit(events[r.batch].usage, plan.tokens[r.batch], r.cap)
  {
    hide Total, Sum, MultiCost, Recorded, Between, PaidAs, Paid, FailedAt, Spent, UsageAmount, FailureAmount, Done, Accounted, InLimit,
      CapOf, Admissible;
    AdmissibleExactly(plan);
    if !plan.Preflight() { return PreflightRejected; }
    ghost var before := ledger.costs;
    var accounted: nat := 0;
    ghost var caps: seq<nat>, amounts: seq<nat> := [], [];
    BetweenStart(plan, before, ledger.reservedMicroUsd, ledger.maximumRunMicroUsd);
    NothingPaid(plan, events, before);
    for index := 0 to |plan.tokens|
      invariant Between(plan, before, ledger.costs, ledger.costMicroUsd, ledger.reservedMicroUsd,
                        ledger.maximumRunMicroUsd, index, accounted)
      invariant PaidAs(plan, events, before, ledger.costs, index, caps, amounts)
      invariant |caps| == index && accounted == Spent(events, caps, index)
      invariant Total(ledger.costs) == Total(before) + Sum(amounts) == ledger.costMicroUsd
    {
      ghost var costs := ledger.costs;
      var stop;
      ghost var cap;
      stop, accounted, cap := RunBatch(ledger, plan, before, index, accounted, events[index]);
      if stop.Some? {
        FailedHere(plan, events, before, costs, ledger.costs, index, caps, amounts, cap);
        return stop.value;
      }
      ghost var c: nat :| UsageAmount(plan.tokens[index], cap, events[index].usage, c) &&
                          ledger.costs == costs + [CostEvent(OpenAi(index), Succeeded, None, Some(c))];
      PaidNext(plan, events, before, costs, index, caps, amounts, cap, c);
      TotalAppend(costs, CostEvent(OpenAi(index), Succeeded, None, Some(c)));
      SumAppend(amounts, c);
      caps, amounts := caps + [cap], amounts + [c];
    }
    BetweenEnd(plan, before, ledger.costs, ledger.costMicroUsd, ledger.reservedMicroUsd, ledger.maximumRunMicroUsd, accounted);
    PaidBy(plan, events, before, ledger.costs, |events|, caps, amounts);
    r := Completed;
  }

  lemma PaidBy(plan: Plan, events: seq<BatchEvent>, before: seq<CostEvent>, costs: seq<CostEvent>, n: nat,
               caps: seq<nat>, amounts: seq<nat>)
    requires PaidAs(plan, events, before, costs, n, caps, amounts) && Total(costs) == Total(before) + Sum(amounts)
    ensures Paid(plan, events, before, costs, n)
  {
    hide PaidAs, Total, Sum;
  }
}
