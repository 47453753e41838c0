/** OpenAI prices in quarter micro-USD (0.75 = 3/4 and 4.5 = 18/4), the multi-batch bound and the
    protected output cap. */
module Pricing {
  import opened Sorting

  const MAX_SAFE := 9007199254740991

  predicate SafeNat(n: int) { 0 <= n <= MAX_SAFE }

  function Quarters(input: nat, output: nat): nat { 3 * input + 18 * output }

  /** `estimateOpenAiCostMicroUsd`. */
  function Cost(input: nat, output: nat): nat { (Quarters(input, output) + 3) / 4 }

  function Sum(ts: seq<nat>): nat {
    if ts == [] then 0 else ts[0] + Sum(ts[1..])
  }

  /** `estimateOpenAiMultiBatchCostMicroUsd`. */
  function MultiCost(ts: seq<nat>, output: nat): nat {
    if ts == [] then 0 else Cost(Sum(ts), output) + |ts| - 1
  }

  /** Splitting off the first batch with `x` of the output tokens never raises the bound. */
  lemma Telescope(ts: seq<nat>, output: nat, x: nat)
    requires ts != [] && x <= output
    ensures Cost(ts[0], x) + MultiCost(ts[1..], output - x) <= MultiCost(ts, output)
  {
    var a, b := Quarters(ts[0], x), Quarters(Sum(ts[1..]), output - x);
    assert a + b == Quarters(Sum(ts), output);
    if ts[1..] == [] {
      assert Sum(ts) == ts[0] && |ts| == 1;
    }
  }

  ghost function SumCosts(ts: seq<nat>, xs: seq<nat>): nat
    requires |ts| == |xs|
  {
    if ts == [] then 0 else Cost(ts[0], xs[0]) + SumCosts(ts[1..], xs[1..])
  }

  /** The bound covers every way of dividing the output tokens over independently rounded requests. */
  lemma {:induction false} MultiCostBounds(ts: seq<nat>, xs: seq<nat>, output: nat)
    requires |ts| == |xs| && Sum(xs) <= output
    ensures SumCosts(ts, xs) <= MultiCost(ts, output)
  {
    if ts != [] {
      MultiCostBounds(ts[1..], xs[1..], output - xs[0]);
      Telescope(ts, output, xs[0]);
    }
  }

  /** Rounding every request up adds at most three quarters of a unit for each of them. */
  lemma {:induction false} RoundingLoss(ts: seq<nat>, xs: seq<nat>)
    requires |ts| == |xs|
    ensures 4 * SumCosts(ts, xs) <= Quarters(Sum(ts), Sum(xs)) + 3 * |ts|
  {
    if ts != [] { RoundingLoss(ts[1..], xs[1..]); }
  }

  /** These requests cost exactly what the multi-batch bound allows. */
  ghost predicate Reaches(ts: seq<nat>, xs: seq<nat>, output: nat) {
    |ts| == |xs| && Sum(xs) <= output && SumCosts(ts, xs) == MultiCost(ts, output)
  }

  lemma ReachedByFew(ts: seq<nat>, xs: seq<nat>, output: nat)
    requires ts != [] && Reaches(ts, xs, output)
    ensures |ts| <= 4
  {
    RoundingLoss(ts, xs);
    assert Quarters(Sum(ts), Sum(xs)) <= Quarters(Sum(ts), output);
  }

  /** One more request without output. */
  lemma OneMore(n: nat, ts: seq<nat>, xs: seq<nat>) returns (us: seq<nat>, ys: seq<nat>)
    requires |ts| == |xs|
    ensures us == [n] + ts && ys == [0] + xs && |us| == |ys|
    ensures Sum(us) == n + Sum(ts) && Sum(ys) == Sum(xs)
    ensures SumCosts(us, ys) == Cost(n, 0) + SumCosts(ts, xs)
  {
    us, ys := [n] + ts, [0] + xs;
    assert us[1..] == ts && ys[1..] == xs;
  }

  lemma FewReach(n: nat)
    requires 0 < n <= 4
    ensures exists ts, xs, output :: |ts| == n && Reaches(ts, xs, output)
  {
    var ts, xs := OneMore(if n == 1 || n == 4 then 3 else 2, [], []);
    if n > 1 { ts, xs := OneMore(if n == 2 then 2 else 3, ts, xs); }
    if n > 2 { ts, xs := OneMore(3, ts, xs); }
    if n > 3 { ts, xs := OneMore(3, ts, xs); }
    assert |ts| == n && Reaches(ts, xs, 0);
  }

  /** The bound can be reached exactly for up to four batches: only for these is it tight. */
  lemma TightExactly(n: nat)
    requires n > 0
    ensures (exists ts, xs, output :: |ts| == n && Reaches(ts, xs, output)) <==> n <= 4
  {
    forall ts, xs, output | |ts| == n && Reaches(ts, xs, output) ensures n <= 4 { ReachedByFew(ts, xs, output); }
    if n <= 4 { FewReach(n); }
  }

  lemma {:induction false} SumDrop(ts: seq<nat>, i: nat)
    requires i < |ts|
    ensures Sum(ts[i..]) == ts[i] + Sum(ts[i + 1..])
    ensures Sum(ts[i..]) <= Sum(ts)
  {
    assert ts[i..][1..] == ts[i + 1..];
    if i > 0 {
      SumDrop(ts[1..], i - 1);
      assert ts[1..][i - 1..] == ts[i..];
    } else {
      assert ts[0..] == ts;
    }
  }

  /** `protectedOutputTokenCap`; `None` where the source throws. */
  function OutputCap(total: int, accounted: int, floors: seq<nat>, index: nat): (r: Option<nat>)
    ensures r.Some? ==> index < |floors| && floors[index] <= r.value &&
                        accounted + r.value + Sum(floors[index + 1..]) == total
  {
    if !SafeNat(total) || !SafeNat(accounted) || index >= |floors| ||
       (exists f :: f in floors && (!SafeNat(f) || f < 1)) then None
    else
      var cap := total - accounted - Sum(floors[index + 1..]);
      if !SafeNat(Sum(floors)) || Sum(floors) > total || !SafeNat(cap) || cap < floors[index] then None
      else Some(cap)
  }

  /** While the accounted tokens leave every remaining floor, the cap exists. */
  lemma CapExists(total: nat, accounted: nat, floors: seq<nat>, index: nat)
    requires SafeNat(total) && index < |floors| && Sum(floors) <= total
    requires forall f :: f in floors ==> 1 <= f
    requires accounted + Sum(floors[index..]) <= total
    ensures OutputCap(total, accounted, floors, index).Some?
  {
    SumDrop(floors, index);
    forall f | f in floors ensures SafeNat(f) {
      var k :| 0 <= k < |floors| && floors[k] == f;
      SumDrop(floors, k);
    }
  }
}
