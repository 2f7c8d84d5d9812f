/** The budgeted model client: what it starts, what it spends, and how calls that overlap share one budget. */
module AiGateway {
  import opened Wrappers

  const ESTIMATED_USD_PER_CALL_FALLBACK := 0.02
  const LAST_ACTUAL_SAFETY_MULTIPLIER := 1.2

  datatype ModelHint = Opus | Sonnet

  datatype Config = Config(maxUsdPerRun: real, estimatedUsdPerCall: real)

  /** A rejected generation: what the client looks at to decide on a retry. */
  datatype Failure = Failure(retryable: bool, name: string)

  /** A generation that was sent and has not come back. */
  datatype Call = Call(hint: ModelHint, projected: real, isFallback: bool)

  datatype State = State(cumulativeUsd: real, lastActualUsd: Option<real>, pending: seq<Call>)

  /** What runs between two suspensions of the client: a request arrives, a pending generation returns, or it is rejected. */
  datatype Event =
    | Request(modelHint: Option<ModelHint>)
    | Served(index: nat, cost: Option<real>)
    | Rejected(index: nat, failure: Failure)

  datatype Outcome =
    | Sent(hint: ModelHint)
    | Value(usageUsd: real)
    | CapExceeded(cumulativeUsd: real, projectedUsd: real, capUsd: real)
    | Failed(failure: Failure)
    | NoSuchCall

  function Primary(modelHint: Option<ModelHint>): ModelHint {
    if modelHint.Some? then modelHint.value else Opus
  }

  function Fallback(hint: ModelHint): (other: ModelHint)
    ensures other != hint
  {
    if hint == Opus then Sonnet else Opus
  }

  predicate IsRetryable(failure: Failure) {
    failure.retryable || failure.name in {"AI_RetryError", "GatewayInternalServerError", "GatewayRateLimitError"}
  }

  /** The least amount that is no less than the estimate nor than one and a fifth of the last cost. */
  function Projected(config: Config, last: Option<real>): (projected: real)
    ensures projected >= config.estimatedUsdPerCall && (last.Some? ==> projected >= 1.2 * last.value)
    ensures projected == config.estimatedUsdPerCall || (last.Some? && projected == 1.2 * last.value)
  {
    if last.None? then config.estimatedUsdPerCall
    else
      var scaled := last.value * LAST_ACTUAL_SAFETY_MULTIPLIER;
      if scaled > config.estimatedUsdPerCall then scaled else config.estimatedUsdPerCall
  }

  predicate BudgetAllows(config: Config, s: State) {
    s.cumulativeUsd + Projected(config, s.lastActualUsd) <= config.maxUsdPerRun
  }

  function Actual(config: Config, cost: Option<real>): real {
    if cost.Some? then cost.value else config.estimatedUsdPerCall
  }

  function Without(pending: seq<Call>, i: nat): seq<Call>
    requires i < |pending|
  {
    pending[..i] + pending[i + 1..]
  }

  /** Send a generation if the budget allows it. */
  function Send(config: Config, s: State, hint: ModelHint, isFallback: bool): (State, Outcome) {
    var projected := Projected(config, s.lastActualUsd);
    if BudgetAllows(config, s) then (s.(pending := s.pending + [Call(hint, projected, isFallback)]), Sent(hint))
    else (s, CapExceeded(s.cumulativeUsd, projected, config.maxUsdPerRun))
  }

  function Step(config: Config, s: State, event: Event): (State, Outcome) {
    match event
    case Request(modelHint) => Send(config, s, Primary(modelHint), false)
    case Served(i, cost) =>
      if i >= |s.pending| then (s, NoSuchCall)
      else
        var actual := Actual(config, cost);
        var spent := s.cumulativeUsd + actual;
        (State(spent, Some(actual), Without(s.pending, i)),
         if spent > config.maxUsdPerRun then CapExceeded(spent, 0.0, config.maxUsdPerRun) else Value(actual))
    case Rejected(i, failure) =>
      if i >= |s.pending| then (s, NoSuchCall)
      else
        var call, rest := s.pending[i], s.(pending := Without(s.pending, i));
        if call.isFallback || !IsRetryable(failure) then (rest, Failed(failure))
        else Send(config, rest, Fallback(call.hint), true)
  }

  const Start := State(0.0, None, [])

  function Run(config: Config, s: State, events: seq<Event>): State {
    if events == [] then s
    else Step(config, Run(config, s, events[..|events| - 1]), events[|events| - 1]).0
  }

  // --- the client ---

  class AiGatewayClient {
    const config: Config
    var cumulativeUsd: real
    var lastActualUsd: Option<real>
    var pending: seq<Call>

    ghost function Abstract(): State
      reads this
    {
      State(cumulativeUsd, lastActualUsd, pending)
    }

    constructor (maxUsdPerRun: real, estimatedUsdPerCall: Option<real>)
      ensures config.maxUsdPerRun == maxUsdPerRun
      ensures config.estimatedUsdPerCall == if estimatedUsdPerCall.Some? then estimatedUsdPerCall.value else ESTIMATED_USD_PER_CALL_FALLBACK
      ensures Abstract() == Start
    {
      config := Config(maxUsdPerRun, if estimatedUsdPerCall.Some? then estimatedUsdPerCall.value else ESTIMATED_USD_PER_CALL_FALLBACK);
      cumulativeUsd := 0.0;
      lastActualUsd := None;
      pending := [];
    }

    method ProjectedNextCallUsd() returns (projected: real)
      ensures projected == Projected(config, lastActualUsd)
    {
      if lastActualUsd == None {
        return config.estimatedUsdPerCall;
      }
      projected := lastActualUsd.value * LAST_ACTUAL_SAFETY_MULTIPLIER;
      if config.estimatedUsdPerCall > projected {
        projected := config.estimatedUsdPerCall;
      }
    }

    /** The budget check and, where it passes, the call. */
    method AssertBudgetAllowsAndCall(hint: ModelHint, isFallback: bool) returns (outcome: Outcome)
      modifies this`pending
      ensures (Abstract(), outcome) == Send(config, old(Abstract()), hint, isFallback)
    {
      var projected := ProjectedNextCallUsd();
      if cumulativeUsd + projected > config.maxUsdPerRun {
        return CapExceeded(cumulativeUsd, projected, config.maxUsdPerRun);
      }
      pending := pending + [Call(hint, projected, isFallback)];
      return Sent(hint);
    }

    method RecordSpend(usd: real) returns (exceeded: bool)
      modifies this`cumulativeUsd
      ensures cumulativeUsd == old(cumulativeUsd) + usd && (exceeded <==> cumulativeUsd > config.maxUsdPerRun)
    {
      cumulativeUsd := cumulativeUsd + usd;
      exceeded := cumulativeUsd > config.maxUsdPerRun;
    }

    method GenerateStructured(modelHint: Option<ModelHint>) returns (outcome: Outcome)
      modifies this
      ensures (Abstract(), outcome) == Step(config, old(Abstract()), Request(modelHint))
    {
      outcome := AssertBudgetAllowsAndCall(Primary(modelHint), false);
    }

    /** The rest of `callModel`, once its generation has returned. */
    method OnServed(index: nat, cost: Option<real>) returns (outcome: Outcome)
      requires index < |pending|
      modifies this
      ensures (Abstract(), outcome) == Step(config, old(Abstract()), Served(index, cost))
    {
      var actualUsd := if cost.Some? then cost.value else config.estimatedUsdPerCall;
      pending := Without(pending, index);
      lastActualUsd := Some(actualUsd);
      var exceeded := RecordSpend(actualUsd);
      if exceeded {
        return CapExceeded(cumulativeUsd, 0.0, config.maxUsdPerRun);
      }
      return Value(actualUsd);
    }

    /** The `catch` of `generateStructured`, once a generation has been rejected. */
    method OnRejected(index: nat, failure: Failure) returns (outcome: Outcome)
      requires index < |pending|
      modifies this
      ensures (Abstract(), outcome) == Step(config, old(Abstract()), Rejected(index, failure))
    {
      var call := pending[index];
      pending := Without(pending, index);
      if call.isFallback || !IsRetryable(failure) {
        return Failed(failure);
      }
      outcome := AssertBudgetAllowsAndCall(Fallback(call.hint), true);
    }
  }

  // --- what every run keeps ---

  predicate CostsNonNegative(events: seq<Event>) {
    forall k :: 0 <= k < |events| ==> events[k].Served? && events[k].cost.Some? ==> events[k].cost.value >= 0.0
  }

  /** What the generations that returned during a run cost. */
  function Costs(config: Config, s: State, events: seq<Event>): real {
    if events == [] then 0.0
    else
      var front, last := events[..|events| - 1], events[|events| - 1];
      Costs(config, s, front)
      + if last.Served? && last.index < |Run(config, s, front).pending| then Actual(config, last.cost) else 0.0
  }

  /** The recorded total is the sum of the costs, whatever overlaps and whatever fails. */
  lemma {:induction false} SpendIsSumOfCosts(config: Config, s: State, events: seq<Event>)
    ensures Run(config, s, events).cumulativeUsd == s.cumulativeUsd + Costs(config, s, events)
  {
    if events != [] {
      SpendIsSumOfCosts(config, s, events[..|events| - 1]);
    }
  }

  predicate Sane(config: Config, s: State) {
    config.estimatedUsdPerCall >= 0.0 && config.maxUsdPerRun > 0.0 && s.cumulativeUsd >= 0.0
    && (s.lastActualUsd.Some? ==> s.lastActualUsd.value >= 0.0)
    && forall k :: 0 <= k < |s.pending| ==> 0.0 <= s.pending[k].projected <= config.maxUsdPerRun
  }

  lemma StepKeepsSane(config: Config, s: State, event: Event)
    requires Sane(config, s) && CostsNonNegative([event])
    ensures Sane(config, Step(config, s, event).0)
    ensures Step(config, s, event).0.cumulativeUsd >= s.cumulativeUsd
  {
    assert [event][0] == event;
  }

  lemma {:induction false} RunKeepsSane(config: Config, s: State, events: seq<Event>)
    requires Sane(config, s) && CostsNonNegative(events)
    ensures Sane(config, Run(config, s, events)) && Run(config, s, events).cumulativeUsd >= s.cumulativeUsd
  {
    if events != [] {
      var front, last := events[..|events| - 1], events[|events| - 1];
      RunKeepsSane(config, s, front);
      assert CostsNonNegative([last]);
      StepKeepsSane(config, Run(config, s, front), last);
    }
  }

  /** A generation is only ever sent while the spend so far and its projection fit into the cap. */
  lemma SentWithinBudget(config: Config, s: State, event: Event)
    ensures Step(config, s, event).1.Sent? ==>
              s.cumulativeUsd + Projected(config, s.lastActualUsd) <= config.maxUsdPerRun
              && Step(config, s, event).0.cumulativeUsd == s.cumulativeUsd
  {
  }

  /**
   * Exactly when a generation is sent, and on which model: on a request, or on the first rejection of one for a reason
   * worth a retry, if the spend plus the estimate, and plus one and a fifth of the last cost, fit into the cap.
   */
  lemma SentExactly(config: Config, s: State, event: Event)
    ensures var fits := s.cumulativeUsd + config.estimatedUsdPerCall <= config.maxUsdPerRun
                        && (s.lastActualUsd.Some? ==> s.cumulativeUsd + 1.2 * s.lastActualUsd.value <= config.maxUsdPerRun);
            && (event.Request? ==> (Step(config, s, event).1.Sent? <==> fits))
            && (event.Rejected? && event.index < |s.pending| ==>
                  (Step(config, s, event).1.Sent?
                   <==> fits && !s.pending[event.index].isFallback
                        && (event.failure.retryable || event.failure.name == "AI_RetryError"
                            || event.failure.name == "GatewayInternalServerError" || event.failure.name == "GatewayRateLimitError")))
            && (event.Served? ==> !Step(config, s, event).1.Sent?)
    ensures event.Request? && Step(config, s, event).1.Sent? ==>
              Step(config, s, event).1.hint == if event.modelHint == Some(Sonnet) then Sonnet else Opus
    ensures event.Rejected? && event.index < |s.pending| && Step(config, s, event).1.Sent? ==>
              Step(config, s, event).1.hint == if s.pending[event.index].hint == Sonnet then Opus else Sonnet
  {
  }

  /** What a generation that returns adds to the spend, and when its value is withheld. */
  lemma ServedExactly(config: Config, s: State, index: nat, cost: Option<real>)
    requires index < |s.pending|
    ensures var (after, outcome) := Step(config, s, Served(index, cost));
            var usd := if cost.Some? then cost.value else config.estimatedUsdPerCall;
            && after.cumulativeUsd - s.cumulativeUsd == usd && after.lastActualUsd == Some(usd) && |after.pending| == |s.pending| - 1
            && (outcome == Value(usd) <==> s.cumulativeUsd + usd <= config.maxUsdPerRun)
            && (outcome.CapExceeded? <==> s.cumulativeUsd + usd > config.maxUsdPerRun)
  {
  }

  /** Once the spend is over the cap nothing is sent again, in any continuation. */
  lemma NothingSentAfterOvershoot(config: Config, s: State, events: seq<Event>, event: Event)
    requires Sane(config, s) && CostsNonNegative(events) && s.cumulativeUsd > config.maxUsdPerRun
    ensures !Step(config, Run(config, s, events), event).1.Sent?
    ensures |Step(config, Run(config, s, events), event).0.pending| <= |Run(config, s, events).pending|
  {
    RunKeepsSane(config, s, events);
    SentWithinBudget(config, Run(config, s, events), event);
  }

  /** A request makes at most two generations; with no other call pending the second one is never refused by the budget check before it. */
  lemma RetryAloneIsSent(config: Config, s: State, modelHint: Option<ModelHint>, first: Failure, second: Failure)
    requires s.pending == [] && BudgetAllows(config, s) && IsRetryable(first)
    ensures var sent := Step(config, s, Request(modelHint)).0;
            var retried := Step(config, sent, Rejected(0, first));
            var settled := Step(config, retried.0, Rejected(0, second));
            retried.1 == Sent(Fallback(Primary(modelHint))) && settled.1 == Failed(second) && settled.0 == s
  {
    assert Without([Call(Primary(modelHint), Projected(config, s.lastActualUsd), false)], 0) == [];
    assert Without([Call(Fallback(Primary(modelHint)), Projected(config, s.lastActualUsd), true)], 0) == [];
  }

  // --- spend against the cap ---

  function Reserved(pending: seq<Call>): real {
    if pending == [] then 0.0 else Reserved(pending[..|pending| - 1]) + pending[|pending| - 1].projected
  }

  lemma {:induction false} ReservedWithout(pending: seq<Call>, i: nat)
    requires i < |pending|
    ensures Reserved(pending) == Reserved(Without(pending, i)) + pending[i].projected
  {
    var front, last := pending[..|pending| - 1], pending[|pending| - 1];
    if i == |pending| - 1 {
      assert Without(pending, i) == front;
    } else {
      ReservedWithout(front, i);
      assert Without(pending, i) == Without(front, i) + [last];
      assert (Without(front, i) + [last])[..|Without(front, i)|] == Without(front, i);
    }
  }

  lemma ReservedSnoc(pending: seq<Call>, call: Call)
    ensures Reserved(pending + [call]) == Reserved(pending) + call.projected
  {
    assert (pending + [call])[..|pending|] == pending;
  }

  /** `k` caps. */
  function Caps(config: Config, k: nat): real {
    if k == 0 then 0.0 else Caps(config, k - 1) + config.maxUsdPerRun
  }

  lemma {:induction false} CapsIsProduct(config: Config, k: nat)
    ensures Caps(config, k) == k as real * config.maxUsdPerRun
  {
    if k > 0 {
      CapsIsProduct(config, k - 1);
      OneMore((k - 1) as real, config.maxUsdPerRun);
    }
  }

  lemma OneMore(n: real, x: real)
    ensures n * x + x == (n + 1.0) * x
  {
  }

  lemma {:induction false} CapsGrow(config: Config, j: nat, k: nat)
    requires config.maxUsdPerRun > 0.0 && j <= k
    ensures Caps(config, j) <= Caps(config, k)
  {
    if j < k {
      CapsGrow(config, j, k - 1);
    }
  }

  lemma {:induction false} ReservedAtMostCaps(config: Config, pending: seq<Call>)
    requires forall k :: 0 <= k < |pending| ==> 0.0 <= pending[k].projected <= config.maxUsdPerRun
    ensures 0.0 <= Reserved(pending) <= Caps(config, |pending|)
  {
    if pending != [] {
      ReservedAtMostCaps(config, pending[..|pending| - 1]);
    }
  }

  /** A generation that returns costs no more than was projected for it, and no more than `k` are pending afterwards. */
  predicate WithinProjection(config: Config, s: State, event: Event, k: nat) {
    (event.Served? && event.index < |s.pending| ==> 0.0 <= Actual(config, event.cost) <= s.pending[event.index].projected)
    && |Step(config, s, event).0.pending| <= k
  }

  ghost predicate RunsWithinProjection(config: Config, s: State, events: seq<Event>, k: nat) {
    events == [] || (RunsWithinProjection(config, s, events[..|events| - 1], k)
                     && WithinProjection(config, Run(config, s, events[..|events| - 1]), events[|events| - 1], k))
  }

  /** Spend plus what is reserved for pending calls. */
  function Committed(s: State): real {
    s.cumulativeUsd + Reserved(s.pending)
  }

  lemma SendKeepsCommitted(config: Config, s: State, hint: ModelHint, isFallback: bool, k: nat)
    requires Sane(config, s) && Committed(s) <= Caps(config, k) && |Send(config, s, hint, isFallback).0.pending| <= k
    ensures Sane(config, Send(config, s, hint, isFallback).0) && Committed(Send(config, s, hint, isFallback).0) <= Caps(config, k)
  {
    if BudgetAllows(config, s) {
      var call := Call(hint, Projected(config, s.lastActualUsd), isFallback);
      ReservedSnoc(s.pending, call);
      ReservedAtMostCaps(config, s.pending);
      CapsGrow(config, |s.pending| + 1, k);
    }
  }

  lemma StepKeepsCommitted(config: Config, s: State, event: Event, k: nat)
    requires Sane(config, s) && Committed(s) <= Caps(config, k) && WithinProjection(config, s, event, k)
    ensures Sane(config, Step(config, s, event).0) && Committed(Step(config, s, event).0) <= Caps(config, k)
  {
    match event {
      case Request(modelHint) =>
        SendKeepsCommitted(config, s, Primary(modelHint), false, k);
      case Served(i, cost) =>
        if i < |s.pending| {
          ReservedWithout(s.pending, i);
        }
      case Rejected(i, failure) =>
        if i < |s.pending| {
          ReservedWithout(s.pending, i);
          if !s.pending[i].isFallback && IsRetryable(failure) {
            SendKeepsCommitted(config, s.(pending := Without(s.pending, i)), Fallback(s.pending[i].hint), true, k);
          }
        }
    }
  }

  lemma {:induction false} RunKeepsCommitted(config: Config, events: seq<Event>, k: nat)
    requires Sane(config, Start) && RunsWithinProjection(config, Start, events, k)
    ensures Sane(config, Run(config, Start, events)) && Committed(Run(config, Start, events)) <= Caps(config, k)
  {
    if events == [] {
      CapsGrow(config, 0, k);
    } else {
      RunKeepsCommitted(config, events[..|events| - 1], k);
      StepKeepsCommitted(config, Run(config, Start, events[..|events| - 1]), events[|events| - 1], k);
    }
  }

  /** If no generation costs more than its projection and at most `k` are ever pending, the spend never exceeds `k` caps; calls one at a time never exceed the cap, retries included. */
  lemma SpendIsBounded(config: Config, events: seq<Event>, k: nat)
    requires config.estimatedUsdPerCall >= 0.0 && config.maxUsdPerRun > 0.0 && RunsWithinProjection(config, Start, events, k)
    ensures Run(config, Start, events).cumulativeUsd <= k as real * config.maxUsdPerRun
    ensures k == 1 ==> Run(config, Start, events).cumulativeUsd <= config.maxUsdPerRun
  {
    RunKeepsCommitted(config, events, k);
    ReservedAtMostCaps(config, Run(config, Start, events).pending);
    CapsIsProduct(config, k);
  }

  function Requests(n: nat): seq<Event> {
    seq(n, _ => Request(None))
  }

  function Serves(n: nat, cost: real): seq<Event> {
    seq(n, _ => Served(0, Some(cost)))
  }

  /** The bound is reached: `k` requests that overlap are each checked against a total that holds none of the others. */
  lemma OverlappingCallsShareNothing(cap: real, k: nat)
    requires cap > 0.0
    ensures var config, events := Config(cap, cap), Requests(k) + Serves(k, cap);
            RunsWithinProjection(config, Start, events, k) && Run(config, Start, events).cumulativeUsd == k as real * cap
  {
    hide Run, RunsWithinProjection;
    var config := Config(cap, cap);
    OverlapServes(config, k, k);
    CapsIsProduct(config, k);
  }

  lemma {:induction false} OverlapRequests(config: Config, n: nat, k: nat)
    requires config.maxUsdPerRun == config.estimatedUsdPerCall > 0.0 && n <= k
    ensures Run(config, Start, Requests(n)) == State(0.0, None, seq(n, _ => Call(Opus, config.maxUsdPerRun, false)))
    ensures RunsWithinProjection(config, Start, Requests(n), k)
  {
    if n > 0 {
      OverlapRequests(config, n - 1, k);
      assert Requests(n)[..n - 1] == Requests(n - 1);
    }
  }

  lemma {:induction false} OverlapServes(config: Config, n: nat, k: nat)
    requires config.maxUsdPerRun == config.estimatedUsdPerCall > 0.0 && n <= k
    ensures var s := Run(config, Start, Requests(k) + Serves(n, config.maxUsdPerRun));
            s.cumulativeUsd == Caps(config, n) && s.pending == seq(k - n, _ => Call(Opus, config.maxUsdPerRun, false))
    ensures RunsWithinProjection(config, Start, Requests(k) + Serves(n, config.maxUsdPerRun), k)
  {
    hide Step, WithinProjection;
    if n == 0 {
      OverlapRequests(config, k, k);
      assert Requests(k) + Serves(0, config.maxUsdPerRun) == Requests(k);
    } else {
      OverlapServes(config, n - 1, k);
      var before := Requests(k) + Serves(n - 1, config.maxUsdPerRun);
      var events, served := Requests(k) + Serves(n, config.maxUsdPerRun), Served(0, Some(config.maxUsdPerRun));
      assert events == before + [served];
      assert events[..|events| - 1] == before;
      FirstServed(config, Run(config, Start, before), k - n + 1, k);
    }
  }

  lemma FirstServed(config: Config, s: State, n: nat, k: nat)
    requires 0 < n <= k && s.pending == seq(n, _ => Call(Opus, config.maxUsdPerRun, false)) && config.maxUsdPerRun > 0.0
    ensures var served := Served(0, Some(config.maxUsdPerRun));
            var after := Step(config, s, served).0;
            && after.cumulativeUsd == s.cumulativeUsd + config.maxUsdPerRun
            && after.pending == seq(n - 1, _ => Call(Opus, config.maxUsdPerRun, false)) && WithinProjection(config, s, served, k)
  {
  }
}
