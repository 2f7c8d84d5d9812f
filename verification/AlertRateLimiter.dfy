/** The alert limiter: a sixty-second ceiling with critical eviction, and a ten-second coalescing window per key. */
module AlertRateLimiter {
  import opened Wrappers
  import opened Decimals
  import opened SlidingWindow
  import opened Counting

  const ALERT_GLOBAL_CEILING_PER_MIN := 30
  const ALERT_GLOBAL_WINDOW_MS := 60_000
  const ALERT_COALESCE_WINDOW_MS := 10_000

  datatype Severity = INFO | WARN | CRITICAL

  datatype AlertType =
    | POSITION_OPENED | POSITION_CLOSED | ORDER_REJECTED_TERMINAL | RISK_HALT_ENGAGED | MODEL_DIVERGENCE_ENGAGED
    | OPERATOR_HALT | OPERATOR_RESUME | BOOT_SCHEMA_GATE_FAILED | RECONCILIATION_DRIFT_UNRESOLVED
    | UNHANDLED_EXCEPTION | DAILY_PNL_SUMMARY | BOOT_ENGINE_STARTED | MARKET_STRESS_RESUMED

  /** `symbol` is the payload's `data.symbol`; the rest of `data` plays no part here. */
  datatype AlertPayload = AlertPayload(kind: AlertType, severity: Severity, title: string, body: string, symbol: Option<string>)
  {
    predicate IsCritical() {
      severity == CRITICAL
    }
  }

  datatype CoalesceBucket = CoalesceBucket(firstAt: int, lastAt: int, count: nat, latest: AlertPayload)

  /** Only two alert types coalesce; a missing or empty symbol falls into one shared bucket per type. */
  function CoalesceKeyOf(payload: AlertPayload): Option<string> {
    if payload.kind != ORDER_REJECTED_TERMINAL && payload.kind != RECONCILIATION_DRIFT_UNRESOLVED then None
    else
      var name := if payload.kind == ORDER_REJECTED_TERMINAL then "order_rejected_terminal" else "reconciliation_drift_unresolved";
      if payload.symbol.None? || |payload.symbol.value| == 0 then Some(name + ":GLOBAL") else Some(name + ":" + payload.symbol.value)
  }

  function AppendCoalesceSuffix(payload: AlertPayload, coalescedN: nat): AlertPayload {
    if coalescedN == 0 then payload
    else payload.(body := payload.body + " (coalesced " + FromNat(coalescedN) + " more in last 10s)")
  }

  // --- the specification: a log of every alert offered and what became of it ---

  datatype Outcome = Sent | CeilingDropped | Coalesced

  datatype Event = Event(key: Option<string>, critical: bool, at: int, outcome: Outcome)

  function SentTimes(log: seq<Event>): (times: seq<int>) {
    if log == [] then []
    else SentTimes(log[..|log| - 1]) + if log[|log| - 1].outcome.Sent? then [log[|log| - 1].at] else []
  }

  /** The messages sent in the last sixty seconds, oldest first. */
  function SentInWindow(log: seq<Event>, now: int): seq<int> {
    Prune(SentTimes(log), now - ALERT_GLOBAL_WINDOW_MS)
  }

  /** When the key's coalescing window was last opened: its last event that was not itself coalesced. */
  function Anchor(log: seq<Event>, key: string): Option<int> {
    if log == [] then None
    else
      var last := log[|log| - 1];
      if last.key == Some(key) && !last.outcome.Coalesced? then Some(last.at) else Anchor(log[..|log| - 1], key)
  }

  /** How many alerts of the key were coalesced since its window was opened. */
  function CoalescedSince(log: seq<Event>, key: string): nat {
    if log == [] then 0
    else
      var last := log[|log| - 1];
      if last.key != Some(key) then CoalescedSince(log[..|log| - 1], key)
      else if last.outcome.Coalesced? then CoalescedSince(log[..|log| - 1], key) + 1 else 0
  }

  function DroppedCount(log: seq<Event>): nat {
    if log == [] then 0 else DroppedCount(log[..|log| - 1]) + if log[|log| - 1].outcome.CeilingDropped? then 1 else 0
  }

  predicate InCoalesceWindow(log: seq<Event>, key: Option<string>, now: int) {
    key.Some? && Anchor(log, key.value).Some? && now - Anchor(log, key.value).value < ALERT_COALESCE_WINDOW_MS
  }

  /** What becomes of an alert, judged from the whole log. */
  function Decide(log: seq<Event>, key: Option<string>, critical: bool, now: int): Outcome {
    if !critical && InCoalesceWindow(log, key, now) then Coalesced
    else if !critical && |SentInWindow(log, now)| >= ALERT_GLOBAL_CEILING_PER_MIN then CeilingDropped
    else Sent
  }

  /** The number shown in the suffix: only a critical alert ever carries one. */
  function SuffixCount(log: seq<Event>, key: Option<string>, critical: bool): nat {
    if critical && key.Some? then CoalescedSince(log, key.value) else 0
  }

  ghost predicate Chronological(log: seq<Event>) {
    forall i, j :: 0 <= i <= j < |log| ==> log[i].at <= log[j].at
  }

  /** Every outcome in the log is the one the specification dictates at that point. */
  ghost predicate Decided(log: seq<Event>) {
    forall i :: 0 <= i < |log| ==> log[i].outcome == Decide(log[..i], log[i].key, log[i].critical, log[i].at)
  }

  // --- memory against the specification ---

  function LastN(values: seq<int>, n: nat): seq<int> {
    if |values| <= n then values else values[|values| - n..]
  }

  /** The bounded array: the last thirty of the messages sent in the window ending at `now`. */
  ghost predicate HoldsLastThirty(timestamps: seq<int>, log: seq<Event>, now: int) {
    timestamps == LastN(SentInWindow(log, now), ALERT_GLOBAL_CEILING_PER_MIN)
  }

  ghost predicate BucketsAgree(buckets: map<string, CoalesceBucket>, log: seq<Event>) {
    forall key: string ::
      && (key in buckets <==> Anchor(log, key).Some?)
      && (key in buckets ==> buckets[key].firstAt == Anchor(log, key).value && buckets[key].count == 1 + CoalescedSince(log, key))
  }

  lemma {:induction false} SentTimesOrdered(log: seq<Event>)
    requires Chronological(log)
    ensures NonDecreasing(SentTimes(log))
    ensures forall i :: 0 <= i < |SentTimes(log)| ==> SentTimes(log)[i] <= log[|log| - 1].at
  {
    if log != [] {
      SentTimesOrdered(log[..|log| - 1]);
    }
  }

  lemma SentTimesSnoc(log: seq<Event>, next: Event)
    ensures SentTimes(log + [next]) == if next.outcome.Sent? then SentTimes(log) + [next.at] else SentTimes(log)
  {
    assert (log + [next])[..|log|] == log;
  }

  /** Dropping expired entries from the front of the bounded array keeps it the last thirty of the later window. */
  lemma EvictionAgrees(timestamps: seq<int>, log: seq<Event>, early: int, late: int)
    requires Chronological(log) && early <= late
    requires HoldsLastThirty(timestamps, log, early)
    ensures NonDecreasing(timestamps)
    ensures HoldsLastThirty(Prune(timestamps, late - ALERT_GLOBAL_WINDOW_MS), log, late)
  {
    SentTimesOrdered(log);
    LastOfPruned(SentTimes(log), early - ALERT_GLOBAL_WINDOW_MS, late - ALERT_GLOBAL_WINDOW_MS);
    var start := PruneIsSuffix(SentTimes(log), early - ALERT_GLOBAL_WINDOW_MS);
  }

  lemma LastOfPruned(sent: seq<int>, early: int, late: int)
    requires NonDecreasing(sent) && early <= late
    ensures Prune(LastN(Prune(sent, early), ALERT_GLOBAL_CEILING_PER_MIN), late) == LastN(Prune(sent, late), ALERT_GLOBAL_CEILING_PER_MIN)
  {
    var before := PruneIsSuffix(sent, early);
    PruneTwice(sent, early, late);
    PruneOfLast(sent[before..], late, ALERT_GLOBAL_CEILING_PER_MIN);
  }

  lemma PruneOfLast(values: seq<int>, threshold: int, n: nat)
    requires NonDecreasing(values)
    ensures Prune(LastN(values, n), threshold) == LastN(Prune(values, threshold), n)
  {
    var offset := if |values| <= n then 0 else |values| - n;
    var head, tail := values[..offset], values[offset..];
    assert values == head + tail && tail == LastN(values, n);
    PruneAppend(head, tail, threshold);
    var start := PruneIsSuffix(values, threshold);
    if start <= offset {
      PruneKeepsAll(tail, threshold);
    } else {
      PruneDropsAll(head, threshold);
    }
  }

  /** Recording a send, evicting the oldest slot first when the array is full. */
  function Push(timestamps: seq<int>, now: int): seq<int> {
    (if |timestamps| >= ALERT_GLOBAL_CEILING_PER_MIN then timestamps[1..] else timestamps) + [now]
  }

  lemma PushAgrees(timestamps: seq<int>, log: seq<Event>, next: Event)
    requires HoldsLastThirty(timestamps, log, next.at) && next.outcome.Sent?
    ensures HoldsLastThirty(Push(timestamps, next.at), log + [next], next.at)
  {
    SentTimesSnoc(log, next);
    PruneAppend(SentTimes(log), [next.at], next.at - ALERT_GLOBAL_WINDOW_MS);
  }

  lemma UnsentAgrees(timestamps: seq<int>, log: seq<Event>, next: Event)
    requires HoldsLastThirty(timestamps, log, next.at) && !next.outcome.Sent?
    ensures HoldsLastThirty(timestamps, log + [next], next.at)
  {
    SentTimesSnoc(log, next);
  }

  lemma LogSnoc(log: seq<Event>, next: Event, key: string)
    ensures var grown := log + [next];
            && Anchor(grown, key) == (if next.key == Some(key) && !next.outcome.Coalesced? then Some(next.at) else Anchor(log, key))
            && CoalescedSince(grown, key) == (if next.key != Some(key) then CoalescedSince(log, key)
                                              else if next.outcome.Coalesced? then CoalescedSince(log, key) + 1 else 0)
            && DroppedCount(grown) == DroppedCount(log) + if next.outcome.CeilingDropped? then 1 else 0
  {
    assert (log + [next])[..|log|] == log;
  }

  /** The bucket map after an event of `key` that opened its window, or was coalesced into it. */
  lemma BucketsAfter(buckets: map<string, CoalesceBucket>, log: seq<Event>, next: Event, bucket: CoalesceBucket)
    requires BucketsAgree(buckets, log) && next.key.Some?
    requires next.outcome.Coalesced? ==> next.key.value in buckets && bucket.firstAt == buckets[next.key.value].firstAt && bucket.count == buckets[next.key.value].count + 1
    requires !next.outcome.Coalesced? ==> bucket.firstAt == next.at && bucket.count == 1
    ensures BucketsAgree(buckets[next.key.value := bucket], log + [next])
  {
    forall key: string
      ensures key in buckets[next.key.value := bucket] <==> Anchor(log + [next], key).Some?
      ensures key in buckets[next.key.value := bucket] ==> buckets[next.key.value := bucket][key].firstAt == Anchor(log + [next], key).value
                                                           && buckets[next.key.value := bucket][key].count == 1 + CoalescedSince(log + [next], key)
    {
      LogSnoc(log, next, key);
    }
  }

  lemma BucketsUnkeyed(buckets: map<string, CoalesceBucket>, log: seq<Event>, next: Event)
    requires BucketsAgree(buckets, log) && next.key.None?
    ensures BucketsAgree(buckets, log + [next])
  {
    forall key: string
      ensures key in buckets <==> Anchor(log + [next], key).Some?
      ensures key in buckets ==> buckets[key].firstAt == Anchor(log + [next], key).value && buckets[key].count == 1 + CoalescedSince(log + [next], key)
    {
      LogSnoc(log, next, key);
    }
  }

  // --- one step on the whole state ---

  ghost predicate Consistent(timestamps: seq<int>, buckets: map<string, CoalesceBucket>, log: seq<Event>, clock: int) {
    && Chronological(log) && (log != [] ==> log[|log| - 1].at <= clock)
    && Decided(log)
    && HoldsLastThirty(timestamps, log, clock)
    && BucketsAgree(buckets, log)
  }

  lemma DecidedSnoc(log: seq<Event>, next: Event)
    requires Decided(log) && next.outcome == Decide(log, next.key, next.critical, next.at)
    ensures Decided(log + [next])
  {
    var grown := log + [next];
    forall i | 0 <= i < |grown|
      ensures grown[i].outcome == Decide(grown[..i], grown[i].key, grown[i].critical, grown[i].at)
    {
      assert grown[..i] == log[..i];
      assert log[..|log|] == log;
    }
  }

  function NewCoalesceBucket(now: int, payload: AlertPayload): CoalesceBucket {
    CoalesceBucket(now, now, 1, payload)
  }

  function Folded(bucket: CoalesceBucket, now: int, payload: AlertPayload): CoalesceBucket {
    bucket.(count := bucket.count + 1, lastAt := now, latest := payload)
  }

  /** The limiter's own tests, on its bounded state, give the full-log outcome and suffix. */
  lemma BucketDecides(timestamps: seq<int>, buckets: map<string, CoalesceBucket>, log: seq<Event>, key: Option<string>, critical: bool, now: int)
    requires Consistent(timestamps, buckets, log, now)
    ensures InCoalesceWindow(log, key, now) <==> key.Some? && key.value in buckets && now - buckets[key.value].firstAt < ALERT_COALESCE_WINDOW_MS
    ensures |timestamps| >= ALERT_GLOBAL_CEILING_PER_MIN <==> |SentInWindow(log, now)| >= ALERT_GLOBAL_CEILING_PER_MIN
    ensures key.Some? ==> CoalescedSince(log, key.value) == if key.value in buckets then buckets[key.value].count - 1 else 0
  {
    if key.Some? && key.value !in buckets {
      NeverCoalescedBeforeAnchor(log, key.value);
    }
  }

  lemma {:induction false} NeverCoalescedBeforeAnchor(log: seq<Event>, key: string)
    requires Decided(log) && Anchor(log, key).None?
    ensures CoalescedSince(log, key) == 0
  {
    if log != [] {
      var init, last := log[..|log| - 1], log[|log| - 1];
      assert forall i :: 0 <= i < |init| ==> init[..i] == log[..i];
      NeverCoalescedBeforeAnchor(init, key);
      assert last.outcome == Decide(init, last.key, last.critical, last.at);
    }
  }

  lemma StepConsistent(timestamps: seq<int>, buckets: map<string, CoalesceBucket>, log: seq<Event>, next: Event, payload: AlertPayload, after: map<string, CoalesceBucket>)
    requires Consistent(timestamps, buckets, log, next.at)
    requires next.outcome == Decide(log, next.key, next.critical, next.at)
    requires next.key.None? ==> after == buckets
    requires next.key.Some? && next.outcome.Coalesced? ==> next.key.value in buckets && after == buckets[next.key.value := Folded(buckets[next.key.value], next.at, payload)]
    requires next.key.Some? && !next.outcome.Coalesced? ==> after == buckets[next.key.value := NewCoalesceBucket(next.at, payload)]
    ensures Consistent(if next.outcome.Sent? then Push(timestamps, next.at) else timestamps, after, log + [next], next.at)
    ensures DroppedCount(log + [next]) == DroppedCount(log) + if next.outcome.CeilingDropped? then 1 else 0
  {
    hide Decided, BucketsAgree, HoldsLastThirty;
    LogSnoc(log, next, "");
    DecidedSnoc(log, next);
    if next.key.Some? {
      BucketsAfter(buckets, log, next, after[next.key.value]);
    } else {
      BucketsUnkeyed(buckets, log, next);
    }
    if next.outcome.Sent? {
      PushAgrees(timestamps, log, next);
    } else {
      UnsentAgrees(timestamps, log, next);
    }
  }

  class AlertRateLimiter {
    var globalTimestamps: seq<int>
    var coalesceBuckets: map<string, CoalesceBucket>
    var suppressedSinceLastSend: nat
    ghost var log: seq<Event>
    ghost var consumed: nat
    ghost var clock: int

    ghost predicate Valid()
      reads this
    {
      && Consistent(globalTimestamps, coalesceBuckets, log, clock)
      && suppressedSinceLastSend + consumed == DroppedCount(log)
    }

    constructor (ghost startedAt: int)
      ensures Valid() && log == [] && consumed == 0 && clock == startedAt
    {
      globalTimestamps, coalesceBuckets, suppressedSinceLastSend := [], map[], 0;
      log, consumed, clock := [], 0, startedAt;
    }

    /** The alert is sent, annotated or not, or dropped exactly as the full log dictates. */
    method Admit(payload: AlertPayload, now: int) returns (sent: Option<AlertPayload>)
      requires Valid() && clock <= now
      modifies this
      ensures Valid() && clock == now && consumed == old(consumed)
      ensures var key := CoalesceKeyOf(payload);
              var outcome := Decide(old(log), key, payload.IsCritical(), now);
              && log == old(log) + [Event(key, payload.IsCritical(), now, outcome)]
              && sent == (if outcome.Sent? then Some(AppendCoalesceSuffix(payload, SuffixCount(old(log), key, payload.IsCritical()))) else None)
      ensures payload.severity == CRITICAL ==> sent.Some?
      ensures sent.Some? && payload.severity != CRITICAL ==> sent.value == payload
    {
      hide Consistent, InCoalesceWindow, SentInWindow, CoalescedSince, DroppedCount, Anchor, CoalesceKeyOf;
      EvictExpiredGlobal(now);
      var key, isCritical := CoalesceKeyOf(payload), payload.IsCritical();
      ghost var next := Event(key, isCritical, now, Decide(log, key, isCritical, now));
      ghost var evicted, buckets := globalTimestamps, coalesceBuckets;
      BucketDecides(evicted, buckets, log, key, isCritical, now);
      sent := None;
      var suppress := false;
      if key.Some? && !isCritical {
        suppress := TryCoalesce(key.value, payload, now);
      }
      if !suppress {
        if |globalTimestamps| >= ALERT_GLOBAL_CEILING_PER_MIN && !isCritical {
          suppressedSinceLastSend := suppressedSinceLastSend + 1;
        } else {
          if |globalTimestamps| >= ALERT_GLOBAL_CEILING_PER_MIN {
            globalTimestamps := globalTimestamps[1..];
          }
          globalTimestamps := globalTimestamps + [now];
          if key.Some? {
            var suffixCount := if key.value in coalesceBuckets then coalesceBuckets[key.value].count - 1 else 0;
            sent := Some(AppendCoalesceSuffix(payload, suffixCount));
            coalesceBuckets := coalesceBuckets[key.value := NewCoalesceBucket(now, payload)];
          } else {
            sent := Some(payload);
          }
        }
      }
      StepConsistent(evicted, buckets, log, next, payload, coalesceBuckets);
      log := log + [next];
    }

    /** The first alert of a key, or one past its window, opens a new window; any other is folded into the open one. */
    method TryCoalesce(key: string, payload: AlertPayload, now: int) returns (suppress: bool)
      modifies this`coalesceBuckets
      ensures suppress <==> key in old(coalesceBuckets) && now - old(coalesceBuckets)[key].firstAt < ALERT_COALESCE_WINDOW_MS
      ensures coalesceBuckets == old(coalesceBuckets)[key := if suppress then Folded(old(coalesceBuckets)[key], now, payload) else NewCoalesceBucket(now, payload)]
    {
      if key !in coalesceBuckets || now - coalesceBuckets[key].firstAt >= ALERT_COALESCE_WINDOW_MS {
        coalesceBuckets := coalesceBuckets[key := NewCoalesceBucket(now, payload)];
        return false;
      }
      coalesceBuckets := coalesceBuckets[key := Folded(coalesceBuckets[key], now, payload)];
      return true;
    }

    method EvictExpiredGlobal(now: int)
      requires Valid() && clock <= now
      modifies this`globalTimestamps, this`clock
      ensures Valid() && clock == now
    {
      var cutoff := now - ALERT_GLOBAL_WINDOW_MS;
      EvictionAgrees(globalTimestamps, log, clock, now);
      while |globalTimestamps| > 0 && globalTimestamps[0] <= cutoff
        invariant Prune(globalTimestamps, cutoff) == Prune(old(globalTimestamps), cutoff)
        invariant NonDecreasing(globalTimestamps)
        decreases |globalTimestamps|
      {
        globalTimestamps := globalTimestamps[1..];
      }
      PruneKeepsAll(globalTimestamps, cutoff);
      clock := now;
    }

    method ConsumeSuppressedCount() returns (n: nat)
      requires Valid()
      modifies this`suppressedSinceLastSend, this`consumed
      ensures Valid() && suppressedSinceLastSend == 0
      ensures n == old(suppressedSinceLastSend) && consumed == old(consumed) + n
    {
      n := suppressedSinceLastSend;
      suppressedSinceLastSend := 0;
      consumed := consumed + n;
    }
  }

  // --- what the specification promises over whole runs ---

  lemma {:induction false} AnchorAfter(log: seq<Event>, i: nat, key: string)
    requires Chronological(log) && i < |log| && log[i].key == Some(key) && !log[i].outcome.Coalesced?
    ensures Anchor(log, key).Some? && log[i].at <= Anchor(log, key).value
  {
    if i < |log| - 1 {
      AnchorAfter(log[..|log| - 1], i, key);
    }
  }

  /** A non-critical send of a coalescing alert comes at least ten seconds after every earlier send of its key. */
  lemma NonCriticalSendsAreSpaced(log: seq<Event>, i: nat, j: nat)
    requires Chronological(log) && Decided(log) && i < j < |log|
    requires log[i].key.Some? && log[i].key == log[j].key
    requires log[i].outcome.Sent? && log[j].outcome.Sent? && !log[j].critical
    ensures log[j].at - log[i].at >= ALERT_COALESCE_WINDOW_MS
  {
    AnchorAfter(log[..j], i, log[i].key.value);
  }

  function NonCriticalSends(log: seq<Event>): (times: seq<int>) {
    if log == [] then []
    else NonCriticalSends(log[..|log| - 1])
         + if log[|log| - 1].outcome.Sent? && !log[|log| - 1].critical then [log[|log| - 1].at] else []
  }

  lemma {:induction false} NonCriticalAreSent(log: seq<Event>, lo: int, hi: int)
    ensures CountIn(NonCriticalSends(log), lo, hi) <= CountIn(SentTimes(log), lo, hi)
  {
    if log != [] {
      var init, at := log[..|log| - 1], log[|log| - 1].at;
      NonCriticalAreSent(init, lo, hi);
      CountInAppend(NonCriticalSends(init), [at], lo, hi);
      CountInAppend(SentTimes(init), [at], lo, hi);
      assert NonCriticalSends(init) + [] == NonCriticalSends(init) && SentTimes(init) + [] == SentTimes(init);
    }
  }

  /** Whatever the critical alerts do, at most thirty non-critical messages go out in any sixty-second window. */
  lemma {:induction false} AtMostThirtyNonCritical(log: seq<Event>, lo: int)
    requires Decided(log)
    ensures CountIn(NonCriticalSends(log), lo, lo + ALERT_GLOBAL_WINDOW_MS) <= ALERT_GLOBAL_CEILING_PER_MIN
  {
    if log != [] {
      var init, last := log[..|log| - 1], log[|log| - 1];
      assert forall i :: 0 <= i < |init| ==> init[..i] == log[..i];
      AtMostThirtyNonCritical(init, lo);
      if last.outcome.Sent? && !last.critical {
        OneMoreNonCritical(init, last, lo);
      } else {
        assert NonCriticalSends(init) + [] == NonCriticalSends(init);
      }
    }
  }

  lemma OneMoreNonCritical(init: seq<Event>, last: Event, lo: int)
    requires CountIn(NonCriticalSends(init), lo, lo + ALERT_GLOBAL_WINDOW_MS) <= ALERT_GLOBAL_CEILING_PER_MIN
    requires |SentInWindow(init, last.at)| < ALERT_GLOBAL_CEILING_PER_MIN
    ensures CountIn(NonCriticalSends(init) + [last.at], lo, lo + ALERT_GLOBAL_WINDOW_MS) <= ALERT_GLOBAL_CEILING_PER_MIN
  {
    var hi := lo + ALERT_GLOBAL_WINDOW_MS;
    CountInAppend(NonCriticalSends(init), [last.at], lo, hi);
    if lo <= last.at < hi {
      NonCriticalAreSent(init, lo, hi);
      CountInPrune(SentTimes(init), last.at - ALERT_GLOBAL_WINDOW_MS, lo, hi);
    }
  }

  // --- what an outcome says, counted from the log ---

  /** Whether an earlier event of the key, not itself coalesced, lies less than ten seconds back. */
  predicate OpenedRecently(log: seq<Event>, key: string, now: int) {
    exists j :: 0 <= j < |log| && log[j].key == Some(key) && log[j].outcome != Coalesced && now - log[j].at < 10_000
  }

  lemma WindowIsOpen(log: seq<Event>, key: string, now: int)
    requires Chronological(log)
    ensures InCoalesceWindow(log, Some(key), now) <==> OpenedRecently(log, key, now)
  {
    if InCoalesceWindow(log, Some(key), now) {
      var j := OpenerIsLast(log, key);
    }
    if OpenedRecently(log, key, now) {
      var j :| 0 <= j < |log| && log[j].key == Some(key) && log[j].outcome != Coalesced && now - log[j].at < 10_000;
      AnchorAfter(log, j, key);
    }
  }

  lemma {:induction false} SentCount(log: seq<Event>, threshold: int)
    ensures |Prune(SentTimes(log), threshold)| == |set j: nat | j < |log| && log[j].outcome == Sent && threshold < log[j].at|
  {
    hide Prune;
    PruneKeepsAll([], threshold);
    if log == [] {
      assert (set j: nat | j < |log| && log[j].outcome == Sent && threshold < log[j].at) == {};
    } else {
      var init, last := log[..|log| - 1], log[|log| - 1];
      assert log == init + [last];
      SentCount(init, threshold);
      SentSetStep(init, last, threshold);
      SentTimesSnoc(init, last);
      PruneAppend(SentTimes(init), [last.at], threshold);
      PruneOne(last.at, threshold);
    }
  }

  lemma SentSetStep(init: seq<Event>, last: Event, threshold: int)
    ensures var log := init + [last];
            |set j: nat | j < |log| && log[j].outcome == Sent && threshold < log[j].at|
            == |set j: nat | j < |init| && init[j].outcome == Sent && threshold < init[j].at| + if last.outcome == Sent && threshold < last.at then 1 else 0
  {
    var log := init + [last];
    var before := set j: nat | j < |init| && init[j].outcome == Sent && threshold < init[j].at;
    var counted := set j: nat | j < |log| && log[j].outcome == Sent && threshold < log[j].at;
    OneMore(before, counted, |init|, last.outcome == Sent && threshold < last.at);
  }

  /**
   * Every outcome in numbers. A CRITICAL alert is sent. Any other is coalesced exactly when an event of its key that was
   * not coalesced lies less than ten seconds back, and otherwise dropped exactly when at least thirty messages of any
   * kind were sent less than a minute back.
   */
  lemma OutcomeExact(log: seq<Event>, i: nat)
    requires Chronological(log) && Decided(log) && i < |log|
    ensures var before, event := log[..i], log[i];
            var open := event.key.Some? && OpenedRecently(before, event.key.value, event.at);
            && (event.critical ==> event.outcome == Sent)
            && (!event.critical ==> (event.outcome == Coalesced <==> open))
            && (!event.critical ==>
                 (event.outcome == CeilingDropped
                  <==> !open && |set j: nat | j < |before| && before[j].outcome == Sent && event.at - 60_000 < before[j].at| >= 30))
  {
    hide Prune, OpenedRecently, InCoalesceWindow;
    var before, event := log[..i], log[i];
    assert event.outcome == Decide(before, event.key, event.critical, event.at);
    SentCount(before, event.at - 60_000);
    if event.key.Some? {
      WindowIsOpen(before, event.key.value, event.at);
    } else {
      NoKeyNoWindow(before, event.at);
    }
  }

  lemma NoKeyNoWindow(log: seq<Event>, now: int)
    ensures !InCoalesceWindow(log, None, now)
  {
  }

  /** Event `j` is the key's, and neither it nor any later event of the key opened a window. */
  predicate StillFolded(log: seq<Event>, key: string, j: nat) {
    j < |log| && log[j].key == Some(key) && forall k :: j <= k < |log| && log[k].key == Some(key) ==> log[k].outcome == Coalesced
  }

  /** The number a CRITICAL alert's suffix shows: the alerts of its key coalesced since the last one that was not. */
  lemma {:induction false} SuffixInNumbers(log: seq<Event>, key: string)
    ensures CoalescedSince(log, key)
         == |set j: nat | j < |log| && StillFolded(log, key, j)|
  {
    var counted := set j: nat | j < |log| && StillFolded(log, key, j);
    if log == [] {
      assert counted == {};
    } else {
      var init, last := log[..|log| - 1], log[|log| - 1];
      var before := set j: nat | j < |init| && StillFolded(init, key, j);
      assert log == init + [last];
      SuffixInNumbers(init, key);
      SuffixSetStep(init, last, key, before, counted);
    }
  }

  lemma SuffixSetStep(init: seq<Event>, last: Event, key: string, before: set<nat>, counted: set<nat>)
    requires before == set j: nat | j < |init| && StillFolded(init, key, j)
    requires var log := init + [last];
             counted == set j: nat | j < |log| && StillFolded(log, key, j)
    ensures |counted| == if last.key != Some(key) then |before| else if last.outcome == Coalesced then |before| + 1 else 0
  {
    var log := init + [last];
    assert log[|init|] == last && forall k :: 0 <= k < |init| ==> log[k] == init[k];
    if last.key != Some(key) {
      assert counted == before;
    } else if last.outcome == Coalesced {
      OneMore(before, counted, |init|, true);
    } else {
      assert counted == {};
    }
  }

  /** The payload sent under a count: untouched for none, and otherwise with a suffix on its body and nothing else. */
  lemma SuffixedPayload(payload: AlertPayload, n: nat)
    ensures n == 0 ==> AppendCoalesceSuffix(payload, n) == payload
    ensures n > 0 ==> AppendCoalesceSuffix(payload, n).body == payload.body + " (coalesced " + FromNat(n) + " more in last 10s)"
    ensures var sent := AppendCoalesceSuffix(payload, n);
            sent.kind == payload.kind && sent.severity == payload.severity && sent.title == payload.title && sent.symbol == payload.symbol
  {
  }

  /** Which alerts share a window: those of one of the two coalescing types with one symbol, a missing or empty symbol being read as "GLOBAL". */
  lemma KeysExact(a: AlertPayload, b: AlertPayload)
    ensures CoalesceKeyOf(a).Some? <==> a.kind == ORDER_REJECTED_TERMINAL || a.kind == RECONCILIATION_DRIFT_UNRESOLVED
    ensures CoalesceKeyOf(a).Some? && CoalesceKeyOf(b).Some? ==>
              (CoalesceKeyOf(a) == CoalesceKeyOf(b)
               <==> a.kind == b.kind
                    && (if a.symbol.None? || a.symbol.value == "" then "GLOBAL" else a.symbol.value)
                       == (if b.symbol.None? || b.symbol.value == "" then "GLOBAL" else b.symbol.value))
  {
    if CoalesceKeyOf(a).Some? && CoalesceKeyOf(b).Some? {
      var x := if a.symbol.None? || a.symbol.value == "" then "GLOBAL" else a.symbol.value;
      var y := if b.symbol.None? || b.symbol.value == "" then "GLOBAL" else b.symbol.value;
      KeyText(a, x);
      KeyText(b, y);
      TextsExact(KindName(a.kind), KindName(b.kind), x, y);
    }
  }

  lemma TextsExact(p: string, q: string, x: string, y: string)
    requires p == q || (p != [] && q != [] && p[0] != q[0])
    ensures p + ":" + x == q + ":" + y <==> p == q && x == y
  {
    var s, t := p + ":" + x, q + ":" + y;
    assert s[|p| + 1..] == x && t[|q| + 1..] == y;
    if p != q {
      assert s[0] == p[0] && t[0] == q[0];
    }
  }

  function KindName(kind: AlertType): string {
    if kind == ORDER_REJECTED_TERMINAL then "order_rejected_terminal" else "reconciliation_drift_unresolved"
  }

  lemma KeyText(payload: AlertPayload, symbol: string)
    requires CoalesceKeyOf(payload).Some?
    requires symbol == if payload.symbol.None? || payload.symbol.value == "" then "GLOBAL" else payload.symbol.value
    ensures CoalesceKeyOf(payload).value == KindName(payload.kind) + ":" + symbol
    ensures KindName(payload.kind)[0] == if payload.kind == ORDER_REJECTED_TERMINAL then 'o' else 'r'
  {
    assert KindName(payload.kind) + ":" + "GLOBAL" == KindName(payload.kind) + ":GLOBAL";
  }

  // --- what opens a coalescing window ---

  /** The event that opened the key's window: its last one that was not itself coalesced. */
  function Opener(log: seq<Event>, key: string): Option<Event> {
    if log == [] then None
    else
      var last := log[|log| - 1];
      if last.key == Some(key) && !last.outcome.Coalesced? then Some(last) else Opener(log[..|log| - 1], key)
  }

  predicate SentFor(log: seq<Event>, i: nat, key: string) {
    i < |log| && log[i].key == Some(key) && log[i].outcome.Sent?
  }

  lemma {:induction false} OpenerIsLast(log: seq<Event>, key: string) returns (j: nat)
    requires Anchor(log, key).Some?
    ensures j < |log| && log[j].key == Some(key) && !log[j].outcome.Coalesced?
    ensures Opener(log, key) == Some(log[j]) && Anchor(log, key) == Some(log[j].at)
    ensures forall i :: j < i < |log| && log[i].key == Some(key) ==> log[i].outcome.Coalesced?
  {
    var init, last := log[..|log| - 1], log[|log| - 1];
    if last.key == Some(key) && !last.outcome.Coalesced? {
      j := |log| - 1;
    } else {
      j := OpenerIsLast(init, key);
      assert forall i :: j < i < |init| ==> log[i] == init[i];
    }
  }

  /** A coalesced alert repeats one that was sent within the last ten seconds exactly when the event that opened its window was sent, not dropped. */
  lemma CoalescedRepeatsASend(log: seq<Event>, key: string, now: int)
    requires Chronological(log) && Decided(log) && (log != [] ==> log[|log| - 1].at <= now)
    requires Decide(log, Some(key), false, now) == Coalesced
    ensures Opener(log, key).Some?
    ensures (exists i: nat :: SentFor(log, i, key) && now - log[i].at < ALERT_COALESCE_WINDOW_MS) <==> Opener(log, key).value.outcome.Sent?
  {
    var j := OpenerIsLast(log, key);
    if log[j].outcome.Sent? {
      assert SentFor(log, j, key);
    } else {
      assert log[j].outcome == Decide(log[..j], log[j].key, log[j].critical, log[j].at);
      forall i: nat | SentFor(log, i, key)
        ensures now - log[i].at >= ALERT_COALESCE_WINDOW_MS
      {
        assert i < j;
        assert log[..j][i] == log[i];
        AnchorAfter(log[..j], i, key);
      }
    }
  }

  /**
   * An alert dropped at the ceiling opens its key's window: for ten seconds every further non-critical alert of the key
   * is coalesced into it. None of them is sent, and none counts as suppressed.
   */
  lemma DroppedAlertSilencesItsKey(log: seq<Event>, key: string, at: int, more: seq<Event>)
    requires var grown := log + [Event(Some(key), false, at, CeilingDropped)] + more; Chronological(grown) && Decided(grown)
    requires forall i :: 0 <= i < |more| ==> more[i].at < at + ALERT_COALESCE_WINDOW_MS && (more[i].key == Some(key) ==> !more[i].critical)
    ensures forall i :: 0 <= i < |more| && more[i].key == Some(key) ==> more[i].outcome == Coalesced
    ensures DroppedFor(more, key) == 0
  {
    var grown := log + [Event(Some(key), false, at, CeilingDropped)] + more;
    forall i | 0 <= i < |more| && more[i].key == Some(key)
      ensures more[i].outcome == Coalesced
    {
      var g := |log| + 1 + i;
      assert grown[g] == more[i];
      assert grown[..g][|log|] == grown[|log|];
      AnchorAfter(grown[..g], |log|, key);
    }
    NoneDropped(more, key);
  }

  /** The key's own share of the ceiling drops. */
  function DroppedFor(log: seq<Event>, key: string): nat {
    if log == [] then 0
    else DroppedFor(log[..|log| - 1], key)
         + if log[|log| - 1].key == Some(key) && log[|log| - 1].outcome.CeilingDropped? then 1 else 0
  }

  lemma {:induction false} NoneDropped(log: seq<Event>, key: string)
    requires forall i :: 0 <= i < |log| && log[i].key == Some(key) ==> log[i].outcome == Coalesced
    ensures DroppedFor(log, key) == 0
  {
    if log != [] {
      NoneDropped(log[..|log| - 1], key);
    }
  }

  function Sends(k: nat): seq<Event> {
    seq(k, _ => Event(None, false, 0, Sent))
  }

  lemma {:induction false} SendsFit(k: nat)
    requires k <= ALERT_GLOBAL_CEILING_PER_MIN
    ensures SentTimes(Sends(k)) == seq(k, _ => 0) && Decided(Sends(k))
    ensures forall key: string :: Anchor(Sends(k), key).None?
  {
    if k > 0 {
      SendsFit(k - 1);
      var log, next := Sends(k - 1), Event(None, false, 0, Sent);
      assert Sends(k) == log + [next];
      PruneKeepsAll(SentTimes(log), 0 - ALERT_GLOBAL_WINDOW_MS);
      DecidedSnoc(log, next);
      SentTimesSnoc(log, next);
      forall key: string
        ensures Anchor(Sends(k), key).None?
      {
        LogSnoc(log, next, key);
      }
    }
  }

  /** A log the limiter reaches: thirty sends, then a coalescing alert that is dropped. The next one of its key is coalesced, and nothing of the key was ever sent. */
  lemma FirstAlertOfKeyIsLost(key: string)
    ensures var log := Sends(30) + [Event(Some(key), false, 1, CeilingDropped)];
            && Chronological(log) && Decided(log) && DroppedCount(log) == 1
            && Decide(log, Some(key), false, 2) == Coalesced
            && forall i: nat :: !SentFor(log, i, key)
  {
    var sends, drop := Sends(30), Event(Some(key), false, 1, CeilingDropped);
    SendsFit(30);
    PruneKeepsAll(SentTimes(sends), 1 - ALERT_GLOBAL_WINDOW_MS);
    assert Decide(sends, Some(key), false, 1) == CeilingDropped;
    DecidedSnoc(sends, drop);
    LogSnoc(sends, drop, key);
    NothingDropped(30);
  }

  lemma {:induction false} NothingDropped(k: nat)
    ensures DroppedCount(Sends(k)) == 0
  {
    if k > 0 {
      NothingDropped(k - 1);
      assert Sends(k)[..k - 1] == Sends(k - 1);
    }
  }
}
