/** The login limiter: two windows per source address and a global ceiling, with write-through persistence. */
module LoginRateLimiter {
  import opened SlidingWindow
  import opened Counting

  const MAX_HYDRATED_TIMESTAMPS := 40
  const GLOBAL_ROW_SOURCE_IP := "__GLOBAL__"
  const LOGIN_GLOBAL_ALERT_COALESCE_MS := 60_000

  datatype Scope = Burst | Sustained | Global

  datatype Attempt = Attempt(ip: string, at: int)

  datatype Verdict = Admitted | Throttled(scope: Scope, retryAfterSec: int)

  datatype IpWindow = IpWindow(burst: seq<int>, sustained: seq<int>)

  datatype RowKey = RowKey(sourceIp: string, scope: Scope)

  datatype StateRow = StateRow(timestampsMs: seq<int>, updatedAt: int)

  function WindowMs(scope: Scope): int {
    match scope case Burst => 10_000 case Sustained => 600_000 case Global => 60_000
  }

  function MaxAttempts(scope: Scope): nat {
    match scope case Burst => 5 case Sustained => 20 case Global => 200
  }

  // --- the specification: every attempt ever made, throttled or not, is remembered ---

  function ScopeTimes(log: seq<Attempt>, ip: string, scope: Scope): (times: seq<int>) {
    if log == [] then []
    else
      var last := log[|log| - 1];
      ScopeTimes(log[..|log| - 1], ip, scope) + if scope.Global? || last.ip == ip then [last.at] else []
  }

  function KeyOf(ip: string, scope: Scope): RowKey {
    RowKey(if scope.Global? then GLOBAL_ROW_SOURCE_IP else ip, scope)
  }

  /** What a limiter has seen: the timestamps it booted with, and every attempt since. */
  datatype History = History(base: map<RowKey, seq<int>>, log: seq<Attempt>)
  {
    function Then(next: Attempt): History {
      History(base, log + [next])
    }

    function Times(ip: string, scope: Scope): seq<int> {
      (if KeyOf(ip, scope) in base then base[KeyOf(ip, scope)] else []) + ScopeTimes(log, ip, scope)
    }
  }

  /** The history of a limiter that has seen every attempt itself. */
  function FullLog(log: seq<Attempt>): History {
    History(map[], log)
  }

  /** The attempts still inside the scope's window at `now`, oldest first. */
  function Live(h: History, ip: string, scope: Scope, now: int): seq<int> {
    Prune(h.Times(ip, scope), now - WindowMs(scope))
  }

  predicate Exceeds(h: History, ip: string, scope: Scope, now: int) {
    |Live(h, ip, scope, now)| > MaxAttempts(scope)
  }

  function ThrottledBy(live: seq<int>, scope: Scope, now: int): Verdict
    requires live != []
  {
    Throttled(scope, RetryAfterSec(live[0], WindowMs(scope), now))
  }

  /** The three checks in order, on lists that already hold the attempt being judged. */
  function Judge(burst: seq<int>, sustained: seq<int>, global: seq<int>, now: int): Verdict {
    if |burst| > MaxAttempts(Burst) then ThrottledBy(burst, Burst, now)
    else if |sustained| > MaxAttempts(Sustained) then ThrottledBy(sustained, Sustained, now)
    else if |global| > MaxAttempts(Global) then ThrottledBy(global, Global, now)
    else Admitted
  }

  /** The verdict on the last attempt of a history, itself included in every count. */
  function VerdictOf(h: History, ip: string, now: int): Verdict {
    Judge(Live(h, ip, Burst, now), Live(h, ip, Sustained, now), Live(h, ip, Global, now), now)
  }

  /** The verdict of a limiter that never forgets. */
  function FullLogVerdict(log: seq<Attempt>, ip: string, now: int): Verdict {
    VerdictOf(FullLog(log), ip, now)
  }

  ghost predicate Chronological(log: seq<Attempt>) {
    forall i, j :: 0 <= i <= j < |log| ==> log[i].at <= log[j].at
  }

  /** In order, and nothing newer than `now`. */
  ghost predicate UpTo(times: seq<int>, now: int) {
    NonDecreasing(times) && forall i :: 0 <= i < |times| ==> times[i] <= now
  }

  ghost predicate Ordered(h: History, now: int) {
    forall ip: string, scope: Scope :: UpTo(h.Times(ip, scope), now)
  }

  lemma ScopeTimesSnoc(log: seq<Attempt>, next: Attempt, ip: string, scope: Scope)
    ensures ScopeTimes(log + [next], ip, scope)
            == if scope.Global? || next.ip == ip then ScopeTimes(log, ip, scope) + [next.at] else ScopeTimes(log, ip, scope)
  {
    assert (log + [next])[..|log|] == log;
  }

  lemma NoTimes(ip: string, scope: Scope)
    ensures ScopeTimes([], ip, scope) == []
  {
  }

  lemma {:induction false} ScopeTimesAppend(log: seq<Attempt>, more: seq<Attempt>, ip: string, scope: Scope)
    ensures ScopeTimes(log + more, ip, scope) == ScopeTimes(log, ip, scope) + ScopeTimes(more, ip, scope)
  {
    hide ScopeTimes;
    if more == [] {
      NoTimes(ip, scope);
      assert log + more == log && ScopeTimes(log, ip, scope) + [] == ScopeTimes(log, ip, scope);
    } else {
      var init, last := more[..|more| - 1], more[|more| - 1];
      assert more == init + [last] && log + more == (log + init) + [last];
      ScopeTimesAppend(log, init, ip, scope);
      ScopeTimesSnoc(log + init, last, ip, scope);
      ScopeTimesSnoc(init, last, ip, scope);
    }
  }

  lemma {:induction false} ScopeTimesOrdered(log: seq<Attempt>, ip: string, scope: Scope)
    requires Chronological(log)
    ensures NonDecreasing(ScopeTimes(log, ip, scope))
    ensures forall i :: 0 <= i < |ScopeTimes(log, ip, scope)| ==> ScopeTimes(log, ip, scope)[i] <= log[|log| - 1].at
  {
    if log != [] {
      ScopeTimesOrdered(log[..|log| - 1], ip, scope);
    }
  }

  lemma TimesSnoc(h: History, next: Attempt, ip: string, scope: Scope)
    ensures h.Then(next).Times(ip, scope)
            == if scope.Global? || next.ip == ip then h.Times(ip, scope) + [next.at] else h.Times(ip, scope)
  {
    ScopeTimesSnoc(h.log, next, ip, scope);
  }

  lemma FullLogTimes(log: seq<Attempt>, ip: string, scope: Scope)
    ensures FullLog(log).Times(ip, scope) == ScopeTimes(log, ip, scope)
  {
    assert [] + ScopeTimes(log, ip, scope) == ScopeTimes(log, ip, scope);
  }

  lemma FullLogOrdered(log: seq<Attempt>, now: int)
    requires Chronological(log) && (log != [] ==> log[|log| - 1].at <= now)
    ensures Ordered(FullLog(log), now)
  {
    hide FullLog, UpTo;
    forall ip: string, scope: Scope
      ensures UpTo(FullLog(log).Times(ip, scope), now)
    {
      FullLogTimes(log, ip, scope);
      LogTimesUpTo(log, ip, scope, now);
    }
  }

  lemma LogTimesUpTo(log: seq<Attempt>, ip: string, scope: Scope, now: int)
    requires Chronological(log) && (log != [] ==> log[|log| - 1].at <= now)
    ensures UpTo(ScopeTimes(log, ip, scope), now)
  {
    ScopeTimesOrdered(log, ip, scope);
  }

  lemma OrderedSnoc(h: History, next: Attempt)
    requires Ordered(h, next.at)
    ensures Ordered(h.Then(next), next.at)
  {
    hide UpTo;
    forall ip: string, scope: Scope
      ensures UpTo(h.Then(next).Times(ip, scope), next.at)
    {
      assert UpTo(h.Times(ip, scope), next.at);
      TimesSnoc(h, next, ip, scope);
      UpToSnoc(h.Times(ip, scope), next.at);
    }
  }

  lemma UpToSnoc(times: seq<int>, at: int)
    requires UpTo(times, at)
    ensures UpTo(times + [at], at)
  {
  }

  // --- memory against the specification ---

  function Stored(perIp: map<string, IpWindow>, globalWindow: seq<int>, ip: string, scope: Scope): seq<int> {
    if scope.Global? then globalWindow
    else if ip !in perIp then []
    else if scope.Burst? then perIp[ip].burst else perIp[ip].sustained
  }

  ghost predicate Agrees(perIp: map<string, IpWindow>, globalWindow: seq<int>, h: History, now: int) {
    forall ip: string, scope: Scope ::
      Prune(Stored(perIp, globalWindow, ip, scope), now - WindowMs(scope)) == Live(h, ip, scope, now)
  }

  lemma AgreesLater(perIp: map<string, IpWindow>, globalWindow: seq<int>, h: History, early: int, late: int)
    requires Agrees(perIp, globalWindow, h, early) && early <= late
    ensures Agrees(perIp, globalWindow, h, late)
  {
    forall ip: string, scope: Scope
      ensures Prune(Stored(perIp, globalWindow, ip, scope), late - WindowMs(scope)) == Live(h, ip, scope, late)
    {
      PruneAgreeLater(Stored(perIp, globalWindow, ip, scope), h.Times(ip, scope),
                      early - WindowMs(scope), late - WindowMs(scope));
    }
  }

  /** One scope's list after an attempt is recorded: the pruned list with the attempt at its end. */
  function Recorded(perIp: map<string, IpWindow>, globalWindow: seq<int>, ip: string, scope: Scope, now: int): seq<int> {
    Prune(Stored(perIp, globalWindow, ip, scope), now - WindowMs(scope)) + [now]
  }

  function RecordIp(perIp: map<string, IpWindow>, ip: string, now: int): map<string, IpWindow> {
    perIp[ip := IpWindow(Recorded(perIp, [], ip, Burst, now), Recorded(perIp, [], ip, Sustained, now))]
  }

  lemma RecordedIsLive(perIp: map<string, IpWindow>, globalWindow: seq<int>, h: History, ip: string, scope: Scope, now: int)
    requires Agrees(perIp, globalWindow, h, now)
    ensures Recorded(perIp, globalWindow, ip, scope, now) == Live(h.Then(Attempt(ip, now)), ip, scope, now)
    ensures Prune(Recorded(perIp, globalWindow, ip, scope, now), now - WindowMs(scope)) == Recorded(perIp, globalWindow, ip, scope, now)
  {
    var times, threshold := h.Times(ip, scope), now - WindowMs(scope);
    TimesSnoc(h, Attempt(ip, now), ip, scope);
    PruneAppend(times, [now], threshold);
    PruneTwice(times, threshold, threshold);
    PruneAppend(Prune(times, threshold), [now], threshold);
    assert Prune(Stored(perIp, globalWindow, ip, scope), threshold) == Live(h, ip, scope, now);
  }

  lemma AgreesAfterRecord(perIp: map<string, IpWindow>, globalWindow: seq<int>, h: History, ip: string, now: int)
    requires Agrees(perIp, globalWindow, h, now)
    ensures Agrees(RecordIp(perIp, ip, now), Recorded(perIp, globalWindow, ip, Global, now), h.Then(Attempt(ip, now)), now)
  {
    forall other: string, scope: Scope
      ensures Prune(Stored(RecordIp(perIp, ip, now), Recorded(perIp, globalWindow, ip, Global, now), other, scope), now - WindowMs(scope))
              == Live(h.Then(Attempt(ip, now)), other, scope, now)
    {
      if scope.Global? || other == ip {
        RecordedIsLive(perIp, globalWindow, h, ip, scope, now);
        SameScopeSameLive(h.Then(Attempt(ip, now)), other, ip, scope, now);
      } else {
        TimesSnoc(h, Attempt(ip, now), other, scope);
        assert Prune(Stored(perIp, globalWindow, other, scope), now - WindowMs(scope)) == Live(h, other, scope, now);
      }
    }
  }

  lemma SameScopeSameLive(h: History, a: string, b: string, scope: Scope, now: int)
    requires scope.Global? || a == b
    ensures Live(h, a, scope, now) == Live(h, b, scope, now)
  {
    GlobalIgnoresIp(h.log, a, b);
  }

  lemma {:induction false} GlobalIgnoresIp(log: seq<Attempt>, a: string, b: string)
    ensures ScopeTimes(log, a, Global) == ScopeTimes(log, b, Global)
  {
    if log != [] {
      GlobalIgnoresIp(log[..|log| - 1], a, b);
    }
  }

  // --- garbage collection ---

  /** One iteration of the collector: shorten both lists, and forget the address when both are empty. */
  function CollectOne(perIp: map<string, IpWindow>, ip: string, now: int): map<string, IpWindow>
    requires ip in perIp
  {
    var burst := Prune(perIp[ip].burst, now - WindowMs(Burst));
    var sustained := Prune(perIp[ip].sustained, now - WindowMs(Sustained));
    if |burst| == 0 && |sustained| == 0 then perIp - {ip} else perIp[ip := IpWindow(burst, sustained)]
  }

  /** Only live timestamps, and at least one of them. */
  predicate AllLive(window: IpWindow, now: int) {
    && Prune(window.burst, now - WindowMs(Burst)) == window.burst
    && Prune(window.sustained, now - WindowMs(Sustained)) == window.sustained
    && (window.burst != [] || window.sustained != [])
  }

  /** Every address the collector has already visited has live timestamps only, and at least one. */
  ghost predicate Collected(perIp: map<string, IpWindow>, pending: set<string>, now: int) {
    forall ip :: ip in perIp && ip !in pending ==> AllLive(perIp[ip], now)
  }

  lemma CollectOneCollects(perIp: map<string, IpWindow>, ip: string, pending: set<string>, now: int)
    requires ip in pending && pending <= perIp.Keys && Collected(perIp, pending, now)
    ensures var after := CollectOne(perIp, ip, now);
            Collected(after, pending - {ip}, now) && pending - {ip} <= after.Keys <= perIp.Keys
  {
    PruneTwice(perIp[ip].burst, now - WindowMs(Burst), now - WindowMs(Burst));
    PruneTwice(perIp[ip].sustained, now - WindowMs(Sustained), now - WindowMs(Sustained));
  }

  lemma CollectOneAgrees(perIp: map<string, IpWindow>, globalWindow: seq<int>, h: History, ip: string, now: int)
    requires ip in perIp && Agrees(perIp, globalWindow, h, now)
    ensures Agrees(CollectOne(perIp, ip, now), globalWindow, h, now)
  {
    var after := CollectOne(perIp, ip, now);
    forall other: string, scope: Scope
      ensures Prune(Stored(after, globalWindow, other, scope), now - WindowMs(scope)) == Live(h, other, scope, now)
    {
      if other == ip && !scope.Global? {
        PruneTwice(Stored(perIp, globalWindow, ip, scope), now - WindowMs(scope), now - WindowMs(scope));
      } else {
        assert Stored(after, globalWindow, other, scope) == Stored(perIp, globalWindow, other, scope);
      }
      assert Prune(Stored(perIp, globalWindow, other, scope), now - WindowMs(scope)) == Live(h, other, scope, now);
    }
  }

  lemma PruneGlobalAgrees(perIp: map<string, IpWindow>, globalWindow: seq<int>, h: History, now: int)
    requires Agrees(perIp, globalWindow, h, now)
    ensures Agrees(perIp, Prune(globalWindow, now - WindowMs(Global)), h, now)
  {
    var pruned := Prune(globalWindow, now - WindowMs(Global));
    PruneTwice(globalWindow, now - WindowMs(Global), now - WindowMs(Global));
    forall ip: string, scope: Scope
      ensures Prune(Stored(perIp, pruned, ip, scope), now - WindowMs(scope)) == Live(h, ip, scope, now)
    {
      assert Prune(Stored(perIp, globalWindow, ip, scope), now - WindowMs(scope)) == Live(h, ip, scope, now);
    }
  }

  /** The collection pass over every address. */
  method CollectAll(perIp: map<string, IpWindow>, ghost globalWindow: seq<int>, ghost h: History, now: int)
    returns (after: map<string, IpWindow>)
    requires Agrees(perIp, globalWindow, h, now)
    ensures Agrees(after, globalWindow, h, now) && Collected(after, {}, now)
    ensures after.Keys <= perIp.Keys
  {
    hide Agrees, Collected, CollectOne;
    after := perIp;
    var pending := perIp.Keys;
    NoneVisited(perIp, now);
    while pending != {}
      invariant pending <= after.Keys <= perIp.Keys
      invariant Agrees(after, globalWindow, h, now) && Collected(after, pending, now)
      decreases |pending|
    {
      var ip :| ip in pending;
      CollectOneAgrees(after, globalWindow, h, ip, now);
      CollectOneCollects(after, ip, pending, now);
      after := CollectOne(after, ip, now);
      pending := pending - {ip};
    }
  }

  lemma NoneVisited(perIp: map<string, IpWindow>, now: int)
    ensures Collected(perIp, perIp.Keys, now)
  {
  }

  // --- persistence ---

  function RowTimes(rows: map<RowKey, StateRow>, ip: string, scope: Scope): seq<int> {
    if KeyOf(ip, scope) in rows then rows[KeyOf(ip, scope)].timestampsMs else []
  }

  /** The durable rows agree with the history, are in order, and hold no timestamp newer than their last write. */
  ghost predicate RowsAgree(rows: map<RowKey, StateRow>, h: History, now: int) {
    && (forall ip: string, scope: Scope :: Prune(RowTimes(rows, ip, scope), now - WindowMs(scope)) == Live(h, ip, scope, now))
    && (forall key, i :: key in rows && 0 <= i < |rows[key].timestampsMs| ==> rows[key].timestampsMs[i] <= rows[key].updatedAt)
    && (forall key :: key in rows ==> NonDecreasing(rows[key].timestampsMs))
    && GlobalRowOnly(rows)
  }

  /** The global scope has one row. */
  ghost predicate GlobalRowOnly(rows: map<RowKey, StateRow>) {
    forall key :: key in rows && key.scope.Global? ==> key.sourceIp == GLOBAL_ROW_SOURCE_IP
  }

  lemma RowsAgreeLater(rows: map<RowKey, StateRow>, h: History, early: int, late: int)
    requires RowsAgree(rows, h, early) && early <= late
    ensures RowsAgree(rows, h, late)
  {
    forall ip: string, scope: Scope
      ensures Prune(RowTimes(rows, ip, scope), late - WindowMs(scope)) == Live(h, ip, scope, late)
    {
      PruneAgreeLater(RowTimes(rows, ip, scope), h.Times(ip, scope), early - WindowMs(scope), late - WindowMs(scope));
    }
  }

  /** The three upserts of one attempt. */
  function RecordRows(rows: map<RowKey, StateRow>, ip: string, burst: seq<int>, sustained: seq<int>, global: seq<int>, now: int): map<RowKey, StateRow> {
    rows[KeyOf(ip, Burst) := StateRow(burst, now)]
        [KeyOf(ip, Sustained) := StateRow(sustained, now)]
        [KeyOf(ip, Global) := StateRow(global, now)]
  }

  lemma RowsAgreeAfterRecord(rows: map<RowKey, StateRow>, h: History, ip: string, now: int)
    requires RowsAgree(rows, h, now) && Ordered(h, now)
    ensures RowsAgree(RecordRowsOf(rows, h.Then(Attempt(ip, now)), ip, now), h.Then(Attempt(ip, now)), now)
  {
    hide Live, Prune, RowTimes, Ordered;
    OrderedSnoc(h, Attempt(ip, now));
    var grown := h.Then(Attempt(ip, now));
    var after := RecordRowsOf(rows, grown, ip, now);
    forall other: string, scope: Scope
      ensures Prune(RowTimes(after, other, scope), now - WindowMs(scope)) == Live(grown, other, scope, now)
    {
      RowAfterRecord(rows, h, ip, now, other, scope);
    }
    forall key | key in after
      ensures NonDecreasing(after[key].timestampsMs)
      ensures forall i :: 0 <= i < |after[key].timestampsMs| ==> after[key].timestampsMs[i] <= after[key].updatedAt
    {
      if key == KeyOf(ip, key.scope) {
        LiveBounded(grown, ip, key.scope, now);
      }
    }
  }

  lemma LiveBounded(h: History, ip: string, scope: Scope, now: int)
    requires Ordered(h, now)
    ensures UpTo(Live(h, ip, scope, now), now)
  {
    assert UpTo(h.Times(ip, scope), now);
    var start := PruneIsSuffix(h.Times(ip, scope), now - WindowMs(scope));
  }

  /** The rows after the upserts of an attempt whose grown log is `grown`. */
  ghost function RecordRowsOf(rows: map<RowKey, StateRow>, grown: History, ip: string, now: int): map<RowKey, StateRow> {
    RecordRows(rows, ip, Live(grown, ip, Burst, now), Live(grown, ip, Sustained, now), Live(grown, ip, Global, now), now)
  }

  lemma RowAfterRecord(rows: map<RowKey, StateRow>, h: History, ip: string, now: int, other: string, scope: Scope)
    requires RowsAgree(rows, h, now)
    ensures var grown := h.Then(Attempt(ip, now));
            Prune(RowTimes(RecordRowsOf(rows, grown, ip, now), other, scope), now - WindowMs(scope)) == Live(grown, other, scope, now)
  {
    var grown := h.Then(Attempt(ip, now));
    if scope.Global? || other == ip {
      assert RowTimes(RecordRowsOf(rows, grown, ip, now), other, scope) == Live(grown, ip, scope, now);
      PruneTwice(grown.Times(ip, scope), now - WindowMs(scope), now - WindowMs(scope));
      SameScopeSameLive(grown, other, ip, scope, now);
    } else {
      TimesSnoc(h, Attempt(ip, now), other, scope);
      assert RowTimes(RecordRowsOf(rows, grown, ip, now), other, scope) == RowTimes(rows, other, scope);
    }
  }

  // --- hydration at boot ---

  function Clamped(timestamps: seq<int>): (kept: seq<int>)
    ensures kept <= timestamps && |kept| <= 40 && (|kept| < 40 ==> kept == timestamps)
  {
    if |timestamps| <= MAX_HYDRATED_TIMESTAMPS then timestamps else timestamps[..MAX_HYDRATED_TIMESTAMPS]
  }

  /** Only rows written within the sustained window are loaded. */
  function LoadAll(rows: map<RowKey, StateRow>, now: int): map<RowKey, StateRow> {
    map key | key in rows && rows[key].updatedAt > now - WindowMs(Sustained) :: rows[key]
  }

  function HydrateRow(perIp: map<string, IpWindow>, key: RowKey, timestamps: seq<int>): map<string, IpWindow> {
    var existing := if key.sourceIp in perIp then perIp[key.sourceIp] else IpWindow([], []);
    match key.scope
    case Global => perIp
    case Burst => perIp[key.sourceIp := existing.(burst := Clamped(timestamps))]
    case Sustained => perIp[key.sourceIp := existing.(sustained := Clamped(timestamps))]
  }

  function HydrateGlobal(globalWindow: seq<int>, key: RowKey, timestamps: seq<int>): seq<int> {
    if key.scope.Global? then globalWindow + Clamped(timestamps) else globalWindow
  }

  /** Memory after hydrating exactly the rows in `loaded`. */
  ghost predicate HoldsRows(perIp: map<string, IpWindow>, globalWindow: seq<int>, loaded: map<RowKey, StateRow>) {
    forall ip: string, scope: Scope :: Stored(perIp, globalWindow, ip, scope) == Clamped(RowTimes(loaded, ip, scope))
  }

  lemma HydrateRowHolds(perIp: map<string, IpWindow>, globalWindow: seq<int>, loaded: map<RowKey, StateRow>, key: RowKey, row: StateRow)
    requires HoldsRows(perIp, globalWindow, loaded) && key !in loaded
    requires key.scope.Global? ==> key.sourceIp == GLOBAL_ROW_SOURCE_IP
    ensures HoldsRows(HydrateRow(perIp, key, row.timestampsMs), HydrateGlobal(globalWindow, key, row.timestampsMs), loaded[key := row])
  {
    var perIp', global' := HydrateRow(perIp, key, row.timestampsMs), HydrateGlobal(globalWindow, key, row.timestampsMs);
    forall ip: string, scope: Scope
      ensures Stored(perIp', global', ip, scope) == Clamped(RowTimes(loaded[key := row], ip, scope))
    {
      assert Stored(perIp, globalWindow, ip, scope) == Clamped(RowTimes(loaded, ip, scope));
    }
  }

  method Hydrate(loaded: map<RowKey, StateRow>) returns (perIp: map<string, IpWindow>, globalWindow: seq<int>)
    requires GlobalRowOnly(loaded)
    ensures HoldsRows(perIp, globalWindow, loaded)
  {
    perIp, globalWindow := map[], [];
    var pending := loaded.Keys;
    ghost var done: map<RowKey, StateRow> := map[];
    while pending != {}
      invariant pending <= loaded.Keys
      invariant done == map key | key in loaded && key !in pending :: loaded[key]
      invariant HoldsRows(perIp, globalWindow, done)
      decreases |pending|
    {
      var key :| key in pending;
      HydrateRowHolds(perIp, globalWindow, done, key, loaded[key]);
      perIp, globalWindow := HydrateRow(perIp, key, loaded[key].timestampsMs), HydrateGlobal(globalWindow, key, loaded[key].timestampsMs);
      done := done[key := loaded[key]];
      pending := pending - {key};
    }
    assert done == loaded;
  }

  /** The history a limiter starts with: the loaded rows, clamped. */
  function Hydrated(rows: map<RowKey, StateRow>, bootMs: int): History {
    History(map key | key in LoadAll(rows, bootMs) :: Clamped(rows[key].timestampsMs), [])
  }

  /** Memory after hydration agrees with that history, whatever the rows hold. */
  lemma HydratedAgrees(rows: map<RowKey, StateRow>, perIp: map<string, IpWindow>, globalWindow: seq<int>, bootMs: int)
    requires HoldsRows(perIp, globalWindow, LoadAll(rows, bootMs))
    ensures Agrees(perIp, globalWindow, Hydrated(rows, bootMs), bootMs)
  {
    forall ip: string, scope: Scope
      ensures Prune(Stored(perIp, globalWindow, ip, scope), bootMs - WindowMs(scope)) == Live(Hydrated(rows, bootMs), ip, scope, bootMs)
    {
      assert Stored(perIp, globalWindow, ip, scope) == Clamped(RowTimes(LoadAll(rows, bootMs), ip, scope));
      HydratedTimes(rows, bootMs, ip, scope);
    }
  }

  ghost predicate ShortRows(rows: map<RowKey, StateRow>) {
    forall key :: key in rows ==> |rows[key].timestampsMs| <= MAX_HYDRATED_TIMESTAMPS
  }

  /** When no loaded row exceeds the clamp, memory agrees with the whole history the rows agree with. */
  lemma HydrationKeepsHistory(rows: map<RowKey, StateRow>, h: History, perIp: map<string, IpWindow>, globalWindow: seq<int>, bootMs: int)
    requires RowsAgree(rows, h, bootMs)
    requires HoldsRows(perIp, globalWindow, LoadAll(rows, bootMs)) && ShortRows(LoadAll(rows, bootMs))
    ensures Agrees(perIp, globalWindow, h, bootMs)
  {
    forall ip: string, scope: Scope
      ensures Prune(Stored(perIp, globalWindow, ip, scope), bootMs - WindowMs(scope)) == Live(h, ip, scope, bootMs)
    {
      var loaded, key := LoadAll(rows, bootMs), KeyOf(ip, scope);
      assert Stored(perIp, globalWindow, ip, scope) == Clamped(RowTimes(loaded, ip, scope));
      assert Prune(RowTimes(rows, ip, scope), bootMs - WindowMs(scope)) == Live(h, ip, scope, bootMs);
      if key in rows && key !in loaded {
        PruneDropsAll(rows[key].timestampsMs, bootMs - WindowMs(scope));
      }
    }
  }

  /** With no rows at all a boot starts the full log, and the rows agree with it. */
  lemma FirstBoot(bootMs: int)
    ensures Hydrated(map[], bootMs) == FullLog([])
    ensures Ordered(FullLog([]), bootMs) && RowsAgree(map[], FullLog([]), bootMs)
  {
    FullLogOrdered([], bootMs);
    assert Hydrated(map[], bootMs).base.Keys == {};
  }

  lemma HydratedTimes(rows: map<RowKey, StateRow>, bootMs: int, ip: string, scope: Scope)
    ensures Hydrated(rows, bootMs).Times(ip, scope) == Clamped(RowTimes(LoadAll(rows, bootMs), ip, scope))
  {
    assert Clamped(RowTimes(LoadAll(rows, bootMs), ip, scope)) + [] == Clamped(RowTimes(LoadAll(rows, bootMs), ip, scope));
  }

  lemma RecordedAreLive(perIp: map<string, IpWindow>, globalWindow: seq<int>, h: History, ip: string, now: int)
    requires Agrees(perIp, globalWindow, h, now)
    ensures Recorded(perIp, globalWindow, ip, Burst, now) == Live(h.Then(Attempt(ip, now)), ip, Burst, now)
    ensures Recorded(perIp, globalWindow, ip, Sustained, now) == Live(h.Then(Attempt(ip, now)), ip, Sustained, now)
    ensures Recorded(perIp, globalWindow, ip, Global, now) == Live(h.Then(Attempt(ip, now)), ip, Global, now)
  {
    RecordedIsLive(perIp, globalWindow, h, ip, Burst, now);
    RecordedIsLive(perIp, globalWindow, h, ip, Sustained, now);
    RecordedIsLive(perIp, globalWindow, h, ip, Global, now);
  }

  class LoginRateLimitStateRepository {
    var rows: map<RowKey, StateRow>

    constructor ()
      ensures rows == map[]
    {
      rows := map[];
    }

    /** The three write-through upserts of one attempt; a boot within the sustained window loads the lists written, and every other row as it was. */
    method UpsertAttempt(ip: string, burst: seq<int>, sustained: seq<int>, global: seq<int>, now: int)
      modifies this
      ensures rows == RecordRows(old(rows), ip, burst, sustained, global, now)
      ensures forall other: string, scope: Scope, bootMs: int :: bootMs < now + WindowMs(Sustained) ==>
                RowTimes(LoadAll(rows, bootMs), other, scope)
                == if scope.Global? then global
                   else if other != ip then RowTimes(LoadAll(old(rows), bootMs), other, scope)
                   else if scope.Burst? then burst else sustained
    {
      rows := rows[KeyOf(ip, Burst) := StateRow(burst, now)];
      rows := rows[KeyOf(ip, Sustained) := StateRow(sustained, now)];
      rows := rows[KeyOf(ip, Global) := StateRow(global, now)];
    }
  }

  class LoginRateLimiter {
    var perIp: map<string, IpWindow>
    var globalWindow: seq<int>
    var lastGlobalAlertAtMs: int
    var lastGcAtMs: int
    const persistence: LoginRateLimitStateRepository
    ghost var history: History
    ghost var clock: int

    /** Memory agrees with the history. */
    ghost predicate Valid()
      reads this
    {
      Agrees(perIp, globalWindow, history, clock)
    }

    /** The durable rows agree with it as well: a boot from them can start over. */
    ghost predicate Durable()
      reads this, persistence
    {
      Ordered(history, clock) && RowsAgree(persistence.rows, history, clock)
    }

    /**
     * Boot: memory is what the fresh rows hold, clamped, whatever that is. Where the rows agree with some history and no
     * loaded row exceeds the clamp, the limiter goes on with that whole history as if there had been no restart.
     */
    constructor Boot(persistence: LoginRateLimitStateRepository, bootMs: int, ghost h: History)
      requires GlobalRowOnly(persistence.rows)
      ensures this.persistence == persistence && clock == bootMs && Valid()
      ensures HoldsRows(perIp, globalWindow, LoadAll(persistence.rows, bootMs))
      ensures var kept := Ordered(h, bootMs) && RowsAgree(persistence.rows, h, bootMs) && ShortRows(LoadAll(persistence.rows, bootMs));
              history == (if kept then h else Hydrated(persistence.rows, bootMs)) && (kept ==> Durable())
    {
      var windows, global := Hydrate(LoadAll(persistence.rows, bootMs));
      HydratedAgrees(persistence.rows, windows, global, bootMs);
      ghost var kept := Ordered(h, bootMs) && RowsAgree(persistence.rows, h, bootMs) && ShortRows(LoadAll(persistence.rows, bootMs));
      if kept {
        HydrationKeepsHistory(persistence.rows, h, windows, global, bootMs);
      }
      perIp, globalWindow := windows, global;
      lastGlobalAlertAtMs, lastGcAtMs := 0, 0;
      this.persistence := persistence;
      history, clock := if kept then h else Hydrated(persistence.rows, bootMs), bootMs;
    }

    /**
     * Records the attempt, then checks. Every verdict is that of the whole history, and the global-ceiling alert
     * fires at most once per coalescing interval.
     */
    method Enforce(ip: string, now: int) returns (verdict: Verdict, alerted: bool)
      requires Valid() && clock <= now
      modifies this, persistence
      ensures Valid() && clock == now && (old(Durable()) ==> Durable())
      ensures history == old(history).Then(Attempt(ip, now))
      ensures verdict == VerdictOf(history, ip, now)
      ensures alerted <==> verdict.Throttled? && verdict.scope == Global
                           && now - old(lastGlobalAlertAtMs) >= LOGIN_GLOBAL_ALERT_COALESCE_MS
      ensures lastGlobalAlertAtMs == if alerted then now else old(lastGlobalAlertAtMs)
    {
      hide Agrees, RowsAgree, Ordered, Live;
      MaybeGc(now);
      var burst, sustained := Record(ip, now);
      verdict := Judge(burst, sustained, globalWindow, now);
      alerted := verdict.Throttled? && verdict.scope == Global && now - lastGlobalAlertAtMs >= LOGIN_GLOBAL_ALERT_COALESCE_MS;
      if alerted {
        lastGlobalAlertAtMs := now;
      }
    }

    /** Stores the pruned lists with this attempt appended, in memory and in the three durable rows. */
    method Record(ip: string, now: int) returns (burst: seq<int>, sustained: seq<int>)
      requires Valid() && clock == now
      modifies this`perIp, this`globalWindow, this`history, persistence
      ensures Valid() && (old(Durable()) ==> Durable())
      ensures history == old(history).Then(Attempt(ip, now))
      ensures burst == Live(history, ip, Burst, now) && sustained == Live(history, ip, Sustained, now)
      ensures globalWindow == Live(history, ip, Global, now)
      ensures persistence.rows == RecordRows(old(persistence.rows), ip, burst, sustained, globalWindow, now)
    {
      hide Agrees, Live, Recorded, RowsAgree, Ordered;
      MemoryAfterRecord(perIp, globalWindow, history, ip, now);
      RecordedAreLive(perIp, globalWindow, history, ip, now);
      DurableAfterRecord(persistence.rows, history, ip, now);
      burst, sustained := Recorded(perIp, globalWindow, ip, Burst, now), Recorded(perIp, globalWindow, ip, Sustained, now);
      globalWindow := Recorded(perIp, globalWindow, ip, Global, now);
      perIp := perIp[ip := IpWindow(burst, sustained)];
      history := history.Then(Attempt(ip, now));
      persistence.UpsertAttempt(ip, burst, sustained, globalWindow, now);
    }

    /** Collects when the interval has passed, and only then; no verdict at `now` or later can see what it drops. */
    method MaybeGc(now: int)
      requires Valid() && clock <= now
      modifies this`perIp, this`globalWindow, this`lastGcAtMs, this`clock
      ensures Valid() && clock == now && (old(Durable()) ==> Durable())
      ensures now - old(lastGcAtMs) >= WindowMs(Sustained) ==>
                lastGcAtMs == now && Collected(perIp, {}, now) && globalWindow == Live(history, "", Global, now)
      ensures now - old(lastGcAtMs) < WindowMs(Sustained) ==>
                lastGcAtMs == old(lastGcAtMs) && perIp == old(perIp) && globalWindow == old(globalWindow)
    {
      hide Collected, Agrees, RowsAgree, Ordered;
      AgreesLater(perIp, globalWindow, history, clock, now);
      DurableLater(persistence.rows, history, clock, now);
      clock := now;
      if now - lastGcAtMs < WindowMs(Sustained) {
        return;
      }
      lastGcAtMs := now;
      perIp := CollectAll(perIp, globalWindow, history, now);
      GlobalAgrees(perIp, globalWindow, history, now);
      PruneGlobalAgrees(perIp, globalWindow, history, now);
      globalWindow := Prune(globalWindow, now - WindowMs(Global));
    }
  }

  lemma MemoryAfterRecord(perIp: map<string, IpWindow>, globalWindow: seq<int>, h: History, ip: string, now: int)
    requires Agrees(perIp, globalWindow, h, now)
    ensures Agrees(perIp[ip := IpWindow(Recorded(perIp, globalWindow, ip, Burst, now), Recorded(perIp, globalWindow, ip, Sustained, now))],
                   Recorded(perIp, globalWindow, ip, Global, now), h.Then(Attempt(ip, now)), now)
  {
    hide Agrees;
    AgreesAfterRecord(perIp, globalWindow, h, ip, now);
  }

  lemma GlobalAgrees(perIp: map<string, IpWindow>, globalWindow: seq<int>, h: History, now: int)
    requires Agrees(perIp, globalWindow, h, now)
    ensures Prune(globalWindow, now - WindowMs(Global)) == Live(h, "", Global, now)
  {
    assert Stored(perIp, globalWindow, "", Global) == globalWindow;
  }

  lemma DurableLater(rows: map<RowKey, StateRow>, h: History, early: int, late: int)
    requires early <= late
    ensures Ordered(h, early) && RowsAgree(rows, h, early) ==> Ordered(h, late) && RowsAgree(rows, h, late)
  {
    if Ordered(h, early) && RowsAgree(rows, h, early) {
      RowsAgreeLater(rows, h, early, late);
    }
  }

  lemma DurableAfterRecord(rows: map<RowKey, StateRow>, h: History, ip: string, now: int)
    ensures var grown := h.Then(Attempt(ip, now));
            Ordered(h, now) && RowsAgree(rows, h, now) ==> Ordered(grown, now) && RowsAgree(RecordRowsOf(rows, grown, ip, now), grown, now)
  {
    hide Ordered, RowsAgree;
    if Ordered(h, now) && RowsAgree(rows, h, now) {
      OrderedSnoc(h, Attempt(ip, now));
      RowsAgreeAfterRecord(rows, h, ip, now);
    }
  }

  // --- what a verdict says, counted from the log ---

  /**
   * The caller is admitted when no scope is exceeded. Otherwise it is told of the first scope that is, and to wait the
   * least positive number of whole seconds by which the oldest attempt live in that scope has left its window.
   */
  lemma VerdictExact(h: History, ip: string, now: int)
    ensures VerdictOf(h, ip, now).Admitted? <==> forall scope: Scope :: !Exceeds(h, ip, scope, now)
    ensures var verdict := VerdictOf(h, ip, now);
            verdict.Throttled? ==>
              && Exceeds(h, ip, verdict.scope, now)
              && (verdict.scope != Burst ==> !Exceeds(h, ip, Burst, now))
              && (verdict.scope == Global ==> !Exceeds(h, ip, Sustained, now))
              && forall n: int :: n >= 1 ==> (Live(h, ip, verdict.scope, now)[0] <= now + 1000 * n - WindowMs(verdict.scope) <==> n >= verdict.retryAfterSec)
  {
    hide Live;
    AdmittedInEveryScope(h, ip, now);
    var verdict := VerdictOf(h, ip, now);
    if verdict.Throttled? {
      forall n: int | n >= 1
        ensures Live(h, ip, verdict.scope, now)[0] <= now + 1000 * n - WindowMs(verdict.scope) <==> n >= verdict.retryAfterSec
      {
        RetryAfterExpiresOldest(Live(h, ip, verdict.scope, now)[0], WindowMs(verdict.scope), now, n);
      }
    }
  }

  lemma OwnSetStep(init: seq<Attempt>, last: Attempt, ip: string, threshold: int)
    ensures var log := init + [last];
            |set i: nat | i < |log| && log[i].ip == ip && threshold < log[i].at|
            == |set i: nat | i < |init| && init[i].ip == ip && threshold < init[i].at| + if last.ip == ip && threshold < last.at then 1 else 0
  {
    var log := init + [last];
    var before := set i: nat | i < |init| && init[i].ip == ip && threshold < init[i].at;
    var counted := set i: nat | i < |log| && log[i].ip == ip && threshold < log[i].at;
    OneMore(before, counted, |init|, last.ip == ip && threshold < last.at);
  }

  lemma {:induction false} OwnCount(log: seq<Attempt>, ip: string, scope: Scope, threshold: int)
    requires !scope.Global?
    ensures |Prune(ScopeTimes(log, ip, scope), threshold)| == |set i: nat | i < |log| && log[i].ip == ip && threshold < log[i].at|
  {
    hide Prune;
    PruneKeepsAll([], threshold);
    if log == [] {
      assert (set i: nat | i < |log| && log[i].ip == ip && threshold < log[i].at) == {};
    } else {
      var init, last := log[..|log| - 1], log[|log| - 1];
      assert log == init + [last];
      OwnCount(init, ip, scope, threshold);
      OwnSetStep(init, last, ip, threshold);
      ScopeTimesSnoc(init, last, ip, scope);
      PruneAppend(ScopeTimes(init, ip, scope), [last.at], threshold);
      PruneOne(last.at, threshold);
    }
  }

  lemma {:induction false} AllCount(log: seq<Attempt>, ip: string, threshold: int)
    ensures |Prune(ScopeTimes(log, ip, Global), threshold)| == |set i: nat | i < |log| && threshold < log[i].at|
  {
    hide Prune;
    var counted := set i: nat | i < |log| && threshold < log[i].at;
    PruneKeepsAll([], threshold);
    if log == [] {
      assert counted == {};
    } else {
      var init, last := log[..|log| - 1], log[|log| - 1];
      var before := set i: nat | i < |init| && threshold < init[i].at;
      AllCount(init, ip, threshold);
      PruneAppend(ScopeTimes(init, ip, Global), [last.at], threshold);
      PruneOne(last.at, threshold);
      OneMore(before, counted, |init|, threshold < last.at);
    }
  }

  /** Over a full log, in numbers: five attempts of an address in ten seconds, twenty in ten minutes, two hundred of anyone's in a minute. */
  lemma FullLogInNumbers(log: seq<Attempt>, ip: string, now: int)
    ensures FullLogVerdict(log, ip, now).Admitted?
            <==> && |set i: nat | i < |log| && log[i].ip == ip && now - 10_000 < log[i].at| <= 5
                 && |set i: nat | i < |log| && log[i].ip == ip && now - 600_000 < log[i].at| <= 20
                 && |set i: nat | i < |log| && now - 60_000 < log[i].at| <= 200
  {
    hide FullLog, ScopeTimes, Prune;
    FullLogTimes(log, ip, Burst);
    FullLogTimes(log, ip, Sustained);
    FullLogTimes(log, ip, Global);
    OwnCount(log, ip, Burst, now - 10_000);
    OwnCount(log, ip, Sustained, now - 600_000);
    AllCount(log, ip, now - 60_000);
  }

  /** The attempt counts for the scope: everyone's for the global one, the address's own for the others. */
  predicate CountsFor(attempt: Attempt, ip: string, scope: Scope) {
    scope == Global || attempt.ip == ip
  }

  lemma {:induction false} FirstLive(log: seq<Attempt>, ip: string, scope: Scope, threshold: int) returns (i: nat)
    requires Prune(ScopeTimes(log, ip, scope), threshold) != []
    ensures i < |log| && CountsFor(log[i], ip, scope) && threshold < log[i].at == Prune(ScopeTimes(log, ip, scope), threshold)[0]
    ensures forall j :: 0 <= j < i && CountsFor(log[j], ip, scope) ==> log[j].at <= threshold
  {
    var init, last := log[..|log| - 1], log[|log| - 1];
    PruneAppend(ScopeTimes(init, ip, scope), [last.at], threshold);
    assert ScopeTimes(init, ip, scope) + [] == ScopeTimes(init, ip, scope);
    if Prune(ScopeTimes(init, ip, scope), threshold) != [] {
      i := FirstLive(init, ip, scope, threshold);
    } else {
      i := |log| - 1;
      NoneLive(init, ip, scope, threshold);
    }
  }

  lemma {:induction false} NoneLive(log: seq<Attempt>, ip: string, scope: Scope, threshold: int)
    requires Prune(ScopeTimes(log, ip, scope), threshold) == []
    ensures forall j :: 0 <= j < |log| && CountsFor(log[j], ip, scope) ==> log[j].at <= threshold
  {
    if log != [] {
      var init, last := log[..|log| - 1], log[|log| - 1];
      PruneAppend(ScopeTimes(init, ip, scope), [last.at], threshold);
      assert ScopeTimes(init, ip, scope) + [] == ScopeTimes(init, ip, scope);
      NoneLive(init, ip, scope, threshold);
    }
  }

  /** The wait in numbers: the first attempt that still counts is out of its window after `n` seconds exactly when `n` is at least the reported wait. */
  lemma WaitInNumbers(log: seq<Attempt>, ip: string, now: int)
    requires FullLogVerdict(log, ip, now).Throttled?
    ensures var verdict := FullLogVerdict(log, ip, now);
            var windowMs := if verdict.scope == Burst then 10_000 else if verdict.scope == Sustained then 600_000 else 60_000;
            exists i: nat ::
              && i < |log| && CountsFor(log[i], ip, verdict.scope) && now - windowMs < log[i].at
              && (forall j :: 0 <= j < i && CountsFor(log[j], ip, verdict.scope) ==> log[j].at <= now - windowMs)
              && forall n: int :: n >= 1 ==> (log[i].at + windowMs <= now + 1000 * n <==> n >= verdict.retryAfterSec)
  {
    hide FullLog, ScopeTimes, Prune, Live, VerdictOf, Exceeds;
    var verdict := FullLogVerdict(log, ip, now);
    VerdictExact(FullLog(log), ip, now);
    FullLogTimes(log, ip, verdict.scope);
    LiveIsPruned(FullLog(log), ip, verdict.scope, now);
    var i := FirstLive(log, ip, verdict.scope, now - WindowMs(verdict.scope));
  }

  lemma LiveIsPruned(h: History, ip: string, scope: Scope, now: int)
    ensures Live(h, ip, scope, now) == Prune(h.Times(ip, scope), now - WindowMs(scope))
    ensures Exceeds(h, ip, scope, now) ==> Live(h, ip, scope, now) != []
  {
  }

  // --- what the reported wait means ---

  /** Until the reported oldest attempt leaves its window, every attempt of that caller is still throttled. */
  lemma RetryAfterIsALowerBound(log: seq<Attempt>, more: seq<Attempt>, ip: string, scope: Scope, now: int, later: int)
    requires Chronological(log + more)
    requires Exceeds(FullLog(log), ip, scope, now) && now <= later
    requires later < Live(FullLog(log), ip, scope, now)[0] + WindowMs(scope)
    ensures FullLogVerdict(log + more, ip, later).Throttled?
  {
    FullLogTimes(log, ip, scope);
    FullLogTimes(log + more, ip, scope);
    ScopeTimesAppend(log, more, ip, scope);
    assert Chronological(log) by {
      assert forall i :: 0 <= i < |log| ==> log[i] == (log + more)[i];
    }
    ScopeTimesOrdered(log, ip, scope);
    StaysFull(ScopeTimes(log, ip, scope), ScopeTimes(more, ip, scope), WindowMs(scope), now, later);
    assert Exceeds(FullLog(log + more), ip, scope, later);
  }

  lemma StaysFull(times: seq<int>, more: seq<int>, windowMs: int, now: int, later: int)
    requires NonDecreasing(times) && now <= later
    requires Prune(times, now - windowMs) != [] && later < Prune(times, now - windowMs)[0] + windowMs
    ensures |Prune(times + more, later - windowMs)| >= |Prune(times, now - windowMs)|
  {
    var start := PruneIsSuffix(times, now - windowMs);
    PruneTwice(times, now - windowMs, later - windowMs);
    PruneKeepsAll(times[start..], later - windowMs);
    PruneAppend(times, more, later - windowMs);
  }

  /** The scope has room for one attempt at `later`: all but max - 1 of the attempts live at `now` have expired by then. */
  predicate HasRoom(log: seq<Attempt>, ip: string, scope: Scope, now: int, later: int) {
    var live := Live(FullLog(log), ip, scope, now);
    |live| < MaxAttempts(scope) || live[|live| - MaxAttempts(scope)] <= later - WindowMs(scope)
  }

  /** A next attempt of the caller, with none of anyone's in between, is within a scope's limit exactly when the scope has room for it. */
  lemma QuietAttempt(log: seq<Attempt>, ip: string, scope: Scope, now: int, later: int)
    requires Chronological(log) && now <= later
    ensures Exceeds(FullLog(log + [Attempt(ip, later)]), ip, scope, later) <==> !HasRoom(log, ip, scope, now, later)
  {
    hide FullLog, ScopeTimes, Prune;
    var next := Attempt(ip, later);
    FullLogTimes(log, ip, scope);
    FullLogTimes(log + [next], ip, scope);
    ScopeTimesSnoc(log, next, ip, scope);
    ScopeTimesOrdered(log, ip, scope);
    RoomForOne(ScopeTimes(log, ip, scope), WindowMs(scope), MaxAttempts(scope), now, later);
  }

  lemma RoomForOne(times: seq<int>, windowMs: int, max: nat, now: int, later: int)
    requires NonDecreasing(times) && now <= later && windowMs > 0 && max > 0
    ensures var live := Prune(times, now - windowMs);
            |Prune(times + [later], later - windowMs)| <= max <==> |live| < max || live[|live| - max] <= later - windowMs
  {
    hide Prune;
    PruneTwice(times, now - windowMs, later - windowMs);
    PruneAppend(times, [later], later - windowMs);
    PruneKeepsAll([later], later - windowMs);
    var first := PruneIsSuffix(times, now - windowMs);
    LiveLeft(times[first..], max, later - windowMs);
  }

  lemma LiveLeft(live: seq<int>, max: nat, threshold: int)
    requires NonDecreasing(live) && max > 0
    ensures |Prune(live, threshold)| + 1 <= max <==> |live| < max || live[|live| - max] <= threshold
  {
    var start := PruneIsSuffix(live, threshold);
  }

  /**
   * What obeying the reported wait gains: a throttled caller that waits exactly that long, with no attempt in between, is
   * admitted exactly when every scope has room by then, and throttled again at every earlier whole second.
   */
  lemma ObeyingRetryAfter(log: seq<Attempt>, ip: string, now: int)
    requires Chronological(log) && log != [] && log[|log| - 1].at <= now
    requires FullLogVerdict(log, ip, now).Throttled?
    ensures var wait := FullLogVerdict(log, ip, now).retryAfterSec;
            var later := now + 1000 * wait;
            && (FullLogVerdict(log + [Attempt(ip, later)], ip, later).Admitted? <==> forall scope: Scope :: HasRoom(log, ip, scope, now, later))
            && forall n: int :: 1 <= n < wait ==> FullLogVerdict(log + [Attempt(ip, now + 1000 * n)], ip, now + 1000 * n).Throttled?
  {
    hide Live, HasRoom;
    var verdict := FullLogVerdict(log, ip, now);
    var later := now + 1000 * verdict.retryAfterSec;
    forall scope: Scope {
      QuietAttempt(log, ip, scope, now, later);
    }
    AdmittedInEveryScope(FullLog(log + [Attempt(ip, later)]), ip, later);
    forall n: int | 1 <= n < verdict.retryAfterSec
      ensures FullLogVerdict(log + [Attempt(ip, now + 1000 * n)], ip, now + 1000 * n).Throttled?
    {
      var oldest := Live(FullLog(log), ip, verdict.scope, now)[0];
      RetryAfterExpiresOldest(oldest, WindowMs(verdict.scope), now, n);
      RetryAfterIsALowerBound(log, [Attempt(ip, now + 1000 * n)], ip, verdict.scope, now, now + 1000 * n);
    }
  }

  lemma AdmittedInEveryScope(h: History, ip: string, now: int)
    ensures VerdictOf(h, ip, now).Admitted? <==> forall scope: Scope :: !Exceeds(h, ip, scope, now)
  {
    hide Live;
    assert VerdictOf(h, ip, now).Admitted? <==> !Exceeds(h, ip, Burst, now) && !Exceeds(h, ip, Sustained, now) && !Exceeds(h, ip, Global, now);
    OneOfThree(h, ip, now);
  }

  lemma OneOfThree(h: History, ip: string, now: int)
    ensures (forall scope: Scope :: !Exceeds(h, ip, scope, now))
            <==> !Exceeds(h, ip, Burst, now) && !Exceeds(h, ip, Sustained, now) && !Exceeds(h, ip, Global, now)
  {
    hide Exceeds;
    if !Exceeds(h, ip, Burst, now) && !Exceeds(h, ip, Sustained, now) && !Exceeds(h, ip, Global, now) {
      forall scope: Scope
        ensures !Exceeds(h, ip, scope, now)
      {
        match scope case Burst => case Sustained => case Global =>
      }
    }
  }

  /** `n` attempts of one caller, one second apart. */
  function OncePerSecond(ip: string, n: nat): seq<Attempt> {
    seq(n, i => Attempt(ip, 1000 * i))
  }

  lemma {:induction false} OncePerSecondTimes(ip: string, n: nat, scope: Scope)
    ensures ScopeTimes(OncePerSecond(ip, n), ip, scope) == seq(n, i => 1000 * i)
  {
    if n > 0 {
      OncePerSecondTimes(ip, n - 1, scope);
      assert OncePerSecond(ip, n) == OncePerSecond(ip, n - 1) + [Attempt(ip, 1000 * (n - 1))];
      ScopeTimesSnoc(OncePerSecond(ip, n - 1), Attempt(ip, 1000 * (n - 1)), ip, scope);
    }
  }

  /** Six attempts one second apart: the caller is told to wait five seconds, waits five seconds, and is throttled again. */
  lemma ObeyingRetryAfterIsThrottledAgain(ip: string)
    ensures var log := OncePerSecond(ip, 6);
            && FullLogVerdict(log, ip, 5000) == Throttled(Burst, 5)
            && FullLogVerdict(log + [Attempt(ip, 10_000)], ip, 10_000) == Throttled(Burst, 1)
  {
    hide Prune;
    var log, times := OncePerSecond(ip, 6), [0, 1000, 2000, 3000, 4000, 5000];
    OncePerSecondTimes(ip, 6, Burst);
    assert seq(6, i => 1000 * i) == times;
    FullLogTimes(log, ip, Burst);
    PruneKeepsAll(times, 5000 - 10_000);
    FullLogTimes(log + [Attempt(ip, 10_000)], ip, Burst);
    ScopeTimesSnoc(log, Attempt(ip, 10_000), ip, Burst);
    assert times + [10_000] == [0] + [1000, 2000, 3000, 4000, 5000, 10_000];
    PruneAppend([0], [1000, 2000, 3000, 4000, 5000, 10_000], 0);
    PruneDropsAll([0], 0);
    PruneKeepsAll([1000, 2000, 3000, 4000, 5000, 10_000], 0);
  }
}
