/** What a restart of the login limiter can be seen to do: a row keeps its forty oldest timestamps, and the newer ones are lost. */
module LoginHydration {
  import opened SlidingWindow
  import opened LoginRateLimiter

  // --- one list against its clamp ---

  /** One scope's count at the last attempt of a continuation, after a history. */
  predicate Over(history: seq<int>, continuation: seq<int>, windowMs: int, max: nat)
    requires continuation != []
  {
    |Prune(history + continuation, continuation[|continuation| - 1] - windowMs)| > max
  }

  /** No continuation from `from` on tells the two histories apart. */
  ghost predicate SameCounts(a: seq<int>, b: seq<int>, windowMs: int, max: nat, from: int) {
    forall continuation: seq<int> :: continuation != [] && NonDecreasing(continuation) && from <= continuation[0]
      ==> (Over(a, continuation, windowMs, max) <==> Over(b, continuation, windowMs, max))
  }

  /** Nothing is dropped, or all of the row has expired at `from`, or the newest entry is no newer than the max-th newest one kept. */
  predicate ClampSafe(row: seq<int>, windowMs: int, max: nat, from: int) {
    || |row| <= MAX_HYDRATED_TIMESTAMPS
    || row[|row| - 1] <= from - windowMs
    || (0 < max <= MAX_HYDRATED_TIMESTAMPS && row[|row| - 1] <= row[MAX_HYDRATED_TIMESTAMPS - max])
  }

  /** From a boot at any time after the row's newest entry on, clamping it changes no count's verdict exactly when it is safe. */
  lemma ClampExact(row: seq<int>, windowMs: int, max: nat, from: int)
    requires NonDecreasing(row) && (row != [] ==> row[|row| - 1] <= from) && windowMs > 0 && max > 0
    ensures SameCounts(row, Clamped(row), windowMs, max, from) <==> ClampSafe(row, windowMs, max, from)
  {
    if ClampSafe(row, windowMs, max, from) {
      forall continuation: seq<int> | continuation != [] && NonDecreasing(continuation) && from <= continuation[0]
        ensures Over(row, continuation, windowMs, max) <==> Over(Clamped(row), continuation, windowMs, max)
      {
        ClampHidden(row, continuation, windowMs, max, from);
      }
    } else {
      var continuation := ClampExposed(row, windowMs, max, from);
      assert Over(row, continuation, windowMs, max) && !Over(Clamped(row), continuation, windowMs, max);
    }
  }

  lemma ClampHidden(row: seq<int>, continuation: seq<int>, windowMs: int, max: nat, from: int)
    requires NonDecreasing(row) && windowMs > 0 && max > 0 && ClampSafe(row, windowMs, max, from)
    requires continuation != [] && NonDecreasing(continuation) && from <= continuation[0]
    ensures Over(row, continuation, windowMs, max) <==> Over(Clamped(row), continuation, windowMs, max)
  {
    hide Prune;
    var t := continuation[|continuation| - 1] - windowMs;
    PruneAppend(row, continuation, t);
    PruneAppend(Clamped(row), continuation, t);
    LastIsAlive(continuation, t);
    ClampedOrEnough(row, windowMs, max, from, t);
  }

  /** At a threshold no earlier than boot, a safe row loses nothing to the clamp, or keeps `max` entries of what it still has. */
  lemma ClampedOrEnough(row: seq<int>, windowMs: int, max: nat, from: int, threshold: int)
    requires NonDecreasing(row) && max > 0 && ClampSafe(row, windowMs, max, from) && threshold >= from - windowMs
    ensures || Prune(Clamped(row), threshold) == Prune(row, threshold)
            || (Prune(Clamped(row), threshold) <= Prune(row, threshold) && |Prune(Clamped(row), threshold)| >= max)
  {
    if |row| > MAX_HYDRATED_TIMESTAMPS {
      if row[|row| - 1] <= threshold || row[MAX_HYDRATED_TIMESTAMPS - max] <= threshold {
        PruneDropsAll(row, threshold);
        PruneDropsAll(Clamped(row), threshold);
      } else {
        ClampKeepsEnough(row, threshold, max);
      }
    }
  }

  lemma ClampIsPrefix(row: seq<int>, threshold: int)
    ensures Prune(Clamped(row), threshold) <= Prune(row, threshold)
  {
    if |row| > MAX_HYDRATED_TIMESTAMPS {
      assert row == Clamped(row) + row[MAX_HYDRATED_TIMESTAMPS..];
      PruneAppend(Clamped(row), row[MAX_HYDRATED_TIMESTAMPS..], threshold);
    }
  }

  lemma ClampKeepsEnough(row: seq<int>, threshold: int, max: nat)
    requires NonDecreasing(row) && |row| > MAX_HYDRATED_TIMESTAMPS && 0 < max <= MAX_HYDRATED_TIMESTAMPS
    requires row[MAX_HYDRATED_TIMESTAMPS - max] > threshold
    ensures Prune(Clamped(row), threshold) <= Prune(row, threshold) && |Prune(Clamped(row), threshold)| >= max
  {
    ClampIsPrefix(row, threshold);
    var kept := PruneIsSuffix(Clamped(row), threshold);
    assert Clamped(row)[MAX_HYDRATED_TIMESTAMPS - max] == row[MAX_HYDRATED_TIMESTAMPS - max];
  }

  lemma LastIsAlive(values: seq<int>, threshold: int)
    requires values != [] && values[|values| - 1] > threshold
    ensures |Prune(values, threshold)| >= 1
  {
    var init, last := values[..|values| - 1], values[|values| - 1];
    assert values == init + [last];
    PruneAppend(init, [last], threshold);
  }

  lemma ClampLosesNewest(row: seq<int>, threshold: int)
    requires NonDecreasing(row) && |row| > MAX_HYDRATED_TIMESTAMPS && row[|row| - 1] > threshold
    ensures |Prune(row, threshold)| > |Prune(Clamped(row), threshold)|
  {
    assert row == Clamped(row) + row[MAX_HYDRATED_TIMESTAMPS..];
    PruneAppend(Clamped(row), row[MAX_HYDRATED_TIMESTAMPS..], threshold);
    LastIsAlive(row[MAX_HYDRATED_TIMESTAMPS..], threshold);
  }

  lemma ClampKeepsFewer(row: seq<int>, threshold: int, max: nat)
    requires NonDecreasing(row) && |row| > MAX_HYDRATED_TIMESTAMPS && max > 0
    requires max <= MAX_HYDRATED_TIMESTAMPS ==> row[MAX_HYDRATED_TIMESTAMPS - max] <= threshold
    ensures |Prune(Clamped(row), threshold)| < max
  {
    if max <= MAX_HYDRATED_TIMESTAMPS {
      var kept := PruneIsSuffix(Clamped(row), threshold);
      assert Clamped(row)[MAX_HYDRATED_TIMESTAMPS - max] == row[MAX_HYDRATED_TIMESTAMPS - max];
    }
  }

  /** The earliest threshold at which an unsafe row's clamp falls short of `max`. */
  function ExposingThreshold(row: seq<int>, windowMs: int, max: nat, from: int): int
    requires |row| > MAX_HYDRATED_TIMESTAMPS && max > 0
  {
    if max <= MAX_HYDRATED_TIMESTAMPS && row[MAX_HYDRATED_TIMESTAMPS - max] > from - windowMs then row[MAX_HYDRATED_TIMESTAMPS - max]
    else from - windowMs
  }

  lemma FallsShort(row: seq<int>, windowMs: int, max: nat, from: int, threshold: int)
    requires NonDecreasing(row) && max > 0 && |row| > MAX_HYDRATED_TIMESTAMPS
    requires ExposingThreshold(row, windowMs, max, from) <= threshold < row[|row| - 1]
    ensures |Prune(Clamped(row), threshold)| < max && |Prune(Clamped(row), threshold)| < |Prune(row, threshold)|
  {
    hide Prune;
    ClampLosesNewest(row, threshold);
    ClampKeepsFewer(row, threshold, max);
  }

  lemma ClampExposed(row: seq<int>, windowMs: int, max: nat, from: int) returns (continuation: seq<int>)
    requires NonDecreasing(row) && !ClampSafe(row, windowMs, max, from) && windowMs > 0 && max > 0
    ensures continuation != [] && NonDecreasing(continuation) && from <= continuation[0]
    ensures Over(row, continuation, windowMs, max) && !Over(Clamped(row), continuation, windowMs, max)
  {
    hide Prune;
    var threshold := ExposingThreshold(row, windowMs, max, from);
    FallsShort(row, windowMs, max, from, threshold);
    var count := max - |Prune(Clamped(row), threshold)|;
    continuation := seq(count, _ => threshold + windowMs);
    PruneAppend(row, continuation, threshold);
    PruneAppend(Clamped(row), continuation, threshold);
    PruneKeepsAll(continuation, threshold);
  }

  // --- whole verdicts ---

  /** Attempts that come after a boot at `from`. */
  ghost predicate Continues(more: seq<Attempt>, from: int) {
    more != [] && Chronological(more) && from <= more[0].at
  }

  /** The verdict on the last of `more`, after a history. */
  function LastVerdict(h: History, more: seq<Attempt>): Verdict
    requires more != []
  {
    VerdictOf(History(h.base, h.log + more), more[|more| - 1].ip, more[|more| - 1].at)
  }

  /** A limiter booted from the rows gives every later attempt the verdict, and the wait, of one that has seen all of `log`. */
  ghost predicate RestartUnobservable(rows: map<RowKey, StateRow>, log: seq<Attempt>, bootMs: int) {
    forall more: seq<Attempt> :: Continues(more, bootMs) ==> LastVerdict(Hydrated(rows, bootMs), more) == LastVerdict(FullLog(log), more)
  }

  /**
   * In the last ten seconds of a sustained row's life every attempt made since the boot is still in the burst window, so
   * the burst check comes first unless the row, where its clamp falls short, is within a burst of the limit by itself.
   */
  predicate BurstHidesIt(row: seq<int>, from: int)
    requires |row| > MAX_HYDRATED_TIMESTAMPS
  {
    && row[|row| - 1] + WindowMs(Sustained) <= from + WindowMs(Burst)
    && |Prune(row, ExposingThreshold(row, WindowMs(Sustained), MaxAttempts(Sustained), from))| + MaxAttempts(Burst) <= MaxAttempts(Sustained)
  }

  /** The clamp of this row cannot be seen in a verdict. */
  predicate RowSafe(scope: Scope, row: seq<int>, from: int) {
    || ClampSafe(row, WindowMs(scope), MaxAttempts(scope), from)
    || (scope.Sustained? && |row| > MAX_HYDRATED_TIMESTAMPS && BurstHidesIt(row, from))
  }

  /** What rows and log have to do with each other at a boot. */
  ghost predicate Bootable(rows: map<RowKey, StateRow>, log: seq<Attempt>, bootMs: int) {
    Chronological(log) && (log != [] ==> log[|log| - 1].at <= bootMs) && RowsAgree(rows, FullLog(log), bootMs)
  }

  /** The lists the two limiters judge. */
  lemma FullList(rows: map<RowKey, StateRow>, log: seq<Attempt>, bootMs: int, more: seq<Attempt>, ip: string, scope: Scope, now: int)
    requires RowsAgree(rows, FullLog(log), bootMs) && bootMs <= now
    ensures Live(FullLog(log + more), ip, scope, now)
         == Prune(RowTimes(rows, ip, scope), now - WindowMs(scope)) + Prune(ScopeTimes(more, ip, scope), now - WindowMs(scope))
  {
    hide FullLog, ScopeTimes, Prune, RowTimes;
    FullLogTimes(log, ip, scope);
    FullLogTimes(log + more, ip, scope);
    ScopeTimesAppend(log, more, ip, scope);
    PruneAppend(ScopeTimes(log, ip, scope), ScopeTimes(more, ip, scope), now - WindowMs(scope));
    RowAgrees(rows, FullLog(log), bootMs, ip, scope);
    PruneAgreeLater(RowTimes(rows, ip, scope), ScopeTimes(log, ip, scope), bootMs - WindowMs(scope), now - WindowMs(scope));
  }

  lemma RowAgrees(rows: map<RowKey, StateRow>, h: History, now: int, ip: string, scope: Scope)
    requires RowsAgree(rows, h, now)
    ensures Prune(RowTimes(rows, ip, scope), now - WindowMs(scope)) == Prune(h.Times(ip, scope), now - WindowMs(scope))
    ensures NonDecreasing(RowTimes(rows, ip, scope))
  {
    assert Prune(RowTimes(rows, ip, scope), now - WindowMs(scope)) == Live(h, ip, scope, now);
  }

  lemma HydratedList(rows: map<RowKey, StateRow>, log: seq<Attempt>, bootMs: int, more: seq<Attempt>, ip: string, scope: Scope, now: int)
    requires RowsAgree(rows, FullLog(log), bootMs) && bootMs <= now
    ensures var booted := Hydrated(rows, bootMs);
            Live(History(booted.base, booted.log + more), ip, scope, now)
            == Prune(Clamped(RowTimes(rows, ip, scope)), now - WindowMs(scope)) + Prune(ScopeTimes(more, ip, scope), now - WindowMs(scope))
  {
    hide Prune, RowTimes, Clamped, RowsAgree, LoadAll;
    var booted, loaded := Hydrated(rows, bootMs), RowTimes(LoadAll(rows, bootMs), ip, scope);
    HydratedTimes(rows, bootMs, ip, scope);
    assert booted.log + more == more && ScopeTimes(booted.log, ip, scope) == [];
    assert History(booted.base, more).Times(ip, scope) == booted.Times(ip, scope) + ScopeTimes(more, ip, scope);
    PruneAppend(Clamped(loaded), ScopeTimes(more, ip, scope), now - WindowMs(scope));
    LoadedOrExpired(rows, FullLog(log), bootMs, ip, scope, now - WindowMs(scope));
  }

  lemma LoadedOrExpired(rows: map<RowKey, StateRow>, h: History, bootMs: int, ip: string, scope: Scope, threshold: int)
    requires RowsAgree(rows, h, bootMs) && threshold >= bootMs - WindowMs(scope)
    ensures Prune(Clamped(RowTimes(LoadAll(rows, bootMs), ip, scope)), threshold) == Prune(Clamped(RowTimes(rows, ip, scope)), threshold)
  {
    var key := KeyOf(ip, scope);
    if key in rows && key !in LoadAll(rows, bootMs) {
      PruneDropsAll(rows[key].timestampsMs, threshold);
      ClampIsPrefix(rows[key].timestampsMs, threshold);
    }
  }

  // --- safe rows ---

  /** The same check fails on both lists, with the same oldest entry, or on neither. */
  predicate SameCheck(a: seq<int>, b: seq<int>, max: nat) {
    (|a| > max <==> |b| > max) && (|a| > max ==> a != [] && b != [] && a[0] == b[0])
  }

  lemma SafeCheck(row: seq<int>, times: seq<int>, scope: Scope, from: int, now: int)
    requires NonDecreasing(row) && ClampSafe(row, WindowMs(scope), MaxAttempts(scope), from) && from <= now
    requires times != [] && times[|times| - 1] == now
    ensures var threshold := now - WindowMs(scope);
            SameCheck(Prune(Clamped(row), threshold) + Prune(times, threshold), Prune(row, threshold) + Prune(times, threshold), MaxAttempts(scope))
  {
    hide Prune;
    hide ClampSafe, Clamped, SameCheck;
    var threshold := now - WindowMs(scope);
    LastIsAlive(times, threshold);
    ClampedOrEnough(row, WindowMs(scope), MaxAttempts(scope), from, threshold);
    SameOrEnough(Prune(Clamped(row), threshold), Prune(row, threshold), Prune(times, threshold), MaxAttempts(scope));
  }

  lemma SameOrEnough(a: seq<int>, b: seq<int>, live: seq<int>, max: nat)
    requires live != [] && max > 0 && (a == b || (a <= b && |a| >= max))
    ensures SameCheck(a + live, b + live, max)
  {
  }

  /** The sustained row the burst check hides: same check, or the burst limit is exceeded anyway. */
  lemma HiddenCheck(row: seq<int>, times: seq<int>, from: int, now: int)
    requires NonDecreasing(row) && |row| > MAX_HYDRATED_TIMESTAMPS && BurstHidesIt(row, from) && from <= now
    requires times != [] && times[|times| - 1] == now && forall i :: 0 <= i < |times| ==> from <= times[i]
    requires |Prune(times, now - WindowMs(Burst))| <= MaxAttempts(Burst)
    ensures var threshold := now - WindowMs(Sustained);
            SameCheck(Prune(Clamped(row), threshold) + Prune(times, threshold), Prune(row, threshold) + Prune(times, threshold), MaxAttempts(Sustained))
  {
    hide Prune;
    var threshold, max := now - WindowMs(Sustained), MaxAttempts(Sustained);
    LastIsAlive(times, threshold);
    ClampIsPrefix(row, threshold);
    if row[|row| - 1] <= threshold {
      PruneDropsAll(row, threshold);
    } else {
      PruneKeepsAll(times, now - WindowMs(Burst));
      PruneKeepsAll(times, threshold);
      var first := ExposingThreshold(row, WindowMs(Sustained), max, from);
      if threshold < first {
        ClampKeepsEnough(row, threshold, max);
      } else {
        PrunedShrinks(row, first, threshold);
      }
    }
  }

  lemma PrunedShrinks(values: seq<int>, early: int, late: int)
    requires early <= late
    ensures |Prune(values, late)| <= |Prune(values, early)|
  {
    PruneTwice(values, early, late);
  }

  lemma {:induction false} ScopeTimesFrom(log: seq<Attempt>, ip: string, scope: Scope, from: int)
    requires forall i :: 0 <= i < |log| ==> from <= log[i].at
    ensures forall i :: 0 <= i < |ScopeTimes(log, ip, scope)| ==> from <= ScopeTimes(log, ip, scope)[i]
  {
    if log != [] {
      ScopeTimesFrom(log[..|log| - 1], ip, scope, from);
    }
  }

  lemma {:induction false} BurstAndSustained(log: seq<Attempt>, ip: string)
    ensures ScopeTimes(log, ip, Burst) == ScopeTimes(log, ip, Sustained)
  {
    if log != [] {
      BurstAndSustained(log[..|log| - 1], ip);
    }
  }

  /** One scope's check on the last attempt, in memory and in the full log. */
  lemma ScopeCheck(rows: map<RowKey, StateRow>, log: seq<Attempt>, bootMs: int, more: seq<Attempt>, scope: Scope)
    requires Bootable(rows, log, bootMs) && Continues(more, bootMs)
    requires var ip := more[|more| - 1].ip; KeyOf(ip, scope) in LoadAll(rows, bootMs) ==> RowSafe(scope, RowTimes(rows, ip, scope), bootMs)
    ensures var ip, now, booted := more[|more| - 1].ip, more[|more| - 1].at, Hydrated(rows, bootMs);
            (scope.Sustained? ==> |Live(FullLog(log + more), ip, Burst, now)| <= MaxAttempts(Burst)) ==>
              SameCheck(Live(History(booted.base, booted.log + more), ip, scope, now), Live(FullLog(log + more), ip, scope, now), MaxAttempts(scope))
  {
    hide Prune, Live, RowsAgree, RowTimes, Clamped, Hydrated, ClampSafe, SameCheck, BurstHidesIt, FullLog, KeyOf;
    var ip, now := more[|more| - 1].ip, more[|more| - 1].at;
    var row, times := RowTimes(rows, ip, scope), ScopeTimes(more, ip, scope);
    LastTime(more, scope);
    ScopeTimesFrom(more, ip, scope, bootMs);
    FullList(rows, log, bootMs, more, ip, scope, now);
    HydratedList(rows, log, bootMs, more, ip, scope, now);
    RowOrdered(rows, log, bootMs, ip, scope);
    if KeyOf(ip, scope) !in LoadAll(rows, bootMs) {
      UnloadedIsSafe(rows, log, bootMs, ip, scope);
      SafeCheck(row, times, scope, bootMs, now);
    } else if ClampSafe(row, WindowMs(scope), MaxAttempts(scope), bootMs) {
      SafeCheck(row, times, scope, bootMs, now);
    } else if |Live(FullLog(log + more), ip, Burst, now)| <= MaxAttempts(Burst) {
      FullList(rows, log, bootMs, more, ip, Burst, now);
      BurstAndSustained(more, ip);
      HiddenCheck(row, times, bootMs, now);
    }
  }

  lemma LastTime(more: seq<Attempt>, scope: Scope)
    requires more != []
    ensures var times := ScopeTimes(more, more[|more| - 1].ip, scope);
            times != [] && times[|times| - 1] == more[|more| - 1].at
  {
  }

  lemma RowOrdered(rows: map<RowKey, StateRow>, log: seq<Attempt>, bootMs: int, ip: string, scope: Scope)
    requires Bootable(rows, log, bootMs)
    ensures UpTo(RowTimes(rows, ip, scope), bootMs)
  {
    hide Prune;
    var row := RowTimes(rows, ip, scope);
    var start := PruneIsSuffix(row, bootMs - WindowMs(scope));
    LogTimesUpTo(log, ip, scope, bootMs);
    FullLogTimes(log, ip, scope);
    assert row[start..] == Live(FullLog(log), ip, scope, bootMs);
    var first := PruneIsSuffix(ScopeTimes(log, ip, scope), bootMs - WindowMs(scope));
    forall i | 0 <= i < |row|
      ensures row[i] <= bootMs
    {
      if i >= start {
        assert row[i] == row[start..][i - start];
      }
    }
  }

  lemma UnloadedIsSafe(rows: map<RowKey, StateRow>, log: seq<Attempt>, bootMs: int, ip: string, scope: Scope)
    requires Bootable(rows, log, bootMs) && KeyOf(ip, scope) !in LoadAll(rows, bootMs)
    ensures ClampSafe(RowTimes(rows, ip, scope), WindowMs(scope), MaxAttempts(scope), bootMs)
  {
  }

  lemma SafeRowsHide(rows: map<RowKey, StateRow>, log: seq<Attempt>, bootMs: int, more: seq<Attempt>)
    requires Bootable(rows, log, bootMs) && Continues(more, bootMs)
    requires forall key :: key in LoadAll(rows, bootMs) ==> RowSafe(key.scope, rows[key].timestampsMs, bootMs)
    ensures LastVerdict(Hydrated(rows, bootMs), more) == LastVerdict(FullLog(log), more)
  {
    hide Live, RowSafe, Bootable, Hydrated;
    ScopeCheck(rows, log, bootMs, more, Burst);
    ScopeCheck(rows, log, bootMs, more, Sustained);
    ScopeCheck(rows, log, bootMs, more, Global);
  }

  // --- unsafe rows ---

  lemma {:induction false} RepeatedTimes(ip: string, at: int, n: nat, scope: Scope)
    ensures ScopeTimes(seq(n, _ => Attempt(ip, at)), ip, scope) == seq(n, _ => at)
  {
    if n > 0 {
      RepeatedTimes(ip, at, n - 1, scope);
      assert seq(n, _ => Attempt(ip, at)) == seq(n - 1, _ => Attempt(ip, at)) + [Attempt(ip, at)];
      ScopeTimesSnoc(seq(n - 1, _ => Attempt(ip, at)), Attempt(ip, at), ip, scope);
    }
  }

  lemma RowOfKey(rows: map<RowKey, StateRow>, bootMs: int, key: RowKey)
    requires key in LoadAll(rows, bootMs) && GlobalRowOnly(rows)
    ensures key == KeyOf(key.sourceIp, key.scope) && RowTimes(rows, key.sourceIp, key.scope) == rows[key].timestampsMs
    ensures key.scope.Global? ==> forall ip: string :: KeyOf(ip, Global) == key && RowTimes(rows, ip, Global) == rows[key].timestampsMs
  {
  }

  /** Attempts of one caller, all at one time, and the counts they leave. */
  lemma RepeatedLists(rows: map<RowKey, StateRow>, log: seq<Attempt>, bootMs: int, ip: string, at: int, n: nat, scope: Scope)
    requires RowsAgree(rows, FullLog(log), bootMs) && bootMs <= at
    ensures var more, threshold, booted := seq(n, _ => Attempt(ip, at)), at - WindowMs(scope), Hydrated(rows, bootMs);
            && |Live(FullLog(log + more), ip, scope, at)| == |Prune(RowTimes(rows, ip, scope), threshold)| + n
            && |Live(History(booted.base, booted.log + more), ip, scope, at)| == |Prune(Clamped(RowTimes(rows, ip, scope)), threshold)| + n
  {
    hide Prune, Live, RowsAgree, Clamped, RowTimes, Hydrated, FullLog, ScopeTimes;
    var more := seq(n, _ => Attempt(ip, at));
    RepeatedTimes(ip, at, n, scope);
    PruneKeepsAll(seq(n, _ => at), at - WindowMs(scope));
    FullList(rows, log, bootMs, more, ip, scope, at);
    HydratedList(rows, log, bootMs, more, ip, scope, at);
  }

  lemma BurstExposed(rows: map<RowKey, StateRow>, log: seq<Attempt>, bootMs: int, ip: string) returns (more: seq<Attempt>)
    requires Bootable(rows, log, bootMs) && !ClampSafe(RowTimes(rows, ip, Burst), WindowMs(Burst), MaxAttempts(Burst), bootMs)
    ensures Continues(more, bootMs) && LastVerdict(Hydrated(rows, bootMs), more) != LastVerdict(FullLog(log), more)
  {
    hide Prune, Live, RowsAgree, Clamped, RowTimes, Hydrated;
    var row := RowTimes(rows, ip, Burst);
    RowOrdered(rows, log, bootMs, ip, Burst);
    var threshold := ExposingThreshold(row, WindowMs(Burst), MaxAttempts(Burst), bootMs);
    FallsShort(row, WindowMs(Burst), MaxAttempts(Burst), bootMs, threshold);
    var at, n := threshold + WindowMs(Burst), MaxAttempts(Burst) - |Prune(Clamped(row), threshold)|;
    more := seq(n, _ => Attempt(ip, at));
    RepeatedLists(rows, log, bootMs, ip, at, n, Burst);
  }

  /** Where the full burst list is short and the scope's checks differ, so do the verdicts. */
  lemma DifferentVerdicts(booted: History, full: History, ip: string, now: int)
    requires |Live(booted, ip, Burst, now)| <= MaxAttempts(Burst) && |Live(full, ip, Burst, now)| <= MaxAttempts(Burst)
    requires |Live(booted, ip, Sustained, now)| <= MaxAttempts(Sustained)
    requires || |Live(full, ip, Sustained, now)| > MaxAttempts(Sustained)
             || (|Live(full, ip, Global, now)| > MaxAttempts(Global) >= |Live(booted, ip, Global, now)|)
    ensures VerdictOf(booted, ip, now) != VerdictOf(full, ip, now)
  {
    hide Live;
  }

  /** With its own attempts expired, a caller's burst count is that of its attempts since the boot. */
  lemma BurstSince(rows: map<RowKey, StateRow>, log: seq<Attempt>, bootMs: int, more: seq<Attempt>, ip: string, now: int)
    requires Bootable(rows, log, bootMs) && bootMs <= now
    requires forall i :: 0 <= i < |RowTimes(rows, ip, Burst)| ==> RowTimes(rows, ip, Burst)[i] <= now - WindowMs(Burst)
    ensures var booted := Hydrated(rows, bootMs);
            && Live(FullLog(log + more), ip, Burst, now) == Prune(ScopeTimes(more, ip, Burst), now - WindowMs(Burst))
            && Live(History(booted.base, booted.log + more), ip, Burst, now) == Prune(ScopeTimes(more, ip, Burst), now - WindowMs(Burst))
  {
    hide Prune, Live, RowsAgree, Hydrated, FullLog, RowTimes;
    var row, threshold := RowTimes(rows, ip, Burst), now - WindowMs(Burst);
    FullList(rows, log, bootMs, more, ip, Burst, now);
    HydratedList(rows, log, bootMs, more, ip, Burst, now);
    PruneDropsAll(row, threshold);
    ClampIsPrefix(row, threshold);
    var live := Prune(ScopeTimes(more, ip, Burst), threshold);
    assert [] + live == live;
  }

  /** `n` attempts of one caller at one time, then one more attempt. */
  function Then(first: string, from: int, n: nat, last: Attempt): seq<Attempt> {
    seq(n, _ => Attempt(first, from)) + [last]
  }

  lemma ThenTimes(first: string, from: int, n: nat, last: Attempt, scope: Scope)
    ensures ScopeTimes(Then(first, from, n, last), last.ip, scope)
         == (if scope.Global? || first == last.ip then seq(n, _ => from) else []) + [last.at]
  {
    ScopeTimesSnoc(seq(n, _ => Attempt(first, from)), last, last.ip, scope);
    if scope.Global? {
      GlobalIgnoresIp(seq(n, _ => Attempt(first, from)), first, last.ip);
      RepeatedTimes(first, from, n, scope);
    } else if first == last.ip {
      RepeatedTimes(first, from, n, scope);
    } else {
      OthersLeaveNothing(first, from, n, last.ip, scope);
      assert [] + [last.at] == [last.at];
    }
  }

  lemma {:induction false} OthersLeaveNothing(first: string, from: int, n: nat, ip: string, scope: Scope)
    requires first != ip && !scope.Global?
    ensures ScopeTimes(seq(n, _ => Attempt(first, from)), ip, scope) == []
  {
    if n > 0 {
      OthersLeaveNothing(first, from, n - 1, ip, scope);
      assert seq(n, _ => Attempt(first, from)) == seq(n - 1, _ => Attempt(first, from)) + [Attempt(first, from)];
      ScopeTimesSnoc(seq(n - 1, _ => Attempt(first, from)), Attempt(first, from), ip, scope);
    }
  }

  /** The counts when every attempt since the boot is still in the scope's window. */
  lemma CountsSince(rows: map<RowKey, StateRow>, log: seq<Attempt>, bootMs: int, more: seq<Attempt>, ip: string, scope: Scope, now: int)
    requires RowsAgree(rows, FullLog(log), bootMs) && bootMs <= now
    requires forall i :: 0 <= i < |ScopeTimes(more, ip, scope)| ==> ScopeTimes(more, ip, scope)[i] > now - WindowMs(scope)
    ensures var threshold, booted := now - WindowMs(scope), Hydrated(rows, bootMs);
            && |Live(FullLog(log + more), ip, scope, now)| == |Prune(RowTimes(rows, ip, scope), threshold)| + |ScopeTimes(more, ip, scope)|
            && |Live(History(booted.base, booted.log + more), ip, scope, now)|
               == |Prune(Clamped(RowTimes(rows, ip, scope)), threshold)| + |ScopeTimes(more, ip, scope)|
  {
    hide Prune, Live, RowsAgree, Clamped, RowTimes, Hydrated, FullLog, ScopeTimes;
    PruneKeepsAll(ScopeTimes(more, ip, scope), now - WindowMs(scope));
    FullList(rows, log, bootMs, more, ip, scope, now);
    HydratedList(rows, log, bootMs, more, ip, scope, now);
  }

  /** A sustained row with more than ten seconds to live: the attempts that fill its window come at the boot, and the last one alone in its burst window. */
  lemma SustainedExposedLater(rows: map<RowKey, StateRow>, log: seq<Attempt>, bootMs: int, ip: string) returns (more: seq<Attempt>)
    requires Bootable(rows, log, bootMs) && !ClampSafe(RowTimes(rows, ip, Sustained), WindowMs(Sustained), MaxAttempts(Sustained), bootMs)
    requires var row := RowTimes(rows, ip, Sustained); row[|row| - 1] + WindowMs(Sustained) > bootMs + WindowMs(Burst)
    ensures Continues(more, bootMs) && LastVerdict(Hydrated(rows, bootMs), more) != LastVerdict(FullLog(log), more)
  {
    hide Prune, Live, RowsAgree, Clamped, RowTimes, Hydrated, ScopeTimes;
    var row := RowTimes(rows, ip, Sustained);
    RowOrdered(rows, log, bootMs, ip, Sustained);
    var threshold := row[|row| - 1] - 1;
    FallsShort(row, WindowMs(Sustained), MaxAttempts(Sustained), bootMs, threshold);
    var now, n := threshold + WindowMs(Sustained), MaxAttempts(Sustained) - |Prune(Clamped(row), threshold)| - 1;
    more := Then(ip, bootMs, n, Attempt(ip, now));
    ThenTimes(ip, bootMs, n, Attempt(ip, now), Sustained);
    ThenTimes(ip, bootMs, n, Attempt(ip, now), Burst);
    CountsSince(rows, log, bootMs, more, ip, Sustained, now);
    RowOrdered(rows, log, bootMs, ip, Burst);
    BurstSince(rows, log, bootMs, more, ip, now);
    PruneAppend(seq(n, _ => bootMs), [now], now - WindowMs(Burst));
    PruneDropsAll(seq(n, _ => bootMs), now - WindowMs(Burst));
    PruneKeepsAll([now], now - WindowMs(Burst));
    var booted := Hydrated(rows, bootMs);
    DifferentVerdicts(History(booted.base, booted.log + more), FullLog(log + more), ip, now);
  }

  /** When the sustained row is that old, the caller's burst row has expired. */
  lemma BurstRowIsOld(rows: map<RowKey, StateRow>, log: seq<Attempt>, bootMs: int, ip: string)
    requires Bootable(rows, log, bootMs)
    requires var row := RowTimes(rows, ip, Sustained);
             row != [] && row[|row| - 1] + WindowMs(Sustained) <= bootMs + WindowMs(Burst)
    ensures forall i :: 0 <= i < |RowTimes(rows, ip, Burst)| ==> RowTimes(rows, ip, Burst)[i] <= bootMs - WindowMs(Burst)
  {
    hide Prune, RowTimes, RowsAgree, FullLog, ScopeTimes;
    var times, row := ScopeTimes(log, ip, Sustained), RowTimes(rows, ip, Sustained);
    FullLogTimes(log, ip, Sustained);
    FullLogTimes(log, ip, Burst);
    BurstAndSustained(log, ip);
    RowAgrees(rows, FullLog(log), bootMs, ip, Sustained);
    RowAgrees(rows, FullLog(log), bootMs, ip, Burst);
    PruneAgreeLater(row, times, bootMs - WindowMs(Sustained), bootMs - WindowMs(Burst));
    PruneDropsAll(row, bootMs - WindowMs(Burst));
    var start := PruneIsSuffix(RowTimes(rows, ip, Burst), bootMs - WindowMs(Burst));
  }

  lemma SustainedExposedNow(rows: map<RowKey, StateRow>, log: seq<Attempt>, bootMs: int, ip: string) returns (more: seq<Attempt>)
    requires Bootable(rows, log, bootMs) && !RowSafe(Sustained, RowTimes(rows, ip, Sustained), bootMs)
    requires var row := RowTimes(rows, ip, Sustained); row[|row| - 1] + WindowMs(Sustained) <= bootMs + WindowMs(Burst)
    ensures Continues(more, bootMs) && LastVerdict(Hydrated(rows, bootMs), more) != LastVerdict(FullLog(log), more)
  {
    hide Prune, Live, RowsAgree, Clamped, RowTimes, Hydrated, ScopeTimes;
    var row := RowTimes(rows, ip, Sustained);
    RowOrdered(rows, log, bootMs, ip, Sustained);
    var threshold := ExposingThreshold(row, WindowMs(Sustained), MaxAttempts(Sustained), bootMs);
    FallsShort(row, WindowMs(Sustained), MaxAttempts(Sustained), bootMs, threshold);
    var now, kept := threshold + WindowMs(Sustained), |Prune(row, threshold)|;
    var n := if kept >= MaxAttempts(Sustained) then 1 else MaxAttempts(Sustained) + 1 - kept;
    more := seq(n, _ => Attempt(ip, now));
    RepeatedLists(rows, log, bootMs, ip, now, n, Sustained);
    BurstRowIsOld(rows, log, bootMs, ip);
    BurstSince(rows, log, bootMs, more, ip, now);
    RepeatedTimes(ip, now, n, Burst);
    PruneKeepsAll(seq(n, _ => now), now - WindowMs(Burst));
    var booted := Hydrated(rows, bootMs);
    DifferentVerdicts(History(booted.base, booted.log + more), FullLog(log + more), ip, now);
  }

  function LongestIp(log: seq<Attempt>): nat {
    if log == [] then 0
    else
      var longest, last := LongestIp(log[..|log| - 1]), |log[|log| - 1].ip|;
      if last > longest then last else longest
  }

  lemma {:induction false} LongerIpIsNew(log: seq<Attempt>, ip: string, scope: Scope)
    requires |ip| > LongestIp(log) && !scope.Global?
    ensures ScopeTimes(log, ip, scope) == []
  {
    if log != [] {
      LongerIpIsNew(log[..|log| - 1], ip, scope);
    }
  }

  /** An address never seen has one live attempt, its own, on both sides. */
  lemma NewAddress(rows: map<RowKey, StateRow>, log: seq<Attempt>, bootMs: int, more: seq<Attempt>, ip: string, scope: Scope)
    requires RowsAgree(rows, FullLog(log), bootMs)
    requires ScopeTimes(log, ip, scope) == [] && ScopeTimes(more, ip, scope) == [bootMs]
    ensures var booted := Hydrated(rows, bootMs);
            |Live(FullLog(log + more), ip, scope, bootMs)| == 1 && |Live(History(booted.base, booted.log + more), ip, scope, bootMs)| == 1
  {
    hide Prune, Live, RowsAgree, RowTimes, Hydrated, FullLog;
    FullLogTimes(log, ip, scope);
    RowAgrees(rows, FullLog(log), bootMs, ip, scope);
    PruneDropsAll([], bootMs - WindowMs(scope));
    ClampIsPrefix(RowTimes(rows, ip, scope), bootMs - WindowMs(scope));
    CountsSince(rows, log, bootMs, more, ip, scope, bootMs);
  }

  /** An unsafe global row: attempts of others fill the window, and the last one comes from an address never seen. */
  lemma GlobalExposed(rows: map<RowKey, StateRow>, log: seq<Attempt>, bootMs: int) returns (more: seq<Attempt>)
    requires Bootable(rows, log, bootMs) && !ClampSafe(RowTimes(rows, "", Global), WindowMs(Global), MaxAttempts(Global), bootMs)
    ensures Continues(more, bootMs) && LastVerdict(Hydrated(rows, bootMs), more) != LastVerdict(FullLog(log), more)
  {
    hide Prune, Live, RowsAgree, Clamped, RowTimes, Hydrated, ScopeTimes;
    var ip := seq(LongestIp(log) + 1, _ => 'x');
    var row, threshold := RowTimes(rows, "", Global), bootMs - WindowMs(Global);
    SameGlobalRow(rows, "", ip);
    RowOrdered(rows, log, bootMs, ip, Global);
    FallsShort(row, WindowMs(Global), MaxAttempts(Global), bootMs, threshold);
    var n := MaxAttempts(Global) - |Prune(Clamped(row), threshold)| - 1;
    var last := Attempt(ip, bootMs);
    more := Then("", bootMs, n, last);
    ThenTimes("", bootMs, n, last, Burst);
    ThenTimes("", bootMs, n, last, Sustained);
    ThenTimes("", bootMs, n, last, Global);
    LongerIpIsNew(log, ip, Burst);
    LongerIpIsNew(log, ip, Sustained);
    assert [] + [bootMs] == [bootMs];
    NewAddress(rows, log, bootMs, more, ip, Burst);
    NewAddress(rows, log, bootMs, more, ip, Sustained);
    CountsSince(rows, log, bootMs, more, ip, Global, bootMs);
    var booted := Hydrated(rows, bootMs);
    DifferentVerdicts(History(booted.base, booted.log + more), FullLog(log + more), ip, bootMs);
  }

  lemma SameGlobalRow(rows: map<RowKey, StateRow>, a: string, b: string)
    ensures RowTimes(rows, a, Global) == RowTimes(rows, b, Global)
  {
  }

  lemma UnsafeRowShows(rows: map<RowKey, StateRow>, log: seq<Attempt>, bootMs: int, key: RowKey) returns (more: seq<Attempt>)
    requires Bootable(rows, log, bootMs) && key in LoadAll(rows, bootMs) && !RowSafe(key.scope, rows[key].timestampsMs, bootMs)
    ensures Continues(more, bootMs) && LastVerdict(Hydrated(rows, bootMs), more) != LastVerdict(FullLog(log), more)
  {
    hide Hydrated, LastVerdict, Prune;
    RowOfKey(rows, bootMs, key);
    var row := rows[key].timestampsMs;
    match key.scope
    case Burst =>
      more := BurstExposed(rows, log, bootMs, key.sourceIp);
    case Global =>
      more := GlobalExposed(rows, log, bootMs);
    case Sustained =>
      if row[|row| - 1] + WindowMs(Sustained) > bootMs + WindowMs(Burst) {
        more := SustainedExposedLater(rows, log, bootMs, key.sourceIp);
      } else {
        more := SustainedExposedNow(rows, log, bootMs, key.sourceIp);
      }
  }

  /**
   * The whole story of a restart: every later verdict, its wait included, is the one of a limiter that never restarted,
   * exactly when each loaded row is safe.
   */
  lemma HydrationExact(rows: map<RowKey, StateRow>, log: seq<Attempt>, bootMs: int)
    requires Bootable(rows, log, bootMs)
    ensures RestartUnobservable(rows, log, bootMs)
            <==> forall key :: key in LoadAll(rows, bootMs) ==> RowSafe(key.scope, rows[key].timestampsMs, bootMs)
  {
    hide Bootable, RowSafe, Hydrated, LastVerdict;
    if forall key :: key in LoadAll(rows, bootMs) ==> RowSafe(key.scope, rows[key].timestampsMs, bootMs) {
      forall more: seq<Attempt> | Continues(more, bootMs)
        ensures more != [] && LastVerdict(Hydrated(rows, bootMs), more) == LastVerdict(FullLog(log), more)
      {
        SafeRowsHide(rows, log, bootMs, more);
      }
    } else {
      var key :| key in LoadAll(rows, bootMs) && !RowSafe(key.scope, rows[key].timestampsMs, bootMs);
      var more := UnsafeRowShows(rows, log, bootMs, key);
    }
  }
}
