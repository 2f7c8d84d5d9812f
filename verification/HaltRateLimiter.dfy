/** The per-subject limiter in front of the kill switch: five toggles in any sixty seconds. */
module HaltRateLimiter {
  import opened SlidingWindow
  import opened Counting

  const WINDOW_MS := 60_000
  const MAX_TOGGLES_PER_WINDOW := 5
  const GC_INTERVAL_MS := 5 * WINDOW_MS

  datatype Toggle = Toggle(sub: string, at: int)

  datatype Verdict = Admitted | Throttled(retryAfterSec: int)

  function TimesOf(log: seq<Toggle>, sub: string): (times: seq<int>) {
    if log == [] then []
    else TimesOf(log[..|log| - 1], sub) + if log[|log| - 1].sub == sub then [log[|log| - 1].at] else []
  }

  lemma TimesOfSnoc(log: seq<Toggle>, next: Toggle, sub: string)
    ensures TimesOf(log + [next], sub) == if next.sub == sub then TimesOf(log, sub) + [next.at] else TimesOf(log, sub)
  {
    assert (log + [next])[..|log|] == log;
  }

  ghost predicate Chronological(log: seq<Toggle>) {
    forall i, j :: 0 <= i <= j < |log| ==> log[i].at <= log[j].at
  }

  /** The specification: decide from every toggle ever admitted, forgetting nothing. */
  function FullLogVerdict(admitted: seq<Toggle>, sub: string, now: int): Verdict {
    var recent := Prune(TimesOf(admitted, sub), now - WINDOW_MS);
    if |recent| >= MAX_TOGGLES_PER_WINDOW then Throttled(RetryAfterSec(recent[0], WINDOW_MS, now)) else Admitted
  }

  /** The toggles the specification admits out of a run of attempts. */
  function AdmittedLog(attempts: seq<Toggle>): (admitted: seq<Toggle>) {
    if attempts == [] then []
    else
      var before := AdmittedLog(attempts[..|attempts| - 1]);
      var last := attempts[|attempts| - 1];
      if FullLogVerdict(before, last.sub, last.at).Admitted? then before + [last] else before
  }

  /** In numbers: a subject is admitted exactly while fewer than five of its admitted toggles lie less than a minute back. */
  lemma VerdictInNumbers(admitted: seq<Toggle>, sub: string, now: int)
    ensures FullLogVerdict(admitted, sub, now).Admitted?
            <==> |set i: nat | i < |admitted| && admitted[i].sub == sub && now - 60_000 < admitted[i].at| < 5
  {
    OwnCount(admitted, sub, now - 60_000);
  }

  lemma {:induction false} OwnCount(log: seq<Toggle>, sub: string, threshold: int)
    ensures |Prune(TimesOf(log, sub), threshold)| == |set i: nat | i < |log| && log[i].sub == sub && threshold < log[i].at|
  {
    hide Prune;
    PruneKeepsAll([], threshold);
    if log == [] {
      assert (set i: nat | i < |log| && log[i].sub == sub && threshold < log[i].at) == {};
    } else {
      var init, last := log[..|log| - 1], log[|log| - 1];
      assert log == init + [last];
      OwnCount(init, sub, threshold);
      OwnSetStep(init, last, sub, threshold);
      TimesOfSnoc(init, last, sub);
      PruneAppend(TimesOf(init, sub), [last.at], threshold);
      PruneOne(last.at, threshold);
    }
  }

  lemma OwnSetStep(init: seq<Toggle>, last: Toggle, sub: string, threshold: int)
    ensures var log := init + [last];
            |set i: nat | i < |log| && log[i].sub == sub && threshold < log[i].at|
            == |set i: nat | i < |init| && init[i].sub == sub && threshold < init[i].at| + if last.sub == sub && threshold < last.at then 1 else 0
  {
    var log := init + [last];
    var before := set i: nat | i < |init| && init[i].sub == sub && threshold < init[i].at;
    var counted := set i: nat | i < |log| && log[i].sub == sub && threshold < log[i].at;
    OneMore(before, counted, |init|, last.sub == sub && threshold < last.at);
  }

  /** The limiter's promise: in every sixty-second window at most five toggles of a subject were admitted. */
  lemma {:induction false} AtMostFivePerWindow(attempts: seq<Toggle>, sub: string, lo: int)
    ensures CountIn(TimesOf(AdmittedLog(attempts), sub), lo, lo + WINDOW_MS) <= MAX_TOGGLES_PER_WINDOW
  {
    if attempts != [] {
      var last := attempts[|attempts| - 1];
      var before := AdmittedLog(attempts[..|attempts| - 1]);
      AtMostFivePerWindow(attempts[..|attempts| - 1], sub, lo);
      if FullLogVerdict(before, last.sub, last.at).Admitted? {
        TimesOfSnoc(before, last, sub);
        if last.sub == sub {
          CountInAppend(TimesOf(before, sub), [last.at], lo, lo + WINDOW_MS);
          if lo <= last.at < lo + WINDOW_MS {
            CountInPrune(TimesOf(before, sub), last.at - WINDOW_MS, lo, lo + WINDOW_MS);
          }
        }
      }
    }
  }

  ghost predicate OrderedUpTo(times: seq<int>, at: int) {
    NonDecreasing(times) && forall i :: 0 <= i < |times| ==> times[i] <= at
  }

  lemma {:induction false} AdmittedTimes(attempts: seq<Toggle>, sub: string, now: int)
    requires Chronological(attempts) && (attempts != [] ==> attempts[|attempts| - 1].at <= now)
    ensures OrderedUpTo(TimesOf(AdmittedLog(attempts), sub), now)
  {
    if attempts != [] {
      var last := attempts[|attempts| - 1];
      AdmittedTimes(attempts[..|attempts| - 1], sub, last.at);
      AdmittedTimesStep(AdmittedLog(attempts[..|attempts| - 1]), last, sub, now);
    }
  }

  lemma AdmittedTimesStep(before: seq<Toggle>, last: Toggle, sub: string, now: int)
    requires OrderedUpTo(TimesOf(before, sub), last.at) && last.at <= now
    ensures OrderedUpTo(TimesOf(before, sub), now) && OrderedUpTo(TimesOf(before + [last], sub), now)
  {
    TimesOfSnoc(before, last, sub);
  }

  /** A throttled subject has exactly five live toggles, oldest first. */
  lemma FullWindow(attempts: seq<Toggle>, sub: string, now: int)
    requires Chronological(attempts) && (attempts != [] ==> attempts[|attempts| - 1].at <= now)
    ensures var recent := Prune(TimesOf(AdmittedLog(attempts), sub), now - WINDOW_MS);
            NonDecreasing(recent) && |recent| <= MAX_TOGGLES_PER_WINDOW
  {
    var times := TimesOf(AdmittedLog(attempts), sub);
    AdmittedTimes(attempts, sub, now);
    var start := PruneIsSuffix(times, now - WINDOW_MS);
    CountInPrune(times, now - WINDOW_MS, now - WINDOW_MS + 1, now + 1);
    AtMostFivePerWindow(attempts, sub, now - WINDOW_MS + 1);
  }

  /** `retryAfterSec` is exactly the least positive whole number of seconds of silence that gets the subject admitted. */
  lemma RetryAfterIsExact(attempts: seq<Toggle>, sub: string, now: int, seconds: int)
    requires Chronological(attempts) && (attempts != [] ==> attempts[|attempts| - 1].at <= now)
    requires FullLogVerdict(AdmittedLog(attempts), sub, now).Throttled?
    requires seconds >= 1
    ensures FullLogVerdict(AdmittedLog(attempts), sub, now + 1000 * seconds).Admitted?
            <==> seconds >= FullLogVerdict(AdmittedLog(attempts), sub, now).retryAfterSec
  {
    FullWindow(attempts, sub, now);
    RetryAfterFromWindow(AdmittedLog(attempts), sub, now, seconds);
  }

  lemma RetryAfterFromWindow(admitted: seq<Toggle>, sub: string, now: int, seconds: int)
    requires NonDecreasing(Prune(TimesOf(admitted, sub), now - WINDOW_MS))
    requires |Prune(TimesOf(admitted, sub), now - WINDOW_MS)| == MAX_TOGGLES_PER_WINDOW
    requires seconds >= 1
    ensures FullLogVerdict(admitted, sub, now + 1000 * seconds).Admitted?
            <==> seconds >= RetryAfterSec(Prune(TimesOf(admitted, sub), now - WINDOW_MS)[0], WINDOW_MS, now)
  {
    var recent := Prune(TimesOf(admitted, sub), now - WINDOW_MS);
    PruneTwice(TimesOf(admitted, sub), now - WINDOW_MS, now + 1000 * seconds - WINDOW_MS);
    OldestDecides(recent, now + 1000 * seconds - WINDOW_MS);
    RetryAfterExpiresOldest(recent[0], WINDOW_MS, now, seconds);
  }

  lemma OldestDecides(recent: seq<int>, threshold: int)
    requires NonDecreasing(recent) && |recent| == MAX_TOGGLES_PER_WINDOW
    ensures |Prune(recent, threshold)| < MAX_TOGGLES_PER_WINDOW <==> recent[0] <= threshold
  {
    if recent[0] > threshold {
      PruneKeepsAll(recent, threshold);
    } else {
      assert |Prune(recent[1..], threshold)| <= |recent[1..]|;
    }
  }

  function Stored(windows: map<string, seq<int>>, sub: string): seq<int> {
    if sub in windows then windows[sub] else []
  }

  /** Memory and full log agree on everything newer than `threshold`. */
  ghost predicate Agrees(windows: map<string, seq<int>>, admitted: seq<Toggle>, threshold: int) {
    forall sub: string :: Prune(Stored(windows, sub), threshold) == Prune(TimesOf(admitted, sub), threshold)
  }

  lemma AgreesLater(windows: map<string, seq<int>>, admitted: seq<Toggle>, early: int, late: int)
    requires Agrees(windows, admitted, early) && early <= late
    ensures Agrees(windows, admitted, late)
  {
    forall sub: string
      ensures Prune(Stored(windows, sub), late) == Prune(TimesOf(admitted, sub), late)
    {
      PruneAgreeLater(Stored(windows, sub), TimesOf(admitted, sub), early, late);
    }
  }

  lemma AgreesAfterAdmit(windows: map<string, seq<int>>, admitted: seq<Toggle>, sub: string, now: int, threshold: int)
    requires Agrees(windows, admitted, threshold)
    ensures Agrees(windows[sub := Prune(Stored(windows, sub), threshold) + [now]], admitted + [Toggle(sub, now)], threshold)
  {
    var recent := Prune(Stored(windows, sub), threshold);
    var after, log := windows[sub := recent + [now]], admitted + [Toggle(sub, now)];
    assert log[..|log| - 1] == admitted;
    forall other: string
      ensures Prune(Stored(after, other), threshold) == Prune(TimesOf(log, other), threshold)
    {
      if other == sub {
        PruneTwice(Stored(windows, sub), threshold, threshold);
        PruneAppend(recent, [now], threshold);
        PruneAppend(TimesOf(admitted, sub), [now], threshold);
      } else {
        assert Stored(after, other) == Stored(windows, other);
        assert TimesOf(log, other) == TimesOf(admitted, other);
      }
    }
  }

  lemma AdmittedLogSnoc(attempts: seq<Toggle>, next: Toggle)
    ensures AdmittedLog(attempts + [next])
            == var before := AdmittedLog(attempts);
               if FullLogVerdict(before, next.sub, next.at).Admitted? then before + [next] else before
  {
    assert (attempts + [next])[..|attempts|] == attempts;
  }

  function AfterAttempt(windows: map<string, seq<int>>, sub: string, now: int): map<string, seq<int>> {
    var recent := Prune(Stored(windows, sub), now - WINDOW_MS);
    if |recent| >= MAX_TOGGLES_PER_WINDOW then windows else windows[sub := recent + [now]]
  }

  lemma AttemptAgrees(windows: map<string, seq<int>>, attempts: seq<Toggle>, sub: string, now: int)
    requires Agrees(windows, AdmittedLog(attempts), now - WINDOW_MS)
    ensures Prune(Stored(windows, sub), now - WINDOW_MS) == Prune(TimesOf(AdmittedLog(attempts), sub), now - WINDOW_MS)
    ensures Agrees(AfterAttempt(windows, sub, now), AdmittedLog(attempts + [Toggle(sub, now)]), now - WINDOW_MS)
  {
    hide AdmittedLog, TimesOf, Prune, Stored;
    AdmittedLogSnoc(attempts, Toggle(sub, now));
    AgreesAfterAdmit(windows, AdmittedLog(attempts), sub, now, now - WINDOW_MS);
  }

  /** One iteration of the collector: drop an entry with nothing left in the window, else shorten it. */
  function CollectOne(windows: map<string, seq<int>>, sub: string, threshold: int): map<string, seq<int>>
    requires sub in windows
  {
    var kept := Prune(windows[sub], threshold);
    if |kept| == 0 then windows - {sub} else windows[sub := kept]
  }

  /** Every entry the collector has already visited holds live timestamps only, and at least one. */
  ghost predicate Collected(windows: map<string, seq<int>>, pending: set<string>, threshold: int) {
    forall sub :: sub in windows && sub !in pending ==> Prune(windows[sub], threshold) == windows[sub] != []
  }

  lemma CollectOneStep(windows: map<string, seq<int>>, admitted: seq<Toggle>, sub: string, pending: set<string>, threshold: int)
    requires sub in pending && pending <= windows.Keys
    requires Agrees(windows, admitted, threshold) && Collected(windows, pending, threshold)
    ensures var after := CollectOne(windows, sub, threshold);
            && Agrees(after, admitted, threshold) && Collected(after, pending - {sub}, threshold)
            && pending - {sub} <= after.Keys <= windows.Keys
  {
    var after := CollectOne(windows, sub, threshold);
    PruneTwice(windows[sub], threshold, threshold);
    forall other: string
      ensures Prune(Stored(after, other), threshold) == Prune(TimesOf(admitted, other), threshold)
    {
      if other != sub {
        assert Stored(after, other) == Stored(windows, other);
      }
    }
  }

  /** The collection pass over the whole map. */
  method CollectAll(windows: map<string, seq<int>>, ghost admitted: seq<Toggle>, threshold: int) returns (after: map<string, seq<int>>)
    requires Agrees(windows, admitted, threshold)
    ensures Agrees(after, admitted, threshold) && Collected(after, {}, threshold)
    ensures after.Keys <= windows.Keys
  {
    after := windows;
    var pending := windows.Keys;
    while pending != {}
      invariant pending <= after.Keys <= windows.Keys
      invariant Agrees(after, admitted, threshold) && Collected(after, pending, threshold)
      decreases |pending|
    {
      var sub :| sub in pending;
      CollectOneStep(after, admitted, sub, pending, threshold);
      after := CollectOne(after, sub, threshold);
      pending := pending - {sub};
    }
  }

  class HaltRateLimiter {
    var windows: map<string, seq<int>>
    var lastGcAt: int
    ghost var attempts: seq<Toggle>
    ghost var clock: int

    ghost predicate Valid()
      reads this
    {
      && Chronological(attempts)
      && (attempts != [] ==> attempts[|attempts| - 1].at <= clock)
      && Agrees(windows, AdmittedLog(attempts), clock - WINDOW_MS)
    }

    constructor (ghost startedAt: int)
      ensures Valid() && attempts == [] && clock == startedAt
    {
      windows, lastGcAt := map[], 0;
      attempts, clock := [], startedAt;
    }

    /** Every verdict is the full-log verdict: pruning and garbage collection are unobservable. */
    method Enforce(sub: string, now: int) returns (verdict: Verdict)
      requires Valid() && clock <= now
      modifies this
      ensures Valid() && clock == now
      ensures attempts == old(attempts) + [Toggle(sub, now)]
      ensures verdict == FullLogVerdict(AdmittedLog(old(attempts)), sub, now)
    {
      hide Agrees, AdmittedLog, Prune, TimesOf, Stored;
      MaybeGc(now);
      AttemptAgrees(windows, attempts, sub, now);
      var recent := Prune(Stored(windows, sub), now - WINDOW_MS);
      attempts := attempts + [Toggle(sub, now)];
      if |recent| >= MAX_TOGGLES_PER_WINDOW {
        return Throttled(RetryAfterSec(recent[0], WINDOW_MS, now));
      }
      windows := windows[sub := recent + [now]];
      return Admitted;
    }

    /** Collects at most once per interval; whatever it drops, no verdict at `now` or later can see. */
    method MaybeGc(now: int)
      requires Valid() && clock <= now
      modifies this
      ensures Valid() && attempts == old(attempts) && clock == now
      ensures now - old(lastGcAt) >= GC_INTERVAL_MS ==> lastGcAt == now && Collected(windows, {}, now - WINDOW_MS)
      ensures now - old(lastGcAt) < GC_INTERVAL_MS ==> lastGcAt == old(lastGcAt) && windows == old(windows)
    {
      hide Agrees, Collected, AdmittedLog;
      AgreesLater(windows, AdmittedLog(attempts), clock - WINDOW_MS, now - WINDOW_MS);
      clock := now;
      if now - lastGcAt < GC_INTERVAL_MS {
        return;
      }
      lastGcAt := now;
      windows := CollectAll(windows, AdmittedLog(attempts), now - WINDOW_MS);
    }
  }
}
