/** The pruning and retry arithmetic shared by the two request limiters. */
module SlidingWindow {

  /** The timestamps strictly newer than `threshold`, in order. */
  function Prune(values: seq<int>, threshold: int): (kept: seq<int>)
    ensures |kept| <= |values|
  {
    if values == [] then []
    else if values[0] > threshold then [values[0]] + Prune(values[1..], threshold)
    else Prune(values[1..], threshold)
  }

  ghost predicate NonDecreasing(values: seq<int>) {
    forall i, j :: 0 <= i <= j < |values| ==> values[i] <= values[j]
  }

  /** The whole seconds a throttled caller is told to wait: at least 1, else the ceiling of the remaining time. */
  function RetryAfterSec(oldest: int, windowMs: int, now: int): (sec: int)
    ensures sec >= 1
  {
    var ceiling := -((now - oldest - windowMs) / 1000);
    if ceiling < 1 then 1 else ceiling
  }

  /** The reported wait is the least positive whole number of seconds by which `oldest` has left the window. */
  lemma RetryAfterExpiresOldest(oldest: int, windowMs: int, now: int, seconds: int)
    requires seconds >= 1
    ensures oldest <= now + 1000 * seconds - windowMs <==> seconds >= RetryAfterSec(oldest, windowMs, now)
  {
    var remaining := now - oldest - windowMs;
    assert remaining == 1000 * (remaining / 1000) + remaining % 1000;
  }

  lemma {:induction false} PruneAppend(left: seq<int>, right: seq<int>, threshold: int)
    ensures Prune(left + right, threshold) == Prune(left, threshold) + Prune(right, threshold)
  {
    if left == [] {
      assert left + right == right;
    } else {
      assert (left + right)[1..] == left[1..] + right;
      PruneAppend(left[1..], right, threshold);
    }
  }

  lemma PruneOne(at: int, threshold: int)
    ensures Prune([at], threshold) == if at > threshold then [at] else []
  {
  }

  /** Pruning early is unobservable to any later, larger threshold. */
  lemma {:induction false} PruneTwice(values: seq<int>, early: int, late: int)
    requires early <= late
    ensures Prune(Prune(values, early), late) == Prune(values, late)
  {
    if values != [] {
      PruneTwice(values[1..], early, late);
      if values[0] > early {
        var rest := Prune(values[1..], early);
        assert ([values[0]] + rest)[1..] == rest;
      }
    }
  }

  /** Two histories that agree past one threshold agree past every later one. */
  lemma PruneAgreeLater(a: seq<int>, b: seq<int>, early: int, late: int)
    requires early <= late
    requires Prune(a, early) == Prune(b, early)
    ensures Prune(a, late) == Prune(b, late)
  {
    PruneTwice(a, early, late);
    PruneTwice(b, early, late);
  }

  lemma {:induction false} PruneKeepsAll(values: seq<int>, threshold: int)
    requires forall i :: 0 <= i < |values| ==> values[i] > threshold
    ensures Prune(values, threshold) == values
  {
    if values != [] {
      PruneKeepsAll(values[1..], threshold);
      assert [values[0]] + values[1..] == values;
    }
  }

  lemma {:induction false} PruneDropsAll(values: seq<int>, threshold: int)
    requires forall i :: 0 <= i < |values| ==> values[i] <= threshold
    ensures Prune(values, threshold) == []
  {
    if values != [] {
      PruneDropsAll(values[1..], threshold);
    }
  }

  /** Over a nondecreasing history, pruning keeps a suffix. */
  lemma {:induction false} PruneIsSuffix(values: seq<int>, threshold: int) returns (start: nat)
    requires NonDecreasing(values)
    ensures start <= |values|
    ensures Prune(values, threshold) == values[start..]
    ensures forall i :: 0 <= i < start ==> values[i] <= threshold
    ensures forall i :: start <= i < |values| ==> values[i] > threshold
  {
    if values == [] {
      start := 0;
    } else if values[0] > threshold {
      start := 0;
      PruneKeepsAll(values, threshold);
    } else {
      var rest := PruneIsSuffix(values[1..], threshold);
      start := rest + 1;
    }
  }

  /** How many timestamps fall in the half-open window [lo, hi). */
  function CountIn(values: seq<int>, lo: int, hi: int): nat {
    if values == [] then 0
    else (if lo <= values[0] < hi then 1 else 0) + CountIn(values[1..], lo, hi)
  }

  lemma {:induction false} CountInAppend(left: seq<int>, right: seq<int>, lo: int, hi: int)
    ensures CountIn(left + right, lo, hi) == CountIn(left, lo, hi) + CountIn(right, lo, hi)
  {
    if left == [] {
      assert left + right == right;
    } else {
      assert (left + right)[1..] == left[1..] + right;
      CountInAppend(left[1..], right, lo, hi);
    }
  }

  /** Pruning bounds every later-starting window count, and is one when nothing lies past its end. */
  lemma {:induction false} CountInPrune(values: seq<int>, threshold: int, lo: int, hi: int)
    requires threshold < lo
    ensures CountIn(values, lo, hi) <= |Prune(values, threshold)|
    ensures lo == threshold + 1 && (forall i :: 0 <= i < |values| ==> values[i] < hi) ==> CountIn(values, lo, hi) == |Prune(values, threshold)|
  {
    if values != [] {
      CountInPrune(values[1..], threshold, lo, hi);
    }
  }
}
