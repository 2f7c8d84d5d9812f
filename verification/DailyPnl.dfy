/** The day's summary of closed trades: realized profit, and the drawdown of the running total in one pass. */
module DailyPnl {
  import opened Wrappers
  import opened Moments
  import opened Counting

  datatype DaySummary = DaySummary(realizedPnl: real, trades: nat, wins: nat, losses: nat, maxDrawdown: real)

  /** The profit of a close; a missing one reads as zero. */
  function Pnl(close: Option<real>): real {
    if close.Some? then close.value else 0.0
  }

  function Pnls(closed: seq<Option<real>>): (pnls: seq<real>)
    ensures |pnls| == |closed| && forall k :: 0 <= k < |pnls| ==> pnls[k] == match closed[k] case Some(pnl) => pnl case None => 0.0
  {
    seq(|closed|, k requires 0 <= k < |closed| => Pnl(closed[k]))
  }

  /** The running total after the first `k` closes. */
  function Prefix(pnls: seq<real>, k: nat): real
    requires k <= |pnls|
  {
    Sum(pnls[..k])
  }

  /** `i` is before `j` or equal, and the total fell by `d` between them. */
  predicate Falls(pnls: seq<real>, i: nat, j: nat, d: real) {
    i <= j <= |pnls| && Prefix(pnls, i) - Prefix(pnls, j) == d
  }

  /** The definition: the largest fall of the running total over all pairs of instants, start of day included. */
  ghost predicate IsMaxDrawdown(pnls: seq<real>, d: real) {
    (exists i: nat, j: nat :: Falls(pnls, i, j, d))
    && forall i: nat, j: nat :: i <= j <= |pnls| ==> Prefix(pnls, i) - Prefix(pnls, j) <= d
  }

  function CountWhere(pnls: seq<real>, test: real -> bool): (n: nat)
    ensures n <= |pnls|
  {
    if pnls == [] then 0
    else CountWhere(pnls[..|pnls| - 1], test) + if test(pnls[|pnls| - 1]) then 1 else 0
  }

  lemma PrefixStep(pnls: seq<real>, k: nat)
    requires k < |pnls|
    ensures Prefix(pnls, k + 1) == Prefix(pnls, k) + pnls[k]
  {
    assert pnls[..k + 1][..k] == pnls[..k];
  }

  predicate ReachedAt(pnls: seq<real>, i: nat, total: real) {
    i <= |pnls| && Prefix(pnls, i) == total
  }

  /** The highest value of the running total so far, start of day included. */
  ghost predicate IsPeak(pnls: seq<real>, peak: real) {
    (exists i: nat :: ReachedAt(pnls, i, peak)) && forall i: nat :: i <= |pnls| ==> Prefix(pnls, i) <= peak
  }

  function Larger(a: real, b: real): real {
    if b > a then b else a
  }

  lemma PrefixesOfLonger(pnls: seq<real>, x: real)
    ensures forall i: nat :: i <= |pnls| ==> Prefix(pnls + [x], i) == Prefix(pnls, i)
    ensures Prefix(pnls + [x], |pnls| + 1) == Sum(pnls) + x == Sum(pnls + [x])
  {
    forall i: nat | i <= |pnls|
      ensures Prefix(pnls + [x], i) == Prefix(pnls, i)
    {
      assert (pnls + [x])[..i] == pnls[..i];
    }
    assert (pnls + [x])[..|pnls| + 1] == pnls + [x] && (pnls + [x])[..|pnls|] == pnls;
  }

  lemma PeakStep(pnls: seq<real>, x: real, peak: real)
    requires IsPeak(pnls, peak)
    ensures IsPeak(pnls + [x], Larger(peak, Sum(pnls + [x])))
  {
    hide Sum;
    var longer := pnls + [x];
    PrefixesOfLonger(pnls, x);
    if Sum(longer) > peak {
      assert longer[..|longer|] == longer;
      assert ReachedAt(longer, |longer|, Sum(longer));
    } else {
      var i: nat :| ReachedAt(pnls, i, peak);
      assert ReachedAt(longer, i, peak);
    }
  }

  lemma DrawdownStep(pnls: seq<real>, x: real, peak: real, d: real)
    requires IsPeak(pnls + [x], peak) && IsMaxDrawdown(pnls, d)
    ensures IsMaxDrawdown(pnls + [x], Larger(d, peak - Sum(pnls + [x])))
  {
    hide Sum;
    var longer := pnls + [x];
    PrefixesOfLonger(pnls, x);
    var largest := Larger(d, peak - Sum(longer));
    if peak - Sum(longer) > d {
      var i: nat :| ReachedAt(longer, i, peak);
      assert Falls(longer, i, |longer|, largest);
    } else {
      var i: nat, j: nat :| Falls(pnls, i, j, d);
      assert Falls(longer, i, j, largest);
    }
    forall i: nat, j: nat | i <= j <= |longer|
      ensures Prefix(longer, i) - Prefix(longer, j) <= largest
    {
      if j <= |pnls| {
        assert Prefix(pnls, i) - Prefix(pnls, j) <= d;
      }
    }
  }

  lemma StartOfDay()
    ensures IsPeak([], 0.0) && IsMaxDrawdown([], 0.0)
  {
    assert ReachedAt([], 0, 0.0);
    assert Falls([], 0, 0, 0.0);
  }

  lemma CountStep(pnls: seq<real>, x: real, test: real -> bool)
    ensures CountWhere(pnls + [x], test) == CountWhere(pnls, test) + if test(x) then 1 else 0
  {
    assert (pnls + [x])[..|pnls|] == pnls;
  }

  const Winning := (x: real) => x > 0.0
  const Losing := (x: real) => x < 0.0

  method SummariseDay(closed: seq<Option<real>>) returns (summary: DaySummary)
    ensures summary.realizedPnl == Sum(Pnls(closed)) && summary.trades == |closed|
    ensures summary.wins == CountWhere(Pnls(closed), Winning) && summary.losses == CountWhere(Pnls(closed), Losing)
    ensures IsMaxDrawdown(Pnls(closed), summary.maxDrawdown)
  {
    hide Sum, IsPeak, IsMaxDrawdown, CountWhere;
    ghost var pnls := Pnls(closed);
    var realized, runningPeak, maxDrawdown := 0.0, 0.0, 0.0;
    var wins: nat, losses: nat := 0, 0;
    NothingCounted();
    StartOfDay();
    assert pnls[..0] == [];
    for k := 0 to |closed|
      invariant realized == Sum(pnls[..k])
      invariant wins == CountWhere(pnls[..k], Winning) && losses == CountWhere(pnls[..k], Losing)
      invariant IsPeak(pnls[..k], runningPeak)
      invariant IsMaxDrawdown(pnls[..k], maxDrawdown)
    {
      var pnl := Pnl(closed[k]);
      assert pnls[..k + 1] == pnls[..k] + [pnl];
      PrefixesOfLonger(pnls[..k], pnl);
      CountStep(pnls[..k], pnl, Winning);
      CountStep(pnls[..k], pnl, Losing);
      PeakStep(pnls[..k], pnl, runningPeak);
      realized := realized + pnl;
      if pnl > 0.0 {
        wins := wins + 1;
      } else if pnl < 0.0 {
        losses := losses + 1;
      }
      if realized > runningPeak {
        runningPeak := realized;
      }
      DrawdownStep(pnls[..k], pnl, runningPeak, maxDrawdown);
      var drawdown := runningPeak - realized;
      if drawdown > maxDrawdown {
        maxDrawdown := drawdown;
      }
    }
    assert pnls[..|closed|] == pnls;
    return DaySummary(realized, |closed|, wins, losses, maxDrawdown);
  }

  lemma NothingCounted()
    ensures Sum([]) == 0.0 && CountWhere([], Winning) == 0 && CountWhere([], Losing) == 0
  {
  }

  lemma MaxDrawdownIsUnique(pnls: seq<real>, a: real, b: real)
    requires IsMaxDrawdown(pnls, a) && IsMaxDrawdown(pnls, b)
    ensures a == b
  {
    var i: nat, j: nat :| Falls(pnls, i, j, a);
    var k: nat, l: nat :| Falls(pnls, k, l, b);
  }

  /** The drawdown is never negative, covers the day's net loss, and is zero exactly on a day without a losing close. */
  lemma DrawdownCoversLoss(pnls: seq<real>, d: real)
    requires IsMaxDrawdown(pnls, d)
    ensures d >= 0.0 && d >= -Sum(pnls)
    ensures d == 0.0 <==> forall k :: 0 <= k < |pnls| ==> pnls[k] >= 0.0
  {
    assert pnls[..|pnls|] == pnls;
    assert Prefix(pnls, 0) - Prefix(pnls, |pnls|) == -Sum(pnls);
    if forall k :: 0 <= k < |pnls| ==> pnls[k] >= 0.0 {
      var i: nat, j: nat :| Falls(pnls, i, j, d);
      PrefixesGrow(pnls, i, j);
    } else {
      var k :| 0 <= k < |pnls| && pnls[k] < 0.0;
      PrefixStep(pnls, k);
      assert Prefix(pnls, k) - Prefix(pnls, k + 1) <= d;
    }
  }

  lemma {:induction false} PrefixesGrow(pnls: seq<real>, i: nat, j: nat)
    requires i <= j <= |pnls| && forall k :: 0 <= k < |pnls| ==> pnls[k] >= 0.0
    ensures Prefix(pnls, i) <= Prefix(pnls, j)
    decreases j
  {
    if i < j {
      PrefixesGrow(pnls, i, j - 1);
      PrefixStep(pnls, j - 1);
    }
  }

  /** A day's drawdown is at least that of any stretch of it. */
  lemma StretchFallsLess(pnls: seq<real>, from: nat, to: nat, d: real, part: real)
    requires from <= to <= |pnls| && IsMaxDrawdown(pnls, d) && IsMaxDrawdown(pnls[from..to], part)
    ensures part <= d
  {
    var i: nat, j: nat :| Falls(pnls[from..to], i, j, part);
    PrefixOfStretch(pnls, from, to, i);
    PrefixOfStretch(pnls, from, to, j);
    assert Prefix(pnls, from + i) - Prefix(pnls, from + j) <= d;
  }

  lemma {:induction false} PrefixOfStretch(pnls: seq<real>, from: nat, to: nat, k: nat)
    requires from <= to <= |pnls| && k <= to - from
    ensures Prefix(pnls, from + k) == Prefix(pnls, from) + Prefix(pnls[from..to], k)
    decreases k
  {
    if k > 0 {
      PrefixOfStretch(pnls, from, to, k - 1);
      PrefixStep(pnls, from + k - 1);
      PrefixStep(pnls[from..to], k - 1);
    }
  }

  /** Wins and losses in numbers: the closes above zero, and those below. */
  lemma WinsAndLosses(pnls: seq<real>)
    ensures CountWhere(pnls, Winning) == |set k: nat | k < |pnls| && pnls[k] > 0.0|
    ensures CountWhere(pnls, Losing) == |set k: nat | k < |pnls| && pnls[k] < 0.0|
  {
    CountIsASet(pnls, Winning);
    CountIsASet(pnls, Losing);
    assert (set k: nat | k < |pnls| && Winning(pnls[k])) == set k: nat | k < |pnls| && pnls[k] > 0.0;
    assert (set k: nat | k < |pnls| && Losing(pnls[k])) == set k: nat | k < |pnls| && pnls[k] < 0.0;
  }

  lemma {:induction false} CountIsASet(pnls: seq<real>, test: real -> bool)
    ensures CountWhere(pnls, test) == |set k: nat | k < |pnls| && test(pnls[k])|
  {
    var counted := set k: nat | k < |pnls| && test(pnls[k]);
    if pnls == [] {
      assert counted == {};
    } else {
      var n := |pnls| - 1;
      CountIsASet(pnls[..n], test);
      OneMore((set k: nat | k < n && test(pnls[..n][k])), counted, n, test(pnls[n]));
    }
  }
}
