/** The closed-trade expectancy report with its up, down and flat split. */
module EdgeReport {
  import opened Wrappers
  import opened Moments
  import opened Counting
  import opened Decimals

  const BTC_REGIME_PARTITION_PCT := 1.5
  const REGIME_BUCKET_MIN_N := 8
  const MIN_CLOSED_TRADES_FOR_EDGE_VERDICT := 20
  const MIN_TRADING_DAYS_FOR_EDGE_VERDICT := 3

  datatype Kind = Up | Down | Flat

  /** A trade whose R-multiple could be reconstructed; the move is absent when the snapshot has none that reads as a finite number. */
  datatype Trade = Trade(utcDate: string, risk: real, rMultiple: real, btcMove: Option<real>)

  datatype Row = Row(utcDate: string, reconstructed: Option<(real, real)>, btcMove: Option<real>)

  datatype Bucket = Bucket(n: nat, mean: Option<real>)

  datatype Report = Report(
    n: nat, distinctTradingDays: nat, mean: Option<real>, squaredStdError: Option<real>, clampedTradeCount: nat, clampedTradeFraction: string,
    up: Bucket, down: Bucket, flat: Bucket, regimeRobustnessPasses: bool, slotCGateOpen: bool)
  {
    /** The whole sample, read as one bucket. */
    function Whole(): Bucket {
      Bucket(n, mean)
    }
  }

  function Classify(move: Option<real>): Kind {
    if move.None? then Flat
    else if move.value >= BTC_REGIME_PARTITION_PCT then Up
    else if move.value <= -BTC_REGIME_PARTITION_PCT then Down
    else Flat
  }

  /** The rows that carry an R-multiple, in order. */
  function Eligible(rows: seq<Row>): (trades: seq<Trade>)
    ensures |trades| <= |rows|
  {
    if rows == [] then []
    else
      var row := rows[|rows| - 1];
      Eligible(rows[..|rows| - 1])
      + if row.reconstructed.None? then []
        else [Trade(row.utcDate, row.reconstructed.value.0, row.reconstructed.value.1, row.btcMove)]
  }

  function RMultiples(trades: seq<Trade>): (rs: seq<real>)
    ensures |rs| == |trades|
  {
    if trades == [] then [] else RMultiples(trades[..|trades| - 1]) + [trades[|trades| - 1].rMultiple]
  }

  function OfKind(trades: seq<Trade>, kind: Kind): seq<real> {
    if trades == [] then []
    else
      var last := trades[|trades| - 1];
      OfKind(trades[..|trades| - 1], kind) + if Classify(last.btcMove) == kind then [last.rMultiple] else []
  }

  function CountClamped(trades: seq<Trade>, target: real): (n: nat)
    ensures n <= |trades|
  {
    if trades == [] then 0
    else CountClamped(trades[..|trades| - 1], target) + if trades[|trades| - 1].risk < target then 1 else 0
  }

  function MeanOf(xs: seq<real>): Option<real> {
    if xs == [] then None else Some(Mean(xs))
  }

  function BucketFrom(xs: seq<real>): Bucket {
    Bucket(|xs|, MeanOf(xs))
  }

  method ComputeMean(values: seq<real>) returns (mean: Option<real>)
    ensures mean == MeanOf(values)
  {
    if values == [] {
      return None;
    }
    var sum := 0.0;
    for k := 0 to |values|
      invariant sum == Sum(values[..k])
    {
      assert values[..k + 1][..k] == values[..k];
      sum := sum + values[k];
    }
    assert values[..|values|] == values;
    return Some(sum / |values| as real);
  }

  /** The square of the standard error; the source takes the two square roots. */
  method ComputeSquaredStandardError(values: seq<real>, mean: Option<real>) returns (squared: Option<real>)
    requires mean == MeanOf(values)
    ensures squared == if |values| < 2 then None else Some(Variance(values) / (|values| - 1) as real)
  {
    hide Square;
    if |values| < 2 || mean.None? {
      return None;
    }
    var sum := 0.0;
    for k := 0 to |values|
      invariant sum == SumOfSquaredDeviations(values[..k], mean.value)
    {
      assert values[..k + 1][..k] == values[..k];
      var deviation := values[k] - mean.value;
      sum := sum + Square(deviation);
    }
    assert values[..|values|] == values;
    var variance := sum / (|values| - 1) as real;
    SampleAgainstPopulation(values);
    return Some(variance / |values| as real);
  }

  method BuildRegimeBucket(eligible: seq<Trade>, rMultiples: seq<real>, kind: Kind) returns (bucket: Bucket)
    requires rMultiples == RMultiples(eligible)
    ensures bucket == BucketFrom(OfKind(eligible, kind))
  {
    var bucketRMultiples: seq<real> := [];
    for i := 0 to |eligible|
      invariant bucketRMultiples == OfKind(eligible[..i], kind)
    {
      assert eligible[..i + 1][..i] == eligible[..i];
      if Classify(eligible[i].btcMove) == kind {
        RMultipleAt(eligible, i);
        bucketRMultiples := bucketRMultiples + [rMultiples[i]];
      }
    }
    assert eligible[..|eligible|] == eligible;
    var mean := ComputeMean(bucketRMultiples);
    return Bucket(|bucketRMultiples|, mean);
  }

  lemma {:induction false} RMultipleAt(trades: seq<Trade>, i: nat)
    requires i < |trades|
    ensures RMultiples(trades)[i] == trades[i].rMultiple
  {
    if i < |trades| - 1 {
      RMultipleAt(trades[..|trades| - 1], i);
    }
  }

  function SignOf(x: real): int {
    if x > 0.0 then 1 else if x < 0.0 then -1 else 0
  }

  /** A bucket takes no part, or its mean has the aggregate's sign. */
  predicate Agrees(bucket: Bucket, mean: real) {
    bucket.n < REGIME_BUCKET_MIN_N || bucket.mean.None? || SignOf(bucket.mean.value) == SignOf(mean)
  }

  method ComputeRegimeRobustness(mean: Option<real>, buckets: seq<Bucket>) returns (passes: bool)
    ensures passes <==> mean.Some? && forall k :: 0 <= k < |buckets| ==> Agrees(buckets[k], mean.value)
  {
    if mean.None? {
      return false;
    }
    for k := 0 to |buckets|
      invariant forall j :: 0 <= j < k ==> Agrees(buckets[j], mean.value)
    {
      if buckets[k].n < REGIME_BUCKET_MIN_N || buckets[k].mean.None? {
        continue;
      }
      if SignOf(buckets[k].mean.value) != SignOf(mean.value) {
        return false;
      }
    }
    return true;
  }

  method CountDistinctTradingDays(eligible: seq<Trade>) returns (count: nat)
    ensures count == |set t | t in eligible :: t.utcDate|
  {
    var days: set<string> := {};
    for k := 0 to |eligible|
      invariant days == set t | t in eligible[..k] :: t.utcDate
    {
      assert eligible[..k + 1] == eligible[..k] + [eligible[k]];
      days := days + {eligible[k].utcDate};
    }
    assert eligible[..|eligible|] == eligible;
    return |days|;
  }

  method CountClampedTrades(eligible: seq<Trade>, target: real) returns (clamped: nat)
    ensures clamped == CountClamped(eligible, target)
  {
    clamped := 0;
    for k := 0 to |eligible|
      invariant clamped == CountClamped(eligible[..k], target)
    {
      assert eligible[..k + 1][..k] == eligible[..k];
      if eligible[k].risk < target {
        clamped := clamped + 1;
      }
    }
    assert eligible[..|eligible|] == eligible;
  }

  /** `hundredths` is the share in hundredths, rounded to the nearest, halves upward. */
  predicate IsRoundedShare(hundredths: nat, part: nat, whole: nat) {
    2 * whole * hundredths <= 200 * part + whole < 2 * whole * (hundredths + 1)
  }

  /** A number of hundredths with two digits after the point. */
  function TwoDecimals(hundredths: nat): string {
    FromNat(hundredths / 100) + "." + [DigitChar(hundredths / 10 % 10), DigitChar(hundredths % 10)]
  }

  /** The share as the report shows it; the share of nothing is zero. */
  ghost predicate IsShare(share: string, part: nat, whole: nat) {
    exists hundredths: nat :: share == TwoDecimals(hundredths) && if whole == 0 then hundredths == 0 else IsRoundedShare(hundredths, part, whole)
  }

  method ComputeClampedFraction(clamped: nat, n: nat) returns (share: string)
    ensures IsShare(share, clamped, n)
  {
    if n == 0 {
      share := TwoDecimals(0);
    } else {
      RoundedQuotient(clamped, n);
      share := TwoDecimals((200 * clamped + n) / (2 * n));
    }
  }

  lemma RoundedQuotient(part: nat, whole: nat)
    requires whole > 0
    ensures IsRoundedShare((200 * part + whole) / (2 * whole), part, whole)
  {
    var q := (200 * part + whole) / (2 * whole);
    assert 200 * part + whole == 2 * whole * q + (200 * part + whole) % (2 * whole);
    assert 2 * whole * (q + 1) == 2 * whole * q + 2 * whole;
  }

  /** What a report says of its rows. */
  ghost predicate IsReportOf(report: Report, rows: seq<Row>, target: real) {
    var trades := Eligible(rows);
    var rs := RMultiples(trades);
    report.n == |rs| && report.mean == MeanOf(rs)
    && report.distinctTradingDays == |set t | t in trades :: t.utcDate|
    && report.squaredStdError == (if |rs| < 2 then None else Some(Variance(rs) / (|rs| - 1) as real))
    && report.clampedTradeCount == CountClamped(trades, target)
    && IsShare(report.clampedTradeFraction, report.clampedTradeCount, report.n)
    && report.up == BucketFrom(OfKind(trades, Up))
    && report.down == BucketFrom(OfKind(trades, Down))
    && report.flat == BucketFrom(OfKind(trades, Flat))
    && (report.regimeRobustnessPasses <==>
        report.mean.Some? && Agrees(report.up, report.mean.value) && Agrees(report.down, report.mean.value) && Agrees(report.flat, report.mean.value))
    && (report.slotCGateOpen <==>
        report.n >= MIN_CLOSED_TRADES_FOR_EDGE_VERDICT && report.distinctTradingDays >= MIN_TRADING_DAYS_FOR_EDGE_VERDICT)
  }

  method AggregateEdgeReport(rows: seq<Row>, target: real) returns (report: Report)
    ensures IsReportOf(report, rows, target)
  {
    hide Classify, Eligible, RMultiples, OfKind, CountClamped, Agrees, IsShare, Variance, BucketFrom, MeanOf;
    var eligible := Eligible(rows);
    var rMultiples := RMultiples(eligible);
    var n := |rMultiples|;
    var distinctTradingDays := CountDistinctTradingDays(eligible);
    var mean := ComputeMean(rMultiples);
    var squaredStdError := ComputeSquaredStandardError(rMultiples, mean);
    var clamped := CountClampedTrades(eligible, target);
    var fraction := ComputeClampedFraction(clamped, n);
    var up := BuildRegimeBucket(eligible, rMultiples, Up);
    var down := BuildRegimeBucket(eligible, rMultiples, Down);
    var flat := BuildRegimeBucket(eligible, rMultiples, Flat);
    var buckets := [up, down, flat];
    var passes := ComputeRegimeRobustness(mean, buckets);
    assert buckets[0] == up && buckets[1] == down && buckets[2] == flat;
    report := Report(n, distinctTradingDays, mean, squaredStdError, clamped, fraction, up, down, flat, passes,
                     n >= MIN_CLOSED_TRADES_FOR_EDGE_VERDICT && distinctTradingDays >= MIN_TRADING_DAYS_FOR_EDGE_VERDICT);
  }

  // --- what the split keeps ---

  /** Every trade falls into one bucket: sizes and sums add up. */
  lemma {:induction false} BucketsPartition(trades: seq<Trade>)
    ensures |OfKind(trades, Up)| + |OfKind(trades, Down)| + |OfKind(trades, Flat)| == |trades|
    ensures Sum(OfKind(trades, Up)) + Sum(OfKind(trades, Down)) + Sum(OfKind(trades, Flat)) == Sum(RMultiples(trades))
  {
    if trades != [] {
      var front, last := trades[..|trades| - 1], trades[|trades| - 1];
      BucketsPartition(front);
      SumsOfTwo(RMultiples(front), [last.rMultiple]);
      forall kind: Kind {
        KindStep(trades, kind);
      }
      SumsOfOne(last.rMultiple);
    }
  }

  lemma KindStep(trades: seq<Trade>, kind: Kind)
    requires trades != []
    ensures var front, last := trades[..|trades| - 1], trades[|trades| - 1];
            |OfKind(trades, kind)| == |OfKind(front, kind)| + (if Classify(last.btcMove) == kind then 1 else 0)
            && Sum(OfKind(trades, kind)) == Sum(OfKind(front, kind)) + if Classify(last.btcMove) == kind then last.rMultiple else 0.0
  {
    var front, last := trades[..|trades| - 1], trades[|trades| - 1];
    if Classify(last.btcMove) == kind {
      SumsOfTwo(OfKind(front, kind), [last.rMultiple]);
      SumsOfOne(last.rMultiple);
    } else {
      assert OfKind(front, kind) + [] == OfKind(front, kind);
    }
  }

  /** A bucket's weight in the aggregate: its size times its mean. */
  function Weight(bucket: Bucket): real {
    if bucket.mean.None? then 0.0 else bucket.n as real * bucket.mean.value
  }

  lemma WeightIsSum(xs: seq<real>)
    ensures Weight(BucketFrom(xs)) == Sum(xs)
    ensures BucketFrom(xs).n == |xs| && (BucketFrom(xs).mean.Some? <==> |xs| > 0)
  {
  }

  /** The buckets split the sample: their sizes add up, and their weighted means make the aggregate mean. */
  lemma BucketsRecombine(report: Report, rows: seq<Row>, target: real)
    requires IsReportOf(report, rows, target)
    ensures report.up.n + report.down.n + report.flat.n == report.n
    ensures Weight(report.up) + Weight(report.down) + Weight(report.flat) == Weight(report.Whole())
    ensures Filled(report.up) && Filled(report.down) && Filled(report.flat) && Filled(report.Whole())
  {
    hide Weight, BucketFrom, IsReportOf;
    var trades := Eligible(rows);
    BucketsOf(report, rows, target);
    BucketsPartition(trades);
    WeightIsSum(OfKind(trades, Up));
    WeightIsSum(OfKind(trades, Down));
    WeightIsSum(OfKind(trades, Flat));
    WeightIsSum(RMultiples(trades));
  }

  lemma BucketsOf(report: Report, rows: seq<Row>, target: real)
    requires IsReportOf(report, rows, target)
    ensures report.Whole() == BucketFrom(RMultiples(Eligible(rows)))
    ensures report.up == BucketFrom(OfKind(Eligible(rows), Up)) && report.down == BucketFrom(OfKind(Eligible(rows), Down))
    ensures report.flat == BucketFrom(OfKind(Eligible(rows), Flat))
    ensures report.regimeRobustnessPasses <==>
            report.mean.Some? && Agrees(report.up, report.mean.value) && Agrees(report.down, report.mean.value)
            && Agrees(report.flat, report.mean.value)
  {
    hide Eligible, RMultiples, OfKind, Agrees;
  }

  predicate Filled(bucket: Bucket) {
    bucket.mean.Some? <==> bucket.n > 0
  }

  predicate HasSign(bucket: Bucket, sign: int) {
    bucket.mean.Some? ==> SignOf(bucket.mean.value) == sign
  }

  /** Non-empty buckets that share a sign give it to the aggregate, and the report passes. */
  lemma SharedSignIsRobust(report: Report, rows: seq<Row>, target: real, sign: int)
    requires IsReportOf(report, rows, target) && report.n > 0
    requires HasSign(report.up, sign) && HasSign(report.down, sign) && HasSign(report.flat, sign)
    ensures report.mean.Some? && SignOf(report.mean.value) == sign && report.regimeRobustnessPasses
  {
    hide Weight, IsReportOf;
    BucketsRecombine(report, rows, target);
    BucketsOf(report, rows, target);
    SignOfWeight(report.up);
    SignOfWeight(report.down);
    SignOfWeight(report.flat);
    SignOfWeight(report.Whole());
  }

  lemma SignOfWeight(bucket: Bucket)
    requires Filled(bucket)
    ensures bucket.mean.Some? ==> SignOf(Weight(bucket)) == SignOf(bucket.mean.value)
    ensures bucket.mean.None? ==> Weight(bucket) == 0.0
  {
    if bucket.mean.Some? {
      SignOfProduct(bucket.n as real, bucket.mean.value);
    }
  }

  lemma SignOfProduct(n: real, x: real)
    requires n > 0.0
    ensures SignOf(n * x) == SignOf(x)
  {
  }

  /** A report over some trades fails only where a bucket of at least the minimum size disagrees in sign with another bucket. */
  lemma FailureHasAWitness(report: Report, rows: seq<Row>, target: real)
    requires IsReportOf(report, rows, target) && report.n > 0 && !report.regimeRobustnessPasses
    ensures report.n > REGIME_BUCKET_MIN_N
    ensures Disagree(report.up, report.down) || Disagree(report.down, report.flat) || Disagree(report.flat, report.up)
  {
    hide Weight, IsReportOf, SignOf;
    BucketsRecombine(report, rows, target);
    BucketsOf(report, rows, target);
    var large := if !Agrees(report.up, report.mean.value) then report.up
                 else if !Agrees(report.down, report.mean.value) then report.down else report.flat;
    var sign := SignOf(large.mean.value);
    if HasSign(report.up, sign) && HasSign(report.down, sign) && HasSign(report.flat, sign) {
      SharedSignIsRobust(report, rows, target, sign);
    }
  }

  predicate Disagree(a: Bucket, b: Bucket) {
    a.mean.Some? && b.mean.Some? && SignOf(a.mean.value) != SignOf(b.mean.value)
    && (a.n >= REGIME_BUCKET_MIN_N || b.n >= REGIME_BUCKET_MIN_N)
  }

  /** No more than one, and within half a hundredth of the true share. */
  predicate WithinHalf(hundredths: nat, part: nat, whole: nat) {
    && hundredths <= 100 && (whole == 0 ==> hundredths == 0)
    && 2 * whole * hundredths - whole <= 200 * part <= 2 * whole * hundredths + whole
  }

  /** The clamped share shown is a share, and the nearest one with two digits. */
  lemma ClampedFractionIsAShare(report: Report, rows: seq<Row>, target: real) returns (hundredths: nat)
    requires IsReportOf(report, rows, target)
    ensures report.clampedTradeFraction == TwoDecimals(hundredths) && WithinHalf(hundredths, report.clampedTradeCount, report.n)
  {
    hide Eligible, RMultiples, OfKind, Agrees, Variance, Sum, Mean, TwoDecimals, IsRoundedShare, WithinHalf;
    assert report.clampedTradeCount <= report.n;
    assert IsShare(report.clampedTradeFraction, report.clampedTradeCount, report.n);
    hundredths :| report.clampedTradeFraction == TwoDecimals(hundredths)
                  && if report.n == 0 then hundredths == 0 else IsRoundedShare(hundredths, report.clampedTradeCount, report.n);
    RoundedBounds(hundredths, report.clampedTradeCount, report.n);
  }

  lemma RoundedBounds(hundredths: nat, part: nat, whole: nat)
    requires part <= whole && if whole == 0 then hundredths == 0 else IsRoundedShare(hundredths, part, whole)
    ensures WithinHalf(hundredths, part, whole)
  {
    assert 2 * whole * (hundredths + 1) == 2 * whole * hundredths + 2 * whole;
    ProductGrows(2 * whole, 101, hundredths);
  }

  lemma ProductGrows(w: nat, a: nat, b: nat)
    ensures a <= b ==> w * a <= w * b
  {
  }

  // --- the report's classes and floors, in numbers ---

  /** The split: up from a move of one and a half percent on, down from its negative on, flat in between and where there is none. */
  lemma ClassesInNumbers(move: Option<real>)
    ensures Classify(move) == Up <==> move.Some? && move.value >= 1.5
    ensures Classify(move) == Down <==> move.Some? && move.value <= -1.5
    ensures Classify(move) == Flat <==> move.None? || -1.5 < move.value < 1.5
  {
  }

  lemma {:induction false} KindInNumbers(trades: seq<Trade>, kind: Kind)
    ensures |OfKind(trades, kind)| == |set k: nat | k < |trades| && Classify(trades[k].btcMove) == kind|
  {
    hide Classify;
    var counted := set k: nat | k < |trades| && Classify(trades[k].btcMove) == kind;
    if trades == [] {
      assert counted == {};
    } else {
      var n := |trades| - 1;
      KindInNumbers(trades[..n], kind);
      KindStep(trades, kind);
      OneMore((set k: nat | k < n && Classify(trades[..n][k].btcMove) == kind), counted, n, Classify(trades[n].btcMove) == kind);
    }
  }

  lemma {:induction false} ClampedInNumbers(trades: seq<Trade>, target: real)
    ensures CountClamped(trades, target) == |set k: nat | k < |trades| && trades[k].risk < target|
  {
    var counted := set k: nat | k < |trades| && trades[k].risk < target;
    if trades == [] {
      assert counted == {};
    } else {
      var n := |trades| - 1;
      ClampedInNumbers(trades[..n], target);
      OneMore((set k: nat | k < n && trades[..n][k].risk < target), counted, n, trades[n].risk < target);
    }
  }

  lemma {:induction false} EligibleInNumbers(rows: seq<Row>)
    ensures |Eligible(rows)| == |set k: nat | k < |rows| && rows[k].reconstructed.Some?|
  {
    var counted := set k: nat | k < |rows| && rows[k].reconstructed.Some?;
    if rows == [] {
      assert counted == {};
    } else {
      var n := |rows| - 1;
      EligibleInNumbers(rows[..n]);
      OneMore((set k: nat | k < n && rows[..n][k].reconstructed.Some?), counted, n, rows[n].reconstructed.Some?);
    }
  }

  /** The trades are the rows with an R-multiple, as they stand. */
  lemma {:induction false} EligibleTrades(rows: seq<Row>, trade: Trade)
    ensures trade in Eligible(rows) <==>
              exists k :: 0 <= k < |rows| && rows[k].reconstructed.Some?
                          && trade == Trade(rows[k].utcDate, rows[k].reconstructed.value.0, rows[k].reconstructed.value.1, rows[k].btcMove)
  {
    if rows != [] {
      EligibleTrades(rows[..|rows| - 1], trade);
    }
  }

  /** What a report counts, in numbers. */
  lemma ReportInNumbers(report: Report, rows: seq<Row>, target: real)
    requires IsReportOf(report, rows, target)
    ensures report.n == |set k: nat | k < |rows| && rows[k].reconstructed.Some?|
    ensures var trades := Eligible(rows);
            && report.up.n == |set k: nat | k < |trades| && trades[k].btcMove.Some? && trades[k].btcMove.value >= 1.5|
            && report.down.n == |set k: nat | k < |trades| && trades[k].btcMove.Some? && trades[k].btcMove.value <= -1.5|
            && report.clampedTradeCount == |set k: nat | k < |trades| && trades[k].risk < target|
  {
    hide Eligible, RMultiples, OfKind, Classify, CountClamped, BucketFrom, MeanOf, Variance, IsShare, Agrees;
    var trades := Eligible(rows);
    EligibleInNumbers(rows);
    KindInNumbers(trades, Up);
    KindInNumbers(trades, Down);
    ClampedInNumbers(trades, target);
    BucketSizes(trades);
    UpAndDown(trades);
  }

  lemma UpAndDown(trades: seq<Trade>)
    ensures (set k: nat | k < |trades| && Classify(trades[k].btcMove) == Up) == set k: nat | k < |trades| && trades[k].btcMove.Some? && trades[k].btcMove.value >= 1.5
    ensures (set k: nat | k < |trades| && Classify(trades[k].btcMove) == Down) == set k: nat | k < |trades| && trades[k].btcMove.Some? && trades[k].btcMove.value <= -1.5
  {
    forall k: nat | k < |trades|
      ensures Classify(trades[k].btcMove) == Up <==> trades[k].btcMove.Some? && trades[k].btcMove.value >= 1.5
      ensures Classify(trades[k].btcMove) == Down <==> trades[k].btcMove.Some? && trades[k].btcMove.value <= -1.5
    {
      ClassesInNumbers(trades[k].btcMove);
    }
  }

  /** When the gate is open, in numbers, and when the split fails. */
  lemma VerdictsInNumbers(report: Report, rows: seq<Row>, target: real)
    requires IsReportOf(report, rows, target)
    ensures report.slotCGateOpen <==> report.n >= 20 && report.distinctTradingDays >= 3
    ensures report.mean.None? ==> !report.regimeRobustnessPasses
    ensures report.mean.Some? ==>
              (!report.regimeRobustnessPasses
               <==> Contradicts(report.up, report.mean.value) || Contradicts(report.down, report.mean.value) || Contradicts(report.flat, report.mean.value))
  {
    hide Eligible, RMultiples, OfKind, CountClamped, BucketFrom, MeanOf, Variance, IsShare;
  }

  /** The squared standard error is the sample variance shared out over the trades, from two trades on. */
  lemma StandardErrorExact(report: Report, rows: seq<Row>, target: real)
    requires IsReportOf(report, rows, target)
    ensures report.n == |RMultiples(Eligible(rows))| && (report.squaredStdError.Some? <==> report.n >= 2)
    ensures report.n >= 2 ==> report.squaredStdError.value * report.n as real == SampleVariance(RMultiples(Eligible(rows)))
  {
    hide Eligible, RMultiples, OfKind, CountClamped, BucketFrom, MeanOf, Variance, IsShare, Agrees, SampleVariance;
    var rs := RMultiples(Eligible(rows));
    if report.n >= 2 {
      SampleAgainstPopulation(rs);
      TimesQuotient(SampleVariance(rs), report.n as real);
    }
  }

  lemma TimesQuotient(x: real, n: real)
    requires n != 0.0
    ensures x / n * n == x
  {
  }

  lemma BucketSizes(trades: seq<Trade>)
    ensures forall kind: Kind :: BucketFrom(OfKind(trades, kind)).n == |OfKind(trades, kind)|
  {
  }

  /** Eight trades or more, with a mean on another side of zero than the sample's. */
  predicate Contradicts(bucket: Bucket, mean: real) {
    && bucket.n >= 8 && bucket.mean.Some?
    && !(bucket.mean.value > 0.0 && mean > 0.0) && !(bucket.mean.value < 0.0 && mean < 0.0) && !(bucket.mean.value == 0.0 && mean == 0.0)
  }
}
