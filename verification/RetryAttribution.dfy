/** The matched control of retry entries against first attempts, and the drift histogram. */
module RetryAttribution {
  import opened Wrappers
  import opened Moments
  import opened Counting

  /** A numeric column read as text. */
  datatype Numeric = Null | Malformed | NonFinite | Finite(value: real)

  datatype Row = Row(realizedPnl: Numeric, entryNotional: Numeric, coinTier: Option<string>, atrAtEntry: Numeric, entryPrice: Numeric)

  /** The band edges below the last, infinite one. */
  const RETRY_ATR_PCT_BUCKET_EDGES: seq<real> := [0.0, 0.01, 0.02, 0.04]
  const ATR_PCT_BUCKET_LABELS: seq<string> := ["[0,0.01)", "[0.01,0.02)", "[0.02,0.04)", "[0.04,\U{221E})"]
  const RETRY_DRIFT_BUCKET_EDGES: seq<real> := [0.0, 0.25, 0.5, 0.75, 1.0, 1.25, 1.5, 1.75, 2.0]

  const UNKNOWN := "unknown"

  // --- bands ---

  ghost predicate Increasing(edges: seq<real>) {
    forall i, j :: 0 <= i < j < |edges| ==> edges[i] < edges[j]
  }

  predicate InBand(edges: seq<real>, value: real, i: nat) {
    i < |edges| && edges[i] <= value && (i + 1 < |edges| ==> value < edges[i + 1])
  }

  function BandIndex(edges: seq<real>, value: real): (i: nat)
    requires edges != [] && edges[0] <= value
    ensures InBand(edges, value, i)
  {
    if |edges| == 1 || value < edges[1] then 0 else 1 + BandIndex(edges[1..], value)
  }

  /** Half-open bands cover every value from the first edge on, each by exactly one. */
  lemma BandsPartition(edges: seq<real>, value: real, i: nat)
    requires edges != [] && Increasing(edges) && edges[0] <= value
    ensures InBand(edges, value, i) <==> i == BandIndex(edges, value)
  {
    var k := BandIndex(edges, value);
    assert forall j :: k < j < |edges| ==> edges[k + 1] <= edges[j];
    assert forall j :: i < j < |edges| ==> edges[i + 1] <= edges[j];
  }

  method ResolveBucketIndex(edges: seq<real>, value: real) returns (i: nat)
    requires edges != [] && Increasing(edges) && edges[0] <= value
    ensures i == BandIndex(edges, value)
  {
    for k := 1 to |edges|
      invariant edges[k - 1] <= value
    {
      if value < edges[k] {
        BandsPartition(edges, value, k - 1);
        return k - 1;
      }
    }
    BandsPartition(edges, value, |edges| - 1);
    return |edges| - 1;
  }

  predicate Usable(drift: Numeric) {
    drift.Finite? && drift.value >= 0.0
  }

  /** How many measured, non-negative drifts fall into band `i`. */
  function CountInBand(drifts: seq<Numeric>, i: nat): nat {
    if drifts == [] then 0
    else
      var last := drifts[|drifts| - 1];
      CountInBand(drifts[..|drifts| - 1], i)
      + if Usable(last) && InBand(RETRY_DRIFT_BUCKET_EDGES, last.value, i) then 1 else 0
  }

  lemma CountInBandStep(drifts: seq<Numeric>, k: nat, i: nat)
    requires k < |drifts|
    ensures CountInBand(drifts[..k + 1], i) == CountInBand(drifts[..k], i)
              + if Usable(drifts[k]) && InBand(RETRY_DRIFT_BUCKET_EDGES, drifts[k].value, i) then 1 else 0
  {
    assert drifts[..k + 1][..k] == drifts[..k];
  }

  method ComputeDriftDistribution(drifts: seq<Numeric>) returns (counts: seq<nat>)
    ensures |counts| == |RETRY_DRIFT_BUCKET_EDGES|
    ensures forall i :: 0 <= i < |counts| ==> counts[i] == CountInBand(drifts, i)
  {
    var tally := new nat[|RETRY_DRIFT_BUCKET_EDGES|](_ => 0);
    for k := 0 to |drifts|
      invariant forall i :: 0 <= i < tally.Length ==> tally[i] == CountInBand(drifts[..k], i)
    {
      forall i: nat {
        CountInBandStep(drifts, k, i);
      }
      if Usable(drifts[k]) {
        var drift := drifts[k].value;
        var index := ResolveBucketIndex(RETRY_DRIFT_BUCKET_EDGES, drift);
        forall i: nat
          ensures InBand(RETRY_DRIFT_BUCKET_EDGES, drift, i) <==> i == index
        {
          BandsPartition(RETRY_DRIFT_BUCKET_EDGES, drift, i);
        }
        tally[index] := tally[index] + 1;
      }
    }
    assert drifts[..|drifts|] == drifts;
    return tally[..];
  }

  // --- cells ---

  /** Return on entry notional, or nothing where it cannot be computed. */
  function ReturnOnNotional(row: Row): Option<real> {
    if row.realizedPnl.Finite? && row.entryNotional.Finite? && row.entryNotional.value != 0.0
    then Some(row.realizedPnl.value / row.entryNotional.value)
    else None
  }

  function Tier(row: Row): string {
    if row.coinTier.Some? then row.coinTier.value else UNKNOWN
  }

  function Band(row: Row): string {
    if !row.atrAtEntry.Finite? || !row.entryPrice.Finite? || row.entryPrice.value <= 0.0 then UNKNOWN
    else
      var atrPct := row.atrAtEntry.value / row.entryPrice.value;
      if atrPct < 0.0 then UNKNOWN
      else ATR_PCT_BUCKET_LABELS[BandIndex(RETRY_ATR_PCT_BUCKET_EDGES, atrPct)]
  }

  /** A row's return is what, times its notional, makes its profit; it has none where one of them is not a finite number, or the notional is zero. */
  lemma ReturnExact(row: Row, x: real)
    ensures ReturnOnNotional(row) == Some(x)
            <==> row.realizedPnl.Finite? && row.entryNotional.Finite? && row.entryNotional.value != 0.0
                 && x * row.entryNotional.value == row.realizedPnl.value
  {
    if row.realizedPnl.Finite? && row.entryNotional.Finite? && row.entryNotional.value != 0.0 {
      QuotientIs(x, row.realizedPnl.value, row.entryNotional.value);
    }
  }

  lemma QuotientIs(x: real, a: real, b: real)
    requires b != 0.0
    ensures x == a / b <==> x * b == a
  {
  }

  lemma QuotientBelow(a: real, b: real, e: real)
    requires b > 0.0
    ensures a / b < e <==> a < e * b
    ensures a / b < 0.0 <==> a < 0.0
  {
    var q := a / b;
    assert q * b == a;
    ProductBelow(q, e, b);
    ProductBelow(q, 0.0, b);
  }

  lemma ProductBelow(x: real, y: real, b: real)
    requires b > 0.0
    ensures x < y <==> x * b < y * b
  {
    assert (y - x) * b == y * b - x * b;
    assert y - x > 0.0 ==> (y - x) * b > 0.0;
    assert y - x <= 0.0 ==> (y - x) * b <= 0.0;
  }

  /** A row's cell: the tier it names, or unknown, and the band of its ATR against one, two and four hundredths of its price, unknown where a number is missing, the price not positive, or the ATR negative. */
  lemma BandExact(row: Row)
    ensures row.coinTier.Some? ==> Tier(row) == row.coinTier.value
    ensures row.coinTier.None? ==> Tier(row) == "unknown"
    ensures var known := row.atrAtEntry.Finite? && row.entryPrice.Finite? && row.entryPrice.value > 0.0 && row.atrAtEntry.value >= 0.0;
            && (!known ==> Band(row) == "unknown")
            && (known ==>
                  var atr, price := row.atrAtEntry.value, row.entryPrice.value;
                  Band(row) == if atr < 0.01 * price then "[0,0.01)" else if atr < 0.02 * price then "[0.01,0.02)"
                               else if atr < 0.04 * price then "[0.02,0.04)" else "[0.04,\U{221E})")
  {
    if row.atrAtEntry.Finite? && row.entryPrice.Finite? && row.entryPrice.value > 0.0 {
      var atr, price := row.atrAtEntry.value, row.entryPrice.value;
      QuotientBelow(atr, price, 0.01);
      QuotientBelow(atr, price, 0.02);
      QuotientBelow(atr, price, 0.04);
      if atr / price >= 0.0 {
        var k := if atr / price < 0.01 then 0 else if atr / price < 0.02 then 1 else if atr / price < 0.04 then 2 else 3;
        BandsPartition(RETRY_ATR_PCT_BUCKET_EDGES, atr / price, k);
      }
    }
  }

  /** The histogram in numbers: band `i` counts the finite drifts from a quarter of `i` up to the next quarter, the last one all from two on. */
  lemma {:induction false} DriftsInNumbers(drifts: seq<Numeric>, i: nat)
    requires i < 9
    ensures CountInBand(drifts, i)
         == |set k: nat | k < |drifts| && drifts[k].Finite? && 0.25 * i as real <= drifts[k].value && (i < 8 ==> drifts[k].value < 0.25 * (i + 1) as real)|
  {
    var counted := set k: nat | k < |drifts| && drifts[k].Finite? && 0.25 * i as real <= drifts[k].value && (i < 8 ==> drifts[k].value < 0.25 * (i + 1) as real);
    if drifts == [] {
      assert counted == {};
    } else {
      var n := |drifts| - 1;
      var before := set k: nat | k < n && drifts[..n][k].Finite? && 0.25 * i as real <= drifts[..n][k].value && (i < 8 ==> drifts[..n][k].value < 0.25 * (i + 1) as real);
      DriftsInNumbers(drifts[..n], i);
      QuarterEdges(drifts[n], i);
      OneMore(before, counted, n, Usable(drifts[n]) && InBand(RETRY_DRIFT_BUCKET_EDGES, drifts[n].value, i));
    }
  }

  lemma QuarterEdges(drift: Numeric, i: nat)
    requires i < 9
    ensures Usable(drift) && InBand(RETRY_DRIFT_BUCKET_EDGES, drift.value, i)
            <==> drift.Finite? && 0.25 * i as real <= drift.value && (i < 8 ==> drift.value < 0.25 * (i + 1) as real)
  {
    assert RETRY_DRIFT_BUCKET_EDGES[i] == 0.25 * i as real;
    assert i < 8 ==> RETRY_DRIFT_BUCKET_EDGES[i + 1] == 0.25 * (i + 1) as real;
  }

  function CellKey(tier: string, band: string): string {
    tier + "::" + band
  }

  predicate ColonFree(s: string) {
    forall i :: 0 <= i < |s| ==> s[i] != ':'
  }

  lemma BandIsColonFree(row: Row)
    ensures ColonFree(Band(row))
  {
    assert forall k :: 0 <= k < |ATR_PCT_BUCKET_LABELS| ==> ColonFree(ATR_PCT_BUCKET_LABELS[k]);
  }

  /** Two cells never share a key, whatever the tier names are: no band label holds a colon. */
  lemma CellKeyIsInjective(tier: string, band: string, tier': string, band': string)
    requires ColonFree(band) && ColonFree(band')
    ensures CellKey(tier, band) == CellKey(tier', band') <==> tier == tier' && band == band'
  {
    var key, key' := CellKey(tier, band), CellKey(tier', band');
    LastColon(tier, band);
    LastColon(tier', band');
    assert key[..|tier|] == tier && key[|tier| + 2..] == band && key'[..|tier'|] == tier' && key'[|tier'| + 2..] == band';
  }

  lemma LastColon(tier: string, band: string)
    requires ColonFree(band)
    ensures var key := CellKey(tier, band);
            key[|tier| + 1] == ':' && forall j :: |tier| + 1 < j < |key| ==> key[j] != ':'
  {
  }

  /** The definition: the returns of one arm's rows in one cell, in row order. */
  function Arm(rows: seq<Row>, tier: string, band: string): seq<real> {
    if rows == [] then []
    else
      Arm(rows[..|rows| - 1], tier, band) + Own(rows[|rows| - 1], tier, band)
  }

  predicate InCell(row: Row, tier: string, band: string) {
    ReturnOnNotional(row).Some? && Tier(row) == tier && Band(row) == band
  }

  function Own(row: Row, tier: string, band: string): seq<real> {
    if InCell(row, tier, band) then [ReturnOnNotional(row).value] else []
  }

  lemma ArmStep(rows: seq<Row>, row: Row, tier: string, band: string)
    ensures Arm(rows + [row], tier, band) == Arm(rows, tier, band) + Own(row, tier, band)
  {
    assert (rows + [row])[..|rows|] == rows;
  }

  datatype Tally = Tally(sum: real, squares: real, count: nat)
  {
    function With(x: real): Tally {
      Tally(sum + x, squares + Square(x), count + 1)
    }
  }

  function TallyOf(xs: seq<real>): Tally {
    Tally(Sum(xs), SumOfSquares(xs), |xs|)
  }

  lemma TallyStep(xs: seq<real>, x: real)
    ensures TallyOf(xs + [x]) == TallyOf(xs).With(x)
  {
    assert (xs + [x])[..|xs|] == xs;
  }

  datatype Cell = Cell(tier: string, band: string, retry: Tally, attempt1: Tally)

  ghost predicate Holds(cell: Cell, retryRows: seq<Row>, attempt1Rows: seq<Row>) {
    ColonFree(cell.band)
    && cell.retry == TallyOf(Arm(retryRows, cell.tier, cell.band))
    && cell.attempt1 == TallyOf(Arm(attempt1Rows, cell.tier, cell.band))
  }

  ghost predicate Populated(retryRows: seq<Row>, attempt1Rows: seq<Row>, tier: string, band: string) {
    Arm(retryRows, tier, band) != [] || Arm(attempt1Rows, tier, band) != []
  }

  /** The map holds the sums of both arms, under its own key, for exactly the cells some row falls into. */
  ghost predicate Tallies(cells: map<string, Cell>, retryRows: seq<Row>, attempt1Rows: seq<Row>) {
    (forall key :: key in cells ==>
       key == CellKey(cells[key].tier, cells[key].band) && Holds(cells[key], retryRows, attempt1Rows)
       && Populated(retryRows, attempt1Rows, cells[key].tier, cells[key].band))
    && forall tier, band :: Populated(retryRows, attempt1Rows, tier, band) ==> CellKey(tier, band) in cells
  }

  function EnsureCell(cells: map<string, Cell>, tier: string, band: string): Cell {
    var key := CellKey(tier, band);
    if key in cells then cells[key] else Cell(tier, band, Tally(0.0, 0.0, 0), Tally(0.0, 0.0, 0))
  }

  lemma EnsuredCellHolds(cells: map<string, Cell>, retryRows: seq<Row>, attempt1Rows: seq<Row>, tier: string, band: string)
    requires Tallies(cells, retryRows, attempt1Rows) && ColonFree(band)
    ensures var cell := EnsureCell(cells, tier, band);
            cell.tier == tier && cell.band == band && Holds(cell, retryRows, attempt1Rows)
  {
    var key := CellKey(tier, band);
    if key in cells {
      CellKeyIsInjective(tier, band, cells[key].tier, cells[key].band);
    } else {
      assert !Populated(retryRows, attempt1Rows, tier, band);
    }
  }

  method Accumulate(cells: map<string, Cell>, row: Row, isRetry: bool, ghost retryRows: seq<Row>, ghost attempt1Rows: seq<Row>)
    returns (updated: map<string, Cell>)
    requires Tallies(cells, retryRows, attempt1Rows)
    ensures Tallies(updated, if isRetry then retryRows + [row] else retryRows, if isRetry then attempt1Rows else attempt1Rows + [row])
  {
    hide Tallies;
    var returned := ReturnOnNotional(row);
    if returned.None? {
      DroppedRow(cells, row, isRetry, retryRows, attempt1Rows);
      return cells;
    }
    var tier, band := Tier(row), Band(row);
    var cell := EnsureCell(cells, tier, band);
    BandIsColonFree(row);
    EnsuredCellHolds(cells, retryRows, attempt1Rows, tier, band);
    var counted := if isRetry then cell.(retry := cell.retry.With(returned.value)) else cell.(attempt1 := cell.attempt1.With(returned.value));
    CountedRow(cells, row, isRetry, retryRows, attempt1Rows, cell, counted);
    return cells[CellKey(tier, band) := counted];
  }

  function After(rows: seq<Row>, row: Row, counts: bool): seq<Row> {
    if counts then rows + [row] else rows
  }

  lemma DroppedRow(cells: map<string, Cell>, row: Row, isRetry: bool, retryRows: seq<Row>, attempt1Rows: seq<Row>)
    requires ReturnOnNotional(row).None? && Tallies(cells, retryRows, attempt1Rows)
    ensures Tallies(cells, After(retryRows, row, isRetry), After(attempt1Rows, row, !isRetry))
  {
    hide Arm, CellKey, ColonFree, ReturnOnNotional, TallyOf;
    ArmsElsewhere(row, isRetry, retryRows, attempt1Rows);
  }

  /** A row moves no cell but its own. */
  lemma ArmsElsewhere(row: Row, isRetry: bool, retryRows: seq<Row>, attempt1Rows: seq<Row>)
    ensures forall tier, band :: !InCell(row, tier, band) ==>
              Arm(After(retryRows, row, isRetry), tier, band) == Arm(retryRows, tier, band)
              && Arm(After(attempt1Rows, row, !isRetry), tier, band) == Arm(attempt1Rows, tier, band)
  {
    forall tier, band | !InCell(row, tier, band)
      ensures Arm(After(retryRows, row, isRetry), tier, band) == Arm(retryRows, tier, band)
      ensures Arm(After(attempt1Rows, row, !isRetry), tier, band) == Arm(attempt1Rows, tier, band)
    {
      ArmStep(retryRows, row, tier, band);
      ArmStep(attempt1Rows, row, tier, band);
      assert Arm(retryRows, tier, band) + [] == Arm(retryRows, tier, band);
      assert Arm(attempt1Rows, tier, band) + [] == Arm(attempt1Rows, tier, band);
    }
  }

  lemma OwnCell(row: Row, isRetry: bool, retryRows: seq<Row>, attempt1Rows: seq<Row>, cell: Cell, counted: Cell)
    requires InCell(row, cell.tier, cell.band) && Holds(cell, retryRows, attempt1Rows)
    requires counted == if isRetry then cell.(retry := cell.retry.With(ReturnOnNotional(row).value))
                        else cell.(attempt1 := cell.attempt1.With(ReturnOnNotional(row).value))
    ensures Holds(counted, After(retryRows, row, isRetry), After(attempt1Rows, row, !isRetry))
    ensures Populated(After(retryRows, row, isRetry), After(attempt1Rows, row, !isRetry), cell.tier, cell.band)
  {
    var rows := if isRetry then retryRows else attempt1Rows;
    ArmStep(rows, row, cell.tier, cell.band);
    TallyStep(Arm(rows, cell.tier, cell.band), ReturnOnNotional(row).value);
  }

  lemma CountedRow(cells: map<string, Cell>, row: Row, isRetry: bool, retryRows: seq<Row>, attempt1Rows: seq<Row>, cell: Cell, counted: Cell)
    requires Tallies(cells, retryRows, attempt1Rows) && InCell(row, cell.tier, cell.band) && Holds(cell, retryRows, attempt1Rows)
    requires counted == if isRetry then cell.(retry := cell.retry.With(ReturnOnNotional(row).value))
                        else cell.(attempt1 := cell.attempt1.With(ReturnOnNotional(row).value))
    ensures Tallies(cells[CellKey(cell.tier, cell.band) := counted], After(retryRows, row, isRetry), After(attempt1Rows, row, !isRetry))
  {
    hide Arm, InCell, CellKey, ColonFree;
    var own := CellKey(cell.tier, cell.band);
    var updated := cells[own := counted];
    var rs, as_ := After(retryRows, row, isRetry), After(attempt1Rows, row, !isRetry);
    OwnCell(row, isRetry, retryRows, attempt1Rows, cell, counted);
    ArmsElsewhere(row, isRetry, retryRows, attempt1Rows);
    forall key | key in updated
      ensures key == CellKey(updated[key].tier, updated[key].band) && Holds(updated[key], rs, as_)
      ensures Populated(rs, as_, updated[key].tier, updated[key].band)
    {
      if key != own {
        KeyOfCell(cells, key, retryRows, attempt1Rows);
        OneCellOnly(row, cells[key].tier, cells[key].band, cell.tier, cell.band);
      }
    }
    forall tier, band | Populated(rs, as_, tier, band)
      ensures CellKey(tier, band) in updated
    {
      OneCellOnly(row, tier, band, cell.tier, cell.band);
    }
  }

  lemma OneCellOnly(row: Row, tier: string, band: string, tier': string, band': string)
    requires InCell(row, tier', band')
    ensures InCell(row, tier, band) <==> tier == tier' && band == band'
  {
  }

  // --- the matched control ---

  datatype MatchedCell = MatchedCell(tier: string, band: string, retryCount: nat, retryMean: real, retryVariance: real,
                                     attempt1Count: nat, attempt1Mean: real, attempt1Variance: real, delta: real, deltaVariance: real)

  /** The definition, in two passes over the arms: both populated, their means and mean squared deviations, the difference of the means and its squared standard error. */
  ghost predicate IsMatched(cell: MatchedCell, retryRows: seq<Row>, attempt1Rows: seq<Row>) {
    var r, a := Arm(retryRows, cell.tier, cell.band), Arm(attempt1Rows, cell.tier, cell.band);
    r != [] && a != [] && cell == Comparison(cell.tier, cell.band, r, a)
  }

  function Comparison(tier: string, band: string, r: seq<real>, a: seq<real>): MatchedCell
    requires r != [] && a != []
  {
    MatchedCell(tier, band, |r|, Mean(r), Variance(r), |a|, Mean(a), Variance(a),
                Mean(r) - Mean(a), Variance(r) / |r| as real + Variance(a) / |a| as real)
  }

  lemma {:induction false} ArmInNumbers(rows: seq<Row>, tier: string, band: string)
    ensures |Arm(rows, tier, band)|
         == |set k: nat | k < |rows| && ReturnOnNotional(rows[k]).Some? && Tier(rows[k]) == tier && Band(rows[k]) == band|
  {
    hide ReturnOnNotional, Tier, Band;
    var counted := set k: nat | k < |rows| && ReturnOnNotional(rows[k]).Some? && Tier(rows[k]) == tier && Band(rows[k]) == band;
    if rows == [] {
      assert counted == {};
    } else {
      var n := |rows| - 1;
      ArmInNumbers(rows[..n], tier, band);
      OneMore((set k: nat | k < n && ReturnOnNotional(rows[..n][k]).Some? && Tier(rows[..n][k]) == tier && Band(rows[..n][k]) == band),
              counted, n, InCell(rows[n], tier, band));
    }
  }

  /** An emitted cell in numbers: its counts are those of the rows that fall into it, its difference leads from the first attempts' mean to the retries', and its squared error adds up the arms' own. */
  lemma CellInNumbers(cell: MatchedCell, retryRows: seq<Row>, attempt1Rows: seq<Row>)
    requires IsMatched(cell, retryRows, attempt1Rows)
    ensures cell.retryCount > 0 && cell.attempt1Count > 0
    ensures cell.retryCount
         == |set k: nat | k < |retryRows| && ReturnOnNotional(retryRows[k]).Some? && Tier(retryRows[k]) == cell.tier && Band(retryRows[k]) == cell.band|
    ensures cell.attempt1Count
         == |set k: nat | k < |attempt1Rows| && ReturnOnNotional(attempt1Rows[k]).Some? && Tier(attempt1Rows[k]) == cell.tier && Band(attempt1Rows[k]) == cell.band|
    ensures cell.attempt1Mean + cell.delta == cell.retryMean
    ensures cell.retryMean * cell.retryCount as real == Sum(Arm(retryRows, cell.tier, cell.band))
    ensures cell.attempt1Mean * cell.attempt1Count as real == Sum(Arm(attempt1Rows, cell.tier, cell.band))
    ensures (cell.deltaVariance - cell.retryVariance / cell.retryCount as real) * cell.attempt1Count as real == cell.attempt1Variance
  {
    hide Arm, Sum, Variance, ReturnOnNotional, Tier, Band;
    ArmInNumbers(retryRows, cell.tier, cell.band);
    ArmInNumbers(attempt1Rows, cell.tier, cell.band);
    QuotientIs(cell.retryMean, Sum(Arm(retryRows, cell.tier, cell.band)), cell.retryCount as real);
    QuotientIs(cell.attempt1Mean, Sum(Arm(attempt1Rows, cell.tier, cell.band)), cell.attempt1Count as real);
    QuotientIs(cell.deltaVariance - cell.retryVariance / cell.retryCount as real, cell.attempt1Variance, cell.attempt1Count as real);
  }

  method PopulationStats(tally: Tally, ghost xs: seq<real>) returns (mean: real, variance: real)
    requires tally == TallyOf(xs) && xs != []
    ensures mean == Mean(xs) && variance == Variance(xs)
  {
    mean := tally.sum / tally.count as real;
    var spread := tally.squares / tally.count as real - Square(mean);
    OnePassVariance(xs);
    variance := if spread > 0.0 then spread else 0.0;
  }

  /** The order of keys, as the locale has it: any total preorder. */
  ghost predicate IsOrder(atMost: (string, string) -> bool) {
    && (forall a, b :: atMost(a, b) || atMost(b, a))
    && (forall a, b, c :: atMost(a, b) && atMost(b, c) ==> atMost(a, c))
  }

  function KeyOfMatch(cell: MatchedCell): string {
    CellKey(cell.tier, cell.band)
  }

  ghost predicate SortedByKey(cells: seq<MatchedCell>, atMost: (string, string) -> bool) {
    forall i, j :: 0 <= i < j < |cells| ==> atMost(KeyOfMatch(cells[i]), KeyOfMatch(cells[j]))
  }

  ghost predicate Distinct(cells: seq<MatchedCell>) {
    forall i, j :: 0 <= i < j < |cells| ==> cells[i] != cells[j]
  }

  /** The cells to emit: sorted by key, and each matched cell exactly once. */
  method ComputeMatchedControl(retryRows: seq<Row>, attempt1Rows: seq<Row>, atMost: (string, string) -> bool) returns (matched: seq<MatchedCell>)
    requires IsOrder(atMost)
    ensures forall cell :: cell in matched <==> IsMatched(cell, retryRows, attempt1Rows)
    ensures Distinct(matched)
    ensures SortedByKey(matched, atMost)
  {
    hide Tallies, IsMatched, Arm;
    var cells: map<string, Cell> := map[];
    NoCells(retryRows, attempt1Rows);
    for k := 0 to |retryRows|
      invariant Tallies(cells, retryRows[..k], [])
    {
      cells := Accumulate(cells, retryRows[k], true, retryRows[..k], []);
      assert retryRows[..k + 1] == retryRows[..k] + [retryRows[k]];
    }
    assert retryRows[..|retryRows|] == retryRows && attempt1Rows[..0] == [];
    for k := 0 to |attempt1Rows|
      invariant Tallies(cells, retryRows, attempt1Rows[..k])
    {
      cells := Accumulate(cells, attempt1Rows[k], false, retryRows, attempt1Rows[..k]);
      assert attempt1Rows[..k + 1] == attempt1Rows[..k] + [attempt1Rows[k]];
    }
    assert attempt1Rows[..|attempt1Rows|] == attempt1Rows;
    var found := Compare(cells, retryRows, attempt1Rows);
    matched := SortCells(found, atMost);
  }

  method SortCells(cells: set<MatchedCell>, atMost: (string, string) -> bool) returns (sorted: seq<MatchedCell>)
    requires IsOrder(atMost)
    ensures forall cell :: cell in sorted <==> cell in cells
    ensures Distinct(sorted)
    ensures SortedByKey(sorted, atMost)
  {
    sorted := [];
    var pending := cells;
    while pending != {}
      invariant pending <= cells && forall cell :: cell in sorted <==> cell in cells && cell !in pending
      invariant Distinct(sorted)
      invariant SortedByKey(sorted, atMost)
      invariant forall i, cell :: 0 <= i < |sorted| && cell in pending ==> atMost(KeyOfMatch(sorted[i]), KeyOfMatch(cell))
    {
      var least := LeastCell(pending, atMost);
      var next :| next in pending && forall cell :: cell in pending ==> atMost(KeyOfMatch(next), KeyOfMatch(cell));
      sorted := sorted + [next];
      pending := pending - {next};
    }
  }

  lemma LeastCell(cells: set<MatchedCell>, atMost: (string, string) -> bool) returns (least: MatchedCell)
    requires IsOrder(atMost) && cells != {}
    ensures least in cells && forall cell :: cell in cells ==> atMost(KeyOfMatch(least), KeyOfMatch(cell))
  {
    var some :| some in cells;
    if cells == {some} {
      least := some;
    } else {
      var rest := LeastCell(cells - {some}, atMost);
      least := if atMost(KeyOfMatch(rest), KeyOfMatch(some)) then rest else some;
    }
  }

  lemma NoCells(retryRows: seq<Row>, attempt1Rows: seq<Row>)
    ensures Tallies(map[], retryRows[..0], [])
  {
  }

  lemma {:induction false} ArmBandIsColonFree(rows: seq<Row>, tier: string, band: string)
    requires Arm(rows, tier, band) != []
    ensures ColonFree(band)
  {
    var row := rows[|rows| - 1];
    if InCell(row, tier, band) {
      BandIsColonFree(row);
    } else {
      ArmBandIsColonFree(rows[..|rows| - 1], tier, band);
    }
  }

  /** What one cell of the map contributes. */
  lemma MatchesUnderKey(cells: map<string, Cell>, key: string, retryRows: seq<Row>, attempt1Rows: seq<Row>, found: MatchedCell)
    requires Tallies(cells, retryRows, attempt1Rows) && key in cells
    requires IsMatched(found, retryRows, attempt1Rows) && CellKey(found.tier, found.band) == key
    ensures found.tier == cells[key].tier && found.band == cells[key].band
  {
    ArmBandIsColonFree(retryRows, found.tier, found.band);
    CellKeyIsInjective(found.tier, found.band, cells[key].tier, cells[key].band);
  }

  lemma MatchedHasKey(cells: map<string, Cell>, retryRows: seq<Row>, attempt1Rows: seq<Row>, found: MatchedCell)
    requires Tallies(cells, retryRows, attempt1Rows) && IsMatched(found, retryRows, attempt1Rows)
    ensures CellKey(found.tier, found.band) in cells
  {
    assert Populated(retryRows, attempt1Rows, found.tier, found.band);
  }

  method CompareArms(cell: Cell, ghost retryRows: seq<Row>, ghost attempt1Rows: seq<Row>) returns (found: Option<MatchedCell>)
    requires Holds(cell, retryRows, attempt1Rows)
    ensures found.Some? ==> IsMatched(found.value, retryRows, attempt1Rows) && found.value.tier == cell.tier && found.value.band == cell.band
    ensures found.None? ==> Arm(retryRows, cell.tier, cell.band) == [] || Arm(attempt1Rows, cell.tier, cell.band) == []
  {
    if cell.retry.count == 0 || cell.attempt1.count == 0 {
      return None;
    }
    var retryMean, retryVariance := PopulationStats(cell.retry, Arm(retryRows, cell.tier, cell.band));
    var attempt1Mean, attempt1Variance := PopulationStats(cell.attempt1, Arm(attempt1Rows, cell.tier, cell.band));
    return Some(MatchedCell(cell.tier, cell.band, cell.retry.count, retryMean, retryVariance, cell.attempt1.count, attempt1Mean, attempt1Variance,
                            retryMean - attempt1Mean,
                            retryVariance / cell.retry.count as real + attempt1Variance / cell.attempt1.count as real));
  }

  /** The cells found so far are the matched ones whose key has been visited. */
  ghost predicate Visited(matched: set<MatchedCell>, keys: set<string>, retryRows: seq<Row>, attempt1Rows: seq<Row>) {
    forall cell :: cell in matched <==> IsMatched(cell, retryRows, attempt1Rows) && CellKey(cell.tier, cell.band) !in keys
  }

  lemma VisitKey(cells: map<string, Cell>, key: string, retryRows: seq<Row>, attempt1Rows: seq<Row>,
                 matched: set<MatchedCell>, keys: set<string>, found: Option<MatchedCell>)
    requires Tallies(cells, retryRows, attempt1Rows) && key in cells && key in keys && Visited(matched, keys, retryRows, attempt1Rows)
    requires found.Some? ==> IsMatched(found.value, retryRows, attempt1Rows)
                             && found.value.tier == cells[key].tier && found.value.band == cells[key].band
    requires found.None? ==> Arm(retryRows, cells[key].tier, cells[key].band) == [] || Arm(attempt1Rows, cells[key].tier, cells[key].band) == []
    ensures Visited(if found.Some? then matched + {found.value} else matched, keys - {key}, retryRows, attempt1Rows)
  {
    hide CellKey, Arm, Tallies;
    var extended := if found.Some? then matched + {found.value} else matched;
    KeyOfCell(cells, key, retryRows, attempt1Rows);
    forall cell
      ensures cell in extended <==> IsMatched(cell, retryRows, attempt1Rows) && CellKey(cell.tier, cell.band) !in keys - {key}
    {
      if IsMatched(cell, retryRows, attempt1Rows) && CellKey(cell.tier, cell.band) == key {
        MatchesUnderKey(cells, key, retryRows, attempt1Rows, cell);
      }
    }
  }

  lemma KeyOfCell(cells: map<string, Cell>, key: string, retryRows: seq<Row>, attempt1Rows: seq<Row>)
    requires Tallies(cells, retryRows, attempt1Rows) && key in cells
    ensures key == CellKey(cells[key].tier, cells[key].band) && Holds(cells[key], retryRows, attempt1Rows)
  {
  }

  method Compare(cells: map<string, Cell>, ghost retryRows: seq<Row>, ghost attempt1Rows: seq<Row>) returns (matched: set<MatchedCell>)
    requires Tallies(cells, retryRows, attempt1Rows)
    ensures Visited(matched, {}, retryRows, attempt1Rows)
  {
    hide Tallies, Visited, IsMatched, Arm;
    matched := {};
    var keys := cells.Keys;
    NothingVisited(cells, retryRows, attempt1Rows);
    while keys != {}
      invariant keys <= cells.Keys
      invariant Visited(matched, keys, retryRows, attempt1Rows)
    {
      var key :| key in keys;
      KeyOfCell(cells, key, retryRows, attempt1Rows);
      var found := CompareArms(cells[key], retryRows, attempt1Rows);
      VisitKey(cells, key, retryRows, attempt1Rows, matched, keys, found);
      if found.Some? {
        matched := matched + {found.value};
      }
      keys := keys - {key};
    }
  }

  lemma NothingVisited(cells: map<string, Cell>, retryRows: seq<Row>, attempt1Rows: seq<Row>)
    requires Tallies(cells, retryRows, attempt1Rows)
    ensures Visited({}, cells.Keys, retryRows, attempt1Rows)
  {
    forall cell | IsMatched(cell, retryRows, attempt1Rows)
      ensures CellKey(cell.tier, cell.band) in cells.Keys
    {
      MatchedHasKey(cells, retryRows, attempt1Rows, cell);
    }
  }

  /** A tier and a band have at most one matched cell. */
  lemma OneMatchPerCell(a: MatchedCell, b: MatchedCell, retryRows: seq<Row>, attempt1Rows: seq<Row>)
    requires IsMatched(a, retryRows, attempt1Rows) && IsMatched(b, retryRows, attempt1Rows)
    ensures a == b <==> CellKey(a.tier, a.band) == CellKey(b.tier, b.band)
  {
    ArmBandIsColonFree(retryRows, a.tier, a.band);
    ArmBandIsColonFree(retryRows, b.tier, b.band);
    CellKeyIsInjective(a.tier, a.band, b.tier, b.band);
  }

  lemma {:induction false} ArmOfTwo(a: seq<Row>, b: seq<Row>, tier: string, band: string)
    ensures Arm(a + b, tier, band) == Arm(a, tier, band) + Arm(b, tier, band)
  {
    if b == [] {
      assert a + b == a;
    } else {
      var front, row := b[..|b| - 1], b[|b| - 1];
      assert a + b == (a + front) + [row] && b == front + [row];
      ArmStep(a + front, row, tier, band);
      ArmStep(front, row, tier, band);
      ArmOfTwo(a, front, tier, band);
    }
  }

  lemma RemoveRow(rows: seq<Row>, i: nat, tier: string, band: string)
    requires i < |rows|
    ensures multiset(Arm(rows, tier, band)) == multiset(Arm(rows[..i] + rows[i + 1..], tier, band)) + multiset(Own(rows[i], tier, band))
  {
    assert rows == rows[..i] + [rows[i]] + rows[i + 1..];
    ArmStep(rows[..i], rows[i], tier, band);
    ArmOfTwo(rows[..i] + [rows[i]], rows[i + 1..], tier, band);
    ArmOfTwo(rows[..i], rows[i + 1..], tier, band);
  }

  lemma {:induction false} ArmOfPermuted(a: seq<Row>, b: seq<Row>, tier: string, band: string)
    requires multiset(a) == multiset(b)
    ensures multiset(Arm(a, tier, band)) == multiset(Arm(b, tier, band))
    decreases |a|
  {
    if a == [] {
      assert |multiset(b)| == 0;
    } else {
      var row, front := a[|a| - 1], a[..|a| - 1];
      assert a == front + [row];
      var i := Counterpart(a, b);
      RemoveRow(b, i, tier, band);
      ArmOfPermuted(front, b[..i] + b[i + 1..], tier, band);
      ArmStep(front, row, tier, band);
    }
  }

  /** The report does not depend on the order the queries return their rows in. */
  lemma OrderDoesNotMatter(cell: MatchedCell, retry: seq<Row>, attempt1: seq<Row>, retry': seq<Row>, attempt1': seq<Row>)
    requires multiset(retry) == multiset(retry') && multiset(attempt1) == multiset(attempt1')
    ensures IsMatched(cell, retry, attempt1) <==> IsMatched(cell, retry', attempt1')
  {
    hide Arm, Comparison;
    ArmOfPermuted(retry, retry', cell.tier, cell.band);
    ArmOfPermuted(attempt1, attempt1', cell.tier, cell.band);
    ComparisonOfPermuted(cell.tier, cell.band, Arm(retry, cell.tier, cell.band), Arm(retry', cell.tier, cell.band),
                         Arm(attempt1, cell.tier, cell.band), Arm(attempt1', cell.tier, cell.band));
  }

  lemma ComparisonOfPermuted(tier: string, band: string, r: seq<real>, r': seq<real>, a: seq<real>, a': seq<real>)
    requires multiset(r) == multiset(r') && multiset(a) == multiset(a')
    ensures (r == [] <==> r' == []) && (a == [] <==> a' == [])
    ensures r != [] && a != [] ==> Comparison(tier, band, r, a) == Comparison(tier, band, r', a')
  {
    hide Mean, Variance;
    MomentsOfPermuted(r, r');
    MomentsOfPermuted(a, a');
  }

  /** The whole list does not depend on it either, where the locale tells all the emitted keys apart. */
  lemma {:induction false} OneSortedList(a: seq<MatchedCell>, b: seq<MatchedCell>, atMost: (string, string) -> bool)
    requires IsOrder(atMost) && SortedByKey(a, atMost) && SortedByKey(b, atMost)
    requires Distinct(a)
    requires Distinct(b)
    requires forall cell :: cell in a <==> cell in b
    requires forall x, y :: x in a && y in a && atMost(KeyOfMatch(x), KeyOfMatch(y)) && atMost(KeyOfMatch(y), KeyOfMatch(x)) ==> x == y
    ensures a == b
    decreases |a|
  {
    hide SortedByKey, IsOrder, Distinct, KeyOfMatch;
    SameEmptiness(a, b);
    if a != [] {
      assert a[0] in b && b[0] in a;
      FirstIsLeast(a, b[0], atMost);
      FirstIsLeast(b, a[0], atMost);
      Tails(a, atMost);
      Tails(b, atMost);
      OneSortedList(a[1..], b[1..], atMost);
      assert a == [a[0]] + a[1..] && b == [b[0]] + b[1..];
    }
  }

  lemma Tails(cells: seq<MatchedCell>, atMost: (string, string) -> bool)
    requires cells != [] && SortedByKey(cells, atMost) && Distinct(cells)
    ensures SortedByKey(cells[1..], atMost) && Distinct(cells[1..])
    ensures forall cell :: cell in cells[1..] <==> cell in cells && cell != cells[0]
  {
  }

  lemma SameEmptiness(a: seq<MatchedCell>, b: seq<MatchedCell>)
    requires forall cell :: cell in a <==> cell in b
    ensures a == [] <==> b == []
  {
    if a != [] {
      assert a[0] in b;
    }
    if b != [] {
      assert b[0] in a;
    }
  }

  lemma FirstIsLeast(cells: seq<MatchedCell>, cell: MatchedCell, atMost: (string, string) -> bool)
    requires IsOrder(atMost) && SortedByKey(cells, atMost) && cell in cells
    ensures atMost(KeyOfMatch(cells[0]), KeyOfMatch(cell))
  {
  }
}
