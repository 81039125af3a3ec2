/** How dashboard.py turns a backtest into what it reports: the "no data"
    outcomes, the short-period warning, the win-rate/holding/no-trades status,
    the summary text, and the buy-and-hold benchmark curve. The statistics
    themselves come from the portfolio library and arrive as parameters. */
module Report {
  import opened Options
  import opened PriceSeries
  import opened Backtest

  /** The statistics the dashboard reads; a NaN statistic is `None`. */
  datatype Stats = Stats(totalReturn: Option<real>, winRate: Option<real>,
                         totalTrades: Option<int>, maxDrawdown: Option<real>)

  /** The second metric card. */
  datatype Status = WinRate(percent: real) | Holding | NoTrades

  /** The "Analysis Summary" block: either "no trades were completed", or the
      profit/loss wording together with whether a position is still open. */
  datatype Summary = NoCompletedTrades | Performance(profit: bool, openPosition: bool)

  /** Everything the results page decides. */
  datatype Outcome =
    | NoDataAvailable
    | NegativeWindow
    | NoDataForPeriod
    | Results(observations: int, shortPeriod: bool, status: Status, tradesShown: int, summary: Summary)

  /** Fewer observations than this in the window draw a warning. */
  const MinReliableObservations: int := 20

  function CurrentStatus(s: Stats): Status {
    if s.winRate.Some? then WinRate(s.winRate.value)
    else if s.totalTrades.Some? && s.totalTrades.value > 0 then Holding
    else NoTrades
  }

  /** The trade count shown; a NaN count shows as 0. */
  function TradesShown(s: Stats): int {
    s.totalTrades.GetOr(0)
  }

  function AnalysisSummary(s: Stats): Summary {
    if s.totalTrades.None? || s.totalTrades.value == 0 then NoCompletedTrades
    else Performance(s.totalReturn.Some? && s.totalReturn.value > 0.0, s.winRate.None?)
  }

  /** The results page for a backtest result. */
  function Present(pf: Option<ReplayInput>, s: Stats): Outcome {
    if pf.None? || |pf.value.close| == 0 then NoDataForPeriod
    else
      var n := |pf.value.close|;
      Results(n, n < MinReliableObservations, CurrentStatus(s), TradesShown(s), AnalysisSummary(s))
  }

  /** The positions `lo .. lo + n - 1` of the loaded series, all after its
      leading run of missing closes, are exactly the ones after that run dated
      inside the window `w`. */
  predicate InWindowBlock(raw: seq<Obs>, w: Window, lo: int, n: int) {
    && LeadingMissing(raw) <= lo && 0 <= n && lo + n <= |raw|
    && forall i :: LeadingMissing(raw) <= i < |raw| ==>
         (lo <= i < lo + n <==> w.start <= raw[i].date <= w.end)
  }

  /** The "Run Analysis" action: clean the loaded series and stop when nothing
      is left; otherwise compute the full-history moving averages for the chart,
      which raises on a negative window; otherwise backtest on the window of the
      selected duration and present the result. `entries` and `exits` are the
      crossover signals the outside library derives from the cleaned series. */
  method RunAnalysis(raw: seq<Obs>, today: int, period: Period,
                     shortWindow: int, longWindow: int,
                     entries: seq<bool>, exits: seq<bool>, s: Stats)
    returns (outcome: Outcome)
    requires ObsNonDecreasing(raw)
    requires |entries| == |raw| - LeadingMissing(raw) && |exits| == |entries|
    ensures outcome.NoDataAvailable? <==> forall i :: 0 <= i < |raw| ==> raw[i].close.None?
    ensures outcome.NegativeWindow? <==>
      (exists i :: 0 <= i < |raw| && raw[i].close.Some?) && (shortWindow < 0 || longWindow < 0)
    ensures outcome.NoDataForPeriod? <==>
      && (exists i :: 0 <= i < |raw| && raw[i].close.Some?)
      && shortWindow >= 0 && longWindow >= 0
      && forall i :: LeadingMissing(raw) <= i < |raw| ==>
           !(AnalysisWindow(today, period).start <= raw[i].date <= AnalysisWindow(today, period).end)
    ensures outcome.Results? ==>
      && 0 < outcome.observations <= |raw|
      && (exists lo :: InWindowBlock(raw, AnalysisWindow(today, period), lo, outcome.observations))
      && (outcome.shortPeriod <==> outcome.observations < MinReliableObservations)
      && outcome.status == CurrentStatus(s)
      && outcome.tradesShown == TradesShown(s)
      && outcome.summary == AnalysisSummary(s)
  {
    var close := FfillDropna(raw);
    LeadingRun(raw);
    if |close| == 0 {
      assert forall i :: 0 <= i < |raw| ==> raw[i].close.None?;
      return NoDataAvailable;
    }
    assert raw[LeadingMissing(raw)].close.Some?;
    if shortWindow < 0 || longWindow < 0 {
      return NegativeWindow;
    }
    var w := AnalysisWindow(today, period);
    var pf, offset := SmaCrossoverBacktest(close, entries, exits, Some(w.start), Some(w.end));
    outcome := Present(pf, s);
    forall i | LeadingMissing(raw) <= i < |raw|
      ensures raw[i].date == close[i - LeadingMissing(raw)].date
    {
      assert close[(i - LeadingMissing(raw))].date == raw[(i - LeadingMissing(raw)) + LeadingMissing(raw)].date;
    }
    if pf.Some? && |pf.value.close| > 0 {
      assert InWindowBlock(raw, w, LeadingMissing(raw) + offset, |pf.value.close|);
    }
  }

  // ---------------------------------------------------------------------------
  // Properties

  /** The status card and the summary text never disagree. A defined win rate is
      shown as such; an undefined win rate with trades means an open position
      ("Holding"), which the summary describes as a held position; no trades
      reads "No Trades" in both places. Trade counts are never negative. */
  lemma StatusMatchesSummary(s: Stats)
    requires s.totalTrades.None? || s.totalTrades.value >= 0
    ensures CurrentStatus(s).WinRate? <==> s.winRate.Some?
    ensures CurrentStatus(s) == Holding <==> AnalysisSummary(s).Performance? && AnalysisSummary(s).openPosition
    ensures CurrentStatus(s) == NoTrades <==> AnalysisSummary(s) == NoCompletedTrades && s.winRate.None?
    ensures TradesShown(s) >= 0
    ensures TradesShown(s) == 0 <==> AnalysisSummary(s) == NoCompletedTrades
  {
  }

  /** An empty window is reported as "no data for the period", never as a
      result with zero trades; a window with data always yields results, with a
      warning exactly when it holds fewer than 20 observations. */
  lemma EmptyWindowIsNoData(pf: Option<ReplayInput>, s: Stats)
    ensures Present(pf, s).Results? <==> pf.Some? && |pf.value.close| > 0
    ensures Present(pf, s).Results? ==>
      (Present(pf, s).shortPeriod <==> |pf.value.close| < MinReliableObservations)
    ensures !Present(pf, s).NoDataAvailable?
  {
  }

  // ---------------------------------------------------------------------------
  // Buy-and-hold benchmark

  /** The price change since the first position, as a ratio. */
  function Ratio(close: seq<Point>, i: int): real
    requires 0 <= i < |close| && close[0].close > 0.0
  {
    close[i].close / close[0].close
  }

  /** The benchmark value at a position: the starting cash scaled by the price
      change since the first position. */
  function Rebased(close: seq<Point>, i: int): real
    requires 0 <= i < |close| && close[0].close > 0.0
  {
    InitCash * Ratio(close, i)
  }

  /** `close.pct_change().fillna(0)` at position `i`. */
  function DailyChange(close: seq<Point>, i: int): real
    requires 0 <= i < |close| && close[0].close > 0.0
    requires forall k :: 0 <= k < |close| ==> close[k].close > 0.0
  {
    if i == 0 then 0.0 else close[i].close / close[i - 1].close - 1.0
  }

  /** Invest the starting cash in the first close and hold:
      `(1 + close.pct_change().fillna(0)).cumprod() * 100000`. */
  method BuyAndHold(close: seq<Point>) returns (curve: seq<real>)
    requires forall i :: 0 <= i < |close| ==> close[i].close > 0.0
    ensures |curve| == |close|
    ensures forall i :: 0 <= i < |close| ==> curve[i] == Rebased(close, i)
  {
    curve := [];
    var growth := 1.0;
    var i := 0;
    while i < |close|
      invariant 0 <= i <= |close|
      invariant |curve| == i
      invariant i > 0 ==> growth == Ratio(close, i - 1)
      invariant i == 0 ==> growth == 1.0
      invariant forall k :: 0 <= k < i ==> curve[k] == Rebased(close, k)
    {
      growth := CompoundStep(close, i, growth, DailyChange(close, i));
      curve := curve + [Scale(close, i, growth)];
      i := i + 1;
    }
  }

  /** One step of the cumulative product: growing the ratio of the previous
      position by the day's percentage change gives the ratio of this one. */
  function CompoundStep(close: seq<Point>, i: int, growth: real, change: real): (g: real)
    requires 0 <= i < |close|
    requires forall k :: 0 <= k < |close| ==> close[k].close > 0.0
    requires growth == (if i == 0 then 1.0 else Ratio(close, i - 1))
    requires change == DailyChange(close, i)
    ensures g == Ratio(close, i)
  {
    if i == 0 then
      assert close[0].close / close[0].close == 1.0;
      growth * (1.0 + change)
    else
      Telescope(close[0].close, close[i - 1].close, close[i].close);
      growth * (1.0 + change)
  }

  /** The cumulative growth times the starting cash. */
  function Scale(close: seq<Point>, i: int, growth: real): (v: real)
    requires 0 <= i < |close| && close[0].close > 0.0
    requires growth == Ratio(close, i)
    ensures v == Rebased(close, i)
  {
    growth * InitCash
  }

  lemma Telescope(first: real, prev: real, cur: real)
    requires first > 0.0 && prev > 0.0
    ensures (prev / first) * (1.0 + (cur / prev - 1.0)) == cur / first
  {
    assert (prev / first) * (cur / prev) == (prev * cur) / (first * prev);
  }

  /** The benchmark starts at exactly the starting cash and ends at the starting
      cash scaled by the price change over the window. */
  lemma BenchmarkEnds(close: seq<Point>, curve: seq<real>)
    requires |close| > 0 && forall i :: 0 <= i < |close| ==> close[i].close > 0.0
    requires |curve| == |close|
    requires forall i :: 0 <= i < |close| ==> curve[i] == Rebased(close, i)
    ensures curve[0] == InitCash
    ensures curve[|curve| - 1] * close[0].close == InitCash * close[|close| - 1].close
  {
  }
}
