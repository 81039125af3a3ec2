/** The backtest driver of dashboard.py: the analysis window derived from the
    selected duration, and `sma_crossover_backtest`, which computes indicators
    and crossover signals on the full history and only then slices prices and
    signals to the window. The crossover detection and the portfolio replay are
    done by an outside library; the signals arrive here as given sequences
    aligned with the prices, and the result is the input handed to the replay. */
module Backtest {
  import opened Options
  import opened PriceSeries
  import MovingAverage

  /** The "Select Duration" choices. */
  datatype Period = LastYear | LastThreeYears | LastFiveYears | AllTime

  function PeriodDays(p: Period): int {
    match p
    case LastYear => 365
    case LastThreeYears => 365 * 3
    case LastFiveYears => 365 * 5
    case AllTime => 365 * 50
  }

  /** An inclusive range of day numbers. */
  datatype Window = Window(start: int, end: int)

  /** The window ends the day before `today` and starts the selected number of
      days before its end. */
  function AnalysisWindow(today: int, p: Period): (w: Window)
    ensures w.end == today - 1
    ensures w.end - w.start in {365, 1095, 1825, 18250}
    ensures w.start < w.end < today
  {
    var end := today - 1;
    Window(end - PeriodDays(p), end)
  }

  /** Starting cash of every simulated portfolio. */
  const InitCash: real := 100000.0

  /** What is handed to the portfolio replay: sliced prices and signals, all
      sharing one date index, and the starting cash. */
  datatype ReplayInput = ReplayInput(close: seq<Point>, entries: seq<bool>, exits: seq<bool>, initCash: real)

  /** The first position whose date is at least `key` (binary search). */
  method LowerBound(ps: seq<Point>, key: int) returns (k: int)
    requires NonDecreasing(ps)
    ensures 0 <= k <= |ps|
    ensures forall i :: 0 <= i < k ==> ps[i].date < key
    ensures forall i :: k <= i < |ps| ==> ps[i].date >= key
  {
    var lo, hi := 0, |ps|;
    while lo < hi
      invariant 0 <= lo <= hi <= |ps|
      invariant forall i :: 0 <= i < lo ==> ps[i].date < key
      invariant forall i :: hi <= i < |ps| ==> ps[i].date >= key
    {
      var mid := (lo + hi) / 2;
      if ps[mid].date < key {
        lo := mid + 1;
      } else {
        hi := mid;
      }
    }
    k := lo;
  }

  /** `series.loc[start:end]` on a sorted date index: the positions whose date
      lies in the inclusive range, which form one contiguous block. */
  method SliceRange(ps: seq<Point>, start: int, end: int) returns (lo: int, hi: int)
    requires NonDecreasing(ps)
    ensures 0 <= lo <= hi <= |ps|
    ensures forall i :: 0 <= i < |ps| ==> (lo <= i < hi <==> start <= ps[i].date <= end)
  {
    lo := LowerBound(ps, start);
    hi := LowerBound(ps, end + 1);
    if hi < lo {
      hi := lo;
    }
  }

  /** Is `d` inside the requested bounds? With either bound missing the whole
      history is used. */
  predicate InBounds(d: int, start: Option<int>, end: Option<int>) {
    start.Some? && end.Some? ==> start.value <= d <= end.value
  }

  /** `sma_crossover_backtest`: `None` when no price falls in the bounds,
      otherwise the replay input over exactly the prices in the bounds, which
      start at position `offset` of the full history. */
  method SmaCrossoverBacktest(close: seq<Point>, entries: seq<bool>, exits: seq<bool>,
                              start: Option<int>, end: Option<int>)
    returns (pf: Option<ReplayInput>, offset: int)
    requires |entries| == |close| && |exits| == |close|
    requires NonDecreasing(close)
    ensures pf.None? <==> forall i :: 0 <= i < |close| ==> !InBounds(close[i].date, start, end)
    ensures pf.Some? ==>
      var n := |pf.value.close|;
      && n > 0
      && 0 <= offset && offset + n <= |close|
      && pf.value.close == close[offset..offset + n]
      && pf.value.entries == entries[offset..offset + n]
      && pf.value.exits == exits[offset..offset + n]
      && pf.value.initCash == InitCash
      && forall i :: 0 <= i < |close| ==> (offset <= i < offset + n <==> InBounds(close[i].date, start, end))
  {
    var lo, hi := 0, |close|;
    if start.Some? && end.Some? {
      lo, hi := SliceRange(close, start.value, end.value);
    }
    offset := lo;
    if lo == hi {
      pf := None;
    } else {
      assert InBounds(close[lo].date, start, end);
      pf := Some(ReplayInput(close[lo..hi], entries[lo..hi], exits[lo..hi], InitCash));
    }
  }

  // ---------------------------------------------------------------------------
  // Warm-up

  /** The forward-filled closes as moving-average input: one value per
      position and none of them missing, which is what `ffill().dropna()`
      guarantees before `MA.run` sees the series. */
  function FilledInput(ps: seq<Point>): (xs: seq<Option<real>>)
    ensures |xs| == |ps| && MovingAverage.AllPresent(xs)
    ensures forall i :: 0 <= i < |ps| ==> xs[i] == Some(ps[i].close)
  {
    seq(|ps|, i requires 0 <= i < |ps| => Some(ps[i].close))
  }

  /** Indicators are computed on the full history before slicing, so at every
      position of the window the indicator is the full-history value. Had they
      been computed on the sliced prices instead, the first `w - 1` positions of
      the window would have no value although enough history exists. */
  lemma WarmUpUsesFullHistory(close: seq<Point>, offset: int, n: int, w: int, k: int)
    requires 0 <= offset && 0 <= n && offset + n <= |close| && w >= 1 && 0 <= k < n
    ensures k >= w - 1 ==>
      MovingAverage.WindowMean(FilledInput(close[offset..offset + n]), w, k)
      == MovingAverage.WindowMean(FilledInput(close), w, offset + k)
    ensures k < w - 1 <= offset + k ==>
      && MovingAverage.WindowMean(FilledInput(close[offset..offset + n]), w, k).None?
      && MovingAverage.WindowMean(FilledInput(close), w, offset + k)
         == Some(MovingAverage.SumPresent(FilledInput(close)[offset + k + 1 - w..offset + k + 1]) / (w as real))
  {
    var full := FilledInput(close);
    assert FilledInput(close[offset..offset + n]) == full[offset..offset + n];
    if k >= w - 1 {
      MovingAverage.SliceAgreesInside(full, offset, offset + n, w, k);
    }
    if k < w - 1 <= offset + k {
      MovingAverage.SliceLosesWarmUp(full, offset, offset + n, w, k);
      MovingAverage.DefinedAfterWarmUp(full, w, offset + k);
    }
  }
}
