/** The trailing moving average `Series.rolling(window=w).mean()` used by
    `calculate_moving_averages` in sp500_pipeline.py and by the dashboard's
    indicator lines. pandas' default `min_periods` equals the window, so a value
    exists only once `w` observations are available and none of them is NaN. */
module MovingAverage {
  import opened Options

  /** Sum of the present values; missing values contribute nothing. */
  function SumPresent(s: seq<Option<real>>): real {
    if |s| == 0 then 0.0 else s[0].GetOr(0.0) + SumPresent(s[1..])
  }

  function CountMissing(s: seq<Option<real>>): nat {
    if |s| == 0 then 0 else (if s[0].None? then 1 else 0) + CountMissing(s[1..])
  }

  predicate AllPresent(s: seq<Option<real>>) {
    forall i :: 0 <= i < |s| ==> s[i].Some?
  }

  /** The moving average at position `i`: undefined during the first `w - 1`
      positions and wherever the trailing window holds a NaN, otherwise the
      arithmetic mean of the trailing `w` values. */
  function WindowMean(xs: seq<Option<real>>, w: int, i: int): Option<real>
    requires w >= 1 && 0 <= i < |xs|
  {
    if i + 1 < w then None
    else
      var window := xs[i + 1 - w..i + 1];
      if AllPresent(window) then Some(SumPresent(window) / (w as real)) else None
  }

  /** First index of the trailing window held by `RollingMean` before it reads `xs[i]`. */
  function WindowStart(i: int, w: int): int {
    if i >= w then i - w else 0
  }

  /** Computes the whole moving-average column in one pass, keeping a running sum
      and a running count of NaNs over the trailing window. */
  method RollingMean(xs: seq<Option<real>>, w: int) returns (ma: seq<Option<real>>)
    requires w >= 1
    ensures |ma| == |xs|
    ensures forall i :: 0 <= i < |xs| ==> ma[i] == WindowMean(xs, w, i)
  {
    ma := [];
    var sum := 0.0;
    var missing := 0;
    var i := 0;
    while i < |xs|
      invariant 0 <= i <= |xs|
      invariant |ma| == i
      invariant forall k :: 0 <= k < i ==> ma[k] == WindowMean(xs, w, k)
      invariant sum == SumPresent(xs[WindowStart(i, w)..i])
      invariant missing == CountMissing(xs[WindowStart(i, w)..i])
    {
      sum := SlideSum(xs, w, i, sum);
      missing := SlideMissing(xs, w, i, missing);
      var value := MeanFromTotals(xs, w, i, sum, missing);
      ma := ma + [value];
      i := i + 1;
    }
  }

  /** The running sum after moving the trailing window on to position `i`: add
      the new value and, once the window is full, remove the oldest one. */
  function SlideSum(xs: seq<Option<real>>, w: int, i: int, sum: real): (next: real)
    requires w >= 1 && 0 <= i < |xs|
    requires sum == SumPresent(xs[WindowStart(i, w)..i])
    ensures next == SumPresent(xs[WindowStart(i + 1, w)..i + 1])
  {
    var lo := WindowStart(i, w);
    SumPresentAppend(xs[lo..i], xs[i]);
    assert xs[lo..i] + [xs[i]] == xs[lo..i + 1];
    if i >= w then
      assert xs[lo..i + 1][1..] == xs[lo + 1..i + 1];
      sum + xs[i].GetOr(0.0) - xs[i - w].GetOr(0.0)
    else
      sum + xs[i].GetOr(0.0)
  }

  /** The running count of NaNs, moved on the same way. */
  function SlideMissing(xs: seq<Option<real>>, w: int, i: int, missing: int): (next: int)
    requires w >= 1 && 0 <= i < |xs|
    requires missing == CountMissing(xs[WindowStart(i, w)..i])
    ensures next == CountMissing(xs[WindowStart(i + 1, w)..i + 1])
  {
    var lo := WindowStart(i, w);
    CountMissingAppend(xs[lo..i], xs[i]);
    assert xs[lo..i] + [xs[i]] == xs[lo..i + 1];
    var added := missing + (if xs[i].None? then 1 else 0);
    if i >= w then
      assert xs[lo..i + 1][1..] == xs[lo + 1..i + 1];
      added - (if xs[i - w].None? then 1 else 0)
    else
      added
  }

  /** The running totals of the trailing window determine the average at `i`. */
  function MeanFromTotals(xs: seq<Option<real>>, w: int, i: int, sum: real, missing: int): (m: Option<real>)
    requires w >= 1 && 0 <= i < |xs|
    requires sum == SumPresent(xs[WindowStart(i + 1, w)..i + 1])
    requires missing == CountMissing(xs[WindowStart(i + 1, w)..i + 1])
    ensures m == WindowMean(xs, w, i)
  {
    if i + 1 >= w then
      assert WindowStart(i + 1, w) == i + 1 - w;
      NoMissingIsAllPresent(xs[i + 1 - w..i + 1]);
      if missing == 0 then Some(sum / (w as real)) else None
    else
      None
  }

  // ---------------------------------------------------------------------------
  // Helper facts about the running totals

  lemma {:induction false} SumPresentAppend(s: seq<Option<real>>, x: Option<real>)
    ensures SumPresent(s + [x]) == SumPresent(s) + x.GetOr(0.0)
  {
    if |s| > 0 {
      assert (s + [x])[1..] == s[1..] + [x];
      SumPresentAppend(s[1..], x);
    }
  }

  lemma {:induction false} CountMissingAppend(s: seq<Option<real>>, x: Option<real>)
    ensures CountMissing(s + [x]) == CountMissing(s) + (if x.None? then 1 else 0)
  {
    if |s| > 0 {
      assert (s + [x])[1..] == s[1..] + [x];
      CountMissingAppend(s[1..], x);
    }
  }

  lemma {:induction false} NoMissingIsAllPresent(s: seq<Option<real>>)
    ensures CountMissing(s) == 0 <==> AllPresent(s)
  {
    if |s| > 0 {
      NoMissingIsAllPresent(s[1..]);
      assert forall i :: 0 < i < |s| ==> s[i] == s[1..][i - 1];
    }
  }

  // ---------------------------------------------------------------------------
  // Properties

  /** On a series without NaN the average is defined exactly from position
      `w - 1` on, and is the mean of the trailing `w` values. */
  lemma DefinedAfterWarmUp(xs: seq<Option<real>>, w: int, i: int)
    requires w >= 1 && 0 <= i < |xs|
    requires AllPresent(xs)
    ensures WindowMean(xs, w, i).Some? <==> i >= w - 1
    ensures i >= w - 1 ==> WindowMean(xs, w, i) == Some(SumPresent(xs[i + 1 - w..i + 1]) / (w as real))
  {
    if i >= w - 1 {
      var window := xs[i + 1 - w..i + 1];
      assert forall k :: 0 <= k < |window| ==> window[k] == xs[i + 1 - w + k];
    }
  }

  lemma {:induction false} SumOfConstant(s: seq<Option<real>>, c: real)
    requires forall k :: 0 <= k < |s| ==> s[k] == Some(c)
    ensures SumPresent(s) == (|s| as real) * c
  {
    if |s| > 0 {
      SumOfConstant(s[1..], c);
    }
  }

  /** A constant price series has a constant moving average once warmed up. */
  lemma ConstantSeries(xs: seq<Option<real>>, c: real, w: int, i: int)
    requires w >= 1 && w - 1 <= i < |xs|
    requires forall k :: 0 <= k < |xs| ==> xs[k] == Some(c)
    ensures WindowMean(xs, w, i) == Some(c)
  {
    var window := xs[i + 1 - w..i + 1];
    assert forall k :: 0 <= k < |window| ==> window[k] == xs[i + 1 - w + k];
    SumOfConstant(window, c);
    assert AllPresent(window);
    assert |window| == w;
    assert SumPresent(window) / (w as real) == c;
  }

  /** Moving averages depend only on the trailing window: at position `k` of a
      contiguous slice starting at `lo`, a window that lies inside the slice
      gives the full-history value at `lo + k`. */
  lemma SliceAgreesInside(xs: seq<Option<real>>, lo: int, hi: int, w: int, k: int)
    requires 0 <= lo <= hi <= |xs| && w >= 1
    requires w - 1 <= k < hi - lo
    ensures WindowMean(xs[lo..hi], w, k) == WindowMean(xs, w, lo + k)
  {
    var a := xs[lo..hi][k + 1 - w..k + 1];
    var b := xs[lo + k + 1 - w..lo + k + 1];
    assert |a| == |b|;
    assert forall j :: 0 <= j < |a| ==> a[j] == xs[lo + k + 1 - w + j] == b[j];
    assert a == b;
  }

  /** Recomputing the average on a slice loses the history before it: the first
      `w - 1` positions of the slice are undefined even where the full-history
      average exists. */
  lemma SliceLosesWarmUp(xs: seq<Option<real>>, lo: int, hi: int, w: int, k: int)
    requires 0 <= lo <= hi <= |xs| && w >= 1
    requires 0 <= k < hi - lo && k < w - 1 && lo + k >= w - 1
    requires AllPresent(xs)
    ensures WindowMean(xs[lo..hi], w, k).None?
    ensures WindowMean(xs, w, lo + k).Some?
  {
    DefinedAfterWarmUp(xs, w, lo + k);
  }
}
