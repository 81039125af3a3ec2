/** `calculate_moving_averages` of sp500_pipeline.py: for every window `w`, add
    the column `MA_<w>` holding the rolling mean of `Close`, provided the table
    has a `Close` column. */
module Indicators {
  import opened Options
  import opened Frames
  import opened MovingAverage
  import Cleaning

  /** The `Close` column. */
  function Closes(rows: seq<Row>): (xs: seq<Option<real>>)
    ensures |xs| == |rows|
    ensures forall i :: 0 <= i < |rows| ==> xs[i] == rows[i].close
  {
    seq(|rows|, i requires 0 <= i < |rows| => rows[i].close)
  }

  /** The windows `calculate_moving_averages` uses by default, which is how the
      pipeline calls it. */
  const DefaultWindows: seq<int> := [20, 50, 100, 200]

  /** `b` is `a` with only its moving-average columns changed. */
  predicate SameExceptAverages(a: Row, b: Row) {
    a.(ma := b.ma) == b
  }

  /** Assign the column `MA_<w>`, overwriting it if it exists. */
  function SetColumn(rows: seq<Row>, w: int, column: seq<Option<real>>): (t: seq<Row>)
    requires |column| == |rows|
    ensures |t| == |rows|
    ensures forall i :: 0 <= i < |rows| ==> t[i] == rows[i].(ma := rows[i].ma[w := column[i]])
  {
    seq(|rows|, i requires 0 <= i < |rows| => rows[i].(ma := rows[i].ma[w := column[i]]))
  }

  method CalculateMovingAverages(f: Frame, windows: seq<int>) returns (g: Frame)
    requires forall k :: 0 <= k < |windows| ==> windows[k] >= 1
    ensures g.columns == f.columns && |g.rows| == |f.rows|
    ensures Close !in f.columns ==> g == f
    ensures forall i :: 0 <= i < |f.rows| ==> SameExceptAverages(f.rows[i], g.rows[i])
    ensures Close in f.columns ==>
      forall i, w :: 0 <= i < |f.rows| && w in windows ==>
        w in g.rows[i].ma && g.rows[i].ma[w] == WindowMean(Closes(f.rows), w, i)
    ensures forall i, k :: 0 <= i < |f.rows| && k !in windows ==>
      (k in g.rows[i].ma <==> k in f.rows[i].ma) &&
      (k in f.rows[i].ma ==> g.rows[i].ma[k] == f.rows[i].ma[k])
  {
    if Close !in f.columns {
      return f;
    }
    var closes := Closes(f.rows);
    var rows := f.rows;
    var j := 0;
    while j < |windows|
      invariant 0 <= j <= |windows|
      invariant |rows| == |f.rows|
      invariant forall i :: 0 <= i < |f.rows| ==> SameExceptAverages(f.rows[i], rows[i])
      invariant forall i, w :: 0 <= i < |f.rows| && w in windows[..j] ==>
        w in rows[i].ma && rows[i].ma[w] == WindowMean(closes, w, i)
      invariant forall i, k :: 0 <= i < |f.rows| && k !in windows[..j] ==>
        (k in rows[i].ma <==> k in f.rows[i].ma) &&
        (k in f.rows[i].ma ==> rows[i].ma[k] == f.rows[i].ma[k])
    {
      var w := windows[j];
      var column := RollingMean(closes, w);
      assert windows[..j + 1] == windows[..j] + [w];
      rows := SetColumn(rows, w, column);
      j := j + 1;
    }
    assert windows[..j] == windows;
    g := Frame(f.columns, rows);
  }

  /** After `clean_data` every row has a `Close` value when the column exists. */
  lemma CleanedClosesPresent(f: Frame)
    requires Close in f.columns
    ensures AllPresent(Closes(Cleaning.Clean(f).rows))
  {
    var rows := Cleaning.Clean(f).rows;
    Cleaning.CleanMembers(f);
    forall k | 0 <= k < |rows| ensures rows[k].close.Some? {
      assert rows[k] in rows;
      assert Cell(rows[k], Close).Some?;
    }
  }

  /** Hence on a cleaned table `MA_<w>` is defined exactly from row `w - 1` on
      and is the mean of the trailing `w` closes. */
  lemma CleanedAveragesDefined(f: Frame, w: int, i: int)
    requires Close in f.columns && w >= 1
    requires 0 <= i < |Cleaning.Clean(f).rows|
    ensures WindowMean(Closes(Cleaning.Clean(f).rows), w, i).Some? <==> i >= w - 1
    ensures i >= w - 1 ==>
              WindowMean(Closes(Cleaning.Clean(f).rows), w, i)
              == Some(SumPresent(Closes(Cleaning.Clean(f).rows)[i + 1 - w..i + 1]) / (w as real))
  {
    CleanedClosesPresent(f);
    DefinedAfterWarmUp(Closes(Cleaning.Clean(f).rows), w, i);
  }

  /** The table stage of `run_pipeline`: `clean_data`, then
      `calculate_moving_averages` with its default windows. Every cleaned row
      gains `MA_20`, `MA_50`, `MA_100` and `MA_200`, each undefined exactly on the
      first `w - 1` rows and the mean of the trailing `w` closes after that.
      Without a `Close` column the cleaned table comes out unchanged, and
      average columns of other windows are never touched. */
  method CleanAndAverage(f: Frame) returns (g: Frame)
    ensures g.columns == f.columns && |g.rows| == |Cleaning.Clean(f).rows|
    ensures forall i :: 0 <= i < |g.rows| ==> SameExceptAverages(Cleaning.Clean(f).rows[i], g.rows[i])
    ensures Close !in f.columns ==> g == Cleaning.Clean(f)
    ensures forall i, k :: 0 <= i < |g.rows| && k !in DefaultWindows ==>
      (k in g.rows[i].ma <==> k in Cleaning.Clean(f).rows[i].ma) &&
      (k in g.rows[i].ma ==> g.rows[i].ma[k] == Cleaning.Clean(f).rows[i].ma[k])
    ensures Close in f.columns ==>
      forall i, w :: 0 <= i < |g.rows| && w in DefaultWindows ==>
        && w in g.rows[i].ma
        && (g.rows[i].ma[w].Some? <==> i >= w - 1)
        && (i >= w - 1 ==>
              g.rows[i].ma[w] == Some(SumPresent(Closes(Cleaning.Clean(f).rows)[i + 1 - w..i + 1]) / (w as real)))
  {
    var cleaned := Cleaning.Clean(f);
    Cleaning.CleanShape(f);
    g := CalculateMovingAverages(cleaned, DefaultWindows);
    if Close in f.columns {
      CleanedClosesPresent(f);
      AveragesOfCompleteCloses(cleaned.rows, g.rows, DefaultWindows);
    }
  }

  /** With no close missing, each computed average column is undefined exactly
      during the warm-up and the trailing mean after it. */
  lemma AveragesOfCompleteCloses(rows: seq<Row>, t: seq<Row>, windows: seq<int>)
    requires AllPresent(Closes(rows)) && |t| == |rows|
    requires forall k :: 0 <= k < |windows| ==> windows[k] >= 1
    requires forall i, w :: 0 <= i < |rows| && w in windows ==>
      w in t[i].ma && t[i].ma[w] == WindowMean(Closes(rows), w, i)
    ensures forall i, w :: 0 <= i < |t| && w in windows ==>
      && w in t[i].ma
      && (t[i].ma[w].Some? <==> i >= w - 1)
      && (i >= w - 1 ==> t[i].ma[w] == Some(SumPresent(Closes(rows)[i + 1 - w..i + 1]) / (w as real)))
  {
    forall i, w | 0 <= i < |t| && w in windows
      ensures t[i].ma[w].Some? <==> i >= w - 1
      ensures i >= w - 1 ==> t[i].ma[w] == Some(SumPresent(Closes(rows)[i + 1 - w..i + 1]) / (w as real))
    {
      DefinedAfterWarmUp(Closes(rows), w, i);
    }
  }
}
