/** The daily price table handled by the ingestion pipeline: one record per
    downloaded row, with the five price/volume columns that cleaning cares
    about and the moving-average columns added later. */
module Frames {
  import opened Options

  /** The required columns of sp500_pipeline.py, in the order the source lists them. */
  datatype Column = Open | High | Low | Close | Volume

  /** One row of the table. A cell that pandas holds as NaN is `None`. The `ma`
      map holds the moving-average columns `MA_<w>` keyed by the window `w`. */
  datatype Row = Row(
    date: int,
    open: Option<real>,
    high: Option<real>,
    low: Option<real>,
    close: Option<real>,
    volume: Option<real>,
    ma: map<int, Option<real>>)

  /** A table: which required columns the download actually carried, and its rows.
      Cells of an absent column carry no meaning. */
  datatype Frame = Frame(columns: set<Column>, rows: seq<Row>)

  function Cell(r: Row, c: Column): Option<real> {
    match c
    case Open => r.open
    case High => r.high
    case Low => r.low
    case Close => r.close
    case Volume => r.volume
  }

  /** No missing value in any present required column. */
  predicate Complete(cols: set<Column>, r: Row) {
    forall c :: c in cols ==> Cell(r, c).Some?
  }

  /** `df[col] >= 0` holds for every present required column; a NaN compares false. */
  predicate NonNegative(cols: set<Column>, r: Row) {
    forall c :: c in cols ==> Cell(r, c).Some? && Cell(r, c).value >= 0.0
  }

  /** Dates strictly increase along the sequence, hence are unique. */
  predicate StrictlyIncreasing(rows: seq<Row>) {
    forall i, j :: 0 <= i < j < |rows| ==> rows[i].date < rows[j].date
  }

  predicate DistinctDates(rows: seq<Row>) {
    forall i, j :: 0 <= i < |rows| && 0 <= j < |rows| && i != j ==> rows[i].date != rows[j].date
  }

  /** `t` is `s` with some rows left out and the others kept in their order. */
  predicate Subsequence(t: seq<Row>, s: seq<Row>)
    decreases |s|
  {
    if |t| == 0 then true
    else if |s| == 0 then false
    else (t[0] == s[0] && Subsequence(t[1..], s[1..])) || Subsequence(t, s[1..])
  }

  /** The rows of `s` satisfying `p`; `FilterInOrder` states that their order is kept. */
  function Filter(s: seq<Row>, p: Row -> bool): (t: seq<Row>)
    ensures |t| <= |s|
    ensures forall x :: x in t <==> x in s && p(x)
  {
    if |s| == 0 then []
    else (if p(s[0]) then [s[0]] else []) + Filter(s[1..], p)
  }

  /** Filtering leaves rows out but never reorders the ones it keeps. */
  lemma {:induction false} FilterInOrder(s: seq<Row>, p: Row -> bool)
    ensures Subsequence(Filter(s, p), s)
  {
    if |s| > 0 {
      var rest := Filter(s[1..], p);
      FilterInOrder(s[1..], p);
      if p(s[0]) {
        assert Filter(s, p) == [s[0]] + rest;
        assert ([s[0]] + rest)[1..] == rest;
      } else {
        assert Filter(s, p) == rest;
      }
    }
  }

  /** Filtering keeps rows in order, so it keeps strictly increasing dates. */
  lemma {:induction false} FilterKeepsIncreasing(s: seq<Row>, p: Row -> bool)
    requires StrictlyIncreasing(s)
    ensures StrictlyIncreasing(Filter(s, p))
  {
    if |s| > 0 {
      FilterKeepsIncreasing(s[1..], p);
      var rest := Filter(s[1..], p);
      forall x | x in rest ensures s[0].date < x.date {
        var k :| 0 <= k < |s[1..]| && s[1..][k] == x;
        assert s[k + 1] == x;
      }
    }
  }
}
