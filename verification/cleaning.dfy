/** `clean_data` of sp500_pipeline.py: drop rows with a missing required value,
    keep the last row of every date, sort by date, drop rows with a negative
    required value — in that order. */
module Cleaning {
  import opened Options
  import opened Frames

  /** Step 1: `dropna` restricted to the required columns that are present. */
  function DropMissing(cols: set<Column>, rows: seq<Row>): seq<Row> {
    Filter(rows, r => Complete(cols, r))
  }

  /** Does some row of `s` carry date `d`? */
  predicate HasDate(s: seq<Row>, d: int) {
    exists x :: x in s && x.date == d
  }

  /** Step 2: `drop_duplicates(subset=["date"], keep="last")`: a row survives when
      no later row has its date; survivors keep their relative order. */
  function DedupLast(s: seq<Row>): seq<Row> {
    if |s| == 0 then []
    else if HasDate(s[1..], s[0].date) then DedupLast(s[1..])
    else [s[0]] + DedupLast(s[1..])
  }

  /** Step 3 helper: insert `r` into a strictly increasing sequence that lacks its date. */
  function Insert(r: Row, s: seq<Row>): (t: seq<Row>)
    requires StrictlyIncreasing(s)
    requires !HasDate(s, r.date)
    ensures StrictlyIncreasing(t)
    ensures |t| == |s| + 1
    ensures forall x :: x in t <==> x == r || x in s
  {
    if |s| == 0 then [r]
    else if r.date < s[0].date then [r] + s
    else
      assert forall x :: x in s[1..] ==> x in s;
      var rest := Insert(r, s[1..]);
      assert forall x :: x in rest ==> s[0].date < x.date by {
        forall x | x in rest ensures s[0].date < x.date {
          if x != r {
            var k :| 0 <= k < |s[1..]| && s[1..][k] == x;
            assert s[k + 1] == x;
          }
        }
      }
      [s[0]] + rest
  }

  /** Step 3: `sort_values(by="date")` on rows whose dates are already unique, so
      the order is fully determined by the dates. */
  function SortByDate(s: seq<Row>): (t: seq<Row>)
    requires DistinctDates(s)
    ensures StrictlyIncreasing(t)
    ensures |t| == |s|
    ensures forall x :: x in t <==> x in s
  {
    if |s| == 0 then []
    else
      assert DistinctDates(s[1..]) by {
        forall i, j | 0 <= i < |s[1..]| && 0 <= j < |s[1..]| && i != j
          ensures s[1..][i].date != s[1..][j].date
        {
          assert s[1..][i] == s[i + 1] && s[1..][j] == s[j + 1];
        }
      }
      var rest := SortByDate(s[1..]);
      assert !HasDate(rest, s[0].date) by {
        forall x | x in rest ensures x.date != s[0].date {
          var k :| 0 <= k < |s[1..]| && s[1..][k] == x;
          assert s[k + 1] == x;
        }
      }
      Insert(s[0], rest)
  }

  /** Step 4: keep rows whose present required values are all `>= 0`. */
  function KeepNonNegative(cols: set<Column>, rows: seq<Row>): seq<Row> {
    Filter(rows, r => NonNegative(cols, r))
  }

  /** The last row of `s` that carries date `d` and has no missing required value:
      the row that `clean_data` keeps for `d`, if any. */
  function LastComplete(cols: set<Column>, s: seq<Row>, d: int): Option<Row> {
    if |s| == 0 then None
    else
      var later := LastComplete(cols, s[1..], d);
      if later.Some? then later
      else if s[0].date == d && Complete(cols, s[0]) then Some(s[0])
      else None
  }

  /** `clean_data` on a table; the set of present columns is unchanged. */
  function Clean(f: Frame): Frame {
    var complete := DropMissing(f.columns, f.rows);
    var unique := DedupLast(complete);
    DedupLastDistinct(complete);
    Frame(f.columns, KeepNonNegative(f.columns, SortByDate(unique)))
  }

  // ---------------------------------------------------------------------------
  // Properties

  /** The last row of each date is what step 2 keeps. */
  lemma {:induction false} DedupLastMembers(s: seq<Row>, x: Row)
    ensures x in DedupLast(s) <==> x in s && LastWithDate(s, x.date) == Some(x)
    ensures |DedupLast(s)| <= |s|
  {
    if |s| > 0 {
      DedupLastMembers(s[1..], x);
      LastWithDateNone(s[1..], s[0].date);
      LastWithDateNone(s[1..], x.date);
      if x != s[0] && x in s {
        assert x in s[1..];
      }
    }
  }

  /** The last row of `s` with date `d`, with no completeness condition. */
  function LastWithDate(s: seq<Row>, d: int): Option<Row> {
    if |s| == 0 then None
    else
      var later := LastWithDate(s[1..], d);
      if later.Some? then later
      else if s[0].date == d then Some(s[0])
      else None
  }

  lemma {:induction false} LastWithDateNone(s: seq<Row>, d: int)
    ensures LastWithDate(s, d).None? <==> !HasDate(s, d)
    ensures LastWithDate(s, d).Some? ==> LastWithDate(s, d).value in s && LastWithDate(s, d).value.date == d
  {
    if |s| > 0 {
      LastWithDateNone(s[1..], d);
      if HasDate(s, d) && !HasDate(s[1..], d) {
        var x :| x in s && x.date == d;
        assert x == s[0] || x in s[1..];
      }
    }
  }

  /** Step 2 leaves one row per date. */
  lemma {:induction false} DedupLastDistinct(s: seq<Row>)
    ensures DistinctDates(DedupLast(s))
  {
    if |s| > 0 {
      DedupLastDistinct(s[1..]);
      var rest := DedupLast(s[1..]);
      if !HasDate(s[1..], s[0].date) {
        forall x | x in rest ensures x.date != s[0].date {
          DedupLastMembers(s[1..], x);
        }
        var t := [s[0]] + rest;
        forall i, j | 0 <= i < |t| && 0 <= j < |t| && i != j ensures t[i].date != t[j].date {
          if i == 0 { assert t[j] in rest; }
          else if j == 0 { assert t[i] in rest; }
          else { assert t[i] == rest[i - 1] && t[j] == rest[j - 1]; }
        }
      }
    }
  }

  /** Dropping incomplete rows first turns "last row of the date" into "last
      complete row of the date". */
  lemma {:induction false} LastAfterDrop(cols: set<Column>, s: seq<Row>, d: int)
    ensures LastWithDate(DropMissing(cols, s), d) == LastComplete(cols, s, d)
  {
    if |s| > 0 {
      LastAfterDrop(cols, s[1..], d);
      var head: seq<Row> := if Complete(cols, s[0]) then [s[0]] else [];
      var t := DropMissing(cols, s);
      assert t == head + DropMissing(cols, s[1..]);
      if Complete(cols, s[0]) {
        assert t[1..] == DropMissing(cols, s[1..]);
      } else {
        assert t == DropMissing(cols, s[1..]);
      }
    }
  }

  /** Cleaning only removes rows, and what remains has unique, strictly
      increasing dates. */
  lemma CleanShape(f: Frame)
    ensures Clean(f).columns == f.columns
    ensures StrictlyIncreasing(Clean(f).rows)
    ensures |Clean(f).rows| <= |f.rows|
    ensures forall r :: r in Clean(f).rows ==> r in f.rows
  {
    var cols := f.columns;
    var complete := DropMissing(cols, f.rows);
    var unique := DedupLast(complete);
    DedupLastDistinct(complete);
    var sorted := SortByDate(unique);
    FilterKeepsIncreasing(sorted, r => NonNegative(cols, r));
    forall r | r in Clean(f).rows ensures r in f.rows {
      DedupLastMembers(complete, r);
    }
    if |f.rows| > 0 {
      DedupLastMembers(complete, f.rows[0]);
    }
  }

  /** Exactly which rows survive: the last complete row of a date, provided its
      present required values are non-negative. So every output row is complete
      and non-negative, and a date whose last complete row has a negative value
      vanishes instead of falling back to an earlier row. */
  lemma CleanMembers(f: Frame)
    ensures forall r :: r in Clean(f).rows <==>
      LastComplete(f.columns, f.rows, r.date) == Some(r) && NonNegative(f.columns, r)
    ensures forall r :: r in Clean(f).rows ==> Complete(f.columns, r) && NonNegative(f.columns, r)
  {
    var cols := f.columns;
    var complete := DropMissing(cols, f.rows);
    forall r ensures r in Clean(f).rows <==> LastComplete(cols, f.rows, r.date) == Some(r) && NonNegative(cols, r) {
      DedupLastMembers(complete, r);
      LastAfterDrop(cols, f.rows, r.date);
      LastWithDateNone(complete, r.date);
    }
    forall r | r in Clean(f).rows ensures Complete(cols, r) {
      LastCompleteIsComplete(cols, f.rows, r.date);
    }
  }

  /** The row chosen for a date is complete, is an input row and has that date. */
  lemma {:induction false} LastCompleteIsComplete(cols: set<Column>, s: seq<Row>, d: int)
    ensures LastComplete(cols, s, d).Some? ==>
      var r := LastComplete(cols, s, d).value;
      r in s && r.date == d && Complete(cols, r)
  {
    if |s| > 0 {
      LastCompleteIsComplete(cols, s[1..], d);
    }
  }

  /** Row `i` is complete and no later complete row shares its date. */
  predicate IsLastComplete(cols: set<Column>, s: seq<Row>, i: int)
    requires 0 <= i < |s|
  {
    Complete(cols, s[i]) &&
    forall j :: i < j < |s| && s[j].date == s[i].date ==> !Complete(cols, s[j])
  }

  /** `LastComplete` picks, by position, the last complete row of the date. */
  lemma {:induction false} LastCompleteByIndex(cols: set<Column>, s: seq<Row>, d: int)
    ensures LastComplete(cols, s, d).None? <==>
      forall i :: 0 <= i < |s| && s[i].date == d ==> !Complete(cols, s[i])
    ensures forall i :: 0 <= i < |s| && s[i].date == d && IsLastComplete(cols, s, i) ==>
      LastComplete(cols, s, d) == Some(s[i])
  {
    if |s| > 0 {
      LastCompleteByIndex(cols, s[1..], d);
      forall i | 0 < i < |s| ensures s[i] == s[1..][i - 1] { }
      forall i | 0 <= i < |s| && s[i].date == d && IsLastComplete(cols, s, i)
        ensures LastComplete(cols, s, d) == Some(s[i])
      {
        if i > 0 {
          assert IsLastComplete(cols, s[1..], i - 1);
        } else {
          assert forall k :: 0 <= k < |s[1..]| && s[1..][k].date == d ==> !Complete(cols, s[1..][k]);
        }
      }
    }
  }

  /** Keep-last runs before the negative filter, so the last complete row of a
      date decides the date alone: it survives exactly when it is non-negative,
      and when it is not, no row of that date survives — an earlier,
      non-negative row of the same date is not used in its place. */
  lemma CleanLastRowDecides(f: Frame, i: int)
    requires 0 <= i < |f.rows| && IsLastComplete(f.columns, f.rows, i)
    ensures f.rows[i] in Clean(f).rows <==> NonNegative(f.columns, f.rows[i])
    ensures !NonNegative(f.columns, f.rows[i]) ==>
      forall r :: r in Clean(f).rows ==> r.date != f.rows[i].date
  {
    CleanMembers(f);
    LastCompleteByIndex(f.columns, f.rows, f.rows[i].date);
  }
}
