/** The decision part of `save_to_postgres` in sp500_pipeline.py: read the
    stored maximum date, treat a "relation ... does not exist" error as an
    empty table, re-raise every other error, and append only rows strictly
    newer than the stored maximum. The database itself is not modelled. */
module Persistence {
  import opened Options
  import opened Frames

  /** Python's `pat in s` on strings. */
  function Contains(s: string, pat: string): bool
    decreases |s|
  {
    if |s| < |pat| then false
    else s[..|pat|] == pat || Contains(s[1..], pat)
  }

  /** An error whose text names a missing relation: the table does not exist yet. */
  predicate IsMissingTable(message: string) {
    Contains(message, "relation") && Contains(message, "does not exist")
  }

  /** What `SELECT MAX(date)` produced: a scalar (NULL on an empty table), or an exception. */
  datatype Lookup = Scalar(max: Option<int>) | Raised(message: string)

  /** The stored maximum date to resume from, or the error to re-raise. */
  function LastStoredDate(lookup: Lookup): Result<Option<int>, string> {
    match lookup
    case Scalar(d) => Ok(d)
    case Raised(m) => if IsMissingTable(m) then Ok(None) else Err(m)
  }

  /** `df[df["date"] > last_date]`: the rows dated after `d`, in their
      original order (`Frames.FilterInOrder`). */
  function RowsAfter(rows: seq<Row>, d: int): (t: seq<Row>)
    ensures |t| <= |rows|
    ensures forall r :: r in t <==> r in rows && r.date > d
  {
    Filter(rows, (r: Row) => r.date > d)
  }

  /** The rows strictly newer than the stored maximum; every row when nothing is stored. */
  function SelectNew(rows: seq<Row>, last: Option<int>): seq<Row> {
    match last
    case None => rows
    case Some(d) => RowsAfter(rows, d)
  }

  /** What `save_to_postgres` does with the table. */
  datatype SaveAction = Append(rows: seq<Row>) | NothingNew | Reraise(message: string)

  function SaveToPostgres(rows: seq<Row>, lookup: Lookup): SaveAction {
    match LastStoredDate(lookup)
    case Err(m) => Reraise(m)
    case Ok(last) =>
      var newRows := SelectNew(rows, last);
      if |newRows| == 0 then NothingNew else Append(newRows)
  }

  // ---------------------------------------------------------------------------
  // Properties

  /** `pat` occurs in `s` starting at position `i`. */
  predicate OccursAt(s: string, pat: string, i: int) {
    0 <= i <= |s| - |pat| && s[i..i + |pat|] == pat
  }

  /** `Contains` is substring occurrence. */
  lemma {:induction false} ContainsIsSubstring(s: string, pat: string)
    ensures Contains(s, pat) <==> exists i :: OccursAt(s, pat, i)
    decreases |s|
  {
    if |s| >= |pat| {
      if s[..|pat|] == pat {
        assert OccursAt(s, pat, 0);
      } else {
        assert |s| > 0;
        ContainsIsSubstring(s[1..], pat);
        if Contains(s[1..], pat) {
          var i :| OccursAt(s[1..], pat, i);
          assert s[1..][i..i + |pat|] == s[i + 1..i + 1 + |pat|];
          assert OccursAt(s, pat, i + 1);
        }
        if exists i :: OccursAt(s, pat, i) {
          var i :| OccursAt(s, pat, i);
          assert i != 0;
          assert s[1..][i - 1..i - 1 + |pat|] == s[i..i + |pat|];
          assert OccursAt(s[1..], pat, i - 1);
        }
      }
    }
  }

  /** Only an error mentioning both "relation" and "does not exist" is swallowed
      (as an empty table); any other error is re-raised unchanged, and a
      successful lookup is used as is. */
  lemma ErrorTriage(lookup: Lookup)
    ensures lookup.Scalar? ==> LastStoredDate(lookup) == Ok(lookup.max)
    ensures lookup.Raised? ==>
      (LastStoredDate(lookup) == Ok(None) <==>
        (exists i :: OccursAt(lookup.message, "relation", i)) &&
        (exists i :: OccursAt(lookup.message, "does not exist", i)))
    ensures lookup.Raised? && LastStoredDate(lookup).Err? ==> LastStoredDate(lookup).error == lookup.message
  {
    if lookup.Raised? {
      ContainsIsSubstring(lookup.message, "relation");
      ContainsIsSubstring(lookup.message, "does not exist");
    }
  }

  /** The selection holds exactly the rows newer than the stored maximum
      (`NewRowsAreSuffix` states their order on a sorted table); nothing is written when it is empty; a lookup
      error that is not a missing table writes nothing and propagates. */
  lemma SaveSelectsNewRows(rows: seq<Row>, lookup: Lookup)
    ensures SaveToPostgres(rows, lookup).Reraise? <==> lookup.Raised? && !IsMissingTable(lookup.message)
    ensures SaveToPostgres(rows, lookup).Append? ==>
      var last := LastStoredDate(lookup).value;
      && |SaveToPostgres(rows, lookup).rows| > 0
      && forall r :: r in SaveToPostgres(rows, lookup).rows <==>
           r in rows && (last.None? || r.date > last.value)
    ensures SaveToPostgres(rows, lookup).NothingNew? <==>
      LastStoredDate(lookup).Ok? &&
      forall r :: r in rows ==> LastStoredDate(lookup).value.Some? && r.date <= LastStoredDate(lookup).value.value
  {
    match LastStoredDate(lookup)
    case Err(_) =>
    case Ok(last) =>
      var newRows := SelectNew(rows, last);
      if last.None? {
        if |rows| > 0 { assert rows[0] in rows; }
      } else if |newRows| > 0 {
        assert newRows[0] in newRows;
      }
  }

  /** On a sorted table the new rows form a suffix of it. */
  lemma {:induction false} NewRowsAreSuffix(rows: seq<Row>, last: Option<int>)
    requires StrictlyIncreasing(rows)
    ensures exists k :: 0 <= k <= |rows| && SelectNew(rows, last) == rows[k..]
  {
    if last.Some? {
      if |rows| == 0 {
        assert SelectNew(rows, last) == rows[0..];
      } else if rows[0].date > last.value {
        assert forall r :: r in rows ==> r.date > last.value;
        AllAfter(rows, last.value);
        assert SelectNew(rows, last) == rows[0..];
      } else {
        NewRowsAreSuffix(rows[1..], last);
        var k :| 0 <= k <= |rows[1..]| && SelectNew(rows[1..], last) == rows[1..][k..];
        assert rows[1..][k..] == rows[k + 1..];
      }
    } else {
      assert rows == rows[0..];
    }
  }

  lemma {:induction false} AllAfter(s: seq<Row>, d: int)
    requires forall r :: r in s ==> r.date > d
    ensures RowsAfter(s, d) == s
  {
    if |s| > 0 {
      assert forall r :: r in s[1..] ==> r in s;
      AllAfter(s[1..], d);
    }
  }

  lemma {:induction false} NoneAfter(s: seq<Row>, d: int)
    requires forall i :: 0 <= i < |s| ==> s[i].date <= d
    ensures RowsAfter(s, d) == []
  {
    if |s| > 0 {
      NoneAfter(s[1..], d);
    }
  }

  /** Nothing in a sorted table is newer than its last row. */
  lemma NothingAfterLastRow(rows: seq<Row>)
    requires StrictlyIncreasing(rows) && |rows| > 0
    ensures RowsAfter(rows, rows[|rows| - 1].date) == []
  {
    NoneAfter(rows, rows[|rows| - 1].date);
  }

  /** `SELECT MAX(date)` once `rows` are appended to a table whose maximum was
      `stored` (NULL on an empty table). */
  function MaxAfterAppend(stored: Option<int>, rows: seq<Row>): Option<int> {
    if |rows| == 0 then stored
    else
      var before := MaxAfterAppend(stored, rows[..|rows| - 1]);
      var d := rows[|rows| - 1].date;
      Some(if before.Some? && before.value > d then before.value else d)
  }

  /** When no appended date and no earlier maximum exceeds `d`, the maximum
      after the append is at most `d`. */
  lemma {:induction false} MaxAfterAppendBounded(stored: Option<int>, rows: seq<Row>, d: int)
    requires stored.Some? ==> stored.value <= d
    requires forall r :: r in rows ==> r.date <= d
    ensures MaxAfterAppend(stored, rows).Some? ==> MaxAfterAppend(stored, rows).value <= d
  {
    if |rows| > 0 {
      assert forall r :: r in rows[..|rows| - 1] ==> r in rows;
      MaxAfterAppendBounded(stored, rows[..|rows| - 1], d);
      assert rows[|rows| - 1] in rows;
    }
  }

  /** Appending rows none of which, and no earlier maximum, lies above the last
      appended date leaves that date as the maximum. */
  lemma MaxAfterAppendIsLast(stored: Option<int>, rows: seq<Row>)
    requires |rows| > 0
    requires stored.Some? ==> stored.value < rows[|rows| - 1].date
    requires forall r :: r in rows ==> r.date <= rows[|rows| - 1].date
    ensures MaxAfterAppend(stored, rows) == Some(rows[|rows| - 1].date)
  {
    var front := rows[..|rows| - 1];
    assert forall r :: r in front ==> r in rows;
    MaxAfterAppendBounded(stored, front, rows[|rows| - 1].date);
  }

  /** In a sorted table no row of a suffix lies above the last row. */
  lemma SuffixUpToLast(rows: seq<Row>, k: int)
    requires StrictlyIncreasing(rows) && 0 <= k < |rows|
    ensures forall r :: r in rows[k..] ==> r.date <= rows[|rows| - 1].date
  {
    forall r | r in rows[k..] ensures r.date <= rows[|rows| - 1].date {
      var j :| 0 <= j < |rows[k..]| && rows[k..][j] == r;
      assert rows[k + j] == r;
    }
  }

  /** An append holds the selection made against a successful lookup. */
  lemma AppendIsSelection(rows: seq<Row>, lookup: Lookup, appended: seq<Row>)
    requires SaveToPostgres(rows, lookup) == Append(appended)
    ensures LastStoredDate(lookup).Ok?
    ensures appended == SelectNew(rows, LastStoredDate(lookup).value) && |appended| > 0
  {
  }

  /** The selection from a sorted table, when not empty, ends with the table's
      last row, and no earlier maximum nor selected date lies above it. */
  lemma {:induction false} SortedSelection(rows: seq<Row>, stored: Option<int>, appended: seq<Row>)
    requires StrictlyIncreasing(rows)
    requires appended == SelectNew(rows, stored) && |appended| > 0
    ensures |rows| > 0 && appended[|appended| - 1] == rows[|rows| - 1]
    ensures forall r :: r in appended ==> r.date <= appended[|appended| - 1].date
    ensures stored.Some? ==> stored.value < appended[|appended| - 1].date
  {
    NewRowsAreSuffix(rows, stored);
    var k :| 0 <= k <= |rows| && appended == rows[k..];
    assert appended[|appended| - 1] == rows[|rows| - 1];
    SuffixUpToLast(rows, k);
    if stored.Some? {
      assert appended[|appended| - 1] in appended;
    }
  }

  /** Saving twice is harmless: once the new rows of a sorted table are
      appended, every appended date and the earlier maximum lie at or below the
      last appended date, so the table's maximum becomes that date, and saving
      the same table again writes nothing. */
  lemma SecondSaveWritesNothing(rows: seq<Row>, lookup: Lookup, appended: seq<Row>)
    requires StrictlyIncreasing(rows)
    requires SaveToPostgres(rows, lookup) == Append(appended)
    ensures |appended| > 0
    ensures forall r :: r in appended ==> r.date <= appended[|appended| - 1].date
    ensures LastStoredDate(lookup).value.Some? ==>
              LastStoredDate(lookup).value.value < appended[|appended| - 1].date
    ensures MaxAfterAppend(LastStoredDate(lookup).value, appended) == Some(appended[|appended| - 1].date)
    ensures SaveToPostgres(rows, Scalar(Some(appended[|appended| - 1].date))) == NothingNew
  {
    AppendIsSelection(rows, lookup, appended);
    var stored := LastStoredDate(lookup).value;
    SortedSelection(rows, stored, appended);
    MaxAfterAppendIsLast(stored, appended);
    NothingAfterLastRow(rows);
    assert SelectNew(rows, Some(rows[|rows| - 1].date)) == [];
  }
}
