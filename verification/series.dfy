/** The dashboard's closing-price series and its cleaning `close.ffill().dropna()`
    (dashboard.py): every gap takes the nearest earlier price, and only the
    leading run of missing prices, which has no earlier price, is dropped. */
module PriceSeries {
  import opened Options

  /** A loaded observation; a NaN close is `None`. */
  datatype Obs = Obs(date: int, close: Option<real>)

  /** A cleaned observation. */
  datatype Point = Point(date: int, close: real)

  predicate ObsNonDecreasing(xs: seq<Obs>) {
    forall i, j :: 0 <= i <= j < |xs| ==> xs[i].date <= xs[j].date
  }

  predicate NonDecreasing(ps: seq<Point>) {
    forall i, j :: 0 <= i <= j < |ps| ==> ps[i].date <= ps[j].date
  }

  /** What `ffill` puts at position `i`: the nearest present close at or before `i`. */
  function LastPresent(xs: seq<Obs>, i: int): Option<real>
    requires 0 <= i < |xs|
    decreases i
  {
    if xs[i].close.Some? then xs[i].close
    else if i == 0 then None
    else LastPresent(xs, i - 1)
  }

  /** Length of the leading run of missing closes. */
  function LeadingMissing(xs: seq<Obs>): (n: nat)
    ensures n <= |xs|
  {
    if |xs| == 0 || xs[0].close.Some? then 0 else 1 + LeadingMissing(xs[1..])
  }

  /** `close.ffill().dropna()`. */
  method FfillDropna(xs: seq<Obs>) returns (cleaned: seq<Point>)
    ensures |cleaned| == |xs| - LeadingMissing(xs)
    ensures forall k :: 0 <= k < |cleaned| && k + LeadingMissing(xs) < |xs| ==>
      cleaned[k].date == xs[k + LeadingMissing(xs)].date &&
      Some(cleaned[k].close) == LastPresent(xs, k + LeadingMissing(xs))
    ensures ObsNonDecreasing(xs) ==> NonDecreasing(cleaned)
  {
    var lead := LeadingMissing(xs);
    LeadingRun(xs);
    cleaned := [];
    var carry: Option<real> := None;
    var i := 0;
    while i < |xs|
      invariant 0 <= i <= |xs|
      invariant carry == (if i == 0 then None else LastPresent(xs, i - 1))
      invariant |cleaned| == (if i <= lead then 0 else i - lead)
      invariant forall k :: 0 <= k < |cleaned| ==>
        cleaned[k].date == xs[k + lead].date && Some(cleaned[k].close) == LastPresent(xs, k + lead)
    {
      if xs[i].close.Some? {
        carry := xs[i].close;
      }
      MissingOnlyInLead(xs, i);
      if carry.Some? {
        cleaned := cleaned + [Point(xs[i].date, carry.value)];
      }
      i := i + 1;
    }
    if ObsNonDecreasing(xs) {
      forall a, b | 0 <= a <= b < |cleaned| ensures cleaned[a].date <= cleaned[b].date {
        assert xs[a + lead].date <= xs[b + lead].date;
      }
    }
  }

  // ---------------------------------------------------------------------------
  // Properties

  lemma {:induction false} LeadingRun(xs: seq<Obs>)
    ensures forall i :: 0 <= i < LeadingMissing(xs) ==> xs[i].close.None?
    ensures LeadingMissing(xs) < |xs| ==> xs[LeadingMissing(xs)].close.Some?
  {
    if |xs| > 0 && xs[0].close.None? {
      LeadingRun(xs[1..]);
      forall i | 0 < i < LeadingMissing(xs) ensures xs[i].close.None? {
        assert xs[i] == xs[1..][i - 1];
      }
    }
  }

  /** Forward filling leaves a position empty exactly inside the leading run,
      which is therefore all that `dropna` removes. */
  lemma {:induction false} MissingOnlyInLead(xs: seq<Obs>, i: int)
    requires 0 <= i < |xs|
    ensures LastPresent(xs, i).None? <==> i < LeadingMissing(xs)
    decreases i
  {
    LeadingRun(xs);
    if xs[i].close.None? && i > 0 {
      MissingOnlyInLead(xs, i - 1);
    }
  }

  /** A present close is kept as is. */
  lemma PresentKept(xs: seq<Obs>, i: int)
    requires 0 <= i < |xs| && xs[i].close.Some?
    ensures i >= LeadingMissing(xs)
    ensures LastPresent(xs, i) == xs[i].close
  {
    MissingOnlyInLead(xs, i);
  }

  /** A filled value is the close of the nearest earlier present observation:
      every observation strictly between the two is missing. */
  lemma {:induction false} FillIsNearestEarlier(xs: seq<Obs>, i: int)
    requires 0 <= i < |xs| && LastPresent(xs, i).Some?
    ensures exists j :: && 0 <= j <= i
                        && xs[j].close == LastPresent(xs, i)
                        && (forall k :: j < k <= i ==> xs[k].close.None?)
    decreases i
  {
    if xs[i].close.None? {
      FillIsNearestEarlier(xs, i - 1);
      var j :| 0 <= j <= i - 1 && xs[j].close == LastPresent(xs, i - 1) &&
        forall k :: j < k <= i - 1 ==> xs[k].close.None?;
      assert forall k :: j < k <= i ==> xs[k].close.None?;
    }
  }
}
