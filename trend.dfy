/**
 * components/charts/TrendChart.tsx: which x-axis ticks the trend chart asks for, and the label a
 * tick gets in the multi-year view. The chart drawing itself is not modelled.
 */
module Trend {
  import opened Wrappers
  import opened Seqs
  import opened Types

  /** What the trend panel shows: a placeholder, or a chart with its ticks. */
  datatype TrendView = NoData | Chart(ticks: seq<string>, singleYear: bool)

  /** A chart of at most twelve points is taken to be a single year of months. */
  const MONTHS_IN_YEAR: nat := 12

  /** No earlier record has the year of record `k`. */
  predicate IsFirstOfYear(data: seq<Record>, k: nat)
    requires k < |data|
  {
    forall j :: 0 <= j < k ==> YearOf(data[j]) != YearOf(data[k])
  }

  /** The positions among the first `hi` records that open a new year, ascending. */
  function FirstIndices(data: seq<Record>, hi: nat): (ks: seq<nat>)
    requires hi <= |data|
    ensures forall t :: 0 <= t < |ks| ==> ks[t] < hi
  {
    if hi == 0 then []
    else FirstIndices(data, hi - 1) + (if IsFirstOfYear(data, hi - 1) then [hi - 1] else [])
  }

  /** The years of the first `hi` records. */
  function SeenYears(data: seq<Record>, hi: nat): set<real>
    requires hi <= |data|
  {
    set k | 0 <= k < hi :: YearOf(data[k])
  }

  /** The `Date` of each record at the positions `ks`. */
  function DatesAt(data: seq<Record>, ks: seq<nat>): (dates: seq<string>)
    requires forall t :: 0 <= t < |ks| ==> ks[t] < |data|
    ensures |dates| == |ks|
    ensures forall t :: 0 <= t < |ks| ==> dates[t] == DateOf(data[ks[t]])
  {
    seq(|ks|, t requires 0 <= t < |ks| => DateOf(data[ks[t]]))
  }

  /** `customTicks`: every date for a single year, otherwise the first date of each year. */
  function CustomTicks(data: seq<Record>): seq<string>
  {
    if |data| <= MONTHS_IN_YEAR then seq(|data|, i requires 0 <= i < |data| => DateOf(data[i]))
    else DatesAt(data, FirstIndices(data, |data|))
  }

  /** With at most twelve records, the ticks are all the dates, in input order. */
  lemma SingleYearTicks(data: seq<Record>)
    requires |data| <= MONTHS_IN_YEAR
    ensures |CustomTicks(data)| == |data|
    ensures forall i :: 0 <= i < |data| ==> CustomTicks(data)[i] == DateOf(data[i])
  {
  }

  /** Every tick is the date of a record. */
  lemma TicksAreDates(data: seq<Record>)
    ensures forall t :: t in CustomTicks(data) ==> exists d :: d in data && DateOf(d) == t
  {
    var ticks := CustomTicks(data);
    forall t | t in ticks ensures exists d :: d in data && DateOf(d) == t {
      var u :| 0 <= u < |ticks| && ticks[u] == t;
      if |data| <= MONTHS_IN_YEAR {
        assert data[u] in data;
      } else {
        var ks := FirstIndices(data, |data|);
        assert data[ks[u]] in data;
      }
    }
  }

  /** The trend panel for the records of the current view. */
  function TrendViewOf(data: seq<Record>): (v: TrendView)
    ensures v.NoData? <==> |data| == 0
    ensures v.Chart? ==> (v.singleYear <==> |data| <= MONTHS_IN_YEAR)
  {
    if |data| == 0 then NoData else Chart(CustomTicks(data), |data| <= MONTHS_IN_YEAR)
  }

  /**
   * `customTicks` as the source computes it: in the multi-year view a set of seen years decides,
   * record by record, whether a record opens a new year.
   */
  method ComputeTicks(data: seq<Record>) returns (ticks: seq<string>)
    ensures ticks == CustomTicks(data)
  {
    if |data| <= MONTHS_IN_YEAR {
      return seq(|data|, i requires 0 <= i < |data| => DateOf(data[i]));
    }
    var seenYears: set<real> := {};
    var kept: seq<Record> := [];
    for i := 0 to |data|
      invariant seenYears == SeenYears(data, i)
      invariant |kept| == |FirstIndices(data, i)|
      invariant forall t :: 0 <= t < |kept| ==> kept[t] == data[FirstIndices(data, i)[t]]
    {
      var d := data[i];
      assert YearOf(d) in seenYears <==> !IsFirstOfYear(data, i);
      if YearOf(d) !in seenYears {
        seenYears := seenYears + {YearOf(d)};
        kept := kept + [d];
      }
      assert SeenYears(data, i + 1) == SeenYears(data, i) + {YearOf(data[i])};
    }
    ticks := seq(|kept|, t requires 0 <= t < |kept| => DateOf(kept[t]));
  }

  /** The positions are ascending, and each one holds the first record of its year. */
  lemma {:induction false} FirstIndicesAreFirsts(data: seq<Record>, hi: nat)
    requires hi <= |data|
    ensures forall t, u :: 0 <= t < u < |FirstIndices(data, hi)| ==> FirstIndices(data, hi)[t] < FirstIndices(data, hi)[u]
    ensures forall t :: 0 <= t < |FirstIndices(data, hi)| ==> IsFirstOfYear(data, FirstIndices(data, hi)[t])
  {
    if hi > 0 {
      FirstIndicesAreFirsts(data, hi - 1);
      var ks, prev := FirstIndices(data, hi), FirstIndices(data, hi - 1);
      var tail := if IsFirstOfYear(data, hi - 1) then [hi - 1] else [];
      assert ks == prev + tail;
      forall t, u | 0 <= t < u < |ks| ensures ks[t] < ks[u] {
        if u < |prev| {
          assert ks[t] == prev[t] && ks[u] == prev[u];
          assert prev[t] < prev[u];
        } else {
          assert ks[t] == prev[t] && ks[u] == hi - 1;
        }
      }
      forall t | 0 <= t < |ks| ensures IsFirstOfYear(data, ks[t]) {
        if t < |prev| {
          assert ks[t] == prev[t];
          assert IsFirstOfYear(data, prev[t]);
        } else {
          assert ks[t] == hi - 1;
        }
      }
    }
  }

  /** Every record has a first record of its year at or before it. */
  lemma {:induction false} EarliestOfYear(data: seq<Record>, k: nat) returns (j: nat)
    requires k < |data|
    ensures j <= k && IsFirstOfYear(data, j) && YearOf(data[j]) == YearOf(data[k])
    decreases k
  {
    if IsFirstOfYear(data, k) {
      j := k;
    } else {
      var i :| 0 <= i < k && YearOf(data[i]) == YearOf(data[k]);
      j := EarliestOfYear(data, i);
    }
  }

  /** Every position that opens a year is listed. */
  lemma {:induction false} FirstIndicesComplete(data: seq<Record>, hi: nat, k: nat)
    requires k < hi <= |data|
    requires IsFirstOfYear(data, k)
    ensures k in FirstIndices(data, hi)
  {
    var ks := FirstIndices(data, hi);
    if k < hi - 1 {
      FirstIndicesComplete(data, hi - 1, k);
      var prev := FirstIndices(data, hi - 1);
      var t :| 0 <= t < |prev| && prev[t] == k;
      assert ks[t] == prev[t];
    } else {
      assert ks[|ks| - 1] == k;
    }
  }

  /** Every year of the first `hi` records has a position opening it. */
  lemma FirstIndicesCover(data: seq<Record>, hi: nat)
    requires hi <= |data|
    ensures var ks := FirstIndices(data, hi);
      forall k :: 0 <= k < hi ==> exists t :: 0 <= t < |ks| && YearOf(data[ks[t]]) == YearOf(data[k])
  {
    var ks := FirstIndices(data, hi);
    forall k | 0 <= k < hi ensures exists t :: 0 <= t < |ks| && YearOf(data[ks[t]]) == YearOf(data[k]) {
      var j := EarliestOfYear(data, k);
      FirstIndicesComplete(data, hi, j);
      var t :| 0 <= t < |ks| && ks[t] == j;
    }
  }

  /**
   * In the multi-year view there is exactly one tick per year of the data: the date of the
   * first record of that year, in the order the years first appear.
   */
  lemma OneTickPerYear(data: seq<Record>)
    requires |data| > MONTHS_IN_YEAR
    ensures exists ks: seq<nat> ::
      (forall t :: 0 <= t < |ks| ==> ks[t] < |data|)
      && CustomTicks(data) == DatesAt(data, ks)
      && (forall t, u :: 0 <= t < u < |ks| ==> ks[t] < ks[u])
      && (forall t :: 0 <= t < |ks| ==> IsFirstOfYear(data, ks[t]))
      && (forall t, u :: 0 <= t < u < |ks| ==> YearOf(data[ks[t]]) != YearOf(data[ks[u]]))
      && (forall k :: 0 <= k < |data| ==> exists t :: 0 <= t < |ks| && YearOf(data[ks[t]]) == YearOf(data[k]))
  {
    var ks := FirstIndices(data, |data|);
    FirstIndicesAreFirsts(data, |data|);
    FirstIndicesCover(data, |data|);
    assert CustomTicks(data) == DatesAt(data, ks);
  }

  /**
   * `tickFormatter` in the multi-year view: the third `-`-separated part of the date, or
   * `undefined` when there is none.
   */
  function YearLabel(date: string): (text: Option<string>)
    ensures text.Some? <==> |SplitOn(date, '-')| >= 3
  {
    var parts := SplitOn(date, '-');
    if |parts| >= 3 then Some(parts[2]) else None
  }

  /** A date written day-month-year shows its year. */
  lemma YearLabelOfDate(day: string, month: string, year: string)
    requires '-' !in day && '-' !in month && '-' !in year
    ensures YearLabel(day + "-" + month + "-" + year) == Some(year)
  {
    var parts := [day, month, year];
    assert Join(parts, '-') == day + "-" + month + "-" + year by {
      assert parts[1..] == [month, year];
      assert [month, year][1..] == [year];
      assert Join([month, year], '-') == month + "-" + year;
      ConcatAssoc(day + "-", month + "-", year);
      ConcatAssoc(day, "-", month + "-" + year);
      ConcatAssoc(day + "-", month, "-");
    }
    SplitOnJoin(parts, '-');
  }
}
