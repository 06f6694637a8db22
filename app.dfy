/**
 * App.tsx: the dashboard's state (the records, the chosen sector, the selected year and the
 * loading flag), the actions that change it, and the views derived from it.
 */
module App {
  import opened Wrappers
  import opened Seqs
  import opened Types
  import opened Parser
  import opened Analytics
  import opened Sorting
  import opened Trend

  /** The values of `SectorType`. */
  predicate IsSector(s: string)
  {
    s == RURAL || s == URBAN || s == COMBINED
  }

  /** `prev === year ? null : year`. */
  function ToggleYear(prev: Option<real>, year: real): (next: Option<real>)
    ensures next == None <==> prev == Some(year)
    ensures next != None ==> next == Some(year)
  {
    if prev == Some(year) then None else Some(year)
  }

  /** Clicking the same year twice restores the selection, when it was empty or that year. */
  lemma ToggleTwice(prev: Option<real>, year: real)
    requires prev == None || prev == Some(year)
    ensures ToggleYear(ToggleYear(prev, year), year) == prev
  {
  }

  /** From another selected year, two clicks on `year` clear the selection instead. */
  lemma ToggleTwiceFromOther(other: real, year: real)
    requires other != year
    ensures ToggleYear(ToggleYear(Some(other), year), year) == None
  {
  }

  /** `if (selectedYear)`: a selected year of 0 is falsy and counts as no selection. */
  predicate YearActive(selected: Option<real>)
  {
    selected.Some? && selected.value != 0.0
  }

  /** `filteredData`: the sector's records, restricted to the selected year when there is one. */
  function FilteredData(data: seq<Record>, sector: string, selected: Option<real>): seq<Record>
  {
    var d := FilterData(data, sector);
    if YearActive(selected) then YearData(d, selected.value) else d
  }

  /** Everything the page shows, computed from the state. */
  datatype Views = Views(
    filtered: seq<Record>,
    fullSector: seq<Record>,
    kpis: KPI,
    yearly: seq<YearPoint>,
    commodities: seq<Commodity>,
    trend: TrendView)

  /** The `useMemo` compositions of the dashboard. */
  function Derive(data: seq<Record>, sector: string, selected: Option<real>): (v: Views)
    ensures |v.commodities| == |COMMODITIES|
    ensures v.trend.NoData? <==> |v.filtered| == 0
  {
    var filtered := FilteredData(data, sector, selected);
    var fullSector := FilterData(data, sector);
    Views(
      filtered,
      fullSector,
      KPIOf(if YearActive(selected) then filtered else fullSector),
      YearlyAverages(fullSector),
      CommodityAverages(filtered),
      TrendViewOf(filtered))
  }

  /**
   * The filtered view holds exactly the records of the sector (and of the selected year, when one
   * is active), with all their occurrences.
   */
  lemma FilteredExactly(data: seq<Record>, sector: string, selected: Option<real>)
    ensures forall d ::
      (multiset(FilteredData(data, sector, selected))[d] ==
       if InSector(d, sector) && (YearActive(selected) ==> YearOf(d) == selected.value)
       then multiset(data)[d] else 0)
  {
    FilterDataKeeps(data, sector);
    if YearActive(selected) {
      FilterMultiset(FilterData(data, sector), YearIs(selected.value));
    }
  }

  /** The filtered view keeps the input order: filtering distributes over concatenation. */
  lemma FilteredOrder(a: seq<Record>, b: seq<Record>, sector: string, selected: Option<real>)
    ensures FilteredData(a + b, sector, selected) == FilteredData(a, sector, selected) + FilteredData(b, sector, selected)
  {
    FilterDataOrder(a, b, sector);
    if YearActive(selected) {
      FilterConcat(FilterData(a, sector), FilterData(b, sector), YearIs(selected.value));
    }
  }

  /** The filtered view is a subsequence of the sector view, which is one of the records. */
  lemma FilteredWithinSector(data: seq<Record>, sector: string, selected: Option<real>)
    ensures forall d :: d in FilteredData(data, sector, selected) ==> d in FilterData(data, sector)
    ensures |FilteredData(data, sector, selected)| <= |FilterData(data, sector)| <= |data|
  {
  }

  /**
   * The KPI cards always describe the filtered view: with a year selected they are computed from
   * it, and without one it is the whole sector.
   */
  lemma KPIsDescribeFiltered(data: seq<Record>, sector: string, selected: Option<real>)
    ensures Derive(data, sector, selected).kpis == KPIOf(Derive(data, sector, selected).filtered)
  {
  }

  /** The yearly bars ignore the selected year. */
  lemma YearlyIgnoresSelection(data: seq<Record>, sector: string, a: Option<real>, b: Option<real>)
    ensures Derive(data, sector, a).yearly == Derive(data, sector, b).yearly
  {
  }

  /** Selecting a year leaves the yearly bars as they are and narrows every other view to it. */
  lemma SelectionNarrows(data: seq<Record>, sector: string, year: real)
    requires year != 0.0
    ensures var v := Derive(data, sector, Some(year));
      v.yearly == Derive(data, sector, None).yearly
      && (forall d :: d in v.filtered ==> InSector(d, sector) && YearOf(d) == year)
      && v.kpis == KPIOf(v.filtered)
      && v.commodities == CommodityAverages(v.filtered)
  {
  }

  /** The mutable state of the page. */
  class Dashboard {
    var data: seq<Record>
    var sector: string
    var selectedYear: Option<real>
    var isLoading: bool

    /** Before the data arrives: no records, both sectors combined, no year, loading. */
    constructor ()
      ensures data == [] && sector == COMBINED && selectedYear == None && isLoading
    {
      data := [];
      sector := COMBINED;
      selectedYear := None;
      isLoading := true;
    }

    /** The views of the current state. */
    function Current(): Views
      reads this
    {
      Derive(data, sector, selectedYear)
    }

    /** The one-time load, while still loading: parse the embedded CSV text, store the records, stop loading. */
    method Load(csvText: string, parseNum: string -> Option<real>)
      requires isLoading
      modifies this
      ensures data == ParsedRecords(csvText, parseNum) && !isLoading
      ensures sector == old(sector) && selectedYear == old(selectedYear)
    {
      var parsed := ParseCSV(csvText, parseNum);
      data := parsed;
      isLoading := false;
    }

    /** `handleYearClick`. */
    method HandleYearClick(year: real)
      modifies this
      ensures selectedYear == ToggleYear(old(selectedYear), year)
      ensures data == old(data) && sector == old(sector) && isLoading == old(isLoading)
    {
      selectedYear := ToggleYear(selectedYear, year);
    }

    /** The "Reset Year" button. */
    method ResetYear()
      modifies this
      ensures selectedYear == None
      ensures data == old(data) && sector == old(sector) && isLoading == old(isLoading)
    {
      selectedYear := None;
    }

    /** A sector button. */
    method SetSector(s: string)
      requires IsSector(s)
      modifies this
      ensures sector == s
      ensures data == old(data) && selectedYear == old(selectedYear) && isLoading == old(isLoading)
    {
      sector := s;
    }
  }

  /** After a reset, the filtered view is the whole sector again. */
  lemma ResetShowsSector(data: seq<Record>, sector: string)
    ensures Derive(data, sector, None).filtered == Derive(data, sector, None).fullSector
  {
  }
}
