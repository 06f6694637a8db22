/**
 * utils/analytics.ts: the sector filter and the three aggregations the dashboard shows, the KPI
 * cards, the yearly averages and the ranked commodity averages.
 *
 * Numbers are exact reals. `toFixed(1)` is kept symbolic in the `Shown` values the cards display;
 * where the source reads the rounded text back with `parseFloat`, `Round1` gives its value.
 */
module Analytics {
  import opened Wrappers
  import opened Seqs
  import opened Types
  import opened Sorting

  // ---------------------------------------------------------------- filterData

  function SectorIs(sector: string): Record -> bool
  {
    (d: Record) => InSector(d, sector)
  }

  /** `data.filter(d => d.Sector === sector)`. */
  function FilterData(data: seq<Record>, sector: string): (r: seq<Record>)
    ensures |r| <= |data|
    ensures forall d :: d in r ==> d in data && InSector(d, sector)
  {
    Filter(data, SectorIs(sector))
  }

  /** Exactly the records of the sector are kept, each with all of its occurrences. */
  lemma FilterDataKeeps(data: seq<Record>, sector: string)
    ensures forall d :: multiset(FilterData(data, sector))[d] == if InSector(d, sector) then multiset(data)[d] else 0
  {
    FilterMultiset(data, SectorIs(sector));
  }

  /** The filter keeps the input order: it distributes over concatenation. */
  lemma FilterDataOrder(a: seq<Record>, b: seq<Record>, sector: string)
    ensures FilterData(a + b, sector) == FilterData(a, sector) + FilterData(b, sector)
  {
    FilterConcat(a, b, SectorIs(sector));
  }

  lemma FilterDataIdempotent(data: seq<Record>, sector: string)
    ensures FilterData(FilterData(data, sector), sector) == FilterData(data, sector)
  {
    FilterIdempotent(data, SectorIs(sector));
  }

  function YearIs(year: real): Record -> bool
  {
    (d: Record) => YearOf(d) == year
  }

  /** `data.filter(d => d.Year === year)`. */
  function YearData(data: seq<Record>, year: real): (r: seq<Record>)
    ensures |r| <= |data|
    ensures forall d :: d in r ==> d in data && YearOf(d) == year
  {
    Filter(data, YearIs(year))
  }

  /** Restricting to a sector and to a year may be done in either order. */
  lemma SectorYearCommute(data: seq<Record>, sector: string, year: real)
    ensures YearData(FilterData(data, sector), year) == FilterData(YearData(data, year), sector)
  {
    FilterCommute(data, SectorIs(sector), YearIs(year));
  }

  /** A year that occurs in the data has at least one record. */
  lemma YearDataNonEmpty(data: seq<Record>, d: Record)
    requires d in data
    ensures |YearData(data, YearOf(d))| > 0
  {
    FilterMultiset(data, YearIs(YearOf(d)));
    assert d in multiset(data);
    assert d in multiset(YearData(data, YearOf(d)));
  }

  // ---------------------------------------------------------------- sums and means

  /** `data.reduce((s, d) => s + (d[key] || 0), 0)`, folding from the left. */
  function SumOf(data: seq<Record>, key: string): real
  {
    if data == [] then 0.0 else SumOf(data[..|data| - 1], key) + NumOf(data[|data| - 1], key)
  }

  lemma {:induction false} SumConcat(a: seq<Record>, b: seq<Record>, key: string)
    ensures SumOf(a + b, key) == SumOf(a, key) + SumOf(b, key)
    decreases |b|
  {
    if b == [] {
      assert a + b == a;
    } else {
      var n := |b| - 1;
      assert (a + b)[..|a + b| - 1] == a + b[..n];
      SumConcat(a, b[..n], key);
    }
  }

  /** The sum does not depend on the order of the records. */
  lemma {:induction false} SumPermutation(a: seq<Record>, b: seq<Record>, key: string)
    requires multiset(a) == multiset(b)
    ensures SumOf(a, key) == SumOf(b, key)
    decreases |a|
  {
    if a == [] {
      assert |b| == |multiset(b)| == 0;
    } else {
      var n := |a| - 1;
      var x := a[n];
      assert x in multiset(b);
      var i :| 0 <= i < |b| && b[i] == x;
      var rest := b[..i] + b[i + 1..];
      assert b == b[..i] + [x] + b[i + 1..];
      InitLast(a);
      assert multiset(a[..n]) == multiset(a) - multiset{x} by {
        assert a == a[..n] + [x];
      }
      assert multiset(rest) == multiset(b) - multiset{x} by {
        assert multiset(b) == multiset(b[..i]) + multiset{x} + multiset(b[i + 1..]);
        assert multiset(rest) == multiset(b[..i]) + multiset(b[i + 1..]);
      }
      SumPermutation(a[..n], rest, key);
      SumConcat(b[..i], b[i + 1..], key);
      SumConcat(b[..i] + [x], b[i + 1..], key);
      SumConcat(b[..i], [x], key);
    }
  }

  /** `n` copies of `x` added up. */
  function Scaled(n: nat, x: real): real
  {
    if n == 0 then 0.0 else Scaled(n - 1, x) + x
  }

  lemma {:induction false} ScaledIsProduct(n: nat, x: real)
    ensures Scaled(n, x) == n as real * x
  {
    if n > 0 {
      ScaledIsProduct(n - 1, x);
      assert n as real * x == (n - 1) as real * x + x;
    }
  }

  /** A sum of values between `lo` and `hi` lies between as many copies of `lo` and of `hi`. */
  lemma {:induction false} SumBounds(data: seq<Record>, key: string, lo: real, hi: real)
    requires forall d :: d in data ==> lo <= NumOf(d, key) <= hi
    ensures Scaled(|data|, lo) <= SumOf(data, key) <= Scaled(|data|, hi)
    decreases |data|
  {
    if data != [] {
      var n := |data| - 1;
      var init := data[..n];
      assert forall d :: d in init ==> d in data;
      SumBounds(init, key, lo, hi);
      assert data[n] in data;
    }
  }

  /** `sum / data.length`. */
  function Mean(data: seq<Record>, key: string): real
    requires |data| > 0
  {
    SumOf(data, key) / |data| as real
  }

  /** The mean lies between the least and the greatest value. */
  lemma MeanBounds(data: seq<Record>, key: string, lo: real, hi: real)
    requires |data| > 0
    requires forall d :: d in data ==> lo <= NumOf(d, key) <= hi
    ensures lo <= Mean(data, key) <= hi
  {
    SumBounds(data, key, lo, hi);
    ScaledIsProduct(|data|, lo);
    ScaledIsProduct(|data|, hi);
    QuotientBounds(SumOf(data, key), |data| as real, lo, hi);
  }

  /** A total between `n` copies of `lo` and of `hi`, divided by `n`, lies between `lo` and `hi`. */
  lemma QuotientBounds(s: real, n: real, lo: real, hi: real)
    requires n > 0.0 && n * lo <= s <= n * hi
    ensures lo <= s / n <= hi
  {
    var m := s / n;
    assert m * n == s;
    assert (m - lo) * n == s - n * lo;
    assert (hi - m) * n == n * hi - s;
    PositiveFactor(m - lo, n);
    PositiveFactor(hi - m, n);
  }

  lemma PositiveFactor(x: real, n: real)
    requires n > 0.0 && x * n >= 0.0
    ensures x >= 0.0
  {
  }

  lemma MeanPermutation(a: seq<Record>, b: seq<Record>, key: string)
    requires |a| > 0
    requires multiset(a) == multiset(b)
    ensures |b| > 0 && Mean(a, key) == Mean(b, key)
  {
    assert |a| == |multiset(a)| == |multiset(b)| == |b|;
    SumPermutation(a, b, key);
  }

  // ---------------------------------------------------------------- rounding

  /**
   * The value `parseFloat(x.toFixed(1))` reads back: `x` to the nearest tenth, a half rounded away
   * from zero.
   */
  function Round1(x: real): (r: real)
    ensures x - 0.05 <= r <= x + 0.05
  {
    if x >= 0.0 then HalfUp(x * 10.0) as real / 10.0
    else -(HalfUp((-x) * 10.0) as real / 10.0)
  }

  /** `y` rounded to an integer, a half rounded up. */
  function HalfUp(y: real): (n: int)
    ensures y - 0.5 < n as real <= y + 0.5
  {
    (y + 0.5).Floor
  }

  /** The result is a whole number of tenths. */
  lemma Round1OnGrid(x: real)
    ensures (Round1(x) * 10.0).Floor as real == Round1(x) * 10.0
  {
    var n := if x >= 0.0 then HalfUp(x * 10.0) else -HalfUp((-x) * 10.0);
    assert Round1(x) * 10.0 == n as real;
  }

  lemma HalfUpInt(n: int)
    ensures HalfUp(n as real) == n
  {
  }

  /** Rounding is symmetric about zero. */
  lemma Round1Negate(x: real)
    ensures Round1(-x) == -Round1(x)
  {
    if x == 0.0 {
      assert -x == 0.0;
    }
  }

  /** A value already given to the tenth is left as it is. */
  lemma Round1Tenths(n: int)
    ensures Round1(n as real / 10.0) == n as real / 10.0
  {
    var x := n as real / 10.0;
    if n >= 0 {
      assert x * 10.0 == n as real;
      HalfUpInt(n);
    } else {
      assert (-x) * 10.0 == (-n) as real;
      HalfUpInt(-n);
    }
  }

  // ---------------------------------------------------------------- getKPIMetrics

  /** A value a card displays: a fixed text, `x.toFixed(1)`, or `x.toFixed(1) + "%"`. */
  datatype Shown = Literal(text: string) | Fixed1(x: real) | Fixed1Percent(x: real)

  datatype KPI = KPI(avgCPI: Shown, inflation: Shown, highestCatName: string, highestCatValue: Shown)

  /** The cards shown when there is no data. */
  const NO_DATA_KPI: KPI := KPI(Literal("0"), Literal("0%"), "-", Literal("0"))

  /** The categories compared for the "Highest Category" card, in the order they are scanned. */
  const CATEGORIES: seq<string> := [
    "Cereals and products", "Meat and fish", "Egg", "Milk and products", "Oils and fats",
    "Fruits", "Vegetables", "Pulses and products", "Sugar and Confectionery", "Spices",
    "Fuel and light", "Housing", "Clothing", "Footwear"
  ]

  /**
   * `(((end - start) / start) * 100).toFixed(1) + "%"`. A zero start divides by zero: the text is
   * then that of an infinity of the sign of `end`, or of NaN when `end` is zero too.
   */
  function PercentChange(start: real, end: real): (r: Shown)
    ensures r.Fixed1Percent? <==> start != 0.0
    ensures r.Fixed1Percent? ==> start + start * r.x / 100.0 == end
    ensures r.Literal? ==> (r.text == "Infinity%" <==> end > 0.0)
    ensures r.Literal? ==> (r.text == "-Infinity%" <==> end < 0.0)
    ensures r.Literal? ==> (r.text == "NaN%" <==> end == 0.0)
  {
    if start == 0.0 then
      Literal(if end > 0.0 then "Infinity%" else if end < 0.0 then "-Infinity%" else "NaN%")
    else
      var x := (end - start) / start * 100.0;
      assert start * x / 100.0 == end - start;
      Fixed1Percent(x)
  }

  /** The running maximum of the category loop: `maxName` and `maxVal`. */
  datatype Leader = Leader(name: string, value: real)

  /** The state of the category loop after scanning `cats`, starting from `""` and `0`. */
  function Highest(data: seq<Record>, cats: seq<string>): (h: Leader)
    requires |data| > 0
    ensures h.value >= 0.0
    ensures h.name == "" || h.name in cats
    ensures forall j :: 0 <= j < |cats| ==> Mean(data, cats[j]) <= h.value
    decreases |cats|
  {
    if cats == [] then Leader("", 0.0)
    else
      var prev := Highest(data, cats[..|cats| - 1]);
      var cat := cats[|cats| - 1];
      var avg := Mean(data, cat);
      assert forall j :: 0 <= j < |cats| - 1 ==> cats[..|cats| - 1][j] == cats[j];
      if avg > prev.value then Leader(cat, avg) else prev
  }

  /**
   * The loop finds the first category of largest positive mean; when no mean is positive, it
   * keeps the empty name and 0.
   */
  lemma {:induction false} HighestIsFirstMax(data: seq<Record>, cats: seq<string>)
    requires |data| > 0
    requires "" !in cats
    ensures var h := Highest(data, cats);
      (h.name == "" <==> forall j :: 0 <= j < |cats| ==> Mean(data, cats[j]) <= 0.0)
      && (h.name == "" ==> h.value == 0.0)
      && (h.name != "" ==> h.value > 0.0)
      && (h.name != "" ==>
            exists k :: (0 <= k < |cats| && cats[k] == h.name && Mean(data, cats[k]) == h.value
                         && forall j :: 0 <= j < k ==> Mean(data, cats[j]) < h.value))
    decreases |cats|
  {
    if cats != [] {
      var n := |cats| - 1;
      var init := cats[..n];
      assert forall j :: 0 <= j < n ==> init[j] == cats[j];
      assert "" !in init;
      HighestIsFirstMax(data, init);
      var prev := Highest(data, init);
      var h := Highest(data, cats);
      if Mean(data, cats[n]) > prev.value {
        assert h == Leader(cats[n], Mean(data, cats[n]));
        assert cats[n] in cats;
      } else {
        assert h == prev;
        if h.name != "" {
          var k :| 0 <= k < n && init[k] == h.name && Mean(data, init[k]) == h.value
            && forall j :: 0 <= j < k ==> Mean(data, init[j]) < h.value;
          assert cats[k] == h.name;
        }
      }
    }
  }

  /** Reorders that keep the same records change nothing in the category scan. */
  lemma {:induction false} HighestPermutation(a: seq<Record>, b: seq<Record>, cats: seq<string>)
    requires |a| > 0
    requires multiset(a) == multiset(b)
    ensures |b| > 0 && Highest(a, cats) == Highest(b, cats)
    decreases |cats|
  {
    assert |a| == |multiset(a)| == |multiset(b)| == |b|;
    if cats != [] {
      HighestPermutation(a, b, cats[..|cats| - 1]);
      MeanPermutation(a, b, cats[|cats| - 1]);
    }
  }

  /**
   * What `getKPIMetrics` returns: the placeholder cards for no records, and otherwise an average
   * card showing the mean general index.
   */
  function KPIOf(data: seq<Record>): (k: KPI)
    ensures |data| == 0 <==> k.highestCatName == "-"
    ensures |data| == 0 ==> k == KPI(Literal("0"), Literal("0%"), "-", Literal("0"))
    ensures |data| > 0 ==> k.avgCPI == Fixed1(Mean(data, GENERAL_INDEX))
  {
    if |data| == 0 then NO_DATA_KPI
    else
      var sorted := ChronoSort(data);
      var h := Highest(data, CATEGORIES);
      assert "-" !in CATEGORIES;
      KPI(Fixed1(Mean(data, GENERAL_INDEX)),
          PercentChange(IndexOf(sorted[0]), IndexOf(sorted[|sorted| - 1])),
          h.name, Fixed1(h.value))
  }

  /** `getKPIMetrics`: the reductions are folds; the category scan is the loop of the source. */
  method GetKPIMetrics(data: seq<Record>) returns (k: KPI)
    ensures k == KPIOf(data)
  {
    if |data| == 0 {
      return KPI(Literal("0"), Literal("0%"), "-", Literal("0"));
    }
    var totalCPI := SumOf(data, GENERAL_INDEX);
    var avgCPI := Fixed1(totalCPI / |data| as real);
    var sorted := ChronoSort(data);
    var start := IndexOf(sorted[0]);
    var end := IndexOf(sorted[|sorted| - 1]);
    var inflation := PercentChange(start, end);
    var maxVal := 0.0;
    var maxName := "";
    for i := 0 to |CATEGORIES|
      invariant Leader(maxName, maxVal) == Highest(data, CATEGORIES[..i])
    {
      var cat := CATEGORIES[i];
      var avg := SumOf(data, cat) / |data| as real;
      assert CATEGORIES[..i + 1][..i] == CATEGORIES[..i];
      if avg > maxVal {
        maxVal := avg;
        maxName := cat;
      }
    }
    assert CATEGORIES[..|CATEGORIES|] == CATEGORIES;
    k := KPI(avgCPI, inflation, maxName, Fixed1(maxVal));
  }

  /** The average card shows a value between the least and the greatest general index. */
  lemma KPIAverageBounds(data: seq<Record>, lo: real, hi: real)
    requires |data| > 0
    requires forall d :: d in data ==> lo <= IndexOf(d) <= hi
    ensures KPIOf(data).avgCPI.Fixed1? && lo <= KPIOf(data).avgCPI.x <= hi
  {
    MeanBounds(data, GENERAL_INDEX, lo, hi);
  }

  /** The inflation card compares the earliest record with the latest one. */
  lemma KPIInflationEnds(data: seq<Record>)
    requires |data| > 0
    ensures exists first, last :: (first in data && last in data
      && (forall d :: d in data ==> ChronoLe(first, d) && ChronoLe(d, last))
      && KPIOf(data).inflation == PercentChange(IndexOf(first), IndexOf(last)))
  {
    var sorted := ChronoSort(data);
    ChronoEnds(data);
    var first, last := sorted[0], sorted[|sorted| - 1];
    assert first in multiset(sorted) && last in multiset(sorted);
    assert first in data && last in data;
    assert forall d :: d in data ==> ChronoLe(first, d) && ChronoLe(d, last);
    assert KPIOf(data).inflation == PercentChange(IndexOf(first), IndexOf(last));
  }

  /** The highest-category card names the first category of largest positive mean. */
  lemma KPIHighest(data: seq<Record>)
    requires |data| > 0
    ensures var k := KPIOf(data);
      (k.highestCatName == "" <==> forall j :: 0 <= j < |CATEGORIES| ==> Mean(data, CATEGORIES[j]) <= 0.0)
      && (k.highestCatName == "" ==> k.highestCatValue == Fixed1(0.0))
      && (k.highestCatName != "" ==>
            exists c :: (c in CATEGORIES && c == k.highestCatName
                         && k.highestCatValue == Fixed1(Mean(data, c))
                         && forall j :: 0 <= j < |CATEGORIES| ==> Mean(data, CATEGORIES[j]) <= Mean(data, c)))
  {
    assert "" !in CATEGORIES;
    HighestIsFirstMax(data, CATEGORIES);
    var h := Highest(data, CATEGORIES);
    if h.name != "" {
      var c :| 0 <= c < |CATEGORIES| && CATEGORIES[c] == h.name && Mean(data, CATEGORIES[c]) == h.value
        && forall j :: 0 <= j < c ==> Mean(data, CATEGORIES[j]) < h.value;
      assert CATEGORIES[c] in CATEGORIES;
    }
  }

  /**
   * The cards do not depend on the order of the records, as long as no two records share a
   * month: the chronological sort then fixes the inflation endpoints.
   */
  lemma KPIOrderFree(a: seq<Record>, b: seq<Record>)
    requires multiset(a) == multiset(b)
    requires MonthsIdentify(a)
    ensures KPIOf(a) == KPIOf(b)
  {
    assert |a| == |multiset(a)| == |multiset(b)| == |b|;
    if |a| > 0 {
      ChronoSortPermutation(a, b);
      MeanPermutation(a, b, GENERAL_INDEX);
      HighestPermutation(a, b, CATEGORIES);
    }
  }

  // ---------------------------------------------------------------- getYearlyAverages

  datatype YearPoint = YearPoint(year: real, value: real)

  /** `data.map(d => d.Year)`. */
  function Years(data: seq<Record>): (ys: seq<real>)
    ensures |ys| == |data|
    ensures forall i :: 0 <= i < |data| ==> ys[i] == YearOf(data[i])
  {
    seq(|data|, i requires 0 <= i < |data| => YearOf(data[i]))
  }

  predicate Increasing(ys: seq<real>)
  {
    forall i, j :: 0 <= i < j < |ys| ==> ys[i] < ys[j]
  }

  function InsertYear(ys: seq<real>, y: real): (r: seq<real>)
    requires Increasing(ys)
    ensures Increasing(r)
    ensures forall x :: x in r <==> x in ys || x == y
  {
    if ys == [] then [y]
    else if y < ys[0] then [y] + ys
    else if y == ys[0] then ys
    else
      var rest := InsertYear(ys[1..], y);
      assert ys == [ys[0]] + ys[1..];
      assert forall k :: 0 <= k < |rest| ==> ys[0] < rest[k] by {
        forall k | 0 <= k < |rest| ensures ys[0] < rest[k] {
          assert rest[k] in rest;
          if rest[k] != y {
            var i :| 0 <= i < |ys[1..]| && ys[1..][i] == rest[k];
            assert ys[1..][i] == ys[i + 1];
          }
        }
      }
      [ys[0]] + rest
  }

  /** `Array.from(new Set(years)).sort()`: the distinct years, ascending. */
  function DistinctSorted(xs: seq<real>): (ys: seq<real>)
    ensures Increasing(ys)
    ensures forall x :: x in ys <==> x in xs
  {
    if xs == [] then []
    else
      var n := |xs| - 1;
      assert forall x :: x in xs <==> x in xs[..n] || x == xs[n] by {
        InitLast(xs);
      }
      InsertYear(DistinctSorted(xs[..n]), xs[n])
  }

  /** Every year of the data is among `years` when they are the distinct years. */
  lemma YearsCovered(data: seq<Record>, d: Record)
    requires d in data
    ensures YearOf(d) in Years(data)
  {
    var i :| 0 <= i < |data| && data[i] == d;
    assert Years(data)[i] == YearOf(d);
  }

  lemma YearsWitness(data: seq<Record>, y: real) returns (d: Record)
    requires y in Years(data)
    ensures d in data && YearOf(d) == y
  {
    var i :| 0 <= i < |data| && Years(data)[i] == y;
    d := data[i];
  }

  lemma YearListedNonEmpty(data: seq<Record>, year: real)
    requires year in Years(data)
    ensures |YearData(data, year)| > 0
  {
    var d := YearsWitness(data, year);
    YearDataNonEmpty(data, d);
  }

  /** The bar of one year: its records' mean general index, read back from one decimal. */
  function YearPointOf(data: seq<Record>, year: real): (p: YearPoint)
    requires year in Years(data)
    ensures p.year == year && |YearData(data, year)| > 0
    ensures p.value == Round1(Mean(YearData(data, year), GENERAL_INDEX))
  {
    YearListedNonEmpty(data, year);
    YearPoint(year, Round1(Mean(YearData(data, year), GENERAL_INDEX)))
  }

  /** `getYearlyAverages`: one bar per distinct year, ascending. */
  function YearlyAverages(data: seq<Record>): (r: seq<YearPoint>)
    ensures |r| <= |data|
  {
    var years := DistinctSorted(Years(data));
    DistinctBound(Years(data));
    seq(|years|, i requires 0 <= i < |years| => YearPointOf(data, years[i]))
  }

  /** At most as many distinct values as values. */
  lemma {:induction false} DistinctBound(xs: seq<real>)
    ensures |DistinctSorted(xs)| <= |xs|
  {
    if xs != [] {
      var n := |xs| - 1;
      DistinctBound(xs[..n]);
      InsertYearLength(DistinctSorted(xs[..n]), xs[n]);
    }
  }

  lemma {:induction false} InsertYearLength(ys: seq<real>, y: real)
    requires Increasing(ys)
    ensures |InsertYear(ys, y)| <= |ys| + 1
  {
    if ys != [] && y > ys[0] {
      InsertYearLength(ys[1..], y);
    }
  }

  lemma YearlyShape(data: seq<Record>)
    ensures var r, years := YearlyAverages(data), DistinctSorted(Years(data));
      |r| == |years| && forall i :: 0 <= i < |r| ==> r[i].year == years[i] && r[i] == YearPointOf(data, years[i])
  {
  }

  /** The bars are in strictly ascending year order. */
  lemma YearlyAscending(data: seq<Record>)
    ensures var r := YearlyAverages(data);
      forall i, j :: 0 <= i < j < |r| ==> r[i].year < r[j].year
  {
    YearlyShape(data);
  }

  /** There is a bar for every year of the data and for no other year. */
  lemma YearlyCoversYears(data: seq<Record>)
    ensures var r := YearlyAverages(data);
      (forall i :: 0 <= i < |r| ==> exists d :: d in data && YearOf(d) == r[i].year)
      && (forall d :: d in data ==> exists i :: 0 <= i < |r| && r[i].year == YearOf(d))
  {
    var r, years := YearlyAverages(data), DistinctSorted(Years(data));
    YearlyShape(data);
    forall i | 0 <= i < |r| ensures exists d :: d in data && YearOf(d) == r[i].year {
      var d := YearsWitness(data, years[i]);
    }
    forall d | d in data ensures exists i :: 0 <= i < |r| && r[i].year == YearOf(d) {
      YearsCovered(data, d);
      var i :| 0 <= i < |years| && years[i] == YearOf(d);
    }
  }

  /** Each bar is its year's mean general index, to one decimal. */
  lemma YearlyValues(data: seq<Record>)
    ensures var r := YearlyAverages(data);
      forall i :: 0 <= i < |r| ==>
        (|YearData(data, r[i].year)| > 0 && r[i].value == Round1(Mean(YearData(data, r[i].year), GENERAL_INDEX)))
  {
    YearlyShape(data);
  }

  lemma YearsSameElements(a: seq<Record>, b: seq<Record>)
    requires multiset(a) == multiset(b)
    ensures forall y :: y in Years(a) <==> y in Years(b)
  {
    forall y | y in Years(a) ensures y in Years(b) {
      var d := YearsWitness(a, y);
      assert d in multiset(b);
      YearsCovered(b, d);
    }
    forall y | y in Years(b) ensures y in Years(a) {
      var d := YearsWitness(b, y);
      assert d in multiset(a);
      YearsCovered(a, d);
    }
  }

  /** The same records give the same bar for a year. */
  lemma YearPointPermutation(a: seq<Record>, b: seq<Record>, y: real)
    requires multiset(a) == multiset(b)
    requires y in Years(a) && y in Years(b)
    ensures YearPointOf(a, y) == YearPointOf(b, y)
  {
    FilterMultiset(a, YearIs(y));
    FilterMultiset(b, YearIs(y));
    assert multiset(YearData(a, y)) == multiset(YearData(b, y));
    YearListedNonEmpty(a, y);
    MeanPermutation(YearData(a, y), YearData(b, y), GENERAL_INDEX);
  }

  /** The yearly bars do not depend on the order of the records. */
  lemma YearlyOrderFree(a: seq<Record>, b: seq<Record>)
    requires multiset(a) == multiset(b)
    ensures YearlyAverages(a) == YearlyAverages(b)
  {
    var ya, yb := DistinctSorted(Years(a)), DistinctSorted(Years(b));
    YearsSameElements(a, b);
    IncreasingUnique(ya, yb);
    YearlyShape(a);
    YearlyShape(b);
    var ra, rb := YearlyAverages(a), YearlyAverages(b);
    forall i | 0 <= i < |ra| ensures ra[i] == rb[i] {
      assert ya[i] in ya;
      YearPointPermutation(a, b, ya[i]);
    }
  }

  /** Two ascending sequences with the same elements are equal. */
  lemma {:induction false} IncreasingUnique(xs: seq<real>, ys: seq<real>)
    requires Increasing(xs) && Increasing(ys)
    requires forall x :: x in xs <==> x in ys
    ensures xs == ys
  {
    SameElementsEmpty(xs, ys);
    if xs != [] {
      assert xs[0] in ys && ys[0] in xs;
      var i :| 0 <= i < |ys| && ys[i] == xs[0];
      var j :| 0 <= j < |xs| && xs[j] == ys[0];
      assert xs[0] <= xs[j] && ys[0] <= ys[i];
      assert xs[0] == ys[0];
      forall x ensures x in xs[1..] <==> x in ys[1..] {
        assert x in xs[1..] <==> x in xs && x != xs[0] by {
          assert xs == [xs[0]] + xs[1..];
          assert forall k :: 0 < k < |xs| ==> xs[0] < xs[k];
        }
        assert x in ys[1..] <==> x in ys && x != ys[0] by {
          assert ys == [ys[0]] + ys[1..];
          assert forall k :: 0 < k < |ys| ==> ys[0] < ys[k];
        }
      }
      IncreasingUnique(xs[1..], ys[1..]);
      assert xs == [xs[0]] + xs[1..] && ys == [ys[0]] + ys[1..];
    }
  }

  lemma SameElementsEmpty(xs: seq<real>, ys: seq<real>)
    requires forall x :: x in xs <==> x in ys
    ensures xs == [] <==> ys == []
  {
    if xs != [] {
      var x := xs[0];
      assert x in xs;
      assert x in ys;
    }
    if ys != [] {
      var y := ys[0];
      assert y in ys;
      assert y in xs;
    }
  }

  // ---------------------------------------------------------------- getCommodityAverages

  /** The commodities of the commodity chart, in the order they are listed. */
  const COMMODITIES: seq<string> := [
    "Vegetables", "Pulses and products", "Oils and fats", "Meat and fish",
    "Spices", "Fuel and light", "Housing", "Clothing"
  ]

  /** The chart label: "Pulses and products" is shortened to "Pulses". */
  function ShortName(name: string): (s: string)
    ensures |s| <= |name|
    ensures name != "Pulses and products" ==> s == name
  {
    if name == "Pulses and products" then "Pulses" else name
  }

  /** The chart labels of the commodities, in list order. */
  const DISPLAY_NAMES: seq<string> := [
    "Vegetables", "Pulses", "Oils and fats", "Meat and fish",
    "Spices", "Fuel and light", "Housing", "Clothing"
  ]

  /** Only "Pulses and products" is renamed, and the eight labels tell the commodities apart. */
  lemma CommodityNames(data: seq<Record>)
    ensures |Unranked(data)| == |DISPLAY_NAMES|
    ensures forall i :: 0 <= i < |DISPLAY_NAMES| ==> Unranked(data)[i].name == DISPLAY_NAMES[i]
    ensures forall i, j :: 0 <= i < j < |DISPLAY_NAMES| ==> DISPLAY_NAMES[i] != DISPLAY_NAMES[j]
  {
    forall i | 0 <= i < |DISPLAY_NAMES| ensures ShortName(COMMODITIES[i]) == DISPLAY_NAMES[i] {
      if i == 1 {
        assert COMMODITIES[1] == "Pulses and products";
      } else {
        assert |COMMODITIES[i]| != |"Pulses and products"|;
      }
    }
    forall i, j | 0 <= i < j < |DISPLAY_NAMES| ensures DISPLAY_NAMES[i] != DISPLAY_NAMES[j] {
      if |DISPLAY_NAMES[i]| == |DISPLAY_NAMES[j]| {
        assert DISPLAY_NAMES[i][0] != DISPLAY_NAMES[j][0];
      }
    }
  }

  /** `parseFloat((sum / data.length).toFixed(1))`; with no data this is NaN. */
  function AverageShown(data: seq<Record>, key: string): (v: Option<real>)
    ensures v.None? <==> |data| == 0
    ensures |data| > 0 ==> v == Some(Round1(Mean(data, key)))
  {
    if |data| == 0 then None else Some(Round1(Mean(data, key)))
  }

  /** `results` before sorting: one entry per commodity, in list order. */
  function Unranked(data: seq<Record>): (r: seq<Commodity>)
    ensures |r| == |COMMODITIES|
    ensures forall i :: 0 <= i < |r| ==> r[i].name == ShortName(COMMODITIES[i])
    ensures forall i :: 0 <= i < |r| ==> r[i].value == AverageShown(data, COMMODITIES[i])
  {
    seq(|COMMODITIES|, i requires 0 <= i < |COMMODITIES| =>
      Commodity(ShortName(COMMODITIES[i]), AverageShown(data, COMMODITIES[i])))
  }

  /** `getCommodityAverages`: the entries ranked by descending value. */
  function CommodityAverages(data: seq<Record>): (r: seq<Commodity>)
    ensures |r| == |COMMODITIES|
    ensures RankedDesc(r)
    ensures multiset(r) == multiset(Unranked(data))
  {
    var u := Unranked(data);
    assert |multiset(RankSort(u))| == |multiset(u)|;
    RankSort(u)
  }

  /** Every ranked entry is the entry of one commodity: its label and its rounded average. */
  lemma CommodityEntries(data: seq<Record>)
    ensures forall c :: c in CommodityAverages(data) ==>
      exists i :: 0 <= i < |COMMODITIES| && c == Unranked(data)[i]
  {
    var r, u := CommodityAverages(data), Unranked(data);
    forall c | c in r ensures exists i :: 0 <= i < |COMMODITIES| && c == u[i] {
      assert c in multiset(r);
      assert c in multiset(u);
      var i :| 0 <= i < |u| && u[i] == c;
    }
  }

  /** The ranking does not depend on the order of the records. */
  lemma CommodityOrderFree(a: seq<Record>, b: seq<Record>)
    requires multiset(a) == multiset(b)
    ensures CommodityAverages(a) == CommodityAverages(b)
  {
    assert |a| == |multiset(a)| == |multiset(b)| == |b|;
    forall i | 0 <= i < |COMMODITIES| ensures AverageShown(a, COMMODITIES[i]) == AverageShown(b, COMMODITIES[i]) {
      if |a| > 0 {
        MeanPermutation(a, b, COMMODITIES[i]);
      }
    }
    assert Unranked(a) == Unranked(b);
  }

  /** Entries of equal value keep their list order. */
  lemma CommodityTies(data: seq<Record>, v: Option<real>)
    ensures WithValue(CommodityAverages(data), v) == WithValue(Unranked(data), v)
  {
    RankSortStable(Unranked(data), v);
  }

  /** With no data every value is NaN and the list order is kept. */
  lemma CommodityNoData(data: seq<Record>)
    requires |data| == 0
    ensures CommodityAverages(data) == Unranked(data)
    ensures forall c :: c in CommodityAverages(data) ==> c.value.None?
  {
    RankSortAllNaN(Unranked(data));
  }
}
