/**
 * The two calls to `Array.prototype.sort` in utils/analytics.ts. The standard sort is stable,
 * so each is modelled by a stable insertion sort on a fresh sequence: the chronological sort of
 * `getKPIMetrics` (ascending by year, then month number) and the ranking of
 * `getCommodityAverages` (descending by value).
 */
module Sorting {
  import opened Wrappers
  import opened Seqs
  import opened Types

  /** `a` comes no later than `b` in time: the comparator `a.Year - b.Year`, then `a.MonthNum - b.MonthNum`. */
  predicate ChronoLe(a: Record, b: Record)
  {
    YearOf(a) < YearOf(b) || (YearOf(a) == YearOf(b) && MonthNumOf(a) <= MonthNumOf(b))
  }

  predicate ChronoSorted(s: seq<Record>)
  {
    forall i, j :: 0 <= i < j < |s| ==> ChronoLe(s[i], s[j])
  }

  /** Inserts `x` after every element that is not later than it. */
  function ChronoInsert(s: seq<Record>, x: Record): (r: seq<Record>)
    ensures multiset(r) == multiset(s) + multiset{x}
  {
    if s == [] then [x]
    else if ChronoLe(s[0], x) then
      assert s == [s[0]] + s[1..];
      [s[0]] + ChronoInsert(s[1..], x)
    else
      [x] + s
  }

  lemma {:induction false} ChronoInsertSorted(s: seq<Record>, x: Record)
    requires ChronoSorted(s)
    ensures ChronoSorted(ChronoInsert(s, x))
  {
    if s != [] && ChronoLe(s[0], x) {
      var rest := ChronoInsert(s[1..], x);
      ChronoInsertSorted(s[1..], x);
      forall k | 0 <= k < |rest| ensures ChronoLe(s[0], rest[k]) {
        assert rest[k] in multiset(rest);
        if rest[k] != x {
          assert rest[k] in multiset(s[1..]);
          var i :| 0 <= i < |s[1..]| && s[1..][i] == rest[k];
          assert s[1..][i] == s[i + 1];
        }
      }
    } else if s != [] {
      var r := [x] + s;
      forall i, j | 0 <= i < j < |r| ensures ChronoLe(r[i], r[j]) {
        if i == 0 {
          assert ChronoLe(s[0], s[j - 1]) || j == 1;
        }
      }
    }
  }

  /** `[...data].sort((a, b) => a.Year - b.Year || a.MonthNum - b.MonthNum)`. */
  function ChronoSort(s: seq<Record>): (r: seq<Record>)
    ensures ChronoSorted(r)
    ensures multiset(r) == multiset(s)
    ensures |r| == |s|
  {
    if s == [] then []
    else
      var n := |s| - 1;
      assert s == s[..n] + [s[n]];
      ChronoInsertSorted(ChronoSort(s[..n]), s[n]);
      ChronoInsert(ChronoSort(s[..n]), s[n])
  }

  /** Two records share a point in time. */
  predicate SameMonth(a: Record, b: Record)
  {
    YearOf(a) == YearOf(b) && MonthNumOf(a) == MonthNumOf(b)
  }

  /** Within `s`, a (year, month) pair identifies a record, as it does within one sector. */
  predicate MonthsIdentify(s: seq<Record>)
  {
    forall a, b {:trigger SameMonth(a, b)} :: a in s && b in s && SameMonth(a, b) ==> a == b
  }

  /** Two sorted sequences holding the same records start with the same one. */
  lemma ChronoSortedHead(a: seq<Record>, b: seq<Record>)
    requires ChronoSorted(a) && ChronoSorted(b)
    requires multiset(a) == multiset(b)
    requires MonthsIdentify(a)
    requires a != []
    ensures b != [] && a[0] == b[0]
  {
    assert a[0] in multiset(b);
    assert b[0] in multiset(a);
    var i :| 0 <= i < |a| && a[i] == b[0];
    var j :| 0 <= j < |b| && b[j] == a[0];
    assert ChronoLe(a[0], a[i]) && ChronoLe(b[0], b[j]);
    assert SameMonth(a[0], b[0]) && b[0] in a && a[0] in a;
  }

  /** A sorted sequence is determined by its elements when their (year, month) pairs identify them. */
  lemma {:induction false} ChronoSortedUnique(a: seq<Record>, b: seq<Record>)
    requires ChronoSorted(a) && ChronoSorted(b)
    requires multiset(a) == multiset(b)
    requires MonthsIdentify(a)
    ensures a == b
    decreases |a|
  {
    if a == [] {
      assert |b| == |multiset(b)| == 0;
    } else {
      ChronoSortedHead(a, b);
      assert multiset(a[1..]) == multiset(b[1..]) by {
        assert a == [a[0]] + a[1..] && b == [b[0]] + b[1..];
        assert multiset(a[1..]) == multiset(a) - multiset{a[0]};
        assert multiset(b[1..]) == multiset(b) - multiset{b[0]};
      }
      assert MonthsIdentify(a[1..]) by {
        forall x | x in a[1..] ensures x in a { }
      }
      ChronoSortedUnique(a[1..], b[1..]);
      assert a == [a[0]] + a[1..] && b == [b[0]] + b[1..];
    }
  }

  /**
   * The chronological order does not depend on the input order: two inputs holding the same
   * records, with no two records in the same month, sort to the same sequence.
   */
  lemma ChronoSortPermutation(s: seq<Record>, t: seq<Record>)
    requires multiset(s) == multiset(t)
    requires MonthsIdentify(s)
    ensures ChronoSort(s) == ChronoSort(t)
  {
    var a := ChronoSort(s);
    assert MonthsIdentify(a) by {
      forall x | x in a ensures x in s {
        assert x in multiset(a);
      }
    }
    ChronoSortedUnique(a, ChronoSort(t));
  }

  /** The first record of the sorted copy is the earliest, the last one the latest. */
  lemma ChronoEnds(s: seq<Record>)
    requires |s| > 0
    ensures var r := ChronoSort(s);
      |r| == |s| && forall d :: d in s ==> ChronoLe(r[0], d) && ChronoLe(d, r[|r| - 1])
  {
    var r := ChronoSort(s);
    forall d | d in s ensures ChronoLe(r[0], d) && ChronoLe(d, r[|r| - 1]) {
      assert d in multiset(r);
      var i :| 0 <= i < |r| && r[i] == d;
      assert i == 0 || ChronoLe(r[0], r[i]);
      assert i == |r| - 1 || ChronoLe(r[i], r[|r| - 1]);
    }
  }

  /** An entry of the commodity chart, `{ name, value }`; a `None` value stands for NaN. */
  datatype Commodity = Commodity(name: string, value: Option<real>)

  /**
   * `a` ranks strictly before `b` under the comparator `b.value - a.value`; a NaN difference
   * compares as a tie.
   */
  predicate Outranks(a: Commodity, b: Commodity)
  {
    a.value.Some? && b.value.Some? && a.value.value > b.value.value
  }

  predicate RankedDesc(s: seq<Commodity>)
  {
    forall i, j :: 0 <= i < j < |s| ==> !Outranks(s[j], s[i])
  }

  /** Inserts `x` after every entry it does not outrank. */
  function RankInsert(s: seq<Commodity>, x: Commodity): (r: seq<Commodity>)
    ensures multiset(r) == multiset(s) + multiset{x}
  {
    if s == [] then [x]
    else if !Outranks(x, s[0]) then
      assert s == [s[0]] + s[1..];
      [s[0]] + RankInsert(s[1..], x)
    else
      [x] + s
  }

  lemma {:induction false} RankInsertRanked(s: seq<Commodity>, x: Commodity)
    requires RankedDesc(s)
    ensures RankedDesc(RankInsert(s, x))
  {
    if s != [] && !Outranks(x, s[0]) {
      var rest := RankInsert(s[1..], x);
      RankInsertRanked(s[1..], x);
      forall k | 0 <= k < |rest| ensures !Outranks(rest[k], s[0]) {
        assert rest[k] in multiset(rest);
        if rest[k] != x {
          assert rest[k] in multiset(s[1..]);
          var i :| 0 <= i < |s[1..]| && s[1..][i] == rest[k];
          assert s[1..][i] == s[i + 1];
        }
      }
    } else if s != [] {
      var r := [x] + s;
      forall i, j | 0 <= i < j < |r| ensures !Outranks(r[j], r[i]) {
        if i == 0 {
          assert j == 1 || !Outranks(s[j - 1], s[0]);
        }
      }
    }
  }

  /** `results.sort((a, b) => b.value - a.value)`. */
  function RankSort(s: seq<Commodity>): (r: seq<Commodity>)
    ensures RankedDesc(r)
    ensures multiset(r) == multiset(s)
  {
    if s == [] then []
    else
      var n := |s| - 1;
      assert s == s[..n] + [s[n]];
      RankInsertRanked(RankSort(s[..n]), s[n]);
      RankInsert(RankSort(s[..n]), s[n])
  }

  /** The entries whose value is `v`, in order. */
  function WithValue(s: seq<Commodity>, v: Option<real>): seq<Commodity>
  {
    if s == [] then [] else (if s[0].value == v then [s[0]] else []) + WithValue(s[1..], v)
  }

  lemma {:induction false} WithValueConcat(a: seq<Commodity>, b: seq<Commodity>, v: Option<real>)
    ensures WithValue(a + b, v) == WithValue(a, v) + WithValue(b, v)
  {
    if a == [] {
      assert a + b == b;
    } else {
      assert (a + b)[0] == a[0] && (a + b)[1..] == a[1..] + b;
      WithValueConcat(a[1..], b, v);
    }
  }

  lemma {:induction false} NoneWithValue(s: seq<Commodity>, v: Option<real>)
    requires forall c :: c in s ==> c.value != v
    ensures WithValue(s, v) == []
  {
    if s != [] {
      assert s[0] in s;
      assert forall c :: c in s[1..] ==> c in s;
      NoneWithValue(s[1..], v);
    }
  }

  lemma RankInsertBehind(s: seq<Commodity>, x: Commodity, v: Option<real>)
    requires s != [] && !Outranks(x, s[0])
    requires WithValue(RankInsert(s[1..], x), v) == WithValue(s[1..], v) + WithValue([x], v)
    ensures WithValue(RankInsert(s, x), v) == WithValue(s, v) + WithValue([x], v)
  {
    var r := RankInsert(s, x);
    var head := if s[0].value == v then [s[0]] else [];
    assert r[0] == s[0] && r[1..] == RankInsert(s[1..], x);
    calc {
      WithValue(r, v);
      head + WithValue(r[1..], v);
      head + (WithValue(s[1..], v) + WithValue([x], v));
      { ConcatAssoc(head, WithValue(s[1..], v), WithValue([x], v)); }
      (head + WithValue(s[1..], v)) + WithValue([x], v);
      WithValue(s, v) + WithValue([x], v);
    }
  }

  lemma RankInsertAhead(s: seq<Commodity>, x: Commodity, v: Option<real>)
    requires RankedDesc(s)
    requires s != [] && Outranks(x, s[0])
    ensures WithValue(RankInsert(s, x), v) == WithValue(s, v) + WithValue([x], v)
  {
    assert [x][1..] == [];
    assert RankInsert(s, x) == [x] + s;
    WithValueConcat([x], s, v);
    if x.value == v {
      forall c | c in s ensures c.value != v {
        var i :| 0 <= i < |s| && s[i] == c;
        assert i == 0 || !Outranks(s[i], s[0]);
      }
      NoneWithValue(s, v);
    }
  }

  /** Inserting `x` puts it after every entry of equal value already present. */
  lemma {:induction false} RankInsertStable(s: seq<Commodity>, x: Commodity, v: Option<real>)
    requires RankedDesc(s)
    ensures WithValue(RankInsert(s, x), v) == WithValue(s, v) + WithValue([x], v)
  {
    if s == [] {
      assert [x][1..] == [];
      assert RankInsert(s, x) == [x];
    } else if !Outranks(x, s[0]) {
      RankInsertStable(s[1..], x, v);
      RankInsertBehind(s, x, v);
    } else {
      RankInsertAhead(s, x, v);
    }
  }

  lemma RankSortStep(s: seq<Commodity>)
    requires s != []
    ensures RankSort(s) == RankInsert(RankSort(s[..|s| - 1]), s[|s| - 1])
  {
  }

  /** Stability: the entries of any one value appear in the ranking in their original order. */
  lemma {:induction false} RankSortStable(s: seq<Commodity>, v: Option<real>)
    ensures WithValue(RankSort(s), v) == WithValue(s, v)
  {
    if s != [] {
      var n := |s| - 1;
      var init := s[..n];
      RankSortStable(init, v);
      calc {
        WithValue(RankSort(s), v);
        { RankSortStep(s); }
        WithValue(RankInsert(RankSort(init), s[n]), v);
        { RankInsertStable(RankSort(init), s[n], v); }
        WithValue(RankSort(init), v) + WithValue([s[n]], v);
        WithValue(init, v) + WithValue([s[n]], v);
        { WithValueConcat(init, [s[n]], v); }
        WithValue(init + [s[n]], v);
        { InitLast(s); }
        WithValue(s, v);
      }
    }
  }

  /** When no entry outranks another (every value NaN), the ranking keeps the input order. */
  lemma {:induction false} RankSortAllNaN(s: seq<Commodity>)
    requires forall c :: c in s ==> c.value.None?
    ensures RankSort(s) == s
  {
    if s != [] {
      var n := |s| - 1;
      assert forall c :: c in s[..n] ==> c in s;
      RankSortAllNaN(s[..n]);
      RankInsertLast(s[..n], s[n]);
      RankSortStep(s);
      InitLast(s);
    }
  }

  lemma {:induction false} RankInsertLast(s: seq<Commodity>, x: Commodity)
    requires x.value.None?
    ensures RankInsert(s, x) == s + [x]
  {
    if s != [] {
      RankInsertLast(s[1..], x);
      assert s == [s[0]] + s[1..];
      ConcatAssoc([s[0]], s[1..], [x]);
    }
  }
}
