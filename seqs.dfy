/**
 * Sequence operations the dashboard borrows from JavaScript's standard library:
 * `Array.prototype.filter`, `Array.prototype.join` and `String.prototype.split`.
 */
module Seqs {

  /** The elements of `s` that satisfy `p`, in their original order (`Array.prototype.filter`). */
  function Filter<T>(s: seq<T>, p: T -> bool): (r: seq<T>)
    ensures |r| <= |s|
    ensures forall x :: x in r ==> x in s && p(x)
  {
    if s == [] then [] else (if p(s[0]) then [s[0]] else []) + Filter(s[1..], p)
  }

  lemma ConcatAssoc<T>(a: seq<T>, b: seq<T>, c: seq<T>)
    ensures a + (b + c) == (a + b) + c
  {
  }

  /** A non-empty sequence is its prefix followed by its last element. */
  lemma InitLast<T>(s: seq<T>)
    requires s != []
    ensures s[..|s| - 1] + [s[|s| - 1]] == s
  {
  }

  /** Filtering distributes over concatenation: it never reorders what it keeps. */
  lemma {:induction false} FilterConcat<T>(a: seq<T>, b: seq<T>, p: T -> bool)
    ensures Filter(a + b, p) == Filter(a, p) + Filter(b, p)
  {
    if a != [] {
      var head := if p(a[0]) then [a[0]] else [];
      assert (a + b)[0] == a[0];
      assert (a + b)[1..] == a[1..] + b;
      FilterConcat(a[1..], b, p);
      calc {
        Filter(a + b, p);
        head + Filter(a[1..] + b, p);
        head + (Filter(a[1..], p) + Filter(b, p));
        (head + Filter(a[1..], p)) + Filter(b, p);
      }
    } else {
      assert a + b == b;
    }
  }

  /** Each element keeps all of its occurrences when it satisfies `p`, and none otherwise. */
  lemma {:induction false} FilterMultiset<T>(s: seq<T>, p: T -> bool)
    ensures forall x :: multiset(Filter(s, p))[x] == if p(x) then multiset(s)[x] else 0
  {
    if s != [] {
      FilterMultiset(s[1..], p);
      assert s == [s[0]] + s[1..];
    }
  }

  /** Filtering twice with the same predicate is filtering once. */
  lemma {:induction false} FilterIdempotent<T>(s: seq<T>, p: T -> bool)
    ensures Filter(Filter(s, p), p) == Filter(s, p)
  {
    if s != [] {
      FilterIdempotent(s[1..], p);
      FilterConcat(if p(s[0]) then [s[0]] else [], Filter(s[1..], p), p);
    }
  }

  /** Two filters may be applied in either order. */
  lemma {:induction false} FilterCommute<T>(s: seq<T>, p: T -> bool, q: T -> bool)
    ensures Filter(Filter(s, p), q) == Filter(Filter(s, q), p)
  {
    if s != [] {
      FilterCommute(s[1..], p, q);
      FilterConcat(if p(s[0]) then [s[0]] else [], Filter(s[1..], p), q);
      FilterConcat(if q(s[0]) then [s[0]] else [], Filter(s[1..], q), p);
    }
  }

  /** The parts joined with `sep` between consecutive parts (`Array.prototype.join`). */
  function Join(parts: seq<string>, sep: char): string
  {
    if |parts| == 0 then ""
    else if |parts| == 1 then parts[0]
    else parts[0] + [sep] + Join(parts[1..], sep)
  }

  /**
   * The first index `k >= i` at which a separator starts (`isSep(s[k..])`), or `|s|` when
   * there is none. A separator is decided by the suffix it starts, which is what lets one
   * definition serve both a plain character split and the dashboard's look-ahead regular expression.
   */
  function FirstSep(s: string, isSep: string -> bool, i: nat): (k: nat)
    requires i <= |s|
    ensures i <= k <= |s|
    ensures k < |s| ==> isSep(s[k..])
    decreases |s| - i
  {
    if i == |s| then |s|
    else if isSep(s[i..]) then i
    else FirstSep(s, isSep, i + 1)
  }

  /** The first separator from `i` is at `j` when one starts at `j` (or `j` ends the text) and none before. */
  lemma FirstSepIs(s: string, isSep: string -> bool, i: nat, j: nat)
    requires i <= j <= |s|
    requires j < |s| ==> isSep(s[j..])
    requires forall m :: i <= m < j ==> !isSep(s[m..])
    ensures FirstSep(s, isSep, i) == j
  {
    FirstSepFirst(s, isSep, i);
  }

  /** No separator starts before the first one. */
  lemma {:induction false} FirstSepFirst(s: string, isSep: string -> bool, i: nat)
    requires i <= |s|
    ensures forall j :: i <= j < FirstSep(s, isSep, i) ==> !isSep(s[j..])
    decreases |s| - i
  {
    if i < |s| && !isSep(s[i..]) {
      FirstSepFirst(s, isSep, i + 1);
    }
  }

  /**
   * `String.prototype.split` with a one-character separator that matches at the positions
   * where `isSep` holds of the remaining text. The empty string splits into `[""]`.
   */
  function SplitWhere(s: string, isSep: string -> bool): (r: seq<string>)
    ensures |r| >= 1
    decreases |s|
  {
    var k := FirstSep(s, isSep, 0);
    if k == |s| then [s] else [s[..k]] + SplitWhere(s[k + 1..], isSep)
  }

  /** A separator that is the single character `c`. */
  function CharSep(c: char): string -> bool
  {
    t => |t| > 0 && t[0] == c
  }

  /** `s.split(c)` for a one-character string `c`. */
  function SplitOn(s: string, c: char): (r: seq<string>)
    ensures |r| >= 1
  {
    SplitWhere(s, CharSep(c))
  }

  /** Joining the pieces with the separator character gives back the text that was split. */
  lemma {:induction false} JoinSplit(s: string, isSep: string -> bool, c: char)
    requires forall t :: isSep(t) ==> |t| > 0 && t[0] == c
    ensures Join(SplitWhere(s, isSep), c) == s
    decreases |s|
  {
    var k := FirstSep(s, isSep, 0);
    if k < |s| {
      var rest := SplitWhere(s[k + 1..], isSep);
      JoinSplit(s[k + 1..], isSep, c);
      assert ([s[..k]] + rest)[1..] == rest;
      assert s[k..][0] == c;
      assert s == s[..k] + [c] + s[k + 1..];
    }
  }

  /** Position in the joined text at which part `k` starts. */
  function Offset(parts: seq<string>, k: nat): (o: nat)
    requires k <= |parts|
    ensures o >= k
  {
    if k == 0 then 0 else Offset(parts, k - 1) + |parts[k - 1]| + 1
  }

  lemma {:induction false} OffsetCons(a: string, rest: seq<string>, k: nat)
    requires 1 <= k <= |rest| + 1
    ensures Offset([a] + rest, k) == |a| + 1 + Offset(rest, k - 1)
  {
    if k > 1 {
      OffsetCons(a, rest, k - 1);
      assert ([a] + rest)[k - 1] == rest[k - 2];
    }
  }

  /** No separator starts at any position in `[lo, hi)`. */
  predicate NoSepIn(s: string, isSep: string -> bool, lo: nat, hi: nat)
    requires lo <= hi <= |s|
  {
    forall i :: lo <= i < hi ==> !isSep(s[i..])
  }

  /** Piece `k` is the text of `s` that starts at `Offset(r, k)`, and no separator starts inside it. */
  lemma {:induction false} SplitPiece(s: string, isSep: string -> bool, k: nat)
    requires k < |SplitWhere(s, isSep)|
    ensures PieceAt(s, isSep, SplitWhere(s, isSep), k)
    decreases |s|
  {
    var k0 := FirstSep(s, isSep, 0);
    if k == 0 {
      FirstPiece(s, isSep);
    } else {
      SplitPiece(s[k0 + 1..], isSep, k - 1);
      LaterPiece(s, isSep, k);
    }
  }

  lemma FirstPiece(s: string, isSep: string -> bool)
    ensures PieceAt(s, isSep, SplitWhere(s, isSep), 0)
  {
    var r := SplitWhere(s, isSep);
    var k0 := FirstSep(s, isSep, 0);
    FirstSepFirst(s, isSep, 0);
    if k0 == |s| {
      assert r == [s];
      assert s[0..|s|] == s;
    } else {
      assert r == [s[..k0]] + SplitWhere(s[k0 + 1..], isSep);
      assert r[0] == s[0..k0];
    }
  }

  /** Piece `k > 0` of `s` is piece `k - 1` of the text after the first separator, shifted. */
  lemma LaterPiece(s: string, isSep: string -> bool, k: nat)
    requires FirstSep(s, isSep, 0) < |s|
    requires 0 < k < |SplitWhere(s, isSep)|
    requires PieceAt(s[FirstSep(s, isSep, 0) + 1..], isSep, SplitWhere(s[FirstSep(s, isSep, 0) + 1..], isSep), k - 1)
    ensures PieceAt(s, isSep, SplitWhere(s, isSep), k)
  {
    var k0 := FirstSep(s, isSep, 0);
    SplitCons(s, isSep);
    ShiftPiece(s, isSep, k0, SplitWhere(s[k0 + 1..], isSep), k - 1);
  }

  /** Text with a separator splits into the piece before it and the pieces of the rest. */
  lemma SplitCons(s: string, isSep: string -> bool)
    requires FirstSep(s, isSep, 0) < |s|
    ensures SplitWhere(s, isSep) == [s[..FirstSep(s, isSep, 0)]] + SplitWhere(s[FirstSep(s, isSep, 0) + 1..], isSep)
  {
  }

  /** Text without a separator is one piece. */
  lemma SplitWhole(s: string, isSep: string -> bool)
    requires forall m :: 0 <= m < |s| ==> !isSep(s[m..])
    ensures SplitWhere(s, isSep) == [s]
  {
    FirstSepIs(s, isSep, 0, |s|);
  }

  /** Text whose first separator is at `k` splits there. */
  lemma SplitAt(s: string, isSep: string -> bool, k: nat)
    requires k < |s| && isSep(s[k..])
    requires forall m :: 0 <= m < k ==> !isSep(s[m..])
    ensures SplitWhere(s, isSep) == [s[..k]] + SplitWhere(s[k + 1..], isSep)
  {
    FirstSepIs(s, isSep, 0, k);
  }

  /** A piece of the text after the first piece and its separator is a piece of the whole text. */
  lemma ShiftPiece(s: string, isSep: string -> bool, k0: nat, rest: seq<string>, j: nat)
    requires k0 < |s| && j < |rest|
    requires PieceAt(s[k0 + 1..], isSep, rest, j)
    ensures PieceAt(s, isSep, [s[..k0]] + rest, j + 1)
  {
    var a := s[..k0];
    var r := [a] + rest;
    var o, n := Offset(rest, j), |rest[j]|;
    OffsetCons(a, rest, j + 1);
    assert r[j + 1] == rest[j];
    ShiftFacts(s, isSep, k0 + 1, o, n);
  }

  /** The boundary before piece `k` (for `k > 0`) is a separator, and the last piece ends the text. */
  lemma {:induction false} SplitSeparator(s: string, isSep: string -> bool, k: nat)
    requires 0 < k < |SplitWhere(s, isSep)|
    ensures Offset(SplitWhere(s, isSep), k) <= |s|
    ensures isSep(s[Offset(SplitWhere(s, isSep), k) - 1..])
    decreases |s|
  {
    var r := SplitWhere(s, isSep);
    var k0 := FirstSep(s, isSep, 0);
    var t := s[k0 + 1..];
    var rest := SplitWhere(t, isSep);
    assert r == [s[..k0]] + rest;
    OffsetCons(s[..k0], rest, k);
    if k > 1 {
      SplitSeparator(t, isSep, k - 1);
      var o := Offset(rest, k - 1);
      assert t[o - 1..] == s[k0 + 1 + o - 1..];
    }
  }

  /** The last piece ends where the text ends. */
  lemma {:induction false} SplitEnd(s: string, isSep: string -> bool)
    ensures var r := SplitWhere(s, isSep); Offset(r, |r| - 1) + |r[|r| - 1]| == |s|
    decreases |s|
  {
    var r := SplitWhere(s, isSep);
    var k0 := FirstSep(s, isSep, 0);
    if k0 < |s| {
      var t := s[k0 + 1..];
      var rest := SplitWhere(t, isSep);
      assert r == [s[..k0]] + rest;
      SplitEnd(t, isSep);
      OffsetCons(s[..k0], rest, |r| - 1);
    }
  }

  /**
   * Where the pieces sit in the original text: piece `k` starts at `Offset(r, k)` and holds no
   * separator, every boundary between two pieces is a separator, and the pieces end with the text.
   */
  lemma SplitBoundaries(s: string, isSep: string -> bool)
    ensures var r := SplitWhere(s, isSep);
      Offset(r, |r| - 1) + |r[|r| - 1]| == |s|
      && (forall k :: 0 <= k < |r| ==> PieceAt(s, isSep, r, k))
      && (forall k :: 0 < k < |r| ==> Offset(r, k) <= |s| && isSep(s[Offset(r, k) - 1..]))
  {
    var r := SplitWhere(s, isSep);
    SplitEnd(s, isSep);
    forall k | 0 <= k < |r| ensures PieceAt(s, isSep, r, k) {
      SplitPiece(s, isSep, k);
    }
    forall k | 0 < k < |r| ensures Offset(r, k) <= |s| && isSep(s[Offset(r, k) - 1..]) {
      SplitSeparator(s, isSep, k);
    }
  }

  /** Piece `k` of `r` is the text of `s` at `Offset(r, k)` and holds no separator. */
  predicate PieceAt(s: string, isSep: string -> bool, r: seq<string>, k: nat)
    requires k < |r|
  {
    Offset(r, k) + |r[k]| <= |s|
    && r[k] == s[Offset(r, k)..Offset(r, k) + |r[k]|]
    && NoSepIn(s, isSep, Offset(r, k), Offset(r, k) + |r[k]|)
  }

  /** Facts about the suffix `t == s[d..]` restated at the matching positions of `s`. */
  lemma ShiftFacts(s: string, isSep: string -> bool, d: nat, o: nat, n: nat)
    requires d <= |s| && o + n <= |s| - d
    ensures s[d..][o..o + n] == s[d + o..d + o + n]
    ensures o > 0 ==> s[d..][o - 1..] == s[d + o - 1..]
    ensures NoSepIn(s[d..], isSep, o, o + n) ==> NoSepIn(s, isSep, d + o, d + o + n)
  {
    var t := s[d..];
    if NoSepIn(t, isSep, o, o + n) {
      forall i | d + o <= i < d + o + n ensures !isSep(s[i..]) {
        assert t[i - d..] == s[i..];
      }
    }
  }

  /** Splitting text joined from pieces that do not contain the separator gives back the pieces. */
  lemma {:induction false} SplitOnJoin(parts: seq<string>, c: char)
    requires |parts| >= 1
    requires forall p :: p in parts ==> c !in p
    ensures SplitOn(Join(parts, c), c) == parts
    decreases |parts|
  {
    var s := Join(parts, c);
    var k := FirstSep(s, CharSep(c), 0);
    if |parts| == 1 {
      assert parts[0] in parts;
      forall j | 0 <= j < |s| ensures !CharSep(c)(s[j..]) {
        assert s[j..][0] == s[j];
      }
      FirstSepIs(s, CharSep(c), 0, |s|);
    } else {
      var a := parts[0];
      assert a in parts;
      var t := Join(parts[1..], c);
      assert s == a + [c] + t;
      assert s[|a|..][0] == c;
      forall j | 0 <= j < |a| ensures !CharSep(c)(s[j..]) {
        assert s[j..][0] == a[j];
      }
      FirstSepIs(s, CharSep(c), 0, |a|);
      assert k == |a|;
      assert s[k + 1..] == t;
      assert s[..k] == a;
      assert SplitOn(s, c) == [a] + SplitOn(t, c);
      SplitOnJoin(parts[1..], c);
      assert parts == [a] + parts[1..];
    }
  }
}
