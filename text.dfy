/**
 * Character-level helpers for the CSV parser: `String.prototype.trim`, the
 * `replace(/^"|"$/g, '')` quote stripping and a count of `"` characters.
 */
module Text {

  /** The characters `String.prototype.trim` removes: ECMAScript WhiteSpace and LineTerminator. */
  predicate IsSpace(c: char)
  {
    c == '\t' || c == '\n' || c == '\U{000B}' || c == '\U{000C}' || c == '\r' || c == ' '
    || c == '\U{00A0}' || c == '\U{1680}' || ('\U{2000}' <= c <= '\U{200A}')
    || c == '\U{2028}' || c == '\U{2029}' || c == '\U{202F}' || c == '\U{205F}'
    || c == '\U{3000}' || c == '\U{FEFF}'
  }

  predicate AllSpace(s: string)
  {
    forall i :: 0 <= i < |s| ==> IsSpace(s[i])
  }

  /** `s` without its leading white space: a suffix of `s` preceded only by white space. */
  function TrimStart(s: string): (r: string)
    ensures |r| <= |s| && r == s[|s| - |r|..] && AllSpace(s[..|s| - |r|])
    ensures r == [] || !IsSpace(r[0])
  {
    if |s| > 0 && IsSpace(s[0]) then TrimStart(s[1..]) else s
  }

  /** `s` without its trailing white space: a prefix of `s` followed only by white space. */
  function TrimEnd(s: string): (r: string)
    ensures |r| <= |s| && r == s[..|r|] && AllSpace(s[|r|..])
    ensures r == [] || !IsSpace(r[|r| - 1])
  {
    if |s| > 0 && IsSpace(s[|s| - 1]) then TrimEnd(s[..|s| - 1]) else s
  }

  /** `String.prototype.trim`. */
  function Trim(s: string): string
  {
    TrimEnd(TrimStart(s))
  }

  /**
   * Trimming removes white space and nothing else: the result is a piece of `s` with only
   * white space before and after it, and it neither starts nor ends with white space.
   */
  lemma TrimShape(s: string)
    ensures exists i, j :: 0 <= i <= j <= |s| && Trim(s) == s[i..j] && AllSpace(s[..i]) && AllSpace(s[j..])
    ensures Trim(s) == [] || (!IsSpace(Trim(s)[0]) && !IsSpace(Trim(s)[|Trim(s)| - 1]))
  {
    var t := TrimStart(s);
    var r := TrimEnd(t);
    var i := |s| - |t|;
    var j := i + |r|;
    assert r == s[i..j];
    assert s[j..] == t[|r|..];
  }

  /** Trimming a trimmed string changes nothing. */
  lemma TrimIdempotent(s: string)
    ensures Trim(Trim(s)) == Trim(s)
  {
    var r := Trim(s);
    TrimShape(s);
    assert TrimStart(r) == r;
    assert TrimEnd(r) == r;
  }

  /** Text made only of white space trims to the empty string. */
  lemma {:induction false} TrimAllSpace(s: string)
    requires AllSpace(s)
    ensures Trim(s) == ""
  {
    if |s| > 0 {
      assert AllSpace(s[1..]) by {
        forall i | 0 <= i < |s[1..]| ensures IsSpace(s[1..][i]) {
          assert s[1..][i] == s[i + 1];
        }
      }
      TrimAllSpace(s[1..]);
    }
  }

  /**
   * `s.replace(/^"|"$/g, '')`: one `"` is removed from the start and one from the end,
   * the two never being the same character.
   */
  function StripQuotes(s: string): (r: string)
    ensures |r| <= |s| <= |r| + 2
  {
    var t := if |s| > 0 && s[0] == '"' then s[1..] else s;
    if |t| > 0 && t[|t| - 1] == '"' then t[..|t| - 1] else t
  }

  /**
   * Only the ends are cut: what goes at the start is one `"` when `s` starts with one and nothing
   * otherwise, and what goes at the end is one `"` when the rest is not empty and ends with one.
   */
  lemma StripQuotesShape(s: string)
    ensures exists pre, post :: (s == pre + StripQuotes(s) + post
      && (if |s| > 0 && s[0] == '"' then pre == ['"'] else pre == [])
      && (if |s| > |pre| && s[|s| - 1] == '"' then post == ['"'] else post == []))
  {
    var a := if |s| > 0 && s[0] == '"' then 1 else 0;
    var b := if |s| - a > 0 && s[|s| - 1] == '"' then 1 else 0;
    var pre, post := s[..a], s[|s| - b..];
    assert s == pre + StripQuotes(s) + post;
  }

  /** A token that starts with a quote but does not end with one loses only that quote. */
  lemma StripQuotesLeading(x: string)
    requires x == [] || x[|x| - 1] != '"'
    ensures StripQuotes(['"'] + x) == x
  {
    assert (['"'] + x)[1..] == x;
  }

  /** A token that ends with a quote but does not start with one loses only that quote. */
  lemma StripQuotesTrailing(x: string)
    requires x == [] || x[0] != '"'
    ensures StripQuotes(x + ['"']) == x
  {
    assert (x + ['"'])[..|x|] == x;
  }

  /** A field wrapped in one pair of quotes loses exactly that pair. */
  lemma StripQuotesWrapped(x: string)
    ensures StripQuotes(['"'] + x + ['"']) == x
  {
    var s := ['"'] + x + ['"'];
    assert s[1..] == x + ['"'];
    assert (x + ['"'])[..|x|] == x;
  }

  /** A field with no quote at either end is left as it is. */
  lemma StripQuotesPlain(s: string)
    requires s == [] || (s[0] != '"' && s[|s| - 1] != '"')
    ensures StripQuotes(s) == s
  {
  }

  /** Number of `"` characters in `s`. */
  function QuoteCount(s: string): nat
  {
    if s == [] then 0 else (if s[0] == '"' then 1 else 0) + QuoteCount(s[1..])
  }

  lemma {:induction false} QuoteCountConcat(a: string, b: string)
    ensures QuoteCount(a + b) == QuoteCount(a) + QuoteCount(b)
  {
    if a != [] {
      assert (a + b)[0] == a[0];
      assert (a + b)[1..] == a[1..] + b;
      QuoteCountConcat(a[1..], b);
    } else {
      assert a + b == b;
    }
  }

  lemma {:induction false} QuoteCountNone(s: string)
    requires '"' !in s
    ensures QuoteCount(s) == 0
  {
    if s != [] {
      assert s[0] in s;
      assert forall c :: c in s[1..] ==> c in s;
      QuoteCountNone(s[1..]);
    }
  }
}
