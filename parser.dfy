/**
 * `parseCSV` (utils/parser.ts): text to an ordered sequence of records.
 *
 * The text is trimmed and cut at every line feed; the first line is the header and every later
 * non-empty line whose quote-aware split has as many tokens as the header becomes one record.
 * `parseFloat` is not modelled: it is the parameter `parseNum`, whose `None` stands for `NaN`.
 */
module Parser {
  import opened Wrappers
  import opened Seqs
  import opened Text
  import opened Types

  /**
   * The look-ahead of the split expression `,(?=(?:(?:[^"]*"){2})*[^"]*$)`: a comma is a split
   * point when the rest of the line after it holds an even number of `"` characters.
   */
  predicate IsSplitComma(t: string)
  {
    |t| > 0 && t[0] == ',' && QuoteCount(t[1..]) % 2 == 0
  }

  /** `line.split(csvSplitRegex)`. */
  function SplitLine(line: string): (r: seq<string>)
    ensures |r| >= 1
  {
    SplitWhere(line, IsSplitComma)
  }

  /**
   * The split removes exactly the split commas: joining the tokens with `,` gives the line back,
   * each token is the text of the line at its offset with no split comma inside it, and each
   * boundary between two tokens is a split comma.
   */
  lemma SplitLineShape(line: string)
    ensures Join(SplitLine(line), ',') == line
    ensures var r := SplitLine(line);
      (forall k :: 0 <= k < |r| ==> PieceAt(line, IsSplitComma, r, k))
      && (forall k :: 0 < k < |r| ==> Offset(r, k) <= |line| && IsSplitComma(line[Offset(r, k) - 1..]))
  {
    JoinSplit(line, IsSplitComma, ',');
    SplitBoundaries(line, IsSplitComma);
  }

  /** A token trimmed, then stripped of one leading and one trailing `"`. */
  function Clean(token: string): string
  {
    StripQuotes(Trim(token))
  }

  /** The header names of the first line, cleaned. */
  function Headers(line: string): (hs: seq<string>)
    ensures |hs| == |SplitLine(line)|
    ensures forall i :: 0 <= i < |hs| ==> hs[i] == Clean(SplitLine(line)[i])
  {
    var tokens := SplitLine(line);
    seq(|tokens|, i requires 0 <= i < |tokens| => Clean(tokens[i]))
  }

  /** The three columns kept as text; every other column is numeric. */
  predicate IsTextColumn(header: string)
  {
    header == SECTOR || header == MONTH || header == DATE
  }

  /** The value stored under `header` for one raw token of a data line. */
  function Cell(header: string, token: string, parseNum: string -> Option<real>): Value
  {
    var value := Clean(token);
    if IsTextColumn(header) then Text(value)
    else match parseNum(value)
      case Some(x) => Num(x)
      case None => Num(0.0)
  }

  /**
   * `Sector`, `Month` and `Date` hold the cleaned token as text; every other column holds the
   * number the cleaned token parses to, or 0 when it does not parse.
   */
  lemma CellTyping(header: string, token: string, parseNum: string -> Option<real>)
    ensures var v := Cell(header, token, parseNum);
      (v.Text? <==> IsTextColumn(header))
      && (v.Text? ==> v.s == Clean(token))
      && (v.Num? && parseNum(Clean(token)).None? ==> v.x == 0.0)
      && (v.Num? && parseNum(Clean(token)).Some? ==> v.x == parseNum(Clean(token)).value)
  {
  }

  /** The record the `forEach` over the headers fills in, one header after the other. */
  function EntryOf(headers: seq<string>, values: seq<string>, parseNum: string -> Option<real>): Record
    requires |values| == |headers|
  {
    if headers == [] then map[]
    else
      var n := |headers| - 1;
      EntryOf(headers[..n], values[..n], parseNum)[headers[n] := Cell(headers[n], values[n], parseNum)]
  }

  /** The record has exactly the header names as keys. */
  lemma {:induction false} EntryKeys(headers: seq<string>, values: seq<string>, parseNum: string -> Option<real>)
    requires |values| == |headers|
    ensures forall h :: h in EntryOf(headers, values, parseNum) <==> h in headers
  {
    if headers != [] {
      var n := |headers| - 1;
      EntryKeys(headers[..n], values[..n], parseNum);
      assert headers == headers[..n] + [headers[n]];
    }
  }

  /**
   * The field of header `i` holds the cell of column `i`, provided no later column has the
   * same name (a later duplicate overwrites it).
   */
  lemma {:induction false} EntryField(headers: seq<string>, values: seq<string>, parseNum: string -> Option<real>, i: nat)
    requires |values| == |headers| && i < |headers|
    requires forall j :: i < j < |headers| ==> headers[j] != headers[i]
    ensures headers[i] in EntryOf(headers, values, parseNum)
    ensures EntryOf(headers, values, parseNum)[headers[i]] == Cell(headers[i], values[i], parseNum)
  {
    var n := |headers| - 1;
    var prev := EntryOf(headers[..n], values[..n], parseNum);
    var entry := EntryOf(headers, values, parseNum);
    assert entry == prev[headers[n] := Cell(headers[n], values[n], parseNum)];
    if i < n {
      EntryField(headers[..n], values[..n], parseNum, i);
      assert headers[..n][i] == headers[i] && values[..n][i] == values[i];
      assert headers[i] != headers[n];
      assert entry[headers[i]] == prev[headers[i]];
    }
  }

  /** One more column: the record of the first `k + 1` columns updates that of the first `k`. */
  lemma EntryOfStep(headers: seq<string>, values: seq<string>, parseNum: string -> Option<real>, k: nat)
    requires |values| == |headers| && k < |headers|
    ensures EntryOf(headers[..k + 1], values[..k + 1], parseNum)
      == EntryOf(headers[..k], values[..k], parseNum)[headers[k] := Cell(headers[k], values[k], parseNum)]
  {
    assert headers[..k + 1][..k] == headers[..k];
    assert values[..k + 1][..k] == values[..k];
  }

  /** Builds the record for one retained data line (the `forEach` at the heart of the loop). */
  method BuildEntry(headers: seq<string>, values: seq<string>, parseNum: string -> Option<real>) returns (entry: Record)
    requires |values| == |headers|
    ensures entry == EntryOf(headers, values, parseNum)
  {
    entry := map[];
    var index := 0;
    while index < |headers|
      invariant 0 <= index <= |headers|
      invariant entry == EntryOf(headers[..index], values[..index], parseNum)
    {
      EntryOfStep(headers, values, parseNum, index);
      entry := entry[headers[index] := Cell(headers[index], values[index], parseNum)];
      index := index + 1;
    }
    assert headers[..index] == headers && values[..index] == values;
  }

  /** A data line is kept when it is not empty and splits into as many tokens as the header. */
  predicate Retained(headers: seq<string>, line: string)
  {
    line != "" && |SplitLine(line)| == |headers|
  }

  /** What one data line contributes: its record, or nothing. */
  function RowOf(headers: seq<string>, line: string, parseNum: string -> Option<real>): seq<Record>
  {
    if Retained(headers, line) then [EntryOf(headers, SplitLine(line), parseNum)] else []
  }

  /** The records of the data lines `lines[1..hi]`, in file order (`lines[0]` is the header). */
  function Rows(headers: seq<string>, lines: seq<string>, hi: nat, parseNum: string -> Option<real>): seq<Record>
    requires 1 <= hi <= |lines|
  {
    if hi == 1 then [] else Rows(headers, lines, hi - 1, parseNum) + RowOf(headers, lines[hi - 1], parseNum)
  }

  /** `csvText.trim().split('\n')`: there is always at least one line, the header. */
  function Lines(text: string): (ls: seq<string>)
    ensures |ls| >= 1
  {
    SplitOn(Trim(text), '\n')
  }

  /** What `parseCSV(text)` returns: no record comes from the header line. */
  function ParsedRecords(text: string, parseNum: string -> Option<real>): (data: seq<Record>)
    ensures |data| <= |Lines(text)| - 1
  {
    var lines := Lines(text);
    RowsFromRetainedLines(Headers(lines[0]), lines, |lines|, parseNum);
    Rows(Headers(lines[0]), lines, |lines|, parseNum)
  }

  /**
   * `parseCSV`: cuts the text into lines, reads the header, then walks the data lines, skipping
   * empty lines and lines whose token count differs from the header's, and pushing one record
   * for every other line.
   */
  method ParseCSV(csvText: string, parseNum: string -> Option<real>) returns (data: seq<Record>)
    ensures data == ParsedRecords(csvText, parseNum)
  {
    var lines := SplitOn(Trim(csvText), '\n');
    var headers := Headers(lines[0]);
    data := [];
    for i := 1 to |lines|
      invariant data == Rows(headers, lines, i, parseNum)
    {
      var currentLine := lines[i];
      assert Rows(headers, lines, i + 1, parseNum) == data + RowOf(headers, currentLine, parseNum);
      if currentLine == "" {
        assert data == Rows(headers, lines, i + 1, parseNum);
        continue;
      }
      var values := SplitLine(currentLine);
      if |values| != |headers| {
        assert data == Rows(headers, lines, i + 1, parseNum);
        continue;
      }
      var entry := BuildEntry(headers, values, parseNum);
      assert RowOf(headers, currentLine, parseNum) == [entry];
      data := data + [entry];
    }
  }

  /** The positions of the retained data lines before `hi`, ascending. */
  function RetainedIndices(headers: seq<string>, lines: seq<string>, hi: nat): (idx: seq<nat>)
    requires 1 <= hi <= |lines|
    ensures |idx| <= hi - 1
    ensures forall k :: 0 <= k < |idx| ==> 1 <= idx[k] < hi && Retained(headers, lines[idx[k]])
  {
    if hi == 1 then []
    else RetainedIndices(headers, lines, hi - 1) + (if Retained(headers, lines[hi - 1]) then [hi - 1] else [])
  }

  /**
   * The positions used are the retained data lines, each once, in file order: the header line
   * is never used and every retained line is.
   */
  lemma {:induction false} RetainedIndicesExact(headers: seq<string>, lines: seq<string>, hi: nat)
    requires 1 <= hi <= |lines|
    ensures var idx := RetainedIndices(headers, lines, hi);
      (forall k, m :: 0 <= k < m < |idx| ==> idx[k] < idx[m])
      && (forall i :: 1 <= i < hi && Retained(headers, lines[i]) ==> i in idx)
  {
    if hi > 1 {
      RetainedIndicesExact(headers, lines, hi - 1);
      var idx, prev := RetainedIndices(headers, lines, hi), RetainedIndices(headers, lines, hi - 1);
      var last := if Retained(headers, lines[hi - 1]) then [hi - 1] else [];
      assert idx == prev + last;
      forall k, m | 0 <= k < m < |idx| ensures idx[k] < idx[m] {
        if m < |prev| {
          assert idx[k] == prev[k] && idx[m] == prev[m];
        } else {
          assert idx[k] == prev[k] && idx[m] == hi - 1;
        }
      }
      forall i | 1 <= i < hi && Retained(headers, lines[i]) ensures i in idx {
        if i < hi - 1 {
          var t :| 0 <= t < |prev| && prev[t] == i;
          assert idx[t] == i;
        } else {
          assert idx[|prev|] == i;
        }
      }
    }
  }

  /** One record per retained line: record `k` is built from the `k`-th retained line. */
  lemma {:induction false} RowsFromRetainedLines(headers: seq<string>, lines: seq<string>, hi: nat, parseNum: string -> Option<real>)
    requires 1 <= hi <= |lines|
    ensures var rows, idx := Rows(headers, lines, hi, parseNum), RetainedIndices(headers, lines, hi);
      |rows| == |idx|
      && (forall k :: 0 <= k < |idx| ==> rows[k] == EntryOf(headers, SplitLine(lines[idx[k]]), parseNum))
  {
    if hi > 1 {
      RowsFromRetainedLines(headers, lines, hi - 1, parseNum);
      var rows, prows := Rows(headers, lines, hi, parseNum), Rows(headers, lines, hi - 1, parseNum);
      var idx, prev := RetainedIndices(headers, lines, hi), RetainedIndices(headers, lines, hi - 1);
      if Retained(headers, lines[hi - 1]) {
        assert rows == prows + [EntryOf(headers, SplitLine(lines[hi - 1]), parseNum)];
        assert idx == prev + [hi - 1];
      } else {
        assert rows == prows && idx == prev;
      }
    }
  }

  /** Empty or blank text has a header line only, hence no records. */
  lemma ParseBlank(text: string, parseNum: string -> Option<real>)
    requires AllSpace(text)
    ensures ParsedRecords(text, parseNum) == []
  {
    TrimAllSpace(text);
    assert FirstSep("", CharSep('\n'), 0) == 0;
    assert Lines(text) == [""];
  }

  /**
   * A field as a CSV writer emits it: either free of `"` and `,`, or wrapped in one pair of
   * quotes with no other quote inside (commas allowed).
   */
  predicate WellQuoted(f: string)
  {
    ('"' !in f && ',' !in f)
    || (|f| >= 2 && f[0] == '"' && f[|f| - 1] == '"' && '"' !in f[1..|f| - 1])
  }

  lemma FieldQuotesEven(f: string)
    requires WellQuoted(f)
    ensures QuoteCount(f) % 2 == 0
  {
    if '"' in f {
      var inner := f[1..|f| - 1];
      assert f == ['"'] + inner + ['"'];
      QuoteCountConcat(['"'] + inner, ['"']);
      QuoteCountConcat(['"'], inner);
      QuoteCountNone(inner);
    } else {
      QuoteCountNone(f);
    }
  }

  lemma {:induction false} JoinQuotesEven(fields: seq<string>)
    requires forall f :: f in fields ==> WellQuoted(f)
    ensures QuoteCount(Join(fields, ',')) % 2 == 0
  {
    if |fields| == 1 {
      FieldQuotesEven(fields[0]);
    } else if |fields| > 1 {
      assert fields[0] in fields;
      FieldQuotesEven(fields[0]);
      JoinQuotesEven(fields[1..]);
      QuoteCountConcat(fields[0] + [','], Join(fields[1..], ','));
      QuoteCountConcat(fields[0], [',']);
    }
  }

  /** A comma inside a quoted field sees an odd number of quotes after it: the closing one, plus an even rest. */
  lemma InnerCommaOdd(f: string, j: nat, tail: string)
    requires WellQuoted(f) && j < |f| && f[j] == ','
    requires QuoteCount(tail) % 2 == 0
    ensures QuoteCount(f[j + 1..] + tail) % 2 == 1
  {
    var inner := f[j + 1..|f| - 1];
    assert f[j + 1..] == inner + ['"'];
    assert '"' !in inner by {
      forall c | c in inner ensures c != '"' {
        var m :| 0 <= m < |inner| && inner[m] == c;
        assert f[1..|f| - 1][j + m] == c;
      }
    }
    QuoteCountNone(inner);
    QuoteCountConcat(inner, ['"']);
    QuoteCountConcat(f[j + 1..], tail);
  }

  /**
   * Quote safety: a line joined from well-quoted fields splits back into exactly those fields,
   * whatever commas the quoted fields contain.
   */
  lemma {:induction false} SplitLineJoin(fields: seq<string>)
    requires |fields| >= 1
    requires forall f :: f in fields ==> WellQuoted(f)
    ensures SplitLine(Join(fields, ',')) == fields
    decreases |fields|
  {
    var f := fields[0];
    assert f in fields;
    if |fields| == 1 {
      assert Join(fields, ',') == f + "";
      NoSplitInField(f, "");
      SplitWhole(f, IsSplitComma);
    } else {
      var t := Join(fields[1..], ',');
      JoinQuotesEven(fields[1..]);
      QuoteCountConcat([','], t);
      NoSplitInField(f, [','] + t);
      SplitFieldFirst(f, t);
      SplitLineJoin(fields[1..]);
      assert fields == [f] + fields[1..];
    }
  }

  /** A line made of a field, a split comma and the rest splits into the field and the rest's tokens. */
  lemma SplitFieldFirst(f: string, t: string)
    requires QuoteCount(t) % 2 == 0
    requires forall j :: 0 <= j < |f| ==> !IsSplitComma((f + ([','] + t))[j..])
    ensures SplitLine(f + [','] + t) == [f] + SplitLine(t)
  {
    var s := f + ([','] + t);
    assert s == f + [','] + t;
    assert s[|f|..] == [','] + t;
    assert s[|f|..][1..] == t;
    SplitAt(s, IsSplitComma, |f|);
    assert s[..|f|] == f && s[|f| + 1..] == t;
  }

  /** No comma of a well-quoted field is a split point when the rest of the line has even quotes. */
  lemma NoSplitInField(f: string, tail: string)
    requires WellQuoted(f) && QuoteCount(tail) % 2 == 0
    ensures forall j :: 0 <= j < |f| ==> !IsSplitComma((f + tail)[j..])
  {
    var s := f + tail;
    forall j | 0 <= j < |f| ensures !IsSplitComma(s[j..]) {
      assert s[j..] == f[j..] + tail;
      if f[j] == ',' {
        assert s[j..][1..] == f[j + 1..] + tail;
        InnerCommaOdd(f, j, tail);
      }
    }
  }

  /** A header that is a well-quoted row yields the fields, cleaned. */
  lemma HeadersOfJoin(line: string, fields: seq<string>)
    requires |fields| >= 1 && line == Join(fields, ',')
    requires forall f :: f in fields ==> WellQuoted(f)
    ensures |Headers(line)| == |fields|
    ensures forall i :: 0 <= i < |fields| ==> Headers(line)[i] == Clean(fields[i])
  {
    SplitLineJoin(fields);
  }

  /** Cleaning a token that neither starts nor ends with white space only strips its quotes. */
  lemma CleanUnpadded(token: string)
    requires token == [] || (!IsSpace(token[0]) && !IsSpace(token[|token| - 1]))
    ensures Clean(token) == StripQuotes(token)
  {
  }

  /** The header `A,"B, C",D` splits into three tokens, the quoted one keeping its comma. */
  lemma QuotedHeaderTokens(line: string)
    requires line == "A,\"B, C\",D"
    ensures SplitLine(line) == ["A", "\"B, C\"", "D"]
  {
    var fields := ["A", "\"B, C\"", "D"];
    assert Join(fields, ',') == line;
    assert WellQuoted(fields[0]) && WellQuoted(fields[1]) && WellQuoted(fields[2]);
    SplitLineJoin(fields);
  }

  /** The header `A,"B, C",D` yields three names, the second being `B, C` without its quotes. */
  lemma QuotedHeaderExample(line: string)
    requires line == "A,\"B, C\",D"
    ensures |Headers(line)| == 3
    ensures Headers(line)[0] == "A" && Headers(line)[1] == "B, C" && Headers(line)[2] == "D"
  {
    QuotedHeaderTokens(line);
    ExampleNames();
  }

  /** The tokens of the example header clean to `A`, `B, C` and `D`. */
  lemma ExampleNames()
    ensures Clean("A") == "A" && Clean("\"B, C\"") == "B, C" && Clean("D") == "D"
  {
    assert "A" == ['A'] && "D" == ['D'];
    CapitalNotSpace('A');
    CleanSingle('A');
    CapitalNotSpace('D');
    CleanSingle('D');
    QuotedName();
    CleanWrapped("B, C");
  }

  /** Capital letters are not white space. */
  lemma CapitalNotSpace(c: char)
    requires 'A' <= c <= 'Z'
    ensures c != '"' && !IsSpace(c)
  {
  }

  /** The quoted name as a quote, the text `B, C` and a quote. */
  lemma QuotedName()
    ensures "\"B, C\"" == ['"'] + "B, C" + ['"']
  {
    assert "\"B, C\""[1..5] == "B, C";
  }

  /** A token in one pair of quotes, with no white space outside them, cleans to what is inside. */
  lemma CleanWrapped(x: string)
    ensures Clean(['"'] + x + ['"']) == x
  {
    var token := ['"'] + x + ['"'];
    assert token[0] == '"' && token[|token| - 1] == '"';
    assert TrimStart(token) == token;
    assert TrimEnd(token) == token;
    StripQuotesWrapped(x);
  }

  /** A one-character token other than a quote or white space is its own name. */
  lemma CleanSingle(c: char)
    requires c != '"' && !IsSpace(c)
    ensures Clean([c]) == [c]
  {
    assert !IsSpace(c);
    assert TrimStart([c]) == [c];
    assert TrimEnd([c]) == [c];
    assert StripQuotes([c]) == [c];
  }
}
