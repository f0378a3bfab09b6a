/**
 * The line-based tokeniser `parseCSV` of scripts/update-candidates.js.
 *
 * The text is split on every line feed. The first line is split on every comma
 * and each piece becomes a header. Every later line that is not blank is cut
 * into values by the regular expression `/(".*?"|[^,]+)(?=\s*,|\s*$)/g`, and the
 * value at position `i` is stored under the header at position `i`. Headers and
 * values are trimmed and lose at most one leading and one trailing double quote.
 * A doubled quote inside a quoted field is NOT unescaped.
 */
module Csv {
  import opened Wrappers
  import opened Seqs
  import opened Text

  /** A parsed data line: header text to cell text (a JavaScript object used as a dictionary). */
  type Row = map<string, string>

  /** `.replace(/^"|"$/g, '')`: drop one leading and one trailing double quote, if present. */
  function StripQuotes(s: string): (r: string)
    ensures |s| == 0 ==> r == s
    ensures |s| > 0 && s[0] != '"' && s[|s| - 1] != '"' ==> r == s
    ensures |s| >= 2 && s[0] == '"' && s[|s| - 1] == '"' ==> r == s[1..|s| - 1]
    ensures |s| >= 1 && s[0] == '"' && (|s| == 1 || s[|s| - 1] != '"') ==> r == s[1..]
    ensures |s| >= 2 && s[0] != '"' && s[|s| - 1] == '"' ==> r == s[..|s| - 1]
  {
    var t := if |s| > 0 && s[0] == '"' then s[1..] else s;
    if |t| > 0 && t[|t| - 1] == '"' then t[..|t| - 1] else t
  }

  /** `value.trim().replace(/^"|"$/g, '')`, applied to every header and every value. */
  function Clean(s: string): string {
    StripQuotes(Trim(s))
  }

  /** Cleaning only removes characters. */
  lemma CleanAvoids(s: string, c: char)
    requires c !in s
    ensures c !in Clean(s)
  {
    TrimAvoids(s, c);
    var t := Trim(s);
    var u := if |t| > 0 && t[0] == '"' then t[1..] else t;
    SliceAvoids(t, |t| - |u|, |t|, c);
    SliceAvoids(u, 0, if |u| > 0 && u[|u| - 1] == '"' then |u| - 1 else |u|, c);
  }

  /** The characters `.` refuses to match (the ASCII line terminators). */
  predicate IsLineTerminator(c: char) {
    c == '\n' || c == '\r'
  }

  /** The lookahead `(?=\s*,|\s*$)`: only white space stands between here and a comma or the end. */
  predicate FieldEnds(rest: string) {
    var u := TrimStart(rest);
    |u| == 0 || u[0] == ','
  }

  /** A quote at `k` that the lookahead accepts: the quoted alternative may stop here. */
  predicate ClosesAt(s: string, k: nat)
    requires k < |s|
  {
    s[k] == '"' && FieldEnds(s[k + 1..])
  }

  /** No line terminator in `s[from..to]`, so `.*?` can reach `to`. */
  predicate Reachable(s: string, from: nat, to: nat)
    requires from <= to <= |s|
  {
    forall t :: from <= t < to ==> !IsLineTerminator(s[t])
  }

  /**
   * `r` is where the lazy alternative `".*?"` closes when it scans from `from`:
   * the first position where the field may close, provided no line terminator
   * comes before it; `None` when every such position lies past a line terminator.
   */
  predicate QuoteCloses(s: string, from: nat, r: Option<nat>)
    requires from <= |s|
  {
    && (r.Some? ==> from <= r.value < |s| && ClosesAt(s, r.value) && Reachable(s, from, r.value))
    && (r.Some? ==> forall k :: from <= k < r.value ==> !ClosesAt(s, k))
    && (r.None? ==> forall k :: from <= k < |s| && ClosesAt(s, k) ==> !Reachable(s, from, k))
  }

  /** Scanning from one position further back past a character that neither ends the line nor closes. */
  lemma QuoteClosesStep(s: string, from: nat, r: Option<nat>)
    requires from < |s| && !IsLineTerminator(s[from]) && !ClosesAt(s, from)
    requires QuoteCloses(s, from + 1, r)
    ensures QuoteCloses(s, from, r)
  {
    if r.None? {
      forall k | from <= k < |s| && ClosesAt(s, k)
        ensures !Reachable(s, from, k)
      {
        assert !Reachable(s, from + 1, k);
      }
    }
  }

  /** A line terminator blocks every later closing quote. */
  lemma QuoteBlocked(s: string, from: nat)
    requires from < |s| && IsLineTerminator(s[from])
    ensures QuoteCloses(s, from, None)
  {
    assert forall k :: from < k <= |s| ==> !Reachable(s, from, k);
  }

  /**
   * The lazy alternative `".*?"` started by the quote at position 0: the first
   * position `q >= from` where the field may close, provided no line terminator
   * comes before it.
   */
  function CloseQuote(s: string, from: nat): (r: Option<nat>)
    requires from <= |s|
    ensures QuoteCloses(s, from, r)
    decreases |s| - from
  {
    if from == |s| then None
    else if IsLineTerminator(s[from]) then
      QuoteBlocked(s, from);
      None
    else if ClosesAt(s, from) then Some(from)
    else
      var r := CloseQuote(s, from + 1);
      QuoteClosesStep(s, from, r);
      r
  }

  /** The greedy alternative `[^,]+`: the end of the run of non-commas at the front of `s`. */
  function RunEnd(s: string): (e: nat)
    ensures e <= |s| && (e == |s| || s[e] == ',')
    ensures forall k :: 0 <= k < e ==> s[k] != ','
    decreases |s|
  {
    if |s| == 0 || s[0] == ',' then 0 else 1 + RunEnd(s[1..])
  }

  /**
   * All matches of `/(".*?"|[^,]+)(?=\s*,|\s*$)/g` in `s`, left to right.
   * At a quote the quoted alternative is tried first; otherwise (and when it
   * fails) a non-comma starts the longest run of non-commas; a comma that
   * starts no match is skipped.
   */
  function Tokens(s: string): (r: seq<string>)
    ensures forall i :: 0 <= i < |r| ==> |r[i]| > 0
    decreases |s|
  {
    if |s| == 0 then []
    else if s[0] == '"' && CloseQuote(s, 1).Some? then
      var q := CloseQuote(s, 1).value;
      [s[..q + 1]] + Tokens(s[q + 1..])
    else if s[0] != ',' then
      var e := RunEnd(s);
      [s[..e]] + Tokens(s[e..])
    else
      Tokens(s[1..])
  }

  /** The values of a line that lacks `c` lack `c` too. */
  lemma {:induction false} TokensAvoid(s: string, c: char)
    requires c !in s
    ensures forall i :: 0 <= i < |Tokens(s)| ==> c !in Tokens(s)[i]
    decreases |s|
  {
    if |s| == 0 {
    } else if s[0] == '"' && CloseQuote(s, 1).Some? {
      var q := CloseQuote(s, 1).value;
      SliceAvoids(s, 0, q + 1, c);
      SliceAvoids(s, q + 1, |s|, c);
      TokensAvoid(s[q + 1..], c);
    } else if s[0] != ',' {
      var e := RunEnd(s);
      SliceAvoids(s, 0, e, c);
      SliceAvoids(s, e, |s|, c);
      TokensAvoid(s[e..], c);
    } else {
      SliceAvoids(s, 1, |s|, c);
      TokensAvoid(s[1..], c);
    }
  }

  /** `headers[index]` used as a property name: past the end it is `undefined`, which names the key "undefined". */
  function HeaderAt(headers: seq<string>, i: nat): string {
    if i < |headers| then headers[i] else "undefined"
  }

  /** The last position below `n` whose header is `k`: the write that survives in the row. */
  function LastWrite(headers: seq<string>, n: nat, k: string): (r: Option<nat>)
    ensures r.Some? ==> r.value < n && HeaderAt(headers, r.value) == k
    ensures r.Some? ==> forall j :: r.value < j < n ==> HeaderAt(headers, j) != k
    ensures r.None? ==> forall j :: 0 <= j < n ==> HeaderAt(headers, j) != k
  {
    if n == 0 then None
    else if HeaderAt(headers, n - 1) == k then Some(n - 1)
    else LastWrite(headers, n - 1, k)
  }

  /**
   * The row built by `values.forEach((value, index) => row[headers[index]] = value)`.
   * A key is present exactly when some position stores under it, and it holds the
   * value of the LAST such position.
   */
  function RowOf(headers: seq<string>, values: seq<string>): (row: Row)
    ensures forall k :: k in row <==> LastWrite(headers, |values|, k).Some?
    ensures forall k :: k in row ==> row[k] == values[LastWrite(headers, |values|, k).value]
    decreases |values|
  {
    if |values| == 0 then map[]
    else
      var last := |values| - 1;
      RowOf(headers, values[..last])[HeaderAt(headers, last) := values[last]]
  }

  /** `!line.trim()`: the line is empty or white space only. */
  predicate IsBlank(line: string) {
    Trim(line) == ""
  }

  /** The row of one data line. */
  function LineRow(headers: seq<string>, line: string): Row {
    RowOf(headers, Map(Tokens(line), Clean))
  }

  /** `line => LineRow(headers, line)`. */
  function RowMaker(headers: seq<string>): string -> Row {
    line => LineRow(headers, line)
  }

  predicate NotBlank(line: string) {
    !IsBlank(line)
  }

  /** The headers: the first line split on every comma, each piece cleaned. */
  function Headers(text: string): (headers: seq<string>)
    ensures forall i :: 0 <= i < |headers| ==> ',' !in headers[i] && '\n' !in headers[i]
  {
    var lines := Split(text, '\n');
    var pieces := Split(lines[0], ',');
    var headers := Map(pieces, Clean);
    assert '\n' !in lines[0] by {
      assert lines[0] == Split(text, '\n')[0];
    }
    SplitAvoids(lines[0], ',', '\n');
    forall i | 0 <= i < |headers|
      ensures ',' !in headers[i] && '\n' !in headers[i]
    {
      CleanAvoids(pieces[i], ',');
      CleanAvoids(pieces[i], '\n');
    }
    headers
  }

  /** The lines after the header line that are not blank, in order. */
  function DataLines(text: string): seq<string> {
    Filter(Split(text, '\n')[1..], NotBlank)
  }

  /** `parseCSV(csvText)`: one row per non-blank data line, in line order. */
  function ParseCsv(text: string): (rows: seq<Row>)
    ensures |rows| == |DataLines(text)|
  {
    Map(DataLines(text), RowMaker(Headers(text)))
  }

  // ---------------------------------------------------------------------------
  // Facts about the tokeniser
  // ---------------------------------------------------------------------------

  predicate NonEmpty(s: string) {
    |s| > 0
  }

  /** A comma that starts no match is skipped. */
  lemma TokensSkipComma(t: string)
    ensures Tokens([','] + t) == Tokens(t)
  {
    assert ([','] + t)[1..] == t;
  }

  /** The step of `TokensWithoutQuotes` for a line that starts with a comma. */
  lemma TokensWithoutQuotesComma(t: string)
    requires Tokens(t) == Filter(Split(t, ','), NonEmpty)
    ensures Tokens([','] + t) == Filter(Split([','] + t, ','), NonEmpty)
  {
    TokensSkipComma(t);
    SplitConsSeparator(t, ',');
    FilterCons("", Split(t, ','), NonEmpty);
  }

  /** The step of `TokensWithoutQuotes` for a last field. */
  lemma TokensWithoutQuotesLast(f: string)
    requires |f| > 0 && ',' !in f && '"' !in f
    ensures Tokens(f) == Filter(Split(f, ','), NonEmpty)
  {
    assert f[0] in f;
    UnquotedFieldIsOneToken(f, |f|);
    assert f[..|f|] == f && f[|f|..] == [];
    SplitNoSeparator(f, ',');
    FilterCons(f, [], NonEmpty);
  }

  /** The step of `TokensWithoutQuotes` for a field followed by a comma. */
  lemma TokensWithoutQuotesField(f: string, tail: string)
    requires |f| > 0 && ',' !in f && '"' !in f
    requires Tokens(tail) == Filter(Split(tail, ','), NonEmpty)
    ensures Tokens(f + [','] + tail) == Filter(Split(f + [','] + tail, ','), NonEmpty)
  {
    var s := f + [','] + tail;
    var e := |f|;
    assert s[..e] == f && s[e..] == [','] + tail;
    assert s[0] == f[0] && f[0] in f;
    UnquotedFieldIsOneToken(s, e);
    TokensSkipComma(tail);
    SplitAppend(f, tail, ',');
    SplitNoSeparator(f, ',');
    FilterCons(f, Split(tail, ','), NonEmpty);
  }

  /**
   * On a line without double quotes the values are exactly the non-empty
   * comma-separated pieces, in order: an empty field (`,,`) yields no value.
   */
  lemma {:induction false} TokensWithoutQuotes(s: string)
    requires '"' !in s
    ensures Tokens(s) == Filter(Split(s, ','), NonEmpty)
    decreases |s|
  {
    if |s| == 0 {
    } else if s[0] == ',' {
      var t := s[1..];
      assert s == [','] + t;
      assert forall d :: d in t ==> d in s;
      TokensWithoutQuotes(t);
      TokensWithoutQuotesComma(t);
    } else {
      var e := RunEnd(s);
      var f := s[..e];
      assert forall d :: d in f ==> d in s;
      if e == |s| {
        assert f == s;
        TokensWithoutQuotesLast(f);
      } else {
        var tail := s[e + 1..];
        assert s == f + [','] + tail;
        assert forall d :: d in tail ==> d in s;
        TokensWithoutQuotes(tail);
        TokensWithoutQuotesField(f, tail);
      }
    }
  }

  /**
   * A well-formed quoted field at the front of a line — no quote and no line
   * terminator inside, then a comma or the end after white space — is one value,
   * commas included.
   */
  lemma QuotedFieldIsOneToken(s: string, q: nat)
    requires 1 <= q < |s| && s[0] == '"' && s[q] == '"'
    requires forall k :: 1 <= k < q ==> s[k] != '"' && !IsLineTerminator(s[k])
    requires FieldEnds(s[q + 1..])
    ensures Tokens(s) == [s[..q + 1]] + Tokens(s[q + 1..])
  {
    assert ClosesAt(s, q) && Reachable(s, 1, q);
    assert CloseQuote(s, 1) == Some(q);
  }

  /** An unquoted run at the front of a line, ended by a comma or the end, is one value. */
  lemma UnquotedFieldIsOneToken(s: string, e: nat)
    requires 0 < e <= |s| && s[0] != '"'
    requires forall k :: 0 <= k < e ==> s[k] != ','
    requires e == |s| || s[e] == ','
    ensures Tokens(s) == [s[..e]] + Tokens(s[e..])
  {
    RunEndIs(s, e);
    assert s[0] != ',';
  }

  /** A run of non-commas ended by a comma or the end is the run `[^,]+` takes. */
  lemma {:induction false} RunEndIs(s: string, e: nat)
    requires e <= |s|
    requires forall k :: 0 <= k < e ==> s[k] != ','
    requires e == |s| || s[e] == ','
    ensures RunEnd(s) == e
    decreases e
  {
    if e > 0 {
      assert forall k :: 0 <= k < e - 1 ==> s[1..][k] == s[k + 1];
      RunEndIs(s[1..], e - 1);
    }
  }

  /**
   * A quoted field comes out as its inside, kept whole: commas and white space
   * inside stay, and a doubled quote inside is not unescaped.
   */
  lemma CleanQuotedField(f: string)
    ensures Clean("\"" + f + "\"") == f
  {
    var s := "\"" + f + "\"";
    TrimNoEdges(s);
    assert s[1..|s| - 1] == f;
  }

  /** Cleaning a value without quotes is trimming it. */
  lemma CleanWithoutQuotes(s: string)
    requires '"' !in s
    ensures Clean(s) == Trim(s)
  {
    var t := Trim(s);
    if |t| > 0 {
      assert t[0] in t && t[|t| - 1] in t;
    }
  }

  /**
   * On a line without double quotes, the row maps the header at position `i` to
   * the `i`-th non-empty comma-separated piece, trimmed (later duplicates win).
   */
  lemma LineRowWithoutQuotes(headers: seq<string>, line: string)
    requires '"' !in line
    ensures LineRow(headers, line) == RowOf(headers, Map(Filter(Split(line, ','), NonEmpty), Trim))
  {
    TokensWithoutQuotes(line);
    CleanIsTrimWithoutQuotes(line);
  }

  /** On a line without double quotes, cleaning each value is trimming it. */
  lemma CleanIsTrimWithoutQuotes(line: string)
    requires '"' !in line
    ensures Map(Tokens(line), Clean) == Map(Tokens(line), Trim)
  {
    var toks := Tokens(line);
    TokensAvoid(line, '"');
    forall i | 0 <= i < |toks|
      ensures Clean(toks[i]) == Trim(toks[i])
    {
      CleanWithoutQuotes(toks[i]);
    }
  }

  // ---------------------------------------------------------------------------
  // Facts about the rows
  // ---------------------------------------------------------------------------

  /**
   * Appending one more line to the text appends at most one row at the end and
   * changes nothing before it: rows come out in line order, and a blank line
   * produces no row.
   */
  lemma ParseCsvAppendLine(text: string, line: string)
    requires '\n' !in line
    ensures ParseCsv(text + "\n" + line) ==
              ParseCsv(text) + (if IsBlank(line) then [] else [LineRow(Headers(text), line)])
  {
    var whole := text + "\n" + line;
    LinesAppend(text, line);
    var lines := Split(text, '\n');
    assert Headers(whole) == Headers(text) by {
      assert Split(whole, '\n')[0] == lines[0];
    }
    assert DataLines(whole) == DataLines(text) + Filter([line], NotBlank) by {
      assert Split(whole, '\n')[1..] == lines[1..] + [line];
      FilterAppend(lines[1..], [line], NotBlank);
    }
    var f := RowMaker(Headers(text));
    MapAppend(DataLines(text), Filter([line], NotBlank), f);
    assert Map(Filter([line], NotBlank), f) == if IsBlank(line) then [] else [LineRow(Headers(text), line)];
  }

  /** The lines of a text with one more line appended. */
  lemma LinesAppend(text: string, line: string)
    requires '\n' !in line
    ensures Split(text + "\n" + line, '\n') == Split(text, '\n') + [line]
  {
    assert text + "\n" + line == text + ['\n'] + line;
    SplitAppend(text, line, '\n');
    SplitNoSeparator(line, '\n');
  }

  /** Every row's keys avoid commas and line feeds, and every value avoids line feeds. */
  ghost predicate WellFormedRow(row: Row) {
    forall k :: k in row ==> ',' !in k && '\n' !in k && '\n' !in row[k]
  }

  /** A row built from comma- and line-feed-free headers and line-feed-free values is well formed. */
  lemma RowOfWellFormed(headers: seq<string>, values: seq<string>)
    requires forall i :: 0 <= i < |headers| ==> ',' !in headers[i] && '\n' !in headers[i]
    requires forall i :: 0 <= i < |values| ==> '\n' !in values[i]
    ensures WellFormedRow(RowOf(headers, values))
  {
    var row := RowOf(headers, values);
    assert ',' !in "undefined" && '\n' !in "undefined";
    forall k | k in row
      ensures ',' !in k && '\n' !in k && '\n' !in row[k]
    {
      var last := LastWrite(headers, |values|, k).value;
      assert HeaderAt(headers, last) == k;
    }
  }

  lemma LineRowWellFormed(headers: seq<string>, line: string)
    requires forall i :: 0 <= i < |headers| ==> ',' !in headers[i] && '\n' !in headers[i]
    requires '\n' !in line
    ensures WellFormedRow(LineRow(headers, line))
  {
    var toks := Tokens(line);
    TokensAvoid(line, '\n');
    forall i | 0 <= i < |toks|
      ensures '\n' !in Clean(toks[i])
    {
      CleanAvoids(toks[i], '\n');
    }
    RowOfWellFormed(headers, Map(toks, Clean));
  }

  /**
   * No parsed key contains a comma or a line feed (the header line was split on
   * both), and no parsed value contains a line feed (the text was split on it).
   */
  lemma ParseCsvWellFormed(text: string)
    ensures forall i :: 0 <= i < |ParseCsv(text)| ==> WellFormedRow(ParseCsv(text)[i])
  {
    var lines := DataLines(text);
    forall i | 0 <= i < |lines|
      ensures WellFormedRow(ParseCsv(text)[i])
    {
      assert lines[i] in Split(text, '\n');
      LineRowWellFormed(Headers(text), lines[i]);
    }
  }
}
