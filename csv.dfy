/** The CSV import of the landing page (`processFile`, src/app/page.tsx:
    155-226): the text is trimmed and split into lines, the first line gives
    the column names, every other line that holds a non-empty value becomes a
    row keyed by those names, and missing optional columns default to "". */
module Csv {
  import opened Text
  import opened CsvFields

  /** One student record, keyed by column name. */
  type Row = map<string, string>

  datatype CsvData = CsvData(headers: seq<string>, rows: seq<Row>)

  /** The three messages the page shows when an import fails. */
  datatype ParseError =
    | EmptyFile       // the text is only white space
    | InvalidHeaders  // no column name survives normalisation
    | NoDataRows      // no line after the first holds a value

  /** `Ignored` is the empty text: the reader's `if (text)` does nothing. */
  datatype Outcome = Ignored | Failed(error: ParseError) | Parsed(data: CsvData)

  predicate NoDelimiter(s: string) {
    forall i :: 0 <= i < |s| ==> !IsDelimiter(s[i])
  }

  /** Position of the first `,` or `;` of `s`, or `|s|`. */
  function DelimiterIndex(s: string): (k: nat)
    ensures k <= |s| && NoDelimiter(s[..k])
    ensures k < |s| ==> IsDelimiter(s[k])
  {
    if s == [] || IsDelimiter(s[0]) then 0 else 1 + DelimiterIndex(s[1..])
  }

  /** `s.split(/[,;]/)`: splits on every delimiter, quotes or not. */
  function SplitOnDelimiters(s: string): (parts: seq<string>)
    ensures |parts| >= 1
    ensures forall i :: 0 <= i < |parts| ==> NoDelimiter(parts[i])
    decreases |s|
  {
    var k := DelimiterIndex(s);
    if k == |s| then [s] else [s[..k]] + SplitOnDelimiters(s[k + 1..])
  }

  lemma {:induction false} DelimiterIndexAfter(a: string, b: string)
    requires NoDelimiter(a)
    ensures DelimiterIndex(a + b) == |a| + DelimiterIndex(b)
    decreases |a|
  {
    if a != [] {
      assert (a + b)[1..] == a[1..] + b;
      DelimiterIndexAfter(a[1..], b);
    } else {
      assert a + b == b;
    }
  }

  /** A part, a delimiter and the rest split into that part and the parts
      of the rest. */
  lemma SplitDelimitedHead(part: string, d: char, rest: string)
    requires IsDelimiter(d) && NoDelimiter(part)
    ensures SplitOnDelimiters(part + [d] + rest) == [part] + SplitOnDelimiters(rest)
  {
    var s := part + [d] + rest;
    assert s == part + ([d] + rest);
    DelimiterIndexAfter(part, [d] + rest);
    assert s[..|part|] == part;
    assert s[|part| + 1..] == rest;
  }

  /** A text without delimiters is one part. */
  lemma SplitUndelimited(part: string)
    requires NoDelimiter(part)
    ensures SplitOnDelimiters(part) == [part]
  {
    assert part + [] == part;
    DelimiterIndexAfter(part, []);
  }

  /** Splitting undoes joining with one delimiter when no part holds one. */
  lemma {:induction false} SplitJoinDelimited(d: char, parts: seq<string>)
    requires IsDelimiter(d) && |parts| >= 1
    requires forall i :: 0 <= i < |parts| ==> NoDelimiter(parts[i])
    ensures SplitOnDelimiters(JoinWith([d], parts)) == parts
    decreases |parts|
  {
    if |parts| == 1 {
      SplitUndelimited(parts[0]);
    } else {
      var rest := JoinWith([d], parts[1..]);
      assert JoinWith([d], parts) == parts[0] + [d] + rest;
      SplitDelimitedHead(parts[0], d, rest);
      SplitJoinDelimited(d, parts[1..]);
      assert parts == [parts[0]] + parts[1..];
    }
  }

  /** A column name as the page normalises it: trimmed, one outer quote
      removed on each side, upper-cased (no second trim). */
  function NormalizeHeader(p: string): string {
    Upper(StripQuotes(Trim(p)))
  }

  /** A column name the import can produce. */
  predicate ValidHeader(h: string) {
    h != [] && Upper(h) == h && NoDelimiter(h)
  }

  lemma NormalizeHeaderValid(p: string)
    requires NoDelimiter(p) && NormalizeHeader(p) != ""
    ensures ValidHeader(NormalizeHeader(p))
  {
    var t := StripQuotes(Trim(p));
    TrimFacts(p);
    var h := Upper(t);
    UpperIdempotent(t);
    forall i | 0 <= i < |h| ensures !IsDelimiter(h[i]) {
      assert t[i] in Trim(p);
      var j :| 0 <= j < |Trim(p)| && Trim(p)[j] == t[i];
      assert Trim(p)[j] in p;
    }
  }

  /** The `map` then `filter` of the header line: normalise every part and
      keep the non-empty names, in order. */
  function NormalizeHeaders(parts: seq<string>): (hs: seq<string>)
    requires forall i :: 0 <= i < |parts| ==> NoDelimiter(parts[i])
    ensures |hs| <= |parts|
    ensures forall i :: 0 <= i < |hs| ==> ValidHeader(hs[i])
    ensures hs == [] <==> forall i :: 0 <= i < |parts| ==> NormalizeHeader(parts[i]) == ""
    decreases |parts|
  {
    if parts == [] then []
    else
      var h := NormalizeHeader(parts[0]);
      var rest := NormalizeHeaders(parts[1..]);
      if h == "" then rest
      else
        NormalizeHeaderValid(parts[0]);
        [h] + rest
  }

  /** The column names of a header line. */
  function ParseHeaders(line: string): seq<string> {
    NormalizeHeaders(SplitOnDelimiters(line))
  }

  /** A column name that the header line can carry between quotes and that
      normalisation gives back unchanged. */
  predicate PlainHeader(h: string) {
    ValidHeader(h) && Quotable(h)
  }

  lemma NormalizeQuoted(h: string)
    requires PlainHeader(h)
    ensures NormalizeHeader(Quoted(h)) == h
  {
    TrimOfTrimmed(Quoted(h));
  }

  /** Parts that all normalise to non-empty names yield exactly those names. */
  lemma {:induction false} NormalizeAllNonEmpty(parts: seq<string>, hs: seq<string>)
    requires forall i :: 0 <= i < |parts| ==> NoDelimiter(parts[i])
    requires |parts| == |hs|
    requires forall i :: 0 <= i < |parts| ==> NormalizeHeader(parts[i]) == hs[i] != ""
    ensures NormalizeHeaders(parts) == hs
    decreases |parts|
  {
    if parts != [] {
      NormalizeAllNonEmpty(parts[1..], hs[1..]);
      assert hs == [hs[0]] + hs[1..];
    }
  }

  lemma NormalizeQuotedAll(hs: seq<string>)
    requires forall i :: 0 <= i < |hs| ==> PlainHeader(hs[i])
    requires forall i :: 0 <= i < |QuoteAll(hs)| ==> NoDelimiter(QuoteAll(hs)[i])
    ensures NormalizeHeaders(QuoteAll(hs)) == hs
  {
    var q := QuoteAll(hs);
    forall i | 0 <= i < |q| ensures NormalizeHeader(q[i]) == hs[i] != "" {
      NormalizeQuoted(hs[i]);
    }
    NormalizeAllNonEmpty(q, hs);
  }

  lemma QuotedNoDelimiter(h: string)
    requires NoDelimiter(h)
    ensures NoDelimiter(Quoted(h))
  {
  }

  /** A header line written as quoted names joined by one delimiter is read
      back as exactly those names. */
  lemma HeaderRoundTrip(d: char, hs: seq<string>)
    requires IsDelimiter(d) && |hs| >= 1
    requires forall i :: 0 <= i < |hs| ==> PlainHeader(hs[i])
    ensures ParseHeaders(JoinWith([d], QuoteAll(hs))) == hs
  {
    var q := QuoteAll(hs);
    forall i | 0 <= i < |q| ensures NoDelimiter(q[i]) {
      QuotedNoDelimiter(hs[i]);
    }
    SplitJoinDelimited(d, q);
    NormalizeQuotedAll(hs);
  }

  /** `values[index] || ""`. */
  function ValueAt(values: seq<string>, i: nat): string {
    if i < |values| then values[i] else ""
  }

  /** No later column has the same name as column `i`. */
  predicate IsLastIndex(headers: seq<string>, i: nat)
    requires i < |headers|
  {
    forall j :: i < j < |headers| ==> headers[j] != headers[i]
  }

  /** The row for `values`, one column after the other. */
  function RowMap(headers: seq<string>, values: seq<string>): (row: Row)
    ensures row.Keys == set h | h in headers
    decreases |headers|
  {
    if headers == [] then map[]
    else
      var n := |headers| - 1;
      assert forall h :: h in headers <==> h in headers[..n] || h == headers[n];
      RowMap(headers[..n], values)[headers[n] := ValueAt(values, n)]
  }

  /** A column name that occurs more than once takes the value of its last
      occurrence. */
  lemma {:induction false} RowMapLast(headers: seq<string>, values: seq<string>, i: nat)
    requires i < |headers| && IsLastIndex(headers, i)
    ensures RowMap(headers, values)[headers[i]] == ValueAt(values, i)
    decreases |headers|
  {
    var n := |headers| - 1;
    if i < n {
      assert headers[..n][i] == headers[i];
      assert IsLastIndex(headers[..n], i);
      RowMapLast(headers[..n], values, i);
    }
  }

  /** The `forEach` over the column names that fills a row, later
      assignments overwriting earlier ones. */
  method BuildRow(headers: seq<string>, values: seq<string>) returns (row: Row)
    ensures row == RowMap(headers, values)
  {
    row := map[];
    for i := 0 to |headers|
      invariant row == RowMap(headers[..i], values)
    {
      assert headers[..i + 1][..i] == headers[..i];
      row := row[headers[i] := if i < |values| && values[i] != "" then values[i] else ""];
    }
    assert headers[..|headers|] == headers;
  }

  /** Gives `key` the value "" when the row lacks it; never overwrites. */
  function Fill(row: Row, key: string): (r: Row)
    ensures r.Keys == row.Keys + {key}
    ensures forall k :: k in row ==> r[k] == row[k]
    ensures key !in row ==> r[key] == ""
  {
    if key in row then row else row[key := ""]
  }

  /** The four defaults set while each row is built (page.tsx:199-202). */
  function FirstDefaults(row: Row): Row {
    Fill(Fill(Fill(Fill(row, "AMA_NOM"), "AMA_PRENOM"), "PAP"), "COMMENTAIRES")
  }

  /** The defaults set once the rows are known (page.tsx:212-222). */
  function Complete(row: Row): Row {
    Fill(Fill(Fill(row, "FUTURE_CLASSE"), "PAP"), "COMMENTAIRES")
  }

  const DefaultKeys: set<string> := {"AMA_NOM", "AMA_PRENOM", "PAP", "COMMENTAIRES", "FUTURE_CLASSE"}

  /** `values.some(val => val.length > 0)`. */
  predicate HasValue(values: seq<string>) {
    exists i :: 0 <= i < |values| && values[i] != ""
  }

  /** A data line that yields a row: not blank, and some value non-empty. */
  predicate KeepsLine(line: string) {
    Trim(line) != "" && HasValue(SplitFields(line))
  }

  /** The row a data line yields, if any. */
  function RowFor(headers: seq<string>, line: string): seq<Row> {
    if KeepsLine(line) then [FirstDefaults(RowMap(headers, SplitFields(line)))] else []
  }

  /** What a data row holds once complete: the column names and the default
      keys, each mapped to a trimmed value without a double quote. */
  predicate WellFormedRow(headers: seq<string>, r: Row) {
    r.Keys == (set h | h in headers) + DefaultKeys && CleanValues(r)
  }

  /** Every value of the row is trimmed and free of double quotes. */
  predicate CleanValues(r: Row) {
    forall k :: k in r ==> '"' !in r[k] && Trimmed(r[k])
  }

  /** Every key of `r` that `orig` lacks maps to "". */
  predicate NewKeysEmpty(orig: Row, r: Row) {
    forall k :: k in r && k !in orig ==> r[k] == ""
  }

  lemma FillNewKeysEmpty(orig: Row, row: Row, key: string)
    requires NewKeysEmpty(orig, row) && orig.Keys <= row.Keys
    ensures NewKeysEmpty(orig, Fill(row, key))
  {
  }

  lemma FirstDefaultsNewKeys(m: Row)
    ensures NewKeysEmpty(m, FirstDefaults(m))
  {
    var r1 := Fill(m, "AMA_NOM");
    FillNewKeysEmpty(m, m, "AMA_NOM");
    var r2 := Fill(r1, "AMA_PRENOM");
    FillNewKeysEmpty(m, r1, "AMA_PRENOM");
    var r3 := Fill(r2, "PAP");
    FillNewKeysEmpty(m, r2, "PAP");
    FillNewKeysEmpty(m, r3, "COMMENTAIRES");
  }

  lemma FillClean(row: Row, key: string)
    requires CleanValues(row)
    ensures CleanValues(Fill(row, key))
  {
  }

  lemma RowMapClean(headers: seq<string>, line: string)
    ensures CleanValues(RowMap(headers, SplitFields(line)))
  {
    var values := SplitFields(line);
    var m := RowMap(headers, values);
    FieldsClean(line);
    forall k | k in m ensures '"' !in m[k] && Trimmed(m[k]) {
      var i :| 0 <= i < |headers| && headers[i] == k;
      var j := LastIndexFrom(headers, i);
      RowMapLast(headers, values, j);
      if j < |values| {
        TrimFacts(values[j]);
      }
    }
  }

  lemma FirstDefaultsKeep(m: Row)
    ensures FirstDefaults(m).Keys == m.Keys + (DefaultKeys - {"FUTURE_CLASSE"})
    ensures forall k :: k in m ==> FirstDefaults(m)[k] == m[k]
    ensures NewKeysEmpty(m, FirstDefaults(m))
    ensures CleanValues(m) ==> CleanValues(FirstDefaults(m))
  {
    FirstDefaultsNewKeys(m);
    if CleanValues(m) {
      FillClean(m, "AMA_NOM");
      FillClean(Fill(m, "AMA_NOM"), "AMA_PRENOM");
      FillClean(Fill(Fill(m, "AMA_NOM"), "AMA_PRENOM"), "PAP");
      FillClean(Fill(Fill(Fill(m, "AMA_NOM"), "AMA_PRENOM"), "PAP"), "COMMENTAIRES");
    }
  }

  lemma CompleteKeep(r: Row)
    ensures Complete(r).Keys == r.Keys + {"FUTURE_CLASSE", "PAP", "COMMENTAIRES"}
    ensures CleanValues(r) ==> CleanValues(Complete(r))
  {
    if CleanValues(r) {
      FillClean(r, "FUTURE_CLASSE");
      FillClean(Fill(r, "FUTURE_CLASSE"), "PAP");
      FillClean(Fill(Fill(r, "FUTURE_CLASSE"), "PAP"), "COMMENTAIRES");
    }
  }

  /** The row of a kept line: every column at its last occurrence takes the
      line's value there, every other key is a default "", and once complete
      the row is well formed. */
  lemma RowForFacts(headers: seq<string>, line: string)
    requires KeepsLine(line)
    ensures RowFor(headers, line)[0].Keys == (set h | h in headers) + (DefaultKeys - {"FUTURE_CLASSE"})
    ensures forall i :: 0 <= i < |headers| && IsLastIndex(headers, i) ==>
      RowFor(headers, line)[0][headers[i]] == ValueAt(SplitFields(line), i)
    ensures forall k :: k in RowFor(headers, line)[0] && k !in headers ==> RowFor(headers, line)[0][k] == ""
    ensures WellFormedRow(headers, Complete(RowFor(headers, line)[0]))
  {
    var values := SplitFields(line);
    var m := RowMap(headers, values);
    var r := FirstDefaults(m);
    assert RowFor(headers, line)[0] == r;
    RowMapClean(headers, line);
    FirstDefaultsKeep(m);
    CompleteKeep(r);
    forall i | 0 <= i < |headers| && IsLastIndex(headers, i)
      ensures r[headers[i]] == ValueAt(values, i)
    {
      RowMapLast(headers, values, i);
    }
  }

  /** Some occurrence of `headers[i]` is its last one. */
  function LastIndexFrom(headers: seq<string>, i: nat): (j: nat)
    requires i < |headers|
    ensures i <= j < |headers| && headers[j] == headers[i] && IsLastIndex(headers, j)
    decreases |headers| - i
  {
    if exists j :: i < j < |headers| && headers[j] == headers[i] then
      var j :| i < j < |headers| && headers[j] == headers[i];
      LastIndexFrom(headers, j)
    else i
  }

  /** How many of `lines` yield a row. */
  function KeptCount(lines: seq<string>): (n: nat)
    ensures n <= |lines|
    decreases |lines|
  {
    if lines == [] then 0
    else KeptCount(lines[..|lines| - 1]) + (if KeepsLine(lines[|lines| - 1]) then 1 else 0)
  }

  /** The rows of the data lines, in order. */
  function DataRows(headers: seq<string>, lines: seq<string>): (rows: seq<Row>)
    ensures |rows| <= |lines|
    ensures rows == [] <==> forall i :: 0 <= i < |lines| ==> !KeepsLine(lines[i])
    ensures forall i :: 0 <= i < |rows| ==> WellFormedRow(headers, Complete(rows[i]))
    decreases |lines|
  {
    if lines == [] then []
    else
      var n := |lines| - 1;
      var prev := DataRows(headers, lines[..n]);
      assert forall i :: 0 <= i < n ==> lines[..n][i] == lines[i];
      if KeepsLine(lines[n]) then
        RowForFacts(headers, lines[n]);
        prev + RowFor(headers, lines[n])
      else prev
  }

  /** There is one row per kept data line. */
  lemma {:induction false} DataRowsCount(headers: seq<string>, lines: seq<string>)
    ensures |DataRows(headers, lines)| == KeptCount(lines)
    decreases |lines|
  {
    if lines != [] {
      DataRowsCount(headers, lines[..|lines| - 1]);
    }
  }

  function CompleteAll(rows: seq<Row>): (r: seq<Row>)
    ensures |r| == |rows| && forall i :: 0 <= i < |rows| ==> r[i] == Complete(rows[i])
  {
    seq(|rows|, i requires 0 <= i < |rows| => Complete(rows[i]))
  }

  /** The outcome of importing `text`, as the page computes it. */
  function Import(text: string): (o: Outcome)
    ensures o.Ignored? <==> text == ""
    ensures o == Failed(EmptyFile) <==> text != "" && AllSpace(text)
    ensures o.Parsed? ==>
      && o.data.headers != []
      && (forall i :: 0 <= i < |o.data.headers| ==> ValidHeader(o.data.headers[i]))
      && 1 <= |o.data.rows| < |SplitLines(Trim(text))|
      && (forall i :: 0 <= i < |o.data.rows| ==> WellFormedRow(o.data.headers, o.data.rows[i]))
  {
    if text == "" then Ignored
    else
      var lines := SplitLines(Trim(text));
      EmptyIffBlank(text);
      if |lines| == 0 || (|lines| == 1 && Trim(lines[0]) == "") then Failed(EmptyFile)
      else
        var headers := ParseHeaders(lines[0]);
        if headers == [] then Failed(InvalidHeaders)
        else
          var rows := DataRows(headers, lines[1..]);
          if rows == [] then Failed(NoDataRows)
          else Parsed(CsvData(headers, CompleteAll(rows)))
  }

  /** The page's emptiness test on the lines is the same as the text being
      all white space. */
  lemma EmptyIffBlank(text: string)
    ensures var lines := SplitLines(Trim(text));
      (|lines| == 1 && Trim(lines[0]) == "") <==> AllSpace(text)
  {
    var t := Trim(text);
    TrimFacts(text);
    var lines := SplitLines(t);
    if |lines| == 1 {
      assert lines[0] == t;
      TrimIdempotent(text);
    }
  }

  /** `row[key] = row[key] || ""` fills a missing key and keeps the rest. */
  lemma FillIsOrEmpty(row: Row, key: string)
    ensures row[key := if key in row && row[key] != "" then row[key] else ""] == Fill(row, key)
  {
  }

  lemma DataRowsSnoc(headers: seq<string>, lines: seq<string>, i: nat)
    requires 1 <= i < |lines|
    ensures DataRows(headers, lines[1..i + 1]) == DataRows(headers, lines[1..i]) + RowFor(headers, lines[i])
  {
    assert lines[1..i + 1][..i - 1] == lines[1..i];
    assert lines[1..i + 1][i - 1] == lines[i];
  }

  /** The body of the line loop for one data line: skip it when blank, else
      split it, and build its row when some value is non-empty. */
  method ReadLine(headers: seq<string>, line: string) returns (kept: seq<Row>)
    ensures kept == RowFor(headers, line)
  {
    if Trim(line) == "" {
      return [];
    }
    var values := ParseFields(line);
    if |values| > 0 && HasValue(values) {
      var row := BuildRow(headers, values);
      ghost var built := row;
      row := row["AMA_NOM" := if "AMA_NOM" in row && row["AMA_NOM"] != "" then row["AMA_NOM"] else ""];
      FillIsOrEmpty(built, "AMA_NOM");
      ghost var r1 := row;
      row := row["AMA_PRENOM" := if "AMA_PRENOM" in row && row["AMA_PRENOM"] != "" then row["AMA_PRENOM"] else ""];
      FillIsOrEmpty(r1, "AMA_PRENOM");
      ghost var r2 := row;
      row := row["PAP" := if "PAP" in row && row["PAP"] != "" then row["PAP"] else ""];
      FillIsOrEmpty(r2, "PAP");
      ghost var r3 := row;
      row := row["COMMENTAIRES" := if "COMMENTAIRES" in row && row["COMMENTAIRES"] != "" then row["COMMENTAIRES"] else ""];
      FillIsOrEmpty(r3, "COMMENTAIRES");
      kept := [row];
    } else {
      kept := [];
    }
  }

  /** The line loop: every line after the header line in turn, pushing the
      rows it yields. */
  method CollectRows(headers: seq<string>, lines: seq<string>) returns (rows: seq<Row>)
    requires |lines| >= 1
    ensures rows == DataRows(headers, lines[1..])
  {
    rows := [];
    for i := 1 to |lines|
      invariant rows == DataRows(headers, lines[1..i])
    {
      DataRowsSnoc(headers, lines, i);
      var kept := ReadLine(headers, lines[i]);
      rows := rows + kept;
    }
    assert lines[1..|lines|] == lines[1..];
  }

  /** The second pass, which sets the late defaults on every row in place. */
  method CompleteRows(rows: seq<Row>) returns (done: seq<Row>)
    ensures done == CompleteAll(rows)
  {
    done := rows;
    for j := 0 to |done|
      invariant |done| == |rows|
      invariant forall k :: 0 <= k < j ==> done[k] == Complete(rows[k])
      invariant forall k :: j <= k < |done| ==> done[k] == rows[k]
    {
      var r := done[j];
      if "FUTURE_CLASSE" !in r {
        r := r["FUTURE_CLASSE" := ""];
      }
      if "PAP" !in r {
        r := r["PAP" := ""];
      }
      if "COMMENTAIRES" !in r {
        r := r["COMMENTAIRES" := ""];
      }
      done := done[j := r];
    }
  }

  /** `processFile` from the moment the text is read. */
  method ParseCsv(text: string) returns (o: Outcome)
    ensures o == Import(text)
  {
    if text == "" {
      return Ignored;
    }
    var lines := SplitLines(Trim(text));
    if |lines| == 0 || (|lines| == 1 && Trim(lines[0]) == "") {
      return Failed(EmptyFile);
    }
    var headers := ParseHeaders(lines[0]);
    if headers == [] {
      return Failed(InvalidHeaders);
    }
    var rows := CollectRows(headers, lines);
    if |rows| == 0 {
      return Failed(NoDataRows);
    }
    rows := CompleteRows(rows);
    o := Parsed(CsvData(headers, rows));
  }
}
