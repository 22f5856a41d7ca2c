/** The empty template the landing page offers for download
    (`handleDownloadEmptyCsv`, src/app/page.tsx:273-274): the column names
    quoted with inner double quotes doubled, joined by commas, ended by CRLF,
    and what the importer makes of that file. */
module Template {
  import opened Text
  import opened CsvFields
  import opened Csv

  /** The column names of the template (page.tsx:34-39). */
  const CsvHeaders: seq<string> := [
    "NOM", "PRENOM", "DATE", "SEXE", "CLASSE",
    "OPTION1", "OPTION2", "OPTION3", "NIVEAU",
    "NPMA_NOM", "NPMA_PRENOM", "AMA_NOM", "AMA_PRENOM",
    "CODE_VIGILANCE", "PAP", "COMMENTAIRES", "FUTURE_CLASSE"]

  /** `h.replace(/"/g, '""')`. */
  function Escape(h: string): string {
    if h == [] then []
    else (if h[0] == '"' then "\"\"" else [h[0]]) + Escape(h[1..])
  }

  /** Reads a doubled double quote back as one: a left inverse of `Escape`,
      which the importer itself never applies (see `EscapedHeaderRead`). */
  function Unescape(s: string): string
    decreases |s|
  {
    if |s| >= 2 && s[0] == '"' && s[1] == '"' then "\"" + Unescape(s[2..])
    else if s == [] then []
    else [s[0]] + Unescape(s[1..])
  }

  /** Escaping leaves a name without double quotes unchanged. */
  lemma {:induction false} EscapePlain(h: string)
    requires '"' !in h
    ensures Escape(h) == h
  {
    if h != [] {
      EscapePlain(h[1..]);
      assert h == [h[0]] + h[1..];
    }
  }

  /** Escaping is injective: no two names give the same escaped text. */
  lemma {:induction false} UnescapeEscape(h: string)
    ensures Unescape(Escape(h)) == h
  {
    if h != [] {
      UnescapeEscape(h[1..]);
      var e := Escape(h);
      if h[0] == '"' {
        assert e == "\"\"" + Escape(h[1..]);
        assert e[2..] == Escape(h[1..]);
      } else if |e| >= 2 && e[1] == '"' {
        assert e == [h[0]] + Escape(h[1..]);
        assert e[1..] == Escape(h[1..]);
      } else {
        assert e == [h[0]] + Escape(h[1..]);
        assert e[1..] == Escape(h[1..]);
      }
      assert h == [h[0]] + h[1..];
    }
  }

  /** Escaping only adds double quotes, so it never shortens a name nor
      introduces a delimiter. */
  lemma {:induction false} EscapeFacts(h: string)
    ensures |Escape(h)| >= |h|
    ensures NoDelimiter(h) ==> NoDelimiter(Escape(h))
  {
    if h != [] {
      EscapeFacts(h[1..]);
      var e := Escape(h);
      var c := if h[0] == '"' then "\"\"" else [h[0]];
      assert e == c + Escape(h[1..]);
      if NoDelimiter(h) {
        assert NoDelimiter(h[1..]) by {
          forall i | 0 <= i < |h[1..]| ensures !IsDelimiter(h[1..][i]) {
            assert h[1..][i] == h[i + 1];
          }
        }
        forall i | 0 <= i < |e| ensures !IsDelimiter(e[i]) {
          if i >= |c| {
            assert e[i] == Escape(h[1..])[i - |c|];
          }
        }
      }
    }
  }

  /** A header line without delimiters is one part: it yields the one
      name that part normalises to. */
  lemma SingleHeader(q: string)
    requires NoDelimiter(q) && NormalizeHeader(q) != ""
    ensures ParseHeaders(q) == [NormalizeHeader(q)]
  {
    assert DelimiterIndex(q) == |q|;
    assert SplitOnDelimiters(q) == [q];
    assert [q][1..] == [];
  }

  /** A quoted text is already trimmed, and losing its outer quotes gives
      the text back. */
  lemma StripQuoted(e: string)
    ensures Trim(Quoted(e)) == Quoted(e)
    ensures StripQuotes(Quoted(e)) == e
  {
    var q := Quoted(e);
    assert Trimmed(q) by {
      assert q[0] == '"' && q[|q| - 1] == '"';
    }
    TrimOfTrimmed(q);
    assert q[1..] == e + ['"'];
  }

  /** A column name that the header line carries quoted and escaped is read
      as its escaped form upper-cased: the importer strips the outer quotes
      but keeps the inner ones doubled. */
  lemma EscapedHeaderRead(h: string)
    requires NoDelimiter(h) && h != []
    ensures ParseHeaders(Quoted(Escape(h))) == [Upper(Escape(h))]
  {
    var e := Escape(h);
    EscapeFacts(h);
    QuotedNoDelimiter(e);
    StripQuoted(e);
    SingleHeader(Quoted(e));
  }

  /** So a name holding a double quote is not read back as itself: `A"B`
      comes back as `A""B`. */
  lemma QuoteInNameDoubled()
    ensures ParseHeaders(Quoted(Escape("A\"B"))) == ["A\"\"B"]
  {
    var h := "A\"B";
    assert NoDelimiter(h) by {
      assert forall i :: 0 <= i < |h| ==> h[i] in {'A', '"', 'B'};
    }
    EscapedHeaderRead(h);
    assert Escape(h) == "A\"\"B" by {
      assert Escape(h) == "A" + Escape("\"B");
      assert Escape("\"B") == "\"\"" + Escape("B");
      assert Escape("B") == "B" + Escape([]);
    }
    assert Upper("A\"\"B") == "A\"\"B";
  }

  function EscapeAll(hs: seq<string>): (r: seq<string>)
    ensures |r| == |hs| && forall i :: 0 <= i < |hs| ==> r[i] == Escape(hs[i])
  {
    seq(|hs|, i requires 0 <= i < |hs| => Escape(hs[i]))
  }

  /** The template text for the column names `hs`. */
  function TemplateText(hs: seq<string>): string {
    JoinWith(",", QuoteAll(EscapeAll(hs))) + "\r\n"
  }

  /** The characters of the template's column names. */
  predicate IsNameChar(c: char) {
    ('A' <= c <= 'Z') || ('0' <= c <= '9') || c == '_'
  }

  predicate IsName(h: string) {
    h != [] && forall i :: 0 <= i < |h| ==> IsNameChar(h[i])
  }

  /** A name of capitals, digits and underscores is a valid column name
      that can be written between quotes. */
  lemma NamePlain(h: string)
    requires IsName(h)
    ensures PlainHeader(h) && NoLineBreak(h)
  {
    forall i | 0 <= i < |h| ensures Upper(h)[i] == h[i] {
    }
  }

  lemma CsvHeadersNames()
    ensures forall i :: 0 <= i < |CsvHeaders| ==> IsName(CsvHeaders[i])
  {
  }

  /** Quoted values joined by a separator start and end with a quote. */
  lemma {:induction false} QuotedJoinEnds(sep: string, fs: seq<string>)
    requires |fs| >= 1
    ensures var s := JoinWith(sep, QuoteAll(fs));
      |s| >= 2 && s[0] == '"' && s[|s| - 1] == '"'
  {
    if |fs| > 1 {
      QuotedJoinEnds(sep, fs[1..]);
      assert QuoteAll(fs)[1..] == QuoteAll(fs[1..]);
    }
  }

  /** Joining lines without line breaks by a separator without line breaks
      gives one line. */
  lemma {:induction false} JoinNoLineBreak(sep: string, parts: seq<string>)
    requires NoLineBreak(sep)
    requires forall i :: 0 <= i < |parts| ==> NoLineBreak(parts[i])
    ensures NoLineBreak(JoinWith(sep, parts))
  {
    if |parts| > 1 {
      JoinNoLineBreak(sep, parts[1..]);
      var r := JoinWith(sep, parts[1..]);
      var s := parts[0] + sep + r;
      forall i | 0 <= i < |s| ensures !IsLineBreak(s[i]) {
        if i < |parts[0]| {
          assert s[i] == parts[0][i];
        } else if i < |parts[0]| + |sep| {
          assert s[i] == sep[i - |parts[0]|];
        } else {
          assert s[i] == r[i - |parts[0]| - |sep|];
        }
      }
    }
  }

  lemma QuotedNoLineBreak(f: string)
    requires NoLineBreak(f)
    ensures NoLineBreak(Quoted(f))
  {
    var q := Quoted(f);
    forall j | 0 <= j < |q| ensures !IsLineBreak(q[j]) {
      if 0 < j < |q| - 1 {
        assert q[j] == f[j - 1];
      }
    }
  }

  /** Quoted values without line breaks, joined by commas, make one line
      that starts and ends with a quote. */
  lemma QuotedLine(fs: seq<string>)
    requires |fs| >= 1
    requires forall i :: 0 <= i < |fs| ==> NoLineBreak(fs[i])
    ensures var s := JoinWith(",", QuoteAll(fs));
      NoLineBreak(s) && s != [] && s[0] == '"' && s[|s| - 1] == '"'
  {
    QuotedJoinEnds(",", fs);
    var q := QuoteAll(fs);
    forall i | 0 <= i < |q| ensures NoLineBreak(q[i]) {
      QuotedNoLineBreak(fs[i]);
    }
    JoinNoLineBreak(",", q);
  }

  /** Trimming drops the CRLF that ends a line and nothing else. */
  lemma TrimCrlf(line: string)
    requires line != [] && Trimmed(line)
    ensures Trim(line + "\r\n") == line
  {
    var s := line + "\r\n";
    assert s[0] == line[0];
    assert TrimStart(s) == s;
    var t := line + "\r";
    assert s[..|s| - 1] == t && s[|s| - 1] == '\n';
    assert TrimEnd(s) == TrimEnd(t);
    assert t[..|t| - 1] == line && t[|t| - 1] == '\r';
    assert TrimEnd(t) == TrimEnd(line);
    assert TrimEnd(line) == line;
  }

  /** The header line of the template is the quoted names joined by commas,
      and reading it gives the names back. */
  lemma {:induction false} TemplateHeaderLine(hs: seq<string>)
    requires |hs| >= 1 && forall i :: 0 <= i < |hs| ==> IsName(hs[i])
    ensures TemplateText(hs) == JoinWith(",", QuoteAll(hs)) + "\r\n"
    ensures ParseHeaders(JoinWith(",", QuoteAll(hs))) == hs
  {
    forall i | 0 <= i < |hs| ensures Escape(hs[i]) == hs[i] && PlainHeader(hs[i]) {
      NamePlain(hs[i]);
      EscapePlain(hs[i]);
    }
    assert EscapeAll(hs) == hs;
    HeaderRoundTrip(',', hs);
  }

  lemma NamesNoLineBreak(hs: seq<string>)
    requires forall i :: 0 <= i < |hs| ==> IsName(hs[i])
    ensures forall i :: 0 <= i < |hs| ==> PlainHeader(hs[i]) && NoLineBreak(hs[i])
  {
    forall i | 0 <= i < |hs| ensures PlainHeader(hs[i]) && NoLineBreak(hs[i]) {
      NamePlain(hs[i]);
    }
  }

  /** Importing a template as it is reads its column names and then reports
      that there are no data rows. */
  lemma TemplateImport(hs: seq<string>)
    requires |hs| >= 1 && forall i :: 0 <= i < |hs| ==> IsName(hs[i])
    ensures Import(TemplateText(hs)) == Failed(NoDataRows)
  {
    TemplateHeaderLine(hs);
    NamesNoLineBreak(hs);
    var line := JoinWith(",", QuoteAll(hs));
    QuotedLine(hs);
    TrimCrlf(line);
    SplitJoinLines("\n", [line]);
    assert JoinWith("\n", [line]) == line;
    TrimOfTrimmed(line);
  }

  /** Importing the downloaded template as it is reads the seventeen column
      names and then reports that there are no data rows. */
  lemma TemplateImportsAsEmpty()
    ensures Import(TemplateText(CsvHeaders)) == Failed(NoDataRows)
  {
    CsvHeadersNames();
    TemplateImport(CsvHeaders);
  }

  /** The template's column names are distinct and include every column the
      importer defaults. */
  lemma CsvHeadersFacts()
    ensures forall i, j :: 0 <= i < j < |CsvHeaders| ==> CsvHeaders[i] != CsvHeaders[j]
    ensures DefaultKeys <= set h | h in CsvHeaders
  {
    assert CsvHeaders[11] == "AMA_NOM" && CsvHeaders[12] == "AMA_PRENOM" && CsvHeaders[14] == "PAP";
    assert CsvHeaders[15] == "COMMENTAIRES" && CsvHeaders[16] == "FUTURE_CLASSE";
  }

  /** A record line: quoted values without line breaks joined by commas. */
  predicate RecordValues(values: seq<string>) {
    && |values| >= 1
    && (forall i :: 0 <= i < |values| ==> Quotable(values[i]) && NoLineBreak(values[i]))
    && HasValue(values)
  }

  /** With every defaulted column present, defaulting changes nothing. */
  lemma {:induction false} DefaultsPresent(row: Row)
    requires DefaultKeys <= row.Keys
    ensures CompleteAll([FirstDefaults(row)]) == [row]
  {
    assert FirstDefaults(row) == row;
    assert Complete(row) == row;
  }

  /** Two lines that start and end with a quote, joined by CRLF, are read
      back as those two lines. */
  lemma TwoLines(header: string, record: string)
    requires NoLineBreak(header) && header != [] && header[0] == '"' && header[|header| - 1] == '"'
    requires NoLineBreak(record) && record != [] && record[0] == '"' && record[|record| - 1] == '"'
    ensures SplitLines(Trim(header + "\r\n" + record)) == [header, record]
  {
    var text := header + "\r\n" + record;
    assert JoinWith("\r\n", [header, record]) == text by {
      assert [header, record][1..] == [record];
    }
    SplitJoinLines("\r\n", [header, record]);
    assert text[0] == header[0] && text[|text| - 1] == record[|record| - 1];
    TrimOfTrimmed(text);
  }

  /** The template followed by a record line splits into the header line
      and the record line. */
  lemma RecordLines(hs: seq<string>, values: seq<string>)
    requires |hs| >= 1 && forall i :: 0 <= i < |hs| ==> IsName(hs[i])
    requires RecordValues(values)
    ensures var header, record := JoinWith(",", QuoteAll(hs)), JoinWith(",", QuoteAll(values));
      SplitLines(Trim(TemplateText(hs) + record)) == [header, record]
  {
    TemplateHeaderLine(hs);
    NamesNoLineBreak(hs);
    var header := JoinWith(",", QuoteAll(hs));
    var record := JoinWith(",", QuoteAll(values));
    QuotedLine(hs);
    QuotedLine(values);
    assert TemplateText(hs) + record == header + "\r\n" + record;
    TwoLines(header, record);
  }

  /** A record line with some non-empty value yields one row. */
  lemma RecordRow(hs: seq<string>, values: seq<string>)
    requires RecordValues(values)
    ensures DataRows(hs, [JoinWith(",", QuoteAll(values))]) == [FirstDefaults(RowMap(hs, values))]
  {
    var record := JoinWith(",", QuoteAll(values));
    QuotedLine(values);
    TrimOfTrimmed(record);
    QuotedRoundTrip(',', values);
    assert KeepsLine(record);
    assert [record][..0] == [];
  }

  /** Filling a template with one record and importing it gives one row
      that maps each column of the template to the record's value in that
      column, "" for the columns the record does not reach. */
  lemma TemplateRecord(hs: seq<string>, values: seq<string>)
    requires |hs| >= 1 && forall i :: 0 <= i < |hs| ==> IsName(hs[i])
    requires forall i, j :: 0 <= i < j < |hs| ==> hs[i] != hs[j]
    requires DefaultKeys <= set h | h in hs
    requires RecordValues(values)
    ensures Import(TemplateText(hs) + JoinWith(",", QuoteAll(values)))
         == Parsed(CsvData(hs, [RowMap(hs, values)]))
    ensures forall i :: 0 <= i < |hs| ==> RowMap(hs, values)[hs[i]] == ValueAt(values, i)
  {
    TemplateRecordImport(hs, values);
    RowMapColumns(hs, values);
  }

  lemma TemplateRecordImport(hs: seq<string>, values: seq<string>)
    requires |hs| >= 1 && forall i :: 0 <= i < |hs| ==> IsName(hs[i])
    requires DefaultKeys <= set h | h in hs
    requires RecordValues(values)
    ensures Import(TemplateText(hs) + JoinWith(",", QuoteAll(values)))
         == Parsed(CsvData(hs, [RowMap(hs, values)]))
  {
    var header := JoinWith(",", QuoteAll(hs));
    var record := JoinWith(",", QuoteAll(values));
    var row := RowMap(hs, values);
    TemplateHeaderLine(hs);
    RecordLines(hs, values);
    RecordRow(hs, values);
    ImportTwoLines(TemplateText(hs) + record, header, record, hs, FirstDefaults(row));
    DefaultsPresent(row);
  }

  /** With distinct column names, every column holds the value at its own
      position. */
  lemma RowMapColumns(hs: seq<string>, values: seq<string>)
    requires forall i, j :: 0 <= i < j < |hs| ==> hs[i] != hs[j]
    ensures forall i :: 0 <= i < |hs| ==> RowMap(hs, values)[hs[i]] == ValueAt(values, i)
  {
    forall i | 0 <= i < |hs| ensures RowMap(hs, values)[hs[i]] == ValueAt(values, i) {
      RowMapLast(hs, values, i);
    }
  }

  /** A text of two lines whose header line reads as `hs` and whose second
      line yields one row is imported as that row, completed. */
  lemma ImportTwoLines(text: string, header: string, record: string, hs: seq<string>, r: Row)
    requires text != "" && SplitLines(Trim(text)) == [header, record]
    requires ParseHeaders(header) == hs && hs != []
    requires DataRows(hs, [record]) == [r]
    ensures Import(text) == Parsed(CsvData(hs, CompleteAll([r])))
  {
    assert [header, record][1..] == [record];
  }

  /** Filling the downloaded template with one record and importing it gives
      that record back, keyed by the seventeen column names. */
  lemma TemplateWithRecord(values: seq<string>)
    requires RecordValues(values)
    ensures Import(TemplateText(CsvHeaders) + JoinWith(",", QuoteAll(values)))
         == Parsed(CsvData(CsvHeaders, [RowMap(CsvHeaders, values)]))
  {
    assert forall i :: 0 <= i < |CsvHeaders| ==> IsName(CsvHeaders[i]) by {
      CsvHeadersNames();
    }
    assert forall i, j :: 0 <= i < j < |CsvHeaders| ==> CsvHeaders[i] != CsvHeaders[j] by {
      CsvHeadersFacts();
    }
    assert DefaultKeys <= set h | h in CsvHeaders by {
      CsvHeadersFacts();
    }
    TemplateRecord(CsvHeaders, values);
  }
}
