/** The field splitter that the importer runs on every data line
    (src/app/page.tsx:178-191): a two-state automaton that toggles
    "inside quotes" on each `"`, ends a field on a `,` or `;` met outside
    quotes, and appends every other character to the current field. */
module CsvFields {
  import opened Text

  predicate IsDelimiter(c: char) {
    c == ',' || c == ';'
  }

  /** The splitter's variables: the fields already closed (`values`), the
      field being read (`currentVal`) and the quote flag (`inQuotes`). */
  datatype ScanState = ScanState(values: seq<string>, current: string, inQuotes: bool)

  const Start := ScanState([], "", false)

  /** What is pushed when a field ends: trimmed, then stripped of one outer
      quote on each side. */
  function Close(v: string): string {
    StripQuotes(Trim(v))
  }

  /** One character of the automaton. */
  function Step(st: ScanState, c: char): ScanState {
    if c == '"' then st.(inQuotes := !st.inQuotes)
    else if IsDelimiter(c) && !st.inQuotes then ScanState(st.values + [Close(st.current)], "", st.inQuotes)
    else st.(current := st.current + [c])
  }

  /** The automaton run over `s` from state `st`. */
  function Run(st: ScanState, s: string): ScanState
    decreases |s|
  {
    if s == [] then st else Run(Step(st, s[0]), s[1..])
  }

  /** The values of a data line: the fields closed while scanning plus the
      last field, closed at the end of the line. */
  function SplitFields(line: string): seq<string> {
    var st := Run(Start, line);
    st.values + [Close(st.current)]
  }

  /** Number of double quotes in `s`. */
  function CountQuotes(s: string): nat {
    if s == [] then 0 else CountQuotes(s[..|s| - 1]) + (if s[|s| - 1] == '"' then 1 else 0)
  }

  /** A delimiter at position `k` ends a field exactly when an even number of
      quotes comes before it. */
  predicate IsFieldBreak(s: string, k: nat)
    requires k < |s|
  {
    IsDelimiter(s[k]) && CountQuotes(s[..k]) % 2 == 0
  }

  /** Number of delimiters in `s` that stand outside quotes. */
  function CountFieldBreaks(s: string): nat {
    if s == [] then 0
    else CountFieldBreaks(s[..|s| - 1]) + (if IsFieldBreak(s, |s| - 1) then 1 else 0)
  }

  lemma {:induction false} RunAppend(st: ScanState, a: string, b: string)
    ensures Run(st, a + b) == Run(Run(st, a), b)
    decreases |a|
  {
    if a == [] {
      assert a + b == b;
    } else {
      assert (a + b)[1..] == a[1..] + b;
      RunAppend(Step(st, a[0]), a[1..], b);
    }
  }

  lemma RunSnoc(st: ScanState, s: string, c: char)
    ensures Run(st, s + [c]) == Step(Run(st, s), c)
  {
    RunAppend(st, s, [c]);
  }

  /** Nothing the automaton stores ever contains a quote character. */
  predicate QuoteFree(st: ScanState) {
    && '"' !in st.current
    && forall i :: 0 <= i < |st.values| ==> '"' !in st.values[i] && Trim(st.values[i]) == st.values[i]
  }

  lemma CloseFacts(v: string)
    requires '"' !in v
    ensures Close(v) == Trim(v) && '"' !in Close(v) && Trim(Close(v)) == Close(v)
  {
    TrimExcludes(v, '"');
    TrimIdempotent(v);
  }

  lemma StepQuoteFree(st: ScanState, c: char)
    requires QuoteFree(st)
    ensures QuoteFree(Step(st, c))
  {
    if c != '"' && IsDelimiter(c) && !st.inQuotes {
      CloseFacts(st.current);
      var vs := st.values + [Close(st.current)];
      assert forall i :: 0 <= i < |st.values| ==> vs[i] == st.values[i];
    } else if c != '"' {
      assert forall x :: x in st.current + [c] ==> x in st.current || x == c;
    }
  }

  lemma CountsSnoc(p: string, c: char)
    ensures CountQuotes(p + [c]) == CountQuotes(p) + (if c == '"' then 1 else 0)
    ensures CountFieldBreaks(p + [c])
         == CountFieldBreaks(p) + (if IsDelimiter(c) && CountQuotes(p) % 2 == 0 then 1 else 0)
  {
    var s := p + [c];
    assert s[..|s| - 1] == p;
  }

  /** After any prefix of a line, the quote flag is the parity of the quotes
      read, one value has been closed per delimiter outside quotes, and no
      stored text holds a quote. */
  lemma {:induction false} ScanInvariant(s: string)
    ensures Run(Start, s).inQuotes == (CountQuotes(s) % 2 == 1)
    ensures |Run(Start, s).values| == CountFieldBreaks(s)
    ensures QuoteFree(Run(Start, s))
    decreases |s|
  {
    if s != [] {
      var p, c := s[..|s| - 1], s[|s| - 1];
      assert s == p + [c];
      ScanInvariant(p);
      RunSnoc(Start, p, c);
      CountsSnoc(p, c);
      StepQuoteFree(Run(Start, p), c);
    }
  }

  /** The number of values of a line is the number of its delimiters that
      stand outside quotes, plus one. */
  lemma FieldCount(line: string)
    ensures |SplitFields(line)| == CountFieldBreaks(line) + 1
  {
    ScanInvariant(line);
  }

  /** No value contains a double quote, and every value is trimmed. */
  lemma FieldsClean(line: string)
    ensures forall i :: 0 <= i < |SplitFields(line)| ==>
      '"' !in SplitFields(line)[i] && Trim(SplitFields(line)[i]) == SplitFields(line)[i]
  {
    ScanInvariant(line);
    CloseFacts(Run(Start, line).current);
  }

  /** The splitter as the page runs it: a loop over the characters of the
      line that updates `currentVal` and `inQuotes` and pushes into `values`. */
  method ParseFields(line: string) returns (values: seq<string>)
    ensures values == SplitFields(line)
    ensures |values| == CountFieldBreaks(line) + 1
    ensures forall i :: 0 <= i < |values| ==> '"' !in values[i] && Trim(values[i]) == values[i]
  {
    values := [];
    var current := "";
    var inQuotes := false;
    for i := 0 to |line|
      invariant Run(Start, line[..i]) == ScanState(values, current, inQuotes)
    {
      var c := line[i];
      if c == '"' {
        inQuotes := !inQuotes;
      } else if (c == ',' || c == ';') && !inQuotes {
        values := values + [StripQuotes(Trim(current))];
        current := "";
      } else {
        current := current + [c];
      }
      assert line[..i + 1] == line[..i] + [c];
      RunSnoc(Start, line[..i], c);
    }
    assert line[..|line|] == line;
    values := values + [StripQuotes(Trim(current))];
    FieldCount(line);
    FieldsClean(line);
  }

  /** A field written between double quotes. */
  function Quoted(f: string): string {
    ['"'] + f + ['"']
  }

  function QuoteAll(fs: seq<string>): (r: seq<string>)
    ensures |r| == |fs| && forall i :: 0 <= i < |fs| ==> r[i] == Quoted(fs[i])
  {
    if fs == [] then [] else [Quoted(fs[0])] + QuoteAll(fs[1..])
  }

  /** Inside quotes every character other than a quote is kept, delimiters
      included. */
  lemma {:induction false} RunInsideQuotes(vs: seq<string>, cur: string, f: string)
    requires '"' !in f
    ensures Run(ScanState(vs, cur, true), f) == ScanState(vs, cur + f, true)
    decreases |f|
  {
    if f == [] {
      assert cur + f == cur;
    } else {
      assert (cur + [f[0]]) + f[1..] == cur + f;
      RunInsideQuotes(vs, cur + [f[0]], f[1..]);
    }
  }

  lemma RunQuoted(vs: seq<string>, f: string)
    requires '"' !in f
    ensures Run(ScanState(vs, "", false), Quoted(f)) == ScanState(vs, f, false)
  {
    var st := ScanState(vs, "", false);
    RunAppend(st, ['"'] + f, ['"']);
    RunAppend(st, ['"'], f);
    RunInsideQuotes(vs, "", f);
    assert "" + f == f;
  }

  /** A value that can be written between quotes and read back unchanged. */
  predicate Quotable(f: string) {
    '"' !in f && Trimmed(f)
  }

  lemma JoinQuotedCons(d: char, fs: seq<string>)
    requires |fs| >= 2
    ensures JoinWith([d], QuoteAll(fs)) == Quoted(fs[0]) + ([d] + JoinWith([d], QuoteAll(fs[1..])))
  {
    assert QuoteAll(fs)[1..] == QuoteAll(fs[1..]);
  }

  lemma RunDelimiter(vs: seq<string>, f: string, d: char, rest: string)
    requires IsDelimiter(d) && Quotable(f)
    ensures Run(ScanState(vs, f, false), [d] + rest) == Run(ScanState(vs + [f], "", false), rest)
  {
    TrimOfTrimmed(f);
    var st := ScanState(vs, f, false);
    RunAppend(st, [d], rest);
    assert Run(st, [d]) == Run(Step(st, d), []);
    CloseFacts(f);
  }

  /** Reading the first quoted value and the delimiter after it closes that
      value. */
  lemma RunFirstQuoted(d: char, vs: seq<string>, fs: seq<string>)
    requires IsDelimiter(d) && |fs| >= 2 && Quotable(fs[0])
    ensures Run(ScanState(vs, "", false), JoinWith([d], QuoteAll(fs)))
         == Run(ScanState(vs + [fs[0]], "", false), JoinWith([d], QuoteAll(fs[1..])))
  {
    var rest := JoinWith([d], QuoteAll(fs[1..]));
    JoinQuotedCons(d, fs);
    RunAppend(ScanState(vs, "", false), Quoted(fs[0]), [d] + rest);
    RunQuoted(vs, fs[0]);
    RunDelimiter(vs, fs[0], d, rest);
  }

  /** A single quoted value is read as the open value it holds. */
  lemma RunSingleQuoted(d: char, vs: seq<string>, fs: seq<string>)
    requires |fs| == 1 && Quotable(fs[0])
    ensures Run(ScanState(vs, "", false), JoinWith([d], QuoteAll(fs)))
         == ScanState(vs + fs[..0], fs[0], false)
  {
    assert JoinWith([d], QuoteAll(fs)) == Quoted(fs[0]);
    RunQuoted(vs, fs[0]);
    assert vs + fs[..0] == vs;
  }

  lemma {:induction false} RunJoinQuoted(d: char, vs: seq<string>, fs: seq<string>)
    requires IsDelimiter(d) && |fs| >= 1
    requires forall i :: 0 <= i < |fs| ==> Quotable(fs[i])
    ensures Run(ScanState(vs, "", false), JoinWith([d], QuoteAll(fs)))
         == ScanState(vs + fs[..|fs| - 1], fs[|fs| - 1], false)
    decreases |fs|
  {
    if |fs| == 1 {
      RunSingleQuoted(d, vs, fs);
    } else {
      var tail := fs[1..];
      assert forall i :: 0 <= i < |tail| ==> Quotable(tail[i]) by {
        forall i | 0 <= i < |tail| ensures Quotable(tail[i]) {
          assert tail[i] == fs[i + 1];
        }
      }
      RunFirstQuoted(d, vs, fs);
      RunJoinQuoted(d, vs + [fs[0]], tail);
      PrefixShift(vs, fs);
      assert tail[|tail| - 1] == fs[|fs| - 1];
    }
  }

  lemma PrefixShift<T>(vs: seq<T>, fs: seq<T>)
    requires |fs| >= 2
    ensures (vs + [fs[0]]) + fs[1..][..|fs| - 2] == vs + fs[..|fs| - 1]
  {
  }

  lemma LastSplit<T>(fs: seq<T>)
    requires |fs| >= 1
    ensures [] + fs[..|fs| - 1] + [fs[|fs| - 1]] == fs
  {
  }

  /** Quoting every value and joining with one delimiter is read back as the
      same values, even when a value contains `,` or `;`. */
  lemma QuotedRoundTrip(d: char, fs: seq<string>)
    requires IsDelimiter(d) && |fs| >= 1
    requires forall i :: 0 <= i < |fs| ==> Quotable(fs[i])
    ensures SplitFields(JoinWith([d], QuoteAll(fs))) == fs
  {
    RunJoinQuoted(d, [], fs);
    CloseFacts(fs[|fs| - 1]);
    TrimOfTrimmed(fs[|fs| - 1]);
    LastSplit(fs);
  }
}
