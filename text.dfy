/** String primitives with the meaning of the JavaScript built-ins that the
    CSV importer of the landing page (src/app/page.tsx) relies on:
    `trim`, `toUpperCase`, `replace(/^"|"$/g, '')`, `split(/\r\n|\n|\r/)`
    and `join`. */
module Text {

  /** The code points that JavaScript's `String.prototype.trim` removes:
      the WhiteSpace and LineTerminator productions of ECMAScript. */
  predicate IsSpace(c: char) {
    || c == '\t' || c == '\n' || c == '\U{000B}' || c == '\U{000C}' || c == '\r'
    || c == ' ' || c == '\U{00A0}' || c == '\U{1680}'
    || ('\U{2000}' <= c <= '\U{200A}')
    || c == '\U{2028}' || c == '\U{2029}' || c == '\U{202F}' || c == '\U{205F}'
    || c == '\U{3000}' || c == '\U{FEFF}'
  }

  predicate AllSpace(s: string) {
    forall i :: 0 <= i < |s| ==> IsSpace(s[i])
  }

  /** Every character of `r` occurs in `s`. */
  predicate CharsIn(r: string, s: string) {
    forall i :: 0 <= i < |r| ==> r[i] in s
  }

  lemma CharsInTrans(a: string, b: string, c: string)
    requires CharsIn(a, b) && CharsIn(b, c)
    ensures CharsIn(a, c)
  {
    forall i | 0 <= i < |a| ensures a[i] in c {
      var j :| 0 <= j < |b| && b[j] == a[i];
    }
  }

  lemma CharsInExcludes(r: string, s: string, c: char)
    requires CharsIn(r, s) && c !in s
    ensures c !in r
  {
  }

  /** Removes leading white space. */
  function TrimStart(s: string): string {
    if s != [] && IsSpace(s[0]) then TrimStart(s[1..]) else s
  }

  /** Removes trailing white space. */
  function TrimEnd(s: string): string {
    if s != [] && IsSpace(s[|s| - 1]) then TrimEnd(s[..|s| - 1]) else s
  }

  /** What `TrimStart` leaves is a suffix of `s` that does not start with
      white space, and what it removes is all white space. */
  lemma {:induction false} TrimStartFacts(s: string)
    ensures |TrimStart(s)| <= |s| && TrimStart(s) == s[|s| - |TrimStart(s)|..]
    ensures TrimStart(s) == [] || !IsSpace(TrimStart(s)[0])
    ensures AllSpace(s[..|s| - |TrimStart(s)|])
  {
    if s != [] && IsSpace(s[0]) {
      TrimStartFacts(s[1..]);
      var r := TrimStart(s);
      assert s[..|s| - |r|] == [s[0]] + s[1..][..|s| - 1 - |r|];
    }
  }

  /** What `TrimEnd` leaves is a prefix of `s` that does not end with white
      space, and what it removes is all white space. */
  lemma {:induction false} TrimEndFacts(s: string)
    ensures |TrimEnd(s)| <= |s| && TrimEnd(s) == s[..|TrimEnd(s)|]
    ensures TrimEnd(s) == [] || !IsSpace(TrimEnd(s)[|TrimEnd(s)| - 1])
    ensures AllSpace(s[|TrimEnd(s)|..])
  {
    if s != [] && IsSpace(s[|s| - 1]) {
      TrimEndFacts(s[..|s| - 1]);
      var r := TrimEnd(s);
      assert s[|r|..] == s[..|s| - 1][|r|..] + [s[|s| - 1]];
    }
  }

  /** Neither starts nor ends with white space. */
  predicate Trimmed(s: string) {
    s == [] || (!IsSpace(s[0]) && !IsSpace(s[|s| - 1]))
  }

  /** `String.prototype.trim`. */
  function Trim(s: string): string {
    TrimEnd(TrimStart(s))
  }

  /** Trimming keeps only characters of `s`, leaves no white space at either
      end, and yields "" exactly when `s` is all white space. */
  lemma TrimFacts(s: string)
    ensures CharsIn(Trim(s), s)
    ensures Trimmed(Trim(s))
    ensures Trim(s) == [] <==> AllSpace(s)
  {
    var t := TrimStart(s);
    var r := TrimEnd(t);
    TrimStartFacts(s);
    TrimEndFacts(t);
    forall i | 0 <= i < |r| ensures r[i] in s {
      assert r[i] == t[i] == s[|s| - |t| + i];
    }
    if r == [] {
      assert t == [];
      assert s[..|s|] == s;
    }
  }

  /** Trimming keeps a contiguous run of `s` and removes only white space
      around it. */
  lemma TrimSlice(s: string)
    ensures exists a, b :: 0 <= a <= b <= |s| && Trim(s) == s[a..b] && AllSpace(s[..a]) && AllSpace(s[b..])
  {
    var t := TrimStart(s);
    TrimStartFacts(s);
    TrimEndFacts(t);
    var a := |s| - |t|;
    var b := a + |TrimEnd(t)|;
    assert Trim(s) == s[a..b];
    assert s[b..] == t[|TrimEnd(t)|..];
  }

  lemma TrimExcludes(s: string, c: char)
    requires c !in s
    ensures c !in Trim(s)
  {
    TrimFacts(s);
  }

  /** A string that neither starts nor ends with white space is its own trim. */
  lemma TrimOfTrimmed(s: string)
    requires Trimmed(s)
    ensures Trim(s) == s
  {
  }

  lemma TrimIdempotent(s: string)
    ensures Trim(Trim(s)) == Trim(s)
  {
    TrimFacts(s);
    TrimOfTrimmed(Trim(s));
  }

  /** The per-character part of `String.prototype.toUpperCase`: ASCII letters,
      the Latin-1 lower-case letters that have a one-character upper case,
      and the two letters outside Latin-1 whose upper case is an ASCII
      letter: dotless i (to `I`) and long s (to `S`). */
  function UpperChar(c: char): char {
    if 'a' <= c <= 'z' then (c as int - 32) as char
    else if '\U{00E0}' <= c <= '\U{00FE}' && c != '\U{00F7}' then (c as int - 32) as char
    else if c == '\U{00FF}' then '\U{0178}'
    else if c == '\U{0131}' then 'I'
    else if c == '\U{017F}' then 'S'
    else c
  }

  /** True of the characters that `UpperChar` changes. */
  predicate IsLowerLetter(c: char) {
    || ('a' <= c <= 'z') || ('\U{00E0}' <= c <= '\U{00FF}' && c != '\U{00F7}')
    || c == '\U{0131}' || c == '\U{017F}'
  }

  /** `String.prototype.toUpperCase`, character by character. */
  function Upper(s: string): (r: string)
    ensures |r| == |s|
  {
    seq(|s|, i requires 0 <= i < |s| => UpperChar(s[i]))
  }

  /** Upper case leaves every character that is not a lower-case letter
      where it was, and produces no lower-case letter. */
  lemma UpperCharFacts(c: char)
    ensures !IsLowerLetter(c) ==> UpperChar(c) == c
    ensures !IsLowerLetter(UpperChar(c))
    ensures UpperChar(UpperChar(c)) == UpperChar(c)
  {
  }

  lemma {:induction false} UpperIdempotent(s: string)
    ensures Upper(Upper(s)) == Upper(s)
  {
    forall i | 0 <= i < |s| ensures Upper(Upper(s))[i] == Upper(s)[i] {
      UpperCharFacts(s[i]);
    }
  }

  /** A character that is not a lower-case letter occurs in `Upper(s)` exactly
      when it occurs in `s`. */
  lemma {:induction false} UpperKeeps(s: string, c: char)
    requires !IsLowerLetter(c) && !('A' <= c <= 'Z') && !('\U{00C0}' <= c <= '\U{00DE}') && c != '\U{0178}'
    ensures c in Upper(s) <==> c in s
  {
    if c in Upper(s) {
      var i :| 0 <= i < |s| && Upper(s)[i] == c;
      UpperCharFacts(s[i]);
    }
    if c in s {
      var i :| 0 <= i < |s| && s[i] == c;
      assert Upper(s)[i] == c;
    }
  }

  /** `s.replace(/^"|"$/g, '')`: drops one leading and one trailing double
      quote. A lone `"` is consumed by the first alternative and leaves "". */
  function StripQuotes(s: string): (r: string)
    ensures '"' !in s ==> r == s
  {
    var a := if s != [] && s[0] == '"' then s[1..] else s;
    if a != [] && a[|a| - 1] == '"' then a[..|a| - 1] else a
  }

  /** What `StripQuotes` removes: at most one leading and one trailing
      character, each a double quote; the leading one whenever there is one,
      and a trailing one whenever one is left after it. */
  lemma StripQuotesFacts(s: string)
    ensures exists p, q :: (s == p + StripQuotes(s) + q
      && (p == [] || p == "\"") && (q == [] || q == "\"")
      && (p == [] <==> s == [] || s[0] != '"')
      && (q == [] && StripQuotes(s) != [] ==> StripQuotes(s)[|StripQuotes(s)| - 1] != '"'))
  {
    var a := if s != [] && s[0] == '"' then 1 else 0;
    var t := s[a..];
    var b := if t != [] && t[|t| - 1] == '"' then 1 else 0;
    var p, q := s[..a], t[|t| - b..];
    assert s == p + StripQuotes(s) + q;
  }

  /** A lone double quote is consumed by the first alternative and leaves "". */
  lemma StripLoneQuote()
    ensures StripQuotes("\"") == ""
  {
  }

  predicate IsLineBreak(c: char) {
    c == '\n' || c == '\r'
  }

  predicate NoLineBreak(s: string) {
    forall i :: 0 <= i < |s| ==> !IsLineBreak(s[i])
  }

  /** Position of the first line-break character of `s`, or `|s|`. */
  function BreakIndex(s: string): (k: nat)
    ensures k <= |s| && NoLineBreak(s[..k])
    ensures k < |s| ==> IsLineBreak(s[k])
  {
    if s == [] || IsLineBreak(s[0]) then 0 else 1 + BreakIndex(s[1..])
  }

  /** `s.split(/\r\n|\n|\r/)`: a CR immediately followed by LF is one break. */
  function SplitLines(s: string): (lines: seq<string>)
    ensures |lines| >= 1
    ensures forall i :: 0 <= i < |lines| ==> NoLineBreak(lines[i])
    decreases |s|
  {
    var k := BreakIndex(s);
    if k == |s| then [s]
    else
      var w := if s[k] == '\r' && k + 1 < |s| && s[k + 1] == '\n' then 2 else 1;
      [s[..k]] + SplitLines(s[k + w..])
  }

  /** `parts.join(sep)`. */
  function JoinWith(sep: string, parts: seq<string>): string {
    if parts == [] then ""
    else if |parts| == 1 then parts[0]
    else parts[0] + sep + JoinWith(sep, parts[1..])
  }

  lemma {:induction false} BreakIndexAfter(a: string, b: string)
    requires NoLineBreak(a)
    ensures BreakIndex(a + b) == |a| + BreakIndex(b)
    decreases |a|
  {
    if a != [] {
      assert (a + b)[1..] == a[1..] + b;
      BreakIndexAfter(a[1..], b);
    } else {
      assert a + b == b;
    }
  }

  /** Lines joined by a CR-led separator never start with LF. */
  lemma {:induction false} JoinStartsWithoutLF(sep: string, parts: seq<string>)
    requires sep == "\r" || sep == "\r\n"
    requires forall i :: 0 <= i < |parts| ==> NoLineBreak(parts[i])
    ensures JoinWith(sep, parts) == [] || JoinWith(sep, parts)[0] != '\n'
  {
    if |parts| > 1 && parts[0] == [] {
      assert JoinWith(sep, parts) == sep + JoinWith(sep, parts[1..]);
    }
  }

  /** One line, a separator and the rest split into that line and the
      lines of the rest, unless a lone CR would pair with a leading LF. */
  lemma SplitHead(line: string, sep: string, rest: string)
    requires sep == "\n" || sep == "\r\n" || sep == "\r"
    requires NoLineBreak(line)
    requires sep == "\r" ==> rest == [] || rest[0] != '\n'
    ensures SplitLines(line + sep + rest) == [line] + SplitLines(rest)
  {
    var s := line + sep + rest;
    assert s == line + (sep + rest);
    BreakIndexAfter(line, sep + rest);
    var k := |line|;
    assert BreakIndex(sep + rest) == 0;
    assert s[..k] == line;
    if sep == "\r" {
      assert k + 1 < |s| ==> s[k + 1] == rest[0];
    }
    var w := if s[k] == '\r' && k + 1 < |s| && s[k + 1] == '\n' then 2 else 1;
    assert w == |sep|;
    assert s[k + w..] == rest;
  }

  /** A text without line breaks is one line. */
  lemma SplitSingle(line: string)
    requires NoLineBreak(line)
    ensures SplitLines(line) == [line]
  {
    assert line + [] == line;
    BreakIndexAfter(line, []);
  }

  /** Splitting lines undoes joining them with any of the three line
      separators the split recognises. */
  lemma {:induction false} SplitJoinLines(sep: string, lines: seq<string>)
    requires sep == "\n" || sep == "\r\n" || sep == "\r"
    requires |lines| >= 1
    requires forall i :: 0 <= i < |lines| ==> NoLineBreak(lines[i])
    ensures SplitLines(JoinWith(sep, lines)) == lines
    decreases |lines|
  {
    if |lines| == 1 {
      SplitSingle(lines[0]);
    } else {
      var rest := JoinWith(sep, lines[1..]);
      assert JoinWith(sep, lines) == lines[0] + sep + rest;
      if sep == "\r" {
        JoinStartsWithoutLF(sep, lines[1..]);
      }
      SplitHead(lines[0], sep, rest);
      SplitJoinLines(sep, lines[1..]);
      assert lines == [lines[0]] + lines[1..];
    }
  }
}
