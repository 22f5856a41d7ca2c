/** Level detection and per-level head counts of the landing page
    (`extractLevelsAndStats`, src/app/page.tsx:49-98): a level is the
    upper-cased leading letters-and-digits run of a row's CLASSE, each level
    counts its rows by sex, and the levels are listed senior first. */
module Levels {
  import opened Text
  import opened Csv

  datatype Option<T> = None | Some(value: T)

  /** The four counters kept per level. */
  datatype LevelStats = LevelStats(total: nat, boys: nat, girls: nat, unspecifiedSex: nat)

  datatype Sex = Boy | Girl | Unspecified

  predicate IsDigit(c: char) {
    '0' <= c <= '9'
  }

  /** `[a-zA-Z0-9]`. */
  predicate IsAsciiAlnum(c: char) {
    ('a' <= c <= 'z') || ('A' <= c <= 'Z') || IsDigit(c)
  }

  /** The characters a level name is made of. */
  predicate IsLevelChar(c: char) {
    ('A' <= c <= 'Z') || IsDigit(c)
  }

  predicate IsLevelName(l: string) {
    l != [] && forall i :: 0 <= i < |l| ==> IsLevelChar(l[i])
  }

  /** The match of `/^[a-zA-Z0-9]+/`, or "" when there is none. */
  function LeadingAlnum(s: string): (r: string)
    ensures |r| <= |s| && r == s[..|r|]
    ensures forall i :: 0 <= i < |r| ==> IsAsciiAlnum(r[i])
    ensures |r| < |s| ==> !IsAsciiAlnum(s[|r|])
  {
    if s != [] && IsAsciiAlnum(s[0]) then [s[0]] + LeadingAlnum(s[1..]) else []
  }

  /** The level of a row: none when CLASSE is missing or empty, or does not
      start with a letter or digit. */
  function LevelOf(row: Row): (l: Option<string>)
    ensures l.Some? <==> "CLASSE" in row && row["CLASSE"] != "" && IsAsciiAlnum(row["CLASSE"][0])
    ensures l.Some? ==> IsLevelName(l.value)
  {
    if "CLASSE" in row && row["CLASSE"] != "" then
      var run := LeadingAlnum(row["CLASSE"]);
      if run != "" then Some(Upper(run)) else None
    else None
  }

  /** The sex a row counts under: SEXE upper-cased against the three
      spellings the page knows. */
  function SexOf(row: Row): Sex {
    if "SEXE" !in row then Unspecified
    else
      var s := Upper(row["SEXE"]);
      if s == "MASCULIN" then Boy
      else if s == "FEMININ" || s == "F\U{00C9}MININ" then Girl
      else Unspecified
  }

  /** SEXE is compared after upper-casing, so any letter case counts, and
      the accented spelling counts as a girl; anything else is unspecified. */
  lemma SexSpellings()
    ensures SexOf(map["SEXE" := "Masculin"]) == Boy
    ensures SexOf(map["SEXE" := "f\U{00E9}minin"]) == Girl
    ensures SexOf(map["SEXE" := "feminin"]) == Girl
    ensures SexOf(map["SEXE" := "ma\U{017F}culin"]) == Boy
    ensures SexOf(map["SEXE" := "fem\U{0131}nin"]) == Girl
    ensures SexOf(map["SEXE" := "M"]) == Unspecified
    ensures SexOf(map[]) == Unspecified
  {
    assert Upper("Masculin") == "MASCULIN";
    assert Upper("f\U{00E9}minin") == "F\U{00C9}MININ";
    assert Upper("feminin") == "FEMININ";
    assert Upper("ma\U{017F}culin") == "MASCULIN";
    assert Upper("fem\U{0131}nin") == "FEMININ";
    assert Upper("M") == "M";
  }

  /** Letter case in SEXE never matters: upper-casing it beforehand leaves
      the sex the row counts under unchanged. */
  lemma SexIgnoresCase(row: Row)
    requires "SEXE" in row
    ensures SexOf(row["SEXE" := Upper(row["SEXE"])]) == SexOf(row)
  {
    UpperIdempotent(row["SEXE"]);
  }

  /** The level is the leading letters and digits of CLASSE, upper-cased. */
  lemma LevelExample()
    ensures LevelOf(map["CLASSE" := "6eme B"]) == Some("6EME")
  {
    var c := "6eme B";
    assert c[4] == ' ' && !IsAsciiAlnum(c[4]);
    assert LeadingAlnum(c) == c[..4] == "6eme";
    assert Upper("6eme") == "6EME";
  }

  /** A CLASSE that does not start with a letter or digit gives no level. */
  lemma NoLevelExample()
    ensures LevelOf(map["CLASSE" := "-6A"]) == None
    ensures LevelOf(map["CLASSE" := ""]) == None
  {
  }

  /** The levels that occur among the rows. */
  function DetectedLevels(rows: seq<Row>): set<string> {
    set i | 0 <= i < |rows| && LevelOf(rows[i]).Some? :: LevelOf(rows[i]).value
  }

  /** Number of rows of level `l`. */
  function CountLevel(rows: seq<Row>, l: string): nat {
    if rows == [] then 0
    else CountLevel(rows[..|rows| - 1], l) + (if LevelOf(rows[|rows| - 1]) == Some(l) then 1 else 0)
  }

  /** Number of rows of level `l` that count under sex `x`. */
  function CountLevelSex(rows: seq<Row>, l: string, x: Sex): nat {
    if rows == [] then 0
    else
      var r := rows[|rows| - 1];
      CountLevelSex(rows[..|rows| - 1], l, x) + (if LevelOf(r) == Some(l) && SexOf(r) == x then 1 else 0)
  }

  function StatsFor(rows: seq<Row>, l: string): LevelStats {
    LevelStats(CountLevel(rows, l), CountLevelSex(rows, l, Boy), CountLevelSex(rows, l, Girl),
               CountLevelSex(rows, l, Unspecified))
  }

  /** Every row of a level counts under exactly one sex. */
  lemma {:induction false} StatsAddUp(rows: seq<Row>, l: string)
    ensures CountLevel(rows, l)
         == CountLevelSex(rows, l, Boy) + CountLevelSex(rows, l, Girl) + CountLevelSex(rows, l, Unspecified)
  {
    if rows != [] {
      StatsAddUp(rows[..|rows| - 1], l);
    }
  }

  /** A level has rows exactly when it is detected. */
  lemma {:induction false} CountPositive(rows: seq<Row>, l: string)
    ensures CountLevel(rows, l) > 0 <==> l in DetectedLevels(rows)
  {
    if rows != [] {
      var n := |rows| - 1;
      CountPositive(rows[..n], l);
      DetectedSnoc(rows, n);
      assert rows[..n + 1] == rows;
    }
  }

  lemma DetectedSnoc(rows: seq<Row>, i: nat)
    requires i < |rows|
    ensures DetectedLevels(rows[..i + 1])
         == DetectedLevels(rows[..i]) + (if LevelOf(rows[i]).Some? then {LevelOf(rows[i]).value} else {})
  {
    var a, b := rows[..i + 1], rows[..i];
    assert forall j :: 0 <= j < i ==> a[j] == b[j];
    assert a[i] == rows[i];
  }

  /** One row's contribution to the counters of its level. */
  function Bump(st: LevelStats, x: Sex): (r: LevelStats)
    ensures r.total == st.total + 1
    ensures r.boys == st.boys + (if x == Boy then 1 else 0)
    ensures r.girls == st.girls + (if x == Girl then 1 else 0)
    ensures r.unspecifiedSex == st.unspecifiedSex + (if x == Unspecified then 1 else 0)
  {
    match x
    case Boy => st.(total := st.total + 1, boys := st.boys + 1)
    case Girl => st.(total := st.total + 1, girls := st.girls + 1)
    case Unspecified => st.(total := st.total + 1, unspecifiedSex := st.unspecifiedSex + 1)
  }

  /** Reading one more row changes only the counters of that row's level. */
  lemma StatsSnoc(rows: seq<Row>, i: nat, l: string)
    requires i < |rows|
    ensures StatsFor(rows[..i + 1], l)
         == if LevelOf(rows[i]) == Some(l) then Bump(StatsFor(rows[..i], l), SexOf(rows[i]))
            else StatsFor(rows[..i], l)
  {
    var p := rows[..i + 1];
    assert p[..|p| - 1] == rows[..i] && p[|p| - 1] == rows[i];
  }

  /** The counters of the previous rows, updated with row `i`, are the
      counters of the rows up to and including `i`. */
  lemma StatsStep(rows: seq<Row>, i: nat, prev: map<string, LevelStats>, l: string, st: LevelStats,
                  next: map<string, LevelStats>)
    requires i < |rows| && LevelOf(rows[i]) == Some(l)
    requires prev.Keys == DetectedLevels(rows[..i])
    requires forall k :: k in prev ==> prev[k] == StatsFor(rows[..i], k)
    requires st == if l in prev then prev[l] else LevelStats(0, 0, 0, 0)
    requires next == prev[l := Bump(st, SexOf(rows[i]))]
    ensures forall k :: k in next ==> next[k] == StatsFor(rows[..i + 1], k)
  {
    CountPositive(rows[..i], l);
    StatsAddUp(rows[..i], l);
    forall k | k in next ensures next[k] == StatsFor(rows[..i + 1], k) {
      StatsSnoc(rows, i, k);
    }
  }

  /** A row without a level changes no counter. */
  lemma StatsSkip(rows: seq<Row>, i: nat, prev: map<string, LevelStats>)
    requires i < |rows| && LevelOf(rows[i]).None?
    requires forall k :: k in prev ==> prev[k] == StatsFor(rows[..i], k)
    ensures forall k :: k in prev ==> prev[k] == StatsFor(rows[..i + 1], k)
  {
    forall k | k in prev ensures prev[k] == StatsFor(rows[..i + 1], k) {
      StatsSnoc(rows, i, k);
    }
  }

  predicate NoDuplicates(s: seq<string>) {
    forall i, j :: 0 <= i < j < |s| ==> s[i] != s[j]
  }

  /** The order table of the known levels; a higher number lists first. */
  const LevelOrder: map<string, nat> := map[
    "CM2" := 0, "6EME" := 1, "5EME" := 2, "4EME" := 3, "3EME" := 4,
    "SECONDE" := 5, "PREMIERE" := 6, "TERMINALE" := 7]

  /** The leading run of digits of `s`. */
  function DigitRun(s: string): (r: string)
    ensures forall i :: 0 <= i < |r| ==> IsDigit(r[i])
  {
    if s != [] && IsDigit(s[0]) then [s[0]] + DigitRun(s[1..]) else []
  }

  /** The match of `/\d+/`: the first run of digits, or "" when there is none. */
  function FirstDigitRun(s: string): (r: string)
    ensures forall i :: 0 <= i < |r| ==> IsDigit(r[i])
  {
    if s == [] then []
    else if IsDigit(s[0]) then DigitRun(s)
    else FirstDigitRun(s[1..])
  }

  /** `parseInt` of a run of decimal digits. */
  function DigitsValue(ds: string): nat
    requires forall i :: 0 <= i < |ds| ==> IsDigit(ds[i])
  {
    if ds == [] then 0
    else
      var d := ds[|ds| - 1];
      assert IsDigit(d);
      DigitsValue(ds[..|ds| - 1]) * 10 + (d as int - '0' as int)
  }

  /** The order of a level: its entry in the table, or else 100 plus the
      first number in its name (0 when it has none). */
  function Rank(l: string): (r: nat)
    ensures l !in LevelOrder ==> r >= 100
    ensures l in LevelOrder ==> r <= 7
  {
    if l in LevelOrder then LevelOrder[l] else DigitsValue(FirstDigitRun(l)) + 100
  }

  /** Code-point lexicographic order on strings. */
  predicate LexLess(a: string, b: string)
    decreases |a|
  {
    if a == [] then b != []
    else if b == [] then false
    else if a[0] != b[0] then a[0] < b[0]
    else LexLess(a[1..], b[1..])
  }

  /** `b.localeCompare(a)` on level names, which hold only digits and
      upper-case ASCII letters, where it agrees with code-point order. */
  function LocaleCompare(a: string, b: string): int {
    if a == b then 0 else if LexLess(a, b) then -1 else 1
  }

  /** The page's sort comparator: negative when `a` lists before `b`. */
  function Compare(a: string, b: string): int {
    var orderA, orderB := Rank(a), Rank(b);
    if orderA != orderB then orderB - orderA else LocaleCompare(b, a)
  }

  /** `a` lists strictly before `b`. */
  predicate Before(a: string, b: string) {
    Compare(a, b) < 0
  }

  lemma {:induction false} LexLessIrreflexive(a: string)
    ensures !LexLess(a, a)
    decreases |a|
  {
    if a != [] {
      LexLessIrreflexive(a[1..]);
    }
  }

  lemma {:induction false} LexLessAsymmetric(a: string, b: string)
    requires LexLess(a, b)
    ensures !LexLess(b, a)
    decreases |a|
  {
    if a != [] && b != [] && a[0] == b[0] {
      LexLessAsymmetric(a[1..], b[1..]);
    }
  }

  lemma {:induction false} LexLessTransitive(a: string, b: string, c: string)
    requires LexLess(a, b) && LexLess(b, c)
    ensures LexLess(a, c)
    decreases |a|
  {
    if a != [] && b != [] && c != [] && a[0] == b[0] && b[0] == c[0] {
      LexLessTransitive(a[1..], b[1..], c[1..]);
    }
  }

  lemma {:induction false} LexLessTotal(a: string, b: string)
    requires a != b
    ensures LexLess(a, b) || LexLess(b, a)
    decreases |a|
  {
    if a != [] && b != [] && a[0] == b[0] {
      assert a == [a[0]] + a[1..] && b == [b[0]] + b[1..];
      LexLessTotal(a[1..], b[1..]);
    }
  }

  /** The comparator is consistent: it answers 0 only for equal names, and
      swapping its arguments flips its sign. */
  lemma CompareConsistent(a: string, b: string)
    ensures Compare(a, b) == 0 <==> a == b
    ensures (Compare(a, b) < 0) == (Compare(b, a) > 0)
  {
    if a != b {
      LexLessTotal(a, b);
      if LexLess(a, b) {
        LexLessAsymmetric(a, b);
      } else {
        LexLessAsymmetric(b, a);
      }
    }
  }

  /** `Before` is a strict total order on level names. */
  lemma BeforeIrreflexive(a: string)
    ensures !Before(a, a)
  {
  }

  lemma BeforeTotal(a: string, b: string)
    requires a != b
    ensures Before(a, b) || Before(b, a)
  {
    CompareConsistent(a, b);
  }

  lemma BeforeAsymmetric(a: string, b: string)
    requires Before(a, b)
    ensures !Before(b, a)
  {
    CompareConsistent(a, b);
  }

  lemma BeforeTransitive(a: string, b: string, c: string)
    requires Before(a, b) && Before(b, c)
    ensures Before(a, c)
  {
    if Rank(a) == Rank(b) == Rank(c) {
      assert LexLess(b, a) && LexLess(c, b);
      LexLessTransitive(c, b, a);
      LexLessAsymmetric(c, a);
    }
  }

  predicate SortedLevels(s: seq<string>) {
    forall i, j :: 0 <= i < j < |s| ==> Before(s[i], s[j])
  }

  lemma HeadBeforeAll(x: string, s: seq<string>)
    requires SortedLevels(s) && s != [] && Before(x, s[0])
    ensures SortedLevels([x] + s)
  {
    forall j | 0 <= j < |s| ensures Before(x, s[j]) {
      if j > 0 {
        BeforeTransitive(x, s[0], s[j]);
      }
    }
  }

  lemma ConsSorted(h: string, r: seq<string>)
    requires SortedLevels(r)
    requires forall y :: y in multiset(r) ==> Before(h, y)
    ensures SortedLevels([h] + r)
  {
    forall j | 0 <= j < |r| ensures Before(h, r[j]) {
      assert r[j] in multiset(r);
    }
  }

  /** Inserts a new name into a sorted list of names. */
  function Insert(x: string, s: seq<string>): (r: seq<string>)
    requires SortedLevels(s) && x !in s
    ensures SortedLevels(r) && multiset(r) == multiset(s) + multiset{x}
  {
    if s == [] then [x]
    else if Before(x, s[0]) then
      HeadBeforeAll(x, s);
      [x] + s
    else
      assert s == [s[0]] + s[1..];
      var r := Insert(x, s[1..]);
      BeforeTotal(x, s[0]);
      forall y | y in multiset(r) ensures Before(s[0], y) {
        if y != x {
          assert y in s[1..];
          var j :| 0 <= j < |s[1..]| && s[1..][j] == y;
          assert s[j + 1] == y;
        }
      }
      ConsSorted(s[0], r);
      [s[0]] + r
  }

  /** `Array.from(levelsSet).sort(comparator)`: the names listed by the
      comparator, each once. */
  function SortLevels(s: seq<string>): (r: seq<string>)
    requires NoDuplicates(s)
    ensures SortedLevels(r) && multiset(r) == multiset(s)
  {
    if s == [] then []
    else
      assert s == [s[0]] + s[1..];
      var rest := SortLevels(s[1..]);
      assert s[0] !in multiset(rest);
      Insert(s[0], rest)
  }

  lemma SortedTail(a: seq<string>)
    requires SortedLevels(a) && a != []
    ensures SortedLevels(a[1..])
  {
    forall i, j | 0 <= i < j < |a[1..]| ensures Before(a[1..][i], a[1..][j]) {
      assert a[1..][i] == a[i + 1] && a[1..][j] == a[j + 1];
    }
  }

  /** Two sorted lists with the same names start with the same name. */
  lemma SortedHeads(a: seq<string>, b: seq<string>)
    requires SortedLevels(a) && SortedLevels(b) && multiset(a) == multiset(b) && a != [] && b != []
    ensures a[0] == b[0]
  {
    assert a[0] in multiset(b) && b[0] in multiset(a);
    if a[0] != b[0] {
      var k :| 0 <= k < |b| && b[k] == a[0];
      var m :| 0 <= m < |a| && a[m] == b[0];
      BeforeAsymmetric(a[0], b[0]);
    }
  }

  lemma MultisetTail<T>(a: seq<T>, b: seq<T>)
    requires a != [] && b != [] && a[0] == b[0] && multiset(a) == multiset(b)
    ensures multiset(a[1..]) == multiset(b[1..])
  {
    assert a == [a[0]] + a[1..] && b == [b[0]] + b[1..];
    calc {
      multiset(a[1..]);
      multiset(a) - multiset{a[0]};
      multiset(b) - multiset{b[0]};
      multiset(b[1..]);
    }
  }

  /** Any two lists sorted by the comparator and holding the same names are
      equal: the sorted order does not depend on the sorting algorithm. */
  lemma {:induction false} SortedUnique(a: seq<string>, b: seq<string>)
    requires SortedLevels(a) && SortedLevels(b) && multiset(a) == multiset(b)
    ensures a == b
    decreases |a|
  {
    assert |b| == |a| by { assert |multiset(a)| == |a| && |multiset(b)| == |b|; }
    if a != [] {
      SortedHeads(a, b);
      MultisetTail(a, b);
      SortedTail(a);
      SortedTail(b);
      SortedUnique(a[1..], b[1..]);
      assert a == [a[0]] + a[1..] && b == [b[0]] + b[1..];
    }
  }

  /** A sorted list holds no name twice. */
  lemma SortedNoDuplicates(s: seq<string>)
    requires SortedLevels(s)
    ensures NoDuplicates(s)
  {
    forall i, j | 0 <= i < j < |s| ensures s[i] != s[j] {
      BeforeAsymmetric(s[i], s[j]);
    }
  }

  /** Known levels list by their table entry, senior first. */
  lemma KnownLevelsOrder(a: string, b: string)
    requires a in LevelOrder && b in LevelOrder
    ensures Before(a, b) <==> LevelOrder[a] > LevelOrder[b]
  {
  }

  /** Every level outside the table lists before every level in it. */
  lemma UnknownBeforeKnown(u: string, k: string)
    requires u !in LevelOrder && k in LevelOrder
    ensures Before(u, k)
  {
  }

  /** The known levels, senior first. */
  const SeniorFirst: seq<string> :=
    ["TERMINALE", "PREMIERE", "SECONDE", "3EME", "4EME", "5EME", "6EME", "CM2"]

  lemma SeniorFirstSorted()
    ensures SortedLevels(SeniorFirst)
  {
    forall i, j | 0 <= i < j < |SeniorFirst| ensures Before(SeniorFirst[i], SeniorFirst[j]) {
      assert LevelOrder[SeniorFirst[i]] == 7 - i && LevelOrder[SeniorFirst[j]] == 7 - j;
    }
  }

  /** Whatever order the known levels are met in, they are listed from
      TERMINALE down to CM2. */
  lemma KnownLevelsListed(s: seq<string>)
    requires NoDuplicates(s) && multiset(s) == multiset(SeniorFirst)
    ensures SortLevels(s) == SeniorFirst
  {
    SeniorFirstSorted();
    SortedUnique(SortLevels(s), SeniorFirst);
  }

  /** Adds a new level to the level set, kept as a list without repeats. */
  lemma AddLevel(found: seq<string>, l: string, d: set<string>)
    requires NoDuplicates(found) && (set x | x in found) == d
    ensures var f := if l in found then found else found + [l];
      NoDuplicates(f) && (set x | x in f) == d + {l}
  {
  }

  /** The tally loop (page.tsx:56-81): per row, find the level, add it to the
      level set, and bump the level's total and one of its sex counters. */
  method TallyLevels(rows: seq<Row>) returns (found: seq<string>, stats: map<string, LevelStats>)
    ensures NoDuplicates(found) && (set l | l in found) == DetectedLevels(rows)
    ensures stats.Keys == DetectedLevels(rows)
    ensures forall l :: l in stats ==> stats[l] == StatsFor(rows, l)
  {
    found, stats := [], map[];
    for i := 0 to |rows|
      invariant NoDuplicates(found) && (set l | l in found) == DetectedLevels(rows[..i])
      invariant stats.Keys == DetectedLevels(rows[..i])
      invariant forall l :: l in stats ==> stats[l] == StatsFor(rows[..i], l)
    {
      DetectedSnoc(rows, i);
      var level := LevelOf(rows[i]);
      if level.Some? {
        var mainLevel := level.value;
        AddLevel(found, mainLevel, DetectedLevels(rows[..i]));
        if mainLevel !in found {
          found := found + [mainLevel];
        }
        var st := if mainLevel in stats then stats[mainLevel] else LevelStats(0, 0, 0, 0);
        StatsStep(rows, i, stats, mainLevel, st, stats[mainLevel := Bump(st, SexOf(rows[i]))]);
        stats := stats[mainLevel := Bump(st, SexOf(rows[i]))];
      } else {
        StatsSkip(rows, i, stats);
      }
    }
    assert rows[..|rows|] == rows;
  }

  /** `extractLevelsAndStats`: the detected levels, senior first, each once,
      and per level a total that is the sum of its three sex counters. */
  method ExtractLevelsAndStats(rows: seq<Row>) returns (levels: seq<string>, stats: map<string, LevelStats>)
    ensures SortedLevels(levels) && NoDuplicates(levels)
    ensures (set l | l in levels) == DetectedLevels(rows) == stats.Keys
    ensures forall l :: l in stats ==> stats[l] == StatsFor(rows, l)
    ensures forall l :: l in stats ==>
      stats[l].total > 0 && stats[l].total == stats[l].boys + stats[l].girls + stats[l].unspecifiedSex
  {
    if |rows| == 0 {
      return [], map[];
    }
    var found;
    found, stats := TallyLevels(rows);
    levels := SortLevels(found);
    SortedNoDuplicates(levels);
    assert forall l :: l in levels <==> l in multiset(levels);
    assert forall l :: l in found <==> l in multiset(found);
    forall l | l in stats
      ensures stats[l].total > 0 && stats[l].total == stats[l].boys + stats[l].girls + stats[l].unspecifiedSex
    {
      StatsAddUp(rows, l);
      CountPositive(rows, l);
    }
  }
}
