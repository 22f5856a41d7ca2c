# Class-composition helper: CSV import, level statistics and template

This project models the data core of the landing page of a class-composition
helper (`src/app/page.tsx`). A teacher drops a CSV export of the pupils, and
the page does three things with it:

- **Import.** `processFile` trims the text and splits it into lines. The
  first line gives the column names: it is split on every `,` and `;`, and
  each part is trimmed, stripped of one outer double quote on each side and
  upper-cased. Empty names are dropped. Every later line is split by a small
  quote-aware automaton into trimmed values. A line becomes a row keyed by
  the column names when it is not blank and holds some non-empty value.
  Missing optional columns default to `""`. The import fails with one of
  three errors: the file is empty, the header is invalid, or there are no
  data rows.
- **Level statistics.** `extractLevelsAndStats` takes the leading letters
  and digits of each row's CLASSE, upper-cased, as the row's level. It counts
  each level's rows in total and by sex. It lists the levels senior first:
  TERMINALE down to CM2, and any unknown level before those.
- **Template.** `handleDownloadEmptyCsv` builds the empty template's header
  line: the seventeen column names, quoted, joined by commas, ended by CRLF.

The model is in five modules.

- `Text` (`text.dfy`) holds the JavaScript string built-ins the page relies
  on: `trim` with the exact ECMAScript white-space set, `toUpperCase`,
  `replace(/^"|"$/g, '')`, `split(/\r\n|\n|\r/)` and `join`.
- `CsvFields` (`fields.dfy`) holds the field automaton. It is a fold
  specification (`Run`) plus the page's character loop as a method
  (`ParseFields`) proved equal to it.
- `Csv` (`csv.dfy`) holds the header normalisation, the row construction
  with its defaults, the outcome function `Import`, and the imperative parse
  `ParseCsv` proved equal to `Import`.
- `Levels` (`levels.dfy`) holds level detection, the per-level counters and
  the tally loop, the page's sort comparator, and a sort proved to give the
  unique ordering that the comparator defines.
- `Template` (`template.dfy`) holds the column list, the header escaping,
  the template text, and what the importer makes of the template: on its
  own, and filled with one record.

## Model

| member | source | states |
|---|---|---|
| Text.TrimFacts | src/app/page.tsx:155 | `trim` keeps only characters of its input, the result neither starts nor ends with white space, and the result is "" exactly when the input is all white space |
| Text.TrimSlice | src/app/page.tsx:155 | `trim` keeps one contiguous run of its input and removes only white space before and after it |
| Text.StripQuotesFacts | src/app/page.tsx:163 | `replace(/^"\|"$/g, '')` removes at most one leading and one trailing character, each a double quote; it removes a leading quote whenever there is one, and a trailing one whenever one is left after that |
| Text.StripLoneQuote | src/app/page.tsx:163 | a lone double quote is consumed as the leading quote and leaves "" |
| Text.TrimIdempotent | src/app/page.tsx:155-156 | trimming twice is trimming once, so `lines[0].trim()` on the single line of an already trimmed text changes nothing |
| Text.UpperIdempotent | src/app/page.tsx:163 | upper-casing an upper-cased name changes nothing, so normalised column names are fixed points of `toUpperCase` |
| Text.UpperKeeps | src/app/page.tsx:163 | upper-casing neither adds nor removes any non-letter character, such as `,` `;` or `"` |
| Text.SplitLines | src/app/page.tsx:155 | the line split yields at least one line, and no line contains CR or LF |
| Text.SplitJoinLines | src/app/page.tsx:155 | splitting lines undoes joining them with LF, CRLF or CR, so a CR followed by LF counts as one break |
| CsvFields.ScanInvariant | src/app/page.tsx:178-191 | after any prefix of a line, `inQuotes` is the parity of the quotes read, one value has been pushed per delimiter outside quotes, and no stored text holds a quote |
| CsvFields.FieldCount | src/app/page.tsx:178-191 | a line has one more value than it has `,`/`;` outside quotes |
| CsvFields.FieldsClean | src/app/page.tsx:185-191 | every value is trimmed and holds no double quote |
| CsvFields.ParseFields | src/app/page.tsx:178-191 | the character loop computes exactly the fold `SplitFields`, with the count and cleanliness above |
| CsvFields.QuotedRoundTrip | src/app/page.tsx:178-191 | values that are quoted and joined by `,` or `;` read back unchanged, even when they contain delimiters |
| Csv.SplitOnDelimiters | src/app/page.tsx:163 | the header split yields at least one part, and no part holds a `,` or `;` |
| Csv.SplitJoinDelimited | src/app/page.tsx:163 | splitting undoes joining with one delimiter when no part holds one |
| Csv.NormalizeHeaders | src/app/page.tsx:163-164 | normalise-then-filter keeps at most one name per part; every name kept is non-empty, upper case and free of delimiters; it yields no name exactly when every part normalises to "" |
| Csv.HeaderRoundTrip | src/app/page.tsx:163-164 | a header line of quoted valid names joined by `,` or `;` reads back as exactly those names |
| Csv.RowMap | src/app/page.tsx:195-198 | the keys of a built row are exactly the column names |
| Csv.RowMapLast | src/app/page.tsx:196-198 | a repeated column name takes the value at its last occurrence; a column past the last value gets "" |
| Csv.BuildRow | src/app/page.tsx:195-198 | the `forEach` loop builds exactly `RowMap` |
| Csv.Fill | src/app/page.tsx:199-202 | a default adds its key, maps it to "" only when it was missing, and never changes a present value |
| Csv.FillIsOrEmpty | src/app/page.tsx:199-202 | `row[k] = row[k] \|\| ""` is the same as filling a missing key with "" |
| Csv.RowForFacts | src/app/page.tsx:194-204 | a kept line's row holds the column names and the four early defaults; each column at its last occurrence holds the line's value there; every other key is ""; once complete, the row is well formed |
| Csv.DataRows | src/app/page.tsx:173-205 | there are no more rows than data lines; there are no rows exactly when no data line is kept; every completed row is well formed |
| Csv.DataRowsCount | src/app/page.tsx:194-196 | there is exactly one row per kept data line, the kept lines counted independently by `KeptCount` |
| Csv.Import | src/app/page.tsx:153-226 | empty text is ignored; the empty-file error happens exactly for non-empty all-white-space text; a successful import has valid non-empty column names, at least one row, fewer rows than lines, and well-formed rows |
| Csv.EmptyIffBlank | src/app/page.tsx:155-156 | the page's test "a single line that trims to empty" is the same as the text being all white space |
| Csv.ReadLine | src/app/page.tsx:175-204 | the loop body for one line yields exactly the row `RowFor` specifies |
| Csv.CollectRows | src/app/page.tsx:173-205 | the line loop collects exactly `DataRows` of the lines after the header |
| Csv.CompleteRows | src/app/page.tsx:212-222 | the second pass sets the three late defaults on every row and nothing else |
| Csv.ParseCsv | src/app/page.tsx:153-226 | the imperative parse computes exactly `Import`, with all of its guarantees |
| Levels.LeadingAlnum | src/app/page.tsx:62 | the match of `/^[a-zA-Z0-9]+/` is the longest prefix of letters and digits |
| Levels.LevelOf | src/app/page.tsx:60-65 | a row has a level exactly when its CLASSE is present, non-empty and starts with an ASCII letter or digit; the level is non-empty and made of digits and capitals |
| Levels.LevelExample | src/app/page.tsx:60-63 | CLASSE "6eme B" gives the level 6EME |
| Levels.NoLevelExample | src/app/page.tsx:60-65 | a CLASSE that is empty or starts with `-` gives no level |
| Levels.SexSpellings | src/app/page.tsx:70-77 | in these spellings: "Masculin" and "maſculin" (long s) count as a boy, "féminin", "feminin" and "femınin" (dotless i) as girls; "M" and a missing SEXE are unspecified |
| Levels.SexIgnoresCase | src/app/page.tsx:71 | SEXE is compared after upper-casing, so upper-casing it beforehand never changes the sex a row counts under |
| Levels.StatsAddUp | src/app/page.tsx:70-77 | a level's total is the sum of its boys, girls and unspecified counters |
| Levels.CountPositive | src/app/page.tsx:65-69 | a level has a positive total exactly when it is detected |
| Levels.TallyLevels | src/app/page.tsx:56-81 | the tally loop yields the detected level set without repeats, and per detected level the counters `StatsFor` specifies |
| Levels.ExtractLevelsAndStats | src/app/page.tsx:49-98 | the levels are the detected ones, each once, sorted by the comparator; the stats keys are the same levels; every total is positive and equal to the sum of the three sex counters; empty rows give nothing |
| Levels.Rank | src/app/page.tsx:84-89 | a known level ranks at most 7; an unknown level ranks at least 100 |
| Levels.CompareConsistent | src/app/page.tsx:83-95 | the comparator answers 0 only for equal names, and swapping its arguments flips its sign |
| Levels.LexLessTransitive | src/app/page.tsx:94 | the code-point order used for ties is transitive |
| Levels.LexLessTotal | src/app/page.tsx:94 | the tie order relates any two distinct names |
| Levels.BeforeTransitive | src/app/page.tsx:83-95 | "lists before" is transitive |
| Levels.BeforeAsymmetric | src/app/page.tsx:83-95 | "lists before" is asymmetric |
| Levels.BeforeTotal | src/app/page.tsx:83-95 | of two distinct levels, one lists before the other |
| Levels.Insert | src/app/page.tsx:83-95 | inserting a new name into a sorted list keeps it sorted and adds exactly that name |
| Levels.SortLevels | src/app/page.tsx:83-95 | the sort yields a sorted permutation of the level set |
| Levels.SortedUnique | src/app/page.tsx:83-95 | two sorted lists with the same names are equal, so the order does not depend on the sorting algorithm |
| Levels.SortedNoDuplicates | src/app/page.tsx:83-95 | a sorted list holds no level twice |
| Levels.KnownLevelsOrder | src/app/page.tsx:84-87 | known levels list by their table entry, higher entry first |
| Levels.UnknownBeforeKnown | src/app/page.tsx:88-89 | every level outside the table lists before every level in it |
| Levels.KnownLevelsListed | src/app/page.tsx:83-95 | the eight known levels, met in any order, list as TERMINALE, PREMIERE, SECONDE, 3EME, 4EME, 5EME, 6EME, CM2 |
| Template.EscapePlain | src/app/page.tsx:274 | escaping leaves a name without double quotes unchanged |
| Template.UnescapeEscape | src/app/page.tsx:274 | escaping is injective: `Unescape` is a left inverse of it, so no two names give the same escaped text |
| Template.EscapeFacts | src/app/page.tsx:274 | escaping never shortens a name and never introduces a `,` or `;` |
| Template.SingleHeader | src/app/page.tsx:163-164 | a header line without `,` or `;` is one part and yields exactly the one name that part normalises to, when that name is non-empty |
| Template.EscapedHeaderRead | src/app/page.tsx:163-164 | a non-empty name without delimiters, written quoted and escaped as the template does, is read by the header parser as its escaped form upper-cased: the outer quotes go, the inner ones stay doubled |
| Template.QuoteInNameDoubled | src/app/page.tsx:163 | so a name holding a double quote does not read back as itself: `A"B` comes back as `A""B` |
| Template.CsvHeadersFacts | src/app/page.tsx:34-39 | the seventeen column names are distinct and include every column the importer defaults |
| Template.TemplateHeaderLine | src/app/page.tsx:274 | for plain names, the template text is the quoted names joined by `,` plus CRLF, and the importer's header parsing gives the names back |
| Template.TemplateImport | src/app/page.tsx:274 | importing a template as it is fails with "no data rows" |
| Template.TemplateImportsAsEmpty | src/app/page.tsx:274 | importing the downloaded template as it is fails with "no data rows" |
| Template.TemplateRecord | src/app/page.tsx:274 | a template of distinct plain names that covers the defaulted columns, plus one quoted record line, imports as one row; each column holds the record's value at its position |
| Template.TemplateWithRecord | src/app/page.tsx:274 | the downloaded template plus one quoted record line imports as that record, keyed by the seventeen column names |

## Left out

- React state, effects and rendering; the `FileReader`; `localStorage` persistence (src/app/page.tsx:100-129); the drag-and-drop handlers; the DOM download of the template (lines 275-285). These are I/O and UI. The model starts from the text the reader delivers.
- The file-type gate in `processFile` (lines 143-147) depends on browser file metadata and is not modelled.
- The `try`/`catch` around the parse: none of the modelled operations throws.
- `setError`, `setParsedData` and the `extractLevelsAndStats(null)` calls on each failure: a failure is the `Failed` outcome. Calling `extractLevelsAndStats` with no data gives the same result as calling it with no rows.
- Text.UpperChar: `toUpperCase` is modelled for ASCII, Latin-1, dotless i (`ı` to `I`) and long s (`ſ` to `S`). Every other character outside ASCII whose upper case differs is left unchanged: those whose upper case is longer than one character (`ß` to `SS`, `ﬁ` to `FI`) and those whose upper case lies outside Latin-1 (`µ`, Greek, Cyrillic). The level names are ASCII, so they are unaffected. The SEXE comparison is unaffected too: apart from the letters modelled, no character upper-cases to a letter of MASCULIN, FEMININ or FÉMININ, and no longer expansion occurs in them. Column names holding such characters are stored under a different key than the page's, for example `STRAßE` instead of `STRASSE`.
- Levels.LocaleCompare: `localeCompare` depends on the browser's locale and is modelled as code-point order. Level names hold only digits and capital ASCII letters. On those, the model agrees with the root collation and with every collation that leaves the digits and the letters A to Z untailored. It can differ under a locale that reorders a letter, such as Estonian with Z. It can also differ under one that contracts letter pairs: Czech sorts CH after H, so `CH1` comes after `D1`, and Danish sorts AA as Å, after Z. The tie-break applies only to unknown levels with the same number.
- Levels.DigitsValue: `parseInt` is modelled as an exact natural number. Digit runs longer than fifteen digits lose precision in JavaScript's floating point.
- Levels.SortLevels: `Array.prototype.sort` is modelled by an insertion sort. `SortedUnique` shows that any algorithm honouring the comparator gives the same list.
- The header line is not trimmed again after its outer quotes are stripped, as in the source: `" nom "` becomes the column name ` NOM `.
- A data line is kept when any of its values is non-empty, even one past the last column. Such a row can therefore hold only empty values, as in the source.
- `values.length > 0` always holds: the field loop pushes the last value unconditionally.
