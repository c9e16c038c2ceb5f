# Changed-file coverage report over a JaCoCo report

This project models the decision logic of `jacoco_report.py`, a command-line tool that
reports JaCoCo line and branch coverage for the Java files changed against a base branch.
The tool:

1. keeps the Java paths from the output of `git diff --name-only`;
2. for each path, looks up the first `<sourcefile>` in the JaCoCo XML whose name equals
   the path's basename, scanning packages in document order, and turns that file's LINE
   and BRANCH counters into rates;
3. builds a report row per file it found, with a link into the JaCoCo HTML report;
4. lists the rows whose line or branch rate falls below a threshold.

The XML is replaced by a tree of values (`Jacoco.Report`): a sequence of packages. Each
package has an optional name and a sequence of source files. Each source file has an
optional name and a sequence of counters. A counter is a `(type, covered, missed)` triple.
A `covered`/`missed` attribute is `Absent` (read as 0, like `counter.get(attr, 0)`), a
`Number`, or `NotANumber` (where `int()` raises). Rates are exact `real`s.

Modules:

- `Wrappers` (wrappers.dfy): `Option`, and `Attempt`, which is `Ok(value)` or `Raised`
  for a Python call that may raise.
- `Seqs` (seqs.dfy): `IsSubsequence` and the order-preserving `Filter` behind the two
  list comprehensions.
- `Paths` (paths.dfy): `str.endswith`, `str.replace`, and POSIX `os.path.basename` and
  `os.path.join`.
- `Jacoco` (jacoco.dfy): the report tree and the lookup. The functions `SourceRates` and
  `Lookup` specify `get_coverage_from_jacoco`. The methods `ReadRates` (the counter loop)
  and `GetCoverage` (the nested package/sourcefile loops with early return) implement it
  and are proved equal to those functions.
- `ChangedFileReport` (report.dfy): the `.java` filter, rows and links, the warning list,
  and `analyze_coverage` as the methods `CollectCoverageRows` and `AnalyzeCoverage`. The
  functions `RowFor`, `CollectRows` and `Analysis` specify those methods.

Behaviour the model keeps from the code:

- A source file with no LINE (or BRANCH) counter gets rate 0.
- A counter that counted nothing gets rate 1.0.
- When several counters share a type, the last one wins.
- A `NotANumber` attribute on any LINE or BRANCH counter of the matched file makes the
  lookup raise, and the row is skipped by the `try`/`except` of `analyze_coverage`.
- A matched file whose package has no `name` attribute is skipped too, because
  `None.replace` raises inside the same `try`.
- Two source files with the same name in different packages are not told apart: the
  first one in document order answers for both.

## Model

| member | source | states |
|---|---|---|
| `Seqs.Filter` | jacoco_report.py:66 | the list comprehension `[x for x in xs if keep(x)]` (also lines 150-152): the result is no longer than the input, is an order-preserving subsequence of it, contains an element iff the input does and `keep` holds of it, and holds every kept element exactly as often as the input does |
| `Paths.EndsWith` | jacoco_report.py:66 | `str.endswith`: the string is at least as long as the suffix and its last characters are the suffix; a predicate with no contract beyond this definition |
| `Paths.Basename` | jacoco_report.py:77 | the basename has no '/', is a suffix of the path, and is either the whole path or preceded by a '/' (the part after the last '/') |
| `Paths.BasenameOfPlainName` | jacoco_report.py:77 | a name without '/' is its own basename |
| `Paths.BasenameIdempotent` | jacoco_report.py:113-114 | taking the basename of an already-stripped basename changes nothing |
| `Paths.BasenameKeepsSuffix` | jacoco_report.py:123 | a path ending in a '/'-free suffix such as `.java` has a basename ending in it |
| `Paths.Join` | jacoco_report.py:120-124 | `os.path.join` of two parts ends with the second part; for a relative second part it is the first part, possibly one '/', then the second, and the '/' is there whenever the first part is non-empty and does not end in '/' |
| `Paths.JoinThree` | jacoco_report.py:120-124 | joining three parts with no '/' at the seams puts exactly one '/' between each |
| `Paths.ReplaceAll` | jacoco_report.py:122-123 | `str.replace` of every occurrence, scanning left to right without overlaps; no contract of its own, its behaviour is stated by `ReplaceAbsent`, `ReplaceChar` and `ReplaceFinalOccurrence` |
| `Paths.ReplaceAbsent` | jacoco_report.py:122-123 | `str.replace` of a pattern that does not occur returns the string unchanged |
| `Paths.ReplaceChar` | jacoco_report.py:122 | replacing one character by another keeps the length and maps each character independently |
| `Paths.ReplaceFinalOccurrence` | jacoco_report.py:123 | when the pattern occurs only at the end of `stem + pat`, the result is `stem + rep` |
| `Jacoco.CountValue` | jacoco_report.py:84-85 | `int(counter.get(attr, 0))` (also lines 89-90): an absent attribute reads as 0, a number as itself, a non-number raises (None); no contract beyond this definition |
| `Jacoco.IsRated` | jacoco_report.py:83-88 | the type tests `== 'BRANCH'` and `== 'LINE'`: only those two counter types enter the loop; no contract beyond its definition |
| `Jacoco.Readable` | jacoco_report.py:84-85 | both `int()` conversions of a counter succeed (also lines 89-90); no contract beyond its definition |
| `Jacoco.Ratio` | jacoco_report.py:86-92 | a counter's rate lies in [0, 1] |
| `Jacoco.RatioMeaning` | jacoco_report.py:86-92 | with `covered+missed > 0` the rate times the total is exactly `covered`; the rate is 1.0 iff nothing was missed (so a zero total gives 1.0); it is 0 iff nothing was covered and something was missed |
| `Jacoco.CounterRate` | jacoco_report.py:84-92 | the rate of one readable counter: `Ratio` of its converted `covered` and `missed`; no contract beyond its definition, bounded by `Ratio`'s contract |
| `Jacoco.LastOfKind` | jacoco_report.py:82-92 | gives the index of a counter of the type with none of that type after it, and None exactly when no counter has the type |
| `Jacoco.AllReadable` | jacoco_report.py:82-92 | every LINE and BRANCH counter of the file is `Readable`, which is exactly when the counter loop does not raise (`ReadRates` returns Raised otherwise); no contract beyond its definition |
| `Jacoco.KindRateStep` | jacoco_report.py:82-92 | one more counter overwrites the type's rate exactly when it has that type, and leaves it alone otherwise |
| `Jacoco.KindRate` | jacoco_report.py:80-92 | the rate the counter loop leaves for LINE or BRANCH: 0 without a counter of that type, else the last such counter's rate; no contract of its own, characterised by `AbsentKindRateIsZero` and `LastCounterDecides` |
| `Jacoco.SourceRates` | jacoco_report.py:79-92 | the reference for the counter loop: Raised when a LINE or BRANCH counter has an unreadable attribute, else both `KindRate`s; no contract of its own, `ReadRates` is proved equal to it and `RatesBounded` bounds it |
| `Jacoco.ReadRates` | jacoco_report.py:79-92 | the counter loop returns `SourceRates(counters)`: Raised when a LINE or BRANCH counter has an attribute `int()` rejects, otherwise the last-counter-wins line and branch rates with 0 for an absent type |
| `Jacoco.AbsentKindRateIsZero` | jacoco_report.py:80-81 | with no counter of a type, that type's rate is 0, not 1.0 |
| `Jacoco.LastCounterDecides` | jacoco_report.py:82-92 | of several counters of one type, the last in document order alone determines the rate |
| `Jacoco.MissingAttributesCountZero` | jacoco_report.py:84-92 | a missing `covered`/`missed` counts as 0: no attributes gives 1.0, only misses gives 0.0, only covered gives 1.0 |
| `Jacoco.RatesBounded` | jacoco_report.py:80-92 | both rates of a readable source file lie in [0, 1] |
| `Jacoco.FirstNamed` | jacoco_report.py:76-77 | gives the least index of a source file with the name, and None exactly when there is none |
| `Jacoco.FirstMatch` | jacoco_report.py:75-77 | gives the position of a source file with the name such that no earlier package, and no earlier file of its package, has one; None exactly when no file of the report has the name |
| `Jacoco.FirstMatchIsUnique` | jacoco_report.py:75-77 | a match with no earlier match in package-then-file order is the one `FirstMatch` returns |
| `Jacoco.Lookup` | jacoco_report.py:69-100 | the reference for `get_coverage_from_jacoco`: the first match's `SourceRates` and package name, `Ok(None)` without a match; no contract of its own, characterised by `LookupNotFoundIff`, `LookupFoundIsFirstMatch` and `LookupOfBasename` |
| `Jacoco.GetCoverage` | jacoco_report.py:69-100 | the nested loops with early return compute `Lookup(report, sourceFile)` |
| `Jacoco.LookupNotFoundIff` | jacoco_report.py:75-100 | the lookup answers None exactly when no source file in the report carries the query's basename |
| `Jacoco.LookupFoundIsFirstMatch` | jacoco_report.py:75-98 | a found answer comes from the first matching source file: its rates are that file's counter rates, each in [0, 1], and its package is the enclosing package's name |
| `Jacoco.LookupOfBasename` | jacoco_report.py:113-114 | looking up the basename of a path, as `analyze_coverage` does, gives the same answer as looking up the path |
| `ChangedFileReport.IsJavaPath` | jacoco_report.py:66 | `f.endswith('.java')`; no contract beyond its definition |
| `ChangedFileReport.JavaFiles` | jacoco_report.py:66 | the kept paths are an order-preserving subsequence of the diff lines, contain a line iff it ends with `.java`, and keep every such line as often as it occurs |
| `ChangedFileReport.PackagePath` | jacoco_report.py:122 | the package path has the package name's length, with every '.' turned into '/' and every other character kept, so it has no '.' |
| `ChangedFileReport.HtmlName` | jacoco_report.py:123 | `replace('.java', '.html')` on the file's basename; no contract of its own, `HtmlNameOfSource` states its result for `Stem.java` |
| `ChangedFileReport.Link` | jacoco_report.py:120-124 | the `coverage_link`: HTML directory, package path and HTML name joined with `os.path.join`; no contract of its own, `LinkLayout` states its shape |
| `ChangedFileReport.RowFor` | jacoco_report.py:112-125 | the row of one changed file from the lookup of its basename, or None when it is skipped; no contract of its own, characterised by `RowForIff` |
| `ChangedFileReport.RowFrom` | jacoco_report.py:115-125 | a row built from a lookup answer names the changed file it was built for |
| `ChangedFileReport.RowForIff` | jacoco_report.py:112-128 | a changed file gets a row iff the lookup of its path finds a file in a named package; the row's rates are the lookup's and its link is built from the package and the path |
| `ChangedFileReport.CollectRows` | jacoco_report.py:110-125 | the reference for the loop: the rows of the changed files in their order; no contract of its own, characterised by `RowsFollowFilesWithRows`, `RowsAreSubsequence`, `RowsCoverExactlyFilesWithRows` and `RowsMatchTheirFiles` |
| `ChangedFileReport.CollectCoverageRows` | jacoco_report.py:110-125 | the append loop computes `CollectRows` over the changed files |
| `ChangedFileReport.RowsAreSubsequence` | jacoco_report.py:110-125 | the rows' file column is an order-preserving subsequence of the changed files, so there are at most as many rows as changed files |
| `ChangedFileReport.RowsCoverExactlyFilesWithRows` | jacoco_report.py:110-125 | a path appears in the rows' file column iff it is a changed file that gets a row |
| `ChangedFileReport.RowsFollowFilesWithRows` | jacoco_report.py:110-125 | the rows' file column is exactly the changed files that have a row, filtered in order and each kept as often as it is listed, so there are exactly as many rows as such files |
| `ChangedFileReport.RowsMatchTheirFiles` | jacoco_report.py:115-124 | every collected row is exactly the row built for its own file |
| `ChangedFileReport.BelowThreshold` | jacoco_report.py:151-152 | the warning condition: the line rate times 100 or the branch rate times 100 is strictly below the threshold; no contract beyond its definition, `ThresholdIsStrict` shows the strict `<` |
| `ChangedFileReport.LowCoverage` | jacoco_report.py:150-152 | the warning list is an order-preserving subsequence of the rows, contains a row iff its line rate times 100 or its branch rate times 100 is strictly below the threshold, and keeps each such row as often as it occurs in the rows |
| `ChangedFileReport.Analysis` | jacoco_report.py:103-130 | the reference for the whole run: `NoJavaChanges` without Java files, else the collected rows and their `LowCoverage`; no contract of its own, characterised by `NoJavaChangesIff` and `WarningsAreRowsBelowThreshold` |
| `ChangedFileReport.AnalyzeCoverage` | jacoco_report.py:103-130 | the whole run computes `Analysis`: an early stop when no Java file changed, otherwise the collected rows and their warning list |
| `ChangedFileReport.NoJavaChangesIff` | jacoco_report.py:105-108 | the run stops early, with no rows, exactly when no diff line ends in `.java` |
| `ChangedFileReport.WarningsAreRowsBelowThreshold` | jacoco_report.py:150-152 | in a shown run the warnings are a subsequence of the rows, rows number at most the Java files, a row warns iff a rate times 100 is strictly below the threshold, and each warning row occurs as often as in the rows |
| `ChangedFileReport.HtmlNameOfSource` | jacoco_report.py:123 | `Stem.java` becomes `Stem.html` when `.java` occurs only at its end, and the HTML name does not start with a '/' |
| `ChangedFileReport.LinkLayout` | jacoco_report.py:120-124 | for a changed path ending in `.java` (as `JavaFiles` keeps it), with `.java` only at the end of its basename `Stem.java`, an HTML directory without a trailing '/' and a dotted package, the link is `htmlDir/<package with '.'→'/'>/Stem.html` |
| `ChangedFileReport.ThresholdIsStrict` | jacoco_report.py:150-152 | at threshold 80, a 79% line rate warns and exactly 80% (with 90% branches) does not |

## Left out

- Argument parsing (`parse_arguments`, jacoco_report.py:10-55) is library configuration. The threshold and the HTML directory are parameters of `AnalyzeCoverage`. The base branch is not: it only selects what `git diff` compares against, and the model takes git's output instead; its other uses are in printed messages (jacoco_report.py:107, 146), which are left out.
- Running `git diff` (jacoco_report.py:60-65) is process I/O. The model takes git's output as a sequence of lines, so `splitlines` is not modelled. Git failing and `sys.exit(1)` are not modelled.
- XML parsing with `ET.parse`/`findall` (jacoco_report.py:71-79) is a foreign library. `Jacoco.Report` stands in for the parsed tree. `.//package` finds packages at any depth, for example inside `<group>` elements; the model takes those packages already flattened in document order. A malformed XML file, which makes `ET.parse` raise, is not modelled.
- Table rendering with `tabulate`, all `print` output, and the `:.1f` percentage formatting (jacoco_report.py:135-160) are UI. The model keeps the rows and the warning list that are printed.
- The warning message of the `except` branch (jacoco_report.py:126-128) is not modelled. Its effect, skipping the row, is modelled for the two exceptions that can arise in the modelled code (`int()` on a non-number, `None.replace`).
- `Jacoco.Ratio`: the rates are exact rationals, not IEEE doubles. Float rounding in `covered / total` and in `rate * 100 < threshold` is not modelled. A rate whose float product with 100 lands just below the threshold may therefore warn in Python without warning in the model, or the reverse.
- `Jacoco.Count`: `int()` also accepts negative numbers, signs, whitespace and underscores. The model puts every parseable attribute into one `Number(n: nat)`, so negative counts are not modelled (JaCoCo does not write them).
- `Jacoco.Counter`: a missing `type` attribute is any string other than `LINE` and `BRANCH`. `counter.get('type')` then returns None, which compares unequal to both.
- `Paths.Join` models the POSIX behaviour of `os.path.join` for two parts, applied twice. Windows separators and drive letters are not modelled.
- `Paths.Basename` models the POSIX `os.path.basename` (the part after the last '/').
- The COMPLEXITY counter, the JaCoCo-to-Cobertura conversion and per-method line attribution are not in jacoco_report.py, so they are not part of this model.
