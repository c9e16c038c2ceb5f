/**
 * The changed-file coverage report: keep the Java paths of the diff, look each one up
 * in the JaCoCo report, build one row with a link into the HTML report per file that
 * has coverage, and single out the rows below the threshold.
 */
module ChangedFileReport {
  import opened Wrappers
  import opened Seqs
  import opened Paths
  import opened Jacoco

  /** A diff line names a Java source file. */
  predicate IsJavaPath(line: string)
  {
    EndsWith(line, ".java")
  }

  /** The filter of `get_changed_files` over the lines of `git diff --name-only`. */
  function JavaFiles(diffLines: seq<string>): (r: seq<string>)
    ensures IsSubsequence(r, diffLines)
    ensures forall f :: f in r <==> f in diffLines && IsJavaPath(f)
    ensures forall f :: multiset(r)[f] == if IsJavaPath(f) then multiset(diffLines)[f] else 0
  {
    Filter(diffLines, IsJavaPath)
  }

  /** One row of the report table. */
  datatype Row = Row(file: string, lineRate: real, branchRate: real, link: string)

  /** `package.replace('.', '/')`: the package name as a directory path. */
  function PackagePath(pkg: string): (r: string)
    ensures |r| == |pkg|
    ensures forall i :: 0 <= i < |pkg| ==> r[i] == if pkg[i] == '.' then '/' else pkg[i]
    ensures '.' !in r
  {
    ReplaceChar(pkg, '.', '/');
    ReplaceAll(pkg, ".", "/")
  }

  /** `name.replace('.java', '.html')`: the name of the HTML page of a source file. */
  function HtmlName(name: string): string
  {
    ReplaceAll(name, ".java", ".html")
  }

  /** The `coverage_link` of a row: HTML directory, package path, HTML page name, joined. */
  function Link(htmlDir: string, pkg: string, path: string): string
  {
    Join(Join(htmlDir, PackagePath(pkg)), HtmlName(Basename(path)))
  }

  /**
   * The row for one changed file, or None when the file is skipped: no source file of
   * that name, or an exception inside the `try` (a counter `int()` rejects, or a package
   * without a name, whose `None.replace` raises).
   */
  function RowFor(report: Report, htmlDir: string, path: string): Option<Row>
  {
    RowFrom(path, htmlDir, Lookup(report, Basename(path)))
  }

  /** The row for `path` given the lookup's answer for it; a row always names its own file. */
  function RowFrom(path: string, htmlDir: string, answer: Attempt<Option<FileCoverage>>): (r: Option<Row>)
    ensures r.Some? ==> r.value.file == path
  {
    match answer
    case Raised => None
    case Ok(None) => None
    case Ok(Some(cov)) =>
      match cov.package
      case None => None
      case Some(pkg) => Some(Row(path, cov.lineRate, cov.branchRate, Link(htmlDir, pkg, path)))
  }

  /** A skipped file contributes no row, a kept one its row. */
  function RowsOf(row: Option<Row>): seq<Row>
  {
    match row
    case None => []
    case Some(r) => [r]
  }

  /** The rows the loop of `analyze_coverage` collects, in the order of the changed files. */
  function CollectRows(report: Report, htmlDir: string, files: seq<string>): seq<Row>
    decreases |files|
  {
    if files == [] then []
    else CollectRows(report, htmlDir, files[..|files| - 1]) + RowsOf(RowFor(report, htmlDir, files[|files| - 1]))
  }

  /** One more changed file, whose lookup answered `coverage`, adds its row, if any, at the end. */
  lemma CollectRowsStep(report: Report, htmlDir: string, files: seq<string>, i: nat,
                        coverage: Attempt<Option<FileCoverage>>)
    requires i < |files|
    requires coverage == Lookup(report, Basename(files[i]))
    ensures CollectRows(report, htmlDir, files[..i + 1]) ==
      CollectRows(report, htmlDir, files[..i]) +
      if coverage.Ok? && coverage.value.Some? && coverage.value.value.package.Some? then
        [Row(files[i], coverage.value.value.lineRate, coverage.value.value.branchRate,
             Link(htmlDir, coverage.value.value.package.value, files[i]))]
      else []
  {
    assert files[..i + 1][..i] == files[..i];
    RowFromAnswer(files[i], htmlDir, coverage);
  }

  /** The file column of a list of rows. */
  function FilesOf(rows: seq<Row>): (r: seq<string>)
    ensures |r| == |rows| && forall k :: 0 <= k < |rows| ==> r[k] == rows[k].file
  {
    seq(|rows|, k requires 0 <= k < |rows| => rows[k].file)
  }

  /** The condition of the warning list: either rate, as a percentage, strictly below the threshold. */
  predicate BelowThreshold(row: Row, threshold: real)
  {
    row.lineRate * 100.0 < threshold || row.branchRate * 100.0 < threshold
  }

  /** `low_coverage` of `display_coverage_results`. */
  function LowCoverage(rows: seq<Row>, threshold: real): (r: seq<Row>)
    ensures IsSubsequence(r, rows)
    ensures forall row :: row in r <==> row in rows && BelowThreshold(row, threshold)
    ensures forall row :: multiset(r)[row] == if BelowThreshold(row, threshold) then multiset(rows)[row] else 0
  {
    Filter(rows, row => BelowThreshold(row, threshold))
  }

  /** The row of a file, in terms of the lookup's answer for its basename. */
  lemma RowFromAnswer(path: string, htmlDir: string, coverage: Attempt<Option<FileCoverage>>)
    ensures RowsOf(RowFrom(path, htmlDir, coverage)) ==
      if coverage.Ok? && coverage.value.Some? && coverage.value.value.package.Some? then
        [Row(path, coverage.value.value.lineRate, coverage.value.value.branchRate,
             Link(htmlDir, coverage.value.value.package.value, path))]
      else []
  {
    match coverage
    case Raised =>
    case Ok(None) =>
    case Ok(Some(cov)) =>
  }

  /** A run either stops early, with no Java file changed, or shows the rows and their warnings. */
  datatype Outcome = NoJavaChanges | Shown(rows: seq<Row>, warnings: seq<Row>)

  /** What `analyze_coverage` shows for the given diff output and report. */
  function Analysis(diffLines: seq<string>, report: Report, htmlDir: string, threshold: real): Outcome
  {
    var files := JavaFiles(diffLines);
    if files == [] then NoJavaChanges
    else
      var rows := CollectRows(report, htmlDir, files);
      Shown(rows, LowCoverage(rows, threshold))
  }

  /** The loop of `analyze_coverage`: look up every changed file and append a row for each one found. */
  method CollectCoverageRows(report: Report, htmlDir: string, changed: seq<string>) returns (rows: seq<Row>)
    ensures rows == CollectRows(report, htmlDir, changed)
  {
    rows := [];
    var i := 0;
    while i < |changed|
      invariant 0 <= i <= |changed|
      invariant rows == CollectRows(report, htmlDir, changed[..i])
    {
      var path := changed[i];
      var coverage := GetCoverage(report, Basename(path));
      CollectRowsStep(report, htmlDir, changed, i, coverage);
      if coverage.Ok? && coverage.value.Some? && coverage.value.value.package.Some? {
        var cov := coverage.value.value;
        rows := rows + [Row(path, cov.lineRate, cov.branchRate, Link(htmlDir, cov.package.value, path))];
      }
      i := i + 1;
    }
    assert changed[..i] == changed;
  }

  /**
   * `analyze_coverage` with `display_coverage_results`' warning filter: the git output,
   * the parsed report and the arguments are parameters.
   */
  method AnalyzeCoverage(diffLines: seq<string>, report: Report, htmlDir: string, threshold: real)
    returns (out: Outcome)
    ensures out == Analysis(diffLines, report, htmlDir, threshold)
  {
    var changed := JavaFiles(diffLines);
    if changed == [] {
      return NoJavaChanges;
    }
    var rows := CollectCoverageRows(report, htmlDir, changed);
    out := Shown(rows, LowCoverage(rows, threshold));
  }

  /** The run stops early exactly when no line of the diff names a Java file. */
  lemma NoJavaChangesIff(diffLines: seq<string>, report: Report, htmlDir: string, threshold: real)
    ensures Analysis(diffLines, report, htmlDir, threshold) == NoJavaChanges <==>
      forall f :: f in diffLines ==> !IsJavaPath(f)
  {
    var files := JavaFiles(diffLines);
    if files != [] {
      assert files[0] in files;
    }
  }

  /** A changed file gets a row exactly when the lookup finds it, without raising, in a named package. */
  lemma RowForIff(report: Report, htmlDir: string, path: string)
    ensures RowFor(report, htmlDir, path).Some? <==>
      Lookup(report, path).Ok? && Lookup(report, path).value.Some? &&
      Lookup(report, path).value.value.package.Some?
    ensures RowFor(report, htmlDir, path).Some? ==>
      var row, cov := RowFor(report, htmlDir, path).value, Lookup(report, path).value.value;
      row.file == path && row.lineRate == cov.lineRate && row.branchRate == cov.branchRate &&
      row.link == Link(htmlDir, cov.package.value, path)
  {
    LookupOfBasename(report, path);
    RowFromAnswer(path, htmlDir, Lookup(report, path));
    assert RowFor(report, htmlDir, path) == RowFrom(path, htmlDir, Lookup(report, path));
  }

  /** The file column of two row lists one after the other. */
  lemma FilesOfAppend(a: seq<Row>, b: seq<Row>)
    ensures FilesOf(a + b) == FilesOf(a) + FilesOf(b)
  {
  }

  /** The row built for a file names that file. */
  lemma RowNamesItsFile(row: Option<Row>, path: string)
    requires row.Some? ==> row.value.file == path
    ensures FilesOf(RowsOf(row)) == if row.Some? then [path] else []
  {
  }

  /** The file column after one more changed file. */
  lemma FilesOfStep(report: Report, htmlDir: string, files: seq<string>)
    requires files != []
    ensures var init, last := files[..|files| - 1], files[|files| - 1];
      FilesOf(CollectRows(report, htmlDir, files)) ==
      FilesOf(CollectRows(report, htmlDir, init)) +
      (if RowFor(report, htmlDir, last).Some? then [last] else [])
  {
    var init, last := files[..|files| - 1], files[|files| - 1];
    FilesOfAppend(CollectRows(report, htmlDir, init), RowsOf(RowFor(report, htmlDir, last)));
    RowNamesItsFile(RowFor(report, htmlDir, last), last);
  }

  /** The file column of the rows is a subsequence of the changed files, so there are at most as many rows. */
  lemma {:induction false} RowsAreSubsequence(report: Report, htmlDir: string, files: seq<string>)
    ensures |CollectRows(report, htmlDir, files)| <= |files|
    ensures IsSubsequence(FilesOf(CollectRows(report, htmlDir, files)), files)
    decreases |files|
  {
    if files != [] {
      var init, last := files[..|files| - 1], files[|files| - 1];
      assert files == init + [last];
      RowsAreSubsequence(report, htmlDir, init);
      FilesOfStep(report, htmlDir, files);
      var before := FilesOf(CollectRows(report, htmlDir, init));
      var after := FilesOf(CollectRows(report, htmlDir, files));
      SubsequenceExtend(before, init, last);
      if RowFor(report, htmlDir, last).Some? {
        assert after == before + [last];
      } else {
        assert after == before;
      }
    }
  }

  /** A changed file shows up in the rows exactly when it has a row of its own. */
  lemma {:induction false} RowsCoverExactlyFilesWithRows(report: Report, htmlDir: string, files: seq<string>)
    ensures forall f :: f in FilesOf(CollectRows(report, htmlDir, files)) <==>
      f in files && RowFor(report, htmlDir, f).Some?
    decreases |files|
  {
    if files != [] {
      var init, last := files[..|files| - 1], files[|files| - 1];
      assert files == init + [last];
      RowsCoverExactlyFilesWithRows(report, htmlDir, init);
      FilesOfStep(report, htmlDir, files);
    }
  }

  /** A changed file has a row of its own. */
  predicate HasRow(report: Report, htmlDir: string, path: string)
  {
    RowFor(report, htmlDir, path).Some?
  }

  /**
   * The file column of the rows is exactly the changed files that have a row, in order and
   * each as often as it is listed, so a file listed twice gets two rows.
   */
  lemma {:induction false} RowsFollowFilesWithRows(report: Report, htmlDir: string, files: seq<string>)
    ensures FilesOf(CollectRows(report, htmlDir, files)) == Filter(files, f => HasRow(report, htmlDir, f))
    ensures |CollectRows(report, htmlDir, files)| == |Filter(files, f => HasRow(report, htmlDir, f))|
    decreases |files|
  {
    if files != [] {
      var init, last := files[..|files| - 1], files[|files| - 1];
      RowsFollowFilesWithRows(report, htmlDir, init);
      FilesOfStep(report, htmlDir, files);
    }
  }

  /** Every collected row is the one built for its own file. */
  lemma {:induction false} RowsMatchTheirFiles(report: Report, htmlDir: string, files: seq<string>)
    ensures forall row :: row in CollectRows(report, htmlDir, files) ==>
      RowFor(report, htmlDir, row.file) == Some(row)
    decreases |files|
  {
    if files != [] {
      var init, last := files[..|files| - 1], files[|files| - 1];
      RowsMatchTheirFiles(report, htmlDir, init);
      var before, lastRow := CollectRows(report, htmlDir, init), RowFor(report, htmlDir, last);
      assert CollectRows(report, htmlDir, files) == before + RowsOf(lastRow);
      forall row | row in before + RowsOf(lastRow) ensures RowFor(report, htmlDir, row.file) == Some(row) {
        if row !in before {
          assert lastRow == Some(row) && row.file == last;
        }
      }
    }
  }

  /** The warning list holds exactly the shown rows below the threshold, in table order. */
  lemma WarningsAreRowsBelowThreshold(diffLines: seq<string>, report: Report, htmlDir: string, threshold: real)
    requires Analysis(diffLines, report, htmlDir, threshold).Shown?
    ensures var out := Analysis(diffLines, report, htmlDir, threshold);
      IsSubsequence(out.warnings, out.rows) &&
      |out.rows| <= |JavaFiles(diffLines)| &&
      (forall row :: row in out.warnings <==>
        row in out.rows &&
        (row.lineRate * 100.0 < threshold || row.branchRate * 100.0 < threshold)) &&
      forall row :: multiset(out.warnings)[row] ==
        if row.lineRate * 100.0 < threshold || row.branchRate * 100.0 < threshold then multiset(out.rows)[row] else 0
  {
    RowsAreSubsequence(report, htmlDir, JavaFiles(diffLines));
  }

  /**
   * For a changed Java file whose basename is `Stem.java`, with `.java` only at its end, in a
   * dotted package, the link is `htmlDir/pkg-as-path/Stem.html`.
   */
  lemma LinkLayout(htmlDir: string, pkg: string, path: string)
    requires htmlDir != [] && htmlDir[|htmlDir| - 1] != '/'
    requires pkg != [] && pkg[0] != '.' && pkg[0] != '/'
    requires pkg[|pkg| - 1] != '.' && pkg[|pkg| - 1] != '/'
    requires IsJavaPath(path)
    requires forall i :: 0 <= i < |Basename(path)| - 5 ==> !OccursAt(Basename(path), ".java", i)
    ensures var file := Basename(path);
      |file| >= 5 &&
      Link(htmlDir, pkg, path) == htmlDir + "/" + PackagePath(pkg) + "/" + (file[..|file| - 5] + ".html")
  {
    BasenameKeepsSuffix(path, ".java");
    var file := Basename(path);
    var stem := file[..|file| - 5];
    assert file == stem + ".java";
    LinkOfStem(htmlDir, pkg, path, stem);
  }

  /** The link for a basename `stem + ".java"`, the other conditions as in `LinkLayout`. */
  lemma LinkOfStem(htmlDir: string, pkg: string, path: string, stem: string)
    requires htmlDir != [] && htmlDir[|htmlDir| - 1] != '/'
    requires pkg != [] && pkg[0] != '.' && pkg[0] != '/'
    requires pkg[|pkg| - 1] != '.' && pkg[|pkg| - 1] != '/'
    requires Basename(path) == stem + ".java"
    requires forall i :: 0 <= i < |stem| ==> !OccursAt(stem + ".java", ".java", i)
    ensures Link(htmlDir, pkg, path) == htmlDir + "/" + PackagePath(pkg) + "/" + (stem + ".html")
  {
    var dir := PackagePath(pkg);
    assert dir[0] == pkg[0];
    assert dir[|dir| - 1] == pkg[|pkg| - 1];
    HtmlNameOfSource(path, stem);
    var name := stem + ".html";
    assert Link(htmlDir, pkg, path) == Join(Join(htmlDir, dir), name);
    JoinThree(htmlDir, dir, name);
  }

  /** `Stem.java` becomes `Stem.html` when `.java` occurs only at the end. */
  lemma HtmlNameOfSource(path: string, stem: string)
    requires Basename(path) == stem + ".java"
    requires forall i :: 0 <= i < |stem| ==> !OccursAt(stem + ".java", ".java", i)
    ensures HtmlName(Basename(path)) == stem + ".html"
    ensures (stem + ".html")[0] != '/'
  {
    ReplaceFinalOccurrence(stem, ".java", ".html");
    if stem != [] {
      assert stem[0] == Basename(path)[0];
    }
  }

  /** The threshold test is strict: 79% warns at 80, exactly 80% does not. */
  lemma ThresholdIsStrict()
    ensures BelowThreshold(Row("A.java", 0.79, 0.9, ""), 80.0)
    ensures !BelowThreshold(Row("B.java", 0.8, 0.9, ""), 80.0)
  {
  }
}
