/**
 * The part of a JaCoCo XML report the coverage lookup reads, as a tree of values,
 * and the lookup itself: find the source file, then turn its LINE and BRANCH
 * counters into rates.
 */
module Jacoco {
  import opened Wrappers
  import opened Paths

  /** A `covered` or `missed` attribute as `int(counter.get(attr, 0))` sees it. */
  datatype Count = Absent | Number(n: nat) | NotANumber

  /** A `<counter type=... covered=... missed=...>` element; a missing `type` is any other string. */
  datatype Counter = Counter(kind: string, covered: Count, missed: Count)

  /** A `<sourcefile name=...>` element with its own counters, in document order. */
  datatype SourceFile = SourceFile(name: Option<string>, counters: seq<Counter>)

  /** A `<package name=...>` element with its source files, in document order. */
  datatype Package = Package(name: Option<string>, sourceFiles: seq<SourceFile>)

  /** All `<package>` elements of a report, in document order. */
  type Report = seq<Package>

  const LINE := "LINE"
  const BRANCH := "BRANCH"

  /** `int(counter.get(attr, 0))`: a missing attribute reads as 0, a non-number raises (None here). */
  function CountValue(c: Count): Option<nat>
  {
    match c
    case Absent => Some(0)
    case Number(n) => Some(n)
    case NotANumber => None
  }

  /** The counter loop only looks at LINE and BRANCH counters. */
  predicate IsRated(c: Counter)
  {
    c.kind == LINE || c.kind == BRANCH
  }

  /** Both attributes of the counter convert with `int()`. */
  predicate Readable(c: Counter)
  {
    CountValue(c.covered).Some? && CountValue(c.missed).Some?
  }

  /** `covered / total if total > 0 else 1.0`: a counter that counted nothing is fully covered. */
  function Ratio(covered: nat, missed: nat): (r: real)
    ensures 0.0 <= r <= 1.0
  {
    var total := covered + missed;
    if total > 0 then
      FractionBounded(covered as real, total as real);
      covered as real / total as real
    else 1.0
  }

  /** A part of a positive whole, divided by the whole, lies in [0, 1]. */
  lemma FractionBounded(part: real, whole: real)
    requires 0.0 <= part <= whole && whole > 0.0
    ensures 0.0 <= part / whole <= 1.0
  {
    var q := part / whole;
    assert q * whole == part;
  }

  /**
   * What a counter's rate means: exactly the covered share when it counted something,
   * 1.0 exactly when nothing was missed, 0.0 exactly when something was missed and
   * nothing covered.
   */
  lemma RatioMeaning(covered: nat, missed: nat)
    ensures covered + missed > 0 ==> Ratio(covered, missed) * (covered + missed) as real == covered as real
    ensures Ratio(covered, missed) == 1.0 <==> missed == 0
    ensures Ratio(covered, missed) == 0.0 <==> covered == 0 && missed > 0
  {
    var total := covered + missed;
    if total > 0 {
      var r := Ratio(covered, missed);
      assert r == covered as real / total as real;
      assert r * total as real == covered as real;
      if r == 1.0 {
        assert covered as real == total as real;
      }
      if r == 0.0 {
        assert covered as real == 0.0;
      }
    }
  }

  /** The rate of one readable counter. */
  function CounterRate(c: Counter): real
    requires Readable(c)
  {
    Ratio(CountValue(c.covered).value, CountValue(c.missed).value)
  }

  /** The index of the last counter of type `kind`, if there is one. */
  function LastOfKind(cs: seq<Counter>, kind: string): (r: Option<nat>)
    ensures r.None? <==> forall i :: 0 <= i < |cs| ==> cs[i].kind != kind
    ensures r.Some? ==>
      r.value < |cs| && cs[r.value].kind == kind &&
      forall j :: r.value < j < |cs| ==> cs[j].kind != kind
  {
    if cs == [] then None
    else if cs[|cs| - 1].kind == kind then Some(|cs| - 1)
    else LastOfKind(cs[..|cs| - 1], kind)
  }

  /** Every LINE and BRANCH counter converts; otherwise the counter loop raises. */
  predicate AllReadable(cs: seq<Counter>)
  {
    forall i :: 0 <= i < |cs| && IsRated(cs[i]) ==> Readable(cs[i])
  }

  /**
   * The rate the counter loop leaves for `kind` (LINE or BRANCH): 0 when the source file
   * has no counter of that type, otherwise the rate of the last one.
   */
  function KindRate(cs: seq<Counter>, kind: string): real
    requires kind == LINE || kind == BRANCH
    requires AllReadable(cs)
  {
    match LastOfKind(cs, kind)
    case None => 0.0
    case Some(i) => CounterRate(cs[i])
  }

  /** The line and branch rates of one source file. */
  datatype Rates = Rates(line: real, branch: real)

  /** What the counter loop of the lookup produces for a source file's counters. */
  function SourceRates(cs: seq<Counter>): Attempt<Rates>
  {
    if AllReadable(cs) then Ok(Rates(KindRate(cs, LINE), KindRate(cs, BRANCH))) else Raised
  }

  /** The index of the first source file in `files` named `name`. */
  function FirstNamed(files: seq<SourceFile>, name: string): (r: Option<nat>)
    ensures r.None? <==> forall s :: 0 <= s < |files| ==> files[s].name != Some(name)
    ensures r.Some? ==>
      r.value < |files| && files[r.value].name == Some(name) &&
      forall s :: 0 <= s < r.value ==> files[s].name != Some(name)
  {
    if files == [] then None
    else if files[0].name == Some(name) then Some(0)
    else
      match FirstNamed(files[1..], name)
      case None => None
      case Some(s) => Some(s + 1)
  }

  /** Where a source file sits in the report: its package, and its place inside that package. */
  datatype Position = Position(pkg: nat, file: nat)

  /** `pos` names a source file of `report`. */
  predicate InReport(report: Report, pos: Position)
  {
    pos.pkg < |report| && pos.file < |report[pos.pkg].sourceFiles|
  }

  /** No source file of a package before `upTo` is named `name`. */
  predicate NoneNamedBefore(report: Report, name: string, upTo: nat)
    requires upTo <= |report|
  {
    forall p, s :: 0 <= p < upTo && 0 <= s < |report[p].sourceFiles| ==>
      report[p].sourceFiles[s].name != Some(name)
  }

  /**
   * The first source file named `name`, scanning packages and then their source
   * files in document order.
   */
  function FirstMatch(report: Report, name: string): (r: Option<Position>)
    ensures r.None? <==> NoneNamedBefore(report, name, |report|)
    ensures r.Some? ==>
      InReport(report, r.value) &&
      report[r.value.pkg].sourceFiles[r.value.file].name == Some(name) &&
      NoneNamedBefore(report, name, r.value.pkg) &&
      forall s :: 0 <= s < r.value.file ==> report[r.value.pkg].sourceFiles[s].name != Some(name)
  {
    if report == [] then None
    else
      match FirstNamed(report[0].sourceFiles, name)
      case Some(s) => Some(Position(0, s))
      case None =>
        var rest := FirstMatch(report[1..], name);
        assert forall p :: 0 < p < |report| ==> report[p] == report[1..][p - 1];
        match rest
        case None => None
        case Some(q) => Some(Position(q.pkg + 1, q.file))
  }

  /** The lookup's answer for a found file: its rates and the name of its package. */
  datatype FileCoverage = FileCoverage(lineRate: real, branchRate: real, package: Option<string>)

  /**
   * `get_coverage_from_jacoco(report, query)`: `Ok(None)` when no source file is named like
   * the basename of `query`, `Raised` when the matching file has a counter `int()` rejects.
   */
  function Lookup(report: Report, query: string): Attempt<Option<FileCoverage>>
  {
    match FirstMatch(report, Basename(query))
    case None => Ok(None)
    case Some(pos) =>
      match SourceRates(report[pos.pkg].sourceFiles[pos.file].counters)
      case Raised => Raised
      case Ok(rates) => Ok(Some(FileCoverage(rates.line, rates.branch, report[pos.pkg].name)))
  }

  /** Extending the counters by one: the new counter decides `kind`'s rate exactly when it has that type. */
  lemma KindRateStep(cs: seq<Counter>, i: nat, kind: string)
    requires i < |cs|
    requires kind == LINE || kind == BRANCH
    requires AllReadable(cs[..i + 1])
    ensures AllReadable(cs[..i])
    ensures KindRate(cs[..i + 1], kind) ==
            if cs[i].kind == kind then CounterRate(cs[i]) else KindRate(cs[..i], kind)
  {
    assert cs[..i + 1][..i] == cs[..i];
    assert forall j :: 0 <= j < i ==> cs[..i][j] == cs[..i + 1][j];
  }

  /**
   * The counter loop of `get_coverage_from_jacoco`: `line_rate` and `branch_rate` start at 0
   * and are overwritten by every LINE or BRANCH counter; converting a bad attribute raises.
   */
  method ReadRates(counters: seq<Counter>) returns (r: Attempt<Rates>)
    ensures r == SourceRates(counters)
  {
    var lineRate, branchRate := 0.0, 0.0;
    var i := 0;
    while i < |counters|
      invariant 0 <= i <= |counters|
      invariant AllReadable(counters[..i])
      invariant lineRate == KindRate(counters[..i], LINE)
      invariant branchRate == KindRate(counters[..i], BRANCH)
    {
      var c := counters[i];
      if c.kind == BRANCH || c.kind == LINE {
        var covered := CountValue(c.covered);
        var missed := CountValue(c.missed);
        if covered.None? || missed.None? {
          assert !Readable(counters[i]);
          return Raised;
        }
        if c.kind == BRANCH {
          branchRate := Ratio(covered.value, missed.value);
        } else {
          lineRate := Ratio(covered.value, missed.value);
        }
      }
      assert AllReadable(counters[..i + 1]) by {
        assert forall j :: 0 <= j < i ==> counters[..i + 1][j] == counters[..i][j];
      }
      KindRateStep(counters, i, LINE);
      KindRateStep(counters, i, BRANCH);
      i := i + 1;
    }
    assert counters[..i] == counters;
    r := Ok(Rates(lineRate, branchRate));
  }

  /** A match with no match before it, in document order, is the first match. */
  lemma FirstMatchIsUnique(report: Report, name: string, pos: Position)
    requires InReport(report, pos)
    requires report[pos.pkg].sourceFiles[pos.file].name == Some(name)
    requires NoneNamedBefore(report, name, pos.pkg)
    requires forall s :: 0 <= s < pos.file ==> report[pos.pkg].sourceFiles[s].name != Some(name)
    ensures FirstMatch(report, name) == Some(pos)
  {
    var r := FirstMatch(report, name);
    assert r.Some?;
  }

  /**
   * `get_coverage_from_jacoco`: scan packages and then their source files in document
   * order and return on the first source file named like the basename of the query.
   */
  method GetCoverage(report: Report, sourceFile: string) returns (r: Attempt<Option<FileCoverage>>)
    ensures r == Lookup(report, sourceFile)
  {
    var name := Basename(sourceFile);
    var p := 0;
    while p < |report|
      invariant 0 <= p <= |report|
      invariant NoneNamedBefore(report, name, p)
    {
      var files := report[p].sourceFiles;
      var s := 0;
      while s < |files|
        invariant 0 <= s <= |files|
        invariant forall s' :: 0 <= s' < s ==> files[s'].name != Some(name)
      {
        if files[s].name == Some(name) {
          FirstMatchIsUnique(report, name, Position(p, s));
          var rates := ReadRates(files[s].counters);
          match rates {
            case Raised =>
              return Raised;
            case Ok(found) =>
              return Ok(Some(FileCoverage(found.line, found.branch, report[p].name)));
          }
        }
        s := s + 1;
      }
      p := p + 1;
    }
    r := Ok(None);
  }

  /** The lookup finds nothing exactly when no source file in the report carries the query's basename. */
  lemma LookupNotFoundIff(report: Report, query: string)
    ensures Lookup(report, query) == Ok(None) <==>
      forall p, s :: 0 <= p < |report| && 0 <= s < |report[p].sourceFiles| ==>
        report[p].sourceFiles[s].name != Some(Basename(query))
  {
    match FirstMatch(report, Basename(query))
    case None =>
    case Some(pos) =>
      assert report[pos.pkg].sourceFiles[pos.file].name == Some(Basename(query));
  }

  /**
   * A found result comes from the first source file named like the query, in document
   * order: its rates are the ones its counters give, each in [0, 1], and its package is the
   * enclosing one.
   */
  lemma LookupFoundIsFirstMatch(report: Report, query: string, cov: FileCoverage)
    requires Lookup(report, query) == Ok(Some(cov))
    ensures exists pos ::
      (FirstMatch(report, Basename(query)) == Some(pos) &&
       InReport(report, pos) &&
       report[pos.pkg].sourceFiles[pos.file].name == Some(Basename(query)) &&
       cov.package == report[pos.pkg].name &&
       SourceRates(report[pos.pkg].sourceFiles[pos.file].counters) == Ok(Rates(cov.lineRate, cov.branchRate)))
    ensures 0.0 <= cov.lineRate <= 1.0 && 0.0 <= cov.branchRate <= 1.0
  {
    var pos := FirstMatch(report, Basename(query)).value;
    var cs := report[pos.pkg].sourceFiles[pos.file].counters;
    RatesBounded(cs);
  }

  /** Both rates of a readable source file lie in [0, 1]. */
  lemma RatesBounded(cs: seq<Counter>)
    requires SourceRates(cs).Ok?
    ensures 0.0 <= SourceRates(cs).value.line <= 1.0
    ensures 0.0 <= SourceRates(cs).value.branch <= 1.0
  {
  }

  /** With no counter of type `kind` the rate is 0, not the 1.0 of an empty counter. */
  lemma AbsentKindRateIsZero(cs: seq<Counter>, kind: string)
    requires kind == LINE || kind == BRANCH
    requires AllReadable(cs)
    requires forall i :: 0 <= i < |cs| ==> cs[i].kind != kind
    ensures KindRate(cs, kind) == 0.0
  {
  }

  /** Of several counters of one type, the last one in document order determines the rate. */
  lemma LastCounterDecides(cs: seq<Counter>, kind: string, i: nat)
    requires kind == LINE || kind == BRANCH
    requires AllReadable(cs)
    requires i < |cs| && cs[i].kind == kind
    requires forall j :: i < j < |cs| ==> cs[j].kind != kind
    ensures Readable(cs[i])
    ensures KindRate(cs, kind) == Ratio(CountValue(cs[i].covered).value, CountValue(cs[i].missed).value)
  {
    assert LastOfKind(cs, kind).Some?;
  }

  /**
   * A missing `covered` or `missed` attribute counts as 0: a counter with neither is fully
   * covered, and one with only misses is not covered at all.
   */
  lemma MissingAttributesCountZero(kind: string, m: nat)
    ensures Readable(Counter(kind, Absent, Absent))
    ensures CounterRate(Counter(kind, Absent, Absent)) == 1.0
    ensures m > 0 ==> CounterRate(Counter(kind, Absent, Number(m))) == 0.0
    ensures CounterRate(Counter(kind, Number(m), Absent)) == 1.0
  {
    RatioMeaning(0, m);
    RatioMeaning(m, 0);
  }

  /** Passing an already-stripped basename, as the report does, finds the same file. */
  lemma LookupOfBasename(report: Report, path: string)
    ensures Lookup(report, Basename(path)) == Lookup(report, path)
  {
    BasenameIdempotent(path);
  }
}
