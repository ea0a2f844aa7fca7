/** `generateHTMLReport`: the HTML summary of a run, built as a sequence of
    fragments whose rendering is the string the Java StringBuilder holds. */
module HtmlReport {
  import opened Outcomes
  import opened Text
  import opened Markup
  import opened LineList
  import opened Inputs

  const CrimsonStyle := "style=\"color:crimson\""
  const CrimsonCellStyle := "align='Center' style=\"color:crimson\""
  const GreenCellStyle := "align='Center' style=\"color:green\""
  const TableOpen := "<table border='1'>"
  const TableClose := "</table>"
  const Tr: Fragment := Elem("tr", "", "")

  const StyleSheet := "body {background-color:white;} " + "h1   {color:blue; font-size:300%}"
    + "summary    {color:black; font-size:125%;}" + "header    {color:blue; font-size:200%;}"
    + "th   {color:blue; font-size:125%; background-color:lightgrey;}"

  // ---------------------------------------------------------------------
  // Title banner
  // ---------------------------------------------------------------------

  /** The style sheet and the title banner. */
  function Banner(): seq<Fragment> {
    [Elem("style", "", StyleSheet),
     Elem("h1", "align = 'center'; font-size: 25px; ", "<b>ApexUnit Report</b>\n")]
    + LineSpaces(2)
  }

  // ---------------------------------------------------------------------
  // Coverage summary
  // ---------------------------------------------------------------------

  /** A coverage summary line: flagged crimson exactly when the percentage
      is strictly below its threshold, so equal values are not flagged. */
  function SummaryLine(percent: real, threshold: real, text: string): (f: Fragment)
    ensures f.Elem? && f.tag == "summary" && f.contents == text
    ensures f.props == CrimsonStyle <==> percent < threshold
    ensures f.props != CrimsonStyle ==> f.props == ""
  {
    if percent < threshold then Elem("summary", CrimsonStyle, text) else Elem("summary", "", text)
  }

  function TeamSummaryText(run: RunResults, fmt: NumberFormat): string {
    " Team code coverage: " + fmt.twoDecimals(run.teamCoverage) + "%"
    + "  [The customized team code coverage threshold was: " + fmt.thresholdText(run.teamThreshold) + "%]"
  }

  function OrgWideSummaryText(run: RunResults, fmt: NumberFormat): string {
    "<br/> Org wide code coverage: " + fmt.twoDecimals(run.orgWideCoverage) + "%"
    + "  [The customized org wide code coverage threshold was: " + fmt.thresholdText(run.orgWideThreshold) + "%]"
  }

  /** The "Code Coverage Summary" section: heading, the team line and the
      org-wide line, each compared with its own threshold. */
  function CoverageSummary(run: RunResults, fmt: NumberFormat): (fs: seq<Fragment>)
    ensures |fs| == 5
    ensures fs[0] == Elem("header", "", "Code Coverage Summary: *")
    ensures fs[2].Elem? && fs[2].tag == "summary" && fs[2].contents == TeamSummaryText(run, fmt)
    ensures fs[3].Elem? && fs[3].tag == "summary" && fs[3].contents == OrgWideSummaryText(run, fmt)
    ensures fs[2].props == CrimsonStyle <==> run.teamCoverage < run.teamThreshold
    ensures fs[3].props == CrimsonStyle <==> run.orgWideCoverage < run.orgWideThreshold
  {
    [Elem("header", "", "Code Coverage Summary: *")] + LineSpaces(2)
    + [SummaryLine(run.teamCoverage, run.teamThreshold, TeamSummaryText(run, fmt)),
       SummaryLine(run.orgWideCoverage, run.orgWideThreshold, OrgWideSummaryText(run, fmt))]
    + LineSpaces(2)
  }

  // ---------------------------------------------------------------------
  // Test execution summary
  // ---------------------------------------------------------------------

  /** The fail count: the size of the failed-method list when failures were
      reported and the list is present and non-empty, and 0 otherwise. */
  function FailureCount(run: RunResults): (n: nat)
    ensures n > 0 <==> run.testFailures && run.failedTestMethods.Some? && |run.failedTestMethods.value| > 0
    ensures n > 0 ==> n == |run.failedTestMethods.value|
  {
    if run.testFailures && run.failedTestMethods.Some? && |run.failedTestMethods.value| > 0
    then |run.failedTestMethods.value|
    else 0
  }

  const ExecutedLabel := " Total test classes executed: "
  const AbortedLabel := "<br/>Total Apex test classes aborted: "
  const MethodsLabel := "<br/> Total test methods executed: "
  const PassLabel := "<br/> Test method pass count: "
  const FailLabel := "<br/> Test method fail count: "

  /** One counter of the execution summary: its caption and its value. */
  datatype Counter = Counter(caption: string, value: int)

  /** The counters the execution summary reports, in order. The aborted
      counter is shown only when some test class was aborted; the pass and
      fail counts add up to the executed methods. */
  function ExecutionCounters(run: RunResults): (cs: seq<Counter>)
    ensures |cs| == if run.totalTestClassesAborted > 0 then 5 else 4
    ensures cs[0] == Counter(ExecutedLabel, run.totalTestClasses)
    ensures (exists k :: 0 <= k < |cs| && cs[k].caption == AbortedLabel) <==> run.totalTestClassesAborted > 0
    ensures run.totalTestClassesAborted > 0 ==> cs[1] == Counter(AbortedLabel, run.totalTestClassesAborted)
    ensures cs[|cs| - 3] == Counter(MethodsLabel, run.totalTestMethodsExecuted)
    ensures cs[|cs| - 2].caption == PassLabel && cs[|cs| - 1].caption == FailLabel
    ensures cs[|cs| - 2].value + cs[|cs| - 1].value == run.totalTestMethodsExecuted
    ensures cs[|cs| - 1].value == FailureCount(run)
  {
    var failures := FailureCount(run);
    var cs := [Counter(ExecutedLabel, run.totalTestClasses)]
      + (if run.totalTestClassesAborted > 0 then [Counter(AbortedLabel, run.totalTestClassesAborted)] else [])
      + [Counter(MethodsLabel, run.totalTestMethodsExecuted),
         Counter(PassLabel, run.totalTestMethodsExecuted - failures),
         Counter(FailLabel, failures)];
    assert |AbortedLabel| == 38 && |ExecutedLabel| == 30 && |MethodsLabel| == 35
        && |PassLabel| == 30 && |FailLabel| == 30;
    assert run.totalTestClassesAborted > 0 ==> cs[1].caption == AbortedLabel;
    cs
  }

  /** A counter as the summary prints it: the caption, then the value in
      decimal. */
  function CounterLine(c: Counter): string {
    c.caption + IntToString(c.value)
  }

  /** The printed value reads back as the counter's value. */
  lemma CounterLineReadsBack(c: Counter)
    ensures IsPrefix(c.caption, CounterLine(c))
    ensures var digits := CounterLine(c)[|c.caption|..];
            |digits| >= 1
            && (digits[0] == '-' ==> AllDigits(digits[1..]))
            && (digits[0] != '-' ==> AllDigits(digits))
            && ParseInt(digits) == c.value
  {
    var line := CounterLine(c);
    assert line[..|c.caption|] == c.caption;
    assert line[|c.caption|..] == IntToString(c.value);
    ParseIntOfIntToString(c.value);
  }

  /** The text of the summary element: the counter lines, one after the
      other. */
  function ExecutionSummaryText(run: RunResults): string {
    var cs := ExecutionCounters(run);
    Concat(seq(|cs|, k requires 0 <= k < |cs| => CounterLine(cs[k])))
  }

  /** The "Test Execution Summary" section. */
  function TestExecutionSummary(run: RunResults): (fs: seq<Fragment>)
    ensures |fs| == 3
    ensures fs[2] == Elem("summary", "", ExecutionSummaryText(run))
  {
    [Elem("header", "", "Test Execution Summary: ")] + LineSpaces(2)
    + [Elem("summary", "", ExecutionSummaryText(run))]
    + LineSpaces(1)
  }

  // ---------------------------------------------------------------------
  // Link to the detailed test report
  // ---------------------------------------------------------------------

  const JenkinsMarker := "jenkins"
  const JenkinsJobUrl := "https://jenkins.internal.salesforce.com/job/"
  const JenkinsReportPath := "/lastCompletedBuild/testReport/"
  const LocalReportFile := "ApexUnitReport.xml"

  /** The Jenkins job name: the last path segment of the working directory,
      which is the whole directory when it holds no slash. */
  function JobName(workingDir: string): (job: string)
    ensures forall k :: 0 <= k < |job| ==> job[k] != '/'
    ensures IsSuffix(job, workingDir)
    ensures |job| < |workingDir| ==> workingDir[|workingDir| - |job| - 1] == '/'
  {
    var job := workingDir[LastIndexOf(workingDir, '/') + 1..];
    assert workingDir[|workingDir| - |job|..] == job;
    job
  }

  /** Where the "Detailed Test Report" link points: a local file next to the
      working directory, or the Jenkins test report of the job when the
      working directory mentions Jenkins. */
  function ReportLink(env: Environment): (link: string)
    ensures !Contains(env.workingDir, JenkinsMarker) ==>
              link == env.workingDir + env.fileSeparator + LocalReportFile
    ensures Contains(env.workingDir, JenkinsMarker) ==>
              IsPrefix(JenkinsJobUrl, link) && IsSuffix(JenkinsReportPath, link)
              && |link| == |JenkinsJobUrl| + |JobName(env.workingDir)| + |JenkinsReportPath|
              && link[|JenkinsJobUrl|..|link| - |JenkinsReportPath|] == JobName(env.workingDir)
  {
    if !Contains(env.workingDir, JenkinsMarker) then
      env.workingDir + env.fileSeparator + LocalReportFile
    else
      var job := JobName(env.workingDir);
      Framed(JenkinsJobUrl, job, JenkinsReportPath);
      JenkinsJobUrl + job + JenkinsReportPath
  }

  /** A string framed by a prefix and a suffix gives back its middle. */
  lemma Framed(a: string, m: string, b: string)
    ensures IsPrefix(a, a + m + b) && IsSuffix(b, a + m + b)
    ensures (a + m + b)[|a|..|a + m + b| - |b|] == m
  {
    var s := a + m + b;
    assert s[..|a|] == a;
    assert s[|s| - |b|..] == b;
    assert s[|a|..|s| - |b|] == m;
  }

  /** The "Apex Test Report" section with its link. */
  function TestReportLink(env: Environment): (fs: seq<Fragment>)
    ensures |fs| == 5
    ensures fs[3] == Elem("a", "style=\"font-size:125%\"; href=" + ReportLink(env), "Detailed Test Report")
  {
    LineSpaces(2) + [Elem("header", "", "Apex Test Report: ")] + LineSpaces(2)
    + [Elem("a", "style=\"font-size:125%\"; href=" + ReportLink(env), "Detailed Test Report")]
    + LineSpaces(2)
  }

  // ---------------------------------------------------------------------
  // Detailed coverage table
  // ---------------------------------------------------------------------

  const ColumnLabels: seq<string> := [
    "Apex Class Name", "API Version", "Code Coverage %", "#Covered Lines",
    "#Uncovered Lines", "Covered Lines", "Uncovered Lines", "Length Without Comments(Bytes)"]

  /** The header of the coverage table: eight header cells, one per column. */
  function HeaderRow(): (fs: seq<Fragment>)
    ensures |fs| == 11
    ensures fs[0] == Raw("<header>") && fs[9] == Raw("</header>") && fs[10] == Tr
    ensures forall k :: 0 <= k < 8 ==> fs[k + 1] == HeaderCell("", ColumnLabels[k])
  {
    [Raw("<header>")]
    + seq(8, k requires 0 <= k < 8 => HeaderCell("", ColumnLabels[k]))
    + [Raw("</header>"), Tr]
  }

  /** The style of every cell of a bean's row. */
  function RowStyle(b: CoverageBean, threshold: real): (style: string)
    ensures style == CrimsonCellStyle <==> b.coveragePercentage < threshold
    ensures style != CrimsonCellStyle ==> style == GreenCellStyle
  {
    if b.coveragePercentage < threshold then CrimsonCellStyle else GreenCellStyle
  }

  /** A bean whose line lists can be rendered: neither is an empty non-null list. */
  predicate Renderable(b: CoverageBean) {
    b.coveredLines != Some([]) && b.uncoveredLines != Some([])
  }

  /** The texts of a bean's eight cells, given its rendered line lists. */
  function CellTexts(b: CoverageBean, fmt: NumberFormat, covered: string, uncovered: string): (ts: seq<string>)
    ensures |ts| == 8
    ensures ts[0] == b.className && ts[1] == b.apiVersion
    ensures ts[2] == fmt.twoDecimals(b.coveragePercentage) + "%"
    ensures ts[3] == IntToString(b.numLinesCovered) && ts[4] == IntToString(b.numLinesUncovered)
    ensures ts[5] == covered && ts[6] == uncovered && ts[7] == b.lengthWithoutComments
  {
    [b.className, b.apiVersion, fmt.twoDecimals(b.coveragePercentage) + "%",
     IntToString(b.numLinesCovered), IntToString(b.numLinesUncovered),
     covered, uncovered, b.lengthWithoutComments]
  }

  /** Eight data cells sharing one style, then the `tr` tag that follows them. */
  function StyledRow(style: string, ts: seq<string>): (fs: seq<Fragment>)
    requires |ts| == 8
    ensures |fs| == 9 && fs[8] == Tr
    ensures forall k :: 0 <= k < 8 ==> fs[k] == DataCell(style, ts[k])
  {
    seq(8, k requires 0 <= k < 8 => DataCell(style, ts[k])) + [Tr]
  }

  /** A bean's table row: eight data cells with one style, then a `tr` tag. */
  function BeanRow(b: CoverageBean, threshold: real, fmt: NumberFormat): (r: Result<seq<Fragment>, ReportError>)
    ensures r.Success? <==> Renderable(b)
    ensures r.Failure? ==> r.error == StringIndexOutOfBounds
    ensures r.Success? ==>
              && |r.value| == 9
              && (forall k :: 0 <= k < 8 ==> r.value[k].Elem? && r.value[k].tag == "td"
                                             && r.value[k].props == RowStyle(b, threshold))
              && r.value[8] == Tr
    ensures r.Success? ==> forall k :: 0 <= k < 8 ==>
              r.value[k].contents == CellTexts(b, fmt, RenderLineList(b.coveredLines).value, RenderLineList(b.uncoveredLines).value)[k]
  {
    var covered :- RenderLineList(b.coveredLines);
    var uncovered :- RenderLineList(b.uncoveredLines);
    var ts := CellTexts(b, fmt, covered, uncovered);
    Success(StyledRow(RowStyle(b, threshold), ts))
  }

  /** The rows of all beans, in input order. */
  function Rows(bs: seq<CoverageBean>, threshold: real, fmt: NumberFormat): (r: Result<seq<Fragment>, ReportError>)
    ensures r.Failure? ==> r.error == StringIndexOutOfBounds
  {
    if |bs| == 0 then Success([])
    else
      var init := Rows(bs[..|bs| - 1], threshold, fmt);
      var last := BeanRow(bs[|bs| - 1], threshold, fmt);
      if init.Failure? then init
      else if last.Failure? then last
      else Success(init.value + last.value)
  }

  /** The table rows can be built exactly when every bean is renderable. */
  lemma {:induction false} RowsSucceed(bs: seq<CoverageBean>, threshold: real, fmt: NumberFormat)
    ensures Rows(bs, threshold, fmt).Success? <==> AllRenderable(bs)
  {
    if |bs| > 0 {
      var front := bs[..|bs| - 1];
      var last := bs[|bs| - 1];
      RowsSucceed(front, threshold, fmt);
      assert Rows(bs, threshold, fmt).Success?
             <==> Rows(front, threshold, fmt).Success? && BeanRow(last, threshold, fmt).Success?;
      assert BeanRow(last, threshold, fmt).Success? <==> Renderable(last);
      AllRenderableSplit(bs);
    }
  }

  /** Every bean of the sequence is renderable. */
  predicate AllRenderable(bs: seq<CoverageBean>) {
    forall k :: 0 <= k < |bs| ==> Renderable(bs[k])
  }

  lemma AllRenderableSplit(bs: seq<CoverageBean>)
    requires |bs| > 0
    ensures AllRenderable(bs) <==> AllRenderable(bs[..|bs| - 1]) && Renderable(bs[|bs| - 1])
  {
    assert forall k :: 0 <= k < |bs| - 1 ==> bs[..|bs| - 1][k] == bs[k];
  }

  /** The k-th block of nine fragments. */
  function Block(fs: seq<Fragment>, k: nat): seq<Fragment>
    requires 9 * k + 9 <= |fs|
  {
    fs[9 * k..9 * k + 9]
  }

  /** Appending a block of nine after n blocks keeps the earlier blocks. */
  lemma BlockOfAppend(init: seq<Fragment>, last: seq<Fragment>, n: nat, k: nat)
    requires |init| == 9 * n && |last| == 9 && k <= n
    ensures Block(init + last, k) == if k < n then Block(init, k) else last
  {
  }

  /** Nine fragments per bean, the k-th block being the k-th bean's row. */
  lemma {:induction false} RowsLayout(bs: seq<CoverageBean>, threshold: real, fmt: NumberFormat)
    requires AllRenderable(bs)
    ensures Rows(bs, threshold, fmt).Success?
    ensures |Rows(bs, threshold, fmt).value| == 9 * |bs|
    ensures forall k: nat :: k < |bs| ==> Block(Rows(bs, threshold, fmt).value, k) == BeanRow(bs[k], threshold, fmt).value
  {
    RowsSucceed(bs, threshold, fmt);
    if |bs| > 0 {
      var front := bs[..|bs| - 1];
      AllRenderableSplit(bs);
      RowsLayout(front, threshold, fmt);
      var init := Rows(front, threshold, fmt).value;
      var last := BeanRow(bs[|bs| - 1], threshold, fmt).value;
      var rows := Rows(bs, threshold, fmt).value;
      assert rows == init + last;
      forall k: nat | k < |bs|
        ensures Block(rows, k) == BeanRow(bs[k], threshold, fmt).value
      {
        BlockOfAppend(init, last, |front|, k);
        if k < |front| {
          assert front[k] == bs[k];
        }
      }
    }
  }

  /** The contents of the coverage table: nothing for a null bean array,
      otherwise the header row followed by one row per bean. */
  function CoverageTable(beans: Option<seq<CoverageBean>>, threshold: real, fmt: NumberFormat): (r: Result<seq<Fragment>, ReportError>)
    ensures beans.None? ==> r == Success([])
    ensures r.Success? <==> TableRenderable(beans)
    ensures r.Failure? ==> r.error == StringIndexOutOfBounds
    ensures beans.Some? && r.Success? ==>
              Rows(beans.value, threshold, fmt).Success? &&
              r.value == HeaderRow() + [Raw("<lowcc>")] + Rows(beans.value, threshold, fmt).value + [Raw("</lowcc>")]
  {
    match beans
    case None => Success([])
    case Some(bs) =>
      RowsSucceed(bs, threshold, fmt);
      var rows :- Rows(bs, threshold, fmt);
      Success(HeaderRow() + [Raw("<lowcc>")] + rows + [Raw("</lowcc>")])
  }

  // ---------------------------------------------------------------------
  // Duplicate and invalid class listings
  // ---------------------------------------------------------------------

  const DuplicatesHeading := "Duplicate Apex Class Names Across Manifest Files And Regular Expressions"
  const InvalidHeading := "Invalid/Non-existant Apex Class Names Across Manifest Files And Regular Expressions"

  /** A `tr` tag followed by a data cell for each entry, in order. */
  function EntryRows(entries: seq<string>): (fs: seq<Fragment>)
    ensures |fs| == 2 * |entries|
    ensures forall k :: 0 <= k < |entries| ==> fs[2 * k] == Tr && fs[2 * k + 1] == DataCell("", entries[k])
  {
    if |entries| == 0 then []
    else
      var init := EntryRows(entries[..|entries| - 1]);
      var fs := init + [Tr, DataCell("", entries[|entries| - 1])];
      assert forall k :: 0 <= k < |entries| - 1 ==>
               entries[..|entries| - 1][k] == entries[k] && fs[2 * k] == init[2 * k] && fs[2 * k + 1] == init[2 * k + 1];
      fs
  }

  /** An optional listing table: absent when the listing is null or empty,
      otherwise one row per entry under a single header cell. */
  function ListingTable(entries: Option<seq<string>>, heading: string): (fs: seq<Fragment>)
    ensures |fs| == 0 <==> entries.None? || |entries.value| == 0
    ensures |fs| > 0 ==>
              && |fs| == 2 * |entries.value| + 4
              && fs[0] == Br && fs[1] == Raw(TableOpen) && fs[2] == HeaderCell("", heading)
              && fs[|fs| - 1] == Raw(TableClose)
              && fs[3..|fs| - 1] == EntryRows(entries.value)
  {
    if entries.Some? && |entries.value| > 0 then
      LineSpaces(2) + [Raw(TableOpen), HeaderCell("", heading)] + EntryRows(entries.value) + [Raw(TableClose)]
    else []
  }

  // ---------------------------------------------------------------------
  // The whole document
  // ---------------------------------------------------------------------

  const BestPracticesUrl := "http://www.salesforce.com/us/developer/docs/apexcode/Content/apex_code_coverage_best_pract.htm"
  const Footnote := "<br/> <br/> <i>* Code coverage is calculated by dividing the number of unique Apex code lines executed during your test method execution by the total number of Apex code lines in all of your trigger and classes. <br/>(Note: these numbers do not include lines of code within your testMethods)</i>"

  /** The heading of the coverage table and the opening of the body. */
  function DetailHeading(): seq<Fragment> {
    [Elem("header", "", "Detailed code coverage report: ")] + LineSpaces(2) + [Raw("<body>")]
  }

  /** The documentation link, the footnote and the end of the body. */
  function Epilogue(): seq<Fragment> {
    LineSpaces(2)
    + [Elem("a", "href=" + BestPracticesUrl, "Apex_Code_Coverage_Best_Practices"),
       Raw(Footnote), Raw("</body>")]
  }

  /** Every bean's line lists can be rendered (or there is no bean array). */
  predicate TableRenderable(beans: Option<seq<CoverageBean>>) {
    beans.Some? ==> AllRenderable(beans.value)
  }

  /** The sections before the coverage table's contents. */
  function Lead(run: RunResults, env: Environment, fmt: NumberFormat): seq<Fragment> {
    Banner() + CoverageSummary(run, fmt) + TestExecutionSummary(run) + TestReportLink(env)
    + DetailHeading() + [Raw(TableOpen)]
  }

  /** The end of the coverage table and the two optional listings. */
  function Listings(run: RunResults): seq<Fragment> {
    [Raw(TableClose)]
    + ListingTable(run.duplicateEntries, DuplicatesHeading)
    + ListingTable(run.nonExistentEntries, InvalidHeading)
  }

  /** The sections of the report, in document order, between `<html>` and
      `</html>`. */
  function ReportFragments(beans: Option<seq<CoverageBean>>, run: RunResults, env: Environment, fmt: NumberFormat)
    : (r: Result<seq<Fragment>, ReportError>)
    ensures r.Success? <==> TableRenderable(beans)
    ensures r.Failure? ==> r.error == StringIndexOutOfBounds
    ensures r.Success? ==> |r.value| >= 2 && r.value[0] == Raw("<html>") && r.value[|r.value| - 1] == Raw("</html>")
  {
    var table :- CoverageTable(beans, run.teamThreshold, fmt);
    Success(Document(Lead(run, env, fmt) + table + Listings(run) + Epilogue()))
  }

  /** A report that can be built is the document of its sections. */
  lemma ReportFragmentsLayout(beans: Option<seq<CoverageBean>>, run: RunResults, env: Environment, fmt: NumberFormat)
    requires TableRenderable(beans)
    ensures CoverageTable(beans, run.teamThreshold, fmt).Success?
    ensures ReportFragments(beans, run, env, fmt).Success?
    ensures ReportFragments(beans, run, env, fmt).value
            == Document(Lead(run, env, fmt) + CoverageTable(beans, run.teamThreshold, fmt).value + Listings(run) + Epilogue())
  {
  }

  /** The body between the `<html>` and `</html>` the builder starts and
      ends with. */
  function Document(body: seq<Fragment>): (fs: seq<Fragment>)
    ensures |fs| == |body| + 2
    ensures fs[0] == Raw("<html>") && fs[|fs| - 1] == Raw("</html>")
    ensures fs[1..|fs| - 1] == body
  {
    [Raw("<html>")] + body + [Raw("</html>")]
  }

  /** The HTML text `generateHTMLReport` hands to the file writer, or the
      exception it raises on an empty non-null line list. */
  function GenerateHtmlReport(beans: Option<seq<CoverageBean>>, run: RunResults, env: Environment, fmt: NumberFormat)
    : (r: Result<string, ReportError>)
    ensures r.Success? <==> TableRenderable(beans)
    ensures r.Failure? ==> r.error == StringIndexOutOfBounds
    ensures r.Success? ==> IsPrefix("<html>", r.value) && IsSuffix("</html>", r.value)
  {
    var fs :- ReportFragments(beans, run, env, fmt);
    RenderEnvelope(fs, "<html>", "</html>");
    Success(Render(fs))
  }

  /** A rendering starts with its first raw fragment and ends with its last. */
  lemma RenderEnvelope(fs: seq<Fragment>, first: string, last: string)
    requires |fs| >= 2 && fs[0] == Raw(first) && fs[|fs| - 1] == Raw(last)
    ensures IsPrefix(first, Render(fs)) && IsSuffix(last, Render(fs))
  {
    var mid := fs[1..|fs| - 1];
    assert fs == [fs[0]] + mid + [fs[|fs| - 1]];
    RenderAppend([fs[0]] + mid, [fs[|fs| - 1]]);
    RenderAppend([fs[0]], mid);
    assert Texts([fs[0]]) == [first];
    assert Concat([first]) == Concat([]) + first;
    assert Texts([fs[|fs| - 1]]) == [last];
    assert Concat([last]) == Concat([]) + last;
    var r := Render(fs);
    assert r == first + Render(mid) + last;
    assert r[..|first|] == first;
    assert r[|r| - |last|..] == last;
  }
}
