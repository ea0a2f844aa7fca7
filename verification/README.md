# ApexUnit coverage report generator, modelled in Dafny

This project models `ApexCodeCoverageReportGenerator`, the part of ApexUnit
that turns finished Apex test and code-coverage results into two reports:

- **The HTML report.** It holds a coverage summary, a test-execution
  summary, a link to the detailed test report, a table with one row per
  Apex class, and optional tables of duplicate and invalid class entries.
- **The Cobertura XML tree.** It holds one `class` element per Apex class
  with its `line` elements, and a package line rate summed over all
  classes.

The generator is pure string and tree construction once its ambient inputs
become parameters. Those inputs are the static result holders, the
thresholds, `user.dir`, `file.separator` and the clock. The model makes them
explicit:

- `Inputs` holds the immutable inputs: the coverage beans, the run results,
  the environment, the number formatters, and the runtime exceptions.
- `Outcomes` defines `Option` (a Java `null`) and `Result` (a thrown
  runtime exception).
- `Text` renders integers as Java does, parses them back, and provides the
  string search and counting helpers.
- `Markup` covers `appendTag` and its cell shorthands, `appendLineSpaces`,
  and HTML as a sequence of fragments. A fragment is raw text or a tag. A
  sequence of fragments renders as exactly the text the `StringBuilder`
  would hold.
- `LineList` covers `populateListInAStringBuffer`: a comma after each
  value, a newline after every tenth, and the last character dropped.
- `HtmlReport` covers `generateHTMLReport`, section by section, up to the
  string handed to the file writer.
- `ReportCells` counts the data cells, header cells and row tags of the
  whole HTML report.
- `Cobertura` covers `generateCoberturaCoverageReport(Document, beans)`,
  `addClassCoverage` and `addLinesCoverage` as a tree builder. It also
  holds the loop that accumulates the 32-bit line totals.

Points about the code's behaviour that the model keeps:

- An empty but non-null line list makes `populateListInAStringBuffer` call
  `substring(0, -1)`, which throws `StringIndexOutOfBoundsException`. Only a
  null list renders as `-`. The exception propagates out of
  `generateHTMLReport`, so no report is produced. `RenderLineList`,
  `BeanRow`, `CoverageTable`, `ReportFragments` and `GenerateHtmlReport`
  all return this failure.
- The generator computes the fail count itself, from `testFailures` and
  the size of the failed-method list.
- The root `coverage` element keeps the constant `line-rate="0.0"`. Only the
  `package` element carries the aggregate rate.
- The `line-rate` attributes of the classes and the package are
  percentages on a 0 to 100 scale, not fractions on a 0 to 1 scale. A
  class carries its bean's percentage unchanged.
- A null bean array, or a null line list inside a bean, makes the Cobertura
  builder throw `NullPointerException`.

## Model

| member | source | states |
|---|---|---|
| Text.LastIndexOf | src/main/java/com/sforce/cd/apexUnit/report/ApexCodeCoverageReportGenerator.java:136 | the result is -1 or an index holding the character, and no later index holds it |
| Text.ParseIntOfIntToString | src/main/java/com/sforce/cd/apexUnit/report/ApexCodeCoverageReportGenerator.java:348 | the decimal text of an integer is well formed and parses back to the same integer |
| Markup.TagRoundTrip | src/main/java/com/sforce/cd/apexUnit/report/ApexCodeCoverageReportGenerator.java:406-410 | the text of a tag reads back as exactly its contents, whatever they hold; its length is twice the tag name plus the properties, the contents and six |
| Markup.AppendTag | src/main/java/com/sforce/cd/apexUnit/report/ApexCodeCoverageReportGenerator.java:406-414 | the existing buffer stays a prefix, and what follows it reads back as a tag with the given name, properties and contents |
| Markup.CellsReadBack | src/main/java/com/sforce/cd/apexUnit/report/ApexCodeCoverageReportGenerator.java:416-422 | a data cell is a `td` tag and a header cell a `th` tag, and the text of each reads back as exactly the given contents under the given properties |
| Markup.LineSpaces | src/main/java/com/sforce/cd/apexUnit/report/ApexCodeCoverageReportGenerator.java:424-428 | `n - 1` line breaks for `n > 1`, and none otherwise |
| Markup.BreaksLength | src/main/java/com/sforce/cd/apexUnit/report/ApexCodeCoverageReportGenerator.java:424-428 | k breaks render as 10k characters, one `<br ></br>` each |
| Markup.AppendLineSpaces | src/main/java/com/sforce/cd/apexUnit/report/ApexCodeCoverageReportGenerator.java:424-428 | the counting loop appends exactly the rendering of `LineSpaces(n)` to the buffer |
| LineList.RenderLineList | src/main/java/com/sforce/cd/apexUnit/report/ApexCodeCoverageReportGenerator.java:387-404 | a null list renders as `-`; it fails with `StringIndexOutOfBounds` if and only if the list is empty and non-null |
| LineList.PopulateListInAStringBuffer | src/main/java/com/sforce/cd/apexUnit/report/ApexCodeCoverageReportGenerator.java:387-404 | the loop, with a counter that resets after every tenth value, computes the same result as `RenderLineList` |
| LineList.LastCharacterDropped | src/main/java/com/sforce/cd/apexUnit/report/ApexCodeCoverageReportGenerator.java:400 | the result is the buffer of the first n - 1 values, then the last value; the last value keeps its comma only when n is a multiple of ten |
| LineList.LineListNewlines | src/main/java/com/sforce/cd/apexUnit/report/ApexCodeCoverageReportGenerator.java:391-400 | n >= 1 values give (n - 1) / 10 newlines: none for 10 values, one for 11 |
| LineList.LineListTrailingComma | src/main/java/com/sforce/cd/apexUnit/report/ApexCodeCoverageReportGenerator.java:391-400 | the rendered list ends with a comma if and only if n is a multiple of ten |
| LineList.LineListValues | src/main/java/com/sforce/cd/apexUnit/report/ApexCodeCoverageReportGenerator.java:391-400 | with the newlines removed, the text is the values in input order, each followed by a comma except possibly the last |
| HtmlReport.SummaryLine | src/main/java/com/sforce/cd/apexUnit/report/ApexCodeCoverageReportGenerator.java:88-97 | crimson style if and only if the percentage is strictly below its threshold, otherwise no style |
| HtmlReport.CoverageSummary | src/main/java/com/sforce/cd/apexUnit/report/ApexCodeCoverageReportGenerator.java:76-100 | heading, then the team line and the org-wide line; each is crimson if and only if it is below its own threshold |
| HtmlReport.FailureCount | src/main/java/com/sforce/cd/apexUnit/report/ApexCodeCoverageReportGenerator.java:105-110 | positive if and only if failures were reported and the list is non-null and non-empty; then it equals the list's size |
| HtmlReport.ExecutionCounters | src/main/java/com/sforce/cd/apexUnit/report/ApexCodeCoverageReportGenerator.java:111-121 | the aborted counter appears if and only if the aborted count is positive; pass plus fail equals the methods executed; fail is the failure count |
| HtmlReport.CounterLineReadsBack | src/main/java/com/sforce/cd/apexUnit/report/ApexCodeCoverageReportGenerator.java:111-121 | each summary line starts with its caption, and the rest parses back to the counter's value |
| HtmlReport.TestExecutionSummary | src/main/java/com/sforce/cd/apexUnit/report/ApexCodeCoverageReportGenerator.java:102-124 | three fragments; the summary element holds the counter lines |
| HtmlReport.JobName | src/main/java/com/sforce/cd/apexUnit/report/ApexCodeCoverageReportGenerator.java:136-137 | the job name contains no `/`, is a suffix of the working directory, and is preceded by `/` when it is not the whole directory |
| HtmlReport.ReportLink | src/main/java/com/sforce/cd/apexUnit/report/ApexCodeCoverageReportGenerator.java:131-140 | without "jenkins" the link is the working directory, the separator and `ApexUnitReport.xml`; with it the link is the Jenkins URL around exactly the job name |
| HtmlReport.TestReportLink | src/main/java/com/sforce/cd/apexUnit/report/ApexCodeCoverageReportGenerator.java:127-142 | five fragments; the fourth is the anchor whose `href` is the report link |
| HtmlReport.HeaderRow | src/main/java/com/sforce/cd/apexUnit/report/ApexCodeCoverageReportGenerator.java:151-161 | `<header>`, the eight column labels as header cells in order, `</header>`, then a `tr` tag |
| HtmlReport.RowStyle | src/main/java/com/sforce/cd/apexUnit/report/ApexCodeCoverageReportGenerator.java:165-171 | crimson if and only if the class's coverage is strictly below the team threshold, green otherwise |
| HtmlReport.BeanRow | src/main/java/com/sforce/cd/apexUnit/report/ApexCodeCoverageReportGenerator.java:165-187 | succeeds if and only if neither line list is empty and non-null; eight `td` cells in the row style with the bean's eight texts, then a `tr` tag |
| HtmlReport.RowsSucceed | src/main/java/com/sforce/cd/apexUnit/report/ApexCodeCoverageReportGenerator.java:164-188 | the rows can be built if and only if every bean's line lists can be rendered |
| HtmlReport.RowsLayout | src/main/java/com/sforce/cd/apexUnit/report/ApexCodeCoverageReportGenerator.java:164-188 | nine fragments per bean; the k-th block of nine is the k-th bean's row, in input order |
| HtmlReport.CoverageTable | src/main/java/com/sforce/cd/apexUnit/report/ApexCodeCoverageReportGenerator.java:148-190 | nothing for a null bean array; otherwise the header row, `<lowcc>`, the rows and `</lowcc>`; fails if and only if some line list is empty and non-null |
| HtmlReport.EntryRows | src/main/java/com/sforce/cd/apexUnit/report/ApexCodeCoverageReportGenerator.java:203-206 | a `tr` tag and a data cell per entry, in order |
| HtmlReport.ListingTable | src/main/java/com/sforce/cd/apexUnit/report/ApexCodeCoverageReportGenerator.java:195-225 | empty if and only if the listing is null or empty; otherwise breaks, table, one header cell, the entry rows and the table end |
| HtmlReport.ReportFragments | src/main/java/com/sforce/cd/apexUnit/report/ApexCodeCoverageReportGenerator.java:48-233 | succeeds if and only if every line list can be rendered; the document starts with `<html>` and ends with `</html>` |
| HtmlReport.GenerateHtmlReport | src/main/java/com/sforce/cd/apexUnit/report/ApexCodeCoverageReportGenerator.java:48-236 | the report text exists if and only if every line list can be rendered; it begins with `<html>` and ends with `</html>`; otherwise `StringIndexOutOfBounds` |
| HtmlReport.RenderEnvelope | src/main/java/com/sforce/cd/apexUnit/report/ApexCodeCoverageReportGenerator.java:51-233 | a rendering starts with the text of its first raw fragment and ends with the text of its last |
| ReportCells.BeanRowCells | src/main/java/com/sforce/cd/apexUnit/report/ApexCodeCoverageReportGenerator.java:172-187 | each bean's row holds eight data cells, no header cell and one row tag |
| ReportCells.RowsCells | src/main/java/com/sforce/cd/apexUnit/report/ApexCodeCoverageReportGenerator.java:164-188 | n beans give 8n data cells and n row tags |
| ReportCells.HeaderRowCells | src/main/java/com/sforce/cd/apexUnit/report/ApexCodeCoverageReportGenerator.java:151-161 | the table header has exactly eight header cells and one row tag |
| ReportCells.CoverageTableCells | src/main/java/com/sforce/cd/apexUnit/report/ApexCodeCoverageReportGenerator.java:148-190 | n beans give 8n data cells, 8 header cells and n + 1 row tags; a null array gives none |
| ReportCells.EntryRowsCells | src/main/java/com/sforce/cd/apexUnit/report/ApexCodeCoverageReportGenerator.java:203-206 | n entries give n data cells and n row tags |
| ReportCells.ListingCells | src/main/java/com/sforce/cd/apexUnit/report/ApexCodeCoverageReportGenerator.java:196-209 | a listing of n entries has n data cells, one header cell and n row tags; a null or empty listing has none |
| ReportCells.LeadCells | src/main/java/com/sforce/cd/apexUnit/report/ApexCodeCoverageReportGenerator.java:62-146 | nothing before the coverage table is a cell or a row |
| ReportCells.ReportCellCounts | src/main/java/com/sforce/cd/apexUnit/report/ApexCodeCoverageReportGenerator.java:48-233 | for n beans, d duplicate and v invalid entries, the whole report has 8n + d + v data cells, eight header cells for a non-null table plus one per shown listing, and n + 1 + d + v row tags (no table cells or rows for a null bean array) |
| Cobertura.NumberReadsBack | src/main/java/com/sforce/cd/apexUnit/report/ApexCodeCoverageReportGenerator.java:272 | an attribute written with `Long.toString` reads back as its number |
| Cobertura.LineElementReadsBack | src/main/java/com/sforce/cd/apexUnit/report/ApexCodeCoverageReportGenerator.java:346-357 | a `line` element reads back as its location and its hit count, and has no children |
| Cobertura.LinesCoverage | src/main/java/com/sforce/cd/apexUnit/report/ApexCodeCoverageReportGenerator.java:343-359 | fails with `NullPointer` if and only if a line list is null; otherwise one element per uncovered and per covered line |
| Cobertura.ReadLinesAppend | src/main/java/com/sforce/cd/apexUnit/report/ApexCodeCoverageReportGenerator.java:343-359 | reading the lines of two runs of elements concatenates the readings |
| Cobertura.LineElementsReadBack | src/main/java/com/sforce/cd/apexUnit/report/ApexCodeCoverageReportGenerator.java:346-357 | the elements written for a list with one hit count read back as that list, in order, and hold nothing with another hit count |
| Cobertura.LinesReadBack | src/main/java/com/sforce/cd/apexUnit/report/ApexCodeCoverageReportGenerator.java:343-359 | the `hits="0"` elements are exactly the uncovered lines and the `hits="1"` elements exactly the covered lines, each in input order |
| Cobertura.LinesOrdered | src/main/java/com/sforce/cd/apexUnit/report/ApexCodeCoverageReportGenerator.java:343-359 | the first |uncovered| children are `hits="0"` with the uncovered locations, and all later children are `hits="1"` with the covered locations |
| Cobertura.ClassElement | src/main/java/com/sforce/cd/apexUnit/report/ApexCodeCoverageReportGenerator.java:323-341 | fails with `NullPointer` if and only if a line list is null; otherwise a `class` element |
| Cobertura.ClassNodeContents | src/main/java/com/sforce/cd/apexUnit/report/ApexCodeCoverageReportGenerator.java:323-338 | `name` and `filename` are the class name, `line-rate` is the percentage, `complexity` and `branch-rate` are `0.0`, then `methods` and `lines` children |
| Cobertura.ClassElementContents | src/main/java/com/sforce/cd/apexUnit/report/ApexCodeCoverageReportGenerator.java:323-341 | the class element carries the bean's name twice and its percentage unchanged, and its `lines` read back as the bean's uncovered and covered lists |
| Cobertura.ClassElements | src/main/java/com/sforce/cd/apexUnit/report/ApexCodeCoverageReportGenerator.java:299-304 | one class element per bean; fails with `NullPointer` if and only if some bean has a null line list |
| Cobertura.ClassesInOrder | src/main/java/com/sforce/cd/apexUnit/report/ApexCodeCoverageReportGenerator.java:299-304 | the k-th class element is built from the k-th bean and named after it |
| Cobertura.Int32Add | src/main/java/com/sforce/cd/apexUnit/report/ApexCodeCoverageReportGenerator.java:300-301 | wrapping the running total after each 32-bit addition equals wrapping the exact sum once |
| Cobertura.PackageLineRate | src/main/java/com/sforce/cd/apexUnit/report/ApexCodeCoverageReportGenerator.java:306-308 | for a positive total, rate times total equals 100 times the covered count; otherwise exactly 100 |
| Cobertura.PercentBounds | src/main/java/com/sforce/cd/apexUnit/report/ApexCodeCoverageReportGenerator.java:308 | a covered percentage of a positive line count lies between 0 and 100, and is 100 if and only if nothing is uncovered |
| Cobertura.PackageLineRateBounds | src/main/java/com/sforce/cd/apexUnit/report/ApexCodeCoverageReportGenerator.java:296-310 | with non-negative counts and a total that fits in an `int`: the package rate is in [0, 100], is 100 if and only if no line is uncovered, and is the covered percentage of all lines |
| Cobertura.CoverageReport | src/main/java/com/sforce/cd/apexUnit/report/ApexCodeCoverageReportGenerator.java:261-311 | a `coverage` document with the Cobertura DTD system identifier; fails with `NullPointer` if and only if the bean array or some line list is null |
| Cobertura.CoverageReportShape | src/main/java/com/sforce/cd/apexUnit/report/ApexCodeCoverageReportGenerator.java:270-310 | the root's timestamp reads back as the clock value; the root's rates and version are `0.0`; the root has exactly two children, `sources` and `packages`, each with one child; that source is `Salesforce.com`; that package has one `classes` child and holds the aggregate rate and the classes in input order |
| Cobertura.GenerateCoberturaCoverageReport | src/main/java/com/sforce/cd/apexUnit/report/ApexCodeCoverageReportGenerator.java:270-311 | the loop with its 32-bit running totals builds the same document as `CoverageReport` |

## Left out

- File output: `createHTMLReport` (directory creation and the `FileOutputStream`), the `FileWriter` of the public `generateCoberturaCoverageReport`, and `writeCoberturaCoverageReport` (the JAXP `Transformer`). These are I/O; the HTML model ends at the string and the Cobertura model ends at the tree.
- XML serialization: attribute order, indentation and the XML declaration are decided by the transformer. Attributes are kept as an unordered map.
- `createCoberturaCoverageDocument`: the JAXP `DocumentBuilder` is a foreign library. Only the document type name `coverage` and its system identifier are kept.
- `ApexUnitUtils.shutDownWithDebugLog`: it only logs and exits the process, and it is reached only from I/O, parser and transformer errors.
- `System.currentTimeMillis`, `user.dir` and `file.separator`: these are ambient values and become the `timestamp` and `Environment` parameters.
- Floating-point text: `String.format("%.2f", …)`, the string concatenation of a threshold, and `Double.toString` are not defined here. The first two are the `NumberFormat` parameter. The XML tree keeps the double itself (`DoubleValue`).
- Floating-point arithmetic: coverage values, thresholds and the package rate are exact reals. Double rounding, NaN and infinities are not modelled.
- The type of the thresholds: `CommandLineArguments` is not part of this model, so they are taken as reals.
- HtmlReport.ExecutionCounters: the pass count `executed - failures` is exact. Java's 32-bit wrap-around is left out, because it can only happen with counts near the `int` limits.
- Cobertura.PackageLineRateBounds: holds only when no count is negative and the exact total fits in an `int`. The source does not guarantee either. Outside those bounds the running totals wrap, as `GenerateCoberturaCoverageReport` models.
- The order of the duplicate entries: the source iterates `HashMap.values()`, whose order is unspecified. The model takes the entries as a sequence in whatever order the map yields.
- Null strings: class names, API versions, entries and the working directory are never null in the model. A null line number inside a line list is also excluded, since lists are sequences of integers. A null element of the bean array, which both reports dereference (`getCoveragePercentage()` in the HTML rows, `getNumLinesCovered()` in the Cobertura loop) and which would throw `NullPointerException`, is excluded too, since the array is a sequence of beans. A null `lengthWithoutComments`, which `StringBuilder.append` would write as the text `null`, is likewise not representable.
- The collaborators `TestStatusPollerAndResultHandler`, `ApexUnitCodeCoverageResults`, `ApexClassFetcherUtils`, `ApexManifestFileReader` and `CommandLineArguments` are not part of this model. The values read from them form the `RunResults` record.
- Java `long` line numbers are unbounded integers. Their decimal rendering is the same.
