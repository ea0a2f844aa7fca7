/** The already-computed results the report generator reads. In the Java
    program these are static fields of collaborator classes and system
    properties; here they are immutable values passed in explicitly. */
module Inputs {
  import opened Outcomes

  /** One Apex class or trigger under analysis (ApexClassCodeCoverageBean).
      The two line counts are fields of their own, supplied upstream; they
      are not recomputed from the line lists. A line list may be null. */
  datatype CoverageBean = CoverageBean(
    className: string,
    apiVersion: string,
    coveragePercentage: real,
    numLinesCovered: int,
    numLinesUncovered: int,
    coveredLines: Option<seq<int>>,
    uncoveredLines: Option<seq<int>>,
    lengthWithoutComments: string)

  /** Run-level numbers: the coverage results, the configured thresholds,
      the test-execution counters and the manifest diagnostics. */
  datatype RunResults = RunResults(
    teamCoverage: real,
    orgWideCoverage: real,
    teamThreshold: real,
    orgWideThreshold: real,
    totalTestClasses: int,
    totalTestClassesAborted: int,
    totalTestMethodsExecuted: int,
    testFailures: bool,
    failedTestMethods: Option<seq<string>>,
    duplicateEntries: Option<seq<string>>,
    nonExistentEntries: Option<seq<string>>)

  /** The `user.dir` and `file.separator` system properties. */
  datatype Environment = Environment(workingDir: string, fileSeparator: string)

  /** Conversions from floating-point values to text that the model does not
      define: `String.format("%.2f", x)`, and the string concatenation of a
      coverage threshold. */
  datatype NumberFormat = NumberFormat(twoDecimals: real -> string, thresholdText: real -> string)

  /** The runtime exceptions the generator can raise on its inputs. */
  datatype ReportError =
    | StringIndexOutOfBounds  // `substring(0, -1)` on an empty rendered line list
    | NullPointer             // iterating a null bean array or null line list
}
