/** `generateCoberturaCoverageReport` and its helpers `addClassCoverage` and
    `addLinesCoverage`: the Cobertura-style XML tree built from the coverage
    beans, before it is serialized. */
module Cobertura {
  import opened Outcomes
  import opened Text
  import opened Inputs

  // ---------------------------------------------------------------------
  // The XML tree
  // ---------------------------------------------------------------------

  /** An attribute value: literal text, or a double that `Double.toString`
      turns into text when the tree is written out. */
  datatype AttrValue = Literal(text: string) | DoubleValue(value: real)

  /** A DOM node: an element with its attributes (unordered, as in a DOM
      attribute map) and its children in order, or a text node. */
  datatype Node =
    | Element(name: string, attrs: map<string, AttrValue>, children: seq<Node>)
    | TextNode(text: string)

  /** The filled-in DOM document: its document type and its root element. */
  datatype CoverageDocument = CoverageDocument(doctypeName: string, systemId: string, root: Node)

  const CoverageDtd := "http://cobertura.sourceforge.net/xml/coverage-03.dtd"
  const Zero := Literal("0.0")
  const SourceName := "Salesforce.com"
  const PackageName := "Bayer Veeva"

  /** The node is an element with the given name. */
  predicate Named(n: Node, name: string) {
    n.Element? && n.name == name
  }

  /** The first element of `ns` with the given name: absent exactly when no
      element has that name, and otherwise preceded by none that has it. */
  function FirstNamed(ns: seq<Node>, name: string): (r: Option<Node>)
    ensures r.None? <==> forall k :: 0 <= k < |ns| ==> !Named(ns[k], name)
    ensures r.Some? ==> Named(r.value, name)
    ensures r.Some? ==>
              exists i :: 0 <= i < |ns| && ns[i] == r.value && (forall k :: 0 <= k < i ==> !Named(ns[k], name))
  {
    if |ns| == 0 then None
    else if ns[0].Element? && ns[0].name == name then Some(ns[0])
    else FirstNamed(ns[1..], name)
  }

  /** The element reached from `n` by taking, for each name of the path, the
      first child element with that name. */
  function Find(n: Node, path: seq<string>): Option<Node>
    decreases |path|
  {
    if |path| == 0 then Some(n)
    else if n.TextNode? then None
    else
      match FirstNamed(n.children, path[0])
      case None => None
      case Some(c) => Find(c, path[1..])
  }

  /** One step down a path. */
  lemma FindStep(n: Node, name: string, rest: seq<string>, c: Node)
    requires n.Element? && FirstNamed(n.children, name) == Some(c)
    ensures Find(n, [name] + rest) == Find(c, rest)
  {
    assert ([name] + rest)[1..] == rest;
  }

  /** A single-name path finds the first child element of that name. */
  lemma FindChild(n: Node, name: string, c: Node)
    requires n.Element? && FirstNamed(n.children, name) == Some(c)
    ensures Find(n, [name]) == Some(c)
  {
    FindStep(n, name, [], c);
    assert [name] + [] == [name];
  }

  /** The literal text of an attribute, if the element has it as text. */
  function AttrText(n: Node, key: string): Option<string> {
    if n.Element? && key in n.attrs && n.attrs[key].Literal? then Some(n.attrs[key].text) else None
  }

  /** The integer an attribute holds, if it is a well-formed decimal numeral. */
  function AttrNumber(n: Node, key: string): Option<int> {
    match AttrText(n, key)
    case None => None
    case Some(s) =>
      if |s| >= 1 && (s[0] == '-' ==> AllDigits(s[1..])) && (s[0] != '-' ==> AllDigits(s))
      then Some(ParseInt(s))
      else None
  }

  /** An attribute written with `Long.toString` reads back as the number. */
  lemma NumberReadsBack(n: Node, key: string, x: int)
    requires n.Element? && key in n.attrs && n.attrs[key] == Literal(IntToString(x))
    ensures AttrNumber(n, key) == Some(x)
  {
    ParseIntOfIntToString(x);
  }

  // ---------------------------------------------------------------------
  // Lines
  // ---------------------------------------------------------------------

  /** The `line` element `addLinesCoverage` writes for one location. */
  function LineElement(location: int, hits: string): Node {
    Element("line", map["number" := Literal(IntToString(location)), "hits" := Literal(hits)], [])
  }

  /** A line element reads back as its location and hit count. */
  lemma LineElementReadsBack(location: int, hits: string)
    ensures AttrNumber(LineElement(location, hits), "number") == Some(location)
    ensures AttrText(LineElement(location, hits), "hits") == Some(hits)
    ensures LineElement(location, hits).children == []
  {
    NumberReadsBack(LineElement(location, hits), "number", location);
  }

  /** One `line` element per location, in list order. */
  function LineElements(locations: seq<int>, hits: string): (ns: seq<Node>)
    ensures |ns| == |locations|
  {
    seq(|locations|, k requires 0 <= k < |locations| => LineElement(locations[k], hits))
  }

  /** The children of the `lines` element: the uncovered lines with
      `hits="0"`, then the covered lines with `hits="1"`. Iterating a null
      list throws. */
  function LinesCoverage(b: CoverageBean): (r: Result<seq<Node>, ReportError>)
    ensures r.Success? <==> b.uncoveredLines.Some? && b.coveredLines.Some?
    ensures r.Failure? ==> r.error == NullPointer
    ensures r.Success? ==> |r.value| == |b.uncoveredLines.value| + |b.coveredLines.value|
  {
    match b.uncoveredLines
    case None => Failure(NullPointer)
    case Some(uncovered) =>
      match b.coveredLines
      case None => Failure(NullPointer)
      case Some(covered) => Success(LineElements(uncovered, "0") + LineElements(covered, "1"))
  }

  /** The locations recorded in the line elements with the given hit count,
      in document order. */
  function ReadLines(ns: seq<Node>, hits: string): seq<int> {
    if |ns| == 0 then []
    else
      var last := ns[|ns| - 1];
      var init := ReadLines(ns[..|ns| - 1], hits);
      if AttrText(last, "hits") == Some(hits) && AttrNumber(last, "number").Some?
      then init + [AttrNumber(last, "number").value]
      else init
  }

  lemma {:induction false} ReadLinesAppend(a: seq<Node>, b: seq<Node>, hits: string)
    ensures ReadLines(a + b, hits) == ReadLines(a, hits) + ReadLines(b, hits)
    decreases |b|
  {
    if |b| == 0 {
      assert a + b == a;
    } else {
      assert (a + b)[..|a + b| - 1] == a + b[..|b| - 1];
      ReadLinesAppend(a, b[..|b| - 1], hits);
    }
  }

  /** Reading the elements written for a list with the same hit count gives
      the list back; with another hit count, nothing. */
  lemma {:induction false} LineElementsReadBack(locations: seq<int>, hits: string, other: string)
    requires hits != other
    ensures ReadLines(LineElements(locations, hits), hits) == locations
    ensures ReadLines(LineElements(locations, hits), other) == []
  {
    var ns := LineElements(locations, hits);
    if |locations| > 0 {
      var n := |locations|;
      var init := locations[..n - 1];
      assert ns[..n - 1] == LineElements(init, hits);
      LineElementsReadBack(init, hits, other);
      LineElementReadsBack(locations[n - 1], hits);
      assert locations == init + [locations[n - 1]];
    }
  }

  /** The `lines` children of a class hold exactly its uncovered lines (with
      `hits="0"`) and its covered lines (with `hits="1"`), each list in its
      input order. */
  lemma LinesReadBack(b: CoverageBean)
    requires LinesCoverage(b).Success?
    ensures ReadLines(LinesCoverage(b).value, "0") == b.uncoveredLines.value
    ensures ReadLines(LinesCoverage(b).value, "1") == b.coveredLines.value
  {
    var u := LineElements(b.uncoveredLines.value, "0");
    var c := LineElements(b.coveredLines.value, "1");
    ReadLinesAppend(u, c, "0");
    ReadLinesAppend(u, c, "1");
    LineElementsReadBack(b.uncoveredLines.value, "0", "1");
    LineElementsReadBack(b.coveredLines.value, "1", "0");
  }

  /** Every `hits="0"` element comes before every `hits="1"` element: the
      first |uncovered| children are the uncovered lines, the rest the
      covered ones, position by position. */
  lemma LinesOrdered(b: CoverageBean)
    requires LinesCoverage(b).Success?
    ensures var ns := LinesCoverage(b).value;
            var u := b.uncoveredLines.value;
            var c := b.coveredLines.value;
            && (forall k :: 0 <= k < |u| ==>
                  AttrText(ns[k], "hits") == Some("0") && AttrNumber(ns[k], "number") == Some(u[k]))
            && (forall k :: |u| <= k < |ns| ==>
                  AttrText(ns[k], "hits") == Some("1") && AttrNumber(ns[k], "number") == Some(c[k - |u|]))
  {
    var ns := LinesCoverage(b).value;
    var u := b.uncoveredLines.value;
    var c := b.coveredLines.value;
    forall k | 0 <= k < |u|
      ensures AttrText(ns[k], "hits") == Some("0") && AttrNumber(ns[k], "number") == Some(u[k])
    {
      assert ns[k] == LineElement(u[k], "0");
      LineElementReadsBack(u[k], "0");
    }
    forall k | |u| <= k < |ns|
      ensures AttrText(ns[k], "hits") == Some("1") && AttrNumber(ns[k], "number") == Some(c[k - |u|])
    {
      assert ns[k] == LineElement(c[k - |u|], "1");
      LineElementReadsBack(c[k - |u|], "1");
    }
  }

  // ---------------------------------------------------------------------
  // Classes
  // ---------------------------------------------------------------------

  /** Both line lists of the bean are present. */
  predicate HasLineLists(b: CoverageBean) {
    b.uncoveredLines.Some? && b.coveredLines.Some?
  }

  /** The element `addClassCoverage` creates, once its lines are added. */
  function ClassNode(name: string, percentage: real, lines: seq<Node>): Node {
    Element("class",
            map["name" := Literal(name), "filename" := Literal(name),
                "complexity" := Zero, "branch-rate" := Zero,
                "line-rate" := DoubleValue(percentage)],
            [Element("methods", map[], []), Element("lines", map[], lines)])
  }

  /** The `class` element `addClassCoverage` builds for a bean. */
  function ClassElement(b: CoverageBean): (r: Result<Node, ReportError>)
    ensures r.Success? <==> HasLineLists(b)
    ensures r.Failure? ==> r.error == NullPointer
    ensures r.Success? ==> r.value.Element? && r.value.name == "class"
  {
    var lines :- LinesCoverage(b);
    Success(ClassNode(b.className, b.coveragePercentage, lines))
  }

  /** The attributes and children of a class node. */
  lemma ClassNodeContents(name: string, percentage: real, lines: seq<Node>)
    ensures var c := ClassNode(name, percentage, lines);
            && AttrText(c, "name") == Some(name)
            && AttrText(c, "filename") == Some(name)
            && c.attrs["line-rate"] == DoubleValue(percentage)
            && c.attrs["complexity"] == Zero && c.attrs["branch-rate"] == Zero
            && Find(c, ["methods"]) == Some(Element("methods", map[], []))
            && Find(c, ["lines"]) == Some(Element("lines", map[], lines))
  {
    ClassChildren(ClassNode(name, percentage, lines), lines);
  }

  /** A class element carries the class name as both `name` and `filename`,
      the bean's percentage unchanged as `line-rate`, an empty `methods`
      element, and a `lines` element from which the bean's uncovered and
      covered lists read back. */
  lemma ClassElementContents(b: CoverageBean)
    requires HasLineLists(b)
    ensures var c := ClassElement(b).value;
            && AttrText(c, "name") == Some(b.className)
            && AttrText(c, "filename") == Some(b.className)
            && c.attrs["line-rate"] == DoubleValue(b.coveragePercentage)
            && c.attrs["complexity"] == Zero && c.attrs["branch-rate"] == Zero
            && Find(c, ["methods"]) == Some(Element("methods", map[], []))
            && Find(c, ["lines"]).Some?
            && ReadLines(Find(c, ["lines"]).value.children, "0") == b.uncoveredLines.value
            && ReadLines(Find(c, ["lines"]).value.children, "1") == b.coveredLines.value
  {
    var lines := LinesCoverage(b).value;
    assert ClassElement(b).value == ClassNode(b.className, b.coveragePercentage, lines);
    ClassNodeContents(b.className, b.coveragePercentage, lines);
    LinesReadBack(b);
  }

  /** The `methods` and `lines` children of a class element. */
  lemma ClassChildren(c: Node, lines: seq<Node>)
    requires c.Element? && c.children == [Element("methods", map[], []), Element("lines", map[], lines)]
    ensures Find(c, ["methods"]) == Some(Element("methods", map[], []))
    ensures Find(c, ["lines"]) == Some(Element("lines", map[], lines))
  {
    assert |"methods"| != |"lines"|;
    assert c.children[1..] == [Element("lines", map[], lines)];
    FindChild(c, "methods", Element("methods", map[], []));
    FindChild(c, "lines", Element("lines", map[], lines));
  }

  /** Every bean has both line lists. */
  predicate AllHaveLineLists(bs: seq<CoverageBean>) {
    forall k :: 0 <= k < |bs| ==> HasLineLists(bs[k])
  }

  /** The children of `classes`: one class element per bean, in input order,
      or the exception of the first bean with a null line list. */
  function ClassElements(bs: seq<CoverageBean>): (r: Result<seq<Node>, ReportError>)
    ensures r.Success? <==> AllHaveLineLists(bs)
    ensures r.Failure? ==> r.error == NullPointer
    ensures r.Success? ==> |r.value| == |bs|
  {
    if AllHaveLineLists(bs)
    then Success(seq(|bs|, k requires 0 <= k < |bs| => ClassElement(bs[k]).value))
    else Failure(NullPointer)
  }

  /** Class elements appear one per bean, in input order, each named after
      its bean. */
  lemma ClassesInOrder(bs: seq<CoverageBean>)
    requires AllHaveLineLists(bs)
    ensures ClassElements(bs).Success?
    ensures forall k :: 0 <= k < |bs| ==>
              ClassElements(bs).value[k] == ClassElement(bs[k]).value &&
              AttrText(ClassElements(bs).value[k], "name") == Some(bs[k].className)
  {
    forall k | 0 <= k < |bs|
      ensures AttrText(ClassElements(bs).value[k], "name") == Some(bs[k].className)
    {
      ClassElementContents(bs[k]);
    }
  }

  // ---------------------------------------------------------------------
  // Line totals and the package line rate
  // ---------------------------------------------------------------------

  const TwoTo31 := 0x8000_0000
  const TwoTo32 := 0x1_0000_0000

  predicate InInt32(x: int) {
    -TwoTo31 <= x < TwoTo31
  }

  /** Java's 32-bit `int` addition: the exact sum wrapped into range. */
  function Int32(x: int): (r: int)
    ensures InInt32(r)
    ensures InInt32(x) ==> r == x
  {
    (x + TwoTo31) % TwoTo32 - TwoTo31
  }

  /** Wrapping after every addition is the same as wrapping once at the
      end. */
  lemma Int32Add(a: int, b: int)
    ensures Int32(Int32(a) + b) == Int32(a + b)
  {
    var q := (a + TwoTo31) / TwoTo32;
    assert Int32(a) == a - q * TwoTo32;
    assert Int32(a) + b + TwoTo31 == (a + b + TwoTo31) - q * TwoTo32;
    ModShift(a + b + TwoTo31, q);
  }

  lemma ModShift(x: int, q: int)
    ensures (x - q * TwoTo32) % TwoTo32 == x % TwoTo32
  {
    var r := x % TwoTo32;
    var d := x / TwoTo32;
    assert x - q * TwoTo32 == (d - q) * TwoTo32 + r;
  }

  /** The exact sums of the beans' covered and uncovered line counts. */
  function SumCovered(bs: seq<CoverageBean>): int {
    if |bs| == 0 then 0 else SumCovered(bs[..|bs| - 1]) + bs[|bs| - 1].numLinesCovered
  }

  function SumUncovered(bs: seq<CoverageBean>): int {
    if |bs| == 0 then 0 else SumUncovered(bs[..|bs| - 1]) + bs[|bs| - 1].numLinesUncovered
  }

  /** The package `line-rate`, from the 32-bit totals the loop accumulates:
      the covered share of all lines, as a percentage, and 100 when the
      total is not positive. */
  function PackageLineRate(covered: int, uncovered: int): (rate: real)
    ensures Int32(covered + uncovered) > 0 ==>
              rate * Int32(covered + uncovered) as real == 100.0 * covered as real
    ensures Int32(covered + uncovered) <= 0 ==> rate == 100.0
  {
    var total := Int32(covered + uncovered);
    if total > 0 then 100.0 * covered as real / total as real else 100.0
  }

  /** The package line rate of a bean array. */
  function BeansLineRate(bs: seq<CoverageBean>): real {
    PackageLineRate(Int32(SumCovered(bs)), Int32(SumUncovered(bs)))
  }

  /** No line count is negative. */
  predicate CountsNonNegative(bs: seq<CoverageBean>) {
    forall k :: 0 <= k < |bs| ==> bs[k].numLinesCovered >= 0 && bs[k].numLinesUncovered >= 0
  }

  lemma {:induction false} SumsNonNegative(bs: seq<CoverageBean>)
    requires CountsNonNegative(bs)
    ensures SumCovered(bs) >= 0 && SumUncovered(bs) >= 0
  {
    if |bs| > 0 {
      var init := bs[..|bs| - 1];
      assert CountsNonNegative(init) by {
        forall k | 0 <= k < |init| ensures init[k] == bs[k] { }
      }
      SumsNonNegative(init);
    }
  }

  /** A covered percentage of a positive number of lines lies between 0
      and 100 and is 100 exactly when no line is uncovered. */
  lemma PercentBounds(c: int, u: int, rate: real)
    requires c >= 0 && u >= 0 && c + u > 0
    requires rate * (c + u) as real == 100.0 * c as real
    ensures 0.0 <= rate <= 100.0
    ensures rate == 100.0 <==> u == 0
  {
    var t := (c + u) as real;
    var cr := c as real;
    assert t > 0.0 && cr >= 0.0 && t >= cr;
    if rate < 0.0 {
      PositiveProduct(-rate, t);
    }
    if rate > 100.0 {
      PositiveProduct(rate - 100.0, t);
    }
    if rate == 100.0 {
      assert 100.0 * t == 100.0 * cr;
    }
  }

  lemma PositiveProduct(x: real, y: real)
    requires x > 0.0 && y > 0.0
    ensures x * y > 0.0
  {
  }

  /** When no count is negative and the line total fits in an `int`, the
      package rate is the covered percentage of all lines: between 0 and
      100, exactly 100 when no line is uncovered (in particular when there
      are no lines), and below 100 otherwise. */
  lemma PackageLineRateBounds(bs: seq<CoverageBean>)
    requires CountsNonNegative(bs)
    requires SumCovered(bs) + SumUncovered(bs) < TwoTo31
    ensures var rate := BeansLineRate(bs);
            var total := SumCovered(bs) + SumUncovered(bs);
            && 0.0 <= rate <= 100.0
            && (rate == 100.0 <==> SumUncovered(bs) == 0)
            && (total > 0 ==> rate * total as real == 100.0 * SumCovered(bs) as real)
  {
    SumsNonNegative(bs);
    var c := SumCovered(bs);
    var u := SumUncovered(bs);
    assert Int32(c) == c && Int32(u) == u && Int32(c + u) == c + u;
    if c + u > 0 {
      PercentBounds(c, u, BeansLineRate(bs));
    }
  }

  // ---------------------------------------------------------------------
  // The whole tree
  // ---------------------------------------------------------------------

  /** The root element once `generateCoberturaCoverageReport(doc, beans)`
      has filled it. */
  function CoverageRoot(timestamp: int, classes: seq<Node>, rate: real): Node {
    Element("coverage",
            map["timestamp" := Literal(IntToString(timestamp)), "version" := Zero,
                "branch-rate" := Zero, "line-rate" := Zero],
            [Element("sources", map[], [Element("source", map[], [TextNode(SourceName)])]),
             Element("packages", map[],
                     [Element("package",
                              map["name" := Literal(PackageName), "complexity" := Zero,
                                  "branch-rate" := Zero, "line-rate" := DoubleValue(rate)],
                              [Element("classes", map[], classes)])])])
  }

  /** The Cobertura document for the beans, with the clock reading
      `timestamp` (milliseconds); a null bean array or a null line list
      raises a `NullPointerException`. */
  function CoverageReport(beans: Option<seq<CoverageBean>>, timestamp: int): (r: Result<CoverageDocument, ReportError>)
    ensures r.Success? <==> beans.Some? && AllHaveLineLists(beans.value)
    ensures r.Failure? ==> r.error == NullPointer
    ensures r.Success? ==> r.value.doctypeName == "coverage" && r.value.systemId == CoverageDtd
  {
    match beans
    case None => Failure(NullPointer)
    case Some(bs) =>
      var classes :- ClassElements(bs);
      Success(CoverageDocument("coverage", CoverageDtd, CoverageRoot(timestamp, classes, BeansLineRate(bs))))
  }

  /** The root carries the clock reading and the constant rates and has
      exactly two children, `sources` and `packages`, each holding a single
      element: the one source is `Salesforce.com`, and the one package holds
      a single `classes` element with the package line rate and one class
      element per bean, in input order. */
  lemma CoverageReportShape(bs: seq<CoverageBean>, timestamp: int)
    requires AllHaveLineLists(bs)
    ensures CoverageReport(Some(bs), timestamp).Success?
    ensures var root := CoverageReport(Some(bs), timestamp).value.root;
            && root.Element? && root.name == "coverage"
            && AttrNumber(root, "timestamp") == Some(timestamp)
            && AttrText(root, "line-rate") == Some("0.0")
            && AttrText(root, "branch-rate") == Some("0.0")
            && AttrText(root, "version") == Some("0.0")
            && |root.children| == 2
            && Named(root.children[0], "sources") && |root.children[0].children| == 1
            && Named(root.children[1], "packages") && |root.children[1].children| == 1
            && |root.children[1].children[0].children| == 1
            && Find(root, ["sources", "source"]).Some?
            && Find(root, ["sources", "source"]).value.children == [TextNode(SourceName)]
            && Find(root, ["packages", "package"]).Some?
            && AttrText(Find(root, ["packages", "package"]).value, "name") == Some(PackageName)
            && Find(root, ["packages", "package"]).value.attrs["line-rate"] == DoubleValue(BeansLineRate(bs))
            && Find(root, ["packages", "package", "classes"]).Some?
            && Find(root, ["packages", "package", "classes"]).value.children == ClassElements(bs).value
  {
    var classes := ClassElements(bs).value;
    var rate := BeansLineRate(bs);
    var root := CoverageRoot(timestamp, classes, rate);
    assert CoverageReport(Some(bs), timestamp).value.root == root;
    NumberReadsBack(root, "timestamp", timestamp);
    SourcesPath(root);
    PackagePath(root);
  }

  lemma SourcesPath(root: Node)
    requires root.Element? && |root.children| >= 1
    requires root.children[0] == Element("sources", map[], [Element("source", map[], [TextNode(SourceName)])])
    ensures Find(root, ["sources", "source"]) == Some(Element("source", map[], [TextNode(SourceName)]))
  {
    var sources := root.children[0];
    FindStep(root, "sources", ["source"], sources);
    FindChild(sources, "source", sources.children[0]);
    assert ["sources"] + ["source"] == ["sources", "source"];
  }

  lemma PackagePath(root: Node)
    requires root.Element? && |root.children| == 2 && root.children[0].Element? && root.children[0].name == "sources"
    requires var packages := root.children[1];
             && packages.Element? && packages.name == "packages" && |packages.children| == 1
             && packages.children[0].Element? && packages.children[0].name == "package"
             && |packages.children[0].children| == 1
             && packages.children[0].children[0].Element? && packages.children[0].children[0].name == "classes"
    ensures var package := root.children[1].children[0];
            && Find(root, ["packages", "package"]) == Some(package)
            && Find(root, ["packages", "package", "classes"]) == Some(package.children[0])
  {
    var packages := root.children[1];
    var package := packages.children[0];
    assert |"sources"| != |"packages"|;
    assert root.children[1..] == [packages];
    FindStep(root, "packages", ["package"], packages);
    FindChild(packages, "package", package);
    assert ["packages"] + ["package"] == ["packages", "package"];
    FindStep(root, "packages", ["package", "classes"], packages);
    FindStep(packages, "package", ["classes"], package);
    FindChild(package, "classes", package.children[0]);
    assert ["packages"] + ["package", "classes"] == ["packages", "package", "classes"];
    assert ["package"] + ["classes"] == ["package", "classes"];
  }

  // ---------------------------------------------------------------------
  // The loop
  // ---------------------------------------------------------------------

  /** The loop of `generateCoberturaCoverageReport`: it adds each bean's
      counts to 32-bit running totals and appends its class element, then
      sets the package line rate. */
  method GenerateCoberturaCoverageReport(beans: Option<seq<CoverageBean>>, timestamp: int)
    returns (r: Result<CoverageDocument, ReportError>)
    ensures r == CoverageReport(beans, timestamp)
  {
    if beans.None? {
      return Failure(NullPointer);
    }
    var bs := beans.value;
    var totalCovered := 0;
    var totalUncovered := 0;
    var classes: seq<Node> := [];
    var k := 0;
    while k < |bs|
      invariant 0 <= k <= |bs|
      invariant totalCovered == Int32(SumCovered(bs[..k]))
      invariant totalUncovered == Int32(SumUncovered(bs[..k]))
      invariant |classes| == k
      invariant forall i :: 0 <= i < k ==> HasLineLists(bs[i]) && classes[i] == ClassElement(bs[i]).value
    {
      assert bs[..k + 1][..k] == bs[..k];
      Int32Add(SumCovered(bs[..k]), bs[k].numLinesCovered);
      Int32Add(SumUncovered(bs[..k]), bs[k].numLinesUncovered);
      totalCovered := Int32(totalCovered + bs[k].numLinesCovered);
      totalUncovered := Int32(totalUncovered + bs[k].numLinesUncovered);
      var c := ClassElement(bs[k]);
      if c.Failure? {
        return Failure(c.error);
      }
      classes := classes + [c.value];
      k := k + 1;
    }
    assert bs[..k] == bs;
    assert classes == ClassElements(bs).value;
    var rate := PackageLineRate(totalCovered, totalUncovered);
    r := Success(CoverageDocument("coverage", CoverageDtd, CoverageRoot(timestamp, classes, rate)));
  }
}
