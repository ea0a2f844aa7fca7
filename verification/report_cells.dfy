/** How many table cells and rows the HTML report holds: one data row of
    eight cells per class, eight header cells for the coverage table, and
    one row with one cell per duplicate or invalid class entry. */
module ReportCells {
  import opened Outcomes
  import opened Markup
  import opened Inputs
  import opened HtmlReport

  /** The fragments hold exactly the given numbers of data cells (`td`),
      header cells (`th`) and row tags (`tr`). */
  predicate HasCells(fs: seq<Fragment>, data: nat, headers: nat, rows: nat) {
    CountTag(fs, "td") == data && CountTag(fs, "th") == headers && CountTag(fs, "tr") == rows
  }

  lemma CellsAppend(a: seq<Fragment>, b: seq<Fragment>, d1: nat, h1: nat, r1: nat, d2: nat, h2: nat, r2: nat)
    requires HasCells(a, d1, h1, r1) && HasCells(b, d2, h2, r2)
    ensures HasCells(a + b, d1 + d2, h1 + h2, r1 + r2)
  {
    CountTagAppend(a, b, "td");
    CountTagAppend(a, b, "th");
    CountTagAppend(a, b, "tr");
  }

  predicate IsCell(f: Fragment) {
    f.Elem? && (f.tag == "td" || f.tag == "th" || f.tag == "tr")
  }

  /** Fragments that are none of `td`, `th` and `tr` count for nothing. */
  lemma NoCellsIn(fs: seq<Fragment>)
    requires forall i :: 0 <= i < |fs| ==> !IsCell(fs[i])
    ensures HasCells(fs, 0, 0, 0)
  {
    CountTagUniform(fs, "td");
    CountTagUniform(fs, "th");
    CountTagUniform(fs, "tr");
  }

  /** Fragments that all have one tag count once each under that tag. */
  lemma UniformCells(fs: seq<Fragment>, tag: string)
    requires forall i :: 0 <= i < |fs| ==> fs[i].Elem? && fs[i].tag == tag
    ensures tag == "td" ==> HasCells(fs, |fs|, 0, 0)
    ensures tag == "th" ==> HasCells(fs, 0, |fs|, 0)
    ensures tag == "tr" ==> HasCells(fs, 0, 0, |fs|)
  {
    CountTagUniform(fs, "td");
    CountTagUniform(fs, "th");
    CountTagUniform(fs, "tr");
  }

  lemma LineSpacesCells(n: int)
    ensures HasCells(LineSpaces(n), 0, 0, 0)
  {
    NoCellsIn(LineSpaces(n));
  }

  // ---------------------------------------------------------------------
  // The sections without cells
  // ---------------------------------------------------------------------

  lemma BannerCells()
    ensures HasCells(Banner(), 0, 0, 0)
  {
    var head := Banner()[..2];
    assert Banner() == head + LineSpaces(2);
    NoCellsIn(head);
    LineSpacesCells(2);
    CellsAppend(head, LineSpaces(2), 0, 0, 0, 0, 0, 0);
  }

  lemma CoverageSummaryCells(run: RunResults, fmt: NumberFormat)
    ensures HasCells(CoverageSummary(run, fmt), 0, 0, 0)
  {
    var fs := CoverageSummary(run, fmt);
    assert fs[1] == Br && fs[4] == Br;
    NoCellsIn(fs);
  }

  lemma TestExecutionSummaryCells(run: RunResults)
    ensures HasCells(TestExecutionSummary(run), 0, 0, 0)
  {
    var fs := TestExecutionSummary(run);
    assert fs[1] == Br;
    NoCellsIn(fs);
  }

  lemma TestReportLinkCells(env: Environment)
    ensures HasCells(TestReportLink(env), 0, 0, 0)
  {
    var fs := TestReportLink(env);
    assert fs[0] == Br && fs[2] == Br && fs[4] == Br;
    NoCellsIn(fs);
  }

  lemma DetailHeadingCells()
    ensures HasCells(DetailHeading() + [Raw(TableOpen)], 0, 0, 0)
  {
    var fs := DetailHeading() + [Raw(TableOpen)];
    assert fs[1] == Br;
    NoCellsIn(fs);
  }

  /** Nothing before the coverage table's contents is a cell or a row. */
  lemma LeadCells(run: RunResults, env: Environment, fmt: NumberFormat)
    ensures HasCells(Lead(run, env, fmt), 0, 0, 0)
  {
    var a := Banner();
    var b := CoverageSummary(run, fmt);
    var c := TestExecutionSummary(run);
    var d := TestReportLink(env);
    var e := DetailHeading() + [Raw(TableOpen)];
    BannerCells();
    CoverageSummaryCells(run, fmt);
    TestExecutionSummaryCells(run);
    TestReportLinkCells(env);
    DetailHeadingCells();
    CellsAppend(a, b, 0, 0, 0, 0, 0, 0);
    CellsAppend(a + b, c, 0, 0, 0, 0, 0, 0);
    CellsAppend(a + b + c, d, 0, 0, 0, 0, 0, 0);
    CellsAppend(a + b + c + d, e, 0, 0, 0, 0, 0, 0);
    assert Lead(run, env, fmt) == a + b + c + d + e;
  }

  lemma EpilogueCells()
    ensures HasCells(Epilogue(), 0, 0, 0)
  {
    var tail := Epilogue()[1..];
    assert Epilogue() == LineSpaces(2) + tail;
    NoCellsIn(tail);
    LineSpacesCells(2);
    CellsAppend(LineSpaces(2), tail, 0, 0, 0, 0, 0, 0);
  }

  // ---------------------------------------------------------------------
  // The coverage table
  // ---------------------------------------------------------------------

  /** A bean's row is eight data cells and one row tag. */
  lemma BeanRowCells(b: CoverageBean, threshold: real, fmt: NumberFormat)
    requires Renderable(b)
    ensures BeanRow(b, threshold, fmt).Success?
    ensures HasCells(BeanRow(b, threshold, fmt).value, 8, 0, 1)
  {
    var row := BeanRow(b, threshold, fmt).value;
    var cells := row[..8];
    assert row == cells + [Tr];
    UniformCells(cells, "td");
    UniformCells([Tr], "tr");
    CellsAppend(cells, [Tr], 8, 0, 0, 0, 0, 1);
  }

  /** The rows of n beans hold 8n data cells and n row tags. */
  lemma {:induction false} RowsCells(bs: seq<CoverageBean>, threshold: real, fmt: NumberFormat)
    requires AllRenderable(bs)
    ensures Rows(bs, threshold, fmt).Success?
    ensures HasCells(Rows(bs, threshold, fmt).value, 8 * |bs|, 0, |bs|)
  {
    RowsSucceed(bs, threshold, fmt);
    if |bs| == 0 {
      NoCellsIn([]);
    } else {
      var front := bs[..|bs| - 1];
      AllRenderableSplit(bs);
      RowsCells(front, threshold, fmt);
      BeanRowCells(bs[|bs| - 1], threshold, fmt);
      var init := Rows(front, threshold, fmt).value;
      var last := BeanRow(bs[|bs| - 1], threshold, fmt).value;
      assert Rows(bs, threshold, fmt).value == init + last;
      CellsAppend(init, last, 8 * |front|, 0, |front|, 8, 0, 1);
    }
  }

  /** The header of the coverage table: eight header cells and one row tag. */
  lemma HeaderRowCells()
    ensures HasCells(HeaderRow(), 0, 8, 1)
  {
    var fs := HeaderRow();
    var labels := fs[1..9];
    var open := [fs[0]];
    var close := [fs[9]];
    assert fs == open + labels + close + [Tr];
    NoCellsIn(open);
    UniformCells(labels, "th");
    NoCellsIn(close);
    UniformCells([Tr], "tr");
    CellsAppend(open, labels, 0, 0, 0, 0, 8, 0);
    CellsAppend(open + labels, close, 0, 8, 0, 0, 0, 0);
    CellsAppend(open + labels + close, [Tr], 0, 8, 0, 0, 0, 1);
  }

  /** Number of beans in the table, 0 for a null array. */
  function TableSize(beans: Option<seq<CoverageBean>>): nat {
    if beans.Some? then |beans.value| else 0
  }

  /** The coverage table of n beans: 8n data cells, eight header cells and
      n + 1 row tags; nothing at all for a null bean array. */
  lemma CoverageTableCells(beans: Option<seq<CoverageBean>>, threshold: real, fmt: NumberFormat)
    requires TableRenderable(beans)
    ensures CoverageTable(beans, threshold, fmt).Success?
    ensures beans.None? ==> HasCells(CoverageTable(beans, threshold, fmt).value, 0, 0, 0)
    ensures beans.Some? ==>
              HasCells(CoverageTable(beans, threshold, fmt).value, 8 * TableSize(beans), 8, TableSize(beans) + 1)
  {
    if beans.None? {
      NoCellsIn([]);
    } else {
      var bs := beans.value;
      RowsCells(bs, threshold, fmt);
      HeaderRowCells();
      var rows := Rows(bs, threshold, fmt).value;
      var open := [Raw("<lowcc>")];
      var close := [Raw("</lowcc>")];
      NoCellsIn(open);
      NoCellsIn(close);
      CellsAppend(HeaderRow(), open, 0, 8, 1, 0, 0, 0);
      CellsAppend(HeaderRow() + open, rows, 0, 8, 1, 8 * |bs|, 0, |bs|);
      CellsAppend(HeaderRow() + open + rows, close, 8 * |bs|, 8, |bs| + 1, 0, 0, 0);
    }
  }

  // ---------------------------------------------------------------------
  // The listings
  // ---------------------------------------------------------------------

  /** Number of entries in an optional listing, 0 for a null one. */
  function EntryCount(entries: Option<seq<string>>): nat {
    if entries.Some? then |entries.value| else 0
  }

  lemma {:induction false} EntryRowsCells(entries: seq<string>)
    ensures HasCells(EntryRows(entries), |entries|, 0, |entries|)
  {
    if |entries| == 0 {
      NoCellsIn([]);
    } else {
      var front := entries[..|entries| - 1];
      EntryRowsCells(front);
      var cell := [DataCell("", entries[|entries| - 1])];
      UniformCells([Tr], "tr");
      UniformCells(cell, "td");
      CellsAppend([Tr], cell, 0, 0, 1, 1, 0, 0);
      assert EntryRows(entries) == EntryRows(front) + ([Tr] + cell);
      CellsAppend(EntryRows(front), [Tr] + cell, |front|, 0, |front|, 1, 0, 1);
    }
  }

  /** Number of header cells of a listing: one when it is shown. */
  function ListingHeaders(entries: Option<seq<string>>): nat {
    if EntryCount(entries) > 0 then 1 else 0
  }

  /** A listing of n entries: n data cells, one header cell and n row tags;
      nothing when it is null or empty. */
  lemma ListingCells(entries: Option<seq<string>>, heading: string)
    ensures HasCells(ListingTable(entries, heading), EntryCount(entries), ListingHeaders(entries), EntryCount(entries))
  {
    var fs := ListingTable(entries, heading);
    if |fs| == 0 {
      NoCellsIn([]);
    } else {
      var n := |entries.value|;
      var rows := EntryRows(entries.value);
      var lead := fs[..2];
      var header := [fs[2]];
      var close := [fs[|fs| - 1]];
      assert fs == lead + header + rows + close;
      NoCellsIn(lead);
      UniformCells(header, "th");
      EntryRowsCells(entries.value);
      NoCellsIn(close);
      CellsAppend(lead, header, 0, 0, 0, 0, 1, 0);
      CellsAppend(lead + header, rows, 0, 1, 0, n, 0, n);
      CellsAppend(lead + header + rows, close, n, 1, n, 0, 0, 0);
    }
  }

  lemma ListingsCells(run: RunResults)
    ensures var d := run.duplicateEntries;
            var v := run.nonExistentEntries;
            HasCells(Listings(run), EntryCount(d) + EntryCount(v), ListingHeaders(d) + ListingHeaders(v), EntryCount(d) + EntryCount(v))
  {
    var d := run.duplicateEntries;
    var v := run.nonExistentEntries;
    var a := ListingTable(d, DuplicatesHeading);
    var b := ListingTable(v, InvalidHeading);
    ListingCells(d, DuplicatesHeading);
    ListingCells(v, InvalidHeading);
    NoCellsIn([Raw(TableClose)]);
    assert Listings(run) == [Raw(TableClose)] + a + b;
    CellsAppend([Raw(TableClose)], a, 0, 0, 0, EntryCount(d), ListingHeaders(d), EntryCount(d));
    CellsAppend([Raw(TableClose)] + a, b, EntryCount(d), ListingHeaders(d), EntryCount(d), EntryCount(v), ListingHeaders(v), EntryCount(v));
  }

  // ---------------------------------------------------------------------
  // The whole report
  // ---------------------------------------------------------------------

  /** The `<html>` envelope adds no cells. */
  lemma DocumentCells(body: seq<Fragment>, d: nat, h: nat, r: nat)
    requires HasCells(body, d, h, r)
    ensures HasCells(Document(body), d, h, r)
  {
    NoCellsIn([Raw("<html>")]);
    NoCellsIn([Raw("</html>")]);
    assert Document(body) == [Raw("<html>")] + body + [Raw("</html>")];
    CellsAppend([Raw("<html>")], body, 0, 0, 0, d, h, r);
    CellsAppend([Raw("<html>")] + body, [Raw("</html>")], d, h, r, 0, 0, 0);
  }

  /** The body holds the cells of its coverage table and listings and no
      others. */
  lemma BodyCells(lead: seq<Fragment>, table: seq<Fragment>, listings: seq<Fragment>, epilogue: seq<Fragment>,
                  d1: nat, h1: nat, r1: nat, d2: nat, h2: nat, r2: nat)
    requires HasCells(lead, 0, 0, 0) && HasCells(epilogue, 0, 0, 0)
    requires HasCells(table, d1, h1, r1) && HasCells(listings, d2, h2, r2)
    ensures HasCells(lead + table + listings + epilogue, d1 + d2, h1 + h2, r1 + r2)
  {
    CellsAppend(lead, table, 0, 0, 0, d1, h1, r1);
    CellsAppend(lead + table, listings, d1, h1, r1, d2, h2, r2);
    CellsAppend(lead + table + listings, epilogue, d1 + d2, h1 + h2, r1 + r2, 0, 0, 0);
  }

  /** The cell and row counts of a generated report: eight data cells and a
      row tag per class plus the header row of eight header cells, and one
      data cell and one row tag per duplicate or invalid entry, each shown
      listing with its header cell. */
  lemma ReportCellCounts(beans: Option<seq<CoverageBean>>, run: RunResults, env: Environment, fmt: NumberFormat)
    requires TableRenderable(beans)
    ensures ReportFragments(beans, run, env, fmt).Success?
    ensures var n := TableSize(beans);
            var d := run.duplicateEntries;
            var v := run.nonExistentEntries;
            HasCells(ReportFragments(beans, run, env, fmt).value,
                     8 * n + EntryCount(d) + EntryCount(v),
                     (if beans.Some? then 8 else 0) + ListingHeaders(d) + ListingHeaders(v),
                     (if beans.Some? then n + 1 else 0) + EntryCount(d) + EntryCount(v))
  {
    var n := TableSize(beans);
    var d := run.duplicateEntries;
    var v := run.nonExistentEntries;
    CoverageTableCells(beans, run.teamThreshold, fmt);
    var table := CoverageTable(beans, run.teamThreshold, fmt).value;
    var body := Lead(run, env, fmt) + table + Listings(run) + Epilogue();
    ListingsCells(run);
    LeadCells(run, env, fmt);
    EpilogueCells();
    BodyCells(Lead(run, env, fmt), table, Listings(run), Epilogue(),
              8 * n, if beans.Some? then 8 else 0, if beans.Some? then n + 1 else 0,
              EntryCount(d) + EntryCount(v), ListingHeaders(d) + ListingHeaders(v), EntryCount(d) + EntryCount(v));
    DocumentCells(body, 8 * n + EntryCount(d) + EntryCount(v),
                  (if beans.Some? then 8 else 0) + ListingHeaders(d) + ListingHeaders(v),
                  (if beans.Some? then n + 1 else 0) + EntryCount(d) + EntryCount(v));
    ReportFragmentsLayout(beans, run, env, fmt);
  }
}
