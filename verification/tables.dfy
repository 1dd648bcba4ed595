/**
 * `extract_table_structured`: every table the PDF library reports on a
 * selected page is kept with its page number, each missing cell (`None`)
 * replaced by the empty string.
 */
module Tables {
  import opened Wrappers

  /** A cell as reported: its text, or `None` for an empty merged cell. */
  type Cell = Option<string>

  type RawTable = seq<seq<Cell>>

  /** One result entry: the page (numbered from 1) and the cleaned rows. */
  datatype TableEntry = TableEntry(page: int, tableData: seq<seq<string>>)

  /** `cell if cell is not None else ""`. */
  function CleanCell(c: Cell): (r: string)
    ensures c.Some? ==> r == c.value
    ensures c.None? ==> r == ""
  {
    c.GetOr("")
  }

  /** The nested comprehension over rows and cells. */
  function CleanTable(t: RawTable): (r: seq<seq<string>>)
    ensures |r| == |t| && forall i :: 0 <= i < |t| ==> |r[i]| == |t[i]|
    ensures forall i, j :: 0 <= i < |t| && 0 <= j < |t[i]| ==> r[i][j] == CleanCell(t[i][j])
  {
    seq(|t|, i requires 0 <= i < |t| => seq(|t[i]|, j requires 0 <= j < |t[i]| => CleanCell(t[i][j])))
  }

  /** Two cells that read the same once cleaned: equal, or one missing and the other empty. */
  predicate SameCell(a: Cell, b: Cell)
  {
    a == b || (a.None? && b == Some("")) || (a == Some("") && b.None?)
  }

  predicate SameShape(t1: RawTable, t2: RawTable)
  {
    |t1| == |t2| && forall i :: 0 <= i < |t1| ==> |t1[i]| == |t2[i]|
  }

  /**
   * Cleaning forgets exactly the difference between a missing cell and an
   * empty one: two tables clean to the same rows if and only if they have
   * the same shape and agree cell by cell up to that difference.
   */
  lemma CleanTableSame(t1: RawTable, t2: RawTable)
    ensures CleanTable(t1) == CleanTable(t2) <==>
      SameShape(t1, t2) && forall i, j :: 0 <= i < |t1| && 0 <= j < |t1[i]| ==> SameCell(t1[i][j], t2[i][j])
  {
    var r1, r2 := CleanTable(t1), CleanTable(t2);
    if r1 == r2 {
      forall i, j | 0 <= i < |t1| && 0 <= j < |t1[i]| ensures SameCell(t1[i][j], t2[i][j]) {
        assert r1[i][j] == r2[i][j];
      }
    }
    if SameShape(t1, t2) && forall i, j :: 0 <= i < |t1| && 0 <= j < |t1[i]| ==> SameCell(t1[i][j], t2[i][j]) {
      forall i | 0 <= i < |r1| ensures r1[i] == r2[i] {
        assert forall j :: 0 <= j < |r1[i]| ==> r1[i][j] == r2[i][j];
      }
    }
  }

  /** The cleaned rows with every cell present. */
  function Present(rows: seq<seq<string>>): (t: RawTable)
    ensures SameShape(t, t) && |t| == |rows| && forall i :: 0 <= i < |rows| ==> |t[i]| == |rows[i]|
    ensures forall i, j :: 0 <= i < |rows| && 0 <= j < |rows[i]| ==> t[i][j] == Some(rows[i][j])
  {
    seq(|rows|, i requires 0 <= i < |rows| => seq(|rows[i]|, j requires 0 <= j < |rows[i]| => Some(rows[i][j])))
  }

  /** Cleaned rows are a fixed point: cleaning them again (all cells present) changes nothing. */
  lemma CleanTableFixedPoint(rows: seq<seq<string>>)
    ensures CleanTable(Present(rows)) == rows
  {
    var r := CleanTable(Present(rows));
    forall i | 0 <= i < |rows| ensures r[i] == rows[i] {
      assert forall j :: 0 <= j < |rows[i]| ==> r[i][j] == rows[i][j];
    }
  }

  /** The page filter `{page_number}`, or no filter when no page is given. */
  predicate Selected(idx: int, pageNumber: Option<int>)
  {
    pageNumber.None? || idx == pageNumber.value
  }

  /** The entries of one page's tables, in the library's order. */
  function PageEntries(idx: int, raw: seq<RawTable>): (r: seq<TableEntry>)
    ensures |r| == |raw|
    ensures forall k :: 0 <= k < |raw| ==> r[k] == TableEntry(idx, CleanTable(raw[k]))
  {
    seq(|raw|, k requires 0 <= k < |raw| => TableEntry(idx, CleanTable(raw[k])))
  }

  /** `tables_structured` after the given pages. */
  function Structured(pages: seq<seq<RawTable>>, pageNumber: Option<int>): seq<TableEntry>
  {
    if pages == [] then []
    else
      var n := |pages|;
      Structured(pages[..n - 1], pageNumber) + (if Selected(n, pageNumber) then PageEntries(n, pages[n - 1]) else [])
  }

  lemma StructuredPrefix(pages: seq<seq<RawTable>>, pageNumber: Option<int>, p: nat)
    requires p < |pages|
    ensures Structured(pages[..p + 1], pageNumber)
         == Structured(pages[..p], pageNumber) + (if Selected(p + 1, pageNumber) then PageEntries(p + 1, pages[p]) else [])
  {
    assert pages[..p + 1][..p] == pages[..p];
  }

  lemma PageEntriesPrefix(idx: int, raw: seq<RawTable>, k: nat)
    requires k < |raw|
    ensures PageEntries(idx, raw[..k + 1]) == PageEntries(idx, raw[..k]) + [TableEntry(idx, CleanTable(raw[k]))]
  {
  }

  /** The table loop `for t in raw_tables` of one selected page. */
  method AppendTables(tables: seq<TableEntry>, idx: int, rawTables: seq<RawTable>) returns (tables': seq<TableEntry>)
    ensures tables' == tables + PageEntries(idx, rawTables)
  {
    tables' := tables;
    for k := 0 to |rawTables|
      invariant tables' == tables + PageEntries(idx, rawTables[..k])
    {
      PageEntriesPrefix(idx, rawTables, k);
      var cleaned := CleanTable(rawTables[k]);
      tables' := tables' + [TableEntry(idx, cleaned)];
    }
    assert rawTables[..|rawTables|] == rawTables;
  }

  /** The page loop of `extract_table_structured`. */
  method ExtractTables(pages: seq<seq<RawTable>>, pageNumber: Option<int>) returns (tables: seq<TableEntry>)
    ensures tables == Structured(pages, pageNumber)
  {
    tables := [];
    for p := 0 to |pages|
      invariant tables == Structured(pages[..p], pageNumber)
    {
      StructuredPrefix(pages, pageNumber, p);
      var idx := p + 1;
      if Selected(idx, pageNumber) {
        tables := AppendTables(tables, idx, pages[p]);
      }
    }
    assert pages[..|pages|] == pages;
  }

  /** Every entry comes from a selected page of the document. */
  lemma {:induction false} StructuredPages(pages: seq<seq<RawTable>>, pageNumber: Option<int>)
    ensures forall i :: 0 <= i < |Structured(pages, pageNumber)| ==>
      1 <= Structured(pages, pageNumber)[i].page <= |pages| && Selected(Structured(pages, pageNumber)[i].page, pageNumber)
  {
    if pages != [] {
      var n := |pages|;
      var init := pages[..n - 1];
      StructuredPages(init, pageNumber);
      var before := Structured(init, pageNumber);
      var page := if Selected(n, pageNumber) then PageEntries(n, pages[n - 1]) else [];
      var all := before + page;
      forall i | 0 <= i < |all| ensures 1 <= all[i].page <= n && Selected(all[i].page, pageNumber) {
        if i < |before| {
          assert all[i] == before[i];
        } else {
          assert all[i] == page[i - |before|];
        }
      }
    }
  }

  predicate PagesAscend(es: seq<TableEntry>)
  {
    forall i :: 0 < i < |es| ==> es[i - 1].page <= es[i].page
  }

  lemma AscendAppend(before: seq<TableEntry>, page: seq<TableEntry>, n: int)
    requires PagesAscend(before)
    requires forall i :: 0 <= i < |before| ==> before[i].page < n
    requires forall k :: 0 <= k < |page| ==> page[k].page == n
    ensures PagesAscend(before + page)
  {
    var all := before + page;
    forall i | 0 < i < |all| ensures all[i - 1].page <= all[i].page {
      if i < |before| {
        assert all[i - 1] == before[i - 1] && all[i] == before[i];
      } else if i == |before| {
        assert all[i - 1] == before[i - 1] && all[i] == page[0];
      } else {
        assert all[i - 1] == page[i - 1 - |before|] && all[i] == page[i - |before|];
      }
    }
  }

  /** The entries keep page order. */
  lemma {:induction false} StructuredAscending(pages: seq<seq<RawTable>>, pageNumber: Option<int>)
    ensures PagesAscend(Structured(pages, pageNumber))
  {
    if pages != [] {
      var n := |pages|;
      var init := pages[..n - 1];
      StructuredAscending(init, pageNumber);
      if Selected(n, pageNumber) {
        StructuredPages(init, pageNumber);
        AscendAppend(Structured(init, pageNumber), PageEntries(n, pages[n - 1]), n);
      }
    }
  }

  /** The selected pages contribute one entry per reported table. */
  lemma {:induction false} StructuredCount(pages: seq<seq<RawTable>>, pageNumber: Option<int>)
    ensures |Structured(pages, pageNumber)| == TableCount(pages, pageNumber)
  {
    if pages != [] {
      StructuredCount(pages[..|pages| - 1], pageNumber);
    }
  }

  /** The number of tables the selected pages report. */
  function TableCount(pages: seq<seq<RawTable>>, pageNumber: Option<int>): nat
  {
    if pages == [] then 0
    else
      var n := |pages|;
      TableCount(pages[..n - 1], pageNumber) + (if Selected(n, pageNumber) then |pages[n - 1]| else 0)
  }
}
