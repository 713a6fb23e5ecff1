/**
 * One page of search results, read row by row: `collect_list_rows`
 * (test_copy.py:82-108) and the search of `click_first_matching_post`
 * (test_copy.py:58-80).
 *
 * A page's table is given as the rows the row selector found, each with the
 * number of header (`th`) cells it holds and its data (`td`) cells in order;
 * a cell has its visible text and the anchors (`a` elements) inside it.
 */
module Listing {

  import opened Wrappers
  import opened Text
  import opened Dates
  import opened Links
  import opened Seqs

  datatype Anchor = Anchor(text: string, href: Option<string>)

  datatype Cell = Cell(text: string, anchors: seq<Anchor>)

  datatype TableRow = TableRow(headerCells: nat, cells: seq<Cell>)

  /**
   * A row as `collect_list_rows` returns it: the date column as shown
   * ("날짜"), the title ("제목"), the link ("링크") and the parsed date ("_dt").
   */
  datatype ListRow = ListRow(shownDate: string, title: string, link: string, date: Option<ValidDate>)

  /** The keywords a title must contain one of (test_copy.py:56). */
  const Keywords: seq<string> := ["1년차", "인턴"]

  /** `any(k in title for k in KEYWORDS)`. */
  predicate HasKeyword(title: string)
  {
    exists i :: 0 <= i < |Keywords| && Contains(title, Keywords[i])
  }

  const TitleColumn := 1
  const DateColumn := 3

  /** A row `collect_list_rows` reads: it has no header cell and at least four data cells. */
  predicate IsDataRow(tr: TableRow)
  {
    tr.headerCells == 0 && |tr.cells| >= 4
  }

  /** The title: the first anchor's text if the cell has an anchor, else the cell's text, stripped. */
  function TitleOf(c: Cell): string
  {
    if |c.anchors| > 0 then Strip(c.anchors[0].text) else Strip(c.text)
  }

  /** The first anchor's `href` attribute, or `None` when the cell has no anchor. */
  function HrefOf(c: Cell): Option<string>
  {
    if |c.anchors| > 0 then c.anchors[0].href else None
  }

  /** The cell in column `i`; `collect_list_rows` only reads rows that have it. */
  function Column(tr: TableRow, i: nat): Cell
  {
    if i < |tr.cells| then tr.cells[i] else Cell("", [])
  }

  /** The record built from one data row of a page at `url` (test_copy.py:95-107). */
  function ReadRow(url: string, tr: TableRow): ListRow
  {
    var dateText := Strip(Column(tr, DateColumn).text);
    var dt := ParseDate(dateText);
    ListRow(
      if dt.Some? then FormatDate(dt.value) else dateText,
      TitleOf(Column(tr, TitleColumn)),
      ResolveLink(url, HrefOf(Column(tr, TitleColumn))),
      dt)
  }

  /** What `collect_list_rows` returns for a table: its data rows, read in table order. */
  function ExtractedRows(url: string, table: seq<TableRow>): seq<ListRow>
  {
    KeepMap(table, IsDataRow, (tr: TableRow) => ReadRow(url, tr))
  }

  /** `collect_list_rows(page)` for a page at `url` whose rows are `table`. */
  method CollectListRows(url: string, table: seq<TableRow>) returns (rows: seq<ListRow>)
    ensures rows == ExtractedRows(url, table)
  {
    rows := [];
    for i := 0 to |table|
      invariant rows == ExtractedRows(url, table[..i])
    {
      assert table[..i + 1][..i] == table[..i];
      var tr := table[i];
      if tr.headerCells > 0 {
        continue;
      }
      if |tr.cells| < 4 {
        continue;
      }
      var titleCell := tr.cells[TitleColumn];
      var title := TitleOf(titleCell);
      var href := HrefOf(titleCell);
      var link := ResolveLink(url, href);
      var dateText := Strip(tr.cells[DateColumn].text);
      var dt := ParseDate(dateText);
      rows := rows + [ListRow(if dt.Some? then FormatDate(dt.value) else dateText, title, link, dt)];
    }
    assert table[..|table|] == table;
  }

  /**
   * `collect_list_rows` keeps exactly the data rows, in table order: its
   * `k`-th record is read from the `k`-th row that has no header cell and at
   * least four data cells, and every other row is skipped.
   */
  lemma ExtractedRowsInOrder(url: string, table: seq<TableRow>)
    ensures var ix := KeptIndices(table, IsDataRow);
      && |ExtractedRows(url, table)| == |ix|
      && (forall k :: 0 <= k < |ix| ==> ExtractedRows(url, table)[k] == ReadRow(url, table[ix[k]]))
      && (forall i :: 0 <= i < |table| ==> (IsDataRow(table[i]) <==> i in ix))
  {
    KeepMapInOrder(table, IsDataRow, (tr: TableRow) => ReadRow(url, tr));
  }

  /**
   * The date column holds the normalised `YYYY-MM-DD` text when the date
   * parses, and the stripped raw text otherwise; either way, parsing what is
   * shown gives the row's date.
   */
  lemma ShownDateAgrees(url: string, tr: TableRow)
    requires IsDataRow(tr)
    ensures var r := ReadRow(url, tr);
      && (r.date.Some? ==> r.shownDate == FormatDate(r.date.value))
      && (r.date.None? ==> r.shownDate == Strip(tr.cells[DateColumn].text))
      && ParseDate(r.shownDate) == r.date
  {
    var r := ReadRow(url, tr);
    if r.date.Some? {
      FormatThenParse(r.date.value);
    } else {
      StripIdempotent(tr.cells[DateColumn].text);
    }
  }

  /** Every record `collect_list_rows` returns shows a date text that parses to its date. */
  lemma ExtractedDatesAgree(url: string, table: seq<TableRow>, r: ListRow)
    requires r in ExtractedRows(url, table)
    ensures ParseDate(r.shownDate) == r.date
  {
    KeepMapMembers(table, IsDataRow, (tr: TableRow) => ReadRow(url, tr), r);
    var i :| 0 <= i < |table| && IsDataRow(table[i]) && r == ReadRow(url, table[i]);
    ShownDateAgrees(url, table[i]);
  }

  // ---------------------------------------------------------------------
  // click_first_matching_post: which row it clicks
  // ---------------------------------------------------------------------

  /**
   * The title `click_first_matching_post` reads from a cell: the text of its
   * anchor, else of the cell. With more than one anchor, reading the text of
   * the anchor locator fails (it matches several elements) and the failure is
   * caught, leaving an empty title.
   */
  function PostTitleOf(c: Cell): string
  {
    if |c.anchors| == 0 then Strip(c.text)
    else if |c.anchors| == 1 then Strip(c.anchors[0].text)
    else ""
  }

  /** A row `click_first_matching_post` would click: no header cell, two or more data cells, a keyword in the title. */
  predicate IsMatchingPost(tr: TableRow)
  {
    tr.headerCells == 0 && |tr.cells| >= 2 && HasKeyword(PostTitleOf(tr.cells[TitleColumn]))
  }

  /**
   * The row `click_first_matching_post` clicks: the first matching row, or
   * `None` when there is none (and it returns `False`).
   */
  method FindFirstMatchingPost(table: seq<TableRow>) returns (found: Option<nat>)
    ensures found.Some? ==> found.value < |table| && IsMatchingPost(table[found.value])
    ensures found.Some? ==> forall i :: 0 <= i < found.value ==> !IsMatchingPost(table[i])
    ensures found.None? ==> forall i :: 0 <= i < |table| ==> !IsMatchingPost(table[i])
  {
    for i := 0 to |table|
      invariant forall j :: 0 <= j < i ==> !IsMatchingPost(table[j])
    {
      var tr := table[i];
      if tr.headerCells > 0 {
        continue;
      }
      if |tr.cells| < 2 {
        continue;
      }
      var title := PostTitleOf(tr.cells[TitleColumn]);
      var hit := HasKeyword(title);
      assert hit == IsMatchingPost(tr);
      if hit {
        return Some(i);
      }
    }
    return None;
  }

}
