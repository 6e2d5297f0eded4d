/**
 * scrape_table_from_url (scraper_utils.py, lines 11-106) from the moment the
 * browser has been told to load the page: the two ways it gives up with an
 * empty frame, and otherwise the header choice, the empty-row filter and the
 * normalisation of the rows that survive.
 *
 * The browser, the parser and pandas are not modelled. Whether waiting for a
 * <table> succeeded and which table the parser found first are inputs.
 */
module Scraper {

  import opened Wrappers
  import opened HtmlTable
  import opened RowFilter
  import opened RowNormalise

  /**
   * What the function returns: an empty DataFrame when waiting for a <table>
   * raised any exception (a timeout or otherwise), an empty
   * DataFrame when the page source holds no <table>, or the header list with
   * the normalised rows the DataFrame is built from.
   */
  datatype Outcome =
    | EmptyAfterFailedWait
    | EmptyNoTable
    | Extracted(headers: seq<string>, rows: seq<seq<Option<string>>>)

  /** Number of data rows in the resulting frame. */
  function RowCount(o: Outcome): nat
  {
    if o.Extracted? then |o.rows| else 0
  }

  /** The texts of the rows the extractor walks, before filtering. */
  function BodyTexts(t: Table): seq<seq<string>>
  {
    TextRows(BodyRows(t))
  }

  /** What a table found in the page source becomes (lines 76-98, 101). */
  function Extract(t: Table): Outcome
  {
    var headers := SelectHeaders(t);
    Extracted(headers, NormaliseRows(NonEmptyRows(BodyTexts(t)), headers))
  }

  /**
   * The whole step. `tableAppeared` is whether the wait for a <table> element
   * ended without an exception; `firstTable` is the first <table> the parser
   * finds in the rendered source, if any.
   */
  method ScrapeTable(tableAppeared: bool, firstTable: Option<Table>) returns (o: Outcome)
    ensures !tableAppeared ==> o == EmptyAfterFailedWait && RowCount(o) == 0
    ensures tableAppeared && firstTable.None? ==> o == EmptyNoTable && RowCount(o) == 0
    ensures tableAppeared && firstTable.Some? ==> o == Extract(firstTable.value)
  {
    if !tableAppeared {
      return EmptyAfterFailedWait;
    }
    if firstTable.None? {
      return EmptyNoTable;
    }
    var t := firstTable.value;
    var headers := SelectHeaders(t);
    var rows := KeepNonEmptyRows(BodyRows(t));
    o := Extracted(headers, NormaliseRows(rows, headers));
  }

  /**
   * The extracted rows are the body rows with a non-empty cell, in order, one
   * for one: the k-th comes from the body row at the k-th kept position, keeps
   * that row's leading cells, and is exactly as wide as a non-empty header list.
   */
  lemma ExtractRows(t: Table)
    ensures RowCount(Extract(t)) == |KeptIndices(BodyTexts(t))|
    ensures forall k :: 0 <= k < RowCount(Extract(t)) ==>
              var src := BodyTexts(t)[KeptIndices(BodyTexts(t))[k]];
              var row := Extract(t).rows[k];
              HasText(src) &&
              (Extract(t).headers != [] ==> |row| == |Extract(t).headers|) &&
              forall i :: 0 <= i < |row| && i < |src| ==> row[i] == Some(src[i])
  {
    var body := BodyTexts(t);
    KeptIndicesPick(body);
    KeptIndicesExact(body);
    var idx := KeptIndices(body);
    forall k | 0 <= k < |idx|
      ensures HasText(body[idx[k]])
    {
      assert idx[k] in idx;
    }
  }

  /**
   * With an empty header list the kept rows come out exactly as filtered:
   * no padding, no truncation, no None.
   */
  lemma ExtractWithoutHeaders(t: Table)
    requires SelectHeaders(t) == []
    ensures |Extract(t).rows| == |NonEmptyRows(BodyTexts(t))|
    ensures forall k :: 0 <= k < |Extract(t).rows| ==>
              Unpad(Extract(t).rows[k]) == NonEmptyRows(BodyTexts(t))[k] &&
              |Extract(t).rows[k]| == |NonEmptyRows(BodyTexts(t))[k]|
  {
    NormaliseRowsPassThrough(NonEmptyRows(BodyTexts(t)));
  }

  /**
   * Without a <thead>, the header list is read from the table's first row, and
   * that same row is walked again as data whenever the walked rows start with
   * it: always when there is no <tbody>, and when the <tbody> begins at the
   * table's first row. If that row has any text it is also the first data row.
   */
  lemma HeaderRowRepeated(t: Table)
    requires t.thead.None? && t.rows != []
    requires t.tbody.None? || (t.tbody.value != [] && t.tbody.value[0] == t.rows[0])
    requires HasText(CellTexts(t.rows[0]))
    ensures RowCount(Extract(t)) > 0
    ensures Extract(t).rows[0] == Lift(Extract(t).headers)
  {
  }
}
