/**
 * The first <table> of a rendered page, seen as the parser hands it over, and
 * the choice of the header row (scraper_utils.py, lines 76-84).
 *
 * Parsing itself is not modelled: every cell arrives as its tag and its text,
 * already stripped of surrounding whitespace.
 */
module HtmlTable {

  import opened Wrappers

  /** The two cell tags the extractor looks at. */
  datatype Tag = Th | Td

  /** One <th> or <td> cell with its stripped text. */
  datatype Cell = Cell(tag: Tag, text: string)

  /** The <th>/<td> cells of one <tr>, in document order. */
  type Row = seq<Cell>

  /**
   * thead: the <th> and <td> cells under the table's first <thead>, in document
   *        order, or None when the table has no <thead>;
   * tbody: the <tr> rows under the table's first <tbody>, or None when it has none;
   * rows:  every <tr> row of the table, in document order.
   */
  datatype Table = Table(thead: Option<seq<Cell>>, tbody: Option<seq<Row>>, rows: seq<Row>)

  /** The texts of a list of cells, one per cell and in order. */
  function CellTexts(cells: seq<Cell>): (texts: seq<string>)
    ensures |texts| == |cells|
    ensures forall i :: 0 <= i < |cells| ==> texts[i] == cells[i].text
  {
    seq(|cells|, i requires 0 <= i < |cells| => cells[i].text)
  }

  /** The texts of the <th> cells among `cells`, in order; <td> cells are skipped. */
  function ThTexts(cells: seq<Cell>): (texts: seq<string>)
    ensures |texts| <= |cells|
    ensures forall i :: 0 <= i < |texts| ==>
              exists j :: 0 <= j < |cells| && cells[j].tag == Th && cells[j].text == texts[i]
    ensures (forall j :: 0 <= j < |cells| ==> cells[j].tag == Th) ==> texts == CellTexts(cells)
    ensures (forall j :: 0 <= j < |cells| ==> cells[j].tag == Td) ==> texts == []
  {
    if cells == [] then []
    else (if cells[0].tag == Th then [cells[0].text] else []) + ThTexts(cells[1..])
  }

  /** Keeping the <th> texts distributes over concatenation, so their order is kept. */
  lemma {:induction false} ThTextsAppend(a: seq<Cell>, b: seq<Cell>)
    ensures ThTexts(a + b) == ThTexts(a) + ThTexts(b)
  {
    if a != [] {
      assert (a + b)[0] == a[0];
      assert (a + b)[1..] == a[1..] + b;
      ThTextsAppend(a[1..], b);
    } else {
      assert a + b == b;
    }
  }

  /**
   * The header list: the <th> texts of the <thead> when there is one; otherwise
   * the texts of every cell of the first <tr>; otherwise empty.
   */
  function SelectHeaders(t: Table): (headers: seq<string>)
    ensures t.thead.Some? ==> headers == ThTexts(t.thead.value)
    ensures t.thead.Some? ==> |headers| <= |t.thead.value|
    ensures t.thead.Some? ==> forall i :: 0 <= i < |headers| ==>
              exists j :: 0 <= j < |t.thead.value| && t.thead.value[j].tag == Th &&
                          t.thead.value[j].text == headers[i]
    ensures t.thead.None? && t.rows != [] ==>
              |headers| == |t.rows[0]| &&
              forall i :: 0 <= i < |headers| ==> headers[i] == t.rows[0][i].text
    ensures t.thead.None? && t.rows == [] ==> headers == []
  {
    match t.thead
    case Some(cells) => ThTexts(cells)
    case None => if t.rows != [] then CellTexts(t.rows[0]) else []
  }

  /** The rows the extractor walks: those of the <tbody> if there is one, else every row. */
  function BodyRows(t: Table): seq<Row>
  {
    if t.tbody.Some? then t.tbody.value else t.rows
  }
}
