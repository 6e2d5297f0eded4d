# Table extraction in scraper_utils

`scraper_utils.py` renders a page in a headless Chrome, waits for a `<table>`
element, parses the page with BeautifulSoup and builds a pandas DataFrame from
the first table. This project models the part of `scrape_table_from_url` that
decides what the DataFrame holds:

- the two early exits that return an empty DataFrame: the wait for a table
  failed, or the parsed page source holds no `<table>`;
- the choice of the header list: the `<th>` texts of the `<thead>`, else the
  texts of every cell of the first `<tr>`, else nothing;
- the loop that walks the `<tr>` rows (those of the `<tbody>` if there is one,
  else all of them) and keeps a row only when one of its cells has text;
- the normalisation that makes every kept row exactly as wide as the header
  list, padding with `None` or cutting, and leaves rows alone when there is no
  header.

The parsed table is taken as given (`HtmlTable.Table`): the cells of the
`<thead>`, the rows of the `<tbody>` and every row of the table, each cell a
tag and an already-stripped text. A normalised cell is `Some(text)` or
`None`, standing for Python's `str` or `None`. Whether the wait succeeded
and which table the parser found first are inputs of `Scraper.ScrapeTable`.

Modules: `Wrappers` (the `Option` type), `HtmlTable` (the abstract table and
the header choice), `RowFilter` (the empty-row filter, as a specification
function and as the loop), `RowNormalise` (pad/cut to the header width) and
`Scraper` (the outcome of the whole step).

Two behaviours of the code shape the model: ragged rows are padded or cut
whenever the header list is non-empty, and every exception raised while
waiting for a `<table>`, a timeout or any other, ends in an empty DataFrame.

## Model

| member | source | states |
|---|---|---|
| `HtmlTable.ThTexts` | scraper_utils.py:77-78 | only `<th>` cells of the `<thead>` give headers: every header is the text of one of its `<th>` cells, all of them when every cell is `<th>`, none when every cell is `<td>` |
| `HtmlTable.ThTextsAppend` | scraper_utils.py:78 | the `<th>` texts keep document order (the selection distributes over concatenation) |
| `HtmlTable.SelectHeaders` | scraper_utils.py:76-82 | with a `<thead>` the headers are exactly its `<th>` texts (each once, in document order, `<td>` cells skipped); without one they are the texts of all cells of the first row, one per cell and in order; with no row at all they are empty |
| `RowFilter.NonEmptyRows` | scraper_utils.py:88-90 | a row is kept if and only if it has a non-empty cell (so a row with no cells is dropped), and only input rows are kept |
| `RowFilter.NonEmptyRowsAppend` | scraper_utils.py:85-90 | filtering a concatenation is the concatenation of the filtered parts, so surviving rows keep their relative order |
| `RowFilter.KeptIndicesIncreasing` | scraper_utils.py:85-90 | the positions of the kept rows are strictly increasing |
| `RowFilter.KeptIndicesPick` | scraper_utils.py:85-90 | there is one kept position per output row, and the k-th output row is the input row at the k-th kept position |
| `RowFilter.KeptIndicesExact` | scraper_utils.py:88-89 | a position is kept exactly when its row has a non-empty cell; with the two lemmas above, the output is all the non-empty input rows, each once, in their original order, and as many as there are non-empty input rows |
| `RowFilter.KeepNonEmptyRows` | scraper_utils.py:84-90 | the loop that appends each row's texts when one is non-empty returns exactly the filtered rows, each of which has text |
| `RowNormalise.Normalise` | scraper_utils.py:96 | a normalised row is exactly `width` wide, its first min(len, width) cells are the row's own, every further cell is `None`, and a row already `width` wide is unchanged |
| `RowNormalise.UnpadLift` | scraper_utils.py:96 | padding with `None` can be undone: the texts before the first `None` are the original row |
| `RowNormalise.UnpadNormalise` | scraper_utils.py:96 | normalising loses only the cut tail: undoing the padding yields the row's first min(len, width) cells, and the whole row when it is no wider than the header |
| `RowNormalise.NormaliseRows` | scraper_utils.py:93-101 | one output row per kept row; with headers every row is as wide as the header list, cells below the row's length are its own and the rest `None`; without headers every row is passed through unchanged |
| `RowNormalise.NormaliseRowsPassThrough` | scraper_utils.py:100-101 | without headers no cell is `None` and every row comes back exactly as it was filtered |
| `Scraper.ScrapeTable` | scraper_utils.py:57-101 | a wait that raised any exception gives an empty frame with no rows, no table in the source gives an empty frame with no rows, and otherwise the result is the chosen headers with the filtered, normalised body rows |
| `Scraper.ExtractRows` | scraper_utils.py:84-98 | the result has one row per non-empty body row, in order; each comes from a body row that has text, keeps that row's leading cells, and is as wide as a non-empty header list |
| `Scraper.ExtractWithoutHeaders` | scraper_utils.py:93-101 | with an empty header list the rows are exactly the filtered rows, with no padding or cutting |
| `Scraper.HeaderRowRepeated` | scraper_utils.py:80-87 | without a `<thead>`, when the walked rows start with the table's first row (no `<tbody>`, or a `<tbody>` beginning there) and that row has text, it is both the header list and the first data row |

## Left out

- The browser: `kill_browser`, `start_chrome`, `wait_until`, `get_driver` and `close_browser` (lines 47-61, 109-122) drive Chrome through helium and Selenium. Only whether the wait for a table succeeded is modelled, as an input flag; a failure of `start_chrome` itself, which reaches the caller as an exception, is not modelled.
- The default Chrome options (lines 41-45): configuration handed to the browser launcher, with no effect on the table logic.
- HTML parsing: `BeautifulSoup`, `find`, `find_all` and `get_text(strip=True)` (lines 68-69, 76-87). The table arrives already split into cells with stripped texts; nested tables and the recursive search of `find_all` are not modelled.
- The `url`, `headless` and `timeout_secs` parameters and the polling of `wait_until`: real time and navigation belong to the browser.
- pandas: the DataFrame built from the rows (lines 99, 101), in particular how it pads ragged rows when there is no header list; the model stops at the list of rows it is built from.
- The console messages (lines 63, 72, 104, 120, 122).
