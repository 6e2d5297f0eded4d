/**
 * The empty-row filter of scraper_utils.py, lines 84-90: every row is turned
 * into the list of its cell texts, and a row is kept only when one of those
 * texts is non-empty.
 */
module RowFilter {

  import opened HtmlTable

  /** Python's `any(c != '' for c in cells)`: false for a row with no cells. */
  predicate HasText(cells: seq<string>) {
    exists i :: 0 <= i < |cells| && cells[i] != ""
  }

  /** The cell texts of every row, row by row. */
  function TextRows(trs: seq<Row>): (texts: seq<seq<string>>)
    ensures |texts| == |trs|
    ensures forall k :: 0 <= k < |trs| ==> texts[k] == CellTexts(trs[k])
  {
    seq(|trs|, k requires 0 <= k < |trs| => CellTexts(trs[k]))
  }

  /** The rows that have at least one non-empty cell, in their original order. */
  function NonEmptyRows(rows: seq<seq<string>>): (kept: seq<seq<string>>)
    ensures |kept| <= |rows|
    ensures forall r :: r in kept ==> r in rows && HasText(r)
    ensures forall r :: r in rows && HasText(r) ==> r in kept
  {
    if rows == [] then []
    else (if HasText(rows[0]) then [rows[0]] else []) + NonEmptyRows(rows[1..])
  }

  /** Filtering distributes over concatenation: the survivors keep their relative order. */
  lemma {:induction false} NonEmptyRowsAppend(a: seq<seq<string>>, b: seq<seq<string>>)
    ensures NonEmptyRows(a + b) == NonEmptyRows(a) + NonEmptyRows(b)
  {
    if a == [] {
      assert a + b == b;
    } else {
      assert (a + b)[0] == a[0];
      assert (a + b)[1..] == a[1..] + b;
      NonEmptyRowsAppend(a[1..], b);
    }
  }

  /** Adds `d` to every index. */
  function Shift(idx: seq<nat>, d: nat): (shifted: seq<nat>)
    ensures |shifted| == |idx|
    ensures forall k :: 0 <= k < |idx| ==> shifted[k] == idx[k] + d
  {
    seq(|idx|, k requires 0 <= k < |idx| => idx[k] + d)
  }

  /** The positions, in the input, of the rows the filter keeps. */
  function KeptIndices(rows: seq<seq<string>>): (idx: seq<nat>)
    ensures forall k :: 0 <= k < |idx| ==> idx[k] < |rows|
  {
    if rows == [] then []
    else (if HasText(rows[0]) then [0] else []) + Shift(KeptIndices(rows[1..]), 1)
  }

  /** The kept positions are strictly increasing. */
  lemma {:induction false} KeptIndicesIncreasing(rows: seq<seq<string>>)
    ensures forall k, l :: 0 <= k < l < |KeptIndices(rows)| ==>
              KeptIndices(rows)[k] < KeptIndices(rows)[l]
  {
    if rows != [] {
      KeptIndicesIncreasing(rows[1..]);
    }
  }

  /** The k-th row the filter keeps is the input row at the k-th kept position. */
  lemma {:induction false} KeptIndicesPick(rows: seq<seq<string>>)
    ensures |KeptIndices(rows)| == |NonEmptyRows(rows)|
    ensures forall k :: 0 <= k < |KeptIndices(rows)| ==>
              KeptIndices(rows)[k] < |rows| &&
              NonEmptyRows(rows)[k] == rows[KeptIndices(rows)[k]]
  {
    if rows != [] {
      var tail := rows[1..];
      KeptIndicesPick(tail);
      var idx, rest := KeptIndices(rows), KeptIndices(tail);
      var kept, restKept := NonEmptyRows(rows), NonEmptyRows(tail);
      var h := if HasText(rows[0]) then 1 else 0;
      assert idx == (if HasText(rows[0]) then [0] else []) + Shift(rest, 1);
      assert kept == (if HasText(rows[0]) then [rows[0]] else []) + restKept;
      forall k | h <= k < |idx|
        ensures idx[k] < |rows| && kept[k] == rows[idx[k]]
      {
        assert idx[k] == rest[k - h] + 1;
        assert kept[k] == restKept[k - h];
      }
    }
  }

  /** Membership in a shifted list of positions. */
  lemma ShiftMember(idx: seq<nat>, d: nat, j: nat)
    ensures j in Shift(idx, d) <==> j >= d && j - d in idx
  {
  }

  /** A position is kept exactly when the row there has a non-empty cell. */
  lemma {:induction false} KeptIndicesExact(rows: seq<seq<string>>)
    ensures forall j :: 0 <= j < |rows| ==> (HasText(rows[j]) <==> j in KeptIndices(rows))
  {
    if rows != [] {
      var tail := rows[1..];
      KeptIndicesExact(tail);
      var head: seq<nat> := if HasText(rows[0]) then [0] else [];
      var sh := Shift(KeptIndices(tail), 1);
      assert KeptIndices(rows) == head + sh;
      forall j | 0 <= j < |rows|
        ensures HasText(rows[j]) <==> j in head + sh
      {
        ShiftMember(KeptIndices(tail), 1, j);
        if j > 0 {
          assert rows[j] == tail[j - 1];
        }
      }
    }
  }

  /**
   * The loop of lines 85-90: the texts of each <tr> are appended to the result
   * when one of them is non-empty.
   */
  method KeepNonEmptyRows(trs: seq<Row>) returns (rows: seq<seq<string>>)
    ensures rows == NonEmptyRows(TextRows(trs))
    ensures forall r :: r in rows ==> HasText(r)
  {
    rows := [];
    for i := 0 to |trs|
      invariant rows == NonEmptyRows(TextRows(trs[..i]))
    {
      var cells := CellTexts(trs[i]);
      if HasText(cells) {
        rows := rows + [cells];
      }
      assert TextRows(trs[..i + 1]) == TextRows(trs[..i]) + [cells];
      NonEmptyRowsAppend(TextRows(trs[..i]), [cells]);
      assert NonEmptyRows([cells]) == (if HasText(cells) then [cells] else []) + NonEmptyRows([]);
    }
    assert trs[..|trs|] == trs;
  }
}
