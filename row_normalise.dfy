/**
 * Normalisation of the kept rows to the header width (scraper_utils.py,
 * lines 92-101). A normalised cell is Python's `str` or `None`, written here
 * as Some(text) or None.
 */
module RowNormalise {

  import opened Wrappers

  /** A row of texts seen as a row of present cells. */
  function Lift(r: seq<string>): (cells: seq<Option<string>>)
    ensures |cells| == |r|
    ensures forall i :: 0 <= i < |r| ==> cells[i] == Some(r[i])
  {
    seq(|r|, i requires 0 <= i < |r| => Some(r[i]))
  }

  /** `n` copies of None: Python's `[None] * n`. */
  function Nones(n: nat): (cells: seq<Option<string>>)
    ensures |cells| == n
    ensures forall i :: 0 <= i < n ==> cells[i].None?
  {
    seq(n, _ => None)
  }

  /**
   * One row made exactly `width` wide: a short row is padded with None, a long
   * row is cut after `width` cells, and the cells that remain are the row's own.
   */
  function Normalise(r: seq<string>, width: nat): (cells: seq<Option<string>>)
    ensures |cells| == width
    ensures forall i :: 0 <= i < width ==> cells[i] == (if i < |r| then Some(r[i]) else None)
    ensures |r| == width ==> cells == Lift(r)
  {
    if |r| < width then Lift(r) + Nones(width - |r|) else Lift(r[..width])
  }

  /** The texts before the first None: undoes the padding. */
  function Unpad(cells: seq<Option<string>>): (r: seq<string>)
    ensures |r| <= |cells|
  {
    if cells == [] || cells[0].None? then [] else [cells[0].value] + Unpad(cells[1..])
  }

  /** Unpad recovers a lifted row however it is followed by padding. */
  lemma {:induction false} UnpadLift(r: seq<string>, pad: nat)
    ensures Unpad(Lift(r) + Nones(pad)) == r
  {
    var cells := Lift(r) + Nones(pad);
    if r == [] {
      assert cells == Nones(pad);
    } else {
      assert cells[0] == Some(r[0]);
      assert cells[1..] == Lift(r[1..]) + Nones(pad);
      UnpadLift(r[1..], pad);
    }
  }

  /**
   * Normalisation loses nothing but the cut tail: undoing the padding gives back
   * the first min(|r|, width) cells of the row, so a row no wider than the
   * header round-trips exactly.
   */
  lemma UnpadNormalise(r: seq<string>, width: nat)
    ensures Unpad(Normalise(r, width)) == r[..if |r| < width then |r| else width]
    ensures |r| <= width ==> Unpad(Normalise(r, width)) == r
  {
    if |r| < width {
      UnpadLift(r, width - |r|);
    } else {
      UnpadLift(r[..width], 0);
      assert Lift(r[..width]) + Nones(0) == Normalise(r, width);
    }
  }

  /**
   * The list comprehension of lines 95-98 when the header list is non-empty,
   * and the unchanged rows of line 101 when it is empty.
   */
  function NormaliseRows(rows: seq<seq<string>>, headers: seq<string>): (out: seq<seq<Option<string>>>)
    ensures |out| == |rows|
    ensures headers != [] ==> forall k :: 0 <= k < |out| ==> |out[k]| == |headers|
    ensures forall k, i :: 0 <= k < |out| && 0 <= i < |out[k]| && i < |rows[k]| ==>
              out[k][i] == Some(rows[k][i])
    ensures forall k, i :: 0 <= k < |out| && |rows[k]| <= i < |out[k]| ==> out[k][i].None?
    ensures headers == [] ==> forall k :: 0 <= k < |out| ==> out[k] == Lift(rows[k])
  {
    if headers == [] then seq(|rows|, k requires 0 <= k < |rows| => Lift(rows[k]))
    else seq(|rows|, k requires 0 <= k < |rows| => Normalise(rows[k], |headers|))
  }

  /** Without headers no cell is None and every row comes back exactly as it was. */
  lemma NormaliseRowsPassThrough(rows: seq<seq<string>>)
    ensures forall k :: 0 <= k < |rows| ==> Unpad(NormaliseRows(rows, [])[k]) == rows[k]
    ensures forall k, i :: 0 <= k < |rows| && 0 <= i < |NormaliseRows(rows, [])[k]| ==>
              NormaliseRows(rows, [])[k][i].Some?
  {
    forall k | 0 <= k < |rows|
      ensures Unpad(NormaliseRows(rows, [])[k]) == rows[k]
    {
      UnpadLift(rows[k], 0);
      assert Lift(rows[k]) + Nones(0) == Lift(rows[k]);
    }
  }
}
