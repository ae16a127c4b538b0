/** src/editor/cursor.rs: the cursor value and its accessors. */
module Cursors {

  /** `Cursor`: a position plus the column remembered across vertical moves. */
  datatype Cursor = Cursor(row: nat, col: nat, movedVertically: bool, lastCol: nat)

  /** `Cursor::new`: no vertical move yet and no remembered column. */
  function New(row: nat, col: nat): (c: Cursor)
    ensures c.row == row && c.col == col && !c.movedVertically && c.lastCol == 0
  {
    Cursor(row, col, false, 0)
  }

  /** `pos`: `(col, row)`, column first. */
  function Pos(c: Cursor): (p: (nat, nat))
    ensures p.0 == c.col && p.1 == c.row
  {
    (c.col, c.row)
  }

  /** `is_at`. */
  predicate IsAt(c: Cursor, row: nat, col: nat)
  {
    c.row == row && c.col == col
  }

  /** `is_at` holds exactly at the position `pos` reports, read back in row-first order. */
  lemma IsAtPos(c: Cursor, row: nat, col: nat)
    ensures IsAt(c, row, col) <==> Pos(c) == (col, row)
  {
  }

  lemma NewIsAt(row: nat, col: nat)
    ensures IsAt(New(row, col), row, col)
    ensures forall r, k :: IsAt(New(row, col), r, k) ==> r == row && k == col
  {
  }
}
