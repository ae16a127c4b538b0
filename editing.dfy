/**
  src/editor/editing.rs: the older character-at-a-time editing of
  `EditorState::lines`, in place.
*/
module Editing {
  import State
  import Edit

  /** `line`: row `y`; `get(y).unwrap()` panics on a missing row. */
  function Line(state: State.EditorState, y: nat): (s: string)
    reads state
    requires y < |state.lines|
    ensures s == state.lines[y]
  {
    state.lines[y]
  }

  /**
    The lines after `insert_char` at `(x, y)`: a newline splits row `y` at
    `x` into two rows; any other character goes into row `y` before column `x`.
  */
  function InsertCharSpec(lines: seq<string>, x: nat, y: nat, c: char): (r: seq<string>)
    requires y < |lines| && x <= |lines[y]|
    ensures y < |r| && r[..y] == lines[..y]
    ensures c == '\n' ==> |r| == |lines| + 1 && r[y] == lines[y][..x]
    ensures c == '\n' ==> r[y + 1] == lines[y][x..] && r[y + 2..] == lines[y + 1..]
    ensures c != '\n' ==> |r| == |lines| && r[y] == lines[y][..x] + [c] + lines[y][x..]
    ensures c != '\n' ==> r[y + 1..] == lines[y + 1..]
  {
    if c == '\n' then lines[..y] + [lines[y][..x], lines[y][x..]] + lines[y + 1..]
    else lines[..y] + [lines[y][..x] + [c] + lines[y][x..]] + lines[y + 1..]
  }

  /**
    The lines after `delete_char` at `(x, y)`: inside the row, the character
    at `x` goes; at or past its end, the next row is joined onto it; at the
    end of the last row nothing changes.
  */
  function DeleteCharSpec(lines: seq<string>, x: nat, y: nat): (r: seq<string>)
    requires y < |lines|
    ensures y < |r| && r[..y] == lines[..y]
    ensures x < |lines[y]| ==> |r| == |lines| && r[y] == lines[y][..x] + lines[y][x + 1..]
    ensures x < |lines[y]| ==> r[y + 1..] == lines[y + 1..]
    ensures x >= |lines[y]| && y + 1 < |lines| ==> |r| + 1 == |lines| && r[y] == lines[y] + lines[y + 1]
    ensures x >= |lines[y]| && y + 1 < |lines| ==> r[y + 1..] == lines[y + 2..]
    ensures x >= |lines[y]| && y + 1 == |lines| ==> r == lines
  {
    if x < |lines[y]| then lines[..y] + [lines[y][..x] + lines[y][x + 1..]] + lines[y + 1..]
    else if y < |lines| - 1 then lines[..y] + [lines[y] + lines[y + 1]] + lines[y + 2..]
    else lines
  }

  /** `insert_char`: overwrites row `y` and, for a newline, inserts the rest of the row after it. */
  method InsertChar(state: State.EditorState, pos: State.AbsPosition, c: char)
    requires pos.1 < |state.lines| && pos.0 <= |state.lines[pos.1]|
    modifies state
    ensures state.lines == InsertCharSpec(old(state.lines), pos.0, pos.1, c)
    ensures state.viewport == old(state.viewport) && state.cursorPos == old(state.cursorPos)
    ensures state.verticalNav == old(state.verticalNav)
  {
    var (x, y) := pos;
    if c == '\n' {
      var left, right := Line(state, y)[..x], Line(state, y)[x..];
      state.lines := state.lines[y := left];
      state.lines := state.lines[..y + 1] + [right] + state.lines[y + 1..];
    } else {
      state.lines := state.lines[y := Line(state, y)[..x] + [c] + Line(state, y)[x..]];
    }
  }

  /** `delete_char`: removes a character of row `y`, or removes row `y + 1` and appends it to row `y`. */
  method DeleteChar(state: State.EditorState, pos: State.AbsPosition)
    requires pos.1 < |state.lines|
    modifies state
    ensures state.lines == DeleteCharSpec(old(state.lines), pos.0, pos.1)
    ensures state.viewport == old(state.viewport) && state.cursorPos == old(state.cursorPos)
    ensures state.verticalNav == old(state.verticalNav)
  {
    var (x, y) := pos;
    if x < |Line(state, y)| {
      state.lines := state.lines[y := Line(state, y)[..x] + Line(state, y)[x + 1..]];
    } else if y < |state.lines| - 1 {
      var nextLine := state.lines[y + 1];
      state.lines := state.lines[..y + 1] + state.lines[y + 2..];
      state.lines := state.lines[y := Line(state, y) + nextLine];
    }
  }

  /** Deleting at the place of an insert takes the character out again, newline or not. */
  lemma InsertThenDelete(lines: seq<string>, x: nat, y: nat, c: char)
    requires y < |lines| && x <= |lines[y]|
    ensures DeleteCharSpec(InsertCharSpec(lines, x, y, c), x, y) == lines
  {
    var r := InsertCharSpec(lines, x, y, c);
    if c == '\n' {
      assert r[y] + r[y + 1] == lines[y];
    } else {
      var row := lines[y][..x] + [c] + lines[y][x..];
      assert row[..x] + row[x + 1..] == lines[y];
    }
    assert lines == lines[..y] + [lines[y]] + lines[y + 1..];
  }

  /**
    `insert_char` agrees with the edit engine: it is `process` of an insert
    whose lines are the one character, or two empty lines for a newline.
  */
  lemma InsertCharIsEdit(lines: seq<string>, x: nat, y: nat, c: char)
    requires y < |lines| && x <= |lines[y]|
    ensures Edit.Applicable(lines, Edit.New(Edit.Insert, (y, x), if c == '\n' then ["", ""] else [[c]]))
    ensures InsertCharSpec(lines, x, y, c) ==
      Edit.Apply(lines, Edit.New(Edit.Insert, (y, x), if c == '\n' then ["", ""] else [[c]]))
  {
    var pre, post := lines[y][..x], lines[y][x..];
    if c == '\n' {
      assert pre + "" == pre && "" + post == post;
      assert ["", ""][1..1] == [];
    }
  }

  /**
    Deleting inside a row, or at the end of a row before another, agrees with
    the edit engine: it is `process` of the delete of the one position after it.
  */
  lemma DeleteCharIsEdit(lines: seq<string>, x: nat, y: nat)
    requires y < |lines| && x <= |lines[y]| && (x < |lines[y]| || y + 1 < |lines|)
    ensures var to := if x < |lines[y]| then (y, x + 1) else (y + 1, 0);
      Edit.ValidRange(lines, (y, x), to) && Edit.Applicable(lines, Edit.DeleteOp(lines, (y, x), to)) &&
      DeleteCharSpec(lines, x, y) == Edit.Apply(lines, Edit.DeleteOp(lines, (y, x), to))
  {
    var to := if x < |lines[y]| then (y, x + 1) else (y + 1, 0);
    Edit.DeleteApplicable(lines, (y, x), to);
    Edit.DeleteTo(lines, (y, x), to);
    if x == |lines[y]| {
      assert lines[y][..x] == lines[y];
      assert lines[y + 1][0..] == lines[y + 1];
    }
  }
}
