/**
  src/editor/renderer.rs: the screen as a list of terminal commands. Rows
  are drawn from the top of the viewport; the selected part of a row is
  printed on a grey background; the rows below the text are cleared; the
  status bar goes on the row after the viewport; the cursor is shown only
  when the viewport holds it.
*/
module Renderer {
  import opened Common
  import opened Commands
  import Viewports
  import LineSplit
  import Content

  /** `Selection`: the first and the last selected `(row, col)`, or none. */
  type Selection = Option<(Viewports.PosInDocument, Viewports.PosInDocument)>

  /**
    The parts of `EditorState` the renderer reads, besides the viewport.
    `cursorPos` is what `cursor.pos()` returns, which the renderer binds as
    `(row, col)`. `monoColAt` is `Row::mono_col_at` and `statusText` the
    `format!` of the status bar; neither is part of this model.
  */
  datatype RenderState = RenderState(
    lines: seq<string>,
    delimiter: string,
    cursorPos: (nat, nat),
    selection: Selection,
    monoColAt: (string, nat) -> nat,
    statusText: (u16, u16, nat, nat, nat, string) -> string)

  /** `visible_rows` slices from `top`, which panics past the end of the lines. */
  predicate VisibleRowsDefined(st: RenderState, viewport: Viewports.Viewport)
    reads viewport
  {
    viewport.top <= |st.lines|
  }

  /** `visible_rows`: the rows from `top` on, at most `height` of them. */
  function VisibleRows(st: RenderState, viewport: Viewports.Viewport): (rows: seq<string>)
    reads viewport
    requires VisibleRowsDefined(st, viewport)
    ensures |rows| == Min(viewport.height, |st.lines| - viewport.top)
    ensures forall k :: 0 <= k < |rows| ==> rows[k] == st.lines[viewport.top + k]
  {
    var bottom := Min(viewport.top + viewport.height, |st.lines|);
    st.lines[viewport.top..bottom]
  }

  /** `x` cut into `[lo, hi]`. */
  function Clamp(x: nat, lo: nat, hi: nat): (r: nat)
    requires lo <= hi
    ensures lo <= r <= hi
    ensures lo <= x <= hi ==> r == x
  {
    if x < lo then lo else if x > hi then hi else x
  }

  /**
    `visible_row_part` as written: the selection columns are shifted by
    `left` before slicing, and the last column of a row that the selection
    runs through is `row.len() + left`. A slice past the row's end panics;
    that is `None` here.
  */
  function VisibleRowPartAsWritten(i: nat, row: string, viewport: Viewports.Viewport, selection: Selection): (r: Option<(string, string, string)>)
    reads viewport
    ensures |row| < viewport.left ==> r == Some(([], [], []))
  {
    var start := viewport.left;
    if |row| < start then Some(([], [], []))
    else
      var len := Min(|row| - start, viewport.width);
      var rowIdx := viewport.top + i;
      match selection
      case Some(((selStartRow, selStartCol), (selEndRow, selEndCol))) =>
        if rowIdx >= selStartRow && rowIdx <= selEndRow then
          var selStart := if rowIdx == selStartRow then selStartCol + start else start;
          var selEnd := if rowIdx == selEndRow then selEndCol + start else |row| + start;
          if (selStart > start && selStart > |row|) || selStart > selEnd || selEnd > |row| then None
          else
            var pre := if selStart > start then row[start..selStart] else [];
            var selected := row[selStart..selEnd] + (if rowIdx < selEndRow && selEnd >= start + len then " " else []);
            var post := if selEnd < start + len then row[selEnd..start + len] else [];
            Some((pre, selected, post))
        else Some((row[start..start + len], [], []))
      case None => Some((row[start..start + len], [], []))
  }

  /**
    `visible_row_part`, corrected: the selection's columns on this row are
    document columns cut to the visible columns `[left, left + len)`; the
    row is split there into the part before the selection, the selected
    part and the part after it. A row the selection runs past also gets a
    selected space for its line break.
  */
  function VisibleRowPart(i: nat, row: string, viewport: Viewports.Viewport, selection: Selection): (r: (string, string, string))
    reads viewport
    ensures |row| < viewport.left ==> r == ([], [], [])
    ensures |row| >= viewport.left ==>
      var visible := row[viewport.left..viewport.left + Min(|row| - viewport.left, viewport.width)];
      var runsPast := Selects(selection, viewport.top + i) && viewport.top + i < selection.value.1.0;
      r.0 + r.1 + r.2 == visible + (if runsPast then " " else [])
    ensures |row| >= viewport.left && !Selects(selection, viewport.top + i) ==>
      r == (row[viewport.left..viewport.left + Min(|row| - viewport.left, viewport.width)], [], [])
  {
    var start := viewport.left;
    if |row| < start then ([], [], [])
    else
      var len := Min(|row| - start, viewport.width);
      var rowIdx := viewport.top + i;
      if !Selects(selection, rowIdx) then (row[start..start + len], [], [])
      else
        var (selStart, selEnd) := selection.value;
        Split(row, start, start + len, if rowIdx == selStart.0 then selStart.1 else 0,
          if rowIdx == selEnd.0 then selEnd.1 else |row|, rowIdx < selEnd.0)
  }

  /**
    Cuts the visible columns `[start, stop)` of a row at the selection's
    columns `[first, last)` clamped to them, adding a selected space for a
    line break to the middle part.
  */
  function Split(row: string, start: nat, stop: nat, first: nat, last: nat, lineBreak: bool): (r: (string, string, string))
    requires start <= stop <= |row|
    requires lineBreak ==> last >= stop
    ensures r.0 + r.1 + r.2 == row[start..stop] + (if lineBreak then " " else [])
  {
    var f := Clamp(first, start, stop);
    var l := Clamp(last, f, stop);
    SliceThree(row, start, f, l, stop, lineBreak);
    (row[start..f], row[f..l] + (if lineBreak then " " else []), row[l..stop])
  }

  /**
    Three adjacent slices make up the slice they cover; a line-break marker
    added to the middle one, which then reaches the end, ends up at the end.
  */
  lemma SliceThree(s: string, a: nat, b: nat, c: nat, d: nat, lineBreak: bool)
    requires a <= b <= c <= d <= |s|
    requires lineBreak ==> c == d
    ensures var mark: string := if lineBreak then " " else [];
      s[a..b] + (s[b..c] + mark) + s[c..d] == s[a..d] + mark
  {
    var mark: string := if lineBreak then " " else [];
    assert s[a..b] + s[b..c] == s[a..c];
    assert s[a..c] + s[c..d] == s[a..d];
    if lineBreak {
      assert s[c..d] == [];
    }
  }

  /** The selection covers row `rowIdx`. */
  predicate Selects(selection: Selection, rowIdx: nat)
  {
    selection.Some? && selection.value.0.0 <= rowIdx <= selection.value.1.0
  }

  /**
    The three parts of a selected row cover its visible columns
    `[left, stop)` in order; the selected part, without the space for a
    line break, is where the visible columns and the selection's columns on
    the row meet, and the space is there exactly when the selection runs
    past the row.
  */
  lemma VisibleRowPartCovers(i: nat, row: string, viewport: Viewports.Viewport, selection: Selection)
    requires |row| >= viewport.left && Selects(selection, viewport.top + i)
    ensures var rowIdx := viewport.top + i;
      var selStart, selEnd := selection.value.0, selection.value.1;
      SplitsAt(VisibleRowPart(i, row, viewport, selection), row, viewport.left,
        viewport.left + Min(|row| - viewport.left, viewport.width),
        if rowIdx == selStart.0 then selStart.1 else 0,
        if rowIdx == selEnd.0 then selEnd.1 else |row|, rowIdx < selEnd.0)
  {
    SelectedRowSplit(i, row, viewport, selection);
    var start := viewport.left;
    var stop := start + Min(|row| - start, viewport.width);
    var rowIdx := viewport.top + i;
    var selStart, selEnd := selection.value.0, selection.value.1;
    var p := VisibleRowPart(i, row, viewport, selection);
    SplitMeets(p, row, start, stop, if rowIdx == selStart.0 then selStart.1 else 0,
      if rowIdx == selEnd.0 then selEnd.1 else |row|, rowIdx < selEnd.0);
    assert viewport.left == start && viewport.top + i == rowIdx;
    assert viewport.left + Min(|row| - viewport.left, viewport.width) == stop;
    assert VisibleRowPart(i, row, viewport, selection) == p;
  }

  /** A selected row is split at the selection's columns on it. */
  lemma SelectedRowSplit(i: nat, row: string, viewport: Viewports.Viewport, selection: Selection)
    requires |row| >= viewport.left && Selects(selection, viewport.top + i)
    ensures var rowIdx := viewport.top + i;
      var selStart, selEnd := selection.value.0, selection.value.1;
      VisibleRowPart(i, row, viewport, selection) ==
        Split(row, viewport.left, viewport.left + Min(|row| - viewport.left, viewport.width),
          if rowIdx == selStart.0 then selStart.1 else 0,
          if rowIdx == selEnd.0 then selEnd.1 else |row|, rowIdx < selEnd.0)
  {
  }

  /**
    `p` cuts `[start, stop)` of `row` in three, in order; its middle part,
    without the space `lineBreak` adds at its end, is where `[first, last)`
    and `[start, stop)` meet, and is empty when they do not.
  */
  predicate SplitsAt(p: (string, string, string), row: string, start: nat, stop: nat, first: nat, last: nat, lineBreak: bool)
    requires start <= stop <= |row|
  {
    (lineBreak ==> |p.1| >= 1 && p.1[|p.1| - 1] == ' ') &&
    p.0 + Unmarked(p.1, lineBreak) + p.2 == row[start..stop] &&
    (Max(first, start) < Min(last, stop) ==>
      start + |p.0| == Max(first, start) && start + |p.0| + |Unmarked(p.1, lineBreak)| == Min(last, stop)) &&
    (Max(first, start) >= Min(last, stop) ==> Unmarked(p.1, lineBreak) == [])
  }

  /** A selected part without the space for a line break at its end. */
  function Unmarked(selected: string, lineBreak: bool): (r: string)
    requires lineBreak ==> |selected| >= 1
    ensures |r| == |selected| - (if lineBreak then 1 else 0)
  {
    if lineBreak then selected[..|selected| - 1] else selected
  }

  /**
    The three parts of `Split` cover `[start, stop)`, and the middle one,
    without its line-break space, is where `[first, last)` and
    `[start, stop)` meet.
  */
  lemma SplitMeets(p: (string, string, string), row: string, start: nat, stop: nat, first: nat, last: nat, lineBreak: bool)
    requires start <= stop <= |row|
    requires lineBreak ==> last >= stop
    requires p == Split(row, start, stop, first, last, lineBreak)
    ensures SplitsAt(p, row, start, stop, first, last, lineBreak)
  {
    var f := Clamp(first, start, stop);
    var l := Clamp(last, f, stop);
    var mark: string := if lineBreak then " " else [];
    var sel := row[f..l] + mark;
    assert sel[..|sel| - |mark|] == row[f..l];
    assert row[start..f] + row[f..l] == row[start..l];
    assert row[start..l] + row[l..stop] == row[start..stop];
  }

  /** The larger of two numbers. */
  function Max(a: nat, b: nat): (r: nat)
    ensures r >= a && r >= b && (r == a || r == b)
  {
    if a < b then b else a
  }

  /**
    With the viewport at the left edge, a row that fits its width, and
    selection columns inside the row, the source's `visible_row_part` and
    the corrected one agree.
  */
  lemma VisibleRowPartAgreesAtLeftEdge(i: nat, row: string, viewport: Viewports.Viewport, selection: Selection)
    requires viewport.left == 0 && |row| <= viewport.width
    requires Selects(selection, viewport.top + i) ==>
      var ((sr, sc), (er, ec)) := selection.value;
      (viewport.top + i == sr ==> sc <= |row|) && (viewport.top + i == er ==> ec <= |row|) &&
      (sr == er ==> sc <= ec)
    ensures VisibleRowPartAsWritten(i, row, viewport, selection) == Some(VisibleRowPart(i, row, viewport, selection))
  {
    var rowIdx := viewport.top + i;
    assert Min(|row|, viewport.width) == |row|;
    if Selects(selection, rowIdx) {
      var ((sr, sc), (er, ec)) := selection.value;
      var first := if rowIdx == sr then sc else 0;
      var last := if rowIdx == er then ec else |row|;
      assert Clamp(first, 0, |row|) == first && Clamp(last, first, |row|) == last;
      assert row[0..0] == [] && row[|row|..|row|] == [];
      assert rowIdx < er ==> last == |row|;
    }
  }

  /**
    Counterexample: with the viewport scrolled one column right, a row the
    selection runs through makes the source slice up to `row.len() + left`,
    past the row's end, which panics.
  */
  lemma VisibleRowPartAsWrittenPanics(viewport: Viewports.Viewport)
    requires viewport.left == 1 && viewport.top == 0 && viewport.width == 10
    ensures VisibleRowPartAsWritten(0, "abc", viewport, Some(((0, 0), (1, 0)))).None?
    ensures VisibleRowPart(0, "abc", viewport, Some(((0, 0), (1, 0)))) == ("", "bc ", "")
  {
    var row := "abc";
    assert Min(|row| - 1, viewport.width) == 2;
    assert row[1..1] == "" && row[3..3] == "" && row[1..3] + " " == "bc ";
  }

  /**
    Counterexample: scrolled one column right, a selection of column 1 of
    `"abcd"` is drawn on column 2 by the source.
  */
  lemma VisibleRowPartAsWrittenShifts(viewport: Viewports.Viewport)
    requires viewport.left == 1 && viewport.top == 0 && viewport.width == 10
    ensures VisibleRowPartAsWritten(0, "abcd", viewport, Some(((0, 1), (0, 2)))) == Some(("b", "c", "d"))
    ensures VisibleRowPart(0, "abcd", viewport, Some(((0, 1), (0, 2)))) == ("", "b", "cd")
  {
    var row := "abcd";
    assert Min(|row| - 1, viewport.width) == 3;
    assert row[1..2] == "b" && row[2..3] + "" == "c" && row[3..4] == "d";
    assert row[1..1] == "" && row[1..2] + "" == "b" && row[2..4] == "cd";
  }

  /**
    Counterexample: at the left edge, the row end `row.len() + left` lets a
    selection running through a row wider than the viewport print the whole
    row, past the viewport's width.
  */
  lemma VisibleRowPartAsWrittenOverruns(viewport: Viewports.Viewport)
    requires viewport.left == 0 && viewport.top == 0 && viewport.width == 2
    ensures VisibleRowPartAsWritten(0, "abcd", viewport, Some(((0, 0), (1, 0)))) == Some(("", "abcd ", ""))
    ensures VisibleRowPart(0, "abcd", viewport, Some(((0, 0), (1, 0)))) == ("", "ab ", "")
  {
    var row := "abcd";
    assert Min(|row|, viewport.width) == 2;
    assert row[0..4] + " " == "abcd ";
    assert row[0..0] == "" && row[2..2] == "" && row[0..2] + " " == "ab ";
  }

  /** `visible_row_part` as written does not panic on the row. */
  predicate RowDrawn(i: nat, row: string, viewport: Viewports.Viewport, selection: Selection)
    reads viewport
  {
    VisibleRowPartAsWritten(i, row, viewport, selection).Some?
  }

  /** None of the first `n` rows makes `visible_row_part` panic. */
  predicate RowsDrawn(rows: seq<string>, n: nat, viewport: Viewports.Viewport, selection: Selection)
    reads viewport
    requires n <= |rows|
  {
    forall k :: 0 <= k < n ==> RowDrawn(k, rows[k], viewport, selection)
  }

  /** A row the selection does not reach never panics, whatever the viewport. */
  lemma UnselectedRowDrawn(i: nat, row: string, viewport: Viewports.Viewport, selection: Selection)
    requires !Selects(selection, viewport.top + i)
    ensures RowDrawn(i, row, viewport, selection)
    ensures |row| >= viewport.left ==>
      VisibleRowPartAsWritten(i, row, viewport, selection).value == VisibleRowPart(i, row, viewport, selection)
  {
  }

  /**
    `render_row`: move to the row's screen line, print the three parts of
    `visible_row_part` as written with the selection on grey, clear the rest.
  */
  function RowCommands(i: nat, row: string, viewport: Viewports.Viewport, selection: Selection): (r: seq<Command>)
    reads viewport
    requires i + 1 < 0x1_0000 && RowDrawn(i, row, viewport, selection)
    ensures |r| == 7 && r[0] == MoveTo(1, i + 1) && r[6] == ClearToEndOfLine
    ensures var (pre, sel, post) := VisibleRowPartAsWritten(i, row, viewport, selection).value;
      r[1..6] == [Print(pre), SetBackgroundColor(100), Print(sel), SetBackgroundColor(0), Print(post)]
  {
    var (pre, sel, post) := VisibleRowPartAsWritten(i, row, viewport, selection).value;
    [MoveTo(1, i + 1), Print(pre), SetBackgroundColor(100), Print(sel), SetBackgroundColor(0), Print(post), ClearToEndOfLine]
  }

  /** `clear_row`. */
  function ClearRow(row: u16): (r: seq<Command>)
    ensures r == [MoveTo(1, row), ClearLine]
  {
    [MoveTo(1, row), ClearLine]
  }

  /** The commands of the first `n` visible rows. */
  function RowsCommands(rows: seq<string>, n: nat, viewport: Viewports.Viewport, selection: Selection): (r: seq<Command>)
    reads viewport
    requires n <= |rows| < 0x1_0000 && RowsDrawn(rows, n, viewport, selection)
    ensures |r| == 7 * n
  {
    if n == 0 then [] else RowsCommands(rows, n - 1, viewport, selection) + RowCommands(n - 1, rows[n - 1], viewport, selection)
  }

  /** The commands that clear the screen rows `lo + 1` to `hi`. */
  function Clears(lo: nat, hi: nat): (r: seq<Command>)
    requires hi < 0x1_0000
    ensures |r| == if hi <= lo then 0 else 2 * (hi - lo)
    decreases hi
  {
    if hi <= lo then [] else Clears(lo, hi - 1) + ClearRow(hi)
  }

  /** `render_content` slices the lines and cuts every visible row without a panic. */
  predicate ContentDefined(st: RenderState, viewport: Viewports.Viewport)
    reads viewport
  {
    VisibleRowsDefined(st, viewport) &&
    RowsDrawn(VisibleRows(st, viewport), |VisibleRows(st, viewport)|, viewport, st.selection)
  }

  /** What `render_content` pushes: every visible row, then a cleared line for each screen row below them. */
  function ContentCommands(st: RenderState, viewport: Viewports.Viewport): (r: seq<Command>)
    reads viewport
    requires ContentDefined(st, viewport)
  {
    var rows := VisibleRows(st, viewport);
    RowsCommands(rows, |rows|, viewport, st.selection) + Clears(|rows|, viewport.height)
  }

  /** `render_content`, with its two loops. */
  method RenderContent(st: RenderState, viewport: Viewports.Viewport) returns (commands: seq<Command>)
    requires ContentDefined(st, viewport)
    ensures commands == ContentCommands(st, viewport)
  {
    var rows := VisibleRows(st, viewport);
    commands := [];
    for i := 0 to |rows|
      invariant RowsDrawn(rows, i, viewport, st.selection)
      invariant commands == RowsCommands(rows, i, viewport, st.selection)
    {
      RowsCommandsSnoc(rows, i, viewport, st.selection);
      commands := commands + RowCommands(i, rows[i], viewport, st.selection);
    }
    for i := |rows| to viewport.height
      invariant commands == RowsCommands(rows, |rows|, viewport, st.selection) + Clears(|rows|, i)
    {
      commands := commands + ClearRow(i + 1);
    }
  }

  /** One more drawn row appends its commands. */
  lemma RowsCommandsSnoc(rows: seq<string>, i: nat, viewport: Viewports.Viewport, selection: Selection)
    requires i < |rows| < 0x1_0000 && RowsDrawn(rows, |rows|, viewport, selection)
    ensures RowDrawn(i, rows[i], viewport, selection) && RowsDrawn(rows, i + 1, viewport, selection)
    ensures RowsCommands(rows, i + 1, viewport, selection) ==
      RowsCommands(rows, i, viewport, selection) + RowCommands(i, rows[i], viewport, selection)
  {
  }

  /** The screen rows that the `MoveTo` commands go to, in order. */
  function MovedRows(commands: seq<Command>): seq<nat>
  {
    if |commands| == 0 then [] else MovedRow(commands[0]) + MovedRows(commands[1..])
  }

  /** The screen row one command moves the cursor to, if it moves it. */
  function MovedRow(c: Command): seq<nat>
  {
    if c.MoveTo? then [c.row as nat] else []
  }

  /** The numbers `lo + 1` to `hi`. */
  function Rows(lo: nat, hi: nat): (r: seq<nat>)
    ensures |r| == if hi <= lo then 0 else hi - lo
    ensures forall k :: 0 <= k < |r| ==> r[k] == lo + 1 + k
    decreases hi
  {
    if hi <= lo then [] else Rows(lo, hi - 1) + [hi]
  }

  lemma {:induction false} MovedRowsAppend(a: seq<Command>, b: seq<Command>)
    ensures MovedRows(a + b) == MovedRows(a) + MovedRows(b)
  {
    if |a| == 0 {
      assert a + b == b;
    } else {
      assert (a + b)[0] == a[0] && (a + b)[1..] == a[1..] + b;
      assert MovedRows(a + b) == MovedRow(a[0]) + MovedRows(a[1..] + b);
      MovedRowsAppend(a[1..], b);
    }
  }

  /** Commands that move nowhere. */
  lemma {:induction false} MovedRowsNone(commands: seq<Command>)
    requires forall k :: 0 <= k < |commands| ==> !commands[k].MoveTo?
    ensures MovedRows(commands) == []
  {
    if |commands| > 0 {
      MovedRowsNone(commands[1..]);
    }
  }

  lemma {:induction false} RowsCommandsMove(rows: seq<string>, n: nat, viewport: Viewports.Viewport, selection: Selection)
    requires n <= |rows| < 0x1_0000 && RowsDrawn(rows, n, viewport, selection)
    ensures MovedRows(RowsCommands(rows, n, viewport, selection)) == Rows(0, n)
  {
    if n > 0 {
      var head := RowsCommands(rows, n - 1, viewport, selection);
      var c := RowCommands(n - 1, rows[n - 1], viewport, selection);
      assert RowsCommands(rows, n, viewport, selection) == head + c;
      RowsCommandsMove(rows, n - 1, viewport, selection);
      MovedRowsAppend(head, c);
      RowMove(n - 1, rows[n - 1], viewport, selection);
      assert Rows(0, n) == Rows(0, n - 1) + [n];
    }
  }

  /** The commands of row `i` move only to screen row `i + 1`. */
  lemma RowMove(i: nat, row: string, viewport: Viewports.Viewport, selection: Selection)
    requires i + 1 < 0x1_0000 && RowDrawn(i, row, viewport, selection)
    ensures MovedRows(RowCommands(i, row, viewport, selection)) == [i + 1]
  {
    var c := RowCommands(i, row, viewport, selection);
    MovedRowsNone(c[1..]);
    assert MovedRows(c) == [i + 1] + MovedRows(c[1..]);
  }

  lemma {:induction false} ClearsMove(lo: nat, hi: nat)
    requires hi < 0x1_0000
    ensures MovedRows(Clears(lo, hi)) == Rows(lo, hi)
    decreases hi
  {
    if hi > lo {
      ClearsMove(lo, hi - 1);
      MovedRowsAppend(Clears(lo, hi - 1), ClearRow(hi));
      MovedRowsNone(ClearRow(hi)[1..]);
    }
  }

  lemma {:induction false} RowsJoin(a: nat, b: nat, c: nat)
    requires a <= b <= c
    ensures Rows(a, b) + Rows(b, c) == Rows(a, c)
    decreases c
  {
    if c > b {
      RowsJoin(a, b, c - 1);
    }
  }

  /**
    `render_content` addresses every screen row of the viewport, `1` to
    `height`, once each and in order: the visible rows, then the cleared ones.
  */
  lemma ContentCoversViewport(st: RenderState, viewport: Viewports.Viewport)
    requires ContentDefined(st, viewport)
    ensures MovedRows(ContentCommands(st, viewport)) == Rows(0, viewport.height)
    ensures |ContentCommands(st, viewport)| ==
      7 * |VisibleRows(st, viewport)| + 2 * (viewport.height - |VisibleRows(st, viewport)|)
  {
    var rows := VisibleRows(st, viewport);
    RowsCommandsMove(rows, |rows|, viewport, st.selection);
    ClearsMove(|rows|, viewport.height);
    MovedRowsAppend(RowsCommands(rows, |rows|, viewport, st.selection), Clears(|rows|, viewport.height));
    RowsJoin(0, |rows|, viewport.height);
  }

  /** `delimiter_label`. */
  function DelimiterLabel(delimiter: string): (name: string)
    ensures delimiter == LineSplit.CRLF ==> name == "CRLF"
    ensures delimiter == LineSplit.CR ==> name == "CR"
    ensures delimiter == LineSplit.LF ==> name == "LF"
    ensures delimiter !in {LineSplit.CRLF, LineSplit.CR, LineSplit.LF} ==> name == "?"
  {
    if delimiter == LineSplit.CRLF then "CRLF"
    else if delimiter == LineSplit.CR then "CR"
    else if delimiter == LineSplit.LF then "LF"
    else "?"
  }

  /** Parsed content always has a delimiter the status bar can name. */
  lemma ParsedDelimiterLabelled(text: string)
    ensures DelimiterLabel(Content.Parse(text).delimiter) in {"CRLF", "CR", "LF"}
  {
  }

  /** `render_status_bar` clears the line after the viewport, which needs `height + 1` to fit `u16`. */
  predicate StatusBarDefined(viewport: Viewports.Viewport)
    reads viewport
  {
    viewport.height + 1 < 0x1_0000
  }

  /** `render_status_bar`: clear the line below the viewport and print the status there. */
  function StatusBar(st: RenderState, viewport: Viewports.Viewport): (r: seq<Command>)
    reads viewport
    requires StatusBarDefined(viewport)
    ensures |r| == 3 && r[0] == MoveTo(1, viewport.height + 1) && r[1] == ClearLine && r[2].Print?
    ensures r[2].text == st.statusText(viewport.width, viewport.height,
      st.cursorPos.0 + 1, st.cursorPos.1 + 1, viewport.top + 1, DelimiterLabel(st.delimiter))
  {
    var (row, col) := st.cursorPos;
    var status := st.statusText(viewport.width, viewport.height, row + 1, col + 1, viewport.top + 1, DelimiterLabel(st.delimiter));
    ClearRow(viewport.height + 1) + [Print(status)]
  }

  /** `render_cursor` indexes the cursor's line and converts its display column through `to_relative`. */
  predicate CursorDefined(st: RenderState, viewport: Viewports.Viewport)
    reads viewport
  {
    viewport.CursorWithin(st.cursorPos) ==>
      st.cursorPos.0 < |st.lines| && st.monoColAt(st.lines[st.cursorPos.0], st.cursorPos.1) >= viewport.top
  }

  /**
    `render_cursor`: when the viewport holds the cursor, move to its screen
    cell and show it; otherwise nothing.
  */
  function CursorCommands(st: RenderState, viewport: Viewports.Viewport): (r: seq<Command>)
    reads viewport
    requires CursorDefined(st, viewport)
    ensures r == [] <==> !viewport.CursorWithin(st.cursorPos)
    ensures r != [] ==> |r| == 2 && r[0].MoveTo? && r[1] == ShowCursor
    ensures r != [] ==> 1 <= r[0].row <= viewport.width
    ensures r != [] ==>
      var rel := viewport.ToRelative((st.cursorPos.0, st.monoColAt(st.lines[st.cursorPos.0], st.cursorPos.1)));
      r[0] == MoveTo(rel.1, rel.0)
  {
    var (row, col) := st.cursorPos;
    if viewport.CursorWithin((row, col)) then
      var col2 := st.monoColAt(st.lines[row], col);
      var (rowRel, colRel) := viewport.ToRelative((row, col2));
      [MoveTo(colRel, rowRel), ShowCursor]
    else []
  }

  /** `render`: hide the cursor, redraw the content when asked, then the status bar and the cursor. */
  method Render(st: RenderState, viewport: Viewports.Viewport, rerenderContent: bool) returns (commands: seq<Command>)
    requires StatusBarDefined(viewport) && CursorDefined(st, viewport)
    requires rerenderContent ==> ContentDefined(st, viewport)
    ensures commands == [HideCursor] + (if rerenderContent then ContentCommands(st, viewport) else []) +
      StatusBar(st, viewport) + CursorCommands(st, viewport)
  {
    commands := [HideCursor];
    if rerenderContent {
      var content := RenderContent(st, viewport);
      commands := commands + content;
    }
    commands := commands + StatusBar(st, viewport);
    commands := commands + CursorCommands(st, viewport);
  }

  /** The cursor is hidden first and shown last, and only when the viewport holds it. */
  lemma RenderShowsCursorLast(st: RenderState, viewport: Viewports.Viewport, rerenderContent: bool, commands: seq<Command>)
    requires StatusBarDefined(viewport) && CursorDefined(st, viewport)
    requires rerenderContent ==> ContentDefined(st, viewport)
    requires commands == [HideCursor] + (if rerenderContent then ContentCommands(st, viewport) else []) +
      StatusBar(st, viewport) + CursorCommands(st, viewport)
    ensures commands[0] == HideCursor
    ensures commands[|commands| - 1] == ShowCursor <==> viewport.CursorWithin(st.cursorPos)
    ensures ShowCursor in commands <==> viewport.CursorWithin(st.cursorPos)
  {
    var c := if rerenderContent then ContentCommands(st, viewport) else [];
    var status := StatusBar(st, viewport);
    var cursor := CursorCommands(st, viewport);
    var body := [HideCursor] + c + status;
    assert commands == body + cursor;
    if rerenderContent {
      NoShowInContent(st, viewport);
    }
    assert ShowCursor !in c;
    assert ShowCursor !in status by {
      assert status == [status[0], status[1], status[2]];
    }
    assert ShowCursor !in body;
    if !viewport.CursorWithin(st.cursorPos) {
      assert commands == body;
    } else {
      assert commands[|commands| - 1] == cursor[1];
    }
  }

  /** Content and status commands do not show the cursor. */
  lemma NoShowInContent(st: RenderState, viewport: Viewports.Viewport)
    requires ContentDefined(st, viewport)
    ensures ShowCursor !in ContentCommands(st, viewport)
  {
    var rows := VisibleRows(st, viewport);
    RowsNoShow(rows, |rows|, viewport, st.selection);
    ClearsNoShow(|rows|, viewport.height);
  }

  lemma {:induction false} RowsNoShow(rows: seq<string>, n: nat, viewport: Viewports.Viewport, selection: Selection)
    requires n <= |rows| < 0x1_0000 && RowsDrawn(rows, n, viewport, selection)
    ensures ShowCursor !in RowsCommands(rows, n, viewport, selection)
  {
    if n > 0 {
      var head := RowsCommands(rows, n - 1, viewport, selection);
      var last := RowCommands(n - 1, rows[n - 1], viewport, selection);
      assert RowsCommands(rows, n, viewport, selection) == head + last;
      RowsNoShow(rows, n - 1, viewport, selection);
      RowNoShow(n - 1, rows[n - 1], viewport, selection);
    }
  }

  lemma RowNoShow(i: nat, row: string, viewport: Viewports.Viewport, selection: Selection)
    requires i + 1 < 0x1_0000 && RowDrawn(i, row, viewport, selection)
    ensures ShowCursor !in RowCommands(i, row, viewport, selection)
  {
    var (pre, sel, post) := VisibleRowPartAsWritten(i, row, viewport, selection).value;
    assert RowCommands(i, row, viewport, selection) ==
      [MoveTo(1, i + 1), Print(pre), SetBackgroundColor(100), Print(sel), SetBackgroundColor(0), Print(post), ClearToEndOfLine];
  }

  lemma {:induction false} ClearsNoShow(lo: nat, hi: nat)
    requires hi < 0x1_0000
    ensures ShowCursor !in Clears(lo, hi)
    decreases hi
  {
    if hi > lo {
      ClearsNoShow(lo, hi - 1);
    }
  }
}
