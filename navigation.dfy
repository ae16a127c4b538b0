/**
  src/editor/navigation.rs: cursor movement and scrolling as commands. Each
  move computes a target, clamps it into the text, scrolls it into view and
  reports only what changes.
*/
module Navigation {
  import opened Common

  /** `AbsPosition`: `(x, y)`, column first. */
  type AbsPosition = (nat, nat)

  /**
    The state this revision's navigation reads: the lines, the cursor and
    scroll positions, the viewport size (`viewport_usize`, not shown) and
    the column mapping of the vertical navigation memory (`vertical_nav.x`,
    not shown), which is a parameter of the model.
  */
  datatype NavState = NavState(
    lines: seq<string>,
    cursorPos: AbsPosition,
    scrollPos: AbsPosition,
    width: nat,
    height: nat,
    navX: nat -> nat)

  datatype CursorCommand = NoMove | MoveTo(x: nat, y: nat)

  datatype ScrollCommand = NoScroll | ScrollTo(x: nat, y: nat)

  /** `NavigationCommand`. */
  type NavigationCommand = (ScrollCommand, CursorCommand)

  /** `last_line_y`: `lines.len() - 1` needs a line. */
  function LastLineY(st: NavState): (y: nat)
    requires |st.lines| >= 1
    ensures y + 1 == |st.lines|
  {
    |st.lines| - 1
  }

  /** `line_end`: `(line_len(y), y)`. */
  function LineEnd(st: NavState, y: nat): (p: AbsPosition)
    requires y < |st.lines|
    ensures p == (|st.lines[y]|, y)
  {
    (LineLen(st.lines, y), y)
  }

  /** `last_line_end`. */
  function LastLineEnd(st: NavState): (p: AbsPosition)
    requires |st.lines| >= 1
    ensures p.1 + 1 == |st.lines| && p.0 == |st.lines[p.1]|
  {
    LineEnd(st, LastLineY(st))
  }

  /** A position inside the text: an existing row, a column at most its length. */
  predicate InText(st: NavState, p: AbsPosition)
  {
    p.1 < |st.lines| && p.0 <= |st.lines[p.1]|
  }

  /**
    `within_text`: the row is clamped to the last row, then the column the
    vertical navigation maps `x` to is clamped to that row's length.
  */
  function WithinText(st: NavState, p: AbsPosition): (r: AbsPosition)
    requires |st.lines| >= 1
    ensures InText(st, r)
    ensures r.1 == Min(p.1, |st.lines| - 1)
    ensures r.0 == Min(st.navX(p.0), |st.lines[r.1]|)
  {
    var newY := Min(p.1, LastLineY(st));
    var newX := Min(st.navX(p.0), LineLen(st.lines, newY));
    (newX, newY)
  }

  /** `scroll_into_view`: the axis rule for x against (left, width) and y against (top, height). */
  function ScrollIntoView(st: NavState, p: AbsPosition): (r: AbsPosition)
    ensures st.width >= 1 ==> r.0 <= p.0 < r.0 + st.width
    ensures st.height >= 1 ==> r.1 <= p.1 < r.1 + st.height
    ensures st.scrollPos.0 <= p.0 < st.scrollPos.0 + st.width ==> r.0 == st.scrollPos.0
    ensures st.scrollPos.1 <= p.1 < st.scrollPos.1 + st.height ==> r.1 == st.scrollPos.1
  {
    var (scrollLeft, scrollTop) := st.scrollPos;
    (ScrollInto(p.0, scrollLeft, st.width), ScrollInto(p.1, scrollTop, st.height))
  }

  /** `to_relative`: the 1-based screen cell, cut to 16 bits by `as u16`. */
  function ToRelative(p: AbsPosition, scroll: AbsPosition): (q: (u16, u16))
    requires p.0 >= scroll.0 && p.1 >= scroll.1
    ensures p.0 - scroll.0 + 1 < 0x1_0000 ==> q.0 == p.0 - scroll.0 + 1
    ensures p.1 - scroll.1 + 1 < 0x1_0000 ==> q.1 == p.1 - scroll.1 + 1
  {
    (AsU16(p.0 - scroll.0 + 1), AsU16(p.1 - scroll.1 + 1))
  }

  /** `to_absolute`: back from a 1-based screen cell; the `- 1` needs a non-zero sum. */
  function ToAbsolute(q: (u16, u16), scroll: AbsPosition): (p: AbsPosition)
    requires q.0 + scroll.0 >= 1 && q.1 + scroll.1 >= 1
    ensures p.0 + 1 == q.0 + scroll.0 && p.1 + 1 == q.1 + scroll.1
  {
    (q.0 + scroll.0 - 1, q.1 + scroll.1 - 1)
  }

  lemma AbsoluteOfRelative(p: AbsPosition, scroll: AbsPosition)
    requires p.0 >= scroll.0 && p.1 >= scroll.1
    requires p.0 - scroll.0 + 1 < 0x1_0000 && p.1 - scroll.1 + 1 < 0x1_0000
    ensures ToAbsolute(ToRelative(p, scroll), scroll) == p
  {
  }

  /** `move_cmd`: no command when the target is where the cursor already is. */
  function MoveCmd(st: NavState, p: AbsPosition): (c: CursorCommand)
    ensures c.NoMove? <==> p == st.cursorPos
    ensures c.MoveTo? ==> (c.x, c.y) == p
  {
    if p == st.cursorPos then NoMove else MoveTo(p.0, p.1)
  }

  /** `scroll_cmd`: no command when the viewport would stay where it is. */
  function ScrollCmd(st: NavState, p: AbsPosition): (c: ScrollCommand)
    ensures c.NoScroll? <==> p == st.scrollPos
    ensures c.ScrollTo? ==> (c.x, c.y) == p
  {
    if p == st.scrollPos then NoScroll else ScrollTo(p.0, p.1)
  }

  /** Where the cursor is after a cursor command. */
  function CursorAfter(st: NavState, c: CursorCommand): AbsPosition
  {
    if c.MoveTo? then (c.x, c.y) else st.cursorPos
  }

  /** Where the viewport origin is after a scroll command. */
  function ScrollAfter(st: NavState, c: ScrollCommand): AbsPosition
  {
    if c.ScrollTo? then (c.x, c.y) else st.scrollPos
  }

  /**
    `move_to`: the cursor goes to the target clamped into the text, and the
    viewport scrolls so that it shows that position.
  */
  function MoveToPos(st: NavState, pos: AbsPosition): (r: NavigationCommand)
    requires |st.lines| >= 1
    ensures CursorAfter(st, r.1) == WithinText(st, pos)
    ensures InText(st, CursorAfter(st, r.1))
    ensures r.1.NoMove? <==> WithinText(st, pos) == st.cursorPos
    ensures ScrollAfter(st, r.0) == ScrollIntoView(st, WithinText(st, pos))
    ensures st.width >= 1 ==>
      ScrollAfter(st, r.0).0 <= CursorAfter(st, r.1).0 < ScrollAfter(st, r.0).0 + st.width
    ensures st.height >= 1 ==>
      ScrollAfter(st, r.0).1 <= CursorAfter(st, r.1).1 < ScrollAfter(st, r.0).1 + st.height
  {
    var newCursorPos := WithinText(st, pos);
    var newScrollPos := ScrollIntoView(st, newCursorPos);
    (ScrollCmd(st, newScrollPos), MoveCmd(st, newCursorPos))
  }

  /** `click`: a move to the document position of a screen cell. */
  function Click(st: NavState, x: u16, y: u16): (r: NavigationCommand)
    requires |st.lines| >= 1
    requires x + st.scrollPos.0 >= 1 && y + st.scrollPos.1 >= 1
    ensures r == MoveToPos(st, ToAbsolute((x, y), st.scrollPos))
    ensures CursorAfter(st, r.1).1 == Min(y + st.scrollPos.1 - 1, |st.lines| - 1)
  {
    MoveToPos(st, ToAbsolute((x, y), st.scrollPos))
  }

  /** `move_vertical`: a move to the same column and the row `newRow` gives for the cursor's row. */
  function MoveVertical(st: NavState, newRow: nat --> nat): (r: NavigationCommand)
    requires |st.lines| >= 1 && newRow.requires(st.cursorPos.1)
    ensures r == MoveToPos(st, (st.cursorPos.0, newRow(st.cursorPos.1)))
  {
    var (x, y) := st.cursorPos;
    MoveToPos(st, (x, newRow(y)))
  }

  /** `move_up(n)`: up `n` rows, stopping at the first. */
  function MoveUp(st: NavState, n: nat): (r: NavigationCommand)
    requires |st.lines| >= 1
    ensures r == MoveToPos(st, (st.cursorPos.0, st.cursorPos.1 - Min(n, st.cursorPos.1)))
    ensures CursorAfter(st, r.1).1 == Min(st.cursorPos.1 - Min(n, st.cursorPos.1), |st.lines| - 1)
  {
    MoveVertical(st, (y: nat) => y - Min(n, y))
  }

  /** `move_down(n)`: down `n` rows, stopping at the last; `last_line_y() - y` needs the cursor row in the text. */
  function MoveDown(st: NavState, n: nat): (r: NavigationCommand)
    requires |st.lines| >= 1 && st.cursorPos.1 <= |st.lines| - 1
    ensures r == MoveToPos(st, (st.cursorPos.0, StepDown(n, |st.lines| - 1, st.cursorPos.1)))
    ensures CursorAfter(st, r.1).1 == st.cursorPos.1 + Min(n, |st.lines| - 1 - st.cursorPos.1)
    ensures CursorAfter(st, r.1).1 <= |st.lines| - 1
  {
    var last := LastLineY(st);
    MoveVertical(st, (y: nat) requires y <= last => StepDown(n, last, y))
  }

  /**
    `move_left`: at the document start nowhere, at a row start to the end of
    the row above, otherwise one column back.
  */
  function MoveLeft(st: NavState): (r: NavigationCommand)
    requires |st.lines| >= 1
    requires st.cursorPos.0 == 0 && st.cursorPos.1 > 0 ==> st.cursorPos.1 <= |st.lines|
    ensures st.cursorPos == (0, 0) ==> r == MoveToPos(st, (0, 0))
    ensures st.cursorPos.0 == 0 && st.cursorPos.1 > 0 ==>
      r == MoveToPos(st, (|st.lines[st.cursorPos.1 - 1]|, st.cursorPos.1 - 1))
    ensures st.cursorPos.0 > 0 ==> r == MoveToPos(st, (st.cursorPos.0 - 1, st.cursorPos.1))
  {
    var target :=
      match st.cursorPos
      case (0, 0) => (0, 0)
      case (0, y) => LineEnd(st, y - 1)
      case (x, y) => (x - 1, y);
    MoveToPos(st, target)
  }

  /**
    `move_right`: one column on inside a row, to the start of the next row
    at a row end, and nowhere at the end of the document.
  */
  function MoveRight(st: NavState): (r: NavigationCommand)
    requires st.cursorPos.1 < |st.lines|
    ensures var (x, y) := st.cursorPos;
      x < |st.lines[y]| ==> r == MoveToPos(st, (x + 1, y))
    ensures var (x, y) := st.cursorPos;
      x >= |st.lines[y]| && y + 1 < |st.lines| ==> r == MoveToPos(st, (0, y + 1))
    ensures var (x, y) := st.cursorPos;
      x >= |st.lines[y]| && y + 1 == |st.lines| ==> r == MoveToPos(st, st.cursorPos)
  {
    var (x, y) := st.cursorPos;
    var target :=
      if x < LineLen(st.lines, y) then (x + 1, y)
      else if y < LastLineY(st) then (0, y + 1)
      else st.cursorPos;
    MoveToPos(st, target)
  }

  /** `move_line_start`. */
  function MoveLineStart(st: NavState): (r: NavigationCommand)
    requires |st.lines| >= 1
    ensures r == MoveToPos(st, (0, st.cursorPos.1))
  {
    MoveToPos(st, (0, st.cursorPos.1))
  }

  /** `move_line_end`. */
  function MoveLineEnd(st: NavState): (r: NavigationCommand)
    requires st.cursorPos.1 < |st.lines|
    ensures r == MoveToPos(st, (|st.lines[st.cursorPos.1]|, st.cursorPos.1))
  {
    MoveToPos(st, LineEnd(st, st.cursorPos.1))
  }

  /** `move_document_start`. */
  function MoveDocumentStart(st: NavState): (r: NavigationCommand)
    requires |st.lines| >= 1
    ensures r == MoveToPos(st, (0, 0))
    ensures CursorAfter(st, r.1).1 == 0
    ensures CursorAfter(st, r.1).0 == Min(st.navX(0), |st.lines[0]|)
  {
    MoveToPos(st, (0, 0))
  }

  /** `move_document_end`. */
  function MoveDocumentEnd(st: NavState): (r: NavigationCommand)
    requires |st.lines| >= 1
    ensures r == MoveToPos(st, (|st.lines[|st.lines| - 1]|, |st.lines| - 1))
    ensures CursorAfter(st, r.1).1 + 1 == |st.lines|
  {
    MoveToPos(st, LastLineEnd(st))
  }

  /** `scroll_to`: the row is clamped to the last row, and the cursor never moves. */
  function ScrollToPos(st: NavState, pos: AbsPosition): (r: NavigationCommand)
    requires |st.lines| >= 1
    ensures r.1 == NoMove
    ensures ScrollAfter(st, r.0) == (pos.0, Min(pos.1, |st.lines| - 1))
    ensures r.0.NoScroll? <==> (pos.0, Min(pos.1, |st.lines| - 1)) == st.scrollPos
  {
    var newScrollTop := Min(pos.1, LastLineY(st));
    (ScrollCmd(st, (pos.0, newScrollTop)), NoMove)
  }

  /** `scroll_vertical`: the viewport's top row replaced by what `newRow` gives for it. */
  function ScrollVertical(st: NavState, newRow: nat --> nat): (r: NavigationCommand)
    requires |st.lines| >= 1 && newRow.requires(st.scrollPos.1)
    ensures r == ScrollToPos(st, (st.scrollPos.0, newRow(st.scrollPos.1)))
  {
    var (x, y) := st.scrollPos;
    ScrollToPos(st, (x, newRow(y)))
  }

  /** `scroll_up(n)`. */
  function ScrollUp(st: NavState, n: nat): (r: NavigationCommand)
    requires |st.lines| >= 1
    ensures r.1 == NoMove
    ensures ScrollAfter(st, r.0) == (st.scrollPos.0, Min(st.scrollPos.1 - Min(n, st.scrollPos.1), |st.lines| - 1))
  {
    ScrollVertical(st, (y: nat) => y - Min(n, y))
  }

  /** `scroll_down(n)`: `last_line_y() - y` needs the top row in the text. */
  function ScrollDown(st: NavState, n: nat): (r: NavigationCommand)
    requires |st.lines| >= 1 && st.scrollPos.1 <= |st.lines| - 1
    ensures r.1 == NoMove
    ensures ScrollAfter(st, r.0) == (st.scrollPos.0, st.scrollPos.1 + Min(n, |st.lines| - 1 - st.scrollPos.1))
    ensures ScrollAfter(st, r.0).1 <= |st.lines| - 1
  {
    var last := LastLineY(st);
    ScrollVertical(st, (y: nat) requires y <= last => StepDown(n, last, y))
  }

  /** The vertical navigation leaves columns as they are (outside a vertical run). */
  ghost predicate KeepsColumns(st: NavState)
  {
    forall x: nat :: st.navX(x) == x
  }

  /** `move_left` at the start of the document gives no move. */
  lemma MoveLeftAtStart(st: NavState)
    requires |st.lines| >= 1 && st.cursorPos == (0, 0) && KeepsColumns(st)
    ensures MoveLeft(st).1 == NoMove
  {
    assert st.navX(0) == 0;
  }

  /** `move_left` at a row start goes to the end of the row above. */
  lemma MoveLeftWraps(st: NavState)
    requires |st.lines| >= 1 && st.cursorPos.0 == 0 && 0 < st.cursorPos.1 <= |st.lines| && KeepsColumns(st)
    ensures var y := st.cursorPos.1; MoveLeft(st).1 == MoveTo(|st.lines[y - 1]|, y - 1)
  {
    var y := st.cursorPos.1;
    assert st.navX(|st.lines[y - 1]|) == |st.lines[y - 1]|;
  }

  /** `move_left` inside a row goes one column back. */
  lemma MoveLeftInRow(st: NavState)
    requires InText(st, st.cursorPos) && st.cursorPos.0 > 0 && KeepsColumns(st)
    ensures MoveLeft(st).1 == MoveTo(st.cursorPos.0 - 1, st.cursorPos.1)
  {
    assert st.navX(st.cursorPos.0 - 1) == st.cursorPos.0 - 1;
  }

  /** `move_right` inside a row goes one column on. */
  lemma MoveRightInRow(st: NavState)
    requires st.cursorPos.1 < |st.lines| && st.cursorPos.0 < |st.lines[st.cursorPos.1]| && KeepsColumns(st)
    ensures MoveRight(st).1 == MoveTo(st.cursorPos.0 + 1, st.cursorPos.1)
  {
    assert st.navX(st.cursorPos.0 + 1) == st.cursorPos.0 + 1;
  }

  /** `move_right` at the end of a row that is not the last goes to the start of the next row. */
  lemma MoveRightWraps(st: NavState)
    requires st.cursorPos.1 + 1 < |st.lines| && st.cursorPos.0 >= |st.lines[st.cursorPos.1]| && KeepsColumns(st)
    ensures MoveRight(st).1 == MoveTo(0, st.cursorPos.1 + 1)
  {
    assert st.navX(0) == 0;
  }

  /** `move_right` at the end of the document gives no move. */
  lemma MoveRightAtEnd(st: NavState)
    requires st.cursorPos.1 + 1 == |st.lines| && st.cursorPos.0 == |st.lines[st.cursorPos.1]| && KeepsColumns(st)
    ensures MoveRight(st).1 == NoMove
  {
    assert st.navX(st.cursorPos.0) == st.cursorPos.0;
  }

  /** With the cursor in the text, a move right then a move left comes back. */
  lemma MoveRightThenLeft(st: NavState, back: NavState)
    requires st.cursorPos.1 < |st.lines| && st.cursorPos.0 <= |st.lines[st.cursorPos.1]| && KeepsColumns(st)
    requires MoveRight(st).1.MoveTo?
    requires back == st.(cursorPos := CursorAfter(st, MoveRight(st).1))
    ensures MoveLeft(back).1 == MoveTo(st.cursorPos.0, st.cursorPos.1)
  {
    var (x, y) := st.cursorPos;
    if x < |st.lines[y]| {
      MoveRightInRow(st);
      MoveLeftInRow(back);
    } else if y + 1 < |st.lines| {
      MoveRightWraps(st);
      MoveLeftWraps(back);
    } else {
      MoveRightAtEnd(st);
    }
  }

  /** `scroll_up` at the top row gives no scroll command. */
  lemma ScrollUpAtTop(st: NavState, n: nat)
    requires |st.lines| >= 1 && st.scrollPos.1 == 0
    ensures ScrollUp(st, n).0 == NoScroll
  {
  }

  /** `scroll_down` from the last row gives no scroll command. */
  lemma ScrollDownAtLast(st: NavState, n: nat)
    requires |st.lines| >= 1 && st.scrollPos.1 + 1 == |st.lines|
    ensures ScrollDown(st, n).0 == NoScroll
  {
  }
}
