/**
  src/editor/mod.rs: the editor's handling of one input event, in the
  revision whose state holds a `Cursor`, a `Viewport` and an
  `EditorContent`. The navigation methods of that state, and the content's
  `insert` and `delete`, come from files that are not part of this model;
  they arrive as parameters.
*/
module Editor {
  import opened Common
  import opened KeyEvents
  import opened MoveCommands
  import Cursors
  import State
  import Scroll
  import Content

  /** The results of the state's navigation methods for the current state. */
  datatype StateMoves = StateMoves(
    lineStart: NavigationCommand,
    lineEnd: NavigationCommand,
    up: nat -> NavigationCommand,
    down: nat -> NavigationCommand,
    right: NavigationCommand,
    left: NavigationCommand,
    pageDown: NavigationCommand,
    pageUp: NavigationCommand,
    documentStart: NavigationCommand,
    documentEnd: NavigationCommand,
    click: State.AbsPosition -> NavigationCommand)

  /** What the event loop does with an event before editing: stop, or queue a scroll and a cursor command. */
  datatype Step = Quit | Queue(scroll: Scroll.ScrollCommand, cursor: NavigationCommand)

  /** The edit an event asks for once the commands are queued. */
  datatype EditAction = NoEdit | InsertText(text: string) | DeleteBefore | DeleteAfter

  /** A click converts its cell through `to_absolute`, whose `- 1` needs a non-zero sum. */
  predicate ClickDefined(event: Event, st: Scroll.ScrollState)
  {
    IsLeftPress(event) ==>
      event.mouse.column + st.viewport.left >= 1 && event.mouse.row + st.viewport.top >= 1
  }

  /**
    The cursor half of the dispatch: unmodified Home, End, arrows and page
    keys, control Home and End, and a left-button press move; nothing else.
  */
  function CursorCommandOf(event: Event, st: Scroll.ScrollState, moves: StateMoves): (r: NavigationCommand)
    requires ClickDefined(event, st)
    ensures event == Key(Home, 0) ==> r == moves.lineStart
    ensures event == Key(End, 0) ==> r == moves.lineEnd
    ensures event == Key(Up, 0) ==> r == moves.up(1)
    ensures event == Key(Down, 0) ==> r == moves.down(1)
    ensures event == Key(Right, 0) ==> r == moves.right
    ensures event == Key(Left, 0) ==> r == moves.left
    ensures event == Key(PageDown, 0) ==> r == moves.pageDown
    ensures event == Key(PageUp, 0) ==> r == moves.pageUp
    ensures event == Key(Home, CTRL) ==> r == moves.documentStart
    ensures event == Key(End, CTRL) ==> r == moves.documentEnd
    ensures event.Key? && event.modifiers == 0 && event.code !in {Home, End, Up, Down, Right, Left, PageDown, PageUp}
      ==> r.None?
    ensures event.Key? && event.modifiers != 0 && event.modifiers != CTRL ==> r.None?
    ensures event.Key? && event.modifiers == CTRL && event.code != Home && event.code != End ==> r.None?
    ensures event.Paste? || (event.Mouse? && !IsLeftPress(event)) ==> r.None?
    ensures IsLeftPress(event) ==>
      r == moves.click(State.ToAbsolute(st.viewport, (event.mouse.column, event.mouse.row)))
  {
    match event
    case Key(key, modifiers) =>
      if modifiers == 0 then
        match key
        case Home => moves.lineStart
        case End => moves.lineEnd
        case Up => moves.up(1)
        case Down => moves.down(1)
        case Right => moves.right
        case Left => moves.left
        case PageDown => moves.pageDown
        case PageUp => moves.pageUp
        case _ => None
      else if modifiers == CTRL then
        match key
        case Home => moves.documentStart
        case End => moves.documentEnd
        case _ => None
      else None
    case Mouse(m) =>
      if IsLeftPress(event) then moves.click(State.ToAbsolute(st.viewport, (m.column, m.row))) else None
    case Paste(_) => None
  }

  /** `scroll_up` and `scroll_down` read the last row of the content, and `scroll_down` needs the top row inside it. */
  predicate ScrollDefined(event: Event, st: Scroll.ScrollState, cursor: NavigationCommand)
  {
    |st.content.lines| >= 1 &&
    (cursor.None? && IsScrollDown(event) ==> st.viewport.top <= Content.LastLineRow(st.content))
  }

  /**
    The scroll half: a cursor move scrolls its target into view; otherwise
    control-Up and the wheel up scroll one row up, control-Down and the
    wheel down one row down, and nothing else scrolls.
  */
  function ScrollCommandOf(event: Event, st: Scroll.ScrollState, cursor: NavigationCommand): (r: Scroll.ScrollCommand)
    requires ScrollDefined(event, st, cursor)
    ensures cursor.Some? ==> r == Scroll.ScrollIntoView(st, (cursor.value.col, cursor.value.row))
    ensures cursor.None? && IsScrollUp(event) ==> r == Scroll.ScrollUp(st, 1)
    ensures cursor.None? && IsScrollDown(event) ==> r == Scroll.ScrollDown(st, 1)
    ensures cursor.None? && !IsScrollUp(event) && !IsScrollDown(event) ==> r.None?
  {
    match cursor
    case Some(MoveCursorTo(x, y, _)) => Scroll.ScrollIntoView(st, (x, y))
    case None =>
      if IsScrollUp(event) then Scroll.ScrollUp(st, 1)
      else if IsScrollDown(event) then Scroll.ScrollDown(st, 1)
      else None
  }

  /** The dispatch of the event loop: unmodified Esc stops it; every other event queues its two commands. */
  function Dispatch(event: Event, st: Scroll.ScrollState, moves: StateMoves): (r: Step)
    requires ClickDefined(event, st)
    requires ScrollDefined(event, st, CursorCommandOf(event, st, moves))
    ensures r.Quit? <==> event == Key(Esc, 0)
    ensures r.Queue? ==> r.cursor == CursorCommandOf(event, st, moves)
    ensures r.Queue? ==> r.scroll == ScrollCommandOf(event, st, r.cursor)
  {
    if event == Key(Esc, 0) then Quit
    else
      var cursor := CursorCommandOf(event, st, moves);
      Queue(ScrollCommandOf(event, st, cursor), cursor)
  }

  /** The viewport after the scroll half of a step: the target of a cursor move is then on screen. */
  lemma DispatchShowsTarget(event: Event, st: Scroll.ScrollState, moves: StateMoves)
    requires ClickDefined(event, st)
    requires ScrollDefined(event, st, CursorCommandOf(event, st, moves))
    requires st.viewport.width >= 1 && st.viewport.height >= 1
    ensures var r := Dispatch(event, st, moves);
      r.Queue? && r.cursor.Some? ==>
        State.CursorWithin(ViewportAfter(st.viewport, r.scroll), (r.cursor.value.col, r.cursor.value.row))
  {
    var r := Dispatch(event, st, moves);
    if r.Queue? && r.cursor.Some? {
      var o := Scroll.OriginAfter(st, r.scroll);
      assert ViewportAfter(st.viewport, r.scroll) == st.viewport.(left := o.0, top := o.1);
    }
  }

  /** The edit after queueing: a character or Enter inserts, whatever the modifiers; Backspace and Delete delete; a paste inserts its text. */
  function EditOf(event: Event): (r: EditAction)
    ensures event.Key? && event.code.Char? ==> r == InsertText([event.code.c])
    ensures event.Key? && event.code == Enter ==> r == InsertText("\n")
    ensures event.Key? && event.code == Backspace ==> r == DeleteBefore
    ensures event.Key? && event.code == Delete ==> r == DeleteAfter
    ensures event.Paste? ==> r == InsertText(event.text)
    ensures event.Mouse? ==> r == NoEdit
  {
    match event
    case Key(key, _) =>
      (match key
       case Char(c) => InsertText([c])
       case Enter => InsertText("\n")
       case Backspace => DeleteBefore
       case Delete => DeleteAfter
       case _ => NoEdit)
    case Paste(s) => InsertText(s)
    case Mouse(_) => NoEdit
  }

  /** The viewport after `scroll_viewport` of a scroll command, or unchanged without one. */
  function ViewportAfter(v: State.Viewport, scroll: Scroll.ScrollCommand): (r: State.Viewport)
    ensures r.width == v.width && r.height == v.height
    ensures scroll.None? ==> r == v
    ensures scroll.Some? ==> r.left == scroll.value.left && r.top == scroll.value.top
  {
    match scroll
    case None => v
    case Some(to) => v.(left := to.left, top := to.top)
  }

  /**
    The cursor after a move: it goes to the target and records whether the
    move was vertical; a vertical move keeps the column remembered by a
    vertical move before it, or else remembers the column it started from;
    any other move remembers its own column.
  */
  function MovedCursor(c: Cursors.Cursor, m: MoveCursorTo): (r: Cursors.Cursor)
    ensures r.row == m.row && r.col == m.col && r.movedVertically == m.isVertical
    ensures !m.isVertical ==> r.lastCol == m.col
    ensures m.isVertical && c.movedVertically ==> r.lastCol == c.lastCol
    ensures m.isVertical && !c.movedVertically ==> r.lastCol == c.col
  {
    Cursors.Cursor(m.row, m.col, m.isVertical,
      if m.isVertical then (if c.movedVertically then c.lastCol else c.col) else m.col)
  }

  /** The cursor after each of the moves in turn. */
  function MovedCursorAll(c: Cursors.Cursor, ms: seq<MoveCursorTo>): Cursors.Cursor
    decreases |ms|
  {
    if |ms| == 0 then c else MovedCursor(MovedCursorAll(c, ms[..|ms| - 1]), ms[|ms| - 1])
  }

  /** Every move of the run is vertical. */
  predicate AllVertical(ms: seq<MoveCursorTo>)
  {
    forall k :: 0 <= k < |ms| ==> ms[k].isVertical
  }

  /**
    A run of vertical moves remembers one column throughout: the column
    remembered before the run if it continues one, or else the column the
    run started from.
  */
  lemma {:induction false} VerticalRunRemembersColumn(c: Cursors.Cursor, ms: seq<MoveCursorTo>)
    requires |ms| >= 1 && AllVertical(ms)
    ensures MovedCursorAll(c, ms).movedVertically
    ensures MovedCursorAll(c, ms).lastCol == if c.movedVertically then c.lastCol else c.col
    decreases |ms|
  {
    if |ms| > 1 {
      VerticalRunRemembersColumn(c, ms[..|ms| - 1]);
    }
  }

  /** After a horizontal move, a run of vertical moves remembers the column that move went to. */
  lemma HorizontalThenVertical(c: Cursors.Cursor, h: MoveCursorTo, ms: seq<MoveCursorTo>)
    requires !h.isVertical && |ms| >= 1 && AllVertical(ms)
    ensures MovedCursorAll(c, [h] + ms).lastCol == h.col
  {
    var all := [h] + ms;
    var c1 := MovedCursor(c, h);
    MovedCursorAllCons(c, h, ms);
    VerticalRunRemembersColumn(c1, ms);
  }

  lemma {:induction false} MovedCursorAllCons(c: Cursors.Cursor, h: MoveCursorTo, ms: seq<MoveCursorTo>)
    ensures MovedCursorAll(c, [h] + ms) == MovedCursorAll(MovedCursor(c, h), ms)
    decreases |ms|
  {
    if |ms| == 0 {
      assert [h] + ms == [h];
      assert [h][..0] == [];
    } else {
      assert ([h] + ms)[..|ms|] == [h] + ms[..|ms| - 1];
      MovedCursorAllCons(c, h, ms[..|ms| - 1]);
    }
  }

  /**
    `move_and_scroll` as written scrolls to `cursor.pos()` before the move is
    queued, so the viewport follows the cursor's old position.
  */
  function MoveAndScrollAsWritten(st: Scroll.ScrollState, cursor: Cursors.Cursor, cmd: NavigationCommand): (r: Scroll.ScrollCommand)
    ensures var v := st.viewport; var (x, y) := Cursors.Pos(cursor);
      Scroll.OriginAfter(st, r) == (ScrollInto(x, v.left, v.width), ScrollInto(y, v.top, v.height))
    ensures State.CursorWithin(st.viewport, Cursors.Pos(cursor)) ==> r.None?
    ensures st.viewport.width >= 1 && st.viewport.height >= 1 ==>
      State.CursorWithin(ViewportAfter(st.viewport, r), Cursors.Pos(cursor))
  {
    var r := Scroll.ScrollIntoView(st, Cursors.Pos(cursor));
    var o := Scroll.OriginAfter(st, r);
    assert ViewportAfter(st.viewport, r) == st.viewport.(left := o.0, top := o.1);
    r
  }

  /** The scroll of `move_and_scroll` as written is the same for every move. */
  lemma MoveAndScrollIgnoresMove(st: Scroll.ScrollState, cursor: Cursors.Cursor, a: NavigationCommand, b: NavigationCommand)
    ensures MoveAndScrollAsWritten(st, cursor, a) == MoveAndScrollAsWritten(st, cursor, b)
  {
  }

  /** A cursor one column right of a one-cell viewport, after a move queued by `move_and_scroll` as written, is off screen. */
  lemma MoveAndScrollLosesCursor(content: Content.EditorContent)
    ensures var st := Scroll.ScrollState(State.Viewport(0, 0, 1, 1), content);
      var cursor := Cursors.New(0, 0);
      var cmd := MoveCursorTo(1, 0, false);
      MoveAndScrollAsWritten(st, cursor, Some(cmd)).None? &&
      !State.CursorWithin(ViewportAfter(st.viewport, MoveAndScrollAsWritten(st, cursor, Some(cmd))), (cmd.col, cmd.row))
  {
  }

  /**
    `move_and_scroll`, corrected: the scroll is taken for the target of the
    move, as the event loop does for its own moves, or for the cursor when
    it stays.
  */
  function MoveAndScroll(st: Scroll.ScrollState, cursor: Cursors.Cursor, cmd: NavigationCommand): (r: Scroll.ScrollCommand)
    ensures cmd.Some? ==> r == Scroll.ScrollIntoView(st, (cmd.value.col, cmd.value.row))
    ensures cmd.None? ==> r == Scroll.ScrollIntoView(st, Cursors.Pos(cursor))
  {
    match cmd
    case Some(m) => Scroll.ScrollIntoView(st, (m.col, m.row))
    case None => Scroll.ScrollIntoView(st, Cursors.Pos(cursor))
  }

  /** After the corrected `move_and_scroll` the cursor is on screen, moved or not. */
  lemma MoveAndScrollShowsCursor(st: Scroll.ScrollState, cursor: Cursors.Cursor, cmd: NavigationCommand)
    requires st.viewport.width >= 1 && st.viewport.height >= 1
    ensures var c := if cmd.Some? then MovedCursor(cursor, cmd.value) else cursor;
      State.CursorWithin(ViewportAfter(st.viewport, MoveAndScroll(st, cursor, cmd)), Cursors.Pos(c))
  {
    var o := Scroll.OriginAfter(st, MoveAndScroll(st, cursor, cmd));
    assert ViewportAfter(st.viewport, MoveAndScroll(st, cursor, cmd)) == st.viewport.(left := o.0, top := o.1);
  }

  /** The editor: its state and the handling of one event's commands and edits. */
  class Editor {
    var cursor: Cursors.Cursor
    var viewport: State.Viewport
    var content: Content.EditorContent

    /** `Editor::new`: the cursor at the start of the content. */
    constructor(content: Content.EditorContent, viewport: State.Viewport)
      ensures this.content == content && this.viewport == viewport && cursor == Cursors.New(0, 0)
    {
      this.content := content;
      this.viewport := viewport;
      this.cursor := Cursors.New(0, 0);
    }

    function ScrollState(): Scroll.ScrollState
      reads this
    {
      Scroll.ScrollState(viewport, content)
    }

    /** `queue`: the scroll first, then the cursor update; a missing command changes nothing. */
    method Queue(scroll: Scroll.ScrollCommand, cmd: NavigationCommand)
      modifies this
      ensures viewport == ViewportAfter(old(viewport), scroll)
      ensures cmd.Some? ==> cursor == MovedCursor(old(cursor), cmd.value)
      ensures cmd.None? ==> cursor == old(cursor)
      ensures content == old(content)
    {
      if scroll.Some? {
        var to := scroll.value;
        viewport := viewport.(left := to.left, top := to.top);
      }
      if cmd.Some? {
        var MoveCursorTo(col, row, isVertical) := cmd.value;
        cursor := Cursors.Cursor(row, col, isVertical,
          if isVertical then (if cursor.movedVertically then cursor.lastCol else cursor.col) else col);
      }
    }

    /** `move_and_scroll` as written: queues the move with the scroll that shows the cursor's old position. */
    method QueueMoveAndScroll(cmd: NavigationCommand)
      modifies this
      ensures viewport == ViewportAfter(old(viewport), MoveAndScrollAsWritten(old(ScrollState()), old(cursor), cmd))
      ensures cmd.Some? ==> cursor == MovedCursor(old(cursor), cmd.value)
      ensures cmd.None? ==> cursor == old(cursor)
      ensures content == old(content)
    {
      Queue(MoveAndScrollAsWritten(ScrollState(), cursor, cmd), cmd);
    }

    /** `move_and_scroll`, corrected: queues the move with the scroll that shows its target. */
    method MoveAndScrollTo(cmd: NavigationCommand)
      modifies this
      ensures viewport == ViewportAfter(old(viewport), MoveAndScroll(old(ScrollState()), old(cursor), cmd))
      ensures cmd.Some? ==> cursor == MovedCursor(old(cursor), cmd.value)
      ensures cmd.None? ==> cursor == old(cursor)
      ensures content == old(content)
    {
      Queue(MoveAndScroll(ScrollState(), cursor, cmd), cmd);
    }

    /**
      `insert`: the content inserts the text at the cursor and reports where
      it ends; the cursor is then clicked there, with the scroll of
      `move_and_scroll` as written. `insert` and `click` belong to files that
      are not part of this model.
    */
    method Insert(
      text: string,
      insert: (Content.EditorContent, Content.PosInDocument, string) -> (Content.EditorContent, Content.PosInDocument),
      click: (Content.EditorContent, State.AbsPosition) -> NavigationCommand)
      modifies this
      ensures content == insert(old(content), (old(cursor).row, old(cursor).col), text).0
      ensures var (row, col) := insert(old(content), (old(cursor).row, old(cursor).col), text).1;
        var cmd := click(content, (col, row));
        viewport == ViewportAfter(old(viewport), MoveAndScrollAsWritten(Scroll.ScrollState(old(viewport), content), old(cursor), cmd)) &&
        (cmd.Some? ==> cursor == MovedCursor(old(cursor), cmd.value)) &&
        (cmd.None? ==> cursor == old(cursor))
    {
      var (col, row) := Cursors.Pos(cursor);
      var (newContent, end) := insert(content, (row, col), text);
      content := newContent;
      var (newRow, newCol) := end;
      QueueMoveAndScroll(click(content, (newCol, newRow)));
    }

    /**
      `delete_char`: deletes from the cursor to where `move_right` would go;
      when the cursor cannot move right, nothing changes.
    */
    method DeleteChar(
      moveRight: NavigationCommand,
      delete: (Content.EditorContent, Content.PosInDocument, Content.PosInDocument) -> Content.EditorContent)
      modifies this
      ensures moveRight.None? ==> content == old(content)
      ensures moveRight.Some? ==>
        content == delete(old(content), (cursor.row, cursor.col), (moveRight.value.row, moveRight.value.col))
      ensures cursor == old(cursor) && viewport == old(viewport)
    {
      if moveRight.Some? {
        var MoveCursorTo(rightCol, rightRow, _) := moveRight.value;
        var (leftCol, leftRow) := Cursors.Pos(cursor);
        content := delete(content, (leftRow, leftCol), (rightRow, rightCol));
      }
    }

    /**
      `backspace`: at the start of the document nothing happens; otherwise
      the cursor moves left, with the scroll of `move_and_scroll` as written,
      and the character after it is deleted.
      `moveRightFrom` is `move_right` from the moved cursor.
    */
    method Backspace(
      moveLeft: NavigationCommand,
      moveRightFrom: Cursors.Cursor -> NavigationCommand,
      delete: (Content.EditorContent, Content.PosInDocument, Content.PosInDocument) -> Content.EditorContent)
      modifies this
      ensures Cursors.IsAt(old(cursor), 0, 0) ==>
        cursor == old(cursor) && viewport == old(viewport) && content == old(content)
      ensures !Cursors.IsAt(old(cursor), 0, 0) ==>
        cursor == (if moveLeft.Some? then MovedCursor(old(cursor), moveLeft.value) else old(cursor)) &&
        viewport == ViewportAfter(old(viewport), MoveAndScrollAsWritten(old(ScrollState()), old(cursor), moveLeft))
      ensures !Cursors.IsAt(old(cursor), 0, 0) && moveRightFrom(cursor).None? ==> content == old(content)
      ensures !Cursors.IsAt(old(cursor), 0, 0) && moveRightFrom(cursor).Some? ==>
        content == delete(old(content), (cursor.row, cursor.col),
          (moveRightFrom(cursor).value.row, moveRightFrom(cursor).value.col))
    {
      if Cursors.IsAt(cursor, 0, 0) {
        return;
      }
      QueueMoveAndScroll(moveLeft);
      DeleteChar(moveRightFrom(cursor), delete);
    }
  }
}
