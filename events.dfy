/**
  src/editor/events.rs: which cursor and scroll command an input event asks
  for. The cursor moves belong to a cursor revision that is not part of this
  model; they arrive already applied to the content, as `CursorMoves`.
*/
module Events {
  import opened Common
  import opened KeyEvents
  import opened MoveCommands
  import Viewports
  import Content

  /** The results of the cursor's `move_*` methods on the current content. */
  datatype CursorMoves = CursorMoves(
    lineStart: NavigationCommand,
    lineEnd: NavigationCommand,
    up: nat -> NavigationCommand,
    down: nat -> NavigationCommand,
    right: NavigationCommand,
    left: NavigationCommand,
    documentStart: NavigationCommand,
    documentEnd: NavigationCommand,
    moveTo: Viewports.PosInDocument -> NavigationCommand)

  /** The pattern `0 | SHIFT`. */
  predicate Plain(modifiers: nat)
  {
    modifiers == 0 || modifiers == SHIFT
  }

  /** Page moves go `height - 1` rows, which needs `height >= 1`; a click converts through `to_absolute`. */
  predicate CursorCommandDefined(event: Event, viewport: Viewports.Viewport)
    reads viewport
  {
    (event.Key? && Plain(event.modifiers) && (event.code == PageUp || event.code == PageDown) ==>
      viewport.height >= 1) &&
    (IsLeftPress(event) ==>
      event.mouse.row + viewport.top >= 1 && event.mouse.column + viewport.left >= 1)
  }

  /**
    `cursor_command`: the command for the event and whether it selects. Plain
    or shifted Home, End, the arrows and the page keys move; control Home and
    End go to the ends of the document; a left-button press moves to the
    clicked cell; nothing else moves. A move selects when it came from a key
    with exactly SHIFT held.
  */
  function CursorCommand(event: Event, viewport: Viewports.Viewport, moves: CursorMoves): (r: (NavigationCommand, bool))
    reads viewport
    requires CursorCommandDefined(event, viewport)
    ensures event.Key? && Plain(event.modifiers) ==>
      (event.code == Home ==> r.0 == moves.lineStart) &&
      (event.code == End ==> r.0 == moves.lineEnd) &&
      (event.code == Up ==> r.0 == moves.up(1)) &&
      (event.code == Down ==> r.0 == moves.down(1)) &&
      (event.code == Right ==> r.0 == moves.right) &&
      (event.code == Left ==> r.0 == moves.left) &&
      (event.code == PageDown ==> r.0 == moves.down(viewport.height - 1)) &&
      (event.code == PageUp ==> r.0 == moves.up(viewport.height - 1))
    ensures event == Key(Home, CTRL) ==> r.0 == moves.documentStart
    ensures event == Key(End, CTRL) ==> r.0 == moves.documentEnd
    ensures IsLeftPress(event) ==>
      r.0 == moves.moveTo(viewport.ToAbsolute((event.mouse.row, event.mouse.column)))
    ensures event.Key? && !Plain(event.modifiers) && event.modifiers != CTRL ==> r.0.None?
    ensures event.Key? && event.modifiers == CTRL && event.code != Home && event.code != End ==> r.0.None?
    ensures event.Key? && event.code in {Enter, Esc, Tab, Backspace, Insert, Delete} ==> r.0.None?
    ensures event.Key? && event.code.Char? ==> r.0.None?
    ensures event.Paste? || (event.Mouse? && !IsLeftPress(event)) ==> r.0.None?
    ensures r.1 <==> event.Key? && event.modifiers == SHIFT && r.0.Some?
  {
    var command :=
      match event
      case Key(key, modifiers) =>
        if Plain(modifiers) then
          match key
          case Home => moves.lineStart
          case End => moves.lineEnd
          case Up => moves.up(1)
          case Down => moves.down(1)
          case Right => moves.right
          case Left => moves.left
          case PageDown => moves.down(viewport.height - 1)
          case PageUp => moves.up(viewport.height - 1)
          case _ => None
        else if modifiers == CTRL then
          match key
          case Home => moves.documentStart
          case End => moves.documentEnd
          case _ => None
        else None
      case Mouse(m) =>
        if IsLeftPress(event) then moves.moveTo(viewport.ToAbsolute((m.row, m.column))) else None
      case Paste(_) => None;
    var isSelection := event.Key? && event.modifiers == SHIFT && command.Some?;
    (command, isSelection)
  }

  /** Shift changes only whether the move selects: a shifted key moves exactly as the plain one. */
  lemma ShiftMovesLikePlain(code: KeyCode, viewport: Viewports.Viewport, moves: CursorMoves)
    requires CursorCommandDefined(Key(code, 0), viewport)
    ensures CursorCommandDefined(Key(code, SHIFT), viewport)
    ensures CursorCommand(Key(code, SHIFT), viewport, moves).0 == CursorCommand(Key(code, 0), viewport, moves).0
    ensures CursorCommand(Key(code, SHIFT), viewport, moves).1 == CursorCommand(Key(code, 0), viewport, moves).0.Some?
    ensures !CursorCommand(Key(code, 0), viewport, moves).1
  {
  }

  /** The scroll events need the top row inside the content before scrolling down. */
  predicate ScrollCommandDefined(event: Event, viewport: Viewports.Viewport, content: Content.EditorContent)
    reads viewport
  {
    IsScrollDown(event) ==> |content.lines| >= 1 && viewport.top <= Content.LastLineRow(content)
  }

  /** `scroll_command`: control-Up and the wheel up scroll one row up, control-Down and the wheel down one row down. */
  function ScrollCommand(event: Event, viewport: Viewports.Viewport, content: Content.EditorContent): (r: Viewports.ScrollCommand)
    reads viewport
    requires ScrollCommandDefined(event, viewport, content)
    ensures IsScrollUp(event) ==> r == viewport.ScrollUp(1)
    ensures IsScrollDown(event) ==> r == viewport.ScrollDown(1, Content.LastLineRow(content))
    ensures !IsScrollUp(event) && !IsScrollDown(event) ==> r.None?
  {
    if IsScrollUp(event) then viewport.ScrollUp(1)
    else if IsScrollDown(event) then viewport.ScrollDown(1, Content.LastLineRow(content))
    else None
  }

  /**
    A scroll event moves the top by at most one row, keeps the left column
    and keeps the top inside the content; it never also moves the cursor.
  */
  lemma ScrollEventsScrollOnly(event: Event, viewport: Viewports.Viewport, content: Content.EditorContent, moves: CursorMoves)
    requires ScrollCommandDefined(event, viewport, content) && CursorCommandDefined(event, viewport)
    ensures var p := viewport.PosAfter(ScrollCommand(event, viewport, content));
      p.1 == viewport.left && viewport.top - 1 <= p.0 <= viewport.top + 1
    ensures IsScrollDown(event) ==> viewport.PosAfter(ScrollCommand(event, viewport, content)).0 <= Content.LastLineRow(content)
    ensures ScrollCommand(event, viewport, content).Some? ==> CursorCommand(event, viewport, moves).0.None?
  {
  }
}
