/**
  The event type that src/editor/events.rs and src/editor/mod.rs import: a
  key with its modifier bits (this revision also has `Enter`), a mouse
  event as in src/terminal/events.rs, or a paste. The modifier constants
  follow the bit layout of the xterm modifier parameter: bit 0 shift,
  bit 1 alt, bit 2 control.
*/
module KeyEvents {
  import TerminalEvents

  const SHIFT: nat := 1
  const ALT: nat := 2
  const CTRL: nat := 4

  datatype KeyCode =
    | Char(c: char)
    | Enter
    | Esc
    | Tab
    | Backspace
    | Insert
    | Delete
    | Up
    | Down
    | Right
    | Left
    | Home
    | End
    | PageUp
    | PageDown

  datatype Event =
    | Key(code: KeyCode, modifiers: nat)
    | Mouse(mouse: TerminalEvents.Mouse)
    | Paste(text: string)

  /** A press of the left mouse button, the one mouse event that moves the cursor. */
  predicate IsLeftPress(e: Event)
  {
    e.Mouse? && e.mouse.Button? && e.mouse.button == TerminalEvents.LeftButton &&
    e.mouse.action == TerminalEvents.Press
  }

  /** `Key(Up, CTRL) | Mouse(WheelUp(..))`: the events that scroll up. */
  predicate IsScrollUp(e: Event)
  {
    e == Key(Up, CTRL) || (e.Mouse? && e.mouse.WheelUp?)
  }

  /** `Key(Down, CTRL) | Mouse(WheelDown(..))`: the events that scroll down. */
  predicate IsScrollDown(e: Event)
  {
    e == Key(Down, CTRL) || (e.Mouse? && e.mouse.WheelDown?)
  }
}
