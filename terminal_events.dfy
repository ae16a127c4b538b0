/**
  src/terminal/events.rs: the events the input decoder produces. Mouse
  coordinates are the terminal's 16-bit cells.
*/
module TerminalEvents {
  import opened Common

  datatype Key =
    | Char(c: char)
    | Esc
    | Tab
    | Backspace
    | Insert
    | Delete
    | Up
    | Down
    | Right
    | Left
    | Home
    | End
    | PageUp
    | PageDown

  datatype MouseButton = LeftButton | MiddleButton | RightButton

  datatype MouseEvent = Press | Drag | Release

  datatype Mouse =
    | Button(button: MouseButton, action: MouseEvent, column: u16, row: u16)
    | WheelUp(column: u16, row: u16)
    | WheelDown(column: u16, row: u16)

  datatype Event =
    | Key(key: Key)
    | Mouse(mouse: Mouse)
    | Paste(text: string)
}
