/** src/terminal/commands.rs: the abstract terminal output commands the renderer emits. */
module Commands {
  import opened Common

  type u8 = x: int | 0 <= x < 0x100

  datatype Command =
    | Clear
    | ClearLine
    | ClearToEndOfLine
    | Print(text: string)
    | SetBackgroundColor(color: u8)
    | MoveTo(column: u16, row: u16)
    | MoveUp(n: u16)
    | MoveLeft(n: u16)
    | MoveRight(n: u16)
    | MoveDown(n: u16)
    | HideCursor
    | ShowCursor
    | EnterAlternateScreen
    | LeaveAlternateScreen
    | EnableMouseCapture
    | DisableMouseCapture
    | EnableBracketedPaste
    | DisableBracketedPaste
    | SetWindowTitle(title: string)
}
