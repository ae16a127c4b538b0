# picow core in Dafny

A model of the core of picow, a small terminal text editor written in Rust,
with proofs about it. The model covers:
- the document as lines plus a detected line delimiter (CRLF, then LF, then
  CR, by default LF);
- edits as values (`EditOp`), with an exact inverse and the in-place splice
  that applies them, so that undo round-trips;
- the older character-at-a-time editing;
- the cursor, navigation commands, the viewport and scrolling;
- the mapping from input events to cursor and scroll commands, and the
  editor's queue of those commands;
- rendering as a list of abstract terminal commands;
- the decoder of terminal input (keys, CSI sequences, bracketed paste) and
  the reassembly of a paste across reads.

The source files come from several revisions of the program, and their state
shapes disagree. Each file is therefore modelled as its own module over the
state that file assumes:
- `state.rs`, `navigation.rs` and `scroll.rs` use `(x, y) = (col, row)`;
- `content.rs`, `edit.rs` and `viewport.rs` use `(row, col)`;
- `Cursor::pos()` returns `(col, row)`, but the renderer binds the result of
  `cursor.pos()` as `(row, col)`, and the model follows each file as written.

Where the source is evidently wrong (see "## Findings"), the operations
keep the behaviour as written: the editor's `insert` and `backspace` scroll
by `move_and_scroll` as written, and `render_row` prints `visible_row_part`
as written, whose slicing panics are preconditions. The corrected
definitions stand beside them with their properties proved.

Rust `usize` subtractions that would underflow become preconditions, and
`as u16` casts are written out as `AsU16` (`% 0x1_0000`). Strings are
`seq<char>` with one index per position.

Modules, one per source file:
- `Pos`, `TupleOps`, `Rows`, `LineSplit`, `Content`, `File`: text primitives;
- `Edit`, `Editing`: the edit engine;
- `Cursors`, `State`, `Navigation`, `Scroll`, `Viewports`: cursor and viewport;
- `Events`, `Editor`: event dispatch;
- `Renderer`: drawing;
- `AnsiIn`, `TerminalReader`: the input decoder.

Shared helpers:
- `Common`: `Option`, `u16`, the per-axis scroll rule;
- `Strings`: Rust's `contains`, `find`, `split` and `join` on `seq<char>`;
- `TerminalEvents`, `KeyEvents`, `Commands`, `MoveCommands`: the event,
  command and move types.

## Model

| member | source | states |
|---|---|---|
| Pos.IsBefore | src/editor/pos.rs:8-10 | strictly earlier in reading order: an earlier row, or the same row and an earlier column |
| Pos.Irreflexive | src/editor/pos.rs:8-10 | no position is before itself |
| Pos.Trichotomy | src/editor/pos.rs:8-10 | for distinct positions exactly one is before the other; equal ones are not before each other |
| Pos.Transitive | src/editor/pos.rs:8-10 | `is_before` is transitive |
| TupleOps.Make | src/editor/tuple_ops.rs:6 | `t(a, b)` holds `a` and `b` |
| TupleOps.Add | src/editor/tuple_ops.rs:8-17 | the sum minus the second operand is the first, per component |
| TupleOps.Sub | src/editor/tuple_ops.rs:19-28 | the difference is at most the first operand; it is the ordinary difference when the subtrahend is smaller, and 0 when it is larger |
| TupleOps.AddSubCancel | src/editor/tuple_ops.rs:8-28 | `(a + b) - b == a` for all pairs |
| TupleOps.AddExample | src/editor/tuple_ops.rs:36-38 | `t(1,2) + t(3,4) == t(4,6)` |
| TupleOps.SubExamples | src/editor/tuple_ops.rs:41-44 | `t(1,2) - t(3,4) == t(0,0)` and `t(3,4) - t(1,2) == t(2,2)` |
| Rows.Len | src/editor/row.rs:15-17 | the number of the row's characters |
| Rows.New | src/editor/row.rs:11-17 | a new row holds exactly the text, and its length is the text's |
| Rows.SplitAt | src/editor/row.rs:19-22 | the halves have lengths `at` and the rest, and together are the row |
| Rows.Concat | src/editor/row.rs:24-28 | the result holds the first row's text and then the second's, and its length is the sum |
| Rows.Slice | src/editor/row.rs:31-37 | `r[a..b]` has length `b - a`, and its characters are those of the row from `a` |
| Rows.SliceFrom | src/editor/row.rs:39-45 | `r[a..]` is `r[a..len]` |
| Rows.SliceTo | src/editor/row.rs:47-53 | `r[..b]` is `r[0..b]` |
| Rows.SliceFull | src/editor/row.rs:55-61 | `r[..]` is `r[0..len]` |
| Rows.SplitConcat | src/editor/row.rs:19-28 | joining the halves of `split_at` restores the row |
| Rows.SlicesAreHalves | src/editor/row.rs:19-53 | the halves of `split_at(at)` are `r[..at]` and `r[at..]` |
| LineSplit.DetectLineDelimiter | src/editor/split.rs:12-17 | the delimiter is one of CRLF, LF, CR |
| LineSplit.Split | src/editor/split.rs:6-10 | the delimiter is the detected one; there is at least one line; the lines joined with the delimiter are the text; no line holds the delimiter |
| LineSplit.DelimiterPrecedence | src/editor/split.rs:12-17 | CRLF if the text holds CRLF; else LF if it holds LF; else CR if it holds CR; else LF |
| LineSplit.CrlfBeatsLoneBreaks | src/editor/split.rs:13 | a text with lone LF and CR and one CRLF has delimiter CRLF |
| LineSplit.SplitLinesOf | src/editor/split.rs:8 | lines without the delimiter, joined and split again, come back |
| LineSplit.LfWithoutCr | src/editor/split.rs:14 | a text with `\n` and no `\r` has delimiter LF |
| LineSplit.CrWithoutLf | src/editor/split.rs:15 | a text with `\r` and no `\n` has delimiter CR |
| LineSplit.TwoTerminatedLines | src/editor/split.rs:25-47 | two lines each terminated by the delimiter split into those lines and a final empty one |
| Content.New | src/editor/content.rs:13-15 | the content holds the given lines and delimiter |
| Content.Parse | src/editor/content.rs:17-51 | the lines and delimiter are those of `split`; there is at least one line; the lines joined give the text back; no line holds the delimiter |
| Content.LineEnd | src/editor/content.rs:22-24 | `(row, line_len(row))` |
| Content.LastLineRow | src/editor/content.rs:34-36 | the index of the last line, for non-empty content |
| Content.LastLineEnd | src/editor/content.rs:30-32 | `line_end(last_line_row())`: the last row and its length |
| Content.ParseDelimiter | src/editor/content.rs:46-51 | the parsed delimiter is CRLF / LF / CR exactly when the text's contents call for it by the precedence rule |
| Content.ParsedHasEnd | src/editor/content.rs:17-36 | parsed content has a last line, so `last_line_row` and `last_line_end` are defined |
| Content.ParseTwoTerminatedLines | src/editor/content.rs:59-81 | two terminated lines parse into those lines and a final empty one, with that delimiter |
| File.ReadFile | src/file.rs:5-8 | the lines are the text split on the detected delimiter, at least one, and they give the text back |
| File.DetectedDelimiter | src/file.rs:15-27 | `"\r\n"` if present, else `"\n"` if present, else `"\r"` if present, else `"\n"` |
| File.LinesRoundTrip | src/file.rs:5-8 | the lines joined with the delimiter are the file text, and no line holds the delimiter |
| Edit.InverseKind | src/editor/edit.rs:66-73 | the inverse kind differs from the kind |
| Edit.New | src/editor/edit.rs:19-21 | the op holds the given kind, position and lines |
| Edit.LinesToInsert | src/editor/edit.rs:35-37 | the lines of `split(s)`, at least one, joining back to `s` |
| Edit.InsertOp | src/editor/edit.rs:23-25 | an Insert at `from` of the lines of `s` |
| Edit.Inverse | src/editor/edit.rs:31-33 | the other kind, with the same position and lines |
| Edit.LinesToDelete | src/editor/edit.rs:39-52 | one line per row of the range: the slice within a row; else the first row's suffix, the whole rows between and the last row's prefix |
| Edit.CollectLinesToDelete | src/editor/edit.rs:39-52 | the loop pushing each row's part collects `LinesToDelete` |
| Edit.DeleteOp | src/editor/edit.rs:27-29 | a Delete at `from` holding the text of the range |
| Edit.To | src/editor/edit.rs:54-63 | the end of the op's text: `from_col + len` on one line, else the last line's length on row `from_row + n - 1` |
| Edit.Spliced | src/editor/edit.rs:81-88 | the new rows: `pre + lines[0]`, the middle lines, `lines[n-1] + post` |
| Edit.Apply | src/editor/edit.rs:76-95 | earlier rows kept; an insert grows the rows by `n - 1` and keeps the later ones; a delete replaces rows `from_row..=to_row` by the joined prefix and suffix |
| Edit.Document.constructor | src/editor/content.rs:13-15 | the document holds the given lines and delimiter |
| Edit.Process | src/editor/edit.rs:76-95 | splicing in place leaves `Apply` of the old lines, delimiter unchanged |
| Edit.DeleteTo | src/editor/edit.rs:39-63 | the end of a delete op is the end of its range |
| Edit.DeleteApplicable | src/editor/edit.rs:27-95 | a delete op of a valid range can be processed |
| Edit.InverseInvolution | src/editor/edit.rs:31-73 | `inverse(inverse(op)) == op` |
| Edit.DeleteThenInverse | src/editor/edit.rs:27-95 | deleting a range and processing the inverse restores the lines |
| Edit.SplicedRestores | src/editor/edit.rs:39-88 | splicing the deleted text between its prefix and suffix gives back the rows of the range |
| Edit.InsertThenInverse | src/editor/edit.rs:23-95 | inserting and processing the inverse restores the lines |
| Edit.InsertInverseIsDelete | src/editor/edit.rs:27-63 | the inverse of an insert is the delete of the range it inserted |
| Edit.InsertText | src/editor/edit.rs:81-88 | the text after an insert is the text before with the inserted text at `from` |
| Edit.SplicedText | src/editor/edit.rs:81-88 | joining spliced rows joins prefix, inserted text and suffix |
| Edit.SplicedTextOne | src/editor/edit.rs:81-88 | the one-line case of the above |
| Edit.SplicedTextMany | src/editor/edit.rs:81-88 | the many-line case of the above |
| Edit.DeleteText | src/editor/edit.rs:39-94 | the text is prefix, deleted text and suffix, and after the delete it is prefix and suffix |
| Edit.ToSingleLine | src/editor/edit.rs:105-108 | `(12,14)` + `"line"` ends at `(12,18)` |
| Edit.ToMultiLine | src/editor/edit.rs:111-114 | `(12,14)` + `["line 1","line 23"]` ends at `(13,7)` |
| Edit.InsertTwoLines | src/editor/edit.rs:117-122 | inserting `a\nb` records the lines `[a, b]` |
| Edit.DeleteOpExamples | src/editor/edit.rs:124-183 | the delete ops of the source's tests hold the texts they expect |
| Edit.ProcessInsertExamples | src/editor/edit.rs:185-218 | the insert results of the source's tests |
| Edit.DeleteWithinRowExample | src/editor/edit.rs:221-228 | deleting columns 3 to 5 of `Hello` leaves `Hel` |
| Edit.DeleteLineBreakExample | src/editor/edit.rs:231-237 | deleting the line break joins `Hello` and `World` |
| Edit.DeleteAcrossRowsExample | src/editor/edit.rs:240-246 | deleting from `(0, 2)` to `(2, 8)` of three rows leaves `Heyou?` |
| Editing.Line | src/editor/editing.rs:23-25 | row `y` of the lines |
| Editing.InsertCharSpec | src/editor/editing.rs:4-12 | a newline splits row `y` at `x` into two rows; another character goes into row `y` at `x`; other rows stay, shifted by one after a split |
| Editing.DeleteCharSpec | src/editor/editing.rs:14-21 | inside the row the character at `x` goes; at the end the next row is joined on and the count drops by one; at the end of the last row nothing changes |
| Editing.InsertChar | src/editor/editing.rs:4-12 | the lines become `InsertCharSpec` of the old ones; nothing else changes |
| Editing.DeleteChar | src/editor/editing.rs:14-21 | the lines become `DeleteCharSpec` of the old ones; nothing else changes |
| Editing.InsertThenDelete | src/editor/editing.rs:4-21 | deleting where a character was inserted restores the lines, newline or not |
| Editing.InsertCharIsEdit | src/editor/editing.rs:4-12 | `insert_char` is `process` of the insert of that character |
| Editing.DeleteCharIsEdit | src/editor/editing.rs:14-21 | `delete_char` within the text is `process` of the delete of one position |
| Cursors.New | src/editor/cursor.rs:12-15 | the cursor is at `(row, col)`, not moved vertically, with `last_col` 0 |
| Cursors.Pos | src/editor/cursor.rs:17-19 | `(col, row)`, in that order |
| Cursors.IsAtPos | src/editor/cursor.rs:17-23 | `is_at(row, col)` holds iff `pos() == (col, row)` |
| Cursors.IsAt | src/editor/cursor.rs:21-23 | the cursor's row and column are the given ones |
| Cursors.NewIsAt | src/editor/cursor.rs:12-23 | a new cursor is at its own place and nowhere else |
| State.NewViewport | src/editor/state.rs:21-23 | the viewport holds the given origin and size |
| State.Pos | src/editor/state.rs:25 | `(left, top)` |
| State.Size | src/editor/state.rs:26 | `(width, height)` |
| State.CursorWithin | src/editor/state.rs:28-31 | `x` in `[left, left + width)` and `y` in `[top, top + height)` |
| State.ToRelative | src/editor/state.rs:33-35 | `(x - left + 1, y - top + 1)` when it fits 16 bits |
| State.ToAbsolute | src/editor/state.rs:37-39 | `(x + left - 1, y + top - 1)` |
| State.AbsoluteOfRelative | src/editor/state.rs:33-39 | `to_absolute(to_relative(p)) == p` for `p` at or after the origin, within 16 bits |
| State.VisibleRoundTrip | src/editor/state.rs:28-39 | a position inside the viewport goes to a screen cell from `(1,1)` and back |
| State.RelativeOfAbsolute | src/editor/state.rs:33-39 | `to_relative(to_absolute(q)) == q` for cells from `(1,1)` |
| State.StartOrKeep | src/editor/state.rs:67-72 | starts with `last_x` the given column when not in progress; otherwise unchanged |
| State.StartOrKeepIdempotent | src/editor/state.rs:67-72 | starting twice is starting once |
| State.EditorState.constructor | src/editor/state.rs:49-52 | holds the lines, viewport and cursor; navigation not in progress, `last_x` 0 |
| State.EditorState.ScrollViewport | src/editor/state.rs:54-57 | sets only `left` and `top` |
| State.EditorState.ResizeViewport | src/editor/state.rs:59-62 | sets `width` and `height - 1`, needing `height >= 1`; nothing else changes |
| State.EditorState.CursorX | src/editor/state.rs:64 | the cursor's `x` |
| State.EditorState.CursorY | src/editor/state.rs:65 | the cursor's `y` |
| State.EditorState.StartOrKeepVerticalNavigation | src/editor/state.rs:67-72 | the navigation becomes `StartOrKeep` of the old one with the cursor's `x`; nothing else changes |
| State.EditorState.EndVerticalNavigation | src/editor/state.rs:74-76 | ends the navigation and keeps `last_x` |
| State.EditorState.VerticalNavigationX | src/editor/state.rs:78-80 | `last_x` |
| State.RunRemembersFirstColumn | src/editor/state.rs:67-72 | during a run of vertical moves the remembered column is the one where the run began |
| Navigation.LastLineY | src/editor/navigation.rs:135-137 | the index of the last line |
| Navigation.LineEnd | src/editor/navigation.rs:123-125 | `(line_len(y), y)` |
| Navigation.LastLineEnd | src/editor/navigation.rs:131-133 | the end of the last line |
| Navigation.WithinText | src/editor/navigation.rs:34-38 | the row clamped to the last line, then the column (through `vertical_nav.x`) clamped to that row's length; the result is in the text |
| Navigation.ScrollIntoView | src/editor/navigation.rs:40-51 | per axis the origin stays if the position is visible, and the position is visible afterwards for non-zero sizes |
| Navigation.ToRelative | src/editor/navigation.rs:53-55 | `(x - left + 1, y - top + 1)` when it fits 16 bits |
| Navigation.ToAbsolute | src/editor/navigation.rs:57-59 | `(x + left - 1, y + top - 1)` |
| Navigation.AbsoluteOfRelative | src/editor/navigation.rs:53-59 | `to_absolute(to_relative(p, s), s) == p` for `p >= s` |
| Navigation.MoveCmd | src/editor/navigation.rs:61-63 | `NoMove` iff the target is the cursor's position, else a move there |
| Navigation.ScrollCmd | src/editor/navigation.rs:65-67 | `NoScroll` iff the target is the scroll position, else a scroll there |
| Navigation.MoveToPos | src/editor/navigation.rs:27-33 | the cursor goes to the position clamped into the text, and the view scrolls so that it is visible |
| Navigation.Click | src/editor/navigation.rs:69-71 | a move to the absolute position of the cell |
| Navigation.MoveVertical | src/editor/navigation.rs:81-87 | a move to the same column on the row the function chooses |
| Navigation.MoveUp | src/editor/navigation.rs:73-75 | the whole command is `MoveToPos` of `(x, y - min(n, y))`: the cursor goes to that row at the remembered column clamped to the row's length, and the view scrolls to show it |
| Navigation.MoveDown | src/editor/navigation.rs:77-79 | the whole command is `MoveToPos` of `(x, y + min(n, last - y))`, never past the last line: the cursor goes to that row at the remembered column clamped to the row's length, and the view scrolls to show it |
| Navigation.MoveLineStart | src/editor/navigation.rs:107-109 | a move to column 0 of the row |
| Navigation.MoveLineEnd | src/editor/navigation.rs:111-113 | a move to the row's end |
| Navigation.MoveDocumentStart | src/editor/navigation.rs:115-117 | the whole command is `MoveToPos` of `(0, 0)`, cursor and scroll; the cursor lands on row 0 |
| Navigation.MoveDocumentEnd | src/editor/navigation.rs:119-121 | a move to the end of the last row, `last_line_end()` |
| Navigation.ScrollToPos | src/editor/navigation.rs:139-142 | keeps the column, clamps the top to the last line, never moves the cursor |
| Navigation.ScrollVertical | src/editor/navigation.rs:152-158 | a scroll to the row the function chooses |
| Navigation.ScrollUp | src/editor/navigation.rs:144-146 | the top goes up `min(n, top)` rows; the cursor stays |
| Navigation.ScrollDown | src/editor/navigation.rs:148-150 | the top goes down at most to the last line; the cursor stays |
| Navigation.MoveLeft | src/editor/navigation.rs:89-96 | a move to `(0,0)` at `(0,0)`, to the end of the row above at column 0, else one column left |
| Navigation.MoveRight | src/editor/navigation.rs:98-105 | a move one column right inside a row, to the start of the next row at a row end, else to the cursor's own position |
| Navigation.MoveLeftAtStart | src/editor/navigation.rs:89-96 | at `(0,0)` no move |
| Navigation.MoveLeftWraps | src/editor/navigation.rs:89-96 | at column 0 of a later row, a move to the end of the row above |
| Navigation.MoveLeftInRow | src/editor/navigation.rs:89-96 | otherwise a move one column left |
| Navigation.MoveRightInRow | src/editor/navigation.rs:98-105 | within the row a move one column right |
| Navigation.MoveRightWraps | src/editor/navigation.rs:98-105 | at the end of a non-last row a move to the start of the next |
| Navigation.MoveRightAtEnd | src/editor/navigation.rs:98-105 | at the end of the document no move |
| Navigation.MoveRightThenLeft | src/editor/navigation.rs:89-105 | moving left after a move right returns to where the cursor was |
| Navigation.ScrollUpAtTop | src/editor/navigation.rs:144-146 | at the top nothing scrolls |
| Navigation.ScrollDownAtLast | src/editor/navigation.rs:148-150 | at the last line nothing scrolls |
| Scroll.ScrollCmd | src/editor/scroll.rs:29-31 | `None` iff the origin is unchanged; the origin afterwards is the target |
| Scroll.ScrollIntoView | src/editor/scroll.rs:12-22 | per axis, `x` against `(left, width)` and `y` against `(top, height)`: no scroll when visible, and visible afterwards for non-zero sizes |
| Scroll.ScrollTo | src/editor/scroll.rs:24-27 | keeps `left` and clamps `top` to the last line |
| Scroll.ScrollVertical | src/editor/scroll.rs:41-47 | a scroll to the top the function chooses, left kept |
| Scroll.ScrollUp | src/editor/scroll.rs:33-35 | top `- min(n, top)`, left kept; `None` at the top |
| Scroll.ScrollDown | src/editor/scroll.rs:37-39 | never past `last_line_row`; `None` when already there |
| Scroll.ScrollUpThenDown | src/editor/scroll.rs:33-47 | for `n <= top <= last`, scrolling up `n` and then down `n` restores the origin |
| Viewports.Viewport.constructor | src/editor/viewport.rs:19-21 | holds the given origin and size |
| Viewports.Viewport.CursorWithin | src/editor/viewport.rs:26-29 | the first component in `[left, left + width)`, the second in `[top, top + height)`, as the source pairs them |
| Viewports.Viewport.Pos | src/editor/viewport.rs:23 | `(top, left)` |
| Viewports.Viewport.Size | src/editor/viewport.rs:24 | `(width, height)` |
| Viewports.Viewport.Scroll | src/editor/viewport.rs:31-34 | sets `top` and `left`, size unchanged |
| Viewports.Viewport.Resize | src/editor/viewport.rs:36-39 | sets `width` and `height - 1`, needing `height >= 1`, origin unchanged |
| Viewports.Viewport.ToRelative | src/editor/viewport.rs:41-43 | `(x - left + 1, y - top + 1)`, first component against `left` |
| Viewports.Viewport.ToAbsolute | src/editor/viewport.rs:45-47 | `(row + top - 1, col + left - 1)`, first component against `top` |
| Viewports.Viewport.ScrollCmd | src/editor/viewport.rs:69-71 | `None` iff the new `(top, left)` is the current one |
| Viewports.Viewport.ScrollIntoView | src/editor/viewport.rs:49-57 | `None` when visible; afterwards row in `[top', top'+height)` and column in `[left', left'+width)` for non-zero sizes |
| Viewports.Viewport.ScrollUp | src/editor/viewport.rs:59-62 | top `- min(n, top)`, left kept; `None` at the top |
| Viewports.Viewport.ScrollDown | src/editor/viewport.rs:64-67 | top `+ min(n, last - top)`, never past `last`; `None` at `last` |
| Viewports.RelativeAbsoluteMismatch | src/editor/viewport.rs:41-47 | `to_absolute(to_relative(p))` swaps the roles of `left` and `top`, and gives `p` back iff `left == top` |
| Events.CursorCommand | src/editor/events.rs:7-36 | Home/End/Up/Down/Right/Left/PageDown/PageUp with no modifier or SHIFT map to their moves (pages by `height - 1`); Ctrl+Home/End to the document ends; a left press to `move_to(to_absolute((row, column)))`; everything else to none; the selection flag holds iff the key had exactly SHIFT and a command resulted |
| Events.ShiftMovesLikePlain | src/editor/events.rs:12-33 | SHIFT gives the same command as no modifier, flagged as a selection |
| Events.ScrollCommand | src/editor/events.rs:38-46 | Ctrl+Up or wheel up scroll up 1; Ctrl+Down or wheel down scroll down 1 to the last line; otherwise none |
| Events.ScrollEventsScrollOnly | src/editor/events.rs:7-46 | a scroll event keeps the top within the content and asks for no cursor move |
| Editor.CursorCommandOf | src/editor/mod.rs:46-65 | one clause per arm: plain Home, End, Up, Down, Right, Left, PageDown and PageUp give line start, line end, up 1, down 1, right, left, page down and page up; Ctrl+Home and Ctrl+End give document start and end; other plain keys, other Ctrl keys, other modifiers, pastes and non-left mouse events give none; a left press gives a click at `to_absolute((column, row))` |
| Editor.ScrollCommandOf | src/editor/mod.rs:67-75 | with a cursor command, scroll its target into view; otherwise Ctrl+Up/wheel up and Ctrl+Down/wheel down scroll by 1; otherwise none |
| Editor.Dispatch | src/editor/mod.rs:42-77 | Esc with no modifier ends the loop; any other event queues the scroll and cursor commands above |
| Editor.DispatchShowsTarget | src/editor/mod.rs:46-77 | after a queued move the target is inside the scrolled viewport |
| Editor.EditOf | src/editor/mod.rs:79-89 | a character or Enter inserts, Backspace deletes before, Delete deletes after, a paste inserts its text, mouse events edit nothing |
| Editor.ViewportAfter | src/editor/mod.rs:98-101 | a scroll sets `left` and `top` and keeps the size; none keeps the viewport |
| Editor.MovedCursor | src/editor/mod.rs:102-110 | the new cursor is at the target with `moved_vertically = is_vertical`; a vertical move keeps the old `last_col` after a vertical move, else takes the old column; a horizontal move takes the new column |
| Editor.VerticalRunRemembersColumn | src/editor/mod.rs:102-110 | after a run of vertical moves the remembered column is the one before the run |
| Editor.HorizontalThenVertical | src/editor/mod.rs:102-110 | after a horizontal move and then vertical ones the remembered column is the horizontal move's |
| Editor.MovedCursorAllCons | src/editor/mod.rs:102-110 | a run of moves is its first move followed by the rest |
| Editor.MoveAndScrollAsWritten | src/editor/mod.rs:143-145 | the new origin is the one-axis scroll rule applied to the cursor's old position: no scroll when the viewport already shows it, and for a non-empty viewport the old position is visible afterwards |
| Editor.MoveAndScrollIgnoresMove | src/editor/mod.rs:143-145 | the scroll as written is the same whatever the move is |
| Editor.MoveAndScrollLosesCursor | src/editor/mod.rs:143-145 | a move one column right of a one-cell viewport leaves the cursor off screen |
| Editor.MoveAndScroll | src/editor/mod.rs:143-145 | the scroll is that for the target of the move, or for the cursor when there is no move |
| Editor.MoveAndScrollShowsCursor | src/editor/mod.rs:143-145 | after the corrected method the cursor is on screen |
| Editor.Editor.constructor | src/editor/mod.rs:26-32 | the state holds the content and viewport, cursor at `(0,0)` |
| Editor.Editor.Queue | src/editor/mod.rs:97-111 | the scroll applies to the viewport, the move to the cursor; a missing part changes nothing |
| Editor.Editor.QueueMoveAndScroll | src/editor/mod.rs:143-145 | queues the move with the scroll that shows the cursor's old position, as written |
| Editor.Editor.MoveAndScrollTo | src/editor/mod.rs:143-145 | queues the corrected scroll with the move |
| Editor.Editor.Insert | src/editor/mod.rs:118-127 | the content is the insert at the cursor; the cursor goes to the click at the insert's end, and the viewport scrolls for the cursor's old position, as `move_and_scroll` is written |
| Editor.Editor.DeleteChar | src/editor/mod.rs:129-135 | with no move right nothing changes; otherwise the content is the delete from the cursor to the right move's target |
| Editor.Editor.Backspace | src/editor/mod.rs:137-141 | at `(0,0)` nothing changes; otherwise the cursor moves left, the viewport scrolls for the cursor's old position, and the character there is deleted |
| Renderer.VisibleRows | src/editor/renderer.rs:41-46 | at most `height` rows, the lines from `top` on |
| Renderer.VisibleRowPartAsWritten | src/editor/renderer.rs:62-85 | a row shorter than `left` gives three empty parts |
| Renderer.VisibleRowPart | src/editor/renderer.rs:62-85 | a row shorter than `left` gives three empty parts; a row outside the selection gives its visible part alone; the three parts make up exactly the visible part, then a space when the selection runs past the row |
| Renderer.VisibleRowPartCovers | src/editor/renderer.rs:62-85 | on a selected row the three parts satisfy `SplitsAt`: they make up the visible columns in order, the selected part without its trailing space is where the visible columns and the selection's columns on the row meet (empty when they do not), and the space is there iff the selection runs past the row |
| Renderer.SelectedRowSplit | src/editor/renderer.rs:73-74 | a selected row is cut at the selection's columns on it: the start column on the selection's first row (0 on later rows), the end column on its last row (the row's length on earlier rows) |
| Renderer.SplitMeets | src/editor/renderer.rs:73-81 | cutting the visible columns at the selection's columns, clamped to them, satisfies `SplitsAt` |
| Renderer.Split | src/editor/renderer.rs:73-81 | the three parts of a cut, joined, are the visible columns followed by the line-break space when there is one |
| Renderer.VisibleRowPartAgreesAtLeftEdge | src/editor/renderer.rs:62-85 | with `left == 0`, a row that fits and selection columns inside it, the source's function and the corrected one agree |
| Renderer.VisibleRowPartAsWrittenPanics | src/editor/renderer.rs:74-77 | with `left == 1`, a row the selection runs through is sliced past its end |
| Renderer.VisibleRowPartAsWrittenOverruns | src/editor/renderer.rs:73-79 | with `left == 0`, a selection running through a row wider than the viewport prints the whole row |
| Renderer.VisibleRowPartAsWrittenShifts | src/editor/renderer.rs:73-79 | with `left == 1`, the selection is drawn one column right of where it is |
| Renderer.UnselectedRowDrawn | src/editor/renderer.rs:62-85 | a row the selection does not reach never panics, and its parts are the corrected ones |
| Renderer.RowCommands | src/editor/renderer.rs:48-60 | exactly `MoveTo(1, 1+i)`, the three prints of `visible_row_part` as written with the selected one on colour 100, `ClearToEndOfLine` |
| Renderer.ClearRow | src/editor/renderer.rs:87-90 | `MoveTo(1, row)`, `ClearLine` |
| Renderer.RowsCommands | src/editor/renderer.rs:32-34 | seven commands per rendered row |
| Renderer.Clears | src/editor/renderer.rs:36-38 | two commands per cleared row |
| Renderer.RowsCommandsSnoc | src/editor/renderer.rs:32-34 | one more drawn row appends exactly its commands |
| Renderer.RenderContent | src/editor/renderer.rs:27-39 | the two loops push the rows' commands, as `render_row` is written, and then the clears |
| Renderer.Rows | src/editor/renderer.rs:36 | the numbers from `lo + 1` to `hi`, in order |
| Renderer.MovedRowsAppend | src/editor/renderer.rs:27-39 | the moves of two command lists are those of each, in order |
| Renderer.MovedRowsNone | src/editor/renderer.rs:52-59 | commands without a `MoveTo` move nowhere |
| Renderer.RowsCommandsMove | src/editor/renderer.rs:32-51 | the rendered rows go to screen rows `1..n` |
| Renderer.RowMove | src/editor/renderer.rs:48-60 | the commands of row `i` move the cursor only to screen row `i + 1` |
| Renderer.ClearsMove | src/editor/renderer.rs:36-38 | the clears go to the screen rows after them, up to `height` |
| Renderer.RowsJoin | src/editor/renderer.rs:32-38 | consecutive runs of screen rows join |
| Renderer.ContentCoversViewport | src/editor/renderer.rs:27-39 | the content commands address screen rows `1..height`, each once and in order, `7` commands per row and `2` per cleared row |
| Renderer.DelimiterLabel | src/editor/renderer.rs:117-126 | CRLF to `"CRLF"`, CR to `"CR"`, LF to `"LF"`, anything else to `"?"` |
| Renderer.ParsedDelimiterLabelled | src/editor/renderer.rs:117-126 | parsed content never shows `"?"` |
| Renderer.StatusBar | src/editor/renderer.rs:92-100 | clears the row after the viewport and prints the status text of size, 1-based cursor, 1-based top and delimiter label |
| Renderer.CursorCommands | src/editor/renderer.rs:106-115 | nothing iff the cursor is outside the viewport; otherwise `MoveTo` with the relative cell of the mono column, then `ShowCursor`, on a row within the width |
| Renderer.Render | src/editor/renderer.rs:7-16 | `HideCursor`, the content as written only when asked, the status bar, the cursor |
| Renderer.RenderShowsCursorLast | src/editor/renderer.rs:7-16 | the cursor is hidden first; it is shown, last, iff the viewport holds it |
| Renderer.NoShowInContent | src/editor/renderer.rs:27-39 | the content commands never show the cursor |
| Renderer.RowsNoShow | src/editor/renderer.rs:48-60 | no row's commands show the cursor |
| Renderer.RowNoShow | src/editor/renderer.rs:48-60 | the commands of one row never show the cursor |
| Renderer.ClearsNoShow | src/editor/renderer.rs:87-90 | no clear shows the cursor |
| AnsiIn.Tag | src/terminal/ansi_in.rs:32-34 | succeeds iff the input starts with the tag, leaving what follows |
| AnsiIn.UnicodeChar | src/terminal/ansi_in.rs:38-40 | succeeds iff the first character is at least `' '`, taking exactly it |
| AnsiIn.SpecialChar | src/terminal/ansi_in.rs:42-48 | Esc only for a lone ESC; otherwise DEL is Backspace and TAB is Tab; one character consumed |
| AnsiIn.SpecialKey | src/terminal/ansi_in.rs:50-63 | one of the ten keys, consuming a proper prefix |
| AnsiIn.BracketedPaste | src/terminal/ansi_in.rs:27-36 | on success the input is start marker, text, end marker, rest, with no earlier end marker; it fails iff the input lacks the start marker or an end marker after it |
| AnsiIn.NoEarlierEnd | src/terminal/ansi_in.rs:33 | the input splits at the first end marker, and the text before it holds no end marker |
| AnsiIn.Parse | src/terminal/ansi_in.rs:12-25 | on success the rest is a proper suffix of the input |
| AnsiIn.PrintableChar | src/terminal/ansi_in.rs:38-40 | a printable character other than DEL is `Key(Char(c))`, consuming one character |
| AnsiIn.BackspaceAndTab | src/terminal/ansi_in.rs:45-46 | DEL is Backspace and TAB is Tab |
| AnsiIn.EscapeOnlyAtEnd | src/terminal/ansi_in.rs:44 | ESC is Esc only at the end of the input |
| AnsiIn.ControlCharFails | src/terminal/ansi_in.rs:38-48 | any other control character fails |
| AnsiIn.CsiParse | src/terminal/ansi_in.rs:12-25 | after `ESC [` (not a paste start) the result is that of `special_key` |
| AnsiIn.ArrowLetters | src/terminal/ansi_in.rs:58-61 | A, B, C, D are Up, Down, Right, Left |
| AnsiIn.HomeEndLetters | src/terminal/ansi_in.rs:54-55 | H and F are Home and End |
| AnsiIn.Letter | src/terminal/ansi_in.rs:50-63 | a letter matches no two-character code and only its own one-letter tags |
| AnsiIn.TildeCodes | src/terminal/ansi_in.rs:52-57 | `2~`, `3~`, `5~`, `6~` are Insert, Delete, PageUp, PageDown |
| AnsiIn.CursorKeys | src/terminal/ansi_in.rs:54-61 | `ESC [` with A/B/C/D/H/F parses to the six keys |
| AnsiIn.LetterSequence | src/terminal/ansi_in.rs:16-18 | a CSI with a letter is no paste, so `special_key` decides |
| AnsiIn.TildeKeys | src/terminal/ansi_in.rs:52-57 | `ESC [` with `2~`/`3~`/`5~`/`6~` parses to the four keys |
| AnsiIn.TildeSequence | src/terminal/ansi_in.rs:16-18 | a CSI with a digit and `~` is no paste, so `special_key` decides |
| AnsiIn.UnknownCsiFails | src/terminal/ansi_in.rs:50-63 | an unknown CSI final fails |
| AnsiIn.PasteOf | src/terminal/ansi_in.rs:15-36 | a paste whose text holds no end marker parses to `Paste(text)`, both markers consumed |
| AnsiIn.PlainPaste | src/terminal/ansi_in.rs:28 | text without ESC holds no end marker |
| AnsiIn.SourceExamples | src/terminal/ansi_in.rs:78-93 | `"x"` and the `"Hello World!"` paste |
| TerminalReader.ChunkReader.constructor | src/terminal/reader.rs:18-20 | a reader positioned at the first chunk |
| TerminalReader.ChunkReader.Read | src/terminal/reader.rs:18-20 | returns the next chunk and advances, or nothing at the end |
| TerminalReader.AssembleCmd | src/terminal/reader.rs:22-36 | on success the command ends after the read it started at |
| TerminalReader.PasteTail | src/terminal/reader.rs:27-32 | on success the paste ends after its first chunk |
| TerminalReader.PasteTailStopsAtFirstEnd | src/terminal/reader.rs:27-32 | on success the paste stops at the first chunk ending with the end marker and holds exactly the chunks read |
| TerminalReader.PasteTailFailsWithoutEnd | src/terminal/reader.rs:27-32 | the paste fails exactly when no remaining chunk ends with the end marker |
| TerminalReader.ConcatCons | src/terminal/reader.rs:29 | joining chunks puts the first in front |
| TerminalReader.AssembleCmdCases | src/terminal/reader.rs:22-36 | a chunk other than the start marker is returned alone; after the start marker the chunks up to the first ending with the end marker are joined; none iff no chunk does |
| TerminalReader.NoEscNoEnd | src/terminal/reader.rs:31 | a chunk without ESC never ends the paste |
| TerminalReader.ThreeChunkPaste | src/terminal/reader.rs:87-97 | a paste read in three chunks is their join |
| TerminalReader.SplitEndMarkerMissed | src/terminal/reader.rs:31 | an end marker split across two reads is missed, because each read is checked alone |
| TerminalReader.ReadCmd | src/terminal/reader.rs:22-36 | the loop returns `AssembleCmd` of the chunks from the reader's position and leaves the reader after it |
| TerminalReader.NextEvent | src/terminal/reader.rs:6-16 | on success the event comes from reads after the start |
| TerminalReader.NextEventIsFirstDecoded | src/terminal/reader.rs:9-15 | the event is that of the first command that parses; every earlier one fails |
| TerminalReader.RunCons | src/terminal/reader.rs:9-15 | a command that fails to parse, followed by a run of failing commands, is itself such a run |
| TerminalReader.ReadEvent | src/terminal/reader.rs:6-16 | the loop returns `NextEvent` and leaves the reader after it |
| Common.LineLen | src/editor/content.rs:26-28 | the length of the row's text; navigation.rs:127-129 is the same function |
| Common.StepDown | src/editor/navigation.rs:77-79 | at most `n` down and not past `last`, exactly `n` when there is room; scroll.rs:37-39 is the same closure |
| Common.ScrollInto | src/editor/viewport.rs:49-57 | for a non-zero size the position is visible from the new start, and a visible position keeps the start |
| Common.ScrollIntoMinimal | src/editor/viewport.rs:49-57 | the new start is the closest one to the old that shows the position |

## Left out

- The file system read in `read_file`, stdin reads (`StdinReader`), writing and flushing output, and the terminal setup: I/O. `read_file` is modelled from its text on.
- The event loop's read/flush loop and `EditorRenderer`, which is not part of this model; `refresh` and `refresh_status_bar` are left out with it.
- `Editor::resize`: it only calls `resize_viewport` and `refresh`, and `resize_viewport` is modelled in `State`.
- Collaborators not shown in the source are parameters. These are the Cursor move methods used by `cursor_command`, the state's moves and `click` used by the event loop, `content.insert`/`content.delete`, `vertical_nav.x`, and `Row::mono_col_at`.
- The status bar text is an opaque parameter, because it is integer formatting.
- Renderer.StatusBar: does not model Rust formatting of the status text.
- `state.selection()` is a parameter of the renderer; its definition is not part of this model.
- Grapheme and display-width handling: rows are sequences of characters with one index each. Byte offsets and char-boundary panics are not modelled.
- nom's error kinds and `Incomplete`: every failure is one `Failure`, since `read_event` discards every error.
- Renderer.RowCommands, Renderer.RenderContent, Renderer.Render: a panic of `visible_row_part` as written is a precondition (`RowDrawn`, `ContentDefined`), not a modelled crash.
- `u16` and `usize` overflow: `usize` is unbounded, and underflowing subtractions are preconditions. `as u16` casts wrap explicitly. Rust debug-build overflow panics of `u16` additions are preconditions (`StatusBarDefined`, `i + 1 < 0x1_0000`).
- AnsiIn.SourceExamples: the remaining key tests of ansi_in.rs are covered by the lemmas for all remainders (`CursorKeys`, `TildeKeys`, `BackspaceAndTab`) rather than one lemma per literal.
- The Windows console FFI, `ansi_out`, the clipboard, `app.rs`, `main.rs`, `editor.rs` and the test harness macros: outside the modelled core.

## Findings

| source | as written | input that shows it | evidently intended | confidence | as-written member | corrected member |
|---|---|---|---|---|---|---|
| src/editor/mod.rs:143-145 | `move_and_scroll` computes the scroll from `cursor.pos()` before queueing the move, so the viewport follows the old cursor position | viewport `(0,0)` of size 1×1, cursor at `(0,0)`, move to column 1: no scroll, and the cursor ends off screen | scroll so that the move's target is visible, as the event loop does at mod.rs:67-68 | not executed | Editor.MoveAndScrollLosesCursor | Editor.MoveAndScroll |
| src/editor/renderer.rs:73-79 | `visible_row_part` adds `left` to the selection's document columns, and takes `row.len() + left` as the end of a row the selection runs through | `left = 1`, row `"abc"`, selection `((0,0),(1,0))`: slices `row[1..4]` and panics; row `"abcd"`, selection `((0,1),(0,2))`: highlights `"c"` instead of `"b"`; `left = 0`, `width = 2`, row `"abcd"`, selection `((0,0),(1,0))`: prints `"abcd "` past the viewport's width (`VisibleRowPartAsWrittenShifts`, `VisibleRowPartAsWrittenOverruns`) | slice the row at the selection's columns, cut to the visible columns | not executed | Renderer.VisibleRowPartAsWrittenPanics | Renderer.VisibleRowPart |
