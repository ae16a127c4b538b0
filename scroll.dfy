/**
  src/editor/scroll.rs: scroll commands of the revision whose state holds a
  `Viewport` and an `EditorContent`; a command is the new viewport origin,
  or none when the viewport would not move.
*/
module Scroll {
  import opened Common
  import State
  import Content

  /** The part of `EditorState` that scroll.rs reads. */
  datatype ScrollState = ScrollState(viewport: State.Viewport, content: Content.EditorContent)

  /** `ScrollViewportTo(left, top)`. */
  datatype ScrollViewportTo = ScrollViewportTo(left: nat, top: nat)

  /** `ScrollCommand = Option<ScrollViewportTo>`. */
  type ScrollCommand = Option<ScrollViewportTo>

  /** The viewport origin after a scroll command. */
  function OriginAfter(st: ScrollState, c: ScrollCommand): State.AbsPosition
  {
    match c
    case None => State.Pos(st.viewport)
    case Some(ScrollViewportTo(x, y)) => (x, y)
  }

  /** `scroll_cmd`: none when the new origin is the viewport's own. */
  function ScrollCmd(st: ScrollState, p: State.AbsPosition): (c: ScrollCommand)
    ensures c.None? <==> p == State.Pos(st.viewport)
    ensures OriginAfter(st, c) == p
  {
    if p == State.Pos(st.viewport) then None else Some(ScrollViewportTo(p.0, p.1))
  }

  /**
    `scroll_into_view`: the smallest scroll that shows the position, x
    against (left, width) and y against (top, height).
  */
  function ScrollIntoView(st: ScrollState, p: State.AbsPosition): (c: ScrollCommand)
    ensures var v := st.viewport; var o := OriginAfter(st, c);
      o == (ScrollInto(p.0, v.left, v.width), ScrollInto(p.1, v.top, v.height))
    ensures State.CursorWithin(st.viewport, p) ==> c.None?
    ensures var o := OriginAfter(st, c);
      st.viewport.width >= 1 && st.viewport.height >= 1 ==>
        State.CursorWithin(st.viewport.(left := o.0, top := o.1), p)
  {
    var v := st.viewport;
    ScrollCmd(st, (ScrollInto(p.0, v.left, v.width), ScrollInto(p.1, v.top, v.height)))
  }

  /** `scroll_to`: the top row is clamped to the last row of the content, the left column kept. */
  function ScrollTo(st: ScrollState, p: State.AbsPosition): (c: ScrollCommand)
    requires |st.content.lines| >= 1
    ensures OriginAfter(st, c) == (p.0, Min(p.1, Content.LastLineRow(st.content)))
    ensures OriginAfter(st, c).1 <= Content.LastLineRow(st.content)
  {
    var newScrollTop := Min(p.1, Content.LastLineRow(st.content));
    ScrollCmd(st, (p.0, newScrollTop))
  }

  /** `scroll_vertical`: the top row replaced by what `newTop` gives for it. */
  function ScrollVertical(st: ScrollState, newTop: nat --> nat): (c: ScrollCommand)
    requires |st.content.lines| >= 1 && newTop.requires(st.viewport.top)
    ensures c == ScrollTo(st, (st.viewport.left, newTop(st.viewport.top)))
  {
    ScrollTo(st, (st.viewport.left, newTop(st.viewport.top)))
  }

  /** `scroll_up(n)`: up `n` rows, stopping at the first; left unchanged. */
  function ScrollUp(st: ScrollState, n: nat): (c: ScrollCommand)
    requires |st.content.lines| >= 1
    ensures var t := st.viewport.top;
      OriginAfter(st, c) == (st.viewport.left, Min(t - Min(n, t), Content.LastLineRow(st.content)))
    ensures st.viewport.top == 0 ==> c.None?
  {
    ScrollVertical(st, (y: nat) => y - Min(n, y))
  }

  /** `scroll_down(n)`: `last_line_row() - y` needs the top row in the content. */
  function ScrollDown(st: ScrollState, n: nat): (c: ScrollCommand)
    requires |st.content.lines| >= 1 && st.viewport.top <= Content.LastLineRow(st.content)
    ensures OriginAfter(st, c) ==
      (st.viewport.left, StepDown(n, Content.LastLineRow(st.content), st.viewport.top))
    ensures OriginAfter(st, c).1 <= Content.LastLineRow(st.content)
    ensures st.viewport.top == Content.LastLineRow(st.content) ==> c.None?
  {
    var last := Content.LastLineRow(st.content);
    ScrollVertical(st, (y: nat) requires y <= last => StepDown(n, last, y))
  }

  /** Scrolling up then down by the same amount, away from the ends, comes back. */
  lemma ScrollUpThenDown(st: ScrollState, n: nat)
    requires |st.content.lines| >= 1 && n <= st.viewport.top <= Content.LastLineRow(st.content)
    ensures var o := OriginAfter(st, ScrollUp(st, n));
      var up := st.(viewport := st.viewport.(left := o.0, top := o.1));
      OriginAfter(up, ScrollDown(up, n)) == State.Pos(st.viewport)
  {
  }
}
