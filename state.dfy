/**
  src/editor/state.rs: the editor state of the revision that keeps the lines
  and an `(x, y)` cursor directly, with a viewport and the vertical
  navigation memory.
*/
module State {
  import opened Common

  /** `AbsPosition`: `(x, y)`, column first. */
  type AbsPosition = (nat, nat)

  /** `CursorPosition`: 1-based screen coordinates. */
  type CursorPosition = (u16, u16)

  /** `Viewport { left, top, width, height }`. */
  datatype Viewport = Viewport(left: nat, top: nat, width: u16, height: u16)

  /** `Viewport::new`. */
  function NewViewport(left: nat, top: nat, width: u16, height: u16): (v: Viewport)
    ensures v.left == left && v.top == top && v.width == width && v.height == height
  {
    Viewport(left, top, width, height)
  }

  /** `pos`: `(left, top)`. */
  function Pos(v: Viewport): (p: AbsPosition)
    ensures p.0 == v.left && p.1 == v.top
  {
    (v.left, v.top)
  }

  /** `size`: `(width, height)`. */
  function Size(v: Viewport): (s: (u16, u16))
    ensures s.0 == v.width && s.1 == v.height
  {
    (v.width, v.height)
  }

  /** `cursor_within`: the position lies in the window the viewport shows. */
  predicate CursorWithin(v: Viewport, p: AbsPosition)
  {
    p.0 >= v.left && p.0 < v.left + v.width &&
    p.1 >= v.top && p.1 < v.top + v.height
  }

  /**
    `to_relative`: the 1-based screen cell of a document position. The
    `usize` subtractions need the position at or after the viewport origin;
    `as u16` keeps the low 16 bits.
  */
  function ToRelative(v: Viewport, p: AbsPosition): (r: CursorPosition)
    requires p.0 >= v.left && p.1 >= v.top
    ensures p.0 - v.left + 1 < 0x1_0000 ==> r.0 == p.0 - v.left + 1
    ensures p.1 - v.top + 1 < 0x1_0000 ==> r.1 == p.1 - v.top + 1
  {
    (AsU16(p.0 - v.left + 1), AsU16(p.1 - v.top + 1))
  }

  /** `to_absolute`: the document position of a 1-based screen cell; the `- 1` needs a non-zero sum. */
  function ToAbsolute(v: Viewport, q: CursorPosition): (p: AbsPosition)
    requires q.0 + v.left >= 1 && q.1 + v.top >= 1
    ensures p.0 + 1 == q.0 + v.left && p.1 + 1 == q.1 + v.top
  {
    (q.0 + v.left - 1, q.1 + v.top - 1)
  }

  /** Converting a position at or after the origin to the screen and back gives it again while it fits in `u16`. */
  lemma AbsoluteOfRelative(v: Viewport, p: AbsPosition)
    requires p.0 >= v.left && p.1 >= v.top
    requires p.0 - v.left + 1 < 0x1_0000 && p.1 - v.top + 1 < 0x1_0000
    ensures ToAbsolute(v, ToRelative(v, p)) == p
  {
  }

  /** Every position the viewport shows fits, so its conversion round-trips. */
  lemma VisibleRoundTrip(v: Viewport, p: AbsPosition)
    requires CursorWithin(v, p)
    ensures ToRelative(v, p).0 >= 1 && ToRelative(v, p).1 >= 1
    ensures ToAbsolute(v, ToRelative(v, p)) == p
  {
    AbsoluteOfRelative(v, p);
  }

  /** The other direction: a screen cell from (1, 1) on is found again. */
  lemma RelativeOfAbsolute(v: Viewport, q: CursorPosition)
    requires q.0 >= 1 && q.1 >= 1
    ensures ToRelative(v, ToAbsolute(v, q)) == q
  {
  }

  /** `VerticalNavigation { in_progress, last_x }`. */
  datatype VerticalNavigation = VerticalNavigation(inProgress: bool, lastX: nat)

  /**
    The rule of `start_or_keep_vertical_navigation`: a run of vertical moves
    starts by remembering the column `x` and keeps it while it lasts.
  */
  function StartOrKeep(nav: VerticalNavigation, x: nat): (r: VerticalNavigation)
    ensures r.inProgress
    ensures nav.inProgress ==> r == nav
    ensures !nav.inProgress ==> r.lastX == x
  {
    if !nav.inProgress then VerticalNavigation(true, x) else nav
  }

  /** Calling it twice is calling it once, whatever the column at the second call. */
  lemma StartOrKeepIdempotent(nav: VerticalNavigation, x: nat, x2: nat)
    ensures StartOrKeep(StartOrKeep(nav, x), x2) == StartOrKeep(nav, x)
  {
  }

  /** `EditorState`. */
  class EditorState {
    var viewport: Viewport
    var cursorPos: AbsPosition
    var lines: seq<string>
    var verticalNav: VerticalNavigation

    /** `EditorState::new`: no vertical navigation in progress, remembered column 0. */
    constructor(lines: seq<string>, viewport: Viewport, cursorPos: AbsPosition)
      ensures this.lines == lines && this.viewport == viewport && this.cursorPos == cursorPos
      ensures verticalNav == VerticalNavigation(false, 0)
    {
      this.viewport := viewport;
      this.cursorPos := cursorPos;
      this.lines := lines;
      this.verticalNav := VerticalNavigation(false, 0);
    }

    /** `scroll_viewport`: moves the viewport origin and nothing else. */
    method ScrollViewport(x: nat, y: nat)
      modifies this
      ensures viewport == old(viewport).(left := x, top := y)
      ensures cursorPos == old(cursorPos) && lines == old(lines) && verticalNav == old(verticalNav)
    {
      viewport := viewport.(left := x);
      viewport := viewport.(top := y);
    }

    /** `resize_viewport`: the last terminal row is kept for the status bar; `height - 1` needs `height >= 1`. */
    method ResizeViewport(width: u16, height: u16)
      requires height >= 1
      modifies this
      ensures viewport == old(viewport).(width := width, height := height - 1)
      ensures cursorPos == old(cursorPos) && lines == old(lines) && verticalNav == old(verticalNav)
    {
      viewport := viewport.(width := width);
      viewport := viewport.(height := height - 1);
    }

    function CursorX(): (x: nat)
      reads this
      ensures x == cursorPos.0
    {
      cursorPos.0
    }

    function CursorY(): (y: nat)
      reads this
      ensures y == cursorPos.1
    {
      cursorPos.1
    }

    /** `start_or_keep_vertical_navigation`. */
    method StartOrKeepVerticalNavigation()
      modifies this
      ensures verticalNav == StartOrKeep(old(verticalNav), old(cursorPos.0))
      ensures viewport == old(viewport) && cursorPos == old(cursorPos) && lines == old(lines)
    {
      if !verticalNav.inProgress {
        verticalNav := verticalNav.(inProgress := true);
        verticalNav := verticalNav.(lastX := CursorX());
      }
    }

    /** `end_vertical_navigation`: ends the run and keeps the remembered column. */
    method EndVerticalNavigation()
      modifies this
      ensures verticalNav == VerticalNavigation(false, old(verticalNav.lastX))
      ensures viewport == old(viewport) && cursorPos == old(cursorPos) && lines == old(lines)
    {
      verticalNav := verticalNav.(inProgress := false);
    }

    /** `vertical_navigation_x`: the remembered column. */
    function VerticalNavigationX(): (x: nat)
      reads this
      ensures x == verticalNav.lastX
    {
      verticalNav.lastX
    }
  }

  /**
    A run of vertical moves: however many times the navigation is started
    or kept, with the cursor wherever it is, the remembered column is the
    one at the first start, and ending keeps it.
  */
  lemma {:induction false} RunRemembersFirstColumn(nav: VerticalNavigation, xs: seq<nat>)
    requires !nav.inProgress && |xs| >= 1
    ensures StartAll(nav, xs).inProgress
    ensures StartAll(nav, xs).lastX == xs[0]
    decreases |xs|
  {
    if |xs| > 1 {
      RunRemembersFirstColumn(nav, xs[..|xs| - 1]);
      assert xs[..|xs| - 1][0] == xs[0];
    }
  }

  /** The navigation state after starting or keeping it at each column of `xs` in turn. */
  function StartAll(nav: VerticalNavigation, xs: seq<nat>): VerticalNavigation
    decreases |xs|
  {
    if |xs| == 0 then nav else StartOrKeep(StartAll(nav, xs[..|xs| - 1]), xs[|xs| - 1])
  }
}
