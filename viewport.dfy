/**
  src/editor/viewport.rs: the window onto the document, as an object with
  `left`, `top`, `width` and `height` that `scroll` and `resize` update.
  Positions here are `(row, col)`, except where the source itself pairs the
  first component with `left` (`cursor_within`, `to_relative`).
*/
module Viewports {
  import opened Common

  /** `PosInDocument`: `(row, col)`. */
  type PosInDocument = (nat, nat)

  /** `PosOnScreen`. */
  type PosOnScreen = (u16, u16)

  /** `ScrollCommand = Option<PosInDocument>`: the new `(top, left)`. */
  type ScrollCommand = Option<PosInDocument>

  class Viewport {
    var left: nat
    var top: nat
    var width: u16
    var height: u16

    /** `Viewport::new`. */
    constructor(left: nat, top: nat, width: u16, height: u16)
      ensures this.left == left && this.top == top && this.width == width && this.height == height
    {
      this.left := left;
      this.top := top;
      this.width := width;
      this.height := height;
    }

    /** `pos`: `(top, left)`, row first. */
    function Pos(): (p: PosInDocument)
      reads this
      ensures p.0 == top && p.1 == left
    {
      (top, left)
    }

    /** `size`: `(width, height)`. */
    function Size(): (s: (u16, u16))
      reads this
      ensures s.0 == width && s.1 == height
    {
      (width, height)
    }

    /** `cursor_within`, as written: the first component against `left` and `width`, the second against `top` and `height`. */
    predicate CursorWithin(p: PosInDocument)
      reads this
    {
      p.0 >= left && p.0 < left + width &&
      p.1 >= top && p.1 < top + height
    }

    /** `scroll(top, left)`: moves the origin and keeps the size. */
    method Scroll(top: nat, left: nat)
      modifies this
      ensures this.left == left && this.top == top
      ensures width == old(width) && height == old(height)
    {
      this.left := left;
      this.top := top;
    }

    /** `resize`: the last row is left to the status bar; `height - 1` needs `height >= 1`. */
    method Resize(width: u16, height: u16)
      requires height >= 1
      modifies this
      ensures this.width == width && this.height == height - 1
      ensures left == old(left) && top == old(top)
    {
      this.width := width;
      this.height := height - 1;
    }

    /** `to_relative`, as written: `(x - left + 1, y - top + 1)` cut to `u16`; the subtractions need `x >= left` and `y >= top`. */
    function ToRelative(p: PosInDocument): (q: PosOnScreen)
      reads this
      requires p.0 >= left && p.1 >= top
      ensures p.0 - left + 1 < 0x1_0000 ==> q.0 == p.0 - left + 1
      ensures p.1 - top + 1 < 0x1_0000 ==> q.1 == p.1 - top + 1
    {
      (AsU16(p.0 - left + 1), AsU16(p.1 - top + 1))
    }

    /** `to_absolute`, as written: `(row + top - 1, col + left - 1)`; each `- 1` needs a non-zero sum. */
    function ToAbsolute(q: PosOnScreen): (p: PosInDocument)
      reads this
      requires q.0 + top >= 1 && q.1 + left >= 1
      ensures p.0 + 1 == q.0 + top && p.1 + 1 == q.1 + left
    {
      (q.0 + top - 1, q.1 + left - 1)
    }

    /** `scroll_cmd`: none when the new `(top, left)` is the current one. */
    function ScrollCmd(p: PosInDocument): (c: ScrollCommand)
      reads this
      ensures c.None? <==> p == Pos()
      ensures c.Some? ==> c.value == p
    {
      if p == Pos() then None else Some(p)
    }

    /** The `(top, left)` after a scroll command. */
    function PosAfter(c: ScrollCommand): PosInDocument
      reads this
    {
      if c.Some? then c.value else Pos()
    }

    /**
      `scroll_into_view((row, col))`: the row against `(top, height)` and the
      column against `(left, width)`, each by the smallest move that shows it.
    */
    function ScrollIntoView(p: PosInDocument): (c: ScrollCommand)
      reads this
      ensures PosAfter(c) == (ScrollInto(p.0, top, height), ScrollInto(p.1, left, width))
      ensures top <= p.0 < top + height && left <= p.1 < left + width ==> c.None?
      ensures height >= 1 ==> PosAfter(c).0 <= p.0 < PosAfter(c).0 + height
      ensures width >= 1 ==> PosAfter(c).1 <= p.1 < PosAfter(c).1 + width
    {
      ScrollCmd((ScrollInto(p.0, top, height), ScrollInto(p.1, left, width)))
    }

    /** `scroll_up(n)`: up `n` rows, stopping at the first; left kept. */
    function ScrollUp(n: nat): (c: ScrollCommand)
      reads this
      ensures PosAfter(c) == (top - Min(n, top), left)
      ensures top == 0 ==> c.None?
    {
      var newTop: nat := top - Min(n, top);
      ScrollCmd((newTop, left))
    }

    /** `scroll_down(n, last)`: down `n` rows, stopping at `last`; `last - top` needs `top <= last`. */
    function ScrollDown(n: nat, lastContentRow: nat): (c: ScrollCommand)
      reads this
      requires top <= lastContentRow
      ensures PosAfter(c).1 == left && top <= PosAfter(c).0 <= lastContentRow
      ensures PosAfter(c).0 == top + Min(n, lastContentRow - top)
      ensures top == lastContentRow ==> c.None?
    {
      var newTop: nat := top + Min(n, lastContentRow - top);
      ScrollCmd((newTop, left))
    }
  }

  /**
    `to_relative` pairs its first component with `left` but `to_absolute`
    pairs it with `top`, so the two undo each other exactly when `left` and
    `top` agree (within 16 bits).
  */
  lemma RelativeAbsoluteMismatch(v: Viewport, p: PosInDocument)
    requires p.0 >= v.left && p.1 >= v.top
    requires p.0 - v.left + 1 < 0x1_0000 && p.1 - v.top + 1 < 0x1_0000
    ensures v.ToRelative(p).0 + v.top >= 1 && v.ToRelative(p).1 + v.left >= 1
    ensures v.ToAbsolute(v.ToRelative(p)) == (p.0 - v.left + v.top, p.1 - v.top + v.left)
    ensures v.ToAbsolute(v.ToRelative(p)) == p <==> v.left == v.top
  {
  }
}
