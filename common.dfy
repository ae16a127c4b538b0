/** Small definitions shared by the modules of the model. */
module Common {

  datatype Option<T> = None | Some(value: T)

  /** Rust's `u16`. */
  type u16 = x: int | 0 <= x < 0x1_0000

  /** Rust's `as u16` cast of a `usize`: keeps the low 16 bits. */
  function AsU16(n: nat): (r: u16)
    ensures n < 0x1_0000 ==> r == n
    ensures n >= 0x1_0000 ==> r < n
  {
    n % 0x1_0000
  }

  /** A pair of unsigned coordinates; each file decides which component is the row. */
  type Pair = (nat, nat)

  function Min(a: nat, b: nat): (r: nat)
    ensures r <= a && r <= b && (r == a || r == b)
  {
    if a <= b then a else b
  }

  /** `line_len`: the length of a row's text, which content.rs and navigation.rs each define; Rust panics on a missing row. */
  function LineLen(lines: seq<string>, row: nat): (n: nat)
    requires row < |lines|
    ensures n == |lines[row]|
  {
    |lines[row]|
  }

  /**
    The closure of `move_down` and `scroll_down`, which navigation.rs and
    scroll.rs each write: `n` rows on from `y`, but not past `last`.
  */
  function StepDown(n: nat, last: nat, y: nat): (r: nat)
    requires y <= last
    ensures y <= r <= last && r - y <= n
    ensures y + n <= last ==> r == y + n
  {
    y + Min(n, last - y)
  }

  /**
    The one-axis rule of `scroll_into_view`, the closure `scroll_into` that
    navigation.rs, scroll.rs and viewport.rs each define with the same body:
    a position before the window becomes its start, one at or past its end
    brings the end just past it, otherwise the start is kept.
  */
  function ScrollInto(pos: nat, start: nat, size: nat): (r: nat)
    ensures 1 <= size ==> r <= pos < r + size
    ensures start <= pos < start + size ==> r == start
  {
    if pos < start then pos
    else if pos >= start + size then pos - size + 1
    else start
  }

  /** With a non-empty window no other start that shows `pos` is nearer to the old start. */
  lemma ScrollIntoMinimal(pos: nat, start: nat, size: nat, other: nat)
    requires 1 <= size && other <= pos < other + size
    ensures var r := ScrollInto(pos, start, size);
      (r <= start && other <= start ==> start - r <= start - other) &&
      (r >= start && other >= start ==> r - start <= other - start) &&
      (other < start ==> r <= start) && (other > start ==> r >= start)
  {
  }
}
