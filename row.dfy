/** src/editor/row.rs: one line of text; positions are indices into its characters. */
module Rows {

  /** `Row { bytes: String }`. */
  datatype Row = Row(bytes: string)

  /** `Row::new`. */
  function New(s: string): (r: Row)
    ensures r.bytes == s && Len(r) == |s|
  {
    Row(s)
  }

  /** `len`. */
  function Len(r: Row): nat
  {
    |r.bytes|
  }

  /** `split_at`: the text before and from `at`; Rust panics past the end. */
  function SplitAt(r: Row, at: nat): (p: (Row, Row))
    requires at <= Len(r)
    ensures Len(p.0) == at && Len(p.0) + Len(p.1) == Len(r)
    ensures p.0.bytes + p.1.bytes == r.bytes
  {
    assert r.bytes[..at] + r.bytes[at..] == r.bytes;
    (Row(r.bytes[..at]), Row(r.bytes[at..]))
  }

  /** `concat`: a new row holding this text followed by the other. */
  function Concat(r: Row, other: Row): (c: Row)
    ensures Len(c) == Len(r) + Len(other)
    ensures c.bytes[..Len(r)] == r.bytes && c.bytes[Len(r)..] == other.bytes
  {
    Row(r.bytes + other.bytes)
  }

  /** `r[a..b]`. */
  function Slice(r: Row, a: nat, b: nat): (s: string)
    requires a <= b <= Len(r)
    ensures |s| == b - a && forall k :: 0 <= k < |s| ==> s[k] == r.bytes[a + k]
  {
    r.bytes[a..b]
  }

  /** `r[a..]`. */
  function SliceFrom(r: Row, a: nat): (s: string)
    requires a <= Len(r)
    ensures s == Slice(r, a, Len(r))
  {
    r.bytes[a..]
  }

  /** `r[..b]`. */
  function SliceTo(r: Row, b: nat): (s: string)
    requires b <= Len(r)
    ensures s == Slice(r, 0, b)
  {
    r.bytes[..b]
  }

  /** `r[..]`. */
  function SliceFull(r: Row): (s: string)
    ensures s == Slice(r, 0, Len(r))
  {
    r.bytes[..]
  }

  /** Splitting anywhere and concatenating the halves gives back the row. */
  lemma SplitConcat(r: Row, at: nat)
    requires at <= Len(r)
    ensures Concat(SplitAt(r, at).0, SplitAt(r, at).1) == r
  {
  }

  /** The two slices around a split point are the halves of `split_at`. */
  lemma SlicesAreHalves(r: Row, at: nat)
    requires at <= Len(r)
    ensures SplitAt(r, at).0.bytes == SliceTo(r, at) && SplitAt(r, at).1.bytes == SliceFrom(r, at)
  {
  }
}
