/** src/editor/pos.rs: the order of positions `(row, col)` in a document. */
module Pos {

  /** `PosInDocument`: `(row, col)`. */
  type PosInDocument = (nat, nat)

  /** `is_before`: strictly earlier in reading order, row first, then column. */
  predicate IsBefore(a: PosInDocument, b: PosInDocument)
  {
    a.0 < b.0 || (a.0 == b.0 && a.1 < b.1)
  }

  lemma Irreflexive(a: PosInDocument)
    ensures !IsBefore(a, a)
  {
  }

  lemma Trichotomy(a: PosInDocument, b: PosInDocument)
    ensures a != b ==> (IsBefore(a, b) <==> !IsBefore(b, a))
    ensures a == b ==> !IsBefore(a, b) && !IsBefore(b, a)
  {
  }

  lemma Transitive(a: PosInDocument, b: PosInDocument, c: PosInDocument)
    requires IsBefore(a, b) && IsBefore(b, c)
    ensures IsBefore(a, c)
  {
  }
}
