/** src/editor/tuple_ops.rs: pairs of `usize` with component-wise `+` and saturating `-`. */
module TupleOps {

  /** `T(pub (usize, usize))`. */
  datatype T = T(pair: (nat, nat))

  /** `t(a, b)`. */
  function Make(a: nat, b: nat): (r: T)
    ensures r.pair.0 == a && r.pair.1 == b
  {
    T((a, b))
  }

  /** `impl Add for T`. */
  function Add(x: T, y: T): (r: T)
    ensures r.pair.0 - y.pair.0 == x.pair.0 && r.pair.1 - y.pair.1 == x.pair.1
  {
    T((x.pair.0 + y.pair.0, x.pair.1 + y.pair.1))
  }

  /** `impl Sub for T`: each component loses at most what it has. */
  function Sub(x: T, y: T): (r: T)
    ensures r.pair.0 <= x.pair.0 && r.pair.1 <= x.pair.1
    ensures y.pair.0 <= x.pair.0 ==> r.pair.0 + y.pair.0 == x.pair.0
    ensures y.pair.1 <= x.pair.1 ==> r.pair.1 + y.pair.1 == x.pair.1
    ensures x.pair.0 <= y.pair.0 ==> r.pair.0 == 0
    ensures x.pair.1 <= y.pair.1 ==> r.pair.1 == 0
  {
    T((x.pair.0 - Min(y.pair.0, x.pair.0), x.pair.1 - Min(y.pair.1, x.pair.1)))
  }

  function Min(a: nat, b: nat): nat
  {
    if a <= b then a else b
  }

  /** Subtracting what was added gives back the first operand. */
  lemma AddSubCancel(x: T, y: T)
    ensures Sub(Add(x, y), y) == x
  {
  }

  lemma AddExample()
    ensures Add(Make(1, 2), Make(3, 4)) == Make(4, 6)
  {
  }

  lemma SubExamples()
    ensures Sub(Make(1, 2), Make(3, 4)) == Make(0, 0)
    ensures Sub(Make(3, 4), Make(1, 2)) == Make(2, 2)
  {
  }
}
