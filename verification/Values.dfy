/** Plain values used throughout. */
module Values {
  datatype Option<T> = None | Some(value: T)

  /** 2^32, where an unsigned 32-bit sum wraps. */
  const TWO32: nat := 0x1_0000_0000

  function One(b: bool): nat {
    if b then 1 else 0
  }

  lemma {:induction false} SubsetSize(a: set<nat>, b: set<nat>)
    requires a <= b
    ensures |a| <= |b|
  {
    if a != {} {
      var x :| x in a;
      SubsetSize(a - {x}, b - {x});
    }
  }
}
