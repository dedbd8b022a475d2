/** What every other module may need: absence, and products the solver should not have to think about. */
module Basics {

  datatype Option<+T> = None | Some(value: T)

  lemma Distribute(a: int, b: int, c: int)
    ensures a * (b + c) == a * b + a * c
  {
  }

  lemma Opposite(a: int, b: int)
    ensures -a * b == -(a * b)
  {
  }

  lemma ProductGrows(m: nat, x: nat, y: nat)
    requires x <= y
    ensures 0 <= m * x <= m * y
  {
  }
}
