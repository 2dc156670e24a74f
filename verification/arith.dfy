/** Facts about multiplication the solver does not find on its own. */
module Arith {

  lemma MulMonoLeft(a: int, b: int, c: int)
    requires a <= b && 0 <= c
    ensures a * c <= b * c
  {
  }

  lemma Distribute(a: int, b: int, c: int)
    ensures a * b + a * c == a * (b + c)
  {
  }

  lemma Associate(a: int, b: int, c: int)
    ensures a * (b * c) == (a * b) * c
  {
  }

  lemma Commute(a: int, b: int)
    ensures a * b == b * a
  {
  }
}
