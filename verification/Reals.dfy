/** The product of two reals, as a function that a proof can hide. */
module Reals {
  function Times(a: real, b: real): real {
    a * b
  }

  lemma ScaleLe(a: real, b: real, c: real)
    requires a <= b && c > 0.0
    ensures Times(a, c) <= Times(b, c)
  {
  }

  lemma ScaleLt(a: real, b: real, c: real)
    requires a < b && c > 0.0
    ensures Times(a, c) < Times(b, c)
  {
  }

  lemma Distribute(x: real, y: real)
    ensures Times(x + 1.0, y) == Times(x, y) + y
  {
  }
}
