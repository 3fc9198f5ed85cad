/** Facts about numbers that several components need. */
module Arithmetic {
  import opened Words

  function AtLeast0(n: int): nat {
    if n < 0 then 0 else n
  }

  function Abs(x: real): real {
    if x < 0.0 then -x else x
  }

  lemma Unwrapped(x: nat)
    requires x < 0x1_0000_0000
    ensures Wrap(x) == x
  {}

  lemma MulLe(a: nat, b: nat, c: nat, d: nat)
    requires a <= b && c <= d
    ensures a * c <= b * d
  {
    assert a * c <= b * c <= b * d;
  }

  /** A product of reals by name, so that proofs can compare products without multiplying out. */
  function Times(a: real, b: real): real {
    a * b
  }

  lemma TimesAscends(a: real, x: real, y: real)
    requires a >= 0.0 && x <= y
    ensures Times(a, x) <= Times(a, y)
  {}

  lemma TimesLe(a: real, b: real, c: real, d: real)
    requires 0.0 <= a <= b && 0.0 <= c <= d
    ensures 0.0 <= Times(a, c) <= Times(b, d)
  {
    assert a * c <= b * c;
    assert b * c <= b * d;
  }
}
