/** Non-linear facts used in several places. */
module Arithmetic {

  lemma MulMonotone(a: nat, b: nat, w: nat)
    requires a <= b
    ensures a * w <= b * w
  {
  }

  /** A non-zero multiple of `d` is at least `d` away from 0. */
  lemma MultipleIsFar(k: int, d: nat)
    ensures k >= 1 ==> k * d >= d
    ensures k <= -1 ==> k * d + d <= 0
  {
  }

  lemma DivisionIsUnique(m: nat, c: nat, q: nat, r: nat)
    requires c >= 1 && m == q * c + r && r < c
    ensures m / c == q && m % c == r
  {
    var d := m / c - q;
    assert d * c == r - m % c;
    MultipleIsFar(d, c);
  }
}
