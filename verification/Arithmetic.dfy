/** Multiples and remainders. */
module Arithmetic {

  lemma ModOf(k: int, r: nat, d: nat)
    requires 0 <= r < d
    ensures (k * d + r) % d == r
  {
    var x := k * d + r;
    var q, m := x / d, x % d;
    assert x == q * d + m;
    assert (q - k) * d == r - m;
    MultipleBound(q - k, d);
  }

  lemma MultipleOf(k: int, d: nat)
    requires d > 0
    ensures (k * d) % d == 0
  {
    ModOf(k, 0, d);
  }

  lemma MultipleBound(k: int, d: nat)
    ensures k >= 1 ==> k * d >= d
    ensures k <= -1 ==> k * d <= -(d as int)
  {
    if k >= 1 {
      assert k * d == (k - 1) * d + d;
    } else if k <= -1 {
      assert k * d == (k + 1) * d - d;
    }
  }

  lemma ProductGrows(a: nat, b: nat, d: nat)
    requires a <= b
    ensures a * d <= b * d
  {
    assert b * d == a * d + (b - a) * d;
  }
}
