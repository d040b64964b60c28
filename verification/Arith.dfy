/** Division with a remainder by an unknown divisor, in steps the solver can take. */
module Arith {

  lemma MulAtLeast(x: int, s: int)
    requires 0 < s && 1 <= x
    ensures s <= x * s && (-x) * s == -(x * s)
  {
  }

  lemma MulMinus(q: int, k: int, s: int)
    ensures (q - k) * s == q * s - k * s
  {
  }

  lemma NoMultiple(x: int, s: int, y: int)
    requires 0 < s && x * s == y && -s < y < s
    ensures x == 0 && y == 0
  {
    if x >= 1 {
      MulAtLeast(x, s);
    } else if x <= -1 {
      MulAtLeast(-x, s);
    }
  }

  /** Quotient and remainder are determined by their defining equation. */
  lemma ModUnique(a: int, k: int, s: int, r: int)
    requires 0 <= r < s && a == k * s + r
    ensures a % s == r && a / s == k
  {
    var q, m := a / s, a % s;
    assert a == q * s + m;
    MulMinus(q, k, s);
    NoMultiple(q - k, s, r - m);
  }

  lemma ModMinus(a: int, s: int)
    requires 0 < s
    ensures (a - s) % s == a % s && (a - s) / s == a / s - 1
  {
    var q := a / s;
    assert a == q * s + a % s;
    MulMinus(q, 1, s);
    ModUnique(a - s, q - 1, s, a % s);
  }

  lemma ModOfSum(a: int, b: int, s: int)
    requires 0 < s
    ensures (a % s + b) % s == (a + b) % s
  {
    var r := a % s + b;
    MulMinus(a / s, -(r / s), s);
    ModUnique(a + b, a / s + r / s, s, r % s);
  }

  lemma ModBelow(m: nat, s: nat)
    requires 0 < s
    ensures 0 <= m % s <= m
  {
    if m < s {
      ModUnique(m, 0, s, m);
    }
  }

  lemma MulAssoc(t: int, a: int, p: int)
    ensures a * (t * p) == t * (a * p)
  {
  }
}
