/** Remainders of sums and negations, for counters that wrap and positions that rotate. */
module Modular {

  lemma {:induction false} NonZeroMultiple(m: int, d: int)
    requires m > 0
    ensures d > 0 ==> d * m >= m
    ensures d < 0 ==> d * m <= -m
    decreases if d < 0 then -d else d
  {
    if d > 1 {
      NonZeroMultiple(m, d - 1);
      assert d * m == (d - 1) * m + m;
    } else if d < -1 {
      NonZeroMultiple(m, d + 1);
      assert d * m == (d + 1) * m - m;
    }
  }

  lemma ModIs(m: nat, x: int, q: int, rest: nat)
    requires rest < m && x == q * m + rest
    ensures x % m == rest
  {
    var d := q - x / m;
    assert x == (x / m) * m + x % m;
    assert d * m == q * m - (x / m) * m;
    NonZeroMultiple(m, d);
    assert d == 0;
  }

  lemma ModOfSum(m: nat, x: int, k: int)
    requires m > 0
    ensures (x + k * m) % m == x % m
  {
    assert x == (x / m) * m + x % m;
    assert (x / m + k) * m == (x / m) * m + k * m;
    ModIs(m, x + k * m, x / m + k, x % m);
  }

  lemma ModOfNegation(m: nat, x: int)
    requires m > 0
    ensures (-x) % m == if x % m == 0 then 0 else m - x % m
  {
    var q, rest := x / m, x % m;
    assert x == q * m + rest;
    if rest == 0 {
      assert -x == (-q) * m;
      ModIs(m, -x, -q, 0);
    } else {
      assert (-q - 1) * m == -(q * m) - m;
      ModIs(m, -x, -q - 1, m - rest);
    }
  }
}
