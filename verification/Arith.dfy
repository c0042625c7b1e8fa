// Division facts the address and bit arithmetic rests on.
module Arith {

  lemma MulMonotone(p: nat, a: int, b: int)
    requires a <= b
    ensures p * a <= p * b
  {
  }

  lemma MulAtLeast(p: nat, q: nat)
    requires p > 0
    ensures p * q >= q
  {
  }

  lemma Doubling(a: nat, b: nat)
    ensures (2 * a) * b == 2 * (a * b)
  {
  }

  // A quotient is known by the interval the dividend lies in.
  lemma DivModUnique(x: int, p: nat, q: int)
    requires p > 0 && p * q <= x < p * q + p
    ensures x / p == q && x % p == x - p * q
  {
    var d := x / p;
    assert x == p * d + x % p;
    assert p * (d + 1) == p * d + p && p * (q + 1) == p * q + p;
    if d < q {
      MulMonotone(p, d + 1, q);
    } else if d > q {
      MulMonotone(p, q + 1, d);
    }
  }

  lemma DivAtMost(x: nat, p: nat, q: nat)
    requires p > 0 && x < p * q + p
    ensures x / p <= q
  {
    assert x == p * (x / p) + x % p && p * (q + 1) == p * q + p;
    if x / p > q {
      MulMonotone(p, q + 1, x / p);
    }
  }

  // Dividing by 2s is halving and then dividing by s.
  lemma Halving(a: nat, s: nat)
    requires s > 0
    ensures a / (2 * s) == a / 2 / s && a % (2 * s) == 2 * (a / 2 % s) + a % 2
  {
    var h := a / 2;
    var q := h / s;
    assert h == s * q + h % s;
    assert (2 * s) * q == 2 * (s * q);
    DivModUnique(a, 2 * s, q);
  }

  lemma DivBelow(x: nat, p: nat)
    requires p > 0
    ensures 0 <= x / p <= x
  {
    var q := x / p;
    assert x == p * q + x % p;
    if q > x {
      MulAtLeast(p, q);
    }
  }

  function Quotient(x: nat, p: nat): (q: nat)
    requires p > 0
    ensures q <= x && q == x / p && x == p * q + x % p
  {
    DivBelow(x, p);
    x / p
  }
}
