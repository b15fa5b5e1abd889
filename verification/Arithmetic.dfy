// Quotients and remainders of the integers.
module Arithmetic {
  lemma {:induction false} QuotientIs(n: nat, step: nat, q: int, r: nat)
    requires step > 0 && n == q * step + r && r < step
    ensures n / step == q && n % step == r
  {
    var d := n / step - q;
    assert d * step == r - n % step;
    MultipleIsFar(d, step);
  }

  lemma {:induction false} MultipleIsFar(d: int, step: nat)
    ensures d > 0 ==> d * step >= step
    ensures d < 0 ==> d * step <= 0 - step
  {
    if d > 0 {
      ProductNonNegative(d - 1, step);
    } else if d < 0 {
      ProductNonNegative(-d - 1, step);
    }
  }

  lemma {:induction false} ProductNonNegative(e: nat, step: nat)
    ensures 0 <= e * step == (e + 1) * step - step
    ensures (0 - e - 1) * step == 0 - e * step - step
  {
  }

  lemma {:induction false} NextQuotient(n: nat, step: nat)
    requires step > 0
    ensures (n + 1) / step == n / step + (if (n + 1) % step == 0 then 1 else 0)
  {
    var q, r := n / step, n % step;
    assert n == q * step + r;
    if r + 1 < step {
      QuotientIs(n + 1, step, q, r + 1);
    } else {
      assert n + 1 == (q + 1) * step;
      QuotientIs(n + 1, step, q + 1, 0);
    }
  }

  lemma {:induction false} SameRemainder(n: nat, interval: int, step: nat)
    requires interval != 0 && step == if interval < 0 then -interval else interval
    ensures n % interval == n % step
  {
    if interval < 0 {
      var q, r := n / interval, n % interval;
      assert n == q * interval + r;
      OppositeProduct(q, interval);
      QuotientIs(n, step, 0 - q, r);
    }
  }

  lemma {:induction false} OppositeProduct(q: int, interval: int)
    ensures q * interval == (0 - q) * (0 - interval)
  {
  }

  // No multiple of `step` lies strictly between one and the next.
  lemma {:induction false} BetweenMultiples(k: nat, m: nat, step: nat)
    requires step > 0 && k % step == 0 && k < m <= k + step
    ensures m % step == 0 <==> m == k + step
  {
    var q := k / step;
    assert k == q * step;
    if m == k + step {
      ProductNonNegative(q, step);
      QuotientIs(m, step, q + 1, 0);
    } else {
      QuotientIs(m, step, q, m - k);
    }
  }
}
