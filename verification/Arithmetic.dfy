/** Facts about products, quotients and remainders that the solver needs one at a time. */
module Arithmetic {

  lemma MulSteps(m: nat, x: nat, y: nat)
    requires x < y
    ensures m * x + m <= m * y
  {
    var rest: nat := y - x - 1;
    assert m * y == m * x + m + m * rest;
  }

  lemma MulAssoc(x: nat, y: nat, z: nat)
    ensures (x * y) * z == x * (y * z)
  {
  }

  /** Quotient and remainder are unique. */
  lemma ModIs(a: nat, m: nat, q: nat, r: nat)
    requires m > 0 && a == m * q + r && r < m
    ensures a % m == r && a / m == q
  {
    var d, e := a / m, a % m;
    assert a == m * d + e && e < m;
    if d < q {
      MulSteps(m, d, q);
    } else if q < d {
      MulSteps(m, q, d);
    }
  }

  /** Quotient and remainder under names, so that proofs can treat them as opaque numbers. */
  function Div(a: nat, b: nat): (q: nat)
    requires b > 0
    ensures b >= 2 && a > 0 ==> q < a
    ensures a < b ==> q == 0
  {
    a / b
  }

  function Mod(a: nat, b: nat): (r: nat)
    requires b > 0
    ensures r < b
    ensures a < b ==> r == a
  {
    a % b
  }

  lemma DivMod(a: nat, b: nat)
    requires b > 0
    ensures a == b * Div(a, b) + Mod(a, b)
  {
  }

  lemma DivBelow(v: nat, b: nat, p: nat)
    requires b > 0
    ensures Div(v, b) < p <==> v < b * p
  {
    hide Div, Mod;
    DivMod(v, b);
    if Div(v, b) < p {
      MulSteps(b, Div(v, b), p);
    } else if p < Div(v, b) {
      MulSteps(b, p, Div(v, b));
    }
  }

  lemma MulBelow(b: nat, r: nat, p: nat, e: nat)
    requires r < p && e < b
    ensures b * r + e < b * p
  {
    MulSteps(b, r, p);
  }

  lemma HalfMod(a: nat, p: nat)
    requires p > 0
    ensures a % (2 * p) == 2 * ((a / 2) % p) + a % 2
  {
    var q, r := (a / 2) / p, (a / 2) % p;
    assert a == 2 * p * q + (2 * r + a % 2);
    ModIs(a, 2 * p, q, 2 * r + a % 2);
  }

  function Pow(b: nat, n: nat): (p: nat)
    ensures b > 0 ==> p > 0
  {
    if n == 0 then 1 else b * Pow(b, n - 1)
  }

  lemma PowStep(b: nat, n: nat)
    ensures Pow(b, n + 1) == b * Pow(b, n)
  {
  }

  lemma {:induction false} PowAdds(b: nat, m: nat, n: nat)
    ensures Pow(b, m + n) == Pow(b, m) * Pow(b, n)
  {
    if m > 0 {
      PowAdds(b, m - 1, n);
      MulAssoc(b, Pow(b, m - 1), Pow(b, n));
    }
  }

  lemma {:induction false} PowGrows(b: nat, c: nat, n: nat)
    requires 0 < b <= c
    ensures Pow(b, n) <= Pow(c, n)
  {
    if n > 0 {
      PowGrows(b, c, n - 1);
      MulGrows(b, c, Pow(b, n - 1), Pow(c, n - 1));
    }
  }

  lemma MulGrows(b: nat, c: nat, p: nat, q: nat)
    requires b <= c && p <= q
    ensures b * p <= c * q
  {
    assert b * p <= c * p <= c * q;
  }

  // ---------- powers of two ----------

  function Pow2(k: nat): (p: nat)
    ensures p >= 1
  {
    Pow(2, k)
  }

  lemma Pow2Step(k: nat)
    ensures Pow2(k) == if k == 0 then 1 else 2 * Pow2(k - 1)
  {
  }

  lemma Pow2Adds(a: nat, b: nat)
    ensures Pow2(a + b) == Pow2(a) * Pow2(b)
  {
    PowAdds(2, a, b);
  }

  lemma {:induction false} Pow2Grows(k: nat, w: nat)
    requires k <= w
    ensures Pow2(k) <= Pow2(w)
  {
    if k < w { Pow2Grows(k, w - 1); }
  }
}
