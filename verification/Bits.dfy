/** Bitwise or on numbers. */
module Bits {
  import opened Arithmetic

  function Bit(a: nat, b: nat): (r: nat)
    ensures r < 2
  {
    if a % 2 == 1 || b % 2 == 1 then 1 else 0
  }

  function Or(a: nat, b: nat): nat
    decreases a + b
  {
    if a == 0 && b == 0 then 0 else 2 * Or(a / 2, b / 2) + Bit(a, b)
  }

  lemma OrStep(a: nat, b: nat)
    ensures Or(a, b) == 2 * Or(a / 2, b / 2) + Bit(a, b)
  {
  }

  lemma {:induction false} OrZero(b: nat)
    ensures Or(0, b) == b && Or(b, 0) == b
    decreases b
  {
    if b > 0 { OrZero(b / 2); }
  }

  /** Numbers of k bits, after a shift by k: `or` works on the high and the low parts separately. */
  lemma {:induction false} OrJoin(a: nat, b: nat, x: nat, y: nat, k: nat)
    requires x < Pow2(k) && y < Pow2(k)
    ensures Or(x, y) < Pow2(k)
    ensures Or(Pow2(k) * a + x, Pow2(k) * b + y) == Pow2(k) * Or(a, b) + Or(x, y)
    decreases k
  {
    hide Or, Pow2;
    Pow2Step(k);
    if k == 0 {
      OrZero(0);
    } else {
      var q := Pow2(k - 1);
      OrJoin(a, b, x / 2, y / 2, k - 1);
      OrStep(x, y);
      OrStep(2 * q * a + x, 2 * q * b + y);
      Halve(q, a, x);
      Halve(q, b, y);
      Double(q, Or(a, b), Or(x / 2, y / 2), Bit(x, y));
    }
  }

  lemma Halve(q: nat, a: nat, x: nat)
    ensures (2 * q * a + x) / 2 == q * a + x / 2 && (2 * q * a + x) % 2 == x % 2
  {
    MulAssoc(2, q, a);
    HalfOfSum(q * a, x);
  }

  lemma HalfOfSum(c: nat, x: nat)
    ensures (2 * c + x) / 2 == c + x / 2 && (2 * c + x) % 2 == x % 2
  {
  }

  lemma Double(q: nat, o: nat, r: nat, bit: nat)
    ensures 2 * (q * o + r) + bit == (2 * q) * o + (2 * r + bit)
  {
    MulAssoc(2, q, o);
  }

  /** Bit k. */
  predicate BitAt(a: nat, k: nat) {
    if k == 0 then a % 2 == 1 else BitAt(a / 2, k - 1)
  }

  /** Every bit of b is set in a. */
  ghost predicate Includes(a: nat, b: nat) {
    forall k: nat :: BitAt(b, k) ==> BitAt(a, k)
  }

  lemma IncludesStep(a: nat, b: nat)
    ensures Includes(a, b) <==> (b % 2 == 1 ==> a % 2 == 1) && Includes(a / 2, b / 2)
  {
    if Includes(a, b) {
      assert BitAt(b, 0) ==> BitAt(a, 0);
      forall k: nat | BitAt(b / 2, k) ensures BitAt(a / 2, k) { assert BitAt(b, k + 1); }
    }
    if (b % 2 == 1 ==> a % 2 == 1) && Includes(a / 2, b / 2) {
      forall k: nat | BitAt(b, k) ensures BitAt(a, k) { assert k > 0 ==> BitAt(b / 2, k - 1); }
    }
  }

  /** `or` adds nothing exactly when every bit of the second number is set in the first. */
  lemma {:induction false} OrAddsNothingIff(a: nat, b: nat)
    ensures Or(a, b) == a <==> Includes(a, b)
    decreases a + b
  {
    hide Or, Includes, BitAt;
    if a == 0 && b == 0 {
      OrZero(0);
      ZeroIncludesZero();
    } else {
      OrAddsNothingIff(a / 2, b / 2);
      OrStep(a, b);
      IncludesStep(a, b);
    }
  }

  lemma ZeroIncludesZero()
    ensures Includes(0, 0)
  {
  }
}
