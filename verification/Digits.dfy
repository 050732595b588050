/**
 Integers as strings: the digit loop of src/printf.c, and the two parsers, atoi
 (src/strhelp.c, right to left) and _atoi (src/printf.c, left to right).
 C's int and unsigned int are 32 bits wide; sums and products wrap.
 */
module Digits {
  import opened Arithmetic
  import opened Sequences

  const U32: int := 0x1_0000_0000

  function DigitChar(d: nat, upper: bool): char
    requires d < 16
  {
    if d < 10 then '0' + d as char else (if upper then 'A' else 'a') + (d - 10) as char
  }

  function DigitValue(c: char): (d: nat)
    ensures d < 16
  {
    if '0' <= c <= '9' then (c - '0') as nat
    else if 'a' <= c <= 'f' then (c - 'a') as nat + 10
    else if 'A' <= c <= 'F' then (c - 'A') as nat + 10
    else 0
  }

  lemma DigitRoundTrip(d: nat, upper: bool)
    requires d < 16
    ensures DigitValue(DigitChar(d, upper)) == d
    ensures d < 10 <==> '0' <= DigitChar(d, upper) <= '9'
  {
  }

  /** The digits of v, least significant first, as the loop produces them; at least one. */
  function DigitsOf(v: nat, base: nat, upper: bool): (ds: seq<char>)
    requires 2 <= base <= 16
    ensures |ds| >= 1
    decreases v
  {
    [DigitChar(Mod(v, base), upper)] + if v < base then [] else DigitsOf(Div(v, base), base, upper)
  }

  /** The number a digit string stands for, least significant digit first. */
  function Value(ds: seq<char>, base: nat): nat {
    if ds == [] then 0 else DigitValue(ds[0]) + base * Value(ds[1..], base)
  }

  /** All the digits together stand for the value. */
  lemma {:induction false} ValueOfDigits(v: nat, base: nat, upper: bool)
    requires 2 <= base <= 16
    ensures Value(DigitsOf(v, base, upper), base) == v
    decreases v
  {
    hide DigitValue, DigitChar, DigitsOf, Value, Div, Mod;
    var ds := DigitsOf(v, base, upper);
    DigitsStep(v, base, upper);
    DigitRoundTrip(Mod(v, base), upper);
    ValueStep(ds, base);
    ValueStep([], base);
    DivMod(v, base);
    if v >= base { ValueOfDigits(Div(v, base), base, upper); }
  }

  /** n digits stand for less than base^n. */
  lemma {:induction false} ValueBelow(ds: seq<char>, base: nat)
    requires base > 0 && forall i :: 0 <= i < |ds| ==> DigitValue(ds[i]) < base
    ensures Value(ds, base) < Pow(base, |ds|)
  {
    hide DigitValue, Value, Pow;
    ValueStep(ds, base);
    PowZero(base);
    if ds != [] {
      ValueBelow(ds[1..], base);
      PowStep(base, |ds| - 1);
      MulBelow(base, Value(ds[1..], base), Pow(base, |ds| - 1), DigitValue(ds[0]));
    }
  }

  lemma {:induction false} DigitsBelowBase(v: nat, base: nat, upper: bool)
    requires 2 <= base <= 16
    ensures forall i :: 0 <= i < |DigitsOf(v, base, upper)| ==> DigitValue(DigitsOf(v, base, upper)[i]) < base
    decreases v
  {
    hide DigitValue, DigitChar;
    DigitRoundTrip(Mod(v, base), upper);
    if v >= base { DigitsBelowBase(Div(v, base), base, upper); }
  }

  lemma DigitsStep(v: nat, base: nat, upper: bool)
    requires 2 <= base <= 16
    ensures var ds := DigitsOf(v, base, upper);
      ds[0] == DigitChar(Mod(v, base), upper) && ds[1..] == if v < base then [] else DigitsOf(Div(v, base), base, upper)
  {
  }

  lemma ValueStep(ds: seq<char>, base: nat)
    ensures Value(ds, base) == if ds == [] then 0 else DigitValue(ds[0]) + base * Value(ds[1..], base)
  {
  }

  lemma PowZero(b: nat)
    ensures Pow(b, 0) == 1
  {
  }

  /** v has at most n digits exactly when it is below base^n. */
  lemma {:induction false} DigitCount(v: nat, base: nat, upper: bool, n: nat)
    requires 2 <= base <= 16 && n > 0
    ensures |DigitsOf(v, base, upper)| <= n <==> v < Pow(base, n)
    decreases v
  {
    hide DigitsOf, Pow, Div, Mod;
    DigitsStep(v, base, upper);
    PowZero(base);
    PowStep(base, 0);
    PowStep(base, n - 1);
    if v < base {
      PowAtLeast(base, n);
    } else if n > 1 {
      DigitCount(Div(v, base), base, upper, n - 1);
      DivBelow(v, base, Pow(base, n - 1));
    }
  }

  lemma {:induction false} PowAtLeast(base: nat, n: nat)
    requires base >= 2 && n > 0
    ensures Pow(base, n) >= base
  {
    if n > 1 { PowAtLeast(base, n - 1); } else { assert Pow(base, 0) == 1; }
  }

  const NTOA_BUFFER_SIZE: nat := 32

  /** What the digit loop leaves in its buffer. */
  function LoopDigits(v: nat, base: nat, upper: bool): (ds: seq<char>)
    requires 2 <= base <= 16
    ensures 1 <= |ds| <= NTOA_BUFFER_SIZE
  {
    var ds := DigitsOf(v, base, upper);
    if |ds| <= NTOA_BUFFER_SIZE then ds else ds[..NTOA_BUFFER_SIZE]
  }

  /** The loop loses nothing exactly when the value is below base^32. */
  lemma LoopIsExactIff(v: nat, base: nat, upper: bool)
    requires 2 <= base <= 16
    ensures Value(LoopDigits(v, base, upper), base) == v <==> v < Pow(base, NTOA_BUFFER_SIZE)
  {
    hide Pow, Value, DigitsOf;
    var ds := DigitsOf(v, base, upper);
    DigitCount(v, base, upper, NTOA_BUFFER_SIZE);
    DigitsBelowBase(v, base, upper);
    ValueOfDigits(v, base, upper);
    if |ds| > NTOA_BUFFER_SIZE { ValueBelow(ds[..NTOA_BUFFER_SIZE], base); }
  }

  /** Every 64-bit value in bases 8, 10 and 16, and every 32-bit value in base 2 (64 binary digits do not fit). */
  lemma LoopIsExact(v: nat, base: nat, upper: bool)
    requires 8 <= base <= 16 || base == 2
    requires v < if base == 2 then 0x1_0000_0000 else 0x1_0000_0000_0000_0000
    ensures Value(LoopDigits(v, base, upper), base) == v
  {
    LoopIsExactIff(v, base, upper);
    PowersOf2And8();
    if base != 2 { PowGrows(8, base, 32); }
  }

  lemma PowersOf2And8()
    ensures Pow(2, 32) == 0x1_0000_0000 && Pow(8, 32) == Pow(2, 32) * Pow(2, 32) * Pow(2, 32)
  {
    assert Pow(2, 8) == 256 && Pow(8, 8) == 0x1000000;
    PowAdds(2, 8, 8);
    PowAdds(2, 16, 16);
    PowAdds(8, 8, 8);
    PowAdds(8, 16, 16);
  }

  // ---------- parsing ----------

  /** The number a decimal string stands for, most significant digit first. */
  function Decimal(s: seq<char>): nat {
    if s == [] then 0 else 10 * Decimal(s[..|s| - 1]) + DigitValue(s[|s| - 1])
  }

  predicate IsDigit(c: char) {
    '0' <= c <= '9'
  }

  /** The number of digits a string starts with. */
  function DigitRun(s: seq<char>): (n: nat)
    ensures n <= |s|
    ensures forall i :: 0 <= i < n ==> IsDigit(s[i])
    ensures n < |s| ==> !IsDigit(s[n])
  {
    if s == [] || !IsDigit(s[0]) then 0 else 1 + DigitRun(s[1..])
  }

  /** The value of a 32-bit int after wrap-around. */
  function Wrap(x: int): (r: int)
    ensures -0x8000_0000 <= r < 0x8000_0000
    ensures -0x8000_0000 <= x < 0x8000_0000 ==> r == x
  {
    (x + 0x8000_0000) % U32 - 0x8000_0000
  }

  /** What atoi makes of a string: an optional minus, then as many digits as there are. */
  function AtoiValue(st: seq<char>): int {
    var minus := st != [] && st[0] == '-';
    var s := if minus then st[1..] else st;
    var n: int := Decimal(s[..DigitRun(s)]);
    if minus then Wrap(-n) else Wrap(n)
  }

  /** The leading digit counts for the power of ten of its place. */
  lemma {:induction false} DecimalCons(s: seq<char>)
    requires s != []
    ensures Decimal(s) == Pow(10, |s| - 1) * DigitValue(s[0]) + Decimal(s[1..])
  {
    hide Pow, DigitValue;
    PowZero(10);
    if |s| == 1 {
      assert s[..0] == [] && s[1..] == [];
    } else {
      var t := s[..|s| - 1];
      DecimalCons(t);
      assert s[1..][..|s| - 2] == t[1..];
      PowStep(10, |s| - 2);
      MulAssoc(10, Pow(10, |s| - 2), DigitValue(s[0]));
      Distribute(Pow(10, |s| - 2) * DigitValue(s[0]), Decimal(t[1..]));
    }
  }

  lemma Distribute(a: nat, b: nat)
    ensures 10 * (a + b) == 10 * a + 10 * b
  {
  }

  /** Wrapping takes away a multiple of 2^32, and such a multiple does not show after wrapping. */
  lemma WrapShift(x: int, k: int)
    ensures Wrap(x - U32 * k) == Wrap(x)
  {
  }

  lemma WrapIs(x: int) returns (k: int)
    ensures Wrap(x) == x - U32 * k
  {
    k := (x + 0x8000_0000) / U32;
  }

  lemma WrapSum(a: int, b: int)
    ensures Wrap(Wrap(a) + b) == Wrap(a + b) && Wrap(a + Wrap(b)) == Wrap(a + b)
  {
    hide Wrap;
    var j := WrapIs(a);
    var k := WrapIs(b);
    WrapShift(a + b, j);
    WrapShift(a + b, k);
  }

  lemma WrapProduct(a: int, b: int)
    ensures Wrap(Wrap(a) * b) == Wrap(a * b)
  {
    hide Wrap;
    var k := WrapIs(a);
    assert (a - U32 * k) * b == a * b - U32 * (k * b);
    WrapShift(a * b, k * b);
  }

  lemma WrapNegative(a: int)
    ensures Wrap(-Wrap(a)) == Wrap(-a)
  {
    hide Wrap;
    var k := WrapIs(a);
    WrapShift(-a, -k);
  }

  /** atoi: digits are counted, then added up from the right with a running power of ten. */
  method Atoi(st: seq<char>) returns (r: int)
    ensures r == AtoiValue(st)
  {
    hide Wrap, Pow, Decimal, DigitRun, IsDigit;
    r := 0;
    var p, l, n := 1, 0, 0;
    var s := st;
    if |s| > 0 && s[0] == '-' {
      s := s[1..];
      n := 1;
    }
    while l < |s| && IsDigit(s[l])
      invariant l <= |s| && forall i :: 0 <= i < l ==> IsDigit(s[i])
    {
      l := l + 1;
    }
    RunIs(s, l);
    var i := l - 1;
    AtoiStart();
    assert s[l..l] == [];
    while i >= 0
      invariant -1 <= i < l
      invariant r == Wrap(Decimal(s[i + 1..l])) && p == Wrap(Pow(10, l - 1 - i))
    {
      AtoiStep(s[i..l]);
      assert s[i..l][1..] == s[i + 1..l];
      r := Wrap(r + Wrap(p * DigitValue(s[i])));
      p := Wrap(p * 10);
      i := i - 1;
    }
    assert s[0..l] == s[..l];
    WrapNegative(Decimal(s[..l]));
    if n != 0 {
      r := Wrap(-r);
    }
  }

  lemma AtoiStart()
    ensures Wrap(Decimal([])) == 0 && Wrap(Pow(10, 0)) == 1
  {
  }

  lemma AtoiStep(s: seq<char>)
    requires s != []
    ensures Wrap(Wrap(Decimal(s[1..])) + Wrap(Wrap(Pow(10, |s| - 1)) * DigitValue(s[0]))) == Wrap(Decimal(s))
    ensures Wrap(Wrap(Pow(10, |s| - 1)) * 10) == Wrap(Pow(10, |s|))
  {
    hide Wrap, Pow, Decimal, DigitValue;
    DecimalCons(s);
    WrapStep(Decimal(s[1..]), Pow(10, |s| - 1), DigitValue(s[0]));
    NextPower(|s| - 1);
  }

  lemma NextPower(n: nat)
    ensures Wrap(Wrap(Pow(10, n)) * 10) == Wrap(Pow(10, n + 1))
  {
    hide Wrap, Pow;
    PowStep(10, n);
    WrapProduct(Pow(10, n), 10);
  }

  lemma WrapStep(a: nat, p: nat, d: nat)
    ensures Wrap(Wrap(a) + Wrap(Wrap(p) * d)) == Wrap(p * d + a)
  {
    hide Wrap;
    WrapProduct(p, d);
    WrapSum(a, Wrap(Wrap(p) * d));
    WrapSum(a, p * d);
  }

  lemma {:induction false} RunIs(s: seq<char>, l: nat)
    requires l <= |s| && (forall i :: 0 <= i < l ==> IsDigit(s[i])) && (l < |s| ==> !IsDigit(s[l]))
    ensures DigitRun(s) == l
  {
    if l > 0 { RunIs(s[1..], l - 1); }
  }

  lemma DecimalStep(s: seq<char>)
    requires s != []
    ensures Decimal(s) == 10 * Decimal(s[..|s| - 1]) + DigitValue(s[|s| - 1])
  {
  }

  lemma StepModulo(n: nat, d: nat)
    ensures (n % U32 * 10 + d) % U32 == (10 * n + d) % U32
  {
  }

  /** _atoi: left to right, in an unsigned int, from a position in a string; also gives the position behind the digits. */
  method AtoiUnsigned(s: seq<char>, start: nat) returns (i: nat, at: nat)
    requires start <= |s|
    ensures at == start + DigitRun(s[start..])
    ensures i == Decimal(s[start..at]) % U32
  {
    i, at := 0, start;
    assert s[start..start] == [];
    while at < |s| && IsDigit(s[at])
      invariant start <= at <= |s| && forall k :: start <= k < at ==> IsDigit(s[k])
      invariant i == Decimal(s[start..at]) % U32
    {
      hide Decimal, DigitValue;
      assert s[start..at + 1][..at - start] == s[start..at];
      DecimalStep(s[start..at + 1]);
      StepModulo(Decimal(s[start..at]), DigitValue(s[at]));
      i := (i * 10 + DigitValue(s[at])) % U32;
      at := at + 1;
    }
    RunIs(s[start..], at - start);
  }

  /** The right-to-left and the left-to-right parser agree on every digit string, modulo 2^32. */
  lemma ParsersAgree(s: seq<char>)
    requires DigitRun(s) == |s|
    ensures AtoiValue(s) % U32 == Decimal(s) % U32
    ensures Decimal(s) < 0x8000_0000 ==> AtoiValue(s) == Decimal(s)
  {
    hide Wrap, Decimal, DigitRun;
    assert s[..|s|] == s;
    assert s != [] ==> IsDigit(s[0]);
    WrapIsCongruent(Decimal(s));
  }

  lemma WrapIsCongruent(x: int)
    ensures Wrap(x) % U32 == x % U32
  {
  }

  // ---------- parsing undoes printing ----------

  lemma {:induction false} DecimalOfReversed(ds: seq<char>)
    ensures Decimal(Reversed(ds)) == Value(ds, 10)
  {
    if ds != [] {
      DecimalOfReversed(ds[1..]);
      var r := Reversed(ds);
      assert r[..|r| - 1] == Reversed(ds[1..]);
    }
  }

  lemma {:induction false} DecimalDigits(v: nat, upper: bool)
    ensures forall i :: 0 <= i < |DigitsOf(v, 10, upper)| ==> IsDigit(DigitsOf(v, 10, upper)[i])
    decreases v
  {
    if v >= 10 { DecimalDigits(v / 10, upper); }
  }

  lemma {:induction false} ReversedDigits(ds: seq<char>)
    requires forall i :: 0 <= i < |ds| ==> IsDigit(ds[i])
    ensures forall i :: 0 <= i < |ds| ==> IsDigit(Reversed(ds)[i])
  {
    if ds != [] {
      assert forall i :: 0 <= i < |ds[1..]| ==> ds[1..][i] == ds[i + 1];
      ReversedDigits(ds[1..]);
    }
  }

  /** What "%d" prints. */
  function Printed(v: int): seq<char> {
    (if v < 0 then ['-'] else []) + Reversed(LoopDigits(if v < 0 then -v else v, 10, false))
  }

  /** atoi of what "%d" prints is the number, for every int above the minimum. */
  lemma ParseUndoesPrint(v: int)
    requires -0x8000_0000 < v < 0x8000_0000
    ensures AtoiValue(Printed(v)) == v
  {
    hide LoopDigits, Decimal, Value, Wrap, DigitRun, IsDigit;
    var n := if v < 0 then -v else v;
    var ds := LoopDigits(n, 10, false);
    var s := Reversed(ds);
    LoopIsExact(n, 10, false);
    DecimalOfReversed(ds);
    LoopDigitsAreDigits(n, false);
    ReversedDigits(ds);
    RunIs(s, |s|);
    NotMinus(s[0]);
    WrapFits(v);
    assert s[..|s|] == s;
    assert (['-'] + s)[1..] == s;
    assert [] + s == s;
  }

  lemma NotMinus(c: char)
    requires IsDigit(c)
    ensures c != '-'
  {
  }

  lemma WrapFits(x: int)
    requires -0x8000_0000 <= x < 0x8000_0000
    ensures Wrap(x) == x
  {
  }

  lemma LoopDigitsAreDigits(v: nat, upper: bool)
    ensures forall i :: 0 <= i < |LoopDigits(v, 10, upper)| ==> IsDigit(LoopDigits(v, 10, upper)[i])
  {
    DecimalDigits(v, upper);
  }
}
