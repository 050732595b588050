/** What formatted integers mean: parsing them, and how wide they are. */
module PrintParse {
  import opened Arithmetic
  import opened Sequences
  import opened Digits
  import opened Printf

  /** Zeros behind the least significant-first digits add nothing. */
  lemma {:induction false} ZerosAddNothing(ds: seq<char>, n: int, base: nat)
    ensures Value(ds + Repeat('0', n), base) == Value(ds, base)
    decreases |ds|
  {
    var z := Repeat('0', n);
    if ds == [] {
      assert ds + z == z;
      ZerosAreZero(z, base);
    } else {
      assert (ds + z)[1..] == ds[1..] + z;
      ZerosAddNothing(ds[1..], n, base);
    }
  }

  lemma {:induction false} ZerosAreZero(z: seq<char>, base: nat)
    requires forall i :: 0 <= i < |z| ==> z[i] == '0'
    ensures Value(z, base) == 0
  {
    if z != [] { ZerosAreZero(z[1..], base); }
  }

  lemma AtoiPlain(s: seq<char>)
    requires s != [] ==> s[0] != '-'
    ensures AtoiValue(s) == Wrap(Decimal(s[..DigitRun(s)]))
  {
  }

  lemma AtoiMinus(s: seq<char>)
    ensures AtoiValue(['-'] + s) == Wrap(-(Decimal(s[..DigitRun(s)]) as int))
  {
    hide Wrap, Decimal, DigitRun;
    assert (['-'] + s)[1..] == s;
  }

  /** atoi on an optional minus, digits, and something that is not a digit. */
  lemma AtoiOfDigits(minus: bool, core: seq<char>, post: seq<char>)
    requires forall i :: 0 <= i < |core| ==> IsDigit(core[i])
    requires post != [] ==> !IsDigit(post[0]) && (minus || core != [] || post[0] != '-')
    ensures AtoiValue((if minus then ['-'] else []) + core + post) == if minus then Wrap(-(Decimal(core) as int)) else Wrap(Decimal(core))
  {
    hide Wrap, Decimal, DigitRun, AtoiValue;
    var s := core + post;
    RunIs(s, |core|);
    assert s[..|core|] == core;
    if minus {
      AtoiMinus(s);
      assert ['-'] + core + post == ['-'] + s;
    } else {
      assert [] + core + post == s;
      AtoiPlain(s);
    }
  }

  /** atoi of any string: behind an optional minus, the number of the leading digits with its sign, as an int that is
      congruent to it modulo 2^32. */
  lemma AtoiMeans(minus: bool, digits: seq<char>, tail: seq<char>)
    requires forall i :: 0 <= i < |digits| ==> IsDigit(digits[i])
    requires tail != [] ==> !IsDigit(tail[0]) && (minus || digits != [] || tail[0] != '-')
    ensures var r := AtoiValue((if minus then ['-'] else []) + digits + tail);
      && -0x8000_0000 <= r < 0x8000_0000
      && (r - if minus then -(Decimal(digits) as int) else Decimal(digits)) % 0x1_0000_0000 == 0
  {
    hide Wrap, Decimal, AtoiValue;
    AtoiOfDigits(minus, digits, tail);
    WrapIsResidue(if minus then -(Decimal(digits) as int) else Decimal(digits));
  }

  lemma WrapIsResidue(x: int)
    ensures (Wrap(x) - x) % 0x1_0000_0000 == 0
  {
    var q := (x + 0x8000_0000) / 0x1_0000_0000;
    assert Wrap(x) - x == -q * 0x1_0000_0000;
  }

  /** A leading space or plus ends atoi at once. */
  lemma AtoiOfOther(s: seq<char>)
    requires s != [] && s[0] != '-' && !IsDigit(s[0])
    ensures AtoiValue(s) == 0
  {
    assert s[..DigitRun(s)] == [];
  }

  lemma AtoiIsInt(s: seq<char>)
    ensures -0x8000_0000 <= AtoiValue(s) < 0x8000_0000
  {
  }

  /** The digits of x with their leading zeros, as the buffer holds them. */
  function Padded(x: int, prec: nat, width: nat, f: Flags): seq<char> {
    WithZeros(
      if !f.precision || x != 0 then LoopDigits(if x < 0 then -x else x, 10, f.upper) else [],
      prec, DigitWidth(x < 0, width, f), f)
  }

  lemma PaddedValue(x: int, prec: nat, width: nat, f: Flags)
    requires -0x8000_0000 < x < 0x8000_0000
    ensures var core := Reversed(Padded(x, prec, width, f));
      (forall i :: 0 <= i < |core| ==> IsDigit(core[i])) && Decimal(core) == if x < 0 then -x else x
  {
    hide LoopDigits, Value, Decimal, Reversed;
    var n := if x < 0 then -x else x;
    var ds := if !f.precision || x != 0 then LoopDigits(n, 10, f.upper) else [];
    LoopIsExact(n, 10, f.upper);
    LoopDigitsAreDigits(n, f.upper);
    ValueStep([], 10);
    assert Value(ds, 10) == n;
    var w := DigitWidth(x < 0, width, f);
    var p := ZeroPadded(ds, prec);
    ZerosAddNothing(ds, Min(prec, NTOA_BUFFER_SIZE) - |ds|, 10);
    ZerosAddNothing(p, Min(w, NTOA_BUFFER_SIZE) - |p|, 10);
    var buf := Padded(x, prec, width, f);
    assert buf == if f.left then ds else if f.zeropad then ZeroPadded(p, w) else p;
    ReversedDigits(buf);
    DecimalOfReversed(buf);
  }

  /** The sign that is asked for. */
  function Wanted(negative: bool, f: Flags): seq<char> {
    if negative then "-" else if f.plus then "+" else if f.space then " " else ""
  }

  /** The sign character that it gets: only if the conversion buffer has room behind the digits. */
  function Shown(digits: nat, negative: bool, f: Flags): seq<char> {
    if digits < NTOA_BUFFER_SIZE then Wanted(negative, f) else []
  }

  /**
   atoi undoes a formatted "d" conversion, whatever the flags, width, precision and
   length, exactly when the number is an int and is 0, or no space is put in front, a
   minus still found room in the conversion buffer, and a plus or space did not.
   */
  lemma ParseUndoesFormatIff(v: int, prec: nat, width: nat, f: Flags)
    requires SignedArg(v, IntegerFlags('d', f)) != -0x8000_0000
    ensures var g := IntegerFlags('d', f);
      var x := SignedArg(v, g);
      var digits := |Padded(x, prec, width, g)|;
      AtoiValue(IntegerText('d', v, prec, width, f)) == x <==>
        && -0x8000_0000 < x < 0x8000_0000
        && (|| x == 0
            || ((g.left || g.zeropad || width <= digits + |Shown(digits, x < 0, g)|)
                && Shown(digits, x < 0, g) == if x < 0 then ['-'] else []))
  {
    hide Wrap, Decimal, Padded, IntegerText, WithSign, IntegerFlags, SignedArg, AtoiValue, Reversed, DigitWidth, Shown;
    var g := IntegerFlags('d', f);
    var x := SignedArg(v, g);
    var text := IntegerText('d', v, prec, width, f);
    AtoiIsInt(text);
    if -0x8000_0000 < x < 0x8000_0000 { ParseUndoesIntIff(v, prec, width, f); }
  }

  lemma ParseUndoesIntIff(v: int, prec: nat, width: nat, f: Flags)
    requires -0x8000_0000 < SignedArg(v, IntegerFlags('d', f)) < 0x8000_0000
    ensures var g := IntegerFlags('d', f);
      var x := SignedArg(v, g);
      var digits := |Padded(x, prec, width, g)|;
      AtoiValue(IntegerText('d', v, prec, width, f)) == x <==>
        || x == 0
        || ((g.left || g.zeropad || width <= digits + |Shown(digits, x < 0, g)|)
            && Shown(digits, x < 0, g) == if x < 0 then ['-'] else [])
  {
    hide Wrap, Decimal, Padded, IntegerText, WithSign, IntegerFlags, SignedArg, AtoiValue, Reversed, DigitWidth, Shown;
    var g := IntegerFlags('d', f);
    var x := SignedArg(v, g);
    var padded := Padded(x, prec, width, g);
    var sign := Shown(|padded|, x < 0, g);
    var n := |padded| + |sign|;
    PaddedValue(x, prec, width, g);
    TextParts(v, prec, width, f);
    SignedBuffer(padded, x < 0, g);
    WidthMatters(x < 0, width, g);
    WrapFits(x);
    WrapFits(-x);
    ShownIs(|padded|, x < 0, g);
    var w := DigitWidth(x < 0, width, g);
    var pre := if g.left || g.zeropad then [] else Repeat(' ', w - n);
    var post := if g.left then Repeat(' ', w - n) else [];
    var text := IntegerText('d', v, prec, width, f);
    assert text == pre + (sign + Reversed(padded)) + post;
    if pre != [] {
      AtoiOfOther(text);
    } else {
      assert text == sign + Reversed(padded) + post;
      if sign == [] || sign == ['-'] {
        AtoiOfDigits(sign != [], Reversed(padded), post);
      } else {
        AtoiOfOther(text);
      }
    }
  }

  lemma ShownIs(digits: nat, negative: bool, g: Flags)
    ensures Shown(digits, negative, g) in [[], ['-'], ['+'], [' ']]
    ensures Shown(digits, negative, g) == ['-'] ==> negative
    ensures negative ==> Shown(digits, negative, g) in [[], ['-']]
  {
  }

  lemma SignedBuffer(padded: seq<char>, negative: bool, g: Flags)
    ensures var sign := Shown(|padded|, negative, g);
      && Reversed(WithSign(padded, negative, g)) == sign + Reversed(padded)
      && |WithSign(padded, negative, g)| == |padded| + |sign|
  {
    var sign := Shown(|padded|, negative, g);
    assert WithSign(padded, negative, g) == padded + sign;
    hide Reversed, WithSign, Shown;
    if sign == [] {
      assert padded + sign == padded;
    } else {
      ReversedSnoc(padded, sign[0]);
      assert sign == [sign[0]];
    }
  }

  lemma WidthMatters(negative: bool, width: nat, g: Flags)
    ensures g.left || !g.zeropad ==> DigitWidth(negative, width, g) == width
  {
  }

  lemma TextParts(v: int, prec: nat, width: nat, f: Flags)
    ensures var g := IntegerFlags('d', f);
      var x := SignedArg(v, g);
      IntegerText('d', v, prec, width, f) ==
        PaddedReverse(WithSign(Padded(x, prec, width, g), x < 0, g), DigitWidth(x < 0, width, g), g)
  {
    hide SignedArg, LoopDigits, PaddedReverse, WithZeros, WithSign, DigitWidth;
    var g := IntegerFlags('d', f);
    assert BaseOf('d') == 10 && !g.hash;
  }

  /** The parts of a number's text, and how many digits the value takes. */
  datatype Parts = Parts(pre: seq<char>, sign: seq<char>, core: seq<char>, post: seq<char>, digits: nat)

  ghost predicate Spaces(s: seq<char>) {
    forall i :: 0 <= i < |s| ==> s[i] == ' '
  }

  ghost predicate IsNumeric(c: char, base: nat, upper: bool) {
    || ('0' <= c <= '9' && (c - '0') as nat < base)
    || (upper && 'A' <= c <= 'F' && (c - 'A') as nat + 10 < base)
    || (!upper && 'a' <= c <= 'f' && (c - 'a') as nat + 10 < base)
  }

  /** `core` is a numeral of the value in the base, with the letters of the case. */
  ghost predicate IsNumeral(core: seq<char>, value: nat, base: nat, upper: bool) {
    (forall i :: 0 <= i < |core| ==> IsNumeric(core[i], base, upper)) && Value(Reversed(core), base) == value
  }

  /** The value takes n digits, at least one, but none if it is 0 and a precision is given. */
  ghost predicate TakesDigits(n: nat, value: nat, base: nat, f: Flags) {
    && (n == 0 <==> f.precision && value == 0)
    && (n > 0 ==> forall k: nat :: k > 0 ==> (n <= k <==> value < Pow(base, k)))
  }

  function Max(a: int, b: int): int {
    if a < b then b else a
  }

  /**
   `t` is how a number without prefix is to be put out: a numeral of its value, with
   no more digits than the value, the precision and the zeros that fill the field
   take, as far as 32 of them go; its sign in front, if there is still room in these
   32; and spaces on the side that the flags say, as many as make up the width.
   */
  ghost predicate IsNumber(t: seq<char>, r: Parts, value: nat, negative: bool, base: nat, prec: nat, width: nat, f: Flags) {
    var sign := Wanted(negative, f);
    var fill := if f.zeropad && width > 0 then width - |sign| else 0;
    && t == r.pre + r.sign + r.core + r.post && Spaces(r.pre) && Spaces(r.post)
    && (f.left || f.zeropad ==> r.pre == []) && (!f.left ==> r.post == [])
    && (f.left || !f.zeropad ==> |t| == Max(width, |r.sign + r.core|))
    && r.sign == (if |r.core| < 32 then sign else [])
    && IsNumeral(r.core, value, base, f.upper) && TakesDigits(r.digits, value, base, f)
    && |r.core| == if f.left then r.digits else Max(r.digits, Max(Min(prec, 32), Min(fill, 32)))
  }

  /** Every number that the 32-byte buffer can hold is put out like that; LoopIsExact says which those are. */
  lemma NumberIsNumeral(value: nat, negative: bool, base: nat, prec: nat, width: nat, f: Flags) returns (r: Parts)
    requires 2 <= base <= 16 && value < Pow(base, NTOA_BUFFER_SIZE) && (f.hash ==> value == 0)
    ensures IsNumber(NumberText(value, negative, base, prec, width, f), r, value, negative, base, prec, width, f)
  {
    hide Value, LoopDigits, Pow, Reversed, NumberText, IsNumeral, TakesDigits, WithSign, DigitWidth, Shown, WithZeros,
      PaddedReverse, Wanted;
    var ds := if !f.precision || value != 0 then LoopDigits(value, base, f.upper) else [];
    var w := DigitWidth(negative, width, f);
    var buf := WithZeros(ds, prec, w, f);
    var pre, post := SpacesAround(buf, negative, width, f);
    NumberParts(value, negative, base, prec, width, f);
    FieldWidth(negative, width, f, |buf|);
    DigitsTaken(value, base, f);
    BufferIsNumeral(value, base, prec, w, f);
    r := Parts(pre, Shown(|buf|, negative, f), Reversed(buf), post, |ds|);
  }

  /** The sign is put in front of the digits, and spaces where the flags say. */
  lemma SpacesAround(buf: seq<char>, negative: bool, width: nat, f: Flags) returns (pre: seq<char>, post: seq<char>)
    ensures var t := PaddedReverse(WithSign(buf, negative, f), DigitWidth(negative, width, f), f);
      var sign := Shown(|buf|, negative, f);
      && t == pre + sign + Reversed(buf) + post && Spaces(pre) && Spaces(post)
      && (f.left || f.zeropad ==> pre == []) && (!f.left ==> post == [])
      && (f.left || !f.zeropad ==> |t| == Max(width, |sign| + |buf|))
  {
    hide Reversed, WithSign, DigitWidth, Shown;
    var w := DigitWidth(negative, width, f);
    SignedBuffer(buf, negative, f);
    WidthMatters(negative, width, f);
    var n := |WithSign(buf, negative, f)|;
    pre := if f.left || f.zeropad then [] else Repeat(' ', w - n);
    post := if f.left then Repeat(' ', w - n) else [];
    assert pre + (Shown(|buf|, negative, f) + Reversed(buf)) + post == pre + Shown(|buf|, negative, f) + Reversed(buf) + post;
  }

  lemma NumberParts(value: nat, negative: bool, base: nat, prec: nat, width: nat, f: Flags)
    requires 2 <= base <= 16 && (f.hash ==> value == 0)
    ensures var ds := if !f.precision || value != 0 then LoopDigits(value, base, f.upper) else [];
      var w := DigitWidth(negative, width, f);
      NumberText(value, negative, base, prec, width, f)
        == PaddedReverse(WithSign(WithZeros(ds, prec, w, f), negative, f), w, f)
  {
    hide LoopDigits, WithZeros, WithSign, DigitWidth, PaddedReverse;
    var g := f.(hash := false);
    var ds := if !f.precision || value != 0 then LoopDigits(value, base, f.upper) else [];
    var w := DigitWidth(negative, width, f);
    HashChangesNothing(ds, negative, prec, width, f, g);
    assert NumberText(value, negative, base, prec, width, f) == FormatText(ds, negative, base, prec, width, g);
  }

  lemma HashChangesNothing(ds: seq<char>, negative: bool, prec: nat, width: nat, f: Flags, g: Flags)
    requires g == f.(hash := false)
    ensures DigitWidth(negative, width, g) == DigitWidth(negative, width, f)
    ensures forall w: nat :: WithZeros(ds, prec, w, g) == WithZeros(ds, prec, w, f)
    ensures forall b: seq<char> :: WithSign(b, negative, g) == WithSign(b, negative, f)
    ensures forall b: seq<char>, w: nat :: PaddedReverse(b, w, g) == PaddedReverse(b, w, f)
  {
    hide Reversed, Repeat;
  }

  /** What is left of the width for the digits, and the sign that is shown. */
  lemma FieldWidth(negative: bool, width: nat, f: Flags, n: nat)
    ensures !f.left && f.zeropad ==>
      DigitWidth(negative, width, f) == if width > 0 then width - |Wanted(negative, f)| else 0
    ensures Shown(n, negative, f) == if n < 32 then Wanted(negative, f) else []
  {
  }

  lemma DigitsTaken(value: nat, base: nat, f: Flags)
    requires 2 <= base <= 16 && value < Pow(base, NTOA_BUFFER_SIZE)
    ensures var ds := if !f.precision || value != 0 then LoopDigits(value, base, f.upper) else []; TakesDigits(|ds|, value, base, f)
  {
    hide Pow, DigitsOf;
    DigitCount(value, base, f.upper, NTOA_BUFFER_SIZE);
    forall k: nat | k > 0 ensures |DigitsOf(value, base, f.upper)| <= k <==> value < Pow(base, k) {
      DigitCount(value, base, f.upper, k);
    }
  }

  /** Leading zeros keep the digits a numeral of the value, and are as many as asked for. */
  lemma BufferIsNumeral(value: nat, base: nat, prec: nat, width: nat, f: Flags)
    requires 2 <= base <= 16 && value < Pow(base, NTOA_BUFFER_SIZE)
    ensures var ds := if !f.precision || value != 0 then LoopDigits(value, base, f.upper) else [];
      var buf := WithZeros(ds, prec, width, f);
      && IsNumeral(Reversed(buf), value, base, f.upper)
      && |buf| == if f.left then |ds| else Max(|ds|, Max(Min(prec, 32), if f.zeropad then Min(width, 32) else 0))
  {
    hide Value, LoopDigits, Pow, Reversed, IsNumeric;
    var ds := if !f.precision || value != 0 then LoopDigits(value, base, f.upper) else [];
    var padded := ZeroPadded(ds, prec);
    var buf := WithZeros(ds, prec, width, f);
    LoopIsExactIff(value, base, f.upper);
    ValueStep([], base);
    ZerosAddNothing(ds, Min(prec, NTOA_BUFFER_SIZE) - |ds|, base);
    ZerosAddNothing(padded, Min(width, NTOA_BUFFER_SIZE) - |padded|, base);
    ReversedTwice(buf);
    NumeralDigits(value, base, f.upper);
    ZeroIsNumeric(base, f.upper);
    ReversedAt(buf);
  }

  lemma ZeroIsNumeric(base: nat, upper: bool)
    requires base > 0
    ensures IsNumeric('0', base, upper)
  {
  }

  lemma ZeroDigit()
    ensures DigitValue('0') == 0
  {
  }

  lemma NumeralDigits(value: nat, base: nat, upper: bool)
    requires 2 <= base <= 16
    ensures var ds := LoopDigits(value, base, upper); forall i :: 0 <= i < |ds| ==> IsNumeric(ds[i], base, upper)
  {
    hide IsNumeric;
    DigitsAreNumeric(value, base, upper);
    var ds, all := LoopDigits(value, base, upper), DigitsOf(value, base, upper);
    forall i | 0 <= i < |ds| ensures IsNumeric(ds[i], base, upper) {
      assert ds[i] == all[i] && all[i] == DigitsOf(value, base, upper)[i];
    }
  }

  lemma DigitIsNumeric(d: nat, base: nat, upper: bool)
    requires d < base <= 16
    ensures IsNumeric(DigitChar(d, upper), base, upper)
  {
  }

  lemma {:induction false} DigitsAreNumeric(v: nat, base: nat, upper: bool)
    requires 2 <= base <= 16
    ensures var ds := DigitsOf(v, base, upper); forall i :: 0 <= i < |ds| ==> IsNumeric(ds[i], base, upper)
    decreases v
  {
    hide DigitChar, Div, Mod, DigitsOf, IsNumeric;
    DigitsStep(v, base, upper);
    DivMod(v, base);
    DigitIsNumeric(Mod(v, base), base, upper);
    if v >= base { DigitsAreNumeric(Div(v, base), base, upper); }
    var ds := DigitsOf(v, base, upper);
    assert forall i :: 1 <= i < |ds| ==> ds[i] == ds[1..][i - 1];
  }

  /** Unless zeros fill the field, a number takes its width, or the room it takes without one if that is more. */
  lemma NumberFillsWidth(value: nat, negative: bool, base: nat, prec: nat, width: nat, f: Flags)
    requires 2 <= base <= 16 && (!f.zeropad || f.left) && !f.hash
    ensures var bare := |NumberText(value, negative, base, prec, 0, f)|;
      |NumberText(value, negative, base, prec, width, f)| == if width < bare then bare else width
  {
    var digits := if !f.precision || value != 0 then LoopDigits(value, base, f.upper) else [];
    assert WithZeros(digits, prec, width, f) == WithZeros(digits, prec, 0, f);
  }

  /** "%d" prints the sign and the digits. */
  lemma PlainDecimal(v: int)
    requires -0x8000_0000 < v < 0x8000_0000
    ensures Render("%d", 0, [Int(v)], 0) == Some(Printed(v))
    ensures |Printed(v)| <= 11
  {
    var n := if v < 0 then -v else v;
    var ds := LoopDigits(n, 10, false);
    ShortNumber(n);
    hide LoopDigits, DigitRun, Decimal, DigitsOf, Wrap, Render, Reversed;
    assert Padded(v, 0, 0, NO_FLAGS) == ds;
    WrapFits(v);
    TextParts(v, 0, 0, NO_FLAGS);
    SignedBuffer(ds, v < 0, NO_FLAGS);
    assert IntegerText('d', v, 0, 0, NO_FLAGS) == Printed(v);
    RenderPlain([Int(v)]);
  }

  lemma ShortNumber(n: nat)
    requires n < 0x8000_0000
    ensures |LoopDigits(n, 10, false)| <= 10
  {
    assert Pow(10, 10) == 10_000_000_000;
    DigitCount(n, 10, false, 10);
  }

  lemma RenderPlain(args: seq<Arg>)
    requires |args| == 1 && args[0].Int?
    ensures Render("%d", 0, args, 0) == Some(IntegerText('d', args[0].v, 0, 0, NO_FLAGS))
  {
    hide IntegerText;
    var text := IntegerText('d', args[0].v, 0, 0, NO_FLAGS);
    assert FlagsAt("%d", 1, NO_FLAGS, 0) == Field(NO_FLAGS, 0, 1, 0);
    assert PieceAt("%d", 0, args, 0) == Some(Piece(text, 2, 1));
    assert Render("%d", 2, args, 1) == Some([]);
    assert text + [] == text;
  }

  /** Printing an int into a buffer that can hold it and parsing the result gives the int back. */
  method PrintThenParse(v: int, buffer: array<char>) returns (r: int)
    requires -0x8000_0000 < v < 0x8000_0000 && 12 <= buffer.Length < 0x8000_0000
    modifies buffer
    ensures r == v
  {
    PlainDecimal(v);
    var n := Snprintf(buffer, buffer.Length, "%d", [Int(v)]);
    ParseUndoesPrint(v);
    hide Printed, Render, AtoiValue;
    WrapFits(|Printed(v)|);
    assert buffer[..n] == Printed(v);
    r := Atoi(buffer[..n]);
  }
}
