/**
 What a conversion specification means: it is read back as it was written, a `*`
 stands for its argument, and the `#` flag puts a prefix in front.
 */
module PrintSpec {
  import opened Arithmetic
  import opened Sequences
  import opened Digits
  import opened Printf
  import opened PrintParse

  // ---------- flags ----------

  /** `g` is `f` with the flags that the characters of `s` set, and no other difference. */
  ghost predicate SetBy(g: Flags, f: Flags, s: seq<char>) {
    && (g.zeropad <==> f.zeropad || '0' in s)
    && (g.left <==> f.left || '-' in s)
    && (g.plus <==> f.plus || '+' in s)
    && (g.space <==> f.space || ' ' in s)
    && (g.hash <==> f.hash || '#' in s)
    && g.upper == f.upper && g.chr == f.chr && g.short == f.short && g.long == f.long
    && g.longlong == f.longlong && g.precision == f.precision
  }

  lemma SetByStep(g: Flags, f: Flags, c: char, s: seq<char>)
    requires IsFlag(c) && SetBy(g, SetFlag(c, f), s)
    ensures SetBy(g, f, [c] + s)
  {
    hide SetFlag;
    FlagSets(c, f);
    ConsHas('0', c, s);
    ConsHas('-', c, s);
    ConsHas('+', c, s);
    ConsHas(' ', c, s);
    ConsHas('#', c, s);
  }

  lemma ConsHas(d: char, c: char, s: seq<char>)
    ensures d in [c] + s <==> d == c || d in s
  {
  }

  lemma FlagSets(c: char, f: Flags)
    requires IsFlag(c)
    ensures var g := SetFlag(c, f);
      g == f.(zeropad := f.zeropad || c == '0', left := f.left || c == '-', plus := f.plus || c == '+',
        space := f.space || c == ' ', hash := f.hash || c == '#')
  {
  }

  /** The flags are the characters that were read, and reading stops at the first other one. */
  lemma {:induction false} FlagsMean(fmt: seq<char>, i: nat, f: Flags, a: nat)
    requires i <= |fmt|
    ensures var r := FlagsAt(fmt, i, f, a);
      && (forall k :: i <= k < r.at ==> IsFlag(fmt[k])) && (r.at < |fmt| ==> !IsFlag(fmt[r.at]))
      && SetBy(r.f, f, fmt[i..r.at]) && r.n == 0
    decreases |fmt| - i
  {
    hide SetBy, SetFlag, IsFlag;
    var r := FlagsAt(fmt, i, f, a);
    if i < |fmt| && IsFlag(fmt[i]) {
      FlagsMean(fmt, i + 1, SetFlag(fmt[i], f), a);
      assert fmt[i..r.at] == [fmt[i]] + fmt[i + 1..r.at];
      SetByStep(r.f, f, fmt[i], fmt[i + 1..r.at]);
    } else {
      NulIsNoFlag();
      assert fmt[i..i] == [];
      SetByNone(f);
    }
  }

  lemma NulIsNoFlag()
    ensures !IsFlag(NUL)
  {
  }

  lemma SetByNone(f: Flags)
    ensures SetBy(f, f, [])
  {
  }

  function One(on: bool, c: char): (r: seq<char>)
    ensures forall d :: d in r <==> on && d == c
  {
    if on then [c] else []
  }

  /** The flags of `f` as characters. */
  function FlagText(f: Flags): seq<char> {
    One(f.left, '-') + One(f.plus, '+') + One(f.space, ' ') + One(f.hash, '#') + One(f.zeropad, '0')
  }

  /** Only flags that are written as such. */
  predicate PlainFlags(f: Flags) {
    f == NO_FLAGS.(zeropad := f.zeropad, left := f.left, plus := f.plus, space := f.space, hash := f.hash)
  }

  lemma FlagTextSets(f: Flags, g: Flags)
    requires PlainFlags(f)
    ensures forall k :: 0 <= k < |FlagText(f)| ==> IsFlag(FlagText(f)[k])
    ensures SetBy(g, NO_FLAGS, FlagText(f)) ==> g == f
  {
    FlagTextHas(f);
    hide FlagText;
  }

  lemma FlagTextHas(f: Flags)
    ensures forall k :: 0 <= k < |FlagText(f)| ==> IsFlag(FlagText(f)[k])
    ensures '-' in FlagText(f) <==> f.left
    ensures '+' in FlagText(f) <==> f.plus
    ensures ' ' in FlagText(f) <==> f.space
    ensures '#' in FlagText(f) <==> f.hash
    ensures '0' in FlagText(f) <==> f.zeropad
  {
    hide One;
    var t := FlagText(f);
    assert forall c :: c in t ==> IsFlag(c);
    forall k | 0 <= k < |t| ensures IsFlag(t[k]) {
      assert t[k] in t;
    }
  }

  lemma FlagTextReadsBack(f: Flags, tail: seq<char>, a: nat)
    requires PlainFlags(f) && (tail != [] ==> !IsFlag(tail[0]))
    ensures FlagsAt(['%'] + FlagText(f) + tail, 1, NO_FLAGS, a) == Field(f, 0, 1 + |FlagText(f)|, a)
  {
    hide FlagText, SetBy, IsFlag, PlainFlags, FlagsAt;
    var t := FlagText(f);
    var fmt := ['%'] + t + tail;
    var n := 1 + |t|;
    var r := FlagsAt(fmt, 1, NO_FLAGS, a);
    FlagTextSets(f, r.f);
    forall k | 1 <= k < n ensures IsFlag(fmt[k]) {
      assert fmt[k] == t[k - 1];
    }
    assert n < |fmt| ==> fmt[n] == tail[0];
    FlagsMean(fmt, 1, NO_FLAGS, a);
    assert r.at == n;
    assert fmt[1..n] == t;
  }

  // ---------- numbers ----------

  function Numeral(n: nat): seq<char> {
    Reversed(DigitsOf(n, 10, false))
  }

  lemma NumeralIsNumber(n: nat)
    ensures |Numeral(n)| > 0 && (forall i :: 0 <= i < |Numeral(n)| ==> IsDigit(Numeral(n)[i])) && Decimal(Numeral(n)) == n
    ensures n > 0 ==> Numeral(n)[0] != '0'
  {
    DecimalDigits(n, false);
    ReversedDigits(DigitsOf(n, 10, false));
    DecimalOfReversed(DigitsOf(n, 10, false));
    ValueOfDigits(n, 10, false);
    ReversedAt(DigitsOf(n, 10, false));
    if n > 0 { LastDigit(n); }
  }

  lemma {:induction false} LastDigit(n: nat)
    requires n > 0
    ensures DigitsOf(n, 10, false)[|DigitsOf(n, 10, false)| - 1] != '0'
    decreases n
  {
    hide Div, Mod;
    DigitsStep(n, 10, false);
    DivMod(n, 10);
    if n >= 10 {
      LastDigit(Div(n, 10));
      var ds := DigitsOf(n, 10, false);
      assert ds[|ds| - 1] == ds[1..][|ds| - 2];
    }
  }

  /** A number in the format is read back, whatever comes before it, if no digit follows. */
  lemma NumberReadsBack(before: seq<char>, n: nat, tail: seq<char>)
    requires n < U32 && (tail != [] ==> !IsDigit(tail[0]))
    ensures NumberAt(before + Numeral(n) + tail, |before|) == (n, |before| + |Numeral(n)|)
  {
    hide Numeral, Decimal, DigitRun, IsDigit;
    var d := Numeral(n);
    var fmt := before + d + tail;
    NumeralIsNumber(n);
    assert fmt[|before|..] == d + tail;
    RunIs(d + tail, |d|);
    assert fmt[|before|..|before| + |d|] == d;
  }

  // ---------- a whole specification ----------

  /** Width 0 is not written: a leading 0 would be a flag. */
  function WidthText(w: nat): seq<char> {
    if w == 0 then [] else Numeral(w)
  }

  function PrecisionText(p: Option<nat>): seq<char> {
    match p
    case None => []
    case Some(n) => ['.'] + Numeral(n)
  }

  predicate IsLength(len: seq<char>) {
    len == [] || len == ['l'] || len == ['l', 'l'] || len == ['h'] || len == ['h', 'h'] || len == ['t'] || len == ['j'] || len == ['z']
  }

  function LengthOf(len: seq<char>, f: Flags): Flags {
    if len == [] then f
    else if len[0] == 'l' then f.(long := true, longlong := f.longlong || |len| == 2)
    else if len[0] == 'h' then f.(short := true, chr := f.chr || |len| == 2)
    else f.(long := true)
  }

  /** No flag, digit, star, dot or length: what may follow a specification. */
  predicate IsConversion(c: char) {
    IsInteger(c) || c in {'c', 's', 'p'}
  }

  lemma ConversionEnds(c: char)
    requires IsConversion(c)
    ensures !IsFlag(c) && !IsDigit(c) && c != '*' && c != '.' && c !in {'l', 'h', 't', 'j', 'z'}
  {
  }

  lemma WidthReadsBack(before: seq<char>, w: nat, rest: seq<char>, args: seq<Arg>, a: nat, f: Flags)
    requires w < U32 && rest != [] && !IsDigit(rest[0]) && rest[0] != '*'
    ensures WidthAt(before + WidthText(w) + rest, |before|, args, a, f) == Some(Field(f, w, |before| + |WidthText(w)|, a))
  {
    hide Numeral, NumberAt, IsDigit;
    var fmt := before + WidthText(w) + rest;
    if w > 0 {
      NumeralIsNumber(w);
      NumberReadsBack(before, w, rest);
      assert fmt[|before|] == Numeral(w)[0];
    } else {
      assert fmt[|before|] == rest[0];
    }
  }

  lemma PrecisionReadsBack(before: seq<char>, p: Option<nat>, rest: seq<char>, args: seq<Arg>, a: nat, f: Flags)
    requires (p.Some? ==> p.value < U32) && rest != [] && !IsDigit(rest[0]) && rest[0] != '.'
    ensures PrecisionAt(before + PrecisionText(p) + rest, |before|, args, a, f)
      == Some(Field(if p.Some? then f.(precision := true) else f, if p.Some? then p.value else 0, |before| + |PrecisionText(p)|, a))
  {
    hide Numeral, NumberAt, IsDigit;
    var fmt := before + PrecisionText(p) + rest;
    if p.Some? {
      NumeralIsNumber(p.value);
      NumberReadsBack(before + ['.'], p.value, rest);
      assert before + PrecisionText(p) == (before + ['.']) + Numeral(p.value);
      assert fmt[|before|] == '.' && fmt[|before| + 1] == Numeral(p.value)[0];
    } else {
      assert fmt[|before|] == rest[0];
    }
  }

  lemma LengthReadsBack(before: seq<char>, len: seq<char>, rest: seq<char>, f: Flags)
    requires IsLength(len) && rest != [] && rest[0] !in {'l', 'h', 't', 'j', 'z'} && !f.longlong && !f.chr
    ensures LengthAt(before + len + rest, |before|, f) == (LengthOf(len, f), |before| + |len|)
  {
    var fmt, i := before + len + rest, |before|;
    assert Peek(fmt, i) == if len == [] then rest[0] else len[0];
    assert len != [] ==> Peek(fmt, i + 1) == if |len| == 1 then rest[0] else len[1];
  }

  /** The specification with these parts, as a format would spell it. */
  function Written(f: Flags, w: nat, p: Option<nat>, len: seq<char>): seq<char> {
    ['%'] + FlagText(f) + WidthText(w) + PrecisionText(p) + len
  }

  /** The flags that the conversion is given. */
  function Given(f: Flags, p: Option<nat>, len: seq<char>): Flags {
    LengthOf(len, if p.Some? then f.(precision := true) else f)
  }

  /**
   Reading undoes writing: whatever the flags, width, precision and length are, the
   conversion behind a written specification is carried out with exactly these.
   */
  lemma SpecReadsBack(f: Flags, w: nat, p: Option<nat>, len: seq<char>, tail: seq<char>, args: seq<Arg>, a: nat)
    requires PlainFlags(f) && w < U32 && (p.Some? ==> p.value < U32) && IsLength(len) && tail != [] && IsConversion(tail[0])
    ensures PieceAt(Written(f, w, p, len) + tail, 0, args, a)
      == Convert(Written(f, w, p, len) + tail, |Written(f, w, p, len)|, args, a, if p.Some? then p.value else 0, w, Given(f, p, len))
  {
    hide FlagText, WidthText, PrecisionText, IsFlag, IsDigit, FlagsAt, WidthAt, PrecisionAt, LengthAt, Convert, LengthOf, Numeral, IsConversion;
    var b1 := ['%'] + FlagText(f);
    var b2 := b1 + WidthText(w);
    var b3 := b2 + PrecisionText(p);
    var fmt := Written(f, w, p, len) + tail;
    var g := if p.Some? then f.(precision := true) else f;
    ConversionEnds(tail[0]);
    var r3 := len + tail;
    var r2 := PrecisionText(p) + r3;
    var r1 := WidthText(w) + r2;
    Followers(w, p, len, tail);
    FlagTextReadsBack(f, r1, a);
    assert fmt == b1 + r1;
    WidthReadsBack(b1, w, r2, args, a, f);
    assert fmt == b1 + WidthText(w) + r2;
    PrecisionReadsBack(b2, p, r3, args, a, f);
    assert fmt == b2 + PrecisionText(p) + r3;
    LengthReadsBack(b3, len, tail, g);
    assert fmt == b3 + len + tail;
    assert fmt[0] == '%';
  }

  /** No part begins like the one before it goes on. */
  lemma Followers(w: nat, p: Option<nat>, len: seq<char>, tail: seq<char>)
    requires IsLength(len) && tail != [] && IsConversion(tail[0])
    ensures var r3 := len + tail;
      var r2 := PrecisionText(p) + r3;
      var r1 := WidthText(w) + r2;
      && r3 != [] && !IsDigit(r3[0]) && r3[0] != '.' && r3[0] != '*' && !IsFlag(r3[0])
      && r2 != [] && !IsDigit(r2[0]) && r2[0] != '*' && !IsFlag(r2[0])
      && r1 != [] && !IsFlag(r1[0])
  {
    hide Numeral;
    var r3 := len + tail;
    assert r3[0] == if len == [] then tail[0] else len[0];
    NumeralIsNumber(w);
    if w > 0 { assert (WidthText(w) + (PrecisionText(p) + r3))[0] == Numeral(w)[0]; }
    assert w == 0 ==> WidthText(w) + (PrecisionText(p) + r3) == PrecisionText(p) + r3;
  }

  // ---------- arguments for width and precision ----------

  lemma SameCharSameText(fmt: seq<char>, i: nat, fmt': seq<char>, i': nat, args: seq<Arg>, a: nat, prec: nat, width: nat, f: Flags)
    requires i < |fmt| && i' < |fmt'| && fmt[i] == fmt'[i']
    ensures var x, y := Convert(fmt, i, args, a, prec, width, f), Convert(fmt', i', args, a, prec, width, f);
      && (x.Some? <==> y.Some?) && (x.Some? ==> x.value.text == y.value.text && x.value.arg == y.value.arg)
  {
  }

  /** Two conversions that print the same and use up the same arguments. */
  ghost predicate SamePiece(x: Option<Piece>, y: Option<Piece>) {
    (x.Some? <==> y.Some?) && (x.Some? ==> x.value.text == y.value.text && x.value.arg == y.value.arg)
  }

  /** A `*` for the width stands for its argument: its size as the width, its sign as the flag for left alignment. */
  lemma StarWidth(w: int, tail: seq<char>, args: seq<Arg>)
    requires -0x8000_0000 < w < 0x8000_0000 && tail != [] && IsConversion(tail[0]) && args != [] && args[0] == Int(w)
    ensures SamePiece(PieceAt(['%', '*'] + tail, 0, args, 0),
      PieceAt(Written(NO_FLAGS.(left := w < 0), if w < 0 then -w else w, None, []) + tail, 0, args, 1))
  {
    hide Convert, Written, IsConversion, Numeral;
    var n := if w < 0 then -w else w;
    var f := NO_FLAGS.(left := w < 0);
    var fmt, other := ['%', '*'] + tail, Written(f, n, None, []) + tail;
    ConversionEnds(tail[0]);
    WrapFits(w);
    SpecReadsBack(f, n, None, [], tail, args, 1);
    assert FlagsAt(fmt, 1, NO_FLAGS, 0) == Field(NO_FLAGS, 0, 1, 0);
    assert fmt[2] == tail[0] == other[|Written(f, n, None, [])|];
    SameCharSameText(fmt, 2, other, |Written(f, n, None, [])|, args, 1, 0, n, f);
  }

  /** A `*` for the precision stands for its argument, or for 0 if that is negative. */
  lemma StarPrecision(p: int, tail: seq<char>, args: seq<Arg>)
    requires -0x8000_0000 <= p < 0x8000_0000 && tail != [] && IsConversion(tail[0]) && args != [] && args[0] == Int(p)
    ensures SamePiece(PieceAt(['%', '.', '*'] + tail, 0, args, 0),
      PieceAt(Written(NO_FLAGS, 0, Some(if p < 0 then 0 else p), []) + tail, 0, args, 1))
  {
    hide Convert, Written, IsConversion, Numeral;
    var n := if p < 0 then 0 else p;
    var f := NO_FLAGS.(precision := true);
    var fmt, other := ['%', '.', '*'] + tail, Written(NO_FLAGS, 0, Some(n), []) + tail;
    ConversionEnds(tail[0]);
    WrapFits(p);
    SpecReadsBack(NO_FLAGS, 0, Some(n), [], tail, args, 1);
    assert FlagsAt(fmt, 1, NO_FLAGS, 0) == Field(NO_FLAGS, 0, 1, 0);
    assert fmt[3] == tail[0] == other[|Written(NO_FLAGS, 0, Some(n), [])|];
    SameCharSameText(fmt, 3, other, |Written(NO_FLAGS, 0, Some(n), [])|, args, 1, n, 0, f);
  }

  // ---------- the # flag ----------

  /** How many of the digits the flag keeps: without a precision, digits that fill the width (or a precision of 0)
      make room for the prefix. */
  function Kept(n: nat, base: nat, prec: nat, width: nat, f: Flags): (k: nat)
    ensures k <= n
  {
    if !f.precision && n > 0 && (n == prec || n == width)
    then (if n > 1 && base == 16 then n - 2 else n - 1)
    else n
  }

  function Prefix(base: nat, f: Flags): seq<char> {
    if base == 16 then (if f.upper then ['0', 'X'] else ['0', 'x'])
    else if base == 2 then ['0', 'b']
    else ['0']
  }

  /** The number starts with the prefix of its base, as long as the buffer has room for it; behind the prefix come
      the digits that are kept, and they stand for the value exactly when it has no more digits than that. */
  lemma HashMeans(value: nat, base: nat, prec: nat, width: nat, f: Flags)
    requires 2 <= base <= 16 && 0 < value < Pow(base, NTOA_BUFFER_SIZE) && f.hash
    ensures var buf := WithZeros(LoopDigits(value, base, f.upper), prec, width, f);
      var k := Kept(|buf|, base, prec, width, f);
      && (k + |Prefix(base, f)| <= NTOA_BUFFER_SIZE ==>
          Reversed(WithHash(buf, base, prec, width, f)) == Prefix(base, f) + Reversed(buf[..k]))
      && (Value(buf[..k], base) == value <==> value < Pow(base, k))
  {
    var ds := LoopDigits(value, base, f.upper);
    var buf := WithZeros(ds, prec, width, f);
    var k := Kept(|buf|, base, prec, width, f);
    PrefixedBuffer(buf, base, prec, width, f);
    LoopIsAll(value, base, f.upper);
    BufferOfDigits(ds, prec, width, f);
    KeptValue(value, base, f.upper, ds, buf, k);
  }

  lemma LoopIsAll(value: nat, base: nat, upper: bool)
    requires 2 <= base <= 16 && value < Pow(base, NTOA_BUFFER_SIZE)
    ensures LoopDigits(value, base, upper) == DigitsOf(value, base, upper)
  {
    hide Pow;
    DigitCount(value, base, upper, NTOA_BUFFER_SIZE);
  }

  lemma PrefixedBuffer(buf: seq<char>, base: nat, prec: nat, width: nat, f: Flags)
    requires f.hash
    ensures var k := Kept(|buf|, base, prec, width, f);
      k + |Prefix(base, f)| <= NTOA_BUFFER_SIZE ==>
        Reversed(WithHash(buf, base, prec, width, f)) == Prefix(base, f) + Reversed(buf[..k])
  {
    var k := Kept(|buf|, base, prec, width, f);
    hide Reversed;
    if k + |Prefix(base, f)| <= NTOA_BUFFER_SIZE {
      var c := buf[..k];
      if |Prefix(base, f)| == 2 {
        var x := Prefix(base, f)[1];
        assert WithHash(buf, base, prec, width, f) == c + [x] + ['0'];
        ReversedSnoc(c, x);
        ReversedSnoc(c + [x], '0');
        assert ['0'] + ([x] + Reversed(c)) == ['0', x] + Reversed(c);
      } else {
        assert WithHash(buf, base, prec, width, f) == c + ['0'];
        ReversedSnoc(c, '0');
      }
    }
  }

  /** The buffer is the digits with zeros behind. */
  lemma BufferOfDigits(ds: seq<char>, prec: nat, width: nat, f: Flags)
    ensures var buf := WithZeros(ds, prec, width, f);
      |ds| <= |buf| && buf[..|ds|] == ds && forall i :: |ds| <= i < |buf| ==> buf[i] == '0'
  {
  }

  lemma KeptValue(value: nat, base: nat, upper: bool, ds: seq<char>, buf: seq<char>, k: nat)
    requires 2 <= base <= 16 && value > 0 && ds == DigitsOf(value, base, upper)
    requires k <= |buf| && |ds| <= |buf| && buf[..|ds|] == ds && forall i :: |ds| <= i < |buf| ==> buf[i] == '0'
    ensures Value(buf[..k], base) == value <==> value < Pow(base, k)
  {
    hide Pow, Value, DigitsOf, DigitValue;
    DigitsBelowBase(value, base, upper);
    ZeroDigit();
    var c := buf[..k];
    if k == 0 {
      ValueStep([], base);
      PowZero(base);
      assert c == [];
    } else {
      DigitCount(value, base, upper, k);
      if |ds| <= k {
        var z := Repeat('0', k - |ds|);
        assert c == ds + z;
        ZerosAddNothing(ds, k - |ds|, base);
        ValueOfDigits(value, base, upper);
      } else {
        assert forall i :: 0 <= i < k ==> c[i] == ds[i];
        ValueBelow(c, base);
      }
    }
  }

  /** So "%#4x" of 0xabcd prints 0xcd: its four digits fill the width, and two of them make room for the prefix. */
  lemma HashCanDropDigits()
    ensures NumberText(0xabcd, false, 16, 0, 4, NO_FLAGS.(hash := true)) == "0xcd"
  {
    var f := NO_FLAGS.(hash := true);
    var ds := DigitsOf(0xabcd, 16, false);
    DigitsStep(0xabcd, 16, false);
    DigitsStep(0xabc, 16, false);
    DigitsStep(0xab, 16, false);
    DigitsStep(0xa, 16, false);
    assert ds == ['d', 'c', 'b', 'a'];
    assert WithHash(ds, 16, 0, 4, f) == ['d', 'c', 'x', '0'];
    assert Reversed(['d', 'c', 'x', '0']) == "0xcd";
  }
}
