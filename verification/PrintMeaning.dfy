/**
 What each conversion of src/printf.c puts out, from its place in a format to the
 characters: literal text, integers in every base and length, pointers, strings,
 characters and percent signs, and how the output of a format is the output of its
 pieces.
 */
module PrintMeaning {
  import opened Arithmetic
  import opened Sequences
  import opened Digits
  import opened Printf
  import opened PrintParse
  import opened PrintSpec

  // ---------- pieces do not depend on what comes before them ----------

  lemma PeekShift(before: seq<char>, fmt: seq<char>, i: nat)
    ensures Peek(before + fmt, |before| + i) == Peek(fmt, i)
  {
  }

  lemma {:induction false} FlagsShift(before: seq<char>, fmt: seq<char>, i: nat, f: Flags, a: nat)
    requires i <= |fmt|
    ensures var r := FlagsAt(fmt, i, f, a); FlagsAt(before + fmt, |before| + i, f, a) == r.(at := |before| + r.at)
    decreases |fmt| - i
  {
    hide SetFlag, IsFlag;
    PeekShift(before, fmt, i);
    if i < |fmt| && IsFlag(fmt[i]) {
      FlagsShift(before, fmt, i + 1, SetFlag(fmt[i], f), a);
      assert |before| + i + 1 == |before| + (i + 1);
    } else {
      NulIsNoFlag();
    }
  }

  lemma NumberShift(before: seq<char>, fmt: seq<char>, i: nat)
    requires i <= |fmt|
    ensures NumberAt(before + fmt, |before| + i) == (NumberAt(fmt, i).0, |before| + NumberAt(fmt, i).1)
  {
    hide DigitRun, Decimal;
    var all, n := before + fmt, DigitRun(fmt[i..]);
    assert all[|before| + i..] == fmt[i..];
    assert all[|before| + i..|before| + i + n] == fmt[i..i + n];
  }

  lemma WidthShift(before: seq<char>, fmt: seq<char>, i: nat, args: seq<Arg>, a: nat, f: Flags)
    requires i <= |fmt|
    ensures var x, y := WidthAt(before + fmt, |before| + i, args, a, f), WidthAt(fmt, i, args, a, f);
      (x.Some? <==> y.Some?) && (y.Some? ==> x.value == y.value.(at := |before| + y.value.at))
  {
    PeekShift(before, fmt, i);
    NumberShift(before, fmt, i);
    hide NumberAt, IsDigit, Wrap, Peek;
    if Peek(fmt, i) == '*' {
      var w := if a < |args| && args[a].Int? then Wrap(args[a].v) else 0;
      assert |before| + i + 1 == |before| + (i + 1);
    }
  }

  lemma PrecisionShift(before: seq<char>, fmt: seq<char>, i: nat, args: seq<Arg>, a: nat, f: Flags)
    requires i <= |fmt|
    ensures var x, y := PrecisionAt(before + fmt, |before| + i, args, a, f), PrecisionAt(fmt, i, args, a, f);
      (x.Some? <==> y.Some?) && (y.Some? ==> x.value == y.value.(at := |before| + y.value.at))
  {
    PeekShift(before, fmt, i);
    PeekShift(before, fmt, i + 1);
    if Peek(fmt, i) == '.' { NumberShift(before, fmt, i + 1); }
    hide NumberAt, IsDigit, Wrap, Peek;
    assert |before| + i + 1 == |before| + (i + 1);
  }

  lemma LengthShift(before: seq<char>, fmt: seq<char>, i: nat, f: Flags)
    requires i <= |fmt|
    ensures LengthAt(before + fmt, |before| + i, f) == (LengthAt(fmt, i, f).0, |before| + LengthAt(fmt, i, f).1)
  {
    PeekShift(before, fmt, i);
    PeekShift(before, fmt, i + 1);
    assert |before| + i + 1 == |before| + (i + 1);
  }

  /** The same piece, from a place that is n characters later. */
  ghost predicate Later(x: Option<Piece>, y: Option<Piece>, n: nat) {
    (x.Some? <==> y.Some?) && (y.Some? ==> x.value == y.value.(at := n + y.value.at))
  }

  lemma ConvertShift(before: seq<char>, fmt: seq<char>, i: nat, args: seq<Arg>, a: nat, prec: nat, width: nat, f: Flags)
    requires i <= |fmt|
    ensures Later(Convert(before + fmt, |before| + i, args, a, prec, width, f), Convert(fmt, i, args, a, prec, width, f), |before|)
  {
    hide IntegerText, CharText, StringText, NumberText, IsInteger;
    PeekShift(before, fmt, i);
  }

  lemma PieceShift(before: seq<char>, fmt: seq<char>, i: nat, args: seq<Arg>, a: nat)
    requires i < |fmt|
    ensures Later(PieceAt(before + fmt, |before| + i, args, a), PieceAt(fmt, i, args, a), |before|)
  {
    hide FlagsAt, WidthAt, PrecisionAt, LengthAt, Convert;
    var n := |before|;
    FlagsShift(before, fmt, i + 1, NO_FLAGS, a);
    assert n + i + 1 == n + (i + 1);
    var x := FlagsAt(fmt, i + 1, NO_FLAGS, a);
    WidthShift(before, fmt, x.at, args, x.arg, x.f);
    var y := WidthAt(fmt, x.at, args, x.arg, x.f);
    if y.Some? {
      PrecisionShift(before, fmt, y.value.at, args, y.value.arg, y.value.f);
      var z := PrecisionAt(fmt, y.value.at, args, y.value.arg, y.value.f);
      if z.Some? {
        LengthShift(before, fmt, z.value.at, z.value.f);
        var l := LengthAt(fmt, z.value.at, z.value.f);
        ConvertShift(before, fmt, l.1, args, z.value.arg, z.value.n, y.value.n, l.0);
      }
    }
  }

  lemma {:induction false} RenderShift(before: seq<char>, fmt: seq<char>, i: nat, args: seq<Arg>, a: nat)
    requires i <= |fmt|
    ensures Render(before + fmt, |before| + i, args, a) == Render(fmt, i, args, a)
    decreases |fmt| - i
  {
    hide PieceAt;
    if i < |fmt| {
      PieceShift(before, fmt, i, args, a);
      var p := PieceAt(fmt, i, args, a);
      if p.Some? { RenderShift(before, fmt, p.value.at, args, p.value.arg); }
    }
  }

  // ---------- the output of a format ----------

  /** The format puts out `text`, and then what the format `rest` puts out with the arguments from `b` on. */
  ghost predicate Puts(fmt: seq<char>, args: seq<Arg>, a: nat, text: seq<char>, rest: seq<char>, b: nat) {
    Render(fmt, 0, args, a) == if Render(rest, 0, args, b).Some? then Some(text + Render(rest, 0, args, b).value) else None
  }

  /** A piece at the start of a format is followed by the output of the rest. */
  lemma PieceThenRest(spec: seq<char>, rest: seq<char>, args: seq<Arg>, a: nat)
    requires spec != []
    requires PieceAt(spec + rest, 0, args, a).Some? && PieceAt(spec + rest, 0, args, a).value.at == |spec|
    ensures var p := PieceAt(spec + rest, 0, args, a).value; Puts(spec + rest, args, a, p.text, rest, p.arg)
  {
    hide PieceAt;
    var p := PieceAt(spec + rest, 0, args, a).value;
    RenderShift(spec, rest, 0, args, p.arg);
  }

  /** Characters other than % stand for themselves, whatever comes behind them. */
  lemma {:induction false} LiteralIsItself(lit: seq<char>, rest: seq<char>, args: seq<Arg>, a: nat)
    requires '%' !in lit
    ensures Puts(lit + rest, args, a, lit, rest, a)
  {
    hide Render;
    if lit == [] {
      assert [] + rest == rest;
      EmptyText(rest, args, a);
    } else {
      var c, more := lit[0], lit[1..];
      assert lit + rest == [c] + (more + rest);
      PieceThenRest([c], more + rest, args, a);
      LiteralIsItself(more, rest, args, a);
      assert Render(rest, 0, args, a).Some? ==>
        [c] + (more + Render(rest, 0, args, a).value) == lit + Render(rest, 0, args, a).value;
    }
  }

  lemma EmptyText(rest: seq<char>, args: seq<Arg>, a: nat)
    ensures Puts(rest, args, a, [], rest, a)
  {
    hide Render;
    assert Render(rest, 0, args, a).Some? ==> [] + Render(rest, 0, args, a).value == Render(rest, 0, args, a).value;
  }

  /** So a format without % puts out itself. */
  lemma PlainText(fmt: seq<char>, args: seq<Arg>, a: nat)
    requires '%' !in fmt
    ensures Render(fmt, 0, args, a) == Some(fmt)
  {
    LiteralIsItself(fmt, [], args, a);
    assert fmt + [] == fmt;
  }

  /** Two percent signs put out one. */
  lemma PercentIsItself(rest: seq<char>, args: seq<Arg>, a: nat)
    ensures Puts("%%" + rest, args, a, "%", rest, a)
  {
    var fmt := "%%" + rest;
    assert fmt[0] == '%' && Peek(fmt, 1) == '%';
    assert FlagsAt(fmt, 1, NO_FLAGS, a) == Field(NO_FLAGS, 0, 1, a);
    assert PieceAt(fmt, 0, args, a) == Some(Piece("%", 2, a));
    PieceThenRest("%%", rest, args, a);
  }

  /** A written specification and its conversion character. */
  function Spec(f: Flags, w: nat, p: Option<nat>, len: seq<char>, c: char): seq<char> {
    Written(f, w, p, len) + [c]
  }

  /** A specification puts out what its conversion makes of its parts. */
  lemma SpecPuts(f: Flags, w: nat, p: Option<nat>, len: seq<char>, c: char, rest: seq<char>, args: seq<Arg>, a: nat)
      returns (q: Piece)
    requires PlainFlags(f) && w < U32 && (p.Some? ==> p.value < U32) && IsLength(len) && IsConversion(c)
    requires a < |args| && (if c == 's' then args[a].Str? else args[a].Int?)
    ensures Puts(Spec(f, w, p, len, c) + rest, args, a, q.text, rest, a + 1)
    ensures var fmt := [c];
      Convert(fmt, 0, args, a, if p.Some? then p.value else 0, w, Given(f, p, len)) == Some(q.(at := 1))
  {
    hide Written, Render, IntegerText, CharText, StringText, NumberText, IsInteger, Given, PlainFlags, IsLength;
    var spec, n, tail := Spec(f, w, p, len, c), |Written(f, w, p, len)|, [c] + rest;
    var fmt := spec + rest;
    assert fmt == Written(f, w, p, len) + tail;
    SpecReadsBack(f, w, p, len, tail, args, a);
    assert Peek(fmt, n) == c;
    ConversionIsKnown(c);
    q := PieceAt(fmt, 0, args, a).value;
    PieceThenRest(spec, rest, args, a);
  }

  lemma ConversionIsKnown(c: char)
    requires IsConversion(c)
    ensures c !in {'f', 'F', 'e', 'E', 'g', 'G'} && (IsInteger(c) || c in {'c', 's', 'p'})
    ensures IsInteger(c) ==> c !in {'c', 's', 'p'}
  {
  }

  // ---------- integers ----------

  /** hh, h, nothing, l, ll, t, j, z */
  datatype Length = Char | Short | Plain | Long | LongLong | PtrDiff | IntMax | Size

  function LengthText(k: Length): (len: seq<char>)
    ensures IsLength(len)
  {
    match k
    case Char => "hh"
    case Short => "h"
    case Plain => ""
    case Long => "l"
    case LongLong => "ll"
    case PtrDiff => "t"
    case IntMax => "j"
    case Size => "z"
  }

  /** How many values an argument of that length has. */
  function Values(k: Length): (n: nat)
    ensures n > 0
  {
    match k
    case Char => 0x100
    case Short => 0x1_0000
    case Plain => 0x1_0000_0000
    case _ => 0x1_0000_0000_0000_0000
  }

  ghost predicate UnsignedBase(c: char, base: nat) {
    || (c == 'u' && base == 10)
    || (c in {'x', 'X'} && base == 16)
    || (c == 'o' && base == 8)
    || (c == 'b' && base == 2)
  }

  /** The same flags for the layout. */
  ghost predicate SameLook(f: Flags, g: Flags) {
    && f.left == g.left && f.zeropad == g.zeropad && f.plus == g.plus && f.space == g.space
    && f.upper == g.upper && f.precision == g.precision
  }

  lemma LengthTextIs(k: Length)
    ensures var t := LengthText(k);
      && |t| == (if k == Plain then 0 else if k == Char || k == LongLong then 2 else 1)
      && (k == Char || k == Short ==> t[0] == 'h') && (k == Long || k == LongLong ==> t[0] == 'l')
      && (k == PtrDiff ==> t[0] == 't') && (k == IntMax ==> t[0] == 'j') && (k == Size ==> t[0] == 'z')
  {
  }

  /** A length changes no flag but its own. */
  lemma LengthFlagsAre(k: Length, f: Flags)
    ensures var g := LengthOf(LengthText(k), f);
      && SameLook(g, f) && g.hash == f.hash
      && (!f.long && !f.longlong ==> (g.long || g.longlong <==> Values(k) == 0x1_0000_0000_0000_0000))
      && (!f.chr ==> (g.chr <==> Values(k) == 0x100))
      && (!f.chr && !f.short ==> (g.short && !g.chr <==> Values(k) == 0x1_0000))
  {
    LengthTextIs(k);
    hide LengthText;
  }

  lemma GivenIs(f: Flags, p: Option<nat>, k: Length)
    requires PlainFlags(f)
    ensures var g := Given(f, p, LengthText(k));
      && SameLook(g, f.(precision := p.Some?)) && g.hash == f.hash
      && (g.long || g.longlong <==> Values(k) == 0x1_0000_0000_0000_0000)
      && (g.chr <==> Values(k) == 0x100) && (g.short && !g.chr <==> Values(k) == 0x1_0000)
  {
    hide LengthOf, LengthText;
    LengthFlagsAre(k, if p.Some? then f.(precision := true) else f);
  }

  /** For an integer, no zeros with a precision, no sign if it is unsigned, capitals for X. */
  lemma IntegerFlagsAre(f: Flags, c: char, p: Option<nat>, k: Length)
    requires PlainFlags(f) && IsInteger(c)
    ensures var g := IntegerFlags(c, Given(f, p, LengthText(k)));
      && SameLook(g, f.(precision := p.Some?, zeropad := f.zeropad && p.None?, upper := c == 'X',
           plus := f.plus && c in {'d', 'i'}, space := f.space && c in {'d', 'i'}))
      && g.hash == (f.hash && c != 'd' && c != 'i' && c != 'u')
  {
    GivenIs(f, p, k);
    KeptForInteger(c, Given(f, p, LengthText(k)));
    hide Given, IntegerFlags;
  }

  /** What the conversion character does to the flags. */
  lemma KeptForInteger(c: char, f: Flags)
    requires IsInteger(c)
    ensures var g := IntegerFlags(c, f);
      && g.left == f.left && g.precision == f.precision && g.zeropad == (f.zeropad && !f.precision)
      && g.plus == (f.plus && (c == 'd' || c == 'i')) && g.space == (f.space && (c == 'd' || c == 'i'))
      && g.upper == (f.upper || c == 'X') && g.hash == (f.hash && c != 'd' && c != 'i' && c != 'u')
      && g.chr == f.chr && g.short == f.short && g.long == f.long && g.longlong == f.longlong
  {
    BasesAre(c);
    hide BaseOf, IsInteger;
  }

  lemma BasesAre(c: char)
    requires IsInteger(c)
    ensures BaseOf(c) == 10 <==> c == 'd' || c == 'i' || c == 'u'
  {
  }

  lemma UnsignedArgIs(f: Flags, c: char, p: Option<nat>, k: Length, v: int)
    requires PlainFlags(f) && IsInteger(c)
    ensures UnsignedArg(v, IntegerFlags(c, Given(f, p, LengthText(k)))) == v % Values(k)
  {
    GivenIs(f, p, k);
    KeptForInteger(c, Given(f, p, LengthText(k)));
    hide Given, Values, IntegerFlags;
    ValuesAre(k);
  }

  lemma ValuesAre(k: Length)
    ensures Values(k) in {0x100, 0x1_0000, 0x1_0000_0000, 0x1_0000_0000_0000_0000}
  {
  }

  /** What a number is to look like depends only on the flags for the layout. */
  lemma SameNumber(t: seq<char>, r: Parts, value: nat, negative: bool, base: nat, prec: nat, width: nat, f: Flags, g: Flags)
    requires IsNumber(t, r, value, negative, base, prec, width, f) && SameLook(f, g)
    ensures IsNumber(t, r, value, negative, base, prec, width, g)
  {
    hide IsNumeral;
  }

  /** u, x, X, o, b, with any flags: what the conversion of the argument's value is, in base 10, 16, 16, 8 or 2. */
  lemma UnsignedPuts(f: Flags, w: nat, p: Option<nat>, k: Length, c: char, rest: seq<char>, args: seq<Arg>, a: nat, base: nat)
      returns (text: seq<char>, g: Flags)
    requires PlainFlags(f) && w < U32 && (p.Some? ==> p.value < U32) && UnsignedBase(c, base) && a < |args| && args[a].Int?
    ensures 2 <= base <= 16 && Puts(Spec(f, w, p, LengthText(k), c) + rest, args, a, text, rest, a + 1)
    ensures text == NumberText(args[a].v % Values(k), false, base, if p.Some? then p.value else 0, w, g)
    ensures g.hash == (f.hash && c != 'u')
    ensures SameLook(g,
      f.(precision := p.Some?, zeropad := f.zeropad && p.None?, upper := c == 'X', plus := false, space := false))
  {
    hide NumberText, Spec, Puts, Given, IntegerFlags, UnsignedArg, PlainFlags, LengthText, Values;
    UnsignedIsInteger(c, base);
    UnsignedArgIs(f, c, p, k, args[a].v);
    IntegerFlagsAre(f, c, p, k);
    var q := SpecPuts(f, w, p, LengthText(k), c, rest, args, a);
    text, g := q.text, IntegerFlags(c, Given(f, p, LengthText(k)));
  }

  /** So, without a prefix, they put out a number: the argument modulo the size of its length. */
  lemma UnsignedMeans(f: Flags, w: nat, p: Option<nat>, k: Length, c: char, rest: seq<char>, args: seq<Arg>, a: nat, base: nat)
      returns (text: seq<char>, r: Parts)
    requires PlainFlags(f) && w < U32 && (p.Some? ==> p.value < U32) && UnsignedBase(c, base)
    requires a < |args| && args[a].Int? && (f.hash ==> c == 'u' || args[a].v % Values(k) == 0)
    requires base == 2 ==> args[a].v % Values(k) < 0x1_0000_0000
    ensures Puts(Spec(f, w, p, LengthText(k), c) + rest, args, a, text, rest, a + 1)
    ensures IsNumber(text, r, args[a].v % Values(k), false, base, if p.Some? then p.value else 0, w,
      f.(precision := p.Some?, zeropad := f.zeropad && p.None?, upper := c == 'X', plus := false, space := false))
  {
    hide NumberText, Spec, Puts, IsNumber, Pow, PlainFlags, LengthText, Values;
    ValuesAre(k);
    var g;
    text, g := UnsignedPuts(f, w, p, k, c, rest, args, a, base);
    var prec, value := if p.Some? then p.value else 0, args[a].v % Values(k);
    SmallEnough(value, base);
    r := NumberIsNumeral(value, false, base, prec, w, g);
    SameNumber(text, r, value, false, base, prec, w, g,
      f.(precision := p.Some?, zeropad := f.zeropad && p.None?, upper := c == 'X', plus := false, space := false));
  }

  /** The signed value of an argument: congruent to it, and in the range of its length, where plain char is unsigned. */
  ghost predicate SignedValue(x: int, v: int, k: Length) {
    && (x - v) % Values(k) == 0
    && if k == Char then 0 <= x < 0x100 else -(Values(k) / 2) <= x < Values(k) / 2
  }

  lemma SignedArgIs(f: Flags, c: char, p: Option<nat>, k: Length, v: int)
    requires PlainFlags(f) && IsInteger(c)
    ensures SignedValue(SignedArg(v, IntegerFlags(c, Given(f, p, LengthText(k)))), v, k)
  {
    GivenIs(f, p, k);
    KeptForInteger(c, Given(f, p, LengthText(k)));
    hide Given, IntegerFlags, LengthText, SignedArg;
    SignedArgOf(v, IntegerFlags(c, Given(f, p, LengthText(k))), k);
  }

  lemma SignedArgOf(v: int, g: Flags, k: Length)
    requires g.long || g.longlong <==> Values(k) == 0x1_0000_0000_0000_0000
    requires (g.chr <==> Values(k) == 0x100) && (g.short && !g.chr <==> Values(k) == 0x1_0000)
    ensures SignedValue(SignedArg(v, g), v, k)
  {
    ByteOf(v);
    HalfWordOf(v);
    WrapIsResidue(v);
    DoubleWordOf(v);
    hide Wrap, Wrap64;
  }

  lemma ByteOf(v: int)
    ensures (v % 0x100 - v) % 0x100 == 0
  {
    var q := v / 0x100;
    assert v % 0x100 - v == -q * 0x100;
  }

  lemma HalfWordOf(v: int)
    ensures var x := (v + 0x8000) % 0x1_0000 - 0x8000; (x - v) % 0x1_0000 == 0 && -0x8000 <= x < 0x8000
  {
    var q := (v + 0x8000) / 0x1_0000;
    assert (v + 0x8000) % 0x1_0000 - 0x8000 - v == -q * 0x1_0000;
  }

  lemma DoubleWordOf(v: int)
    ensures (Wrap64(v) - v) % U64 == 0 && -0x8000_0000_0000_0000 <= Wrap64(v) < 0x8000_0000_0000_0000
  {
    var q := (v + 0x8000_0000_0000_0000) / U64;
    assert Wrap64(v) - v == -q * U64;
  }

  /** d, i: the sign and the size of the argument's signed value, in base 10. */
  lemma SignedMeans(f: Flags, w: nat, p: Option<nat>, k: Length, c: char, rest: seq<char>, args: seq<Arg>, a: nat)
      returns (text: seq<char>, r: Parts, x: int)
    requires PlainFlags(f) && w < U32 && (p.Some? ==> p.value < U32) && (c == 'd' || c == 'i')
    requires a < |args| && args[a].Int?
    ensures Puts(Spec(f, w, p, LengthText(k), c) + rest, args, a, text, rest, a + 1)
    ensures SignedValue(x, args[a].v, k)
    ensures IsNumber(text, r, if x < 0 then -x else x, x < 0, 10, if p.Some? then p.value else 0, w,
      f.(precision := p.Some?, zeropad := f.zeropad && p.None?))
  {
    hide NumberText, Spec, Puts, Given, IsNumber, IntegerFlags, SignedArg, Pow, PlainFlags, LengthText, Values;
    SignedArgIs(f, c, p, k, args[a].v);
    IntegerFlagsAre(f, c, p, k);
    PlainIsLower(f);
    var q := SpecPuts(f, w, p, LengthText(k), c, rest, args, a);
    var prec, g := if p.Some? then p.value else 0, IntegerFlags(c, Given(f, p, LengthText(k)));
    text, x := q.text, SignedArg(args[a].v, g);
    var n := if x < 0 then -x else x;
    SignedIsSmall(x, args[a].v, k);
    SmallEnough(n, 10);
    r := NumberIsNumeral(n, x < 0, 10, prec, w, g);
    SameNumber(text, r, n, x < 0, 10, prec, w, g, f.(precision := p.Some?, zeropad := f.zeropad && p.None?));
  }

  lemma PlainIsLower(f: Flags)
    requires PlainFlags(f)
    ensures !f.upper && !f.precision
  {
  }

  lemma SignedIsSmall(x: int, v: int, k: Length)
    requires SignedValue(x, v, k)
    ensures -0x1_0000_0000_0000_0000 < x < 0x1_0000_0000_0000_0000
  {
  }

  // ---------- pointers ----------

  /** p: the 64 bits of the argument in base 16 with capital letters, filled to 16 digits unless it is aligned left. */
  lemma PointerMeans(f: Flags, w: nat, p: Option<nat>, k: Length, rest: seq<char>, args: seq<Arg>, a: nat)
      returns (text: seq<char>, r: Parts)
    requires PlainFlags(f) && w < U32 && (p.Some? ==> p.value < U32) && a < |args| && args[a].Int?
    requires f.hash ==> args[a].v % 0x1_0000_0000_0000_0000 == 0
    ensures Puts(Spec(f, w, p, LengthText(k), 'p') + rest, args, a, text, rest, a + 1)
    ensures IsNumber(text, r, args[a].v % 0x1_0000_0000_0000_0000, false, 16, if p.Some? then p.value else 0, 16,
      f.(precision := p.Some?, zeropad := true, upper := true))
  {
    hide NumberText, Spec, Puts, Given, IsNumber, Pow, PlainFlags, LengthText;
    GivenIs(f, p, k);
    var q := SpecPuts(f, w, p, LengthText(k), 'p', rest, args, a);
    text := q.text;
    var prec, value := if p.Some? then p.value else 0, args[a].v % U64;
    var g := PointerFlags(Given(f, p, LengthText(k)));
    SmallEnough(value, 16);
    r := NumberIsNumeral(value, false, 16, prec, 16, g);
    SameNumber(text, r, value, false, 16, prec, 16, g, f.(precision := p.Some?, zeropad := true, upper := true));
  }

  // ---------- strings and characters ----------

  /** `shown` in a field of the width, with spaces in front of it or, aligned left, behind it. */
  ghost predicate InField(t: seq<char>, shown: seq<char>, width: nat, left: bool) {
    && |t| == Max(width, |shown|)
    && (if left then shown <= t && Spaces(t[|shown|..]) else t[|t| - |shown|..] == shown && Spaces(t[..|t| - |shown|]))
  }

  /** s: the string, or as much of it as the precision says. */
  lemma StringMeans(f: Flags, w: nat, p: Option<nat>, k: Length, rest: seq<char>, args: seq<Arg>, a: nat)
      returns (text: seq<char>)
    requires PlainFlags(f) && w < U32 && (p.Some? ==> p.value < U32) && a < |args| && args[a].Str?
    ensures Puts(Spec(f, w, p, LengthText(k), 's') + rest, args, a, text, rest, a + 1)
    ensures InField(text, args[a].s[..if p.Some? then Min(p.value, |args[a].s|) else |args[a].s|], w, f.left)
  {
    hide Spec, Puts, Given, PlainFlags, LengthText, Repeat;
    GivenIs(f, p, k);
    var q := SpecPuts(f, w, p, LengthText(k), 's', rest, args, a);
    text := q.text;
    StringInField(args[a].s, if p.Some? then p.value else 0, w, Given(f, p, LengthText(k)));
  }

  lemma StringInField(s: seq<char>, prec: nat, width: nat, f: Flags)
    ensures InField(StringText(s, prec, width, f), s[..if f.precision then Min(prec, |s|) else |s|], width, f.left)
  {
    var shown := s[..if f.precision then Min(prec, |s|) else |s|];
    assert s[..|s|] == s;
    assert StringText(s, prec, width, f) ==
      if f.left then shown + Repeat(' ', width - |shown|) else Repeat(' ', width - |shown|) + shown;
  }

  /** c: the low byte of the argument as a character. */
  lemma CharMeans(f: Flags, w: nat, p: Option<nat>, k: Length, rest: seq<char>, args: seq<Arg>, a: nat)
      returns (text: seq<char>)
    requires PlainFlags(f) && w < U32 && (p.Some? ==> p.value < U32) && a < |args| && args[a].Int?
    ensures Puts(Spec(f, w, p, LengthText(k), 'c') + rest, args, a, text, rest, a + 1)
    ensures InField(text, [(args[a].v % 0x100) as char], w, f.left)
  {
    hide Spec, Puts, Given, PlainFlags, LengthText, Repeat;
    GivenIs(f, p, k);
    var q := SpecPuts(f, w, p, LengthText(k), 'c', rest, args, a);
    text := q.text;
    CharInField(args[a].v, w, Given(f, p, LengthText(k)));
  }

  lemma CharInField(v: int, width: nat, f: Flags)
    ensures InField(CharText(v, width, f), [(v % 0x100) as char], width, f.left)
  {
  }

  // ---------- digits ----------

  /** The digits are written as such, from 0 to 9 and on with a to f or A to F. */
  lemma DigitsAreWritten(d: nat)
    requires d < 16
    ensures DigitChar(d, false) == "0123456789abcdef"[d] && DigitChar(d, true) == "0123456789ABCDEF"[d]
  {
  }

  lemma UnsignedIsInteger(c: char, base: nat)
    requires UnsignedBase(c, base)
    ensures IsInteger(c) && IsConversion(c) && c !in {'d', 'i', 's', 'c', 'p'} && BaseOf(c) == base
  {
  }

  lemma SmallEnough(value: nat, base: nat)
    requires 8 <= base <= 16 || base == 2
    requires value < if base == 2 then 0x1_0000_0000 else 0x1_0000_0000_0000_0000
    ensures value < Pow(base, NTOA_BUFFER_SIZE)
  {
    hide Pow;
    LoopIsExact(value, base, false);
    LoopIsExactIff(value, base, false);
  }
}
