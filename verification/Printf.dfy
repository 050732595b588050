/**
 Formatted output (src/printf.c): _vsnprintf with the integer, string, character,
 pointer and percent conversions, all flags, widths, precisions and lengths, and
 output into a buffer of limited size.
 */
module Printf {
  import opened Arithmetic
  import opened Sequences
  import opened Digits

  datatype Option<T> = None | Some(value: T)

  datatype Flags = Flags(
    zeropad: bool, left: bool, plus: bool, space: bool, hash: bool, upper: bool,
    chr: bool, short: bool, long: bool, longlong: bool, precision: bool)

  const NO_FLAGS := Flags(false, false, false, false, false, false, false, false, false, false, false)

  /** An argument behind the format. Strings end where the C string has its NUL. */
  datatype Arg = Int(v: int) | Str(s: seq<char>)

  function Min(a: int, b: int): int {
    if a < b then a else b
  }

  function Repeat(c: char, n: int): (r: seq<char>)
    ensures |r| == if n > 0 then n else 0
    ensures forall i :: 0 <= i < |r| ==> r[i] == c
    decreases n
  {
    if n <= 0 then [] else Repeat(c, n - 1) + [c]
  }

  // ---------- what the conversions produce ----------

  /** The digits, in reverse, between the spaces that make up the width. */
  function PaddedReverse(buf: seq<char>, width: nat, f: Flags): seq<char> {
    (if f.left || f.zeropad then [] else Repeat(' ', width - |buf|))
    + Reversed(buf)
    + (if f.left then Repeat(' ', width - |buf|) else [])
  }

  /** Leading zeros, up to n digits or a full buffer. */
  function ZeroPadded(buf: seq<char>, n: int): seq<char> {
    buf + Repeat('0', Min(n, NTOA_BUFFER_SIZE) - |buf|)
  }

  function Room(buf: seq<char>, c: char): seq<char> {
    if |buf| < NTOA_BUFFER_SIZE then buf + [c] else buf
  }

  /** One place of the width goes to the sign. */
  function DigitWidth(negative: bool, width: nat, f: Flags): nat {
    if !f.left && width > 0 && f.zeropad && (negative || f.plus || f.space) then width - 1 else width
  }

  function WithZeros(buf: seq<char>, prec: nat, width: nat, f: Flags): seq<char> {
    if f.left then buf
    else
      var padded := ZeroPadded(buf, prec);
      if f.zeropad then ZeroPadded(padded, width) else padded
  }

  function WithHash(buf: seq<char>, base: nat, prec: nat, width: nat, f: Flags): seq<char> {
    if !f.hash then buf
    else
      var cut := if !f.precision && |buf| > 0 && (|buf| == prec || |buf| == width)
                 then (if |buf| > 1 && base == 16 then |buf| - 2 else |buf| - 1)
                 else |buf|;
      var marked := if base == 16 then Room(buf[..cut], if f.upper then 'X' else 'x')
                    else if base == 2 then Room(buf[..cut], 'b')
                    else buf[..cut];
      Room(marked, '0')
  }

  function WithSign(buf: seq<char>, negative: bool, f: Flags): seq<char> {
    if negative then Room(buf, '-')
    else if f.plus then Room(buf, '+')
    else if f.space then Room(buf, ' ')
    else buf
  }

  function FormatText(buf: seq<char>, negative: bool, base: nat, prec: nat, width: nat, f: Flags): seq<char> {
    var w := DigitWidth(negative, width, f);
    PaddedReverse(WithSign(WithHash(WithZeros(buf, prec, w, f), base, prec, w, f), negative, f), w, f)
  }

  function NumberText(value: nat, negative: bool, base: nat, prec: nat, width: nat, f: Flags): seq<char>
    requires 2 <= base <= 16
  {
    var g := if value == 0 then f.(hash := false) else f;
    FormatText(if !f.precision || value != 0 then LoopDigits(value, base, f.upper) else [], negative, base, prec, width, g)
  }

  // ---------- arguments ----------

  const U64: int := 0x1_0000_0000_0000_0000

  function Wrap64(x: int): int {
    (x + 0x8000_0000_0000_0000) % U64 - 0x8000_0000_0000_0000
  }

  /** The value after va_arg and the casts that the length asks for; plain char is unsigned on RISC-V. */
  function SignedArg(v: int, f: Flags): int {
    if f.longlong || f.long then Wrap64(v)
    else if f.chr then v % 0x100
    else if f.short then (v + 0x8000) % 0x10000 - 0x8000
    else Wrap(v)
  }

  function UnsignedArg(v: int, f: Flags): nat {
    if f.longlong || f.long then v % U64
    else if f.chr then v % 0x100
    else if f.short then v % 0x10000
    else v % U32
  }

  predicate IsInteger(c: char) {
    c in {'d', 'i', 'u', 'x', 'X', 'o', 'b'}
  }

  function BaseOf(c: char): (b: nat)
    ensures 2 <= b <= 16
  {
    if c == 'x' || c == 'X' then 16 else if c == 'o' then 8 else if c == 'b' then 2 else 10
  }

  /** No # in base 10, capitals for X, no sign for unsigned integers, no zeros with a precision. */
  function IntegerFlags(c: char, f: Flags): Flags {
    var signed := c == 'i' || c == 'd';
    f.(hash := f.hash && BaseOf(c) != 10, upper := f.upper || c == 'X',
       plus := f.plus && signed, space := f.space && signed, zeropad := f.zeropad && !f.precision)
  }

  function IntegerText(c: char, v: int, prec: nat, width: nat, f: Flags): seq<char> {
    var g := IntegerFlags(c, f);
    if c == 'd' || c == 'i' then
      var x := SignedArg(v, g);
      NumberText(if x > 0 then x else -x, x < 0, BaseOf(c), prec, width, g)
    else NumberText(UnsignedArg(v, g), false, BaseOf(c), prec, width, g)
  }

  function CharText(v: int, width: nat, f: Flags): seq<char> {
    var c := (v % 0x100) as char;
    if f.left then [c] + Repeat(' ', width - 1) else Repeat(' ', width - 1) + [c]
  }

  function StringText(s: seq<char>, prec: nat, width: nat, f: Flags): seq<char> {
    var shown := if f.precision && prec < |s| then s[..prec] else s;
    if f.left then shown + Repeat(' ', width - |shown|) else Repeat(' ', width - |shown|) + shown
  }

  function PointerFlags(f: Flags): Flags {
    f.(zeropad := true, upper := true)
  }

  // ---------- reading the format ----------

  const NUL: char := '\0'

  function Peek(fmt: seq<char>, i: nat): char {
    if i < |fmt| then fmt[i] else NUL
  }

  predicate IsFlag(c: char) {
    c in {'0', '-', '+', ' ', '#'}
  }

  function SetFlag(c: char, f: Flags): Flags
    requires IsFlag(c)
  {
    if c == '0' then f.(zeropad := true)
    else if c == '-' then f.(left := true)
    else if c == '+' then f.(plus := true)
    else if c == ' ' then f.(space := true)
    else f.(hash := true)
  }

  /** Flags, or a width, or a precision, and the positions behind them in the format and the arguments. */
  datatype Field = Field(f: Flags, n: nat, at: nat, arg: nat)

  function FlagsAt(fmt: seq<char>, i: nat, f: Flags, a: nat): (r: Field)
    requires i <= |fmt|
    ensures i <= r.at <= |fmt| && r.arg == a
    decreases |fmt| - i
  {
    if IsFlag(Peek(fmt, i)) then FlagsAt(fmt, i + 1, SetFlag(fmt[i], f), a) else Field(f, 0, i, a)
  }

  function NumberAt(fmt: seq<char>, i: nat): (r: (nat, nat))
    requires i <= |fmt|
    ensures i <= r.1 <= |fmt|
  {
    var at := i + DigitRun(fmt[i..]);
    (Decimal(fmt[i..at]) % U32, at)
  }

  function WidthAt(fmt: seq<char>, i: nat, args: seq<Arg>, a: nat, f: Flags): (r: Option<Field>)
    requires i <= |fmt|
    ensures r.Some? ==> i <= r.value.at <= |fmt| && r.value.f.precision == f.precision
  {
    if IsDigit(Peek(fmt, i)) then Some(Field(f, NumberAt(fmt, i).0, NumberAt(fmt, i).1, a))
    else if Peek(fmt, i) == '*' then
      if a < |args| && args[a].Int? then
        var w := Wrap(args[a].v);
        Some(if w < 0 then Field(f.(left := true), -w, i + 1, a + 1) else Field(f, w, i + 1, a + 1))
      else None
    else Some(Field(f, 0, i, a))
  }

  function PrecisionAt(fmt: seq<char>, i: nat, args: seq<Arg>, a: nat, f: Flags): (r: Option<Field>)
    requires i <= |fmt|
    ensures r.Some? ==> i <= r.value.at <= |fmt|
  {
    if Peek(fmt, i) != '.' then Some(Field(f, 0, i, a))
    else
      var g := f.(precision := true);
      if IsDigit(Peek(fmt, i + 1)) then Some(Field(g, NumberAt(fmt, i + 1).0, NumberAt(fmt, i + 1).1, a))
      else if Peek(fmt, i + 1) == '*' then
        if a < |args| && args[a].Int? then
          var p := Wrap(args[a].v);
          Some(Field(g, if p > 0 then p else 0, i + 2, a + 1))
        else None
      else Some(Field(g, 0, i + 1, a))
  }

  function LengthSize(fmt: seq<char>, i: nat): (n: nat)
    requires i <= |fmt|
    ensures i + n <= |fmt|
  {
    if Peek(fmt, i) in {'l', 'h'} then
      if Peek(fmt, i + 1) == Peek(fmt, i) then 2 else 1
    else if Peek(fmt, i) in {'t', 'j', 'z'} then 1
    else 0
  }

  function LengthFlags(fmt: seq<char>, i: nat, f: Flags): Flags {
    var c := Peek(fmt, i);
    var twice := Peek(fmt, i + 1) == c;
    if c == 'l' then f.(long := true, longlong := f.longlong || twice)
    else if c == 'h' then f.(short := true, chr := f.chr || twice)
    else if c in {'t', 'j', 'z'} then f.(long := true)
    else f
  }

  function LengthAt(fmt: seq<char>, i: nat, f: Flags): (r: (Flags, nat))
    requires i <= |fmt|
    ensures i <= r.1 <= |fmt|
  {
    (LengthFlags(fmt, i, f), i + LengthSize(fmt, i))
  }

  /** A piece of output, and what it used up of the format and the arguments. */
  datatype Piece = Piece(text: seq<char>, at: nat, arg: nat)

  /** The conversion at position i; none if the format ends, an argument is missing, or it is a floating-point conversion. */
  function Convert(fmt: seq<char>, i: nat, args: seq<Arg>, a: nat, prec: nat, width: nat, f: Flags): (r: Option<Piece>)
    requires i <= |fmt|
    ensures r.Some? ==> i < r.value.at <= |fmt|
  {
    var c := Peek(fmt, i);
    if i == |fmt| || c in {'f', 'F', 'e', 'E', 'g', 'G'} then None
    else if IsInteger(c) then
      if a < |args| && args[a].Int? then Some(Piece(IntegerText(c, args[a].v, prec, width, f), i + 1, a + 1)) else None
    else if c == 'c' then
      if a < |args| && args[a].Int? then Some(Piece(CharText(args[a].v, width, f), i + 1, a + 1)) else None
    else if c == 's' then
      if a < |args| && args[a].Str? then Some(Piece(StringText(args[a].s, prec, width, f), i + 1, a + 1)) else None
    else if c == 'p' then
      if a < |args| && args[a].Int? then
        Some(Piece(NumberText(args[a].v % U64, false, 16, prec, 16, PointerFlags(f)), i + 1, a + 1))
      else None
    else Some(Piece([c], i + 1, a))
  }

  /** One literal character, or one whole conversion. */
  function PieceAt(fmt: seq<char>, i: nat, args: seq<Arg>, a: nat): (r: Option<Piece>)
    requires i < |fmt|
    ensures r.Some? ==> i < r.value.at <= |fmt|
  {
    if fmt[i] != '%' then Some(Piece([fmt[i]], i + 1, a))
    else
      var flags := FlagsAt(fmt, i + 1, NO_FLAGS, a);
      match WidthAt(fmt, flags.at, args, flags.arg, flags.f)
      case None => None
      case Some(w) =>
        match PrecisionAt(fmt, w.at, args, w.arg, w.f)
        case None => None
        case Some(p) =>
          var l := LengthAt(fmt, p.at, p.f);
          Convert(fmt, l.1, args, p.arg, p.n, w.n, l.0)
  }

  /** The whole output, however long. */
  function Render(fmt: seq<char>, i: nat, args: seq<Arg>, a: nat): Option<seq<char>>
    requires i <= |fmt|
    decreases |fmt| - i
  {
    if i == |fmt| then Some([])
    else
      match PieceAt(fmt, i, args, a)
      case None => None
      case Some(p) =>
        match Render(fmt, p.at, args, p.arg)
        case None => None
        case Some(rest) => Some(p.text + rest)
  }

  // ---------- the buffer ----------

  /** A buffer over which `text` was written as far as `maxlen` allows. */
  function Image(text: seq<char>, maxlen: nat, original: seq<char>): seq<char>
    requires maxlen <= |original|
  {
    if |text| <= maxlen then text + original[|text|..] else text[..maxlen] + original[maxlen..]
  }

  /** Where output goes. `text` is everything put out so far, whether it fitted or not. */
  class Sink {
    const buffer: array<char>
    const maxlen: nat
    var idx: nat
    ghost const original: seq<char>
    ghost var text: seq<char>

    ghost predicate Valid()
      reads this, buffer
    {
      && maxlen <= buffer.Length == |original| && idx == |text|
      && buffer[..] == Image(text, maxlen, original)
    }

    constructor (buffer: array<char>, maxlen: nat)
      requires maxlen <= buffer.Length
      ensures Valid() && this.buffer == buffer && this.maxlen == maxlen && text == [] && original == buffer[..]
    {
      this.buffer, this.maxlen, this.idx := buffer, maxlen, 0;
      this.original, this.text := buffer[..], [];
    }

    method Out(c: char)
      requires Valid()
      modifies this, buffer
      ensures Valid() && text == old(text) + [c]
    {
      if idx < maxlen {
        buffer[idx] := c;
      }
      idx := idx + 1;
      text := text + [c];
    }

    /** The NUL at the end; a count of 0 leaves no room for it. */
    method Terminate()
      requires Valid() && maxlen < U64
      modifies buffer
      ensures maxlen == 0 ==> buffer[..] == original
      ensures maxlen > 0 ==> buffer[..] == text[..Min(|text|, maxlen - 1)] + [NUL] + original[Min(|text|, maxlen - 1) + 1..]
    {
      hide Image;
      ImageEnd(text, maxlen, original);
      var at := if idx < maxlen then idx else (maxlen - 1) % U64;
      if at < maxlen {
        buffer[at] := NUL;
      }
    }

    method OutRepeat(c: char, n: nat)
      requires Valid()
      modifies this, buffer
      ensures Valid() && text == old(text) + Repeat(c, n)
    {
      var i := 0;
      while i < n
        invariant i <= n && Valid() && text == old(text) + Repeat(c, i)
      {
        Out(c);
        i := i + 1;
      }
    }

    /** _out_rev */
    method OutRev(buf: array<char>, len: nat, width: nat, f: Flags)
      requires Valid() && len <= buf.Length && buf != buffer
      modifies this, buffer
      ensures Valid() && text == old(text) + PaddedReverse(buf[..len], width, f)
    {
      hide Image, Reversed, Repeat;
      var start := idx;
      ghost var pre := if f.left || f.zeropad then [] else Repeat(' ', width - len);
      if !f.left && !f.zeropad {
        OutRepeat(' ', if width > len then width - len else 0);
      }
      var k: nat := len;
      ReversedEmpty<char>();
      assert buf[len..len] == [];
      while k > 0
        invariant k <= len && Valid()
        invariant text == old(text) + pre + Reversed(buf[k..len])
      {
        k := k - 1;
        assert buf[k..len] == [buf[k]] + buf[k + 1..len];
        ReversedCons(buf[k], buf[k + 1..len]);
        Out(buf[k]);
      }
      assert buf[0..len] == buf[..len];
      if f.left {
        OutRepeat(' ', if width > idx - start then width - (idx - start) else 0);
      }
    }

    /** _ntoa_format: zeros, prefix and sign go behind the reversed digits. */
    method NtoaFormat(buf: array<char>, digits: nat, negative: bool, base: nat, prec: nat, fieldWidth: nat, f: Flags)
      requires Valid() && buf != buffer && buf.Length == NTOA_BUFFER_SIZE && digits <= buf.Length
      modifies this, buffer, buf
      ensures Valid() && text == old(text) + FormatText(old(buf[..digits]), negative, base, prec, fieldWidth, f)
    {
      var len, width := digits, fieldWidth;
      if !f.left {
        if width > 0 && f.zeropad && (negative || f.plus || f.space) {
          width := width - 1;
        }
        len := PadZeros(buf, len, prec);
        if f.zeropad {
          len := PadZeros(buf, len, width);
        }
      }
      len := AddHash(buf, len, base, prec, width, f);
      len := AddSign(buf, len, negative, f);
      OutRev(buf, len, width, f);
    }

    /** _ntoa_long and _ntoa_long_long */
    method Ntoa(value: nat, negative: bool, base: nat, prec: nat, width: nat, f: Flags)
      requires Valid() && 2 <= base <= 16
      modifies this, buffer
      ensures Valid() && text == old(text) + NumberText(value, negative, base, prec, width, f)
    {
      var buf := new char[NTOA_BUFFER_SIZE];
      var len := 0;
      var g := if value == 0 then f.(hash := false) else f;
      if !f.precision || value != 0 {
        len := DigitLoop(buf, value, base, f.upper);
      }
      NtoaFormat(buf, len, negative, base, prec, width, g);
    }

    method OutString(s: seq<char>, prec: nat, width: nat, f: Flags)
      requires Valid()
      modifies this, buffer
      ensures Valid() && text == old(text) + StringText(s, prec, width, f)
    {
      hide Image, Repeat;
      var l := if f.precision && prec < |s| then prec else |s|;
      if !f.left {
        OutRepeat(' ', if width > l then width - l else 0);
      }
      OutShown(s, prec, f);
      if f.left {
        OutRepeat(' ', if width > l then width - l else 0);
      }
    }

    /** The characters of a string, up to the precision if there is one. */
    method OutShown(s: seq<char>, prec: nat, f: Flags)
      requires Valid()
      modifies this, buffer
      ensures Valid() && text == old(text) + if f.precision && prec < |s| then s[..prec] else s
    {
      hide Image;
      var precision, p := prec, 0;
      while p < |s| && (!f.precision || precision > 0)
        invariant p <= |s| && Valid() && text == old(text) + s[..p]
        invariant f.precision ==> p + precision == prec
        decreases |s| - p
      {
        if f.precision {
          precision := precision - 1;
        }
        Out(s[p]);
        assert s[..p + 1] == s[..p] + [s[p]];
        p := p + 1;
      }
      assert s[..|s|] == s;
    }

    method OutChar(v: int, width: nat, f: Flags)
      requires Valid()
      modifies this, buffer
      ensures Valid() && text == old(text) + CharText(v, width, f)
    {
      if !f.left {
        OutRepeat(' ', if width > 1 then width - 1 else 0);
      }
      Out((v % 0x100) as char);
      if f.left {
        OutRepeat(' ', if width > 1 then width - 1 else 0);
      }
    }

    method OutInteger(c: char, v: int, prec: nat, width: nat, f: Flags)
      requires Valid() && IsInteger(c)
      modifies this, buffer
      ensures Valid() && text == old(text) + IntegerText(c, v, prec, width, f)
    {
      hide NumberText, IntegerFlags, SignedArg, UnsignedArg, BaseOf;
      var g := IntegerFlags(c, f);
      if c == 'i' || c == 'd' {
        var value := SignedArg(v, g);
        Ntoa(if value > 0 then value else 0 - value, value < 0, BaseOf(c), prec, width, g);
      } else {
        Ntoa(UnsignedArg(v, g), false, BaseOf(c), prec, width, g);
      }
    }

    /** The switch over the conversion character. */
    method OutConversion(fmt: seq<char>, i: nat, args: seq<Arg>, a: nat, prec: nat, width: nat, f: Flags) returns (b: nat)
      requires Valid() && i <= |fmt| && Convert(fmt, i, args, a, prec, width, f).Some?
      modifies this, buffer
      ensures var p := Convert(fmt, i, args, a, prec, width, f).value;
        Valid() && text == old(text) + p.text && p.at == i + 1 && p.arg == b
    {
      hide NumberText, CharText, StringText, IntegerText;
      b := a + 1;
      var c := fmt[i];
      if IsInteger(c) {
        OutInteger(c, args[a].v, prec, width, f);
      } else if c == 'c' {
        OutChar(args[a].v, width, f);
      } else if c == 's' {
        OutString(args[a].s, prec, width, f);
      } else if c == 'p' {
        Ntoa(args[a].v % U64, false, 16, prec, 16, PointerFlags(f));
      } else {
        Out(c);
        b := a;
      }
    }

    /** One round of the loop over the format. */
    method OutPiece(fmt: seq<char>, i: nat, args: seq<Arg>, a: nat) returns (at: nat, b: nat)
      requires Valid() && i < |fmt| && PieceAt(fmt, i, args, a).Some?
      modifies this, buffer
      ensures var p := PieceAt(fmt, i, args, a).value;
        Valid() && text == old(text) + p.text && p.at == at && p.arg == b
    {
      hide FlagsAt, WidthAt, PrecisionAt, LengthAt, Convert;
      if fmt[i] != '%' {
        Out(fmt[i]);
        return i + 1, a;
      }
      var flags := ReadFlags(fmt, i + 1, a);
      var width := ReadWidth(fmt, flags.at, args, flags.arg, flags.f);
      var prec := ReadPrecision(fmt, width.at, args, width.arg, width.f);
      var length := LengthAt(fmt, prec.at, prec.f);
      b := OutConversion(fmt, length.1, args, prec.arg, prec.n, width.n, length.0);
      at := length.1 + 1;
    }
  }

  method ReadFlags(fmt: seq<char>, i: nat, a: nat) returns (r: Field)
    requires i <= |fmt|
    ensures r == FlagsAt(fmt, i, NO_FLAGS, a)
  {
    var at, flags := i, NO_FLAGS;
    while IsFlag(Peek(fmt, at))
      invariant i <= at <= |fmt|
      invariant FlagsAt(fmt, i, NO_FLAGS, a) == FlagsAt(fmt, at, flags, a)
      decreases |fmt| - at
    {
      flags := SetFlag(fmt[at], flags);
      at := at + 1;
    }
    r := Field(flags, 0, at, a);
  }

  method ReadWidth(fmt: seq<char>, i: nat, args: seq<Arg>, a: nat, f: Flags) returns (r: Field)
    requires i <= |fmt| && WidthAt(fmt, i, args, a, f).Some?
    ensures Some(r) == WidthAt(fmt, i, args, a, f)
  {
    hide DigitRun, Decimal;
    r := Field(f, 0, i, a);
    if IsDigit(Peek(fmt, i)) {
      var width, at := AtoiUnsigned(fmt, i);
      r := Field(f, width, at, a);
    } else if Peek(fmt, i) == '*' {
      var w := Wrap(args[a].v);
      if w < 0 {
        r := Field(f.(left := true), -w, i + 1, a + 1);
      } else {
        r := Field(f, w, i + 1, a + 1);
      }
    }
  }

  method ReadPrecision(fmt: seq<char>, i: nat, args: seq<Arg>, a: nat, f: Flags) returns (r: Field)
    requires i <= |fmt| && PrecisionAt(fmt, i, args, a, f).Some?
    ensures Some(r) == PrecisionAt(fmt, i, args, a, f)
  {
    hide DigitRun, Decimal;
    r := Field(f, 0, i, a);
    if Peek(fmt, i) == '.' {
      var g := f.(precision := true);
      r := Field(g, 0, i + 1, a);
      if IsDigit(Peek(fmt, i + 1)) {
        var prec, at := AtoiUnsigned(fmt, i + 1);
        r := Field(g, prec, at, a);
      } else if Peek(fmt, i + 1) == '*' {
        var p := Wrap(args[a].v);
        r := Field(g, if p > 0 then p else 0, i + 2, a + 1);
      }
    }
  }

  /** The do-while loop of _ntoa_long. */
  method DigitLoop(buf: array<char>, number: nat, base: nat, upper: bool) returns (len: nat)
    requires buf.Length == NTOA_BUFFER_SIZE && 2 <= base <= 16
    modifies buf
    ensures len <= buf.Length && buf[..len] == LoopDigits(number, base, upper)
  {
    hide DigitsOf, Div, Mod, DigitChar;
    ghost var all := DigitsOf(number, base, upper);
    var value := number;
    len := 0;
    while true
      invariant len < NTOA_BUFFER_SIZE
      invariant all == buf[..len] + DigitsOf(value, base, upper)
      decreases NTOA_BUFFER_SIZE - len
    {
      LoopStep(all, buf[..len], value, base, upper);
      len := Append(buf, len, DigitChar(Mod(value, base), upper));
      value := Div(value, base);
      if !(value != 0 && len < NTOA_BUFFER_SIZE) { break; }
    }
  }

  lemma LoopStep(all: seq<char>, done: seq<char>, value: nat, base: nat, upper: bool)
    requires 2 <= base <= 16 && |done| < NTOA_BUFFER_SIZE && all == done + DigitsOf(value, base, upper)
    ensures var d, v := done + [DigitChar(Mod(value, base), upper)], Div(value, base);
      && (v != 0 ==> all == d + DigitsOf(v, base, upper))
      && (v == 0 || |d| == NTOA_BUFFER_SIZE ==> d == if |all| <= NTOA_BUFFER_SIZE then all else all[..NTOA_BUFFER_SIZE])
  {
    hide Div, Mod, DigitsOf, DigitChar;
    DigitsStep(value, base, upper);
    DivMod(value, base);
    var ds := DigitsOf(value, base, upper);
    assert ds == [ds[0]] + ds[1..];
    assert all == (done + [ds[0]]) + ds[1..];
  }

  method AddHash(buf: array<char>, len: nat, base: nat, prec: nat, width: nat, f: Flags) returns (n: nat)
    requires len <= buf.Length == NTOA_BUFFER_SIZE
    modifies buf
    ensures n <= buf.Length && buf[..n] == WithHash(old(buf[..len]), base, prec, width, f)
  {
    n := len;
    if f.hash {
      if !f.precision && n > 0 && (n == prec || n == width) {
        n := n - 1;
        if n > 0 && base == 16 {
          n := n - 1;
        }
      }
      assert buf[..n] == buf[..len][..n];
      if base == 16 && !f.upper && n < NTOA_BUFFER_SIZE {
        n := Append(buf, n, 'x');
      } else if base == 16 && f.upper && n < NTOA_BUFFER_SIZE {
        n := Append(buf, n, 'X');
      } else if base == 2 && n < NTOA_BUFFER_SIZE {
        n := Append(buf, n, 'b');
      }
      if n < NTOA_BUFFER_SIZE {
        n := Append(buf, n, '0');
      }
    }
  }

  method AddSign(buf: array<char>, len: nat, negative: bool, f: Flags) returns (n: nat)
    requires len <= buf.Length == NTOA_BUFFER_SIZE
    modifies buf
    ensures n <= buf.Length && buf[..n] == WithSign(old(buf[..len]), negative, f)
  {
    n := len;
    if n < NTOA_BUFFER_SIZE {
      if negative {
        n := Append(buf, n, '-');
      } else if f.plus {
        n := Append(buf, n, '+');
      } else if f.space {
        n := Append(buf, n, ' ');
      }
    }
  }

  method Append(buf: array<char>, len: nat, c: char) returns (n: nat)
    requires len < buf.Length
    modifies buf
    ensures n == len + 1 && buf[..n] == old(buf[..len]) + [c]
  {
    buf[len] := c;
    n := len + 1;
  }

  method PadZeros(buf: array<char>, len: nat, upto: nat) returns (n: nat)
    requires len <= buf.Length == NTOA_BUFFER_SIZE
    modifies buf
    ensures n <= buf.Length && buf[..n] == ZeroPadded(old(buf[..len]), upto)
  {
    n := len;
    while n < upto && n < NTOA_BUFFER_SIZE
      invariant len <= n <= buf.Length && (n == len || n <= upto)
      invariant buf[..n] == old(buf[..len]) + Repeat('0', n - len)
    {
      n := Append(buf, n, '0');
    }
  }

  lemma RenderStep(fmt: seq<char>, i: nat, args: seq<Arg>, a: nat)
    requires i <= |fmt| && Render(fmt, i, args, a).Some?
    ensures i == |fmt| ==> Render(fmt, i, args, a).value == []
    ensures i < |fmt| ==>
      && PieceAt(fmt, i, args, a).Some?
      && (var p := PieceAt(fmt, i, args, a).value;
          Render(fmt, p.at, args, p.arg).Some? && Render(fmt, i, args, a).value == p.text + Render(fmt, p.at, args, p.arg).value)
  {
  }

  lemma ImageEnd(text: seq<char>, count: nat, original: seq<char>)
    requires count <= |original|
    ensures count == 0 ==> Image(text, count, original) == original
    ensures count > 0 ==>
      (var m := Min(|text|, count - 1);
       |Image(text, count, original)| == |original| &&
       Image(text, count, original)[m := NUL] == text[..m] + [NUL] + original[m + 1..])
  {
  }

  /**
   snprintf. What is put out does not depend on the buffer: whatever the count, the
   same number is returned, the first count - 1 characters of the whole output are
   stored with a NUL behind them, and nothing else in the buffer changes. A null
   buffer only counts.
   */
  method Snprintf(buffer: array?<char>, count: nat, fmt: seq<char>, args: seq<Arg>) returns (n: int)
    requires buffer != null ==> count <= buffer.Length
    requires count < U64 && Render(fmt, 0, args, 0).Some?
    modifies buffer
    ensures n == Wrap(|Render(fmt, 0, args, 0).value|)
    ensures buffer != null && count > 0 ==>
      var whole := Render(fmt, 0, args, 0).value;
      var m := Min(|whole|, count - 1);
      buffer[..] == whole[..m] + [NUL] + old(buffer[..])[m + 1..]
    ensures buffer != null && count == 0 ==> buffer[..] == old(buffer[..])
  {
    if buffer == null {
      var none := new char[0];
      n := Vsnprintf(none, 0, fmt, args);
    } else {
      n := Vsnprintf(buffer, count, fmt, args);
    }
  }

  /** _vsnprintf with output into a buffer. */
  method Vsnprintf(buffer: array<char>, count: nat, fmt: seq<char>, args: seq<Arg>) returns (n: int)
    requires count <= buffer.Length && count < U64 && Render(fmt, 0, args, 0).Some?
    modifies buffer
    ensures var whole := Render(fmt, 0, args, 0).value;
      var m := Min(|whole|, count - 1);
      && n == Wrap(|whole|)
      && (count > 0 ==> buffer[..] == whole[..m] + [NUL] + old(buffer[..])[m + 1..])
      && (count == 0 ==> buffer[..] == old(buffer[..]))
  {
    hide PieceAt, Image, Render, Wrap;
    var sink := new Sink(buffer, count);
    var i, a := 0, 0;
    ghost var whole := Render(fmt, 0, args, 0).value;
    while i < |fmt|
      invariant i <= |fmt| && sink.Valid() && sink.buffer == buffer && sink.maxlen == count && sink.original == old(buffer[..])
      invariant Render(fmt, i, args, a).Some? && whole == sink.text + Render(fmt, i, args, a).value
      decreases |fmt| - i
    {
      RenderStep(fmt, i, args, a);
      i, a := sink.OutPiece(fmt, i, args, a);
    }
    RenderStep(fmt, i, args, a);
    sink.Terminate();
    n := Wrap(sink.idx);
  }
}
