/**
 Placement of memory windows (src/pci.c): a base address register is sized by writing
 ones to it, gets the next free address rounded down to its size, and leaves a gap of
 64 KiB behind it; every device starts on its own megabyte.
 */
module PciBar {
  import opened Arithmetic

  const WINDOW: nat := 0x40000000
  const DEVICE_SPAN: nat := 0x100000
  const GAP: nat := 0x10000
  const W32: nat := 0x1_0000_0000
  const W64: nat := 0x1_0000_0000_0000_0000

  /** Bitwise and. */
  function And(a: nat, b: nat): nat
    decreases a
  {
    if a == 0 then 0 else 2 * And(a / 2, b / 2) + (a % 2) * (b % 2)
  }

  lemma AndStep(a: nat, b: nat)
    ensures And(a, b) == 2 * And(a / 2, b / 2) + (a % 2) * (b % 2)
  {
  }

  function RoundDown(a: nat, size: nat): (r: nat)
    requires size > 0
    ensures r <= a < r + size && r % size == 0
  {
    assert a == size * (a / size) + a % size;
    ModIs(size * (a / size), size, a / size, 0);
    a - a % size
  }

  /** With a mask whose k low bits are clear and all others set, `and` rounds down. */
  lemma {:induction false} AndRoundsDown(a: nat, k: nat, w: nat)
    requires k <= w && a < Pow2(w)
    ensures Pow2(w) >= Pow2(k) && And(a, Pow2(w) - Pow2(k)) == RoundDown(a, Pow2(k))
    decreases k
  {
    hide And, Pow2, RoundDown;
    Pow2Grows(k, w);
    Pow2Step(k);
    if k > 0 { Pow2Step(w); }
    if k == 0 {
      AndAllOnes(a, w);
      RoundDownIs(a, 1);
    } else {
      AndRoundsDown(a / 2, k - 1, w - 1);
      AndHalves(a, Pow2(w - 1) - Pow2(k - 1));
      RoundDownHalf(a, Pow2(k - 1));
    }
  }

  lemma AndHalves(a: nat, n: nat)
    ensures And(a, 2 * n) == 2 * And(a / 2, n)
  {
    hide And;
    AndStep(a, 2 * n);
    EvenHalf(n);
    assert (a % 2) * 0 == 0;
  }

  lemma RoundDownHalf(a: nat, p: nat)
    requires p > 0
    ensures RoundDown(a, 2 * p) == 2 * RoundDown(a / 2, p)
  {
    HalfMod(a, p);
  }

  lemma AndAllOnes(a: nat, w: nat)
    requires a < Pow2(w)
    ensures And(a, Pow2(w) - 1) == a
  {
    hide And, Pow2;
    AndTakesRemainder(a, w);
    ModIs(a, Pow2(w), 0, a);
  }

  lemma EvenHalf(p: nat)
    ensures 2 * p / 2 == p && 2 * p % 2 == 0
  {
  }

  /** With a mask of k ones, `and` takes the remainder. */
  lemma {:induction false} AndTakesRemainder(a: nat, k: nat)
    ensures And(a, Pow2(k) - 1) == a % Pow2(k)
    decreases a, k
  {
    hide And;
    if k == 0 {
      AndZero(a);
    } else if a == 0 {
      AndZeroLeft(Pow2(k) - 1);
    } else {
      var p := Pow2(k - 1);
      AndTakesRemainder(a / 2, k - 1);
      AndStep(a, Pow2(k) - 1);
      HalfMod(a, p);
      OddHalf(p);
    }
  }

  lemma OddHalf(p: nat)
    requires p > 0
    ensures (2 * p - 1) / 2 == p - 1 && (2 * p - 1) % 2 == 1
  {
  }

  lemma AndZeroLeft(b: nat)
    ensures And(0, b) == 0
  {
  }

  lemma {:induction false} AndZero(a: nat)
    ensures And(a, 0) == 0
  {
    if a > 0 { AndZero(a / 2); }
  }

  // ---------- registers ----------

  /** What a base address register is wired to; flags are its read-only low bits. */
  datatype Bar = Absent | Mem32(k: Order, flags: nat) | Mem64(k: Order, flags: nat) | Upper

  /** log2 of a window's size */
  type Order = k: nat | 4 <= k < 32 witness 4

  predicate IsMemory(b: Bar) {
    b.Mem32? || b.Mem64?
  }

  /** PCI Local Bus Specification 3.0, section 6.2.5.1: bits 2..1 give the width, bit 3 is prefetchable. */
  predicate WellWired(bars: seq<Bar>) {
    && (forall i :: 0 <= i < |bars| && bars[i].Mem32? ==> bars[i].flags == 0 || bars[i].flags == 8)
    && (forall i :: 0 <= i < |bars| && bars[i].Mem64? ==> bars[i].flags == 4 || bars[i].flags == 12)
    && (forall i :: 0 <= i < |bars| && bars[i].Mem64? ==> i + 1 < |bars| && bars[i + 1].Upper?)
    && (forall i :: 0 <= i < |bars| && bars[i].Upper? ==> i > 0 && bars[i - 1].Mem64?)
  }

  /** What the register holds after v was written to it: address bits below the size do not exist. */
  function Latched(b: Bar, v: nat): nat
  {
    match b
    case Absent => 0
    case Upper => v
    case _ => Pow2Grows(b.k, 32); And(v, Pow2(32) - Pow2(b.k)) + b.flags
  }

  /** The width field. */
  function Width(r: nat): nat {
    r / 2 % 4
  }

  lemma Words()
    ensures Pow2(4) == 16 && Pow2(16) == GAP && Pow2(32) == W32 && Pow2(64) == W64
  {
    assert Pow2(8) == 256;
    Pow2Adds(8, 8);
    Pow2Adds(16, 16);
    Pow2Adds(32, 32);
  }

  lemma LatchedAddress(b: Bar, v: nat)
    requires IsMemory(b) && v < W32 && b.flags < 16
    ensures Latched(b, v) == RoundDown(v, Pow2(b.k)) + b.flags
    ensures Latched(b, v) < W32 && Pow2(b.k) % 16 == 0 && Width(Latched(b, v)) == Width(b.flags)
  {
    hide And, Width, Pow2, RoundDown;
    var size := Pow2(b.k);
    Words();
    AndRoundsDown(v, b.k, 32);
    SizeIsMultiple(b.k, 4);
    SizeIsMultiple(32, b.k);
    RoundDownIs(v, size);
    RoundDownBelow(v, size, Pow2(32 - b.k));
    FlagsStay(RoundDown(v, size), size, b.flags);
  }

  /** Below a multiple of the size, rounding down leaves room for one more size. */
  lemma RoundDownBelow(a: nat, size: nat, n: nat)
    requires size > 0 && a < size * n
    ensures RoundDown(a, size) == a - a % size && RoundDown(a, size) + size <= size * n
  {
    var q := a / size;
    assert a == size * q + a % size;
    if q >= n {
      if q > n { MulSteps(size, n, q); }
    } else {
      if q + 1 < n { MulSteps(size, q + 1, n); }
      assert size * (q + 1) == size * q + size;
    }
  }

  lemma SizeIsMultiple(k: nat, j: nat)
    requires j <= k
    ensures Pow2(k) == Pow2(j) * Pow2(k - j) && Pow2(k) % Pow2(j) == 0
  {
    Pow2Adds(j, k - j);
    ModIs(Pow2(k), Pow2(j), Pow2(k - j), 0);
  }

  lemma FlagsStay(a: nat, size: nat, flags: nat)
    requires size > 0 && size % 16 == 0 && a % size == 0 && flags < 16
    ensures Width(a + flags) == Width(flags) && a % 16 == 0
  {
    var q, p := a / size, size / 16;
    assert a == size * q && size == 16 * p;
    MulAssoc(16, p, q);
    ModIs(a, 16, p * q, 0);
    WidthOfSum(p * q, flags);
  }

  lemma WidthOfSum(c: nat, flags: nat)
    requires flags < 16
    ensures Width(16 * c + flags) == Width(flags)
  {
    ModIs(16 * c + flags, 2, 8 * c + flags / 2, flags % 2);
    ModIs(8 * c + flags / 2, 4, 2 * c + flags / 2 / 4, flags / 2 % 4);
  }

  /** All ones written to a register read back as the negated size. */
  lemma OnesReadBack(b: Bar)
    requires IsMemory(b) && b.flags < 16
    ensures Latched(b, W32 - 1) == W32 - Pow2(b.k) + b.flags
    ensures Pow2(b.k) < W32 && Pow2(b.k) % 16 == 0
  {
    hide And, Latched, Width;
    var size, n := Pow2(b.k), Pow2(32 - b.k);
    LatchedAddress(b, W32 - 1);
    Words();
    SizeIsMultiple(32, b.k);
    Pow2Grows(b.k, 31);
    LastBlock(size, n);
  }

  lemma LastBlock(size: nat, n: nat)
    requires size > 0 && n > 0
    ensures size * n >= size > 0 && RoundDown(size * n - 1, size) == size * n - size
  {
    var m: nat := n - 1;
    assert size * n == size * m + size;
    ModIs(size * m + (size - 1), size, m, size - 1);
  }

  /** The value the driver computes from what it read: a mask with the size's bits clear. */
  lemma SizeMask(size: nat, top: nat, flags: nat)
    requires 16 <= size < W32 && size % 16 == 0 && flags < 16 && (top == W32 || top == W64)
    ensures And(top - size + flags, W64 - 16) == top - size
    ensures And((W64 - (top - size)) % W64, W32 - 1) == size
  {
    hide And, Pow2;
    Words();
    AndRoundsDown(top - size + flags, 4, 64);
    ModIs(top - size + flags, 16, (top - size) / 16, flags);
    AndTakesRemainder((W64 - (top - size)) % W64, 32);
    ModIs((W64 - (top - size)) % W64, W32, if top == W32 then W32 - 1 else 0, size);
  }

  lemma MaskedFree(free: nat, b: Bar)
    requires IsMemory(b) && free < W32 && b.flags < 16 && Pow2(b.k) < W32
    ensures And(free, W32 - Pow2(b.k)) == RoundDown(free, Pow2(b.k))
    ensures And(free, W64 - Pow2(b.k)) == RoundDown(free, Pow2(b.k))
    ensures Latched(b, RoundDown(free, Pow2(b.k))) == RoundDown(free, Pow2(b.k)) + b.flags
  {
    hide And, Latched, Width, Pow2;
    Words();
    AndRoundsDown(free, b.k, 32);
    AndRoundsDown(free, b.k, 64);
    LatchedAddress(b, RoundDown(free, Pow2(b.k)));
  }

  lemma NothingToRead(mask: nat)
    ensures And(0, mask) == 0
  {
  }

  /** Two register files that agree outside n registers from i on. */
  ghost predicate SameBut(r: seq<nat>, s: seq<nat>, i: nat, n: nat) {
    |r| == |s| && forall j :: 0 <= j < |r| && !(i <= j < i + n) ==> s[j] == r[j]
  }

  /** How many registers the window takes. */
  function Registers(b: Bar): nat {
    if b.Mem64? then 2 else 1
  }

  /** The negated size, in the width of the register. */
  function Mask(b: Bar): (m: nat)
    ensures b.Absent? ==> m == 0
    ensures b.Mem32? ==> 0 < m == W32 - Pow2(b.k)
    ensures b.Mem64? ==> W32 <= m == W64 - Pow2(b.k)
    ensures IsMemory(b) ==> 16 <= Pow2(b.k) < W32 && Pow2(b.k) % 16 == 0
  {
    if IsMemory(b) then
      OnesReadBack(b.(flags := 0));
      Words();
      Pow2Grows(4, b.k);
      if b.Mem64? then W64 - Pow2(b.k) else W32 - Pow2(b.k)
    else 0
  }

  /** What the driver makes of the registers once ones were written to them. */
  lemma ProbeArithmetic(b: Bar, high: nat)
    requires !b.Upper? && (IsMemory(b) ==> b.flags < 16) && (b.Mem64? ==> high == (W64 - 1) / W32)
    ensures (W64 - 1) % W32 < W32
    ensures And(if b.Mem64? then high * W32 + Latched(b, (W64 - 1) % W32) else Latched(b, (W64 - 1) % W32), W64 - 16) == Mask(b)
  {
    hide And, Width, Pow2;
    if IsMemory(b) {
      OnesReadBack(b);
      SizeMask(Pow2(b.k), if b.Mem64? then W64 else W32, b.flags);
    } else {
      NothingToRead(W64 - 16);
    }
  }

  /** What it writes next, and by how much the free address moves. */
  lemma PlaceArithmetic(b: Bar, free: nat)
    requires IsMemory(b) && (IsMemory(b) ==> b.flags < 16) && free < W32
    ensures And(free, Mask(b)) < W64 && And(free, Mask(b)) / W32 == 0
    ensures Latched(b, And(free, Mask(b)) % W32) == RoundDown(free, Pow2(b.k)) + b.flags
    ensures And((W64 - Mask(b)) % W64, W32 - 1) == Pow2(b.k)
    ensures Mask(b) != 0 && (Mask(b) > W32 - 1 <==> b.Mem64?)
  {
    hide And, Latched, Width, Pow2;
    var mask := Mask(b);
    MaskedFree(free, b);
    SizeMask(Pow2(b.k), if b.Mem64? then W64 else W32, 0);
  }

  class Device {
    const bars: seq<Bar>
    const reg: array<nat>

    ghost predicate Valid()
      reads this, reg
    {
      && reg.Length == |bars| && WellWired(bars)
      && forall i :: 0 <= i < |bars| ==> reg[i] < W32 && RegisterOk(bars[i], reg[i])
    }

    method Write(i: nat, v: nat)
      requires Valid() && i < |bars| && v < W32
      modifies reg
      ensures Valid() && reg[..] == old(reg[..])[i := Latched(bars[i], v)]
    {
      if IsMemory(bars[i]) { LatchedAddress(bars[i], v); }
      reg[i] := Latched(bars[i], v);
    }
  }

  ghost predicate RegisterOk(b: Bar, r: nat) {
    (b.Absent? ==> r == 0) && (IsMemory(b) ==> Width(r) == Width(b.flags))
  }

  // ---------- the driver ----------

  lemma UpperHoldsAll(v: nat)
    ensures Latched(Upper, v) == v
  {
  }

  lemma WidthOfFlags()
    ensures Width(0) == Width(8) == 0 && Width(4) == Width(12) == 2
  {
  }

  class Pci {
    var free: nat
    var devices: nat

    constructor ()
      ensures free == WINDOW && devices == 0
    {
      free, devices := WINDOW, 0;
    }

    /** A 64-bit register is written in two halves. */
    method SetBar(dev: Device, which: nat, value: nat)
      requires dev.Valid() && which < |dev.bars| && !dev.bars[which].Upper? && value < W64
      modifies dev.reg
      ensures dev.Valid()
      ensures dev.reg[which] == Latched(dev.bars[which], value % W32)
      ensures dev.bars[which].Mem64? ==> dev.reg[which + 1] == value / W32
      ensures SameBut(old(dev.reg[..]), dev.reg[..], which, Registers(dev.bars[which]))
    {
      hide Width, Latched;
      WidthOfFlags();
      UpperHoldsAll(value / W32);
      var kind := Width(dev.reg[which]);
      if kind == 2 {
        dev.Write(which, value % W32);
        dev.Write(which + 1, value / W32);
      } else if kind == 0 {
        dev.Write(which, value % W32);
      }
    }

    method GetBar(dev: Device, which: nat) returns (value: nat)
      requires dev.Valid() && which < |dev.bars| && !dev.bars[which].Upper?
      ensures value == if dev.bars[which].Mem64? then dev.reg[which + 1] * W32 + dev.reg[which] else dev.reg[which]
    {
      var kind := Width(dev.reg[which]);
      value := W64 - 1;
      if kind == 2 {
        value := dev.reg[which + 1] * W32 + dev.reg[which];
      } else if kind == 0 {
        value := dev.reg[which];
      }
    }

    /** The first half of pci_allocate_bar: write ones, read the size back. */
    method ProbeBar(dev: Device, which: nat) returns (bar: nat)
      requires dev.Valid() && which < |dev.bars| && !dev.bars[which].Upper?
      modifies dev.reg
      ensures dev.Valid() && bar == Mask(dev.bars[which])
      ensures dev.bars[which].Absent? ==> dev.reg[which] == 0
      ensures SameBut(old(dev.reg[..]), dev.reg[..], which, Registers(dev.bars[which]))
    {
      hide And, Latched, Width, Mask, Pow2, SameBut;
      ghost var b := dev.bars[which];
      SetBar(dev, which, W64 - 1);
      var read := GetBar(dev, which);
      ProbeArithmetic(b, if b.Mem64? then dev.reg[which + 1] else 0);
      bar := And(read, W64 - 16);
    }

    /**
     The register is placed at the free address rounded down to its size, and the
     free address moves past the size and the gap. The result is the number of
     registers used.
     */
    method AllocateBar(dev: Device, which: nat) returns (used: nat)
      requires dev.Valid() && which < |dev.bars| && !dev.bars[which].Upper?
      requires free < W32
      modifies this`free, dev.reg
      ensures dev.Valid() && used == Registers(dev.bars[which])
      ensures dev.bars[which].Absent? ==> free == old(free) && dev.reg[which] == 0
      ensures IsMemory(dev.bars[which]) ==>
        var b := dev.bars[which];
        && free == old(free) + Pow2(b.k) + GAP
        && dev.reg[which] == RoundDown(old(free), Pow2(b.k)) + b.flags
        && (b.Mem64? ==> dev.reg[which + 1] == 0)
      ensures SameBut(old(dev.reg[..]), dev.reg[..], which, used)
    {
      ghost var b := dev.bars[which];
      var bar := ProbeBar(dev, which);
      hide And, Latched, Width, Mask, Pow2, RoundDown;
      if bar == 0 {
        assert b.Absent? by { if IsMemory(b) { PlaceArithmetic(b, free); } }
        return 1;
      }
      PlaceArithmetic(b, free);
      SetBar(dev, which, And(free, bar));
      free := free + And((W64 - bar) % W64, W32 - 1) + GAP;
      used := if bar > W32 - 1 then 2 else 1;
    }

    /** The loop over a device's registers (six, or two for a bridge), and the step to the next device's megabyte. */
    method AllocateBars(dev: Device)
      requires dev.Valid() && free == DeviceBase(devices) && FreeAt(dev.bars, |dev.bars|, free) < W32
      modifies this, dev.reg
      ensures dev.Valid() && devices == old(devices) + 1 && free == DeviceBase(devices)
      ensures forall j :: 0 <= j < |dev.bars| ==> PlacedAt(dev.bars, dev.reg[..], j, old(free))
    {
      hide Pow2, RoundDown;
      var i := 0;
      while i < |dev.bars|
        invariant dev.Valid() && devices == old(devices) && i <= |dev.bars|
        invariant i < |dev.bars| ==> !dev.bars[i].Upper?
        invariant free == FreeAt(dev.bars, i, old(free))
        invariant forall j :: 0 <= j < i ==> PlacedAt(dev.bars, dev.reg[..], j, old(free))
      {
        FreeOnlyGrows(dev.bars, i, old(free));
        ghost var before := dev.reg[..];
        var used := AllocateBar(dev, i);
        StillPlaced(dev.bars, before, dev.reg[..], i, used, old(free));
        assert PlacedAt(dev.bars, dev.reg[..], i, old(free));
        assert used == 2 ==> PlacedAt(dev.bars, dev.reg[..], i + 1, old(free));
        if used == 2 {
          i := i + 1;
        }
        i := i + 1;
      }
      devices := devices + 1;
      free := WINDOW + DEVICE_SPAN * devices;
    }
  }

  // ---------- where the windows are ----------

  /** No window is larger than `size`. */
  ghost predicate SizesAtMost(bars: seq<Bar>, size: nat) {
    forall i :: 0 <= i < |bars| && IsMemory(bars[i]) ==> Pow2(bars[i].k) <= size
  }

  function DeviceBase(d: nat): nat {
    WINDOW + DEVICE_SPAN * d
  }

  /** The free address when the loop is at register i. */
  function FreeAt(bars: seq<Bar>, i: nat, free: nat): nat
    requires i <= |bars|
  {
    if i == 0 then free
    else FreeAt(bars, i - 1, free) + if IsMemory(bars[i - 1]) then Pow2(bars[i - 1].k) + GAP else 0
  }

  /** Window j of a device whose first free address is `free`. */
  function Base(bars: seq<Bar>, j: nat, free: nat): nat
    requires j < |bars| && IsMemory(bars[j])
  {
    RoundDown(FreeAt(bars, j, free), Pow2(bars[j].k))
  }

  ghost predicate PlacedAt(bars: seq<Bar>, reg: seq<nat>, j: nat, free: nat)
    requires j < |bars| == |reg|
  {
    && (IsMemory(bars[j]) ==> reg[j] == Base(bars, j, free) + bars[j].flags)
    && (bars[j].Absent? || bars[j].Upper? ==> reg[j] == 0)
  }

  lemma StillPlaced(bars: seq<Bar>, r: seq<nat>, s: seq<nat>, i: nat, n: nat, free: nat)
    requires i <= |bars| == |r| && SameBut(r, s, i, n)
    requires forall j :: 0 <= j < i ==> PlacedAt(bars, r, j, free)
    ensures forall j :: 0 <= j < i ==> PlacedAt(bars, s, j, free)
  {
    hide Base;
    forall j | 0 <= j < i ensures PlacedAt(bars, s, j, free) {
      assert PlacedAt(bars, r, j, free) && s[j] == r[j];
    }
  }

  lemma {:induction false} FreeBounds(bars: seq<Bar>, i: nat, free: nat)
    requires i <= |bars| && SizesAtMost(bars, GAP)
    ensures free <= FreeAt(bars, i, free) <= free + 2 * GAP * i
  {
    if i > 0 { FreeBounds(bars, i - 1, free); }
  }

  lemma {:induction false} FreeOnlyGrows(bars: seq<Bar>, i: nat, free: nat)
    requires i <= |bars|
    ensures FreeAt(bars, i, free) <= FreeAt(bars, |bars|, free)
    decreases |bars| - i
  {
    if i < |bars| { FreeOnlyGrows(bars, i + 1, free); }
  }

  /** Devices with windows of at most 64 KiB stay far below 32 bits. */
  lemma SmallBarsFit(bars: seq<Bar>, d: nat)
    requires |bars| <= 6 && SizesAtMost(bars, GAP) && d < 256
    ensures FreeAt(bars, |bars|, DeviceBase(d)) < DeviceBase(d + 1) <= W32
  {
    FreeBounds(bars, |bars|, DeviceBase(d));
  }

  lemma {:induction false} FreeGrows(bars: seq<Bar>, i: nat, j: nat, free: nat)
    requires i < j <= |bars| && IsMemory(bars[i])
    ensures FreeAt(bars, i, free) + Pow2(bars[i].k) + GAP <= FreeAt(bars, j, free)
  {
    if i + 1 < j { FreeGrows(bars, i, j - 1, free); }
  }

  /** Rounding down never goes below an address that is itself a multiple of the size. */
  lemma RoundDownStays(a: nat, base: nat, size: nat)
    requires size > 0 && base % size == 0 && base <= a
    ensures base <= RoundDown(a, size)
  {
    var q, p := a / size, base / size;
    assert base == size * p && a == size * q + a % size;
    if q < p { MulSteps(size, q, p); }
  }

  /** Every window is aligned to its size and inside its device's megabyte. */
  lemma WindowInMegabyte(bars: seq<Bar>, j: nat, d: nat)
    requires j < |bars| <= 6 && SizesAtMost(bars, GAP) && IsMemory(bars[j])
    ensures var base, size := Base(bars, j, DeviceBase(d)), Pow2(bars[j].k);
      base % size == 0 && 0x40000000 + 0x100000 * d <= base && base + size <= 0x40000000 + 0x100000 * (d + 1)
  {
    hide FreeAt, Pow2, RoundDown;
    var k, size, free := bars[j].k, Pow2(bars[j].k), FreeAt(bars, j, DeviceBase(d));
    FreeBounds(bars, j, DeviceBase(d));
    BaseIsMultiple(k, d);
    RoundDownStays(free, DeviceBase(d), size);
    RoundDownIs(free, size);
  }

  lemma RoundDownIs(a: nat, size: nat)
    requires size > 0
    ensures RoundDown(a, size) <= a < RoundDown(a, size) + size && RoundDown(a, size) % size == 0
  {
  }

  lemma SmallOrder(k: Order)
    requires Pow2(k) <= GAP
    ensures k <= 16
  {
    Words();
    assert Pow2(17) == 2 * GAP;
    if k > 16 { Pow2Grows(17, k); }
  }

  lemma BaseIsMultiple(k: Order, d: nat)
    requires Pow2(k) <= GAP
    ensures DeviceBase(d) % Pow2(k) == 0
  {
    SmallOrder(k);
    Words();
    var n: nat := 16 - k;
    Pow2Adds(k, n);
    hide Pow2;
    MulAssoc(Pow2(k), Pow2(n), 0x4000 + 16 * d);
    ModIs(DeviceBase(d), Pow2(k), Pow2(n) * (0x4000 + 16 * d), 0);
  }

  // ---------- every sequence of devices ----------

  datatype Window = Window(base: nat, size: nat)

  function WindowAt(bars: seq<Bar>, j: nat, free: nat): Window
    requires j < |bars| && IsMemory(bars[j])
  {
    Window(Base(bars, j, free), Pow2(bars[j].k))
  }

  function WindowOf(devs: seq<seq<Bar>>, d: nat, j: nat): Window
    requires d < |devs| && j < |devs[d]| && IsMemory(devs[d][j])
  {
    WindowAt(devs[d], j, DeviceBase(d))
  }

  ghost predicate Apart(v: Window, w: Window) {
    v.base + v.size <= w.base || w.base + w.size <= v.base
  }

  /**
   Although addresses are rounded down: every window of every one of up to 256
   devices is aligned to its size and inside the window range, and no two overlap.
   */
  lemma WindowsNeverOverlap(devs: seq<seq<Bar>>, d: nat, j: nat, e: nat, i: nat)
    requires |devs| <= 256 && forall x :: 0 <= x < |devs| ==> |devs[x]| <= 6 && SizesAtMost(devs[x], GAP)
    requires d < |devs| && j < |devs[d]| && IsMemory(devs[d][j])
    requires e < |devs| && i < |devs[e]| && IsMemory(devs[e][i])
    ensures var w := WindowOf(devs, d, j); w.base % w.size == 0 && 0x40000000 <= w.base && w.base + w.size <= 0x50000000
    ensures (d, j) != (e, i) ==> Apart(WindowOf(devs, d, j), WindowOf(devs, e, i))
  {
    hide Base, Pow2;
    WindowInMegabyte(devs[d], j, d);
    WindowInMegabyte(devs[e], i, e);
    if d == e && j < i {
      WindowsInOrder(devs[d], j, i, DeviceBase(d));
    } else if d == e && i < j {
      WindowsInOrder(devs[d], i, j, DeviceBase(d));
    }
  }

  lemma WindowsInOrder(bars: seq<Bar>, i: nat, j: nat, free: nat)
    requires i < j < |bars| && SizesAtMost(bars, GAP) && IsMemory(bars[i]) && IsMemory(bars[j])
    ensures Base(bars, i, free) + Pow2(bars[i].k) <= Base(bars, j, free)
  {
    FreeGrows(bars, i, j, free);
    hide FreeAt, Pow2, RoundDown;
    RoundDownIs(FreeAt(bars, i, free), Pow2(bars[i].k));
    RoundDownIs(FreeAt(bars, j, free), Pow2(bars[j].k));
  }

  // ---------- windows of any size ----------

  /** The last memory register before register i, -1 if there is none. */
  function LastMemory(bars: seq<Bar>, i: nat): (p: int)
    requires i <= |bars|
    ensures -1 <= p < i && (p >= 0 ==> IsMemory(bars[p]))
    ensures forall j :: p < j < i ==> !IsMemory(bars[j])
  {
    if i == 0 then -1 else if IsMemory(bars[i - 1]) then i - 1 else LastMemory(bars, i - 1)
  }

  ghost predicate PairwiseApart(bars: seq<Bar>, free: nat) {
    forall i, j :: 0 <= i < j < |bars| && IsMemory(bars[i]) && IsMemory(bars[j]) ==>
      Apart(WindowAt(bars, i, free), WindowAt(bars, j, free))
  }

  /** What rounding down takes from register i's address is made good by the gap and by what it took from the register
      before. */
  ghost predicate RoundingFits(bars: seq<Bar>, i: nat, free: nat)
    requires i < |bars|
  {
    var p := LastMemory(bars, i);
    IsMemory(bars[i]) && p >= 0 ==>
      FreeAt(bars, i, free) % Pow2(bars[i].k) <= GAP + FreeAt(bars, p, free) % Pow2(bars[p].k)
  }

  /** The free address does not move over registers that are no memory. */
  lemma {:induction false} FreeBetween(bars: seq<Bar>, p: nat, i: nat, free: nat)
    requires p < i <= |bars| && IsMemory(bars[p]) && forall j :: p < j < i ==> !IsMemory(bars[j])
    ensures FreeAt(bars, i, free) == FreeAt(bars, p, free) + Pow2(bars[p].k) + GAP
  {
    if p + 1 < i { FreeBetween(bars, p, i - 1, free); }
  }

  /** A register's window is behind the one before exactly when the rounding fits. */
  lemma NeighboursApartIff(bars: seq<Bar>, p: nat, i: nat, free: nat)
    requires p < i < |bars| && IsMemory(bars[p]) && IsMemory(bars[i]) && LastMemory(bars, i) == p
    ensures var v, w := WindowAt(bars, p, free), WindowAt(bars, i, free);
      (Apart(v, w) <==> RoundingFits(bars, i, free)) && (Apart(v, w) ==> v.base + v.size <= w.base)
  {
    FreeBetween(bars, p, i, free);
    var f, g, s, t := FreeAt(bars, p, free), FreeAt(bars, i, free), Pow2(bars[p].k), Pow2(bars[i].k);
    RoundedParts(f, s);
    RoundedParts(g, t);
    hide RoundDown, FreeAt, LastMemory, Pow2;
  }

  lemma RoundedParts(a: nat, size: nat)
    requires size > 0
    ensures RoundDown(a, size) == a - a % size && a % size < size
  {
  }

  /** Window i is behind every window before it, if the rounding fits everywhere. */
  lemma {:induction false} BehindAll(bars: seq<Bar>, j: nat, i: nat, free: nat)
    requires j < i < |bars| && IsMemory(bars[j]) && IsMemory(bars[i])
    requires forall x :: 0 <= x < |bars| ==> RoundingFits(bars, x, free)
    ensures WindowAt(bars, j, free).base + WindowAt(bars, j, free).size <= WindowAt(bars, i, free).base
    decreases i
  {
    hide RoundingFits, WindowAt;
    var p := LastMemory(bars, i);
    NeighboursApartIff(bars, p, i, free);
    if j < p { BehindAll(bars, j, p, free); }
  }

  /** For any registers and any sizes, a device's windows are pairwise disjoint exactly when the rounding fits at each. */
  lemma WindowsApartIff(bars: seq<Bar>, free: nat)
    ensures PairwiseApart(bars, free) <==> forall i :: 0 <= i < |bars| ==> RoundingFits(bars, i, free)
  {
    if forall i :: 0 <= i < |bars| ==> RoundingFits(bars, i, free) {
      forall j, i | 0 <= j < i < |bars| && IsMemory(bars[j]) && IsMemory(bars[i])
        ensures Apart(WindowAt(bars, j, free), WindowAt(bars, i, free))
      {
        BehindAll(bars, j, i, free);
      }
    }
    if PairwiseApart(bars, free) {
      forall i | 0 <= i < |bars| ensures RoundingFits(bars, i, free) {
        var p := LastMemory(bars, i);
        if IsMemory(bars[i]) && p >= 0 {
          NeighboursApartIff(bars, p, i, free);
        }
      }
    }
  }

  /** The gap is exactly enough: windows of at most 2^k bytes are apart in every device, wherever it is placed, if and
      only if 2^k is no larger than the gap. */
  lemma GapIsTheBound(k: Order)
    ensures (forall bars, free :: SizesAtMost(bars, Pow2(k)) ==> PairwiseApart(bars, free)) <==> Pow2(k) <= 0x1_0000
  {
    if Pow2(k) <= GAP {
      forall bars, free | SizesAtMost(bars, Pow2(k)) ensures PairwiseApart(bars, free) {
        SmallIsApart(bars, free);
      }
    } else {
      LargeWindowOverlaps(k);
    }
  }

  lemma SmallIsApart(bars: seq<Bar>, free: nat)
    requires SizesAtMost(bars, GAP)
    ensures PairwiseApart(bars, free)
  {
    hide FreeAt, Pow2, PairwiseApart;
    WindowsApartIff(bars, free);
  }

  /** Behind a 16-byte window, a window larger than the gap is rounded down onto it. */
  lemma LargeWindowOverlaps(k: Order)
    requires Pow2(k) > GAP
    ensures var bars := [Mem32(4, 0), Mem32(k, 0)]; SizesAtMost(bars, Pow2(k)) && !PairwiseApart(bars, WINDOW)
  {
    hide FreeAt, Pow2, PairwiseApart, LastMemory;
    var bars := [Mem32(4, 0), Mem32(k, 0)];
    Words();
    FreeAtSecond(k);
    WindowsApartIff(bars, WINDOW);
    RemainderIsLarge(k);
    assert IsMemory(bars[0]) && LastMemory(bars, 1) == 0;
    assert !RoundingFits(bars, 1, WINDOW);
  }

  lemma FreeAtSecond(k: Order)
    ensures var bars := [Mem32(4, 0), Mem32(k, 0)]; FreeAt(bars, 0, WINDOW) == WINDOW && FreeAt(bars, 1, WINDOW) == WINDOW + 16 + GAP
  {
    var bars := [Mem32(4, 0), Mem32(k, 0)];
    Words();
    assert FreeAt(bars, 0, WINDOW) == WINDOW;
  }

  lemma RemainderIsLarge(k: Order)
    requires Pow2(k) > GAP
    ensures (WINDOW + 16 + GAP) % Pow2(k) > GAP
  {
    Words();
    if k < 17 { Pow2Grows(k, 16); }
    if k < 31 {
      var n: nat := 30 - k;
      Pow2Adds(k, n);
      Pow2Adds(16, 14);
      assert Pow2(14) == 0x4000;
      assert Pow2(17) == 2 * GAP;
      Pow2Grows(17, k);
      hide Pow2;
      ModIs(WINDOW + 16 + GAP, Pow2(k), Pow2(n), 16 + GAP);
    } else {
      assert Pow2(31) == 0x8000_0000;
    }
  }
}
