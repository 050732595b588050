/**
 The words that src/mmu.c builds and takes apart: virtual page numbers, table
 entries and physical addresses of Sv39 (RISC-V Privileged Architecture, version
 20211203, section 4.4).

 Shifts and masks are written as division and remainder by powers of two, and `|`
 of fields that share no bit as addition; the permission bits of a caller may share
 bits with the page number, and are put in with `Or`.
 */
module MmuEntry {
  import opened Words
  import opened Arithmetic
  import opened Bits

  const TWO_44: nat := 0x1000_0000_0000
  const TWO_52: nat := 0x10_0000_0000_0000
  const TWO_56: nat := 0x100_0000_0000_0000
  const TWO_64: nat := 0x1_0000_0000_0000_0000

  /** -1UL, what mmu_translate returns for an address that is not mapped. */
  const NO_ADDRESS: u64 := 0xFFFF_FFFF_FFFF_FFFF

  /** (vaddr >> (12 + 9 * level)) & 0x1ff */
  function Vpn(v: u64, level: nat): (r: nat)
    requires level < 3
    ensures r < 512
  {
    if level == 0 then v / 0x1000 % 512
    else if level == 1 then v / 0x20_0000 % 512
    else v / 0x4000_0000 % 512
  }

  /** e & PB_VALID */
  predicate IsValid(e: u64) {
    e % 2 == 1
  }

  /** !(e & 0b1110): no read, write or execute permission. */
  predicate IsBranch(e: u64) {
    e / 2 % 8 == 0
  }

  /** (e << 2) & ~0xfff */
  function NextTable(e: u64): nat {
    e * 4 % TWO_64 / 0x1000 * 0x1000
  }

  /** x | PB_VALID */
  function OrValid(x: nat): nat {
    if x % 2 == 1 then x else x + 1
  }

  /** (addr >> 2) | PB_VALID */
  function BranchEntry(addr: u64): u64 {
    OrValid(addr / 4)
  }

  /** The page number in 44 bits. */
  function PageNumber(p: u64): nat {
    p / 0x1000 % TWO_44
  }

  /** (ppn[2] << 28) | (ppn[1] << 19) | (ppn[0] << 10) */
  function NumberField(p: u64): (n: nat) {
    p / 0x4000_0000 % 0x400_0000 * 0x1000_0000 + p / 0x20_0000 % 512 * 0x8_0000 + p / 0x1000 % 512 * 0x400
  }

  /** The leaf that mmu_map stores: the page number, the caller's bits, and PB_VALID. */
  function LeafEntry(p: u64, bits: u64): (e: u64) {
    LeafFits(p, bits);
    Or(NumberField(p), OrValid(bits))
  }

  /** The page that the leaf leads to: bits of the caller's word above the permissions fall into the page number. */
  function MappedBase(p: u64, bits: u64): nat {
    Or(PageNumber(p), bits / 0x400 % TWO_44) * 0x1000
  }

  /** What the entry would lead to as a link: the field is eight bits wider there. */
  function LinkBase(p: u64, bits: u64): nat {
    Or(PageNumber(p), bits / 0x400 % TWO_52) * 0x1000
  }

  /** The address that mmu_translate returns for a leaf found at a level. */
  function LeafAddress(e: u64, v: u64, level: nat): nat
    requires level < 3
  {
    var ppn0, ppn1, ppn2 := e / 0x400 % 512, e / 0x8_0000 % 512, e / 0x1000_0000 % 0x400_0000;
    if level == 0 then ppn2 * 0x4000_0000 + ppn1 * 0x20_0000 + ppn0 * 0x1000 + v % 0x1000
    else if level == 1 then ppn2 * 0x4000_0000 + ppn1 * 0x20_0000 + v % 0x20_0000
    else ppn2 * 0x4000_0000 + v % 0x4000_0000
  }

  /** The base of the page of p in the 56-bit physical address space. */
  function PageBase(p: u64): nat {
    p % TWO_56 / 0x1000 * 0x1000
  }

  /** The virtual page of v in the 39-bit address space. */
  function VirtualPage(v: u64): nat {
    v / 0x1000 % 0x800_0000
  }

  // ---------- round trips ----------

  /** Following the link to a table leads to that table. */
  lemma BranchRoundTrip(addr: u64)
    requires addr % 0x1000 == 0 && addr < TWO_56
    ensures var e := BranchEntry(addr); IsValid(e) && IsBranch(e) && NextTable(e) == addr
  {
    var k := addr / 0x1000;
    assert addr / 4 == 0x400 * k;
    LowField(k, 1);
    NextTableIsNumber(BranchEntry(addr));
  }

  lemma Split44(p: u64)
    ensures p / 0x4000_0000 % 0x400_0000 * 0x4_0000 + p / 0x20_0000 % 512 * 512 + p / 0x1000 % 512 == p / 0x1000 % TWO_44
  {
    var q := p / 0x1000;
    assert p / 0x20_0000 == q / 512;
    assert p / 0x4000_0000 == q / 512 / 512;
    var a, b, c := q % 512, q / 512 % 512, q / 0x4_0000 % 0x400_0000;
    assert q == q / 512 * 512 + a;
    assert q / 512 == q / 0x4_0000 * 512 + b;
    assert q / 0x4_0000 == q / 0x4_0000 / 0x400_0000 * 0x400_0000 + c;
  }

  lemma LowField(n: nat, x: nat)
    requires x < 1024
    ensures (n * 0x400 + x) / 0x400 == n && (n * 0x400 + x) % 0x400 == x && (n * 0x400 + x) % 2 == x % 2 && (n * 0x400 + x) / 2 % 8 == x / 2 % 8
  {
    var e, h := n * 0x400 + x, n * 0x200 + x / 2;
    ModIs(e, 0x400, n, x);
    ModIs(e, 2, h, x % 2);
    ModIs(h, 8, n * 0x40 + x / 2 / 8, x / 2 % 8);
  }

  lemma HighFields(e: nat)
    ensures e / 0x8_0000 == e / 0x400 / 512 && e / 0x1000_0000 == e / 0x400 / 0x4_0000
  {
  }

  lemma NextTableIsNumber(e: u64)
    ensures e / 0x400 < TWO_44 ==> NextTable(e) == e / 0x400 * 0x1000
  {
    if e / 0x400 < TWO_44 {
      assert e * 4 < TWO_64;
      assert e * 4 / 0x1000 == e / 0x400;
    }
  }

  lemma Powers()
    ensures Pow2(10) == 0x400 && Pow2(44) == TWO_44 && Pow2(52) == TWO_52 && Pow2(54) == 0x40_0000_0000_0000
  {
    assert Pow2(11) == 0x800;
    Pow2Adds(11, 11);
    Pow2Adds(22, 22);
    Pow2Adds(44, 8);
    Pow2Adds(44, 10);
    assert Pow2(8) == 0x100;
  }

  lemma NumberFieldIs(p: u64)
    ensures NumberField(p) == PageNumber(p) * 0x400
  {
    Split44(p);
  }

  /** The entry in two parts: the page number with the high part of the caller's bits, and the low ten bits. */
  lemma LeafParts(p: u64, bits: u64)
    ensures Or(NumberField(p), OrValid(bits)) == Or(PageNumber(p), bits / 0x400) * 0x400 + OrValid(bits % 0x400)
    ensures OrValid(bits % 0x400) < 0x400 && Or(PageNumber(p), bits / 0x400) < 0x40_0000_0000_0000
  {
    hide Or, OrValid, Pow2;
    var n, c, x := PageNumber(p), bits / 0x400, bits % 0x400;
    Powers();
    NumberFieldIs(p);
    ValidBit(bits);
    OrJoin(n, c, 0, OrValid(x), 10);
    OrZero(OrValid(x));
    OrJoin(0, 0, n, c, 54);
  }

  lemma ValidBit(bits: u64)
    ensures OrValid(bits % 0x400) < 0x400 && OrValid(bits) == 0x400 * (bits / 0x400) + OrValid(bits % 0x400)
    ensures OrValid(bits % 0x400) % 2 == 1 && OrValid(bits % 0x400) / 2 % 8 == bits / 2 % 8
  {
    hide OrValid;
    var c, x := bits / 0x400, bits % 0x400;
    OrValidIs(bits);
    OrValidIs(x);
    HalfOfSum(512 * c, x);
    EighthOfSum(64 * c, x / 2);
  }

  lemma OrValidIs(x: nat)
    ensures OrValid(x) == 2 * (x / 2) + 1 && OrValid(x) / 2 == x / 2
  {
  }

  lemma EighthOfSum(c: nat, y: nat)
    ensures (8 * c + y) % 8 == y % 8
  {
  }

  lemma LeafFits(p: u64, bits: u64)
    ensures Or(NumberField(p), OrValid(bits)) < TWO_64
  {
    hide Or, OrValid;
    LeafParts(p, bits);
  }

  /** The low bits of an `or` are the `or` of the low bits. */
  lemma OrLow(n: nat, c: nat, k: nat)
    requires n < Pow2(k)
    ensures Or(n, c) % Pow2(k) == Or(n, c % Pow2(k)) < Pow2(k)
  {
    hide Or, Pow2;
    var p := Pow2(k);
    var q, r := c / p, c % p;
    assert c == p * q + r && n == p * 0 + n;
    OrJoin(0, q, n, r, k);
    OrZero(q);
    ModIs(Or(n, c), p, q, Or(n, r));
  }

  /** What a leaf means: it is a leaf exactly when some of R, W, X is set, and it translates to the page it was made
      for, with the caller's higher bits in its number. */
  lemma LeafRoundTrip(p: u64, bits: u64, v: u64)
    ensures var e := LeafEntry(p, bits);
      && IsValid(e) && (IsBranch(e) <==> bits / 2 % 8 == 0)
      && LeafAddress(e, v, 0) == MappedBase(p, bits) + v % 0x1000
      && NextTable(e) == LinkBase(p, bits)
    ensures MappedBase(p, bits) < TWO_56
  {
    hide Or, OrValid, Pow2, LeafAddress, NumberField;
    var n, c := PageNumber(p), bits / 0x400;
    var e, o, x := LeafEntry(p, bits), Or(n, c), OrValid(bits % 0x400);
    LeafParts(p, bits);
    ValidBit(bits);
    LowField(o, x);
    Powers();
    OrLow(n, c, 44);
    OrLow(n, c, 52);
    LeafFields(e, o, v);
    LinkFields(e, o);
  }

  /** The low ten bits of the leaf are the caller's, with the valid bit set: every permission that was asked for is
      granted, and no other. */
  lemma LeafKeepsBits(p: u64, bits: u64)
    ensures LeafEntry(p, bits) % 0x400 == bits % 0x400 + if bits % 2 == 0 then 1 else 0
  {
    LowBitIsLow(bits);
    hide Or, NumberField;
    LeafParts(p, bits);
    ValidBit(bits);
    LowField(Or(PageNumber(p), bits / 0x400), OrValid(bits % 0x400));
  }

  lemma LowBitIsLow(bits: u64)
    ensures bits % 0x400 % 2 == bits % 2
  {
    assert bits == bits / 0x400 * 512 * 2 + bits % 0x400;
  }

  /** The leaf leads to the page asked for exactly when every bit of the caller's word from bit 10 on, in 44 bits, is set
      in the page number anyway. */
  lemma MappedBaseIff(p: u64, bits: u64)
    ensures MappedBase(p, bits) == PageBase(p)
      <==> Includes(PageNumber(p), bits / 0x400 % TWO_44)
    ensures bits < 0x400 ==> MappedBase(p, bits) == LinkBase(p, bits) == PageBase(p)
  {
    hide Or, Includes;
    PageBaseIsNumber(p);
    OrZero(PageNumber(p));
    OrAddsNothingIff(PageNumber(p), bits / 0x400 % TWO_44);
  }

  lemma LinkFields(e: u64, o: nat)
    requires e / 0x400 == o
    ensures NextTable(e) == o % TWO_52 * 0x1000
  {
    assert e == o * 0x400 + e % 0x400;
    var h, l := o / TWO_52, o % TWO_52;
    assert o == h * TWO_52 + l;
    assert e * 4 == h * TWO_64 + (l * 0x1000 + e % 0x400 * 4);
    assert l * 0x1000 + e % 0x400 * 4 < TWO_64;
    assert e * 4 % TWO_64 == l * 0x1000 + e % 0x400 * 4;
  }

  lemma LeafFields(e: u64, o: nat, v: u64)
    requires e / 0x400 == o
    ensures LeafAddress(e, v, 0) == o % TWO_44 * 0x1000 + v % 0x1000
  {
    HighFields(e);
    Reassemble(o);
  }

  /** A leaf at a level maps a page of 4 KiB, 2 MiB or 1 GiB: the address is that page of the entry's page number, and
      the offset in it is the one of the virtual address. */
  lemma LeafAddressIs(e: u64, v: u64, level: nat)
    requires level < 3
    ensures var size := if level == 0 then 0x1000 else if level == 1 then 0x20_0000 else 0x4000_0000;
      var base := e / 0x400 % 0x1000_0000_0000 * 0x1000;
      LeafAddress(e, v, level) == base / size * size + v % size
  {
    var o := e / 0x400;
    LeafFields(e, o, v);
    HighFields(e);
    var r := o % TWO_44;
    assert o == o / TWO_44 * TWO_44 + r;
    assert o / 0x4_0000 == o / TWO_44 * 0x400_0000 + r / 0x4_0000;
    assert o / 512 == o / TWO_44 * 0x8_0000_0000 + r / 512;
    assert r / 0x4_0000 == o / 0x4_0000 % 0x400_0000;
    assert r / 512 == r / 0x4_0000 * 512 + o / 512 % 512;
    assert r * 0x1000 / 0x20_0000 == r / 512 && r * 0x1000 / 0x4000_0000 == r / 0x4_0000;
  }

  lemma Reassemble(o: nat)
    ensures o / 0x4_0000 % 0x400_0000 * 0x4_0000 + o / 512 % 512 * 512 + o % 512 == o % TWO_44
  {
    var a, b := o / 512, o / 0x4_0000;
    assert o == a * 512 + o % 512;
    assert a == b * 512 + a % 512;
    assert b == b / 0x400_0000 * 0x400_0000 + b % 0x400_0000;
    var low := b % 0x400_0000 * 0x4_0000 + a % 512 * 512 + o % 512;
    assert o == b / 0x400_0000 * TWO_44 + low && low < TWO_44;
  }

  lemma PageBaseIsNumber(p: u64)
    ensures PageBase(p) == p / 0x1000 % TWO_44 * 0x1000
  {
    var q := p / 0x1000;
    assert p == q * 0x1000 + p % 0x1000;
    assert q == q / TWO_44 * TWO_44 + q % TWO_44;
    assert p == q / TWO_44 * TWO_56 + (q % TWO_44 * 0x1000 + p % 0x1000);
    assert p % TWO_56 == q % TWO_44 * 0x1000 + p % 0x1000;
  }

  /** The three indices of a walk determine the 39-bit virtual page, and the other way round. */
  lemma IndicesArePage(v: u64, w: u64)
    ensures (Vpn(v, 0) == Vpn(w, 0) && Vpn(v, 1) == Vpn(w, 1) && Vpn(v, 2) == Vpn(w, 2))
      <==> VirtualPage(v) == VirtualPage(w)
  {
    hide Vpn, VirtualPage;
    PageOfIndices(v);
    PageOfIndices(w);
  }

  lemma PageOfIndices(v: u64)
    ensures VirtualPage(v) == Vpn(v, 2) * 0x4_0000 + Vpn(v, 1) * 512 + Vpn(v, 0)
  {
    var q := v / 0x1000;
    assert v / 0x20_0000 == q / 512;
    assert v / 0x4000_0000 == q / 0x4_0000;
    assert q == q / 512 * 512 + q % 512;
    assert q / 512 == q / 0x4_0000 * 512 + q / 512 % 512;
    assert q / 0x4_0000 == q / 0x800_0000 * 512 + q / 0x4_0000 % 512;
  }
}
