/**
 The contiguous page allocator of src/cpage.c: one bookkeeping byte per page, of
 which page i uses bit 2 * (i % 4) for "taken" and the bit above it for "last
 page of its block".
 */
module Cpage {

  import opened Words

  const PAGE_SIZE: nat := 4096

  type Bytes = seq<bv8>

  /** One page, as the 512 words of 8 bytes that a page table reads it as. */
  type Page = s: seq<u64> | |s| == 512 witness seq(512, _ => 0)

  function ZeroPage(): (p: Page)
    ensures forall i :: 0 <= i < 512 ==> p[i] == 0
  {
    seq(512, _ => 0)
  }

  datatype Block = Block(start: nat, len: nat)
  datatype Claimed = NoRoom | Found(block: Block)

  // ---------- the bits of one byte ----------

  function TakenBit(i: nat): bv8 {
    1 << (2 * (i % 4))
  }

  function LastBit(i: nat): bv8 {
    1 << (2 * (i % 4) + 1)
  }

  predicate IsTaken(b: bv8, i: nat) {
    (b >> (2 * (i % 4))) & 1 == 1
  }

  predicate IsLast(b: bv8, i: nat) {
    (b >> (2 * (i % 4) + 1)) & 1 == 1
  }

  /** No bit but the two of page i is set. */
  predicate OwnBits(b: bv8, i: nat) {
    b & !(TakenBit(i) | LastBit(i)) == 0
  }

  lemma BitOperations(b: bv8, i: nat)
    ensures IsTaken(b | TakenBit(i), i) && (IsLast(b | TakenBit(i), i) <==> IsLast(b, i))
    ensures IsLast(b | LastBit(i), i) && (IsTaken(b | LastBit(i), i) <==> IsTaken(b, i))
    ensures var c := b & !TakenBit(i) & !LastBit(i); !IsTaken(c, i) && !IsLast(c, i)
    ensures OwnBits(b, i) ==> OwnBits(b | TakenBit(i), i) && OwnBits(b | LastBit(i), i)
    ensures OwnBits(b, i) ==> b & !TakenBit(i) & !LastBit(i) == 0
    ensures !IsTaken(0, i) && !IsLast(0, i) && OwnBits(0, i)
  {
    var r := i % 4;
    if r == 0 {} else if r == 1 {} else if r == 2 {} else { assert r == 3; }
  }

  lemma BitsDetermineByte(b: bv8, c: bv8, i: nat)
    requires OwnBits(b, i) && OwnBits(c, i)
    requires (IsTaken(b, i) <==> IsTaken(c, i)) && (IsLast(b, i) <==> IsLast(c, i))
    ensures b == c
  {
    var r := i % 4;
    if r == 0 {} else if r == 1 {} else if r == 2 {} else { assert r == 3; }
  }

  // ---------- the bookkeeping bytes ----------

  predicate FreeAt(bk: Bytes, i: nat) {
    i < |bk| && !IsTaken(bk[i], i)
  }

  predicate FreePair(bk: Bytes, i: nat) {
    FreeAt(bk, i) && FreeAt(bk, i + 1)
  }

  /** The least i from `from` on that starts two adjacent free pages; |bk| when there is none. */
  ghost function FirstPair(bk: Bytes, from: nat): (i: nat)
    requires from <= |bk|
    ensures from <= i <= |bk|
    ensures forall j :: from <= j < i ==> !FreePair(bk, j)
    ensures i < |bk| ==> FreePair(bk, i)
    decreases |bk| - from
  {
    if from == |bk| || FreePair(bk, from) then from else FirstPair(bk, from + 1)
  }

  /** What cpage_znalloc(n) takes. The inner loop tests page i0 + 1 again and again while it advances i
      (src/cpage.c:54), so for n > 2 the block starts n - 2 pages after the pair that was tested. */
  ghost function Claim(bk: Bytes, n: nat): Claimed
    requires n > 0
  {
    var i0 := FirstPair(bk, 0);
    if i0 == |bk| then NoRoom
    else if n <= 2 then Found(Block(i0, 2))
    else Found(Block(i0 + n - 2, n))
  }

  /** A request is turned down exactly when no two adjacent pages are free, and otherwise goes by the first such pair. */
  lemma ClaimIsFirstFit(bk: Bytes, n: nat)
    requires n > 0
    ensures Claim(bk, n).NoRoom? <==> forall i :: 0 <= i < |bk| ==> !FreePair(bk, i)
    ensures Claim(bk, n).Found? ==>
      exists i :: 0 <= i < |bk| && FreePair(bk, i) && (forall j :: 0 <= j < i ==> !FreePair(bk, j))
        && Claim(bk, n).block == if n <= 2 then Block(i, 2) else Block(i + n - 2, n)
  {
    var i := FirstPair(bk, 0);
    assert Claim(bk, n).Found? ==> FreePair(bk, i);
  }

  lemma ClaimAt(bk: Bytes, n: nat, i0: nat)
    requires n > 0 && FreePair(bk, i0) && FirstPair(bk, 0) >= i0
    ensures Claim(bk, n) == Found(if n <= 2 then Block(i0, 2) else Block(i0 + n - 2, n))
  {
  }

  lemma NoPairNoRoom(bk: Bytes, n: int)
    ensures n > 0 && FirstPair(bk, 0) == |bk| ==> Claim(bk, n) == NoRoom
  {
  }

  predicate Within(b: Block, i: nat) {
    b.start <= i < b.start + b.len
  }

  predicate Fits(bk: Bytes, b: Block) {
    b.start + b.len <= |bk|
  }

  ghost function Marked(bk: Bytes, b: Block): (r: Bytes)
    ensures |r| == |bk|
  {
    seq(|bk|, i requires 0 <= i < |bk| =>
      if i + 1 == b.start + b.len && Within(b, i) then bk[i] | TakenBit(i) | LastBit(i)
      else if Within(b, i) then bk[i] | TakenBit(i)
      else bk[i])
  }

  ghost function Cleared(bk: Bytes, b: Block): (r: Bytes)
    ensures |r| == |bk|
  {
    seq(|bk|, i requires 0 <= i < |bk| => if Within(b, i) then bk[i] & !TakenBit(i) & !LastBit(i) else bk[i])
  }

  // ---------- live blocks ----------

  type Live = map<nat, nat>

  ghost predicate Covered(live: Live, i: nat) {
    exists s :: s in live && s <= i < s + live[s]
  }

  ghost predicate EndsAt(live: Live, i: nat) {
    exists s :: s in live && i + 1 == s + live[s]
  }

  ghost predicate Disjoint(live: Live) {
    && (forall s :: s in live ==> live[s] > 0)
    && (forall s, t :: s in live && t in live && s < t ==> s + live[s] <= t)
  }

  /** The bits say exactly which pages belong to live blocks and which of them are last. */
  ghost predicate Inv(bk: Bytes, live: Live) {
    && Disjoint(live)
    && (forall s :: s in live ==> s + live[s] <= |bk|)
    && (forall i :: 0 <= i < |bk| ==>
        && OwnBits(bk[i], i)
        && (IsTaken(bk[i], i) <==> Covered(live, i))
        && (IsLast(bk[i], i) <==> EndsAt(live, i)))
  }

  /** The live blocks determine every bookkeeping byte: two heaps with the same blocks are equal bit for bit. */
  lemma LiveDeterminesBytes(bk: Bytes, ck: Bytes, live: Live)
    requires |bk| == |ck| && Inv(bk, live) && Inv(ck, live)
    ensures bk == ck
  {
    forall i | 0 <= i < |bk| ensures bk[i] == ck[i] {
      BitsDetermineByte(bk[i], ck[i], i);
    }
  }

  /** A fresh block is disjoint from every live block, and marking it keeps the bookkeeping exact. */
  lemma MarkKeepsInv(bk: Bytes, live: Live, b: Block)
    requires Inv(bk, live) && b.len > 0 && Fits(bk, b)
    requires forall i :: Within(b, i) ==> FreeAt(bk, i)
    ensures forall s :: s in live ==> s + live[s] <= b.start || b.start + b.len <= s
    ensures b.start !in live
    ensures Inv(Marked(bk, b), live[b.start := b.len])
  {
    forall s | s in live ensures s + live[s] <= b.start || b.start + b.len <= s {
      var m := if s < b.start then b.start else s;
      assert m < s + live[s] ==> Covered(live, m);
      assert m < b.start + b.len ==> Within(b, m);
    }
    var after := live[b.start := b.len];
    var ck := Marked(bk, b);
    forall i | 0 <= i < |bk|
      ensures OwnBits(ck[i], i) && (IsTaken(ck[i], i) <==> Covered(after, i)) && (IsLast(ck[i], i) <==> EndsAt(after, i))
    {
      BitOperations(bk[i], i);
      BitOperations(bk[i] | TakenBit(i), i);
      CoverAfterAdd(live, b, i);
      if EndsAt(live, i) {
        var s :| s in live && i + 1 == s + live[s];
        assert Covered(live, i);
      }
    }
  }

  lemma CoverAfterAdd(live: Live, b: Block, i: nat)
    requires b.start !in live && b.len > 0
    ensures Covered(live[b.start := b.len], i) <==> Covered(live, i) || Within(b, i)
    ensures EndsAt(live[b.start := b.len], i) <==> EndsAt(live, i) || i + 1 == b.start + b.len
  {
    var after := live[b.start := b.len];
    if Covered(live, i) {
      var s :| s in live && s <= i < s + live[s];
      assert s in after && after[s] == live[s];
    }
    if EndsAt(live, i) {
      var s :| s in live && i + 1 == s + live[s];
      assert s in after && after[s] == live[s];
    }
    assert b.start in after && after[b.start] == b.len;
  }

  /** Clearing a live block takes it, and nothing else, out of the bookkeeping. */
  lemma ClearKeepsInv(bk: Bytes, live: Live, s: nat)
    requires Inv(bk, live) && s in live
    ensures Inv(Cleared(bk, Block(s, live[s])), live - {s})
  {
    hide TakenBit, LastBit, IsTaken, IsLast, OwnBits, Covered, EndsAt;
    var b := Block(s, live[s]);
    var ck := Cleared(bk, b);
    var after := live - {s};
    forall i | 0 <= i < |bk|
      ensures OwnBits(ck[i], i) && (IsTaken(ck[i], i) <==> Covered(after, i)) && (IsLast(ck[i], i) <==> EndsAt(after, i))
    {
      BitOperations(bk[i], i);
      CoverAfterRemove(live, s, i);
    }
  }

  lemma CoverAfterRemove(live: Live, s: nat, i: nat)
    requires Disjoint(live) && s in live
    ensures Covered(live - {s}, i) <==> Covered(live, i) && !Within(Block(s, live[s]), i)
    ensures EndsAt(live - {s}, i) <==> EndsAt(live, i) && !Within(Block(s, live[s]), i)
  {
    var after := live - {s};
    assert live[s] > 0;
    if t :| t in live && t != s && t <= i < t + live[t] { assert t in after && after[t] == live[t]; }
    if t :| t in live && t != s && i + 1 == t + live[t] { assert t in after && after[t] == live[t]; }
  }

  /** The first last-bit at or after the start of a live block is the end of that block. */
  lemma OwnEnd(bk: Bytes, live: Live, s: nat)
    requires Inv(bk, live) && s in live
    ensures s + live[s] <= |bk| && live[s] > 0
    ensures forall i :: s <= i < s + live[s] ==> (IsLast(bk[i], i) <==> i + 1 == s + live[s])
  {
    forall i | s <= i < s + live[s] ensures IsLast(bk[i], i) <==> i + 1 == s + live[s] {
      if IsLast(bk[i], i) { NoOtherEnd(live, s, i); }
      if i + 1 == s + live[s] { assert EndsAt(live, i); }
    }
  }

  lemma NoOtherEnd(live: Live, s: nat, i: nat)
    requires Disjoint(live) && s in live && s <= i < s + live[s] && EndsAt(live, i)
    ensures i + 1 == s + live[s]
  {
    var t :| t in live && i + 1 == t + live[t];
    assert t == s;
  }

  // ---------- which requests are safe ----------

  /** Every page handed out was free and exists. */
  ghost predicate Safe(bk: Bytes, n: nat)
    requires n > 0
  {
    var c := Claim(bk, n);
    c.Found? ==> Fits(bk, c.block) && c.block.len >= n && forall i :: Within(c.block, i) ==> FreeAt(bk, i)
  }

  /** Requests for one or two pages are answered with free pages whatever the bytes are. */
  lemma SmallRequestIsSafe(bk: Bytes, n: nat)
    requires 0 < n <= 2
    ensures Safe(bk, n)
  {
    var c := Claim(bk, n);
    assert c.Found? ==> FreePair(bk, c.block.start);
  }

  // ---------- the allocator ----------

  /** (bytes + 4095) & -4096 */
  function RoundUp(bytes: nat): (r: nat)
    ensures bytes <= r < bytes + PAGE_SIZE && r % PAGE_SIZE == 0
  {
    (bytes + PAGE_SIZE - 1) / PAGE_SIZE * PAGE_SIZE
  }

  /** The address of the k-th page from `addr` on. */
  function PageFrom(addr: nat, k: nat): nat {
    addr + PAGE_SIZE * k
  }

  /** Each of the pages from `addr` on is all zeros, and every other page is as it was. */
  ghost predicate Zeroed(before: map<nat, Page>, after: map<nat, Page>, addr: nat, pages: nat) {
    && (forall k :: 0 <= k < pages ==> PageFrom(addr, k) in after && after[PageFrom(addr, k)] == ZeroPage())
    && forall a: nat :: (forall k :: 0 <= k < pages ==> a != PageFrom(addr, k)) ==>
      (a in after <==> a in before) && (a in before ==> after[a] == before[a])
  }

  class PageHeap {
    const heapStart: nat
    const heapEnd: nat
    const bk: array<bv8>
    /** Page contents by address. */
    var page: map<nat, Page>
    /** Live blocks: start index to number of pages. */
    ghost var live: Live

    ghost predicate Valid()
      reads `live, bk
    {
      && 0 < heapStart <= heapEnd
      && bk.Length == (heapEnd - heapStart) / PAGE_SIZE
      && Inv(bk[..], live)
    }

    function PageAddr(i: nat): nat {
      heapStart + RoundUp(bk.Length) + PAGE_SIZE * i
    }

    /** cpage_init */
    constructor (heapStart: nat, heapEnd: nat)
      requires 0 < heapStart <= heapEnd
      ensures Valid() && live == map[] && this.heapStart == heapStart && this.heapEnd == heapEnd && fresh(bk)
    {
      this.heapStart := heapStart;
      this.heapEnd := heapEnd;
      bk := new bv8[(heapEnd - heapStart) / PAGE_SIZE](_ => 0);
      page := map[];
      live := map[];
      new;
      forall i | 0 <= i < bk.Length
        ensures OwnBits(bk[..][i], i) && !IsTaken(bk[..][i], i) && !IsLast(bk[..][i], i)
      {
        BitOperations(0, i);
      }
    }

    /** The marking loop of cpage_znalloc. */
    method Mark(i: nat, num: nat)
      requires num > 0 && i + num <= bk.Length
      modifies bk
      ensures bk[..] == Marked(old(bk[..]), Block(i, num))
    {
      hide TakenBit, LastBit;
      var j := 0;
      while j < num
        invariant 0 <= j <= num
        invariant forall k :: 0 <= k < bk.Length ==>
          bk[k] == if i <= k < i + j then old(bk[k]) | TakenBit(k) else old(bk[k])
      {
        bk[i + j] := bk[i + j] | TakenBit(i + j);
        j := j + 1;
      }
      bk[i + j - 1] := bk[i + j - 1] | LastBit(i + j - 1);
    }

    /** cpage_znalloc: null is 0. `overrun` says that the run to be marked reaches behind the bookkeeping bytes, where
        the code would go on to set bits in other memory; the model stops there. */
    method Znalloc(n: int) returns (addr: nat, overrun: bool)
      requires Valid()
      modifies this, bk
      ensures overrun <==> n > 0 && Claim(old(bk[..]), n).Found? && !Fits(old(bk[..]), Claim(old(bk[..]), n).block)
      ensures n <= 0 || Claim(old(bk[..]), n).NoRoom? ==>
        addr == 0 && bk[..] == old(bk[..]) && page == old(page) && live == old(live)
      ensures n > 0 && Claim(old(bk[..]), n).Found? && !overrun ==>
        var b := Claim(old(bk[..]), n).block;
        && addr == PageAddr(b.start) && bk[..] == Marked(old(bk[..]), b)
        && Zeroed(old(page), page, addr, b.len) && live == old(live)[b.start := b.len]
      ensures n <= 0 || Safe(old(bk[..]), n) ==> Valid()
    {
      if n <= 0 {
        return 0, false;
      }
      hide TakenBit, LastBit, IsTaken, OwnBits, Marked, Zeroed, Inv, Claim, Safe;
      NoPairNoRoom(bk[..], n);
      ghost var before := bk[..];
      var num, i := 0, 0;
      while i < bk.Length
        invariant 0 <= i <= bk.Length && bk[..] == before && page == old(page) && live == old(live)
        invariant i < bk.Length ==> num == 0
        invariant FirstPair(before, 0) >= i
      {
        ghost var i0 := i;
        if !IsTaken(bk[i], i) {
          num := num + 1;
          var j := i + 1;
          while j < bk.Length
            invariant i0 <= i && j == i0 + 1 && num == i - i0 + 1
            invariant i > i0 ==> FreePair(before, i0) && num < n
            invariant bk[..] == before && page == old(page) && live == old(live)
            decreases n - num
          {
            if IsTaken(bk[j], j) {
              num := 0;
              break;
            }
            num := num + 1;
            assert FreePair(before, i0);
            if num >= n {
              ClaimAt(before, n, i0);
              if i + num > bk.Length {
                return 0, true;
              }
              TakeRun(i, num, n);
              return PageAddr(i), false;
            }
            i := i + 1;
          }
        } else {
          num := 0;
        }
        i := i + 1;
      }
      return 0, false;
    }

    /** The end of cpage_znalloc: the run is marked and cleared. */
    method TakeRun(i: nat, num: nat, ghost n: nat)
      requires Valid() && num > 0 && i + num <= bk.Length && n > 0 && Claim(bk[..], n) == Found(Block(i, num))
      modifies this, bk
      ensures bk[..] == Marked(old(bk[..]), Block(i, num))
      ensures Zeroed(old(page), page, PageAddr(i), num) && live == old(live)[i := num]
      ensures Safe(old(bk[..]), n) ==> Valid()
    {
      hide Marked, Zeroed, Inv, Claim;
      ghost var before := bk[..];
      Mark(i, num);
      ZeroPages(PageAddr(i), num);
      live := live[i := num];
      if Safe(before, n) {
        MarkKeepsInv(before, old(live), Block(i, num));
      }
    }

    /** memset(addr, 0, PAGE_SIZE * pages) */
    method ZeroPages(addr: nat, pages: nat)
      modifies `page
      ensures Zeroed(old(page), page, addr, pages)
    {
      var j := 0;
      while j < pages
        invariant 0 <= j <= pages && Zeroed(old(page), page, addr, j)
      {
        page := page[PageFrom(addr, j) := ZeroPage()];
        j := j + 1;
      }
    }

    /** Both bits of one page, as cpage_free clears them. */
    method ClearBits(i: nat)
      requires i < bk.Length
      modifies bk
      ensures forall k :: 0 <= k < bk.Length ==>
        bk[k] == if k == i then old(bk[k]) & !TakenBit(k) & !LastBit(k) else old(bk[k])
    {
      bk[i] := bk[i] & !TakenBit(i);
      bk[i] := bk[i] & !LastBit(i);
    }

    /** cpage_free: an address outside the heap is ignored, and so is one past its end. The index is recovered
        with the unrounded number of bookkeeping bytes; the division absorbs the difference. */
    method Free(addr: nat)
      requires Valid()
      requires addr < heapStart || addr > heapEnd || exists s :: s in live && addr == PageAddr(s)
      modifies this`live, bk
      ensures Valid()
      ensures addr < heapStart || addr > heapEnd ==> bk[..] == old(bk[..]) && live == old(live)
      ensures heapStart <= addr <= heapEnd ==>
        exists s :: s in old(live) && addr == PageAddr(s)
          && bk[..] == Cleared(old(bk[..]), Block(s, old(live)[s])) && live == old(live) - {s}
    {
      if addr < heapStart || addr > heapEnd {
        return;
      }
      hide TakenBit, LastBit, IsTaken, IsLast, OwnBits, Inv, Cleared;
      ghost var s :| s in live && addr == PageAddr(s);
      var i := (addr - bk.Length - heapStart) / PAGE_SIZE;
      assert i == s;
      OwnEnd(bk[..], live, s);
      ClearKeepsInv(bk[..], live, s);
      ClearRun(i, live[s]);
      live := live - {s};
    }

    /** The clearing loop of cpage_free: it stops at the first last bit. */
    method ClearRun(first: nat, ghost len: nat)
      requires 0 < len && first + len <= bk.Length
      requires forall k :: first <= k < first + len ==> (IsLast(bk[k], k) <==> k + 1 == first + len)
      modifies bk
      ensures bk[..] == Cleared(old(bk[..]), Block(first, len))
    {
      hide TakenBit, LastBit, IsLast;
      ghost var before := bk[..];
      var i := first;
      while true
        invariant first <= i < first + len
        invariant forall k :: 0 <= k < bk.Length ==>
          bk[k] == if first <= k < i then before[k] & !TakenBit(k) & !LastBit(k) else before[k]
        decreases first + len - i
      {
        if IsLast(bk[i], i) {
          ClearBits(i);
          break;
        }
        ClearBits(i);
        i := i + 1;
      }
    }
  }

  // ---------- allocation and release together ----------

  /** Freeing the block that was just allocated gives back the bookkeeping bytes exactly. */
  lemma AllocateThenFree(bk: Bytes, live: Live, n: nat)
    requires Inv(bk, live) && 0 < n <= 2 && Claim(bk, n).Found?
    ensures var b := Claim(bk, n).block;
      && b.len == 2 && b.start !in live
      && Inv(Marked(bk, b), live[b.start := b.len])
      && Cleared(Marked(bk, b), b) == bk
  {
    SmallRequestIsSafe(bk, n);
    var b := Claim(bk, n).block;
    MarkKeepsInv(bk, live, b);
    var after := live[b.start := b.len];
    ClearKeepsInv(Marked(bk, b), after, b.start);
    assert after - {b.start} == live;
    LiveDeterminesBytes(Cleared(Marked(bk, b), b), bk, live);
  }

  /** Runs of requests for one or two pages and frees of live blocks. */
  datatype Op = Take(n: nat) | Release(start: nat)

  datatype Books = Books(bk: Bytes, live: Live)

  ghost predicate Allowed(s: Books, op: Op) {
    match op
    case Take(n) => 0 < n <= 2
    case Release(start) => start in s.live
  }

  ghost function After(s: Books, op: Op): Books
    requires Allowed(s, op)
  {
    match op
    case Take(n) =>
      (match Claim(s.bk, n)
       case NoRoom => s
       case Found(b) => Books(Marked(s.bk, b), s.live[b.start := b.len]))
    case Release(start) => Books(Cleared(s.bk, Block(start, s.live[start])), s.live - {start})
  }

  ghost predicate RunTo(ops: seq<Op>, s: Books, r: Books) {
    if ops == [] then r == s
    else Allowed(s, ops[0]) && RunTo(ops[1..], After(s, ops[0]), r)
  }

  /** Over every such run the live blocks stay disjoint and the bits stay exact. */
  lemma {:induction false} EveryRunKeepsInv(ops: seq<Op>, s: Books, r: Books)
    requires Inv(s.bk, s.live) && RunTo(ops, s, r)
    ensures Inv(r.bk, r.live) && |r.bk| == |s.bk|
  {
    if ops != [] {
      match ops[0]
      case Take(n) =>
        SmallRequestIsSafe(s.bk, n);
        if Claim(s.bk, n).Found? { MarkKeepsInv(s.bk, s.live, Claim(s.bk, n).block); }
        EveryRunKeepsInv(ops[1..], After(s, ops[0]), r);
      case Release(start) =>
        ClearKeepsInv(s.bk, s.live, start);
        EveryRunKeepsInv(ops[1..], After(s, ops[0]), r);
    }
  }

  /** A run that ends with the blocks it began with ends with the same bookkeeping bytes. */
  lemma RunRestoresBytes(ops: seq<Op>, s: Books, r: Books)
    requires Inv(s.bk, s.live) && RunTo(ops, s, r) && r.live == s.live
    ensures r.bk == s.bk
  {
    EveryRunKeepsInv(ops, s, r);
    LiveDeterminesBytes(r.bk, s.bk, s.live);
  }

  // ---------- larger requests ----------

  /** What cpage_init leaves, for a heap of so many pages. */
  function Fresh(size: nat): Books {
    Books(seq(size, _ => 0), map[])
  }

  lemma FreshHolds(size: nat)
    ensures Inv(Fresh(size).bk, map[])
  {
    forall i: nat ensures OwnBits(0, i) && !IsTaken(0, i) && !IsLast(0, i) { BitOperations(0, i); }
  }

  /** Two-page blocks from page 0 on. */
  function Pairs(j: nat): Live {
    if j == 0 then map[] else Pairs(j - 1)[2 * (j - 1) := 2]
  }

  lemma {:induction false} PairsAre(j: nat)
    ensures forall s: nat :: s in Pairs(j) <==> s < 2 * j && s % 2 == 0
    ensures forall s: nat :: s in Pairs(j) ==> Pairs(j)[s] == 2
  {
    if j > 0 { PairsAre(j - 1); }
  }

  lemma PairsCover(j: nat, i: nat)
    ensures Covered(Pairs(j), i) <==> i < 2 * j
  {
    PairsAre(j);
    assert i < 2 * j ==> i - i % 2 in Pairs(j);
  }

  lemma NextPair(bk: Bytes, j: nat)
    requires Inv(bk, Pairs(j)) && 2 * j + 2 <= |bk|
    ensures Claim(bk, 1) == Found(Block(2 * j, 2))
  {
    hide IsTaken, Covered, OwnBits, IsLast, EndsAt, Disjoint;
    forall i | 0 <= i < |bk| ensures IsTaken(bk[i], i) <==> i < 2 * j { PairsCover(j, i); }
    hide Inv;
    assert FreePair(bk, 2 * j);
  }

  lemma TakeOnePair(m: Books, j: nat)
    requires Inv(m.bk, m.live) && m.live == Pairs(j) && 2 * j + 2 <= |m.bk|
    ensures After(m, Take(1)).live == Pairs(j + 1) && |After(m, Take(1)).bk| == |m.bk|
  {
    hide Inv, Marked, Claim;
    NextPair(m.bk, j);
  }

  /** The first j requests are given them. */
  lemma {:induction false} TakePairs(j: nat, size: nat) returns (ops: seq<Op>, r: Books)
    requires 2 * j <= size
    ensures RunTo(ops, Fresh(size), r) && r.live == Pairs(j) && |r.bk| == size
  {
    if j == 0 {
      ops, r := [], Fresh(size);
      assert Pairs(0) == map[];
    } else {
      hide Inv, Marked, Claim, RunTo, Pairs, After, Fresh;
      var before, m := TakePairs(j - 1, size);
      FreshHolds(size);
      EveryRunKeepsInv(before, Fresh(size), m);
      TakeOnePair(m, j - 1);
      r := After(m, Take(1));
      ops := before + [Take(1)];
      RunSnoc(before, Fresh(size), m, Take(1));
    }
  }

  lemma {:induction false} RunSnoc(ops: seq<Op>, s: Books, m: Books, op: Op)
    requires RunTo(ops, s, m) && Allowed(m, op)
    ensures RunTo(ops + [op], s, After(m, op))
  {
    if ops == [] {
      assert [op][1..] == [];
    } else {
      assert (ops + [op])[1..] == ops[1..] + [op];
      RunSnoc(ops[1..], After(s, ops[0]), m, op);
    }
  }

  /** A heap of 2n - 2 pages is filled with pairs and the first pair freed. A request for n > 2 pages then takes a
      run of n pages that reaches into the live block at page 2n - 4. */
  lemma ClaimsLivePage(n: nat) returns (ops: seq<Op>, r: Books)
    requires n > 2
    ensures RunTo(ops, Fresh(2 * n - 2), r) && Inv(r.bk, r.live)
    ensures Claim(r.bk, n) == Found(Block(n - 2, n)) && Fits(r.bk, Block(n - 2, n))
    ensures 2 * n - 4 in r.live && r.live[2 * n - 4] == 2 && Within(Block(n - 2, n), 2 * n - 3)
    ensures !Safe(r.bk, n)
  {
    hide Inv, RunTo, Cleared, IsTaken, FirstPair;
    var size := 2 * n - 2;
    var before, m := TakePairs(n - 1, size);
    PairsAre(n - 1);
    ops, r := before + [Release(0)], After(m, Release(0));
    RunSnoc(before, Fresh(size), m, Release(0));
    FreshHolds(size);
    EveryRunKeepsInv(ops, Fresh(size), r);
    PairInUse(r.bk, r.live, 2 * n - 4);
    FirstPairFree(r.bk, r.live);
    assert Within(Block(n - 2, n), 2 * n - 3) && !FreeAt(r.bk, 2 * n - 3);
  }

  lemma PairInUse(bk: Bytes, live: Live, s: nat)
    requires Inv(bk, live) && s in live && live[s] == 2
    ensures s + 2 <= |bk| && !FreeAt(bk, s + 1)
  {
    assert s <= s + 1 < s + live[s];
    assert Covered(live, s + 1);
  }

  lemma FirstPairFree(bk: Bytes, live: Live)
    requires Inv(bk, live) && |bk| >= 2 && forall s :: s in live ==> s >= 2
    ensures FirstPair(bk, 0) == 0
  {
    assert !Covered(live, 0) && !Covered(live, 1);
    assert FreePair(bk, 0);
  }

  /** As written, cpage_znalloc(n) is safe on every heap that small requests and frees lead to exactly for requests of
      one or two pages. */
  lemma SafeIffAtMostTwo(n: nat)
    requires n > 0
    ensures (forall size: nat, ops, r :: RunTo(ops, Fresh(size), r) ==> Safe(r.bk, n)) <==> n <= 2
  {
    if n <= 2 {
      forall size: nat, ops, r | RunTo(ops, Fresh(size), r) ensures Safe(r.bk, n) {
        SmallRequestIsSafe(r.bk, n);
      }
    } else {
      var ops, r := ClaimsLivePage(n);
      assert RunTo(ops, Fresh(2 * n - 2), r);
    }
  }

  // ---------- the pages past the end of the heap ----------

  /** Page i of a heap with `size` bytes lies inside it exactly when i stays below the number of pages minus the
      number that the rounded bookkeeping bytes occupy: the last entries describe pages past the end. */
  lemma InHeapIff(heapStart: nat, heapEnd: nat, i: nat)
    requires heapStart <= heapEnd
    ensures var n := (heapEnd - heapStart) / PAGE_SIZE;
      heapStart + RoundUp(n) + PAGE_SIZE * i + PAGE_SIZE <= heapEnd <==> i < n - RoundUp(n) / PAGE_SIZE
  {
    var n := (heapEnd - heapStart) / PAGE_SIZE;
    var q := RoundUp(n) / PAGE_SIZE;
    assert RoundUp(n) == PAGE_SIZE * q;
  }

  /** The code reserves no entry for them: with two pages in all, the first request is given a block of two,
      of which only the first page exists. */
  lemma FirstRequestCanLeaveHeap(heapStart: nat, n: nat)
    requires 0 < n <= 2
    ensures var bk: Bytes := [0, 0]; var heapEnd := heapStart + 2 * PAGE_SIZE;
      && Inv(bk, map[]) && Claim(bk, n) == Found(Block(0, 2))
      && heapStart + RoundUp(|bk|) + PAGE_SIZE * 1 + PAGE_SIZE > heapEnd
  {
    BitOperations(0, 0);
    BitOperations(0, 1);
    var bk: Bytes := [0, 0];
    assert FreePair(bk, 0);
  }
}
