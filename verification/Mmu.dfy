/**
 src/mmu.c on memory: mmu_map, mmu_translate, mmu_map_multiple and mmu_free, with
 their tables taken from and given back to the allocator of src/cpage.c.
 */
module Mmu {
  import opened Words
  import opened Cpage
  import opened MmuEntry
  import opened MmuTables

  /** The index of the page at an address. */
  ghost function IndexOf(h: PageHeap, a: nat): int {
    (a - h.PageAddr(0)) / PAGE_SIZE
  }

  /** A live block starts at address `a`, inside the heap. */
  ghost predicate StartsBlock(h: PageHeap, a: nat)
    reads h`live
  {
    BlockIn(h, h.live, a)
  }

  ghost predicate BlockIn(h: PageHeap, live: Live, a: nat) {
    && IndexOf(h, a) in live && a == h.PageAddr(IndexOf(h, a))
    && a + PAGE_SIZE <= h.heapEnd
  }

  ghost predicate Usable(h: PageHeap)
    reads h`live, h.bk
  {
    h.Valid() && h.heapStart % PAGE_SIZE == 0 && h.heapEnd <= TWO_56
  }

  /** The allocator's pages hold the tables of `s`, which form a tree. */
  ghost predicate Holds(h: PageHeap, s: Shape)
    reads h, h.bk
  {
    Usable(h) && WellFormed(h.page, s) && forall a :: a in s.at ==> StartsBlock(h, a)
  }

  /** How many requests for a page in a row, up to `most`, are answered with pages inside a heap of `limit` pages. */
  ghost function Answered(bk: Bytes, limit: int, most: nat): nat
    decreases most
  {
    if most == 0 then 0
    else
      var c := Claim(bk, 1);
      if c.Found? && c.block.start < limit then 1 + Answered(Marked(bk, c.block), limit, most - 1) else 0
  }

  lemma {:induction false} AnsweredGrows(bk: Bytes, limit: int, most: nat)
    ensures Answered(bk, limit, most) <= Answered(bk, limit, most + 1)
    decreases most
  {
    if most > 0 {
      var c := Claim(bk, 1);
      if c.Found? { AnsweredGrows(Marked(bk, c.block), limit, most - 1); }
    }
  }

  /** The requests for a page that the heap still answers. */
  ghost function Supply(h: PageHeap): nat
    reads h.bk
  {
    Answered(h.bk[..], Limit(h), h.bk.Length)
  }

  lemma SupplyIsSpent(bk: Bytes, limit: int)
    requires Answered(bk, limit, |bk|) > 0
    ensures var c := Claim(bk, 1);
      c.Found? && c.block.start < limit && Answered(Marked(bk, c.block), limit, |bk|) >= Answered(bk, limit, |bk|) - 1
  {
    var c := Claim(bk, 1);
    AnsweredGrows(Marked(bk, c.block), limit, |bk| - 1);
  }

  /** The number of pages that lie inside the heap. */
  ghost function Limit(h: PageHeap): int {
    h.bk.Length - RoundUp(h.bk.Length) / PAGE_SIZE
  }

  /** After j requests on a fresh heap, every second page inside it still answers one. */
  lemma {:induction false} AnsweredAfterPairs(bk: Bytes, limit: int, j: nat, most: nat)
    requires Inv(bk, Pairs(j)) && 0 <= limit < |bk|
    ensures var left := if 2 * j < limit then (limit + 1) / 2 - j else 0;
      Answered(bk, limit, most) == if most < left then most else left
    decreases most
  {
    hide Inv, Marked, Claim;
    if most > 0 {
      if 2 * j < limit {
        NextPair(bk, j);
        TakeNext(bk, j);
        AnsweredAfterPairs(Marked(bk, Block(2 * j, 2)), limit, j + 1, most - 1);
      } else {
        NothingBefore(bk, j);
      }
    }
  }

  lemma TakeNext(bk: Bytes, j: nat)
    requires Inv(bk, Pairs(j)) && Claim(bk, 1) == Found(Block(2 * j, 2))
    ensures Inv(Marked(bk, Block(2 * j, 2)), Pairs(j + 1))
  {
    SmallRequestIsSafe(bk, 1);
    MarkKeepsInv(bk, Pairs(j), Block(2 * j, 2));
  }

  lemma NothingBefore(bk: Bytes, j: nat)
    requires Inv(bk, Pairs(j))
    ensures Claim(bk, 1).Found? ==> Claim(bk, 1).block.start >= 2 * j
  {
    if Claim(bk, 1).Found? { PairsCover(j, Claim(bk, 1).block.start); }
  }

  /** A fresh heap answers one request for every two pages that lie inside it. */
  lemma FreshSupply(h: PageHeap)
    requires Usable(h) && h.live == map[]
    ensures Limit(h) >= 0 && Supply(h) == (Limit(h) + 1) / 2
  {
    var n := h.bk.Length;
    if n > 0 {
      LimitBelow(n);
      AnsweredAfterPairs(h.bk[..], Limit(h), 0, n);
    }
  }

  lemma LimitBelow(n: nat)
    requires n > 0
    ensures 0 <= n - RoundUp(n) / PAGE_SIZE < n
  {
    assert RoundUp(n) == PAGE_SIZE * (RoundUp(n) / PAGE_SIZE);
  }

  /** The live blocks that do not start at an address in `gone`. */
  ghost function Keep(h: PageHeap, live: Live, gone: set<nat>): Live {
    map i | i in live && h.PageAddr(i) !in gone :: live[i]
  }

  /** The live blocks that hold no table of `s`. */
  ghost function Others(h: PageHeap, s: Shape): Live
    reads h`live
  {
    Keep(h, h.live, s.at.Keys)
  }

  lemma ZeroedTwo(m: Memory, n: Memory, a: nat)
    requires Zeroed(m, n, a, 2)
    ensures a in n
      && n.Keys == m.Keys + {a, a + PAGE_SIZE}
      && n[a] == ZeroPage()
      && forall b :: b in m && b != a && b != a + PAGE_SIZE ==> n[b] == m[b]
  {
    assert PageFrom(a, 0) == a && PageFrom(a, 1) == a + PAGE_SIZE;
  }

  /** The two pages of a block that is apart from all live ones are no tables of `s`. */
  lemma ApartFromTables(h: PageHeap, s: Shape, b: Block)
    requires Holds(h, s) && b.len == 2
    requires forall i :: i in h.live ==> i + h.live[i] <= b.start || b.start + b.len <= i
    ensures forall c :: c in s.at ==> c != h.PageAddr(b.start) && c != h.PageAddr(b.start) + PAGE_SIZE
  {
    forall c | c in s.at ensures c != h.PageAddr(b.start) && c != h.PageAddr(b.start) + PAGE_SIZE {
      var i := IndexOf(h, c);
      assert i in h.live && h.live[i] > 0 && c == h.PageAddr(i);
    }
  }

  lemma AddressOf(h: PageHeap, i: nat)
    requires Usable(h)
    ensures IndexOf(h, h.PageAddr(i)) == i && h.PageAddr(i) % PAGE_SIZE == 0
    ensures i < Limit(h) ==> 0 < h.PageAddr(i) < TWO_56 && h.PageAddr(i) + PAGE_SIZE <= h.heapEnd
  {
    InHeapIff(h.heapStart, h.heapEnd, i);
    PagesBehind(h.heapStart, h.bk.Length, i);
    hide RoundUp;
    assert h.PageAddr(i) - h.PageAddr(0) == PAGE_SIZE * i;
    PageOf(i);
  }

  lemma PagesBehind(start: nat, n: nat, i: nat)
    requires start % PAGE_SIZE == 0
    ensures (start + RoundUp(n) + PAGE_SIZE * i) % PAGE_SIZE == 0
  {
    var q := RoundUp(n) / PAGE_SIZE;
    assert RoundUp(n) == PAGE_SIZE * q;
  }

  lemma PageOf(i: nat)
    ensures PAGE_SIZE * i / PAGE_SIZE == i
  {
  }

  /** One page for a table: it is cleared, it is no table of `s`, and nothing that `s` holds is touched. */
  method NewTable(h: PageHeap, ghost s: Shape) returns (a: nat)
    requires Holds(h, s) && Supply(h) > 0
    modifies h, h.bk
    ensures Holds(h, s) && FreshTable(h.page, s, a) && StartsBlock(h, a)
    ensures Supply(h) >= old(Supply(h)) - 1
    ensures SameLeaves(old(h.page), s, h.page, s)
    ensures IndexOf(h, a) !in old(h.live) && h.live == old(h.live)[IndexOf(h, a) := 2]
  {
    SupplyIsSpent(h.bk[..], Limit(h));
    ghost var b := Claim(h.bk[..], 1).block;
    SmallRequestIsSafe(h.bk[..], 1);
    MarkKeepsInv(h.bk[..], h.live, b);
    ApartFromTables(h, s, b);
    AddressOf(h, b.start);
    var overrun;
    a, overrun := h.Znalloc(1);
    ZeroedTwo(old(h.page), h.page, a);
    forall c | c in s.at ensures StartsBlock(h, c) {
      assert old(StartsBlock(h, c));
    }
    OtherPagesAreIrrelevant(old(h.page), h.page, s);
  }

  // ---------- the level loop of mmu_map ----------

  /** The table that the walk for `v` looks into at a level exists. */
  ghost predicate HasTable(s: Shape, v: u64, level: nat)
    requires level < 3
  {
    if level == 2 then true
    else if level == 1 then Vpn(v, 2) in s.mid
    else (Vpn(v, 2), Vpn(v, 1)) in s.low
  }

  ghost function TableAt(s: Shape, v: u64, level: nat): nat
    requires level < 3 && HasTable(s, v, level)
  {
    if level == 2 then s.root else if level == 1 then s.mid[Vpn(v, 2)] else s.low[(Vpn(v, 2), Vpn(v, 1))]
  }

  /** Hang table `a` below the table of a level. */
  ghost function AddTable(s: Shape, v: u64, level: nat, a: nat): Shape
    requires 0 < level < 3
  {
    if level == 2 then AddMid(s, Vpn(v, 2), a) else AddLow(s, Vpn(v, 2), Vpn(v, 1), a)
  }

  lemma AddTableKeeps(m: Memory, s: Shape, v: u64, level: nat, a: nat)
    requires 0 < level < 3 && WellFormed(m, s) && HasTable(s, v, level) && !HasTable(s, v, level - 1)
    requires FreshTable(m, s, a)
    ensures TableAt(s, v, level) in m
    ensures var n, t := Store(m, TableAt(s, v, level), Vpn(v, level), BranchEntry(a)), AddTable(s, v, level, a);
      WellFormed(n, t) && HasTable(t, v, level - 1) && TableAt(t, v, level - 1) == a && SameLeaves(m, s, n, t)
  {
    if level == 2 {
      AddMidTranslates(m, s, Vpn(v, 2), a);
    } else {
      AddLowTranslates(m, s, Vpn(v, 2), Vpn(v, 1), a);
    }
  }

  /** The entry at a level is valid exactly when the next table exists, and then it links to it. */
  lemma EntryLinks(m: Memory, s: Shape, v: u64, level: nat)
    requires 0 < level < 3 && WellFormed(m, s) && HasTable(s, v, level)
    ensures TableAt(s, v, level) in s.at && TableAt(s, v, level) in m
    ensures var e := m[TableAt(s, v, level)][Vpn(v, level)];
      && (IsValid(e) <==> HasTable(s, v, level - 1))
      && (IsValid(e) ==> IsBranch(e) && NextTable(e) == TableAt(s, v, level - 1))
  {
    assert s.root in s.at;
    if level == 1 { assert s.mid[Vpn(v, 2)] in s.at; }
  }

  /** The same table tree, with more tables in it. */
  ghost predicate Extends(t: Shape, s: Shape) {
    t.root == s.root && s.at.Keys <= t.at.Keys && s.mid.Keys <= t.mid.Keys && s.low.Keys <= t.low.Keys
  }

  /** The tables that mmu_map has to make for a virtual address. */
  ghost function Missing(s: Shape, v: u64): nat {
    if HasTable(s, v, 0) then 0 else if HasTable(s, v, 1) then 1 else 2
  }

  lemma LowHasMid(m: Memory, s: Shape, v: u64)
    requires WellFormed(m, s)
    ensures HasTable(s, v, 0) ==> HasTable(s, v, 1)
  {
  }

  lemma OthersAfterAdd(h: PageHeap, before: Live, s: Shape, t: Shape, a: nat)
    requires Usable(h) && StartsBlock(h, a) && t.at.Keys == s.at.Keys + {a}
    requires IndexOf(h, a) !in before && h.live == before[IndexOf(h, a) := 2]
    ensures Others(h, t) == Keep(h, before, s.at.Keys)
  {
    forall i | i in before ensures h.PageAddr(i) != a {
      AddressOf(h, i);
    }
  }

  /** One turn of the loop: follow the link of the entry, or make the table that it should link to. */
  method Step(h: PageHeap, table: nat, v: u64, level: nat, ghost s: Shape)
    returns (next: nat, ghost t: Shape)
    requires 0 < level < 3 && Holds(h, s) && HasTable(s, v, level) && table == TableAt(s, v, level)
    requires Supply(h) >= Missing(s, v)
    modifies h, h.bk
    ensures Holds(h, t) && Extends(t, s)
    ensures HasTable(t, v, level - 1) && next == TableAt(t, v, level - 1)
    ensures Supply(h) - Missing(t, v) >= old(Supply(h)) - Missing(s, v)
    ensures Others(h, t) == old(Others(h, s)) && SameLeaves(old(h.page), s, h.page, t)
  {
    t := s;
    EntryLinks(h.page, s, v, level);
    var e := h.page[table][Vpn(v, level)];
    if !IsValid(e) {
      next, t := Grow(h, table, v, level, s);
    } else {
      next := NextTable(e);
    }
  }

  method Grow(h: PageHeap, table: nat, v: u64, level: nat, ghost s: Shape)
    returns (a: nat, ghost t: Shape)
    requires 0 < level < 3 && Holds(h, s) && HasTable(s, v, level) && table == TableAt(s, v, level)
    requires !HasTable(s, v, level - 1) && Supply(h) >= Missing(s, v)
    modifies h, h.bk
    ensures Holds(h, t) && t == AddTable(s, v, level, a)
    ensures HasTable(t, v, level - 1) && a == TableAt(t, v, level - 1)
    ensures table in h.page && h.page[table][Vpn(v, level)] == BranchEntry(a) && NextTable(BranchEntry(a)) == a
    ensures Supply(h) - Missing(t, v) >= old(Supply(h)) - Missing(s, v)
    ensures Others(h, t) == old(Others(h, s)) && SameLeaves(old(h.page), s, h.page, t)
  {
    hide WellFormed, LeafOf, Keep, Answered, Missing, BranchEntry, NextTable;
    LowHasMid(h.page, s, v);
    MissingAfterAdd(s, v, level);
    a := NewTable(h, s);
    t := AddTable(s, v, level, a);
    OthersAfterAdd(h, old(h.live), s, t, a);
    LinkTable(h, table, v, level, a, s);
  }

  /** The new table is linked from the entry that had none. */
  method LinkTable(h: PageHeap, table: nat, v: u64, level: nat, a: nat, ghost s: Shape)
    requires 0 < level < 3 && Holds(h, s) && HasTable(s, v, level) && table == TableAt(s, v, level)
    requires !HasTable(s, v, level - 1) && FreshTable(h.page, s, a) && StartsBlock(h, a)
    modifies h`page
    ensures var t := AddTable(s, v, level, a);
      Holds(h, t) && HasTable(t, v, level - 1) && a == TableAt(t, v, level - 1)
    ensures table in h.page && h.page[table][Vpn(v, level)] == BranchEntry(a) && NextTable(BranchEntry(a)) == a
    ensures SameLeaves(old(h.page), s, h.page, AddTable(s, v, level, a))
  {
    hide WellFormed, LeafOf, BranchEntry, NextTable;
    EntryLinks(h.page, s, v, level);
    AddTableKeeps(h.page, s, v, level, a);
    BranchRoundTrip(a);
    SetEntry(h, table, Vpn(v, level), BranchEntry(a));
  }

  lemma MissingAfterAdd(s: Shape, v: u64, level: nat)
    requires 0 < level < 3 && HasTable(s, v, level) && !HasTable(s, v, level - 1) && (HasTable(s, v, 0) ==> HasTable(s, v, 1))
    ensures Missing(s, v) > 0
    ensures forall a :: Missing(AddTable(s, v, level, a), v) == Missing(s, v) - 1
  {
  }

  /** table->pt_entry[i] = e */
  method SetEntry(h: PageHeap, table: nat, i: nat, e: u64)
    requires table in h.page && i < 512
    modifies h`page
    ensures h.page == Store(old(h.page), table, i, e)
  {
    h.page := h.page[table := h.page[table][i := e]];
  }

  // ---------- mmu_map and mmu_translate ----------

  /** An entry with exactly the permission bits of the caller's word, and the valid bit. */
  ghost predicate Allowed(e: u64, bits: u64) {
    e % 0x400 == bits % 0x400 + if bits % 2 == 0 then 1 else 0
  }

  /** mmu_map: the page of `v` now translates to the page of `p` (with the higher ones of the caller's bits) if some of
      R, W, X is asked for, with exactly the caller's permission bits, and not at all otherwise; every address outside it has the leaf entry that it had, and so
      translates as before; no block but new tables was taken. */
  method Map(h: PageHeap, root: nat, v: u64, p: u64, bits: u64, ghost s: Shape)
    returns (ok: bool, ghost t: Shape)
    requires Holds(h, s) && root == s.root
    requires Supply(h) >= Missing(s, v)
    modifies h, h.bk
    ensures ok && Holds(h, t) && Extends(t, s) && HasTable(t, v, 0)
    ensures Supply(h) >= old(Supply(h)) - Missing(s, v)
    ensures Others(h, t) == old(Others(h, s))
    ensures forall w: u64 ::
      LeafOf(h.page, t, w) == if VirtualPage(w) == VirtualPage(v) then LeafEntry(p, bits) else old(LeafOf(h.page, s, w))
    ensures forall w: u64 :: VirtualPage(w) == VirtualPage(v) ==> Allowed(LeafOf(h.page, t, w), bits)
    ensures forall w: u64 :: VirtualPage(w) == VirtualPage(v) ==> Translate(h.page, root, w) == Granted(p, bits, w)
    ensures forall w: u64 :: VirtualPage(w) != VirtualPage(v) ==>
      Translate(h.page, root, w) == old(Translate(h.page, root, w))
  {
    hide WellFormed, Translate, LeafOf, Keep, Answered, Granted, LeafEntry, VirtualPage;
    var table, i := root, 2;
    t := s;
    while i >= 1
      invariant 0 <= i <= 2
      invariant Holds(h, t) && Extends(t, s)
      invariant HasTable(t, v, i) && table == TableAt(t, v, i)
      invariant Supply(h) - Missing(t, v) >= old(Supply(h)) - Missing(s, v)
      invariant Others(h, t) == old(Others(h, s)) && SameLeaves(old(h.page), s, h.page, t)
    {
      table, t := Step(h, table, v, i, t);
      i := i - 1;
    }
    SameLeavesTranslate(old(h.page), s, h.page, t);
    StoreLeaf(h, table, v, p, bits, t);
    LeafKeepsBits(p, bits);
    ok := true;
  }

  /** The end of mmu_map, at level 0. */
  method StoreLeaf(h: PageHeap, table: nat, v: u64, p: u64, bits: u64, ghost t: Shape)
    requires Holds(h, t)
    requires HasTable(t, v, 0) && table == TableAt(t, v, 0)
    modifies h`page
    ensures Holds(h, t)
    ensures forall w: u64 ::
      LeafOf(h.page, t, w) == if VirtualPage(w) == VirtualPage(v) then LeafEntry(p, bits) else old(LeafOf(h.page, t, w))
    ensures forall w: u64 :: VirtualPage(w) == VirtualPage(v) ==> Translate(h.page, t.root, w) == Granted(p, bits, w)
    ensures forall w: u64 :: VirtualPage(w) != VirtualPage(v) ==>
      Translate(h.page, t.root, w) == old(Translate(h.page, t.root, w))
  {
    hide Translate, LeafOf, LeafEntry, Granted, VirtualPage;
    StoreLeafKeeps(h.page, t, v, p, bits);
    assert table in t.at;
    hide WellFormed;
    SetEntry(h, table, Vpn(v, 0), LeafEntry(p, bits));
  }

  /** mmu_translate */
  method TranslateAddress(h: PageHeap, root: nat, v: u64, ghost s: Shape) returns (a: nat)
    requires Holds(h, s) && root == s.root
    ensures a == Translate(h.page, root, v)
  {
    var table, i := root, 2;
    while i >= 0
      invariant -1 <= i <= 2
      invariant i >= 0 ==> HasTable(s, v, i) && table == TableAt(s, v, i)
      invariant i >= 0 ==> Translate(h.page, root, v) == Walk(h.page, table, v, i)
      invariant i == -1 ==> Translate(h.page, root, v) == NO_ADDRESS
    {
      if i > 0 { EntryLinks(h.page, s, v, i); } else { assert table in s.at; }
      var e := h.page[table][Vpn(v, i)];
      if !IsValid(e) {
        return NO_ADDRESS;
      } else if IsBranch(e) {
        table := NextTable(e);
      } else {
        return LeafAddress(e, v, i);
      }
      i := i - 1;
    }
    return NO_ADDRESS;
  }

  // ---------- any number of mappings ----------

  /** The tables that a sequence of addresses needs below the root. */
  function Mids(vs: seq<u64>): set<nat> {
    set i | 0 <= i < |vs| :: Vpn(vs[i], 2)
  }

  function Lows(vs: seq<u64>): set<(nat, nat)> {
    set i | 0 <= i < |vs| :: (Vpn(vs[i], 2), Vpn(vs[i], 1))
  }

  /** How many of them are not there yet. */
  ghost function Needed(s: Shape, vs: seq<u64>): nat {
    |Mids(vs) - s.mid.Keys| + |Lows(vs) - s.low.Keys|
  }

  /** Mapping the first address leaves that many less for the others. */
  lemma NeededAfter(m: Memory, s: Shape, t: Shape, vs: seq<u64>)
    requires vs != [] && WellFormed(m, s) && Extends(t, s) && Vpn(vs[0], 2) in t.mid && HasTable(t, vs[0], 0)
    ensures Missing(s, vs[0]) <= Needed(s, vs) && Needed(t, vs[1..]) <= Needed(s, vs) - Missing(s, vs[0])
  {
    var x, y := Vpn(vs[0], 2), (Vpn(vs[0], 2), Vpn(vs[0], 1));
    FirstAndRest(vs);
    LowHasMid(m, s, vs[0]);
    hide WellFormed, Mids, Lows, Vpn;
    MissingOne(Mids(vs[1..]), x, s.mid.Keys, t.mid.Keys);
    MissingOne(Lows(vs[1..]), y, s.low.Keys, t.low.Keys);
  }

  lemma FirstAndRest(vs: seq<u64>)
    requires vs != []
    ensures Mids(vs) == {Vpn(vs[0], 2)} + Mids(vs[1..])
    ensures Lows(vs) == {(Vpn(vs[0], 2), Vpn(vs[0], 1))} + Lows(vs[1..])
  {
    hide Vpn;
    var r := vs[1..];
    forall i | 0 <= i < |vs| ensures Vpn(vs[i], 2) in {Vpn(vs[0], 2)} + Mids(r)
      ensures (Vpn(vs[i], 2), Vpn(vs[i], 1)) in {(Vpn(vs[0], 2), Vpn(vs[0], 1))} + Lows(r)
    {
      assert i > 0 ==> vs[i] == r[i - 1];
    }
    forall i | 0 <= i < |r| ensures Vpn(r[i], 2) in Mids(vs) && (Vpn(r[i], 2), Vpn(r[i], 1)) in Lows(vs) {
      assert r[i] == vs[i + 1];
    }
  }

  lemma MissingOne<T>(rest: set<T>, x: T, have: set<T>, more: set<T>)
    requires have <= more && x in more
    ensures |({x} + rest) - have| >= |rest - more| + if x in have then 0 else 1
  {
    var a, b := ({x} + rest) - have, rest - more;
    if x in have {
      SubsetIsSmaller(b, a);
    } else {
      SubsetIsSmaller(b + {x}, a);
    }
  }

  lemma {:induction false} SubsetIsSmaller<T>(a: set<T>, b: set<T>)
    requires a <= b
    ensures |a| <= |b|
  {
    if x :| x in a { SubsetIsSmaller(a - {x}, b - {x}); }
  }

  /** One call of mmu_map. */
  datatype Request = Request(v: u64, p: u64, bits: u64)

  function Addresses(rs: seq<Request>): (vs: seq<u64>)
    ensures |vs| == |rs| && forall i :: 0 <= i < |rs| ==> vs[i] == rs[i].v
  {
    if rs == [] then [] else Addresses(rs[..|rs| - 1]) + [rs[|rs| - 1].v]
  }

  /** The last request for the page of w, -1 if there is none. */
  function LastFor(rs: seq<Request>, w: u64): (i: int)
    ensures -1 <= i < |rs| && (i >= 0 ==> VirtualPage(rs[i].v) == VirtualPage(w))
    ensures forall j :: i < j < |rs| ==> VirtualPage(rs[j].v) != VirtualPage(w)
  {
    if rs == [] then -1
    else if VirtualPage(rs[|rs| - 1].v) == VirtualPage(w) then |rs| - 1
    else LastFor(rs[..|rs| - 1], w)
  }

  /** The leaf entries after these requests: on each page, the one of its last request. */
  ghost predicate LeavesAfter(rs: seq<Request>, m: Memory, s: Shape, n: Memory, t: Shape)
    requires WellFormed(m, s) && WellFormed(n, t)
  {
    forall w: u64 :: LeafOf(n, t, w) ==
      var i := LastFor(rs, w); if i >= 0 then LeafEntry(rs[i].p, rs[i].bits) else LeafOf(m, s, w)
  }

  lemma NothingAfter(m: Memory, s: Shape)
    requires WellFormed(m, s)
    ensures LeavesAfter([], m, s, m, s)
  {
  }

  lemma OneMoreAfter(rs: seq<Request>, r: Request, m: Memory, s: Shape, n: Memory, t: Shape, n': Memory, t': Shape)
    requires WellFormed(m, s) && WellFormed(n, t) && WellFormed(n', t') && LeavesAfter(rs, m, s, n, t)
    requires forall w: u64 ::
      LeafOf(n', t', w) == if VirtualPage(w) == VirtualPage(r.v) then LeafEntry(r.p, r.bits) else LeafOf(n, t, w)
    ensures LeavesAfter(rs + [r], m, s, n', t')
  {
    hide WellFormed, LeafOf, VirtualPage, LeafEntry;
    var all := rs + [r];
    assert all[..|rs|] == rs;
    forall w: u64 ensures LeafOf(n', t', w) ==
      var i := LastFor(all, w); if i >= 0 then LeafEntry(all[i].p, all[i].bits) else LeafOf(m, s, w)
    {
      assert LastFor(all, w) == if VirtualPage(r.v) == VirtualPage(w) then |rs| else LastFor(rs, w);
    }
  }

  /** Any calls of mmu_map, one after the other, whatever they grant and however their pages repeat. */
  method MapAll(h: PageHeap, root: nat, requests: seq<Request>, ghost s: Shape) returns (ghost t: Shape)
    requires Holds(h, s) && root == s.root && Supply(h) >= Needed(s, Addresses(requests))
    modifies h, h.bk
    ensures Holds(h, t) && Extends(t, s) && Others(h, t) == old(Others(h, s))
    ensures LeavesAfter(requests, old(h.page), s, h.page, t)
  {
    hide WellFormed, Translate, LeafOf, Keep, Answered, Granted, LeafEntry, VirtualPage, LeavesAfter, Needed, HasTable;
    ghost var before, vs := h.page, Addresses(requests);
    t := s;
    NothingAfter(h.page, s);
    var i := 0;
    while i < |requests|
      invariant 0 <= i <= |requests|
      invariant Holds(h, t) && Extends(t, s) && Others(h, t) == old(Others(h, s))
      invariant Supply(h) >= Needed(t, vs[i..])
      invariant LeavesAfter(requests[..i], before, s, h.page, t)
    {
      var r := requests[i];
      ghost var n, u := h.page, t;
      NeededIsEnough(h.page, t, vs[i..]);
      var ok;
      ok, t := Map(h, root, r.v, r.p, r.bits, t);
      HasMid(h.page, t, r.v);
      NeededAfter(n, u, t, vs[i..]);
      assert vs[i..][1..] == vs[i + 1..];
      OneMoreAfter(requests[..i], r, before, s, n, u, h.page, t);
      assert requests[..i] + [r] == requests[..i + 1];
      i := i + 1;
    }
    assert requests[..|requests|] == requests;
  }

  lemma NeededIsEnough(m: Memory, s: Shape, vs: seq<u64>)
    requires vs != [] && WellFormed(m, s)
    ensures Missing(s, vs[0]) <= Needed(s, vs)
  {
    hide WellFormed, Mids, Lows, Vpn;
    LowHasMid(m, s, vs[0]);
    FirstAndRest(vs);
    var x, y := Vpn(vs[0], 2), (Vpn(vs[0], 2), Vpn(vs[0], 1));
    if x !in s.mid { SubsetIsSmaller({x}, Mids(vs) - s.mid.Keys); }
    if y !in s.low { SubsetIsSmaller({y}, Lows(vs) - s.low.Keys); }
  }

  lemma HasMid(m: Memory, s: Shape, v: u64)
    requires WellFormed(m, s) && HasTable(s, v, 0)
    ensures Vpn(v, 2) in s.mid
  {
  }

  /** So after any sequence of calls the table translates as the last request for each page says, and pages without
      one as before. */
  lemma TranslatesAsLastRequest(rs: seq<Request>, m: Memory, s: Shape, n: Memory, t: Shape, w: u64)
    requires WellFormed(m, s) && WellFormed(n, t) && t.root == s.root && LeavesAfter(rs, m, s, n, t)
    ensures var i := LastFor(rs, w);
      Translate(n, s.root, w) == if i >= 0 then Granted(rs[i].p, rs[i].bits, w) else Translate(m, s.root, w)
  {
    hide Translate, Granted, LeafEntry, LeafOf, WellFormed, LeafAddress;
    var i := LastFor(rs, w);
    WalkFindsLeaf(m, s, w);
    WalkFindsLeaf(n, t, w);
    if i >= 0 { GrantedByLeaf(rs[i].p, rs[i].bits, w); }
  }

  /** From an empty table, the entries are those of a table that mmu_free can take apart exactly when the last request
      for each page grants something. */
  lemma SoundIffLastGrants(rs: seq<Request>, m: Memory, s: Shape, n: Memory, t: Shape)
    requires WellFormed(m, s) && WellFormed(n, t) && LeavesAfter(rs, m, s, n, t)
    requires forall w: u64 :: LeafOf(m, s, w) == 0
    ensures Sound(n, t) <==> forall i :: 0 <= i < |rs| && LastFor(rs, rs[i].v) == i ==> Permits(rs[i].bits)
  {
    hide Translate, LeafEntry, LeafOf, WellFormed, Sound, Permits, VirtualPage;
    SoundByLeaves(n, t);
    ZeroIsInvalid();
    forall i | 0 <= i < |rs| ensures IsLeaf(LeafEntry(rs[i].p, rs[i].bits)) <==> Permits(rs[i].bits)
      ensures IsValid(LeafEntry(rs[i].p, rs[i].bits))
    {
      GrantedByLeaf(rs[i].p, rs[i].bits, 0);
    }
    hide IsLeaf, IsValid;
    if forall i :: 0 <= i < |rs| && LastFor(rs, rs[i].v) == i ==> Permits(rs[i].bits) {
      forall v: u64 | IsValid(LeafOf(n, t, v)) ensures IsLeaf(LeafOf(n, t, v)) {
        var i := LastFor(rs, v);
        if i >= 0 { SamePageSameLast(rs, v, rs[i].v); }
      }
    }
    if Sound(n, t) {
      forall i | 0 <= i < |rs| && LastFor(rs, rs[i].v) == i ensures Permits(rs[i].bits) {
        assert IsValid(LeafOf(n, t, rs[i].v));
      }
    }
  }

  lemma {:induction false} SamePageSameLast(rs: seq<Request>, v: u64, w: u64)
    requires VirtualPage(v) == VirtualPage(w)
    ensures LastFor(rs, v) == LastFor(rs, w)
  {
    if rs != [] { SamePageSameLast(rs[..|rs| - 1], v, w); }
  }

  // ---------- mmu_map_multiple ----------

  /** How many pages after the page of v the page of w comes, going round the 39-bit address space. */
  ghost function Distance(v: u64, w: u64): nat {
    (VirtualPage(w) - VirtualPage(v)) % 0x800_0000
  }

  lemma DistanceIsIndex(v: u64, n: nat, w: u64)
    requires n < 0x800_0000 && v + n * PAGE_SIZE < TWO_64
    ensures VirtualPage(w) == VirtualPage(v + n * PAGE_SIZE) <==> Distance(v, w) == n
  {
    var a := v / PAGE_SIZE;
    assert (v + n * PAGE_SIZE) / PAGE_SIZE == a + n;
    var x, y := VirtualPage(w), a % 0x800_0000;
    assert (a + n) % 0x800_0000 == if y + n < 0x800_0000 then y + n else y + n - 0x800_0000 by {
      assert a == a / 0x800_0000 * 0x800_0000 + y;
    }
    assert (x - y) % 0x800_0000 == if x < y then x - y + 0x800_0000 else x - y;
  }

  /** Byte k after v is in page (v % PAGE_SIZE + k) / PAGE_SIZE of the range. */
  lemma DistanceOfByte(v: u64, w: u64)
    requires v <= w && v % PAGE_SIZE + (w - v) < 0x80_0000_0000
    ensures Distance(v, w) == (v % PAGE_SIZE + (w - v)) / PAGE_SIZE
    ensures w - v == Distance(v, w) * PAGE_SIZE + w % PAGE_SIZE - v % PAGE_SIZE
  {
    var n := (v % PAGE_SIZE + (w - v)) / PAGE_SIZE;
    assert v == v / PAGE_SIZE * PAGE_SIZE + v % PAGE_SIZE;
    assert w == (v / PAGE_SIZE + n) * PAGE_SIZE + (v % PAGE_SIZE + (w - v)) % PAGE_SIZE;
    assert w / PAGE_SIZE == v / PAGE_SIZE + n;
    assert v - v % PAGE_SIZE + n * PAGE_SIZE <= w;
    DistanceIsIndex(v - v % PAGE_SIZE, n, w);
    assert VirtualPage(v - v % PAGE_SIZE) == VirtualPage(v);
  }

  /** The page of an address n pages on. */
  lemma BaseOf(p: u64, n: nat)
    requires p + n * PAGE_SIZE < TWO_56
    ensures PageBase(p + n * PAGE_SIZE) == p - p % PAGE_SIZE + n * PAGE_SIZE
  {
    assert p == p / PAGE_SIZE * PAGE_SIZE + p % PAGE_SIZE;
    assert p + n * PAGE_SIZE == (p / PAGE_SIZE + n) * PAGE_SIZE + p % PAGE_SIZE;
  }

  /** Page n from the page of v on translates to page n from the page of p on, for n below `pages`; all else is as in
      `before`. */
  ghost predicate RangeMapped(m: Memory, root: nat, v: u64, p: u64, bits: u64, pages: nat, before: Memory)
    requires p + pages * PAGE_SIZE <= TWO_64
  {
    forall w: u64 :: Translate(m, root, w) ==
      if Distance(v, w) < pages then Granted(p + Distance(v, w) * PAGE_SIZE, bits, w)
      else Translate(before, root, w)
  }

  /** The same for the leaf entries. */
  ghost predicate RangeLeaves(m: Memory, t: Shape, v: u64, p: u64, bits: u64, pages: nat, before: Memory, s: Shape)
    requires WellFormed(m, t) && WellFormed(before, s) && p + pages * PAGE_SIZE <= TWO_64
  {
    forall w: u64 :: LeafOf(m, t, w) ==
      if Distance(v, w) < pages then LeafEntry(p + Distance(v, w) * PAGE_SIZE, bits) else LeafOf(before, s, w)
  }

  /** The number of pages that a range of bytes touches. */
  function PagesOf(bytes: nat): (n: nat)
    ensures bytes <= n * PAGE_SIZE < bytes + PAGE_SIZE
  {
    RoundUp(bytes) / PAGE_SIZE
  }

  lemma RangeStarts(m: Memory, root: nat, v: u64, p: u64, bits: u64, s: Shape)
    requires WellFormed(m, s)
    ensures RangeMapped(m, root, v, p, bits, 0, m) && RangeLeaves(m, s, v, p, bits, 0, m, s)
  {
  }

  lemma PageInRange(v: u64, p: u64, bytes: nat, n: nat)
    requires n < PagesOf(bytes) && bytes <= 0x80_0000_0000
    requires v + RoundUp(bytes) <= TWO_64 && p + RoundUp(bytes) <= TWO_64
    ensures n < 0x800_0000 && v + n * PAGE_SIZE < TWO_64 && p + (n + 1) * PAGE_SIZE <= TWO_64
    ensures p + PagesOf(bytes) * PAGE_SIZE <= TWO_64
  {
    assert RoundUp(bytes) == PagesOf(bytes) * PAGE_SIZE;
  }

  lemma PagesFit(p: u64, bytes: nat)
    requires p + RoundUp(bytes) <= TWO_64
    ensures p + PagesOf(bytes) * PAGE_SIZE <= TWO_64
  {
  }

  /** mmu_map_multiple: as many pages as the rounded-up number of bytes, from the page of v on, translate to their
      counterparts, all other pages keep their translation, and no block but new tables was taken. */
  method MapMultiple(h: PageHeap, root: nat, v: u64, p: u64, bytes: u64, bits: u64, ghost s: Shape)
    returns (ghost t: Shape)
    requires Holds(h, s) && root == s.root
    requires bytes <= 0x80_0000_0000 && v + RoundUp(bytes) <= TWO_64 && p + RoundUp(bytes) <= TWO_64
    requires Supply(h) >= Needed(s, RangePages(v, bytes))
    modifies h, h.bk
    ensures Holds(h, t) && Extends(t, s) && Others(h, t) == old(Others(h, s))
    ensures p + PagesOf(bytes) * PAGE_SIZE <= TWO_64
    ensures RangeMapped(h.page, root, v, p, bits, PagesOf(bytes), old(h.page))
    ensures forall w: u64 :: Distance(v, w) < PagesOf(bytes) ==> Allowed(LeafOf(h.page, t, w), bits)
    ensures forall w: u64 :: Distance(v, w) >= PagesOf(bytes) ==> LeafOf(h.page, t, w) == old(LeafOf(h.page, s, w))
  {
    hide WellFormed, Translate, Keep, Answered, RangeMapped, RangeLeaves, RoundUp, Needed, RangePages, Allowed, LeafOf;
    ghost var before, vs := h.page, RangePages(v, bytes);
    RangeStarts(h.page, root, v, p, bits, s);
    PagesFit(p, bytes);
    RangePageAt(v, bytes);
    t := s;
    var i := 0;
    ghost var n := 0;
    ghost var pages := PagesOf(bytes);
    while i < bytes
      invariant i == n * PAGE_SIZE && n <= pages
      invariant Holds(h, t) && Extends(t, s) && Others(h, t) == old(Others(h, s))
      invariant Supply(h) >= Needed(t, vs[n..])
      invariant RangeMapped(h.page, root, v, p, bits, n, before) && RangeLeaves(h.page, t, v, p, bits, n, before, s)
      decreases pages - n
    {
      PageInRange(v, p, bytes, n);
      t := MapNext(h, root, v, p, i, bits, t, n, before, s, vs[n..]);
      assert vs[n..][1..] == vs[n + 1..];
      i := i + PAGE_SIZE;
      n := n + 1;
    }
    RangeAllows(h.page, t, v, p, bits, pages, before, s);
  }

  lemma RangeAllows(m: Memory, t: Shape, v: u64, p: u64, bits: u64, pages: nat, before: Memory, s: Shape)
    requires WellFormed(m, t) && WellFormed(before, s) && p + pages * PAGE_SIZE <= TWO_64
    requires RangeLeaves(m, t, v, p, bits, pages, before, s)
    ensures forall w: u64 :: Distance(v, w) < pages ==> Allowed(LeafOf(m, t, w), bits)
    ensures forall w: u64 :: Distance(v, w) >= pages ==> LeafOf(m, t, w) == LeafOf(before, s, w)
  {
    hide WellFormed, LeafOf, LeafEntry, Distance;
    forall w: u64 | Distance(v, w) < pages ensures Allowed(LeafOf(m, t, w), bits) {
      LeafKeepsBits(p + Distance(v, w) * PAGE_SIZE, bits);
    }
  }

  /** The first addresses of the pages of a range. */
  ghost function RangePages(v: u64, bytes: nat): (vs: seq<u64>)
    requires v + RoundUp(bytes) <= TWO_64
  {
    seq(PagesOf(bytes), n requires 0 <= n < PagesOf(bytes) => PageAfter(v, bytes, n))
  }

  function PageAfter(v: u64, bytes: nat, n: nat): u64
    requires v + RoundUp(bytes) <= TWO_64 && n < PagesOf(bytes)
  {
    assert RoundUp(bytes) == PagesOf(bytes) * PAGE_SIZE;
    v + n * PAGE_SIZE
  }

  lemma RangePageAt(v: u64, bytes: nat)
    requires v + RoundUp(bytes) <= TWO_64
    ensures |RangePages(v, bytes)| == PagesOf(bytes)
    ensures forall n :: 0 <= n < PagesOf(bytes) ==> RangePages(v, bytes)[n] == v + n * PAGE_SIZE
  {
  }

  /** A range needs about one table for every 2 MiB, and one more level for every GiB. */
  lemma RangeNeedsFew(s: Shape, v: u64, bytes: nat)
    requires v + RoundUp(bytes) <= TWO_64
    ensures Needed(s, RangePages(v, bytes)) <= PagesOf(bytes) / 512 + PagesOf(bytes) / 0x4_0000 + 4
  {
    hide RoundUp, PagesOf;
    var vs, n := RangePages(v, bytes), PagesOf(bytes);
    RangePageAt(v, bytes);
    hide RangePages;
    var gib, mib := v / 0x4000_0000, v / 0x20_0000;
    var mids, lows := MidsFrom(gib, n / 0x4_0000 + 2), LowsFrom(mib, n / 512 + 2);
    forall i | 0 <= i < n ensures Vpn(vs[i], 2) in mids && (Vpn(vs[i], 2), Vpn(vs[i], 1)) in lows {
      PageOfRange(v, i, n);
    }
    assert Mids(vs) <= mids && Lows(vs) <= lows;
    SubsetIsSmaller(Mids(vs) - s.mid.Keys, mids);
    SubsetIsSmaller(Lows(vs) - s.low.Keys, lows);
  }

  /** The middle tables of n GiB from gibibyte `lo` on, and the lowest tables of n times 2 MiB. */
  ghost function MidsFrom(lo: nat, n: nat): (r: set<nat>)
    ensures |r| <= n && forall i :: lo <= i < lo + n ==> i % 512 in r
  {
    if n == 0 then {} else MidsFrom(lo, n - 1) + {(lo + n - 1) % 512}
  }

  ghost function LowsFrom(lo: nat, n: nat): (r: set<(nat, nat)>)
    ensures |r| <= n && forall j :: lo <= j < lo + n ==> (j / 512 % 512, j % 512) in r
  {
    if n == 0 then {} else LowsFrom(lo, n - 1) + {((lo + n - 1) / 512 % 512, (lo + n - 1) % 512)}
  }

  lemma PageOfRange(v: u64, i: nat, n: nat)
    requires i < n && v + i * PAGE_SIZE < TWO_64
    ensures var w: u64 := v + i * PAGE_SIZE;
      && v / 0x4000_0000 <= w / 0x4000_0000 <= v / 0x4000_0000 + n / 0x4_0000 + 1
      && v / 0x20_0000 <= w / 0x20_0000 <= v / 0x20_0000 + n / 512 + 1
      && Vpn(w, 2) == w / 0x4000_0000 % 512 == w / 0x20_0000 / 512 % 512 && Vpn(w, 1) == w / 0x20_0000 % 512
  {
  }

  /** One turn of its loop. */
  method MapNext(h: PageHeap, root: nat, v: u64, p: u64, i: nat, bits: u64, ghost s: Shape, ghost n: nat, ghost before: Memory,
      ghost first: Shape, ghost vs: seq<u64>) returns (ghost t: Shape)
    requires Holds(h, s) && root == s.root && vs != [] && vs[0] == v + i
    requires i == n * PAGE_SIZE && n < 0x800_0000
    requires v + i < TWO_64 && p + (n + 1) * PAGE_SIZE <= TWO_64 && Supply(h) >= Needed(s, vs)
    requires WellFormed(before, first) && RangeLeaves(h.page, s, v, p, bits, n, before, first)
    requires RangeMapped(h.page, root, v, p, bits, n, before)
    modifies h, h.bk
    ensures Holds(h, t) && Extends(t, s) && Others(h, t) == old(Others(h, s))
    ensures Supply(h) >= Needed(t, vs[1..])
    ensures RangeMapped(h.page, root, v, p, bits, n + 1, before)
    ensures RangeLeaves(h.page, t, v, p, bits, n + 1, before, first)
  {
    hide WellFormed, Translate, LeafOf, Keep, Answered, RangeMapped, RangeLeaves, Granted, VirtualPage, Needed, LeafEntry, Allowed;
    ghost var between := h.page;
    NeededIsEnough(h.page, s, vs);
    var ok;
    ok, t := Map(h, root, v + i, p + i, bits, s);
    HasMid(h.page, t, v + i);
    NeededAfter(between, s, t, vs);
    RangeGrows(h.page, root, v, p, bits, n, between, before);
    LeavesGrow(h.page, t, v, p, bits, n, between, s, before, first);
  }

  lemma LeavesGrow(m: Memory, t: Shape, v: u64, p: u64, bits: u64, n: nat, between: Memory, s: Shape, before: Memory, first: Shape)
    requires n < 0x800_0000 && v + n * PAGE_SIZE < TWO_64 && p + (n + 1) * PAGE_SIZE <= TWO_64
    requires WellFormed(m, t) && WellFormed(between, s) && WellFormed(before, first)
    requires RangeLeaves(between, s, v, p, bits, n, before, first)
    requires forall w: u64 ::
      LeafOf(m, t, w) ==
        if VirtualPage(w) == VirtualPage(v + n * PAGE_SIZE) then LeafEntry(p + n * PAGE_SIZE, bits) else LeafOf(between, s, w)
    ensures RangeLeaves(m, t, v, p, bits, n + 1, before, first)
  {
    hide LeafEntry, VirtualPage, Distance, LeafOf, WellFormed;
    forall w: u64
      ensures LeafOf(m, t, w) ==
        if Distance(v, w) < n + 1 then LeafEntry(p + Distance(v, w) * PAGE_SIZE, bits) else LeafOf(before, first, w)
    {
      DistanceIsIndex(v, n, w);
    }
  }

  lemma RangeGrows(m: Memory, root: nat, v: u64, p: u64, bits: u64, n: nat, between: Memory, before: Memory)
    requires n < 0x800_0000 && v + n * PAGE_SIZE < TWO_64 && p + (n + 1) * PAGE_SIZE <= TWO_64
    requires RangeMapped(between, root, v, p, bits, n, before)
    requires forall w: u64 :: VirtualPage(w) == VirtualPage(v + n * PAGE_SIZE) ==>
      Translate(m, root, w) == Granted(p + n * PAGE_SIZE, bits, w)
    requires forall w: u64 :: VirtualPage(w) != VirtualPage(v + n * PAGE_SIZE) ==>
      Translate(m, root, w) == Translate(between, root, w)
    ensures RangeMapped(m, root, v, p, bits, n + 1, before)
  {
    hide Granted, VirtualPage, Distance, Translate;
    forall w: u64
      ensures Translate(m, root, w) ==
        if Distance(v, w) < n + 1 then Granted(p + Distance(v, w) * PAGE_SIZE, bits, w)
        else Translate(before, root, w)
    {
      DistanceIsIndex(v, n, w);
    }
  }

  /** What that means for the bytes of the range: if the two starts have the same offset in their pages, byte k
      translates to byte k in every page that was mapped. From an aligned start those are all the bytes asked for. */
  lemma BytesOfRange(m: Memory, root: nat, v: u64, p: u64, bits: u64, bytes: nat, before: Memory, w: u64)
    requires bytes <= 0x80_0000_0000 && p + RoundUp(bytes) <= TWO_56 && bits < 0x400 && Permits(bits)
    requires p + PagesOf(bytes) * PAGE_SIZE <= TWO_64 && RangeMapped(m, root, v, p, bits, PagesOf(bytes), before)
    requires v <= w && v % PAGE_SIZE == p % PAGE_SIZE && v % PAGE_SIZE + (w - v) < PagesOf(bytes) * PAGE_SIZE
    ensures Translate(m, root, w) == p + (w - v)
  {
    hide RoundUp, Translate, MappedBase, PageBase;
    PagesBelow(bytes);
    var n := Distance(v, w);
    DistanceOfByte(v, w);
    BaseOf(p, n);
    MappedBaseIff(p + n * PAGE_SIZE, bits);
  }

  lemma PagesBelow(bytes: nat)
    requires bytes <= 0x80_0000_0000
    ensures PagesOf(bytes) * PAGE_SIZE == RoundUp(bytes) <= 0x80_0000_0000
  {
  }

  /** Every byte of a range is in a page that was mapped exactly when the offset of its start still fits into the
      rounded-up pages, in particular from an aligned start. */
  lemma RangeIsWholeIff(v: u64, bytes: nat)
    requires v + bytes <= TWO_64 && v % PAGE_SIZE + bytes <= 0x80_0000_0000
    ensures (forall w: u64 :: v <= w < v + bytes ==> Distance(v, w) < PagesOf(bytes))
      <==> bytes == 0 || v % PAGE_SIZE + bytes <= PagesOf(bytes) * PAGE_SIZE
    ensures v % PAGE_SIZE == 0 ==> v % PAGE_SIZE + bytes <= PagesOf(bytes) * PAGE_SIZE
  {
    var n := PagesOf(bytes);
    hide Distance, PagesOf;
    if v % PAGE_SIZE + bytes <= n * PAGE_SIZE {
      forall w: u64 | v <= w < v + bytes ensures Distance(v, w) < n {
        DistanceOfByte(v, w);
      }
    } else if bytes > 0 {
      var w: u64 := v + bytes - 1;
      DistanceOfByte(v, w);
      assert Distance(v, w) >= n;
    }
  }

  /** From an unaligned start, the bytes behind the last page that was mapped are not: they translate as before. */
  lemma BytesBehindRange(m: Memory, root: nat, v: u64, p: u64, bits: u64, bytes: nat, before: Memory, w: u64)
    requires p + PagesOf(bytes) * PAGE_SIZE <= TWO_64 && RangeMapped(m, root, v, p, bits, PagesOf(bytes), before)
    requires v <= w < v + bytes && v % PAGE_SIZE + (w - v) >= PagesOf(bytes) * PAGE_SIZE
    requires v % PAGE_SIZE + bytes <= 0x80_0000_0000
    ensures Translate(m, root, w) == Translate(before, root, w)
  {
    hide RoundUp, Translate, MappedBase;
    DistanceOfByte(v, w);
  }
}
