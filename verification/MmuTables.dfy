/**
 The three-level page table that src/mmu.c builds, as a tree of pages in memory.

 A `Shape` lists the tables by the indices that lead to them. `at` gives the place
 of every table address, so no two places share a table.
 */
module MmuTables {
  import opened Words
  import opened Cpage
  import opened MmuEntry

  type Memory = map<nat, Page>

  datatype Place = Root | Mid(i: nat) | Low(i: nat, j: nat)
  datatype Shape = Shape(root: nat, mid: map<nat, nat>, low: map<(nat, nat), nat>, at: map<nat, Place>)

  /** Entry i of the table at address a. */
  ghost function Entry(m: Memory, a: nat, i: nat): u64
    requires i < 512
  {
    if a in m then m[a][i] else 0
  }

  ghost predicate Links(e: u64, a: nat) {
    IsValid(e) && IsBranch(e) && NextTable(e) == a
  }

  ghost predicate PlacesMatch(s: Shape) {
    && s.root in s.at && s.at[s.root] == Root
    && (forall i :: i in s.mid ==> i < 512 && s.mid[i] in s.at && s.at[s.mid[i]] == Mid(i))
    && (forall i, j :: (i, j) in s.low ==>
        i in s.mid && j < 512 && s.low[(i, j)] in s.at && s.at[s.low[(i, j)]] == Low(i, j))
    && (forall a :: a in s.at ==>
        match s.at[a]
        case Root => a == s.root
        case Mid(i) => i in s.mid && s.mid[i] == a
        case Low(i, j) => (i, j) in s.low && s.low[(i, j)] == a)
  }

  /** Tables are distinct aligned pages, and the upper two levels link exactly the tables of the shape. */
  ghost predicate WellFormed(m: Memory, s: Shape) {
    PlacesMatch(s) && TablesExist(m, s) && RootLinked(m, s) && MidLinked(m, s)
  }

  /** Besides, no entry of the lowest level reads as a link: what mmu_free relies on, and mmu_map does not. */
  ghost predicate Sound(m: Memory, s: Shape) {
    WellFormed(m, s) && LowLeaves(m, s)
  }

  ghost predicate TablesExist(m: Memory, s: Shape) {
    forall a :: a in s.at ==> a in m && a % PAGE_SIZE == 0 && 0 < a < TWO_56
  }

  ghost predicate RootLinked(m: Memory, s: Shape)
    requires PlacesMatch(s) && TablesExist(m, s)
  {
    forall i :: 0 <= i < 512 ==>
      && (IsValid(m[s.root][i]) <==> i in s.mid)
      && (i in s.mid ==> Links(m[s.root][i], s.mid[i]))
  }

  ghost predicate MidLinked(m: Memory, s: Shape)
    requires PlacesMatch(s) && TablesExist(m, s)
  {
    forall i, j :: i in s.mid && 0 <= j < 512 ==>
      && (IsValid(m[s.mid[i]][j]) <==> (i, j) in s.low)
      && ((i, j) in s.low ==> Links(m[s.mid[i]][j], s.low[(i, j)]))
  }

  ghost predicate LowLeaves(m: Memory, s: Shape)
    requires PlacesMatch(s) && TablesExist(m, s)
  {
    forall i, j, k :: (i, j) in s.low && 0 <= k < 512 && IsValid(m[s.low[(i, j)]][k]) ==>
      !IsBranch(m[s.low[(i, j)]][k])
  }

  // ---------- translation ----------

  /** mmu_translate from the table at `a`, with `level` levels below it. */
  ghost function Walk(m: Memory, a: nat, v: u64, level: nat): nat
    requires level < 3
    decreases level
  {
    var e := Entry(m, a, Vpn(v, level));
    if !IsValid(e) then NO_ADDRESS
    else if IsBranch(e) then
      if level == 0 then NO_ADDRESS else Walk(m, NextTable(e), v, level - 1)
    else LeafAddress(e, v, level)
  }

  ghost function Translate(m: Memory, root: nat, v: u64): nat {
    Walk(m, root, v, 2)
  }

  /** The leaf entry for a virtual address, 0 when a table on the way is missing. */
  ghost function LeafOf(m: Memory, s: Shape, v: u64): u64
    requires WellFormed(m, s)
  {
    if (Vpn(v, 2), Vpn(v, 1)) in s.low then m[s.low[(Vpn(v, 2), Vpn(v, 1))]][Vpn(v, 0)] else 0
  }

  /** An entry at the lowest level that leads anywhere. */
  predicate IsLeaf(e: u64) {
    IsValid(e) && !IsBranch(e)
  }

  /** In a well-formed table the walk ends at that leaf, or fails. */
  lemma WalkFindsLeaf(m: Memory, s: Shape, v: u64)
    requires WellFormed(m, s)
    ensures var e := LeafOf(m, s, v);
      Translate(m, s.root, v) == if IsLeaf(e) then LeafAddress(e, v, 0) else NO_ADDRESS
  {
    hide LeafAddress;
    var i, j, k := Vpn(v, 2), Vpn(v, 1), Vpn(v, 0);
    assert s.root in s.at;
    if i in s.mid {
      assert s.mid[i] in s.at;
      assert Walk(m, s.root, v, 2) == Walk(m, s.mid[i], v, 1);
      if (i, j) in s.low {
        assert s.low[(i, j)] in s.at;
        assert Walk(m, s.mid[i], v, 1) == Walk(m, s.low[(i, j)], v, 0);
      }
    }
  }

  /** On any memory whatever: an entry without the valid bit ends the walk without an address, one with a permission
      ends it with an address in its page of 1 GiB, 2 MiB or 4 KiB, and any other leads on to the table that its number
      names, if there is a level left. */
  lemma WalkMeans(m: Memory, a: nat, v: u64, level: nat)
    requires level < 3
    ensures var e := Entry(m, a, v / (if level == 0 then 0x1000 else if level == 1 then 0x20_0000 else 0x4000_0000) % 512);
      var size := if level == 0 then 0x1000 else if level == 1 then 0x20_0000 else 0x4000_0000;
      var base := e / 0x400 % 0x1000_0000_0000 * 0x1000;
      && (e % 2 == 0 ==> Walk(m, a, v, level) == 0xFFFF_FFFF_FFFF_FFFF)
      && (e % 2 == 1 && e / 2 % 8 != 0 ==> Walk(m, a, v, level) == base / size * size + v % size)
      && (e % 2 == 1 && e / 2 % 8 == 0 && level == 0 ==> Walk(m, a, v, level) == 0xFFFF_FFFF_FFFF_FFFF)
      && (e % 2 == 1 && e / 2 % 8 == 0 && level > 0 && e / 0x400 < 0x1000_0000_0000 ==>
          Walk(m, a, v, level) == Walk(m, base, v, level - 1))
  {
    hide LeafAddress;
    var e := Entry(m, a, Vpn(v, level));
    LeafAddressIs(e, v, level);
    NextTableIsNumber(e);
  }

  // ---------- growing the tree ----------

  /** A page that no table uses, cleared. */
  ghost predicate FreshTable(m: Memory, s: Shape, a: nat) {
    a !in s.at && a in m && m[a] == ZeroPage() && a % PAGE_SIZE == 0 && 0 < a < TWO_56
  }

  ghost function AddMid(s: Shape, i: nat, a: nat): Shape {
    s.(mid := s.mid[i := a], at := s.at[a := Mid(i)])
  }

  ghost function AddLow(s: Shape, i: nat, j: nat, a: nat): Shape {
    s.(low := s.low[(i, j) := a], at := s.at[a := Low(i, j)])
  }

  ghost function Store(m: Memory, a: nat, i: nat, e: u64): Memory
    requires a in m && i < 512
  {
    m[a := m[a][i := e]]
  }

  lemma AddMidPlaces(s: Shape, i: nat, a: nat)
    requires PlacesMatch(s) && i < 512 && i !in s.mid && a !in s.at
    ensures PlacesMatch(AddMid(s, i, a))
    ensures forall x, y :: (x, y) in s.low ==> x != i && (x, y) in AddMid(s, i, a).low
  {
  }

  lemma AddLowPlaces(s: Shape, i: nat, j: nat, a: nat)
    requires PlacesMatch(s) && i in s.mid && j < 512 && (i, j) !in s.low && a !in s.at
    ensures PlacesMatch(AddLow(s, i, j, a))
  {
  }

  /** The entry written for a table, and the entries of a cleared table. */
  lemma NewEntries(a: nat)
    requires a % PAGE_SIZE == 0 && 0 < a < TWO_56
    ensures IsValid(BranchEntry(a)) && Links(BranchEntry(a), a)
    ensures forall k :: 0 <= k < 512 ==> !IsValid(ZeroPage()[k])
  {
    BranchRoundTrip(a);
  }

  lemma AddMidKeeps(m: Memory, s: Shape, i: nat, a: nat)
    requires WellFormed(m, s) && i < 512 && i !in s.mid && FreshTable(m, s, a)
    ensures s.root in m && WellFormed(Store(m, s.root, i, BranchEntry(a)), AddMid(s, i, a))
  {
    hide IsValid, Links, BranchEntry, IsBranch, ZeroPage, MidLinked;
    assert s.root in s.at;
    NewEntries(a);
    AddMidPlaces(s, i, a);
    AddMidMid(m, s, i, a);
    hide PlacesMatch;
  }

  lemma AddMidMid(m: Memory, s: Shape, i: nat, a: nat)
    requires WellFormed(m, s) && i < 512 && i !in s.mid && FreshTable(m, s, a)
    ensures s.root in m && PlacesMatch(AddMid(s, i, a)) && TablesExist(Store(m, s.root, i, BranchEntry(a)), AddMid(s, i, a))
    ensures MidLinked(Store(m, s.root, i, BranchEntry(a)), AddMid(s, i, a))
  {
    hide IsValid, Links, BranchEntry, IsBranch, ZeroPage, RootLinked;
    assert s.root in s.at;
    NewEntries(a);
    AddMidPlaces(s, i, a);
    var n, t := Store(m, s.root, i, BranchEntry(a)), AddMid(s, i, a);
    assert TablesExist(n, t);
    forall x, y | x in t.mid && 0 <= y < 512
      ensures (IsValid(n[t.mid[x]][y]) <==> (x, y) in t.low) && ((x, y) in t.low ==> Links(n[t.mid[x]][y], t.low[(x, y)]))
    {
      if x != i { assert n[t.mid[x]] == m[s.mid[x]]; }
    }
  }

  lemma AddLowKeeps(m: Memory, s: Shape, i: nat, j: nat, a: nat)
    requires WellFormed(m, s) && i in s.mid && j < 512 && (i, j) !in s.low && FreshTable(m, s, a)
    ensures s.mid[i] in m && WellFormed(Store(m, s.mid[i], j, BranchEntry(a)), AddLow(s, i, j, a))
  {
    hide IsValid, Links, BranchEntry, IsBranch, ZeroPage;
    assert s.mid[i] in s.at;
    NewEntries(a);
    AddLowPlaces(s, i, j, a);
    var n, t := Store(m, s.mid[i], j, BranchEntry(a)), AddLow(s, i, j, a);
    forall x, y | x in t.mid && 0 <= y < 512
      ensures (IsValid(n[t.mid[x]][y]) <==> (x, y) in t.low) && ((x, y) in t.low ==> Links(n[t.mid[x]][y], t.low[(x, y)]))
    {
      if x != i { assert n[t.mid[x]] == m[s.mid[x]]; }
    }
  }

  /** Every address has the same leaf entry. */
  ghost predicate SameLeaves(m: Memory, s: Shape, n: Memory, t: Shape)
    requires WellFormed(m, s) && WellFormed(n, t)
  {
    forall v: u64 :: LeafOf(n, t, v) == LeafOf(m, s, v)
  }

  /** A table whose leaves agree translates alike. */
  lemma SameLeavesTranslate(m: Memory, s: Shape, n: Memory, t: Shape)
    requires WellFormed(m, s) && WellFormed(n, t) && t.root == s.root && SameLeaves(m, s, n, t)
    ensures forall v: u64 :: Translate(n, s.root, v) == Translate(m, s.root, v)
  {
    hide WellFormed, Translate, LeafOf, LeafAddress;
    forall v: u64 ensures Translate(n, s.root, v) == Translate(m, s.root, v) {
      WalkFindsLeaf(m, s, v);
      WalkFindsLeaf(n, t, v);
    }
  }

  /** Hanging an empty table into the tree changes no leaf, and so no translation. */
  lemma AddMidTranslates(m: Memory, s: Shape, i: nat, a: nat)
    requires WellFormed(m, s) && i < 512 && i !in s.mid && FreshTable(m, s, a)
    ensures s.root in m && WellFormed(Store(m, s.root, i, BranchEntry(a)), AddMid(s, i, a))
    ensures SameLeaves(m, s, Store(m, s.root, i, BranchEntry(a)), AddMid(s, i, a))
    ensures forall v: u64 :: Translate(Store(m, s.root, i, BranchEntry(a)), s.root, v) == Translate(m, s.root, v)
  {
    hide Translate;
    AddMidKeeps(m, s, i, a);
    var n := Store(m, s.root, i, BranchEntry(a));
    forall x, y | (x, y) in s.low ensures n[s.low[(x, y)]] == m[s.low[(x, y)]] {
      assert s.low[(x, y)] in s.at;
    }
    SameLeavesTranslate(m, s, n, AddMid(s, i, a));
  }

  lemma AddLowTranslates(m: Memory, s: Shape, i: nat, j: nat, a: nat)
    requires WellFormed(m, s) && i in s.mid && j < 512 && (i, j) !in s.low && FreshTable(m, s, a)
    ensures s.mid[i] in m && WellFormed(Store(m, s.mid[i], j, BranchEntry(a)), AddLow(s, i, j, a))
    ensures SameLeaves(m, s, Store(m, s.mid[i], j, BranchEntry(a)), AddLow(s, i, j, a))
    ensures forall v: u64 :: Translate(Store(m, s.mid[i], j, BranchEntry(a)), s.root, v) == Translate(m, s.root, v)
  {
    hide Translate;
    AddLowKeeps(m, s, i, j, a);
    var n := Store(m, s.mid[i], j, BranchEntry(a));
    forall x, y | (x, y) in s.low ensures n[s.low[(x, y)]] == m[s.low[(x, y)]] {
      assert s.low[(x, y)] in s.at;
    }
    SameLeavesTranslate(m, s, n, AddLow(s, i, j, a));
  }

  /** Whatever entry is written at the place of v's leaf, the tree stays well formed, and only the addresses of v's page
      see the entry. */
  lemma LeafChanged(m: Memory, s: Shape, v: u64, e: u64)
    requires WellFormed(m, s) && (Vpn(v, 2), Vpn(v, 1)) in s.low
    ensures s.low[(Vpn(v, 2), Vpn(v, 1))] in m
    ensures var n := Store(m, s.low[(Vpn(v, 2), Vpn(v, 1))], Vpn(v, 0), e);
      && WellFormed(n, s)
      && forall w: u64 :: LeafOf(n, s, w) == if VirtualPage(w) == VirtualPage(v) then e else LeafOf(m, s, w)
  {
    var a := s.low[(Vpn(v, 2), Vpn(v, 1))];
    assert a in s.at;
    var n := Store(m, a, Vpn(v, 0), e);
    assert WellFormed(n, s);
    forall w: u64 ensures LeafOf(n, s, w) == if VirtualPage(w) == VirtualPage(v) then e else LeafOf(m, s, w) {
      IndicesArePage(v, w);
      hide Vpn, VirtualPage;
      if (Vpn(w, 2), Vpn(w, 1)) in s.low { assert s.low[(Vpn(w, 2), Vpn(w, 1))] in s.at; }
    }
  }

  /** mmu_map's permission bits name some of R, W, X. */
  predicate Permits(bits: u64) {
    bits / 2 % 8 != 0
  }

  /** Storing a leaf maps exactly the addresses of one page if it grants anything, and unmaps them otherwise. */
  lemma StoreLeafKeeps(m: Memory, s: Shape, v: u64, p: u64, bits: u64)
    requires WellFormed(m, s) && (Vpn(v, 2), Vpn(v, 1)) in s.low
    ensures s.low[(Vpn(v, 2), Vpn(v, 1))] in m
    ensures var n := Store(m, s.low[(Vpn(v, 2), Vpn(v, 1))], Vpn(v, 0), LeafEntry(p, bits));
      && WellFormed(n, s)
      && (forall w: u64 :: LeafOf(n, s, w) == if VirtualPage(w) == VirtualPage(v) then LeafEntry(p, bits) else LeafOf(m, s, w))
      && (forall w: u64 :: VirtualPage(w) == VirtualPage(v) ==> Translate(n, s.root, w) == Granted(p, bits, w))
      && (forall w: u64 :: VirtualPage(w) != VirtualPage(v) ==> Translate(n, s.root, w) == Translate(m, s.root, w))
  {
    hide LeafEntry, LeafAddress, MappedBase, LinkBase, Translate, VirtualPage, Vpn, LeafOf, WellFormed;
    var e, a := LeafEntry(p, bits), s.low[(Vpn(v, 2), Vpn(v, 1))];
    LeafChanged(m, s, v, e);
    var n := Store(m, a, Vpn(v, 0), e);
    forall w: u64
      ensures VirtualPage(w) == VirtualPage(v) ==> Translate(n, s.root, w) == Granted(p, bits, w)
      ensures VirtualPage(w) != VirtualPage(v) ==> Translate(n, s.root, w) == Translate(m, s.root, w)
    {
      WalkFindsLeaf(m, s, w);
      WalkFindsLeaf(n, s, w);
      GrantedByLeaf(p, bits, w);
    }
  }

  /** What the addresses of a page translate to once it was mapped to p. */
  function Granted(p: u64, bits: u64, w: u64): nat {
    if Permits(bits) then MappedBase(p, bits) + w % PAGE_SIZE else NO_ADDRESS
  }

  lemma GrantedByLeaf(p: u64, bits: u64, w: u64)
    ensures Granted(p, bits, w) == if IsLeaf(LeafEntry(p, bits)) then LeafAddress(LeafEntry(p, bits), w, 0) else NO_ADDRESS
    ensures IsValid(LeafEntry(p, bits)) && (IsLeaf(LeafEntry(p, bits)) <==> Permits(bits))
  {
    hide LeafEntry, LeafAddress, MappedBase, LinkBase;
    LeafRoundTrip(p, bits, w);
  }

  /** No entry reads as a link exactly when that is so for the leaf of every address. */
  lemma SoundByLeaves(m: Memory, s: Shape)
    requires WellFormed(m, s)
    ensures Sound(m, s) <==> forall v: u64 :: IsValid(LeafOf(m, s, v)) ==> IsLeaf(LeafOf(m, s, v))
  {
    if forall v: u64 :: IsValid(LeafOf(m, s, v)) ==> IsLeaf(LeafOf(m, s, v)) {
      forall i, j, k | (i, j) in s.low && 0 <= k < 512 && IsValid(m[s.low[(i, j)]][k]) ensures !IsBranch(m[s.low[(i, j)]][k]) {
        var v := AddressAt(i, j, k);
        assert LeafOf(m, s, v) == m[s.low[(i, j)]][k];
      }
    }
    if Sound(m, s) {
      forall v: u64 | IsValid(LeafOf(m, s, v)) ensures IsLeaf(LeafOf(m, s, v)) {
        ZeroIsInvalid();
      }
    }
  }

  lemma ZeroIsInvalid()
    ensures !IsValid(0)
  {
  }

  lemma AddressAt(i: nat, j: nat, k: nat) returns (v: u64)
    requires i < 512 && j < 512 && k < 512
    ensures Vpn(v, 2) == i && Vpn(v, 1) == j && Vpn(v, 0) == k
  {
    v := i * 0x4000_0000 + j * 0x20_0000 + k * 0x1000;
    assert v / 0x1000 == (i * 512 + j) * 512 + k;
    assert v / 0x20_0000 == i * 512 + j;
  }

  /** What happens in pages that are not tables does not matter. */
  lemma OtherPagesAreIrrelevant(m: Memory, n: Memory, s: Shape)
    requires WellFormed(m, s)
    requires forall a :: a in s.at ==> a in n && n[a] == m[a]
    ensures WellFormed(n, s) && SameLeaves(m, s, n, s)
    ensures forall v: u64 :: Translate(n, s.root, v) == Translate(m, s.root, v)
  {
    hide Translate;
    assert n[s.root] == m[s.root];
    forall i | i in s.mid ensures n[s.mid[i]] == m[s.mid[i]] {
      assert s.mid[i] in s.at;
    }
    forall i, j | (i, j) in s.low ensures n[s.low[(i, j)]] == m[s.low[(i, j)]] {
      assert s.low[(i, j)] in s.at;
    }
    SameLeavesTranslate(m, s, n, s);
  }

  /** A page table with nothing in it. */
  ghost function EmptyShape(root: nat): Shape {
    Shape(root, map[], map[], map[root := Root])
  }

  lemma EmptyTable(m: Memory, root: nat)
    requires root in m && m[root] == ZeroPage() && root % PAGE_SIZE == 0 && 0 < root < TWO_56
    ensures WellFormed(m, EmptyShape(root)) && forall v: u64 :: LeafOf(m, EmptyShape(root), v) == 0
    ensures forall v: u64 :: Translate(m, root, v) == NO_ADDRESS
  {
    forall v: u64 ensures Translate(m, root, v) == NO_ADDRESS {
      WalkFindsLeaf(m, EmptyShape(root), v);
    }
  }
}
