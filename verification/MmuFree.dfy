/**
 mmu_free of src/mmu.c: the recursion over a page table gives back every table
 exactly once and nothing else.
 */
module MmuFree {
  import opened Words
  import opened Cpage
  import opened MmuEntry
  import opened MmuTables
  import opened Mmu

  /** `q` is `p` or hangs below it. */
  predicate Under(p: Place, q: Place) {
    match p
    case Root => true
    case Mid(i) => !q.Root? && q.i == i
    case Low(i, j) => q == p
  }

  function Rank(p: Place): nat {
    match p
    case Root => 2
    case Mid(_) => 1
    case Low(_, _) => 0
  }

  function Child(p: Place, k: nat): Place
    requires !p.Low?
  {
    match p
    case Root => Mid(k)
    case Mid(i) => Low(i, k)
  }

  /** The index of the subtree of `p` that `q` hangs in. */
  function ChildIndex(p: Place, q: Place): nat
    requires Under(p, q) && q != p
  {
    if p.Root? then q.i else q.j
  }

  /** The tables at `p` and below. */
  ghost function Subtree(s: Shape, p: Place): set<nat> {
    set a | a in s.at && Under(p, s.at[a])
  }

  /** Those below the first k entries of the table at `p`. */
  ghost function Done(s: Shape, p: Place, k: nat): set<nat> {
    set a | a in s.at && Under(p, s.at[a]) && s.at[a] != p && ChildIndex(p, s.at[a]) < k
  }

  /** Each address of `gone` once, and no other. */
  ghost predicate ExactlyOnce(freed: seq<nat>, gone: set<nat>) {
    forall a :: multiset(freed)[a] == if a in gone then 1 else 0
  }

  /** Entry k of the table at `p` is a branch exactly when it leads to a subtree, which is next. */
  lemma EntryOfPlace(m: Memory, s: Shape, p: Place, table: nat, k: nat)
    requires Sound(m, s) && table in s.at && s.at[table] == p && k < 512
    ensures table in m
    ensures var e := m[table][k];
      && (IsValid(e) && IsBranch(e) ==>
          && !p.Low? && NextTable(e) in s.at && s.at[NextTable(e)] == Child(p, k)
          && Done(s, p, k + 1) == Done(s, p, k) + Subtree(s, Child(p, k))
          && Done(s, p, k) !! Subtree(s, Child(p, k)))
      && (!(IsValid(e) && IsBranch(e)) ==> Done(s, p, k + 1) == Done(s, p, k))
      && (IsValid(e) && !IsBranch(e) ==> p.Low?)
  {
    var e := m[table][k];
    if !(IsValid(e) && IsBranch(e)) {
      forall a | a in Done(s, p, k + 1) ensures a in Done(s, p, k) {
        var q := s.at[a];
        if q.Low? { assert (q.i, q.j) in s.low; }
      }
    }
  }

  /** At the end, and at the start. */
  lemma DoneIsSubtree(m: Memory, s: Shape, p: Place, table: nat)
    requires WellFormed(m, s) && table in s.at && s.at[table] == p
    ensures Done(s, p, 512) + {table} == Subtree(s, p) && table !in Done(s, p, 512)
    ensures Done(s, p, 0) == {}
  {
    forall a | a in Subtree(s, p) ensures a in Done(s, p, 512) + {table} {
      var q := s.at[a];
      if q.Low? { assert (q.i, q.j) in s.low && q.i in s.mid; }
    }
  }

  /** Clearing a leaf leaves the tables sound. */
  lemma ClearLeafKeeps(m: Memory, s: Shape, table: nat, k: nat)
    requires Sound(m, s) && table in s.at && s.at[table].Low? && k < 512
    ensures table in m && Sound(Store(m, table, k, 0), s)
  {
    var n := Store(m, table, k, 0);
    assert n[s.root] == m[s.root];
    forall i | i in s.mid ensures n[s.mid[i]] == m[s.mid[i]] {}
  }

  /** The first n entries of a table are not valid. */
  ghost predicate NoneValid(t: Page, n: nat) {
    forall k :: 0 <= k < n && k < 512 ==> !IsValid(t[k])
  }

  /** The lowest tables among `gone` have no valid entry any more, and every other page is as it was. */
  ghost predicate Swept(before: Memory, after: Memory, s: Shape, gone: set<nat>) {
    && after.Keys == before.Keys
    && forall a :: a in after ==>
      if a in gone && a in s.at && s.at[a].Low? then NoneValid(after[a], 512) else after[a] == before[a]
  }

  lemma SweptTwice(a: Memory, b: Memory, c: Memory, s: Shape, x: set<nat>, y: set<nat>)
    requires Swept(a, b, s, x) && Swept(b, c, s, y)
    ensures Swept(a, c, s, x + y)
  {
    hide NoneValid;
  }

  lemma SweptNothing(m: Memory, s: Shape, gone: set<nat>)
    requires forall a :: a in gone && a in s.at ==> !s.at[a].Low?
    ensures Swept(m, m, s, gone)
  {
  }

  /** How far the loop over a table's entries has come: a lowest table is cleared entry by entry, and of any other the
      subtrees are swept. */
  ghost predicate SweptSoFar(before: Memory, after: Memory, s: Shape, p: Place, table: nat, i: nat) {
    if p.Low? then table in before && table in after && after == before[table := after[table]] && NoneValid(after[table], i)
    else Swept(before, after, s, Done(s, p, i))
  }

  lemma SweepStarts(m: Memory, s: Shape, p: Place, table: nat)
    requires table in m && Done(s, p, 0) == {}
    ensures SweptSoFar(m, m, s, p, table, 0)
  {
    assert m == m[table := m[table]];
    SweptNothing(m, s, {});
  }

  lemma SweepGoesOn(before: Memory, between: Memory, after: Memory, s: Shape, p: Place, table: nat, i: nat)
    requires SweptSoFar(before, between, s, p, table, i) && i < 512
    requires p.Low? ==>
      && table in between
      && after == if IsValid(between[table][i]) then Store(between, table, i, 0) else between
    requires !p.Low? ==> Swept(between, after, s, Done(s, p, i + 1) - Done(s, p, i))
    ensures SweptSoFar(before, after, s, p, table, i + 1)
  {
    DoneGrows(s, p, i);
    if p.Low? {
      assert after == before[table := after[table]];
    } else {
      SweptTwice(before, between, after, s, Done(s, p, i), Done(s, p, i + 1) - Done(s, p, i));
    }
  }

  lemma SweepEnds(before: Memory, after: Memory, s: Shape, p: Place, table: nat)
    requires WellFormed(before, s) && table in s.at && s.at[table] == p && SweptSoFar(before, after, s, p, table, 512)
    ensures Swept(before, after, s, Subtree(s, p))
  {
    hide NoneValid;
    DoneIsSubtree(before, s, p, table);
    if !p.Low? {
      SweptNothing(after, s, {table});
      SweptTwice(before, after, after, s, Done(s, p, 512), {table});
    } else {
      assert forall a :: a in Subtree(s, p) ==> a == table by {
        forall a | a in Subtree(s, p) ensures a == table { assert (p.i, p.j) in s.low; }
      }
    }
  }

  /** A table whose lowest tables have no valid entry translates no address. */
  lemma SweptTranslatesNothing(before: Memory, m: Memory, s: Shape, v: u64)
    requires WellFormed(m, s) && Swept(before, m, s, s.at.Keys)
    ensures Translate(m, s.root, v) == 0xFFFF_FFFF_FFFF_FFFF
  {
    WalkFindsLeaf(m, s, v);
    if (Vpn(v, 2), Vpn(v, 1)) in s.low {
      var a := s.low[(Vpn(v, 2), Vpn(v, 1))];
      assert a in s.at && s.at[a].Low? && a in m;
    }
  }

  lemma KeepTwice(h: PageHeap, live: Live, a: set<nat>, b: set<nat>)
    ensures Keep(h, Keep(h, live, a), b) == Keep(h, live, a + b)
    ensures Keep(h, live, {}) == live
  {
  }

  lemma OnceConcat(f: seq<nat>, a: set<nat>, g: seq<nat>, b: set<nat>)
    requires ExactlyOnce(f, a) && ExactlyOnce(g, b) && a !! b
    ensures ExactlyOnce(f + g, a + b)
  {
  }

  lemma BlockKept(h: PageHeap, live: Live, gone: set<nat>, a: nat)
    requires BlockIn(h, live, a) && a !in gone
    ensures BlockIn(h, Keep(h, live, gone), a)
  {
  }

  /** cpage_free of a table. */
  method FreePage(h: PageHeap, a: nat)
    requires Usable(h) && StartsBlock(h, a)
    modifies h`live, h.bk
    ensures Usable(h) && h.live == Keep(h, old(h.live), {a})
  {
    ghost var live := h.live;
    forall i | i in live ensures h.PageAddr(i) == a <==> i == IndexOf(h, a) {
      AddressOf(h, i);
    }
    h.Free(a);
    assert h.live == live - {IndexOf(h, a)};
  }

  /** mmu_free, for the table at place `p`. */
  method FreeTable(h: PageHeap, table: nat, ghost s: Shape, ghost p: Place) returns (ghost freed: seq<nat>)
    requires Usable(h) && Sound(h.page, s) && table in s.at && s.at[table] == p
    requires forall a :: a in Subtree(s, p) ==> StartsBlock(h, a)
    modifies h, h.bk
    ensures Usable(h) && Sound(h.page, s)
    ensures h.live == Keep(h, old(h.live), Subtree(s, p)) && ExactlyOnce(freed, Subtree(s, p))
    ensures Swept(old(h.page), h.page, s, Subtree(s, p))
    decreases Rank(p), 2
  {
    ghost var live, m := h.live, h.page;
    DoneIsSubtree(h.page, s, p, table);
    SoundIsWellFormed(m, s);
    hide Sound, WellFormed, ExactlyOnce, Keep, Done, Swept, SweptSoFar;
    freed := FreeEntries(h, table, s, p);
    SweepEnds(m, h.page, s, p, table);
    BlockKept(h, live, Done(s, p, 512), table);
    FreePage(h, table);
    KeepTwice(h, live, Done(s, p, 512), {table});
    OnceConcat(freed, Done(s, p, 512), [table], {table});
    freed := freed + [table];
  }

  /** Its loop over the entries. */
  method FreeEntries(h: PageHeap, table: nat, ghost s: Shape, ghost p: Place) returns (ghost freed: seq<nat>)
    requires Usable(h) && Sound(h.page, s) && table in s.at && s.at[table] == p
    requires forall a :: a in Subtree(s, p) ==> StartsBlock(h, a)
    modifies h, h.bk
    ensures Usable(h) && Sound(h.page, s)
    ensures h.live == Keep(h, old(h.live), Done(s, p, 512)) && ExactlyOnce(freed, Done(s, p, 512))
    ensures SweptSoFar(old(h.page), h.page, s, p, table, 512)
    decreases Rank(p), 1
  {
    ghost var live, m := h.live, h.page;
    freed := [];
    DoneIsSubtree(h.page, s, p, table);
    SweepStarts(h.page, s, p, table);
    KeepTwice(h, live, {}, {});
    assert ExactlyOnce([], {});
    hide Sound, WellFormed, ExactlyOnce, Keep, Done, Swept, SweptSoFar;
    var i := 0;
    while i < 512
      invariant 0 <= i <= 512
      invariant Usable(h) && Sound(h.page, s)
      invariant h.live == Keep(h, live, Done(s, p, i)) && ExactlyOnce(freed, Done(s, p, i))
      invariant SweptSoFar(m, h.page, s, p, table, i)
    {
      ghost var between := h.page;
      ghost var f := FreeEntry(h, table, i, s, p, live);
      SweepGoesOn(m, between, h.page, s, p, table, i);
      OnceConcat(freed, Done(s, p, i), f, Done(s, p, i + 1) - Done(s, p, i));
      DoneGrows(s, p, i);
      freed := freed + f;
      i := i + 1;
    }
  }

  lemma SoundIsWellFormed(m: Memory, s: Shape)
    requires Sound(m, s)
    ensures WellFormed(m, s)
  {
  }

  lemma DoneGrows(s: Shape, p: Place, k: nat)
    ensures Done(s, p, k) + (Done(s, p, k + 1) - Done(s, p, k)) == Done(s, p, k + 1)
    ensures Done(s, p, k + 1) <= Subtree(s, p)
  {
  }

  /** One turn of its loop. */
  method FreeEntry(h: PageHeap, table: nat, i: nat, ghost s: Shape, ghost p: Place, ghost live: Live)
    returns (ghost freed: seq<nat>)
    requires Usable(h) && Sound(h.page, s) && table in s.at && s.at[table] == p && i < 512
    requires h.live == Keep(h, live, Done(s, p, i))
    requires forall a :: a in Subtree(s, p) ==> BlockIn(h, live, a)
    modifies h, h.bk
    ensures Usable(h) && Sound(h.page, s)
    ensures h.live == Keep(h, live, Done(s, p, i + 1))
    ensures ExactlyOnce(freed, Done(s, p, i + 1) - Done(s, p, i))
    ensures p.Low? ==>
      && table in old(h.page)
      && h.page == if IsValid(old(h.page)[table][i]) then Store(old(h.page), table, i, 0) else old(h.page)
    ensures !p.Low? ==> Swept(old(h.page), h.page, s, Done(s, p, i + 1) - Done(s, p, i))
    decreases Rank(p), 0
  {
    freed := [];
    SweptNothing(h.page, s, {});
    EntryOfPlace(h.page, s, p, table, i);
    DoneGrows(s, p, i);
    var e := h.page[table][i];
    if IsValid(e) {
      if IsBranch(e) {
        var next := NextTable(e);
        ghost var below := Subtree(s, Child(p, i));
        forall a | a in below ensures StartsBlock(h, a) {
          BlockKept(h, live, Done(s, p, i), a);
        }
        freed := FreeTable(h, next, s, Child(p, i));
        KeepTwice(h, live, Done(s, p, i), below);
        assert Done(s, p, i + 1) - Done(s, p, i) == below;
      } else {
        ClearLeafKeeps(h.page, s, table, i);
        SetEntry(h, table, i, 0);
      }
    }
  }

  // ---------- a page table from its allocation to its release ----------

  /** cpage_znalloc(1) for a root table. */
  method NewRoot(h: PageHeap) returns (root: nat)
    requires Usable(h) && Supply(h) > 0
    modifies h, h.bk
    ensures Holds(h, EmptyShape(root)) && Others(h, EmptyShape(root)) == old(h.live)
    ensures Supply(h) >= old(Supply(h)) - 1
    ensures forall v: u64 :: Translate(h.page, root, v) == NO_ADDRESS && LeafOf(h.page, EmptyShape(root), v) == 0
  {
    hide WellFormed, Translate, LeafOf, Answered, Inv;
    ghost var live := h.live;
    SupplyIsSpent(h.bk[..], Limit(h));
    ghost var b := Claim(h.bk[..], 1).block;
    SmallRequestIsSafe(h.bk[..], 1);
    MarkKeepsInv(h.bk[..], h.live, b);
    AddressOf(h, b.start);
    var overrun;
    root, overrun := h.Znalloc(1);
    ZeroedTwo(old(h.page), h.page, root);
    EmptyTable(h.page, root);
    forall i | i in live ensures h.PageAddr(i) != root {
      AddressOf(h, i);
    }
  }

  /**
   Allocating a root, making any number of mappings and freeing the table restores the
   bookkeeping bytes, if the last request for each page grants something. SoundIffLastGrants
   says that the table is sound exactly then.
   */
  method MapAllThenFree(h: PageHeap, requests: seq<Request>) returns (ghost freed: seq<nat>, ghost s: Shape)
    requires Usable(h) && Supply(h) >= 1 + |Mids(Addresses(requests))| + |Lows(Addresses(requests))|
    requires forall i :: 0 <= i < |requests| && LastFor(requests, requests[i].v) == i ==> Permits(requests[i].bits)
    modifies h, h.bk
    ensures Usable(h) && h.live == old(h.live) && h.bk[..] == old(h.bk[..])
    ensures ExactlyOnce(freed, s.at.Keys)
    ensures forall v: u64 :: Translate(h.page, s.root, v) == 0xFFFF_FFFF_FFFF_FFFF
  {
    hide WellFormed, Sound, Translate, LeafOf, LeavesAfter, Answered, Keep, Subtree, Mids, Lows, Permits;
    var root := NewRoot(h);
    ghost var m := h.page;
    EmptyNeeds(root, Addresses(requests));
    s := MapAll(h, root, requests, EmptyShape(root));
    SoundIffLastGrants(requests, m, EmptyShape(root), h.page, s);
    RootSubtree(h.page, s);
    ghost var mapped := h.page;
    freed := FreeTable(h, root, s, Root);
    SoundIsWellFormed(h.page, s);
    forall v: u64 ensures Translate(h.page, s.root, v) == 0xFFFF_FFFF_FFFF_FFFF {
      SweptTranslatesNothing(mapped, h.page, s, v);
    }
    LiveDeterminesBytes(old(h.bk[..]), h.bk[..], h.live);
  }

  lemma EmptyNeeds(root: nat, vs: seq<u64>)
    ensures Needed(EmptyShape(root), vs) == |Mids(vs)| + |Lows(vs)|
  {
    assert Mids(vs) - EmptyShape(root).mid.Keys == Mids(vs);
    assert Lows(vs) - EmptyShape(root).low.Keys == Lows(vs);
  }

  lemma RootSubtree(m: Memory, s: Shape)
    requires WellFormed(m, s)
    ensures s.root in s.at && s.at[s.root] == Root && Subtree(s, Root) == s.at.Keys
  {
  }

  // ---------- mappings without permissions ----------

  /** After the leaf of an address is stored, the address translates to the requested page exactly when some of R,
      W, X was asked for. Otherwise translation fails. */
  lemma TranslatesIffPermitted(m: Memory, s: Shape, v: u64, p: u64, bits: u64)
    requires WellFormed(m, s) && HasTable(s, v, 0)
    ensures TableAt(s, v, 0) in m
    ensures var n := Store(m, TableAt(s, v, 0), Vpn(v, 0), LeafEntry(p, bits));
      && (Translate(n, s.root, v) == MappedBase(p, bits) + v % PAGE_SIZE <==> Permits(bits))
      && (!Permits(bits) ==> Translate(n, s.root, v) == NO_ADDRESS)
  {
    hide Translate, Permits, LeafEntry, MappedBase, LeafOf;
    StoreLeafKeeps(m, s, v, p, bits);
    LeafRoundTrip(p, bits, v);
    assert MappedBase(p, bits) + v % PAGE_SIZE < NO_ADDRESS;
  }

  /** Such an entry looks like a link to the data page, and mmu_free would go on to free that page. */
  lemma EntryWithoutPermissionIsLink(p: u64, bits: u64)
    ensures Links(LeafEntry(p, bits), LinkBase(p, bits)) <==> !Permits(bits)
  {
    LeafRoundTrip(p, bits, 0);
  }
}
