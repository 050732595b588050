/**
 Runs of the kernel heap between two refills: blocks are cut off free blocks, written
 by those who hold them, and given back, in any order.
 */
module HeapRuns {
  import opened FreeBlocks
  import opened Kmalloc

  /** The free list and the blocks that callers hold. */
  datatype State = State(free: seq<Block>, live: set<Block>)

  /** kmalloc's split of n bytes off the free block i at address `temp`, a holder's store of one word, and kfree. */
  datatype Op = Cut(i: nat, temp: nat, n: nat) | Store(x: nat, v: nat) | GiveBack(b: Block)

  /** Sizes are those of RequestSize, and no cut leaves the 16 bytes that the next header would overlap. */
  ghost predicate Possible(s: State, op: Op) {
    match op
    case Cut(i, temp, n) =>
      && i < |s.free| && temp == s.free[i].start
      && n % ALIGN == 0 && MIN_BLOCK <= n <= s.free[i].size && s.free[i].size - n != ALIGN
    case Store(x, _) => exists b :: b in s.live && b.start + 8 <= x && x + 8 <= b.End()
    case GiveBack(b) => b in s.live
  }

  ghost function Step(s: State, op: Op): State
    requires Possible(s, op)
  {
    match op
    case Cut(i, _, n) => State(TakeTail(s.free, i, n), s.live + {Block(s.free[i].End() - n, n)})
    case Store(_, _) => s
    case GiveBack(b) => State(Coalesce(Insert(s.free, b)), s.live - {b})
  }

  ghost predicate Owned(live: set<Block>, x: nat) {
    exists b :: b in live && b.start <= x < b.End()
  }

  /** The origin's bytes are shared out: every one is free or in exactly one held block. */
  ghost predicate Partition(s: State, origin: seq<Block>) {
    && Coalesced(s.free)
    && (forall b :: b in s.live ==> b.size > 0 && Apart(s.free, b))
    && (forall a, b :: a in s.live && b in s.live && a != b ==> a.End() <= b.start || b.End() <= a.start)
    && (forall x: nat :: Covers(s.free, x) || Owned(s.live, x) <==> Covers(origin, x))
  }

  lemma CutKeepsPartition(s: State, i: nat, temp: nat, n: nat, origin: seq<Block>)
    requires Partition(s, origin) && Possible(s, Cut(i, temp, n))
    ensures Partition(Step(s, Cut(i, temp, n)), origin)
  {
    hide TakeTail, Covers, Owned, Apart, Coalesced;
    var c, r := Block(s.free[i].End() - n, n), Step(s, Cut(i, temp, n));
    TakeTailCoalesced(s.free, i, n);
    forall b | b in s.live ensures Apart(r.free, b) && (b.End() <= c.start || c.End() <= b.start) {
      TakeTailApart(s.free, i, n, b);
    }
    forall x: nat ensures Covers(r.free, x) || Owned(r.live, x) <==> Covers(origin, x) {
      TakeTailCovers(s.free, i, n, x);
      OwnedWith(s.live, c, x);
      if c.start <= x < c.End() { TailIsCovered(s.free, i, n, x); }
      assert Covers(s.free, x) || Owned(s.live, x) <==> Covers(origin, x);
    }
  }

  lemma TakeTailApart(bs: seq<Block>, i: nat, n: nat, b: Block)
    requires i < |bs| && n <= bs[i].size && Apart(bs, b)
    ensures Apart(TakeTail(bs, i, n), b)
    ensures b.End() <= bs[i].start || bs[i].End() <= b.start
  {
    var r := TakeTail(bs, i, n);
    forall j | 0 <= j < |r| ensures r[j].End() <= b.start || b.End() <= r[j].start {
      assert bs[i].size == n ==> r[j] == bs[if j < i then j else j + 1];
    }
  }

  lemma OwnedWith(live: set<Block>, c: Block, x: nat)
    ensures Owned(live + {c}, x) <==> Owned(live, x) || c.start <= x < c.End()
  {
    if b :| b in live && b.start <= x < b.End() { assert b in live + {c}; }
    if c.start <= x < c.End() { assert c in live + {c}; }
  }

  lemma GiveBackKeepsPartition(s: State, b: Block, origin: seq<Block>)
    requires Partition(s, origin) && b in s.live
    ensures Partition(Step(s, GiveBack(b)), origin)
  {
    var r := Step(s, GiveBack(b));
    FreeAddsBlock(s.free, b);
    assert s.live == r.live + {b};
    forall x: nat ensures Covers(r.free, x) || Owned(r.live, x) <==> Covers(origin, x) {
      OwnedWith(r.live, b, x);
      assert Covers(s.free, x) || Owned(s.live, x) <==> Covers(origin, x);
    }
    forall a | a in r.live ensures Apart(r.free, a) {
      assert a in s.live && b in s.live;
      ApartByBytes(s.free, r.free, b, a);
    }
  }

  /** A block that shares no byte with a list is apart from each of its blocks. */
  lemma ApartByBytes(bs: seq<Block>, rs: seq<Block>, b: Block, a: Block)
    requires Ordered(rs) && Apart(bs, a) && a.size > 0 && (a.End() <= b.start || b.End() <= a.start)
    requires forall x: nat :: Covers(rs, x) <==> Covers(bs, x) || b.start <= x < b.End()
    ensures Apart(rs, a)
  {
    forall i | 0 <= i < |rs| ensures rs[i].End() <= a.start || a.End() <= rs[i].start {
      var x := if a.start <= rs[i].start then rs[i].start else a.start;
      assert rs[i].start <= x < rs[i].End() ==> Covers(rs, x);
      assert a.start <= x < a.End() ==> !Covers(bs, x);
    }
  }

  ghost predicate Run(states: seq<State>, ops: seq<Op>) {
    && |states| == |ops| + 1
    && forall k :: 0 <= k < |ops| ==> Possible(states[k], ops[k]) && states[k + 1] == Step(states[k], ops[k])
  }

  /**
   Over any run the bytes stay shared out between the free list and the holders,
   and once everything is given back the list is the one the run started with.
   */
  lemma {:induction false} EveryRunConserves(states: seq<State>, ops: seq<Op>, origin: seq<Block>)
    requires Run(states, ops) && Coalesced(origin) && states[0] == State(origin, {})
    ensures Partition(states[|ops|], origin)
    ensures states[|ops|].live == {} ==> states[|ops|].free == origin
    decreases |ops|
  {
    var last := states[|ops|];
    if ops == [] {
      assert Partition(last, origin);
    } else {
      var k := |ops| - 1;
      EveryRunConserves(states[..k + 1], ops[..k], origin);
      match ops[k]
      case Cut(i, temp, n) => CutKeepsPartition(states[k], i, temp, n, origin);
      case Store(_, _) =>
      case GiveBack(b) => GiveBackKeepsPartition(states[k], b, origin);
    }
    if last.live == {} {
      forall x: nat ensures Covers(last.free, x) <==> Covers(origin, x) {
        assert !Owned(last.live, x);
        assert Covers(last.free, x) || Owned(last.live, x) <==> Covers(origin, x);
      }
      CoalescedIsCanonical(last.free, origin);
    }
  }

  // ---------- the same in memory ----------

  /** The heap holds the free list, and every held block starts with its size. */
  ghost predicate InMemory(h: KernelHeap, s: State)
    reads h
  {
    h.Holds(s.free) && forall b :: b in s.live ==> Placed(h.head, [b]) && h.Get(b.start) == b.size
  }

  /** A held block's first word is not in the list. */
  lemma HeldIsOutside(head: nat, free: seq<Block>, b: Block)
    requires Placed(head, [b]) && Apart(free, b)
    ensures forall x: nat :: b.start <= x < b.End() ==> !InList(head, free, x)
  {
    assert [b][0] == b;
  }

  method DoCut(h: KernelHeap, i: nat, temp: nat, n: nat, ghost s: State, ghost origin: seq<Block>) returns (ptr: nat)
    requires InMemory(h, s) && Partition(s, origin) && Possible(s, Cut(i, temp, n))
    modifies h
    ensures InMemory(h, Step(s, Cut(i, temp, n))) && Partition(Step(s, Cut(i, temp, n)), origin)
    ensures ptr >= 8 && Block(ptr - 8, n) in Step(s, Cut(i, temp, n)).live
    ensures forall x: nat :: Owned(s.live, x) ==> h.Get(x) == old(h.Get(x))
  {
    hide Linked, TakeTail, InList, Placed, Apart;
    OwnedIsOutside(h.head, s, origin);
    forall b | b in s.live ensures !InList(h.head, s.free, b.start) {
      HeldHasBytes(s, origin, b);
      assert Owned(s.live, b.start);
    }
    TailPlaced(h.head, s.free, i, n);
    CutKeepsPartition(s, i, temp, n, origin);
    hide Partition;
    ptr := h.Split(temp, n, s.free, i);
  }

  /** No byte of a held block is in the list. */
  lemma OwnedIsOutside(head: nat, s: State, origin: seq<Block>)
    requires Partition(s, origin) && forall b :: b in s.live ==> Placed(head, [b])
    ensures forall x: nat :: Owned(s.live, x) ==> !InList(head, s.free, x)
  {
    hide InList, Placed;
    forall x: nat | Owned(s.live, x) ensures !InList(head, s.free, x) {
      var b :| b in s.live && b.start <= x < b.End();
      HeldIsOutside(head, s.free, b);
    }
  }

  lemma HeldHasBytes(s: State, origin: seq<Block>, b: Block)
    requires Partition(s, origin) && b in s.live
    ensures b.size > 0 && Apart(s.free, b)
  {
  }

  method DoGiveBack(h: KernelHeap, b: Block, ghost s: State, ghost origin: seq<Block>)
    requires InMemory(h, s) && Partition(s, origin) && b in s.live
    modifies h
    ensures InMemory(h, Step(s, GiveBack(b))) && Partition(Step(s, GiveBack(b)), origin)
    ensures forall x: nat :: Owned(s.live - {b}, x) ==> h.Get(x) == old(h.Get(x))
  {
    hide Linked, InList, Placed, Apart, Coalesce, Insert;
    ghost var r := Step(s, GiveBack(b));
    GiveBackKeepsPartition(s, b, origin);
    HeldHasBytes(s, origin, b);
    OwnedIsOutside(h.head, r, origin);
    forall a | a in r.live ensures !InList(h.head, r.free, a.start) {
      HeldHasBytes(r, origin, a);
      assert Owned(r.live, a.start);
    }
    HeldSize(h.head, b);
    hide Partition;
    h.Free(b.start + 8, s.free);
  }

  lemma HeldSize(head: nat, b: Block)
    requires Placed(head, [b])
    ensures b.size >= MIN_BLOCK
  {
    assert [b][0] == b;
  }

  method DoStore(h: KernelHeap, x: nat, v: nat, ghost s: State, ghost origin: seq<Block>)
    requires InMemory(h, s) && Partition(s, origin) && Possible(s, Store(x, v))
    modifies h
    ensures InMemory(h, s) && h.mem == old(h.mem)[x := v]
  {
    ghost var m := h.mem;
    ghost var c :| c in s.live && c.start + 8 <= x && x + 8 <= c.End();
    HeldIsOutside(h.head, s.free, c);
    h.mem := h.mem[x := v];
    OthersCannotBreakList(m, h.mem, h.head, s.free);
    forall b | b in s.live ensures h.Get(b.start) == b.size {
      assert b != c ==> b.End() <= c.start || c.End() <= b.start;
      HeldHasBytes(s, origin, b);
    }
  }

  // ---------- the holders' data ----------

  /** The word at x is inside a held block, behind its size. */
  ghost predicate Held(live: set<Block>, x: nat) {
    exists b :: b in live && b.start + 8 <= x && x + 8 <= b.End()
  }

  /** What the stores of a run have left in the blocks that are still held: the last value stored at each address,
      unless a later store overlapped it. */
  ghost function DataAfter(ops: seq<Op>): map<nat, nat> {
    if ops == [] then map[]
    else
      var d := DataAfter(ops[..|ops| - 1]);
      match ops[|ops| - 1]
      case Cut(_, _, _) => d
      case Store(x, v) => (map y | y in d && (y + 8 <= x || x + 8 <= y) :: d[y])[x := v]
      case GiveBack(b) => map y | y in d && !(b.start <= y < b.End()) :: d[y]
  }

  /** A store lasts until its bytes are stored to again or their block is given back. */
  lemma {:induction false} StoreLasts(ops: seq<Op>, i: nat)
    requires i < |ops| && ops[i].Store?
    requires forall j :: i < j < |ops| ==>
      && (ops[j].Store? ==> ops[i].x + 8 <= ops[j].x || ops[j].x + 8 <= ops[i].x)
      && (ops[j].GiveBack? ==> !(ops[j].b.start <= ops[i].x < ops[j].b.End()))
    ensures ops[i].x in DataAfter(ops) && DataAfter(ops)[ops[i].x] == ops[i].v
  {
    var k := |ops| - 1;
    if i < k { StoreLasts(ops[..k], i); }
  }

  /** Every holder's data is in memory. */
  ghost predicate KeepsData(h: KernelHeap, s: State, d: map<nat, nat>)
    reads h
  {
    forall x :: x in d ==> Held(s.live, x) && h.Get(x) == d[x]
  }

  lemma HeldIsOwned(live: set<Block>, x: nat)
    requires Held(live, x)
    ensures Owned(live, x)
  {
  }

  lemma HeldAfterCut(live: set<Block>, c: Block, x: nat)
    requires Held(live, x)
    ensures Held(live + {c}, x)
  {
    var b :| b in live && b.start + 8 <= x && x + 8 <= b.End();
    assert b in live + {c};
  }

  lemma HeldAfterGiveBack(live: set<Block>, b: Block, x: nat)
    requires Held(live, x) && !(b.start <= x < b.End())
    ensures Held(live - {b}, x)
  {
    var a :| a in live && a.start + 8 <= x && x + 8 <= a.End();
    assert a in live - {b};
  }

  lemma NextData(ops: seq<Op>, k: nat)
    requires k < |ops|
    ensures var d, e := DataAfter(ops[..k]), DataAfter(ops[..k + 1]);
      match ops[k]
      case Cut(_, _, _) => e == d
      case Store(x, v) => x in e && e[x] == v && forall y :: y in e && y != x ==> y in d && e[y] == d[y]
      case GiveBack(b) => forall y :: y in e ==> y in d && e[y] == d[y] && !(b.start <= y < b.End())
  {
    assert ops[..k + 1][..k] == ops[..k];
  }

  /**
   The code over any run: the operations of src/kmalloc.c on memory, interleaved with
   whatever the holders store into their own bytes. At the end the list in memory is
   that of the run's last state, bytes are shared out as EveryRunConserves says, and
   no holder's size word was lost. Whatever a holder stored is still there as long as
   it holds the block. If everything was given back, the list is the one at the start.
   */
  method Execute(h: KernelHeap, ops: seq<Op>, ghost states: seq<State>, ghost origin: seq<Block>)
    requires Run(states, ops) && states[0] == State(origin, {}) && h.Holds(origin)
    modifies h
    ensures InMemory(h, states[|ops|]) && Partition(states[|ops|], origin)
    ensures KeepsData(h, states[|ops|], DataAfter(ops))
    ensures states[|ops|].live == {} ==> h.Holds(origin)
  {
    EveryRunConserves(states[..1], [], origin);
    var k := 0;
    while k < |ops|
      invariant k <= |ops| && InMemory(h, states[k]) && Partition(states[k], origin)
      invariant KeepsData(h, states[k], DataAfter(ops[..k]))
    {
      DoOp(h, ops[k], states[k], origin, DataAfter(ops[..k]), DataAfter(ops[..k + 1]), ops, k);
      k := k + 1;
    }
    assert ops[..k] == ops;
    EveryRunConserves(states, ops, origin);
  }

  /** One operation of a run. */
  method DoOp(h: KernelHeap, op: Op, ghost s: State, ghost origin: seq<Block>, ghost d: map<nat, nat>, ghost e: map<nat, nat>,
      ghost ops: seq<Op>, ghost k: nat)
    requires k < |ops| && op == ops[k] && d == DataAfter(ops[..k]) && e == DataAfter(ops[..k + 1])
    requires InMemory(h, s) && Partition(s, origin) && Possible(s, op) && KeepsData(h, s, d)
    modifies h
    ensures InMemory(h, Step(s, op)) && Partition(Step(s, op), origin) && KeepsData(h, Step(s, op), e)
  {
    hide InMemory, Partition, DataAfter, Held, Owned, TakeTail, Coalesce, Insert;
    NextData(ops, k);
    forall x | x in d ensures Owned(s.live, x) { HeldIsOwned(s.live, x); }
    match op {
      case Cut(i, temp, n) =>
        forall x | x in d ensures Held(Step(s, op).live, x) {
          HeldAfterCut(s.live, Block(s.free[i].End() - n, n), x);
        }
        var ptr := DoCut(h, i, temp, n, s, origin);
      case Store(x, v) =>
        StoreIsHeld(s, x, v);
        DoStore(h, x, v, s, origin);
      case GiveBack(b) =>
        forall x | x in e ensures Held(s.live - {b}, x) && Owned(s.live - {b}, x) {
          HeldAfterGiveBack(s.live, b, x);
          HeldIsOwned(s.live - {b}, x);
        }
        DoGiveBack(h, b, s, origin);
    }
  }

  lemma StoreIsHeld(s: State, x: nat, v: nat)
    requires Possible(s, Store(x, v))
    ensures Held(s.live, x)
  {
  }
}
