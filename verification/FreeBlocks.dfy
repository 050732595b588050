/**
 The free blocks of the kernel heap (src/kmalloc.c) as a list ordered by address:
 what freeing, coalescing and splitting do to it.
 */
module FreeBlocks {

  datatype Block = Block(start: nat, size: nat) {
    function End(): nat {
      start + size
    }
  }

  /** Address order, without overlap; no block is empty. */
  ghost predicate Ordered(bs: seq<Block>) {
    && (forall i :: 0 <= i < |bs| ==> bs[i].size > 0)
    && (forall i, j :: 0 <= i < j < |bs| ==> bs[i].End() <= bs[j].start)
  }

  /** No two neighbours touch. */
  ghost predicate Coalesced(bs: seq<Block>) {
    Ordered(bs) && forall i, j :: 0 <= i < j < |bs| ==> bs[i].End() < bs[j].start
  }

  /** Byte x is free. */
  ghost predicate Covers(bs: seq<Block>, x: nat) {
    exists i :: 0 <= i < |bs| && bs[i].start <= x < bs[i].End()
  }

  ghost predicate Apart(bs: seq<Block>, b: Block) {
    forall i :: 0 <= i < |bs| ==> bs[i].End() <= b.start || b.End() <= bs[i].start
  }

  /** The number of blocks that start below b. */
  ghost function Position(bs: seq<Block>, b: Block): (p: nat)
    ensures p <= |bs|
  {
    if bs == [] || b.start <= bs[0].start then 0 else 1 + Position(bs[1..], b)
  }

  ghost function Insert(bs: seq<Block>, b: Block): seq<Block> {
    bs[..Position(bs, b)] + [b] + bs[Position(bs, b)..]
  }

  /** coalesce_free_list: a block swallows its successor as long as they touch. */
  ghost function Coalesce(bs: seq<Block>): seq<Block>
    decreases |bs|
  {
    if |bs| < 2 then bs
    else if bs[0].End() == bs[1].start then Coalesce([Block(bs[0].start, bs[0].size + bs[1].size)] + bs[2..])
    else [bs[0]] + Coalesce(bs[1..])
  }

  /** The tail of `n` bytes of block i is taken away. */
  ghost function TakeTail(bs: seq<Block>, i: nat, n: nat): seq<Block>
    requires i < |bs| && n <= bs[i].size
  {
    if bs[i].size == n then bs[..i] + bs[i + 1..] else bs[i := Block(bs[i].start, bs[i].size - n)]
  }

  ghost function Total(bs: seq<Block>): nat {
    if bs == [] then 0 else bs[0].size + Total(bs[1..])
  }

  // ---------- insertion ----------

  lemma {:induction false} PositionSplits(bs: seq<Block>, b: Block)
    requires Ordered(bs)
    ensures forall i :: 0 <= i < Position(bs, b) ==> bs[i].start < b.start
    ensures forall i :: Position(bs, b) <= i < |bs| ==> b.start <= bs[i].start
  {
    if bs != [] {
      if b.start > bs[0].start {
        TailOrdered(bs);
        PositionSplits(bs[1..], b);
      }
    }
  }

  lemma {:induction false} PositionIs(bs: seq<Block>, b: Block, k: nat)
    requires k <= |bs|
    requires forall i :: 0 <= i < |bs| ==> (bs[i].start < b.start <==> i < k)
    ensures Position(bs, b) == k
  {
    if bs != [] && k > 0 {
      assert forall i :: 0 <= i < |bs[1..]| ==> bs[1..][i] == bs[i + 1];
      PositionIs(bs[1..], b, k - 1);
    }
  }

  lemma TailOrdered(bs: seq<Block>)
    requires Ordered(bs) && bs != []
    ensures Ordered(bs[1..]) && (Coalesced(bs) ==> Coalesced(bs[1..]))
  {
    assert forall i :: 0 <= i < |bs[1..]| ==> bs[1..][i] == bs[i + 1];
  }

  lemma InsertOrdered(bs: seq<Block>, b: Block)
    requires Ordered(bs) && Apart(bs, b) && b.size > 0
    ensures Ordered(Insert(bs, b))
  {
    PositionSplits(bs, b);
    var p, r := Position(bs, b), Insert(bs, b);
    forall i, j | 0 <= i < j < |r| ensures r[i].End() <= r[j].start {
      assert r[i] == if i < p then bs[i] else if i == p then b else bs[i - 1];
      assert r[j] == if j < p then bs[j] else if j == p then b else bs[j - 1];
    }
  }

  lemma InsertCovers(bs: seq<Block>, b: Block, x: nat)
    ensures Covers(Insert(bs, b), x) <==> Covers(bs, x) || b.start <= x < b.End()
  {
    var p := Position(bs, b);
    CoversConcat(bs[..p] + [b], bs[p..], x);
    CoversConcat(bs[..p], [b], x);
    CoversConcat(bs[..p], bs[p..], x);
    assert bs[..p] + bs[p..] == bs;
    assert [b][0] == b;
  }

  lemma CoversConcat(a: seq<Block>, b: seq<Block>, x: nat)
    ensures Covers(a + b, x) <==> Covers(a, x) || Covers(b, x)
  {
    var r := a + b;
    if i :| 0 <= i < |a| && a[i].start <= x < a[i].End() { assert r[i] == a[i]; }
    if i :| 0 <= i < |b| && b[i].start <= x < b[i].End() { assert r[|a| + i] == b[i]; }
    if i :| 0 <= i < |r| && r[i].start <= x < r[i].End() {
      assert if i < |a| then r[i] == a[i] else r[i] == b[i - |a|];
    }
  }

  lemma {:induction false} TotalConcat(a: seq<Block>, b: seq<Block>)
    ensures Total(a + b) == Total(a) + Total(b)
  {
    if a == [] {
      assert a + b == b;
    } else {
      assert (a + b)[1..] == a[1..] + b;
      TotalConcat(a[1..], b);
    }
  }

  // ---------- coalescing ----------

  /** Two blocks that touch are one block. */
  lemma MergeFirst(bs: seq<Block>)
    requires Ordered(bs) && |bs| >= 2 && bs[0].End() == bs[1].start
    ensures var m := [Block(bs[0].start, bs[0].size + bs[1].size)] + bs[2..];
      && Ordered(m) && Total(m) == Total(bs)
      && forall x: nat :: Covers(m, x) <==> Covers(bs, x)
  {
    hide Total;
    var b := Block(bs[0].start, bs[0].size + bs[1].size);
    var m := [b] + bs[2..];
    assert forall i :: 1 <= i < |m| ==> m[i] == bs[i + 1];
    assert bs[1..] == [bs[1]] + bs[2..] && bs == [bs[0]] + bs[1..];
    MergedTotal(bs);
    forall x: nat ensures Covers(m, x) <==> Covers(bs, x) {
      hide Ordered, Covers;
      CoversCons(b, bs[2..], x);
      CoversCons(bs[0], bs[1..], x);
      CoversCons(bs[1], bs[2..], x);
    }
  }

  lemma MergedTotal(bs: seq<Block>)
    requires |bs| >= 2
    ensures Total([Block(bs[0].start, bs[0].size + bs[1].size)] + bs[2..]) == Total(bs)
  {
    var m := [Block(bs[0].start, bs[0].size + bs[1].size)] + bs[2..];
    assert m[1..] == bs[2..] && bs[1..][1..] == bs[2..];
  }

  /** Coalescing keeps the free bytes and leaves no two neighbours that touch. */
  lemma {:induction false} CoalesceWorks(bs: seq<Block>)
    requires Ordered(bs)
    ensures Coalesced(Coalesce(bs)) && Total(Coalesce(bs)) == Total(bs)
    ensures forall x: nat :: Covers(Coalesce(bs), x) <==> Covers(bs, x)
    ensures bs != [] ==> Coalesce(bs) != [] && Coalesce(bs)[0].start == bs[0].start
    decreases |bs|
  {
    if |bs| >= 2 {
      if bs[0].End() == bs[1].start {
        MergeFirst(bs);
        CoalesceWorks([Block(bs[0].start, bs[0].size + bs[1].size)] + bs[2..]);
      } else {
        TailOrdered(bs);
        CoalesceWorks(bs[1..]);
        ConsCoalesced(bs[0], bs[1..], Coalesce(bs[1..]));
        assert [bs[0]] + bs[1..] == bs;
        var r := [bs[0]] + Coalesce(bs[1..]);
        assert r[1..] == Coalesce(bs[1..]);
      }
    }
  }

  lemma ConsCoalesced(b: Block, tail: seq<Block>, c: seq<Block>)
    requires Coalesced(c) && c != [] && tail != [] && c[0].start == tail[0].start && b.size > 0 && b.End() < tail[0].start
    requires forall x: nat :: Covers(c, x) <==> Covers(tail, x)
    ensures Coalesced([b] + c)
    ensures forall x: nat :: Covers([b] + c, x) <==> Covers([b] + tail, x)
  {
    var r := [b] + c;
    assert forall i :: 1 <= i < |r| ==> r[i] == c[i - 1];
    forall i | 0 <= i < |c| ensures b.End() < c[i].start {
      assert i > 0 ==> c[0].End() < c[i].start;
    }
    forall x: nat ensures Covers(r, x) <==> Covers([b] + tail, x) {
      CoversCons(b, c, x);
      CoversCons(b, tail, x);
    }
  }

  lemma CoversCons(b: Block, bs: seq<Block>, x: nat)
    ensures Covers([b] + bs, x) <==> b.start <= x < b.End() || Covers(bs, x)
  {
    CoversConcat([b], bs, x);
    assert [b][0] == b;
  }

  // ---------- the coalesced list is the only one for its bytes ----------

  /** Two coalesced lists that cover the same bytes are the same list. */
  lemma {:induction false} CoalescedIsCanonical(xs: seq<Block>, ys: seq<Block>)
    requires Coalesced(xs) && Coalesced(ys)
    requires forall x: nat :: Covers(xs, x) <==> Covers(ys, x)
    ensures xs == ys
    decreases |xs|
  {
    CoversItsFirst(xs);
    CoversItsFirst(ys);
    if xs == [] || ys == [] {
    } else {
      SameFirst(xs, ys);
      TailOrdered(xs);
      TailOrdered(ys);
      forall x: nat ensures Covers(xs[1..], x) <==> Covers(ys[1..], x) {
        TailCovers(xs, x);
        TailCovers(ys, x);
      }
      CoalescedIsCanonical(xs[1..], ys[1..]);
    }
  }

  lemma CoversItsFirst(bs: seq<Block>)
    requires Ordered(bs)
    ensures bs != [] ==> Covers(bs, bs[0].start)
  {
    assert bs != [] ==> bs[0].start <= bs[0].start < bs[0].End();
  }

  lemma SameFirst(xs: seq<Block>, ys: seq<Block>)
    requires Coalesced(xs) && Coalesced(ys) && xs != [] && ys != []
    requires forall x: nat :: Covers(xs, x) <==> Covers(ys, x)
    ensures xs[0] == ys[0]
  {
    FirstIsLeast(xs, ys);
    FirstIsLeast(ys, xs);
    FirstEnds(xs, ys);
    FirstEnds(ys, xs);
  }

  lemma FirstIsLeast(xs: seq<Block>, ys: seq<Block>)
    requires Coalesced(xs) && Coalesced(ys) && xs != [] && ys != []
    requires forall x: nat :: Covers(xs, x) <==> Covers(ys, x)
    ensures ys[0].start <= xs[0].start
  {
    assert Covers(xs, xs[0].start);
    var i :| 0 <= i < |ys| && ys[i].start <= xs[0].start < ys[i].End();
    assert i > 0 ==> ys[0].End() < ys[i].start;
  }

  /** The byte after the first block is not free, so neither list's first block is longer. */
  lemma FirstEnds(xs: seq<Block>, ys: seq<Block>)
    requires Coalesced(xs) && Coalesced(ys) && xs != [] && ys != [] && xs[0].start == ys[0].start
    requires forall x: nat :: Covers(xs, x) <==> Covers(ys, x)
    ensures ys[0].End() <= xs[0].End()
  {
    var e := xs[0].End();
    forall i | 0 <= i < |xs| ensures !(xs[i].start <= e < xs[i].End()) {
      assert i > 0 ==> e < xs[i].start;
    }
    assert !Covers(xs, e);
    assert !Covers(ys, e);
    assert !(ys[0].start <= e < ys[0].End());
  }

  lemma TailCovers(bs: seq<Block>, x: nat)
    requires Coalesced(bs) && bs != []
    ensures Covers(bs[1..], x) <==> Covers(bs, x) && !(bs[0].start <= x < bs[0].End())
  {
    assert bs == [bs[0]] + bs[1..];
    CoversCons(bs[0], bs[1..], x);
    if i :| 0 <= i < |bs[1..]| && bs[1..][i].start <= x < bs[1..][i].End() {
      assert bs[0].End() < bs[i + 1].start;
    }
  }

  // ---------- freeing and splitting ----------

  /** kfree on a coalesced list: the list stays coalesced, and gains exactly the bytes of the freed block. */
  lemma FreeAddsBlock(bs: seq<Block>, b: Block)
    requires Coalesced(bs) && Apart(bs, b) && b.size > 0
    ensures var r := Coalesce(Insert(bs, b));
      && Coalesced(r) && Total(r) == Total(bs) + b.size
      && forall x: nat :: Covers(r, x) <==> Covers(bs, x) || b.start <= x < b.End()
  {
    InsertOrdered(bs, b);
    CoalesceWorks(Insert(bs, b));
    forall x: nat ensures Covers(Insert(bs, b), x) <==> Covers(bs, x) || b.start <= x < b.End() {
      InsertCovers(bs, b, x);
    }
    var p := Position(bs, b);
    TotalConcat(bs[..p] + [b], bs[p..]);
    TotalConcat(bs[..p], [b]);
    TotalConcat(bs[..p], bs[p..]);
    assert bs[..p] + bs[p..] == bs;
  }

  /** What is left of block i. */
  ghost function Left(b: Block, n: nat): seq<Block>
    requires n <= b.size
  {
    if b.size == n then [] else [Block(b.start, b.size - n)]
  }

  lemma TakeTailParts(bs: seq<Block>, i: nat, n: nat)
    requires i < |bs| && n <= bs[i].size
    ensures TakeTail(bs, i, n) == bs[..i] + Left(bs[i], n) + bs[i + 1..]
    ensures bs == bs[..i] + [bs[i]] + bs[i + 1..]
  {
  }

  lemma TakeTailCoalesced(bs: seq<Block>, i: nat, n: nat)
    requires Coalesced(bs) && i < |bs| && 0 < n <= bs[i].size
    ensures Coalesced(TakeTail(bs, i, n)) && Apart(TakeTail(bs, i, n), Block(bs[i].End() - n, n))
  {
    var b, r := Block(bs[i].End() - n, n), TakeTail(bs, i, n);
    if bs[i].size == n {
      forall j | 0 <= j < |r| ensures r[j] == bs[if j < i then j else j + 1] {}
    }
  }

  lemma TakeTailCovers(bs: seq<Block>, i: nat, n: nat, x: nat)
    requires Coalesced(bs) && i < |bs| && 0 < n <= bs[i].size
    ensures Covers(TakeTail(bs, i, n), x) <==> Covers(bs, x) && !(bs[i].End() - n <= x < bs[i].End())
  {
    TakeTailParts(bs, i, n);
    CoversConcat(bs[..i] + Left(bs[i], n), bs[i + 1..], x);
    CoversConcat(bs[..i], Left(bs[i], n), x);
    CoversConcat(bs[..i] + [bs[i]], bs[i + 1..], x);
    CoversConcat(bs[..i], [bs[i]], x);
    assert Covers([bs[i]], x) <==> bs[i].start <= x < bs[i].End() by { assert [bs[i]][0] == bs[i]; }
    assert Covers(Left(bs[i], n), x) <==> bs[i].start <= x < bs[i].End() - n by {
      assert bs[i].size != n ==> Left(bs[i], n)[0] == Block(bs[i].start, bs[i].size - n);
    }
    if bs[i].start <= x < bs[i].End() { OthersApart(bs, i, x); }
  }

  lemma TailIsCovered(bs: seq<Block>, i: nat, n: nat, x: nat)
    requires i < |bs| && n <= bs[i].size && bs[i].End() - n <= x < bs[i].End()
    ensures Covers(bs, x)
  {
  }

  lemma OthersApart(bs: seq<Block>, i: nat, x: nat)
    requires Coalesced(bs) && i < |bs| && bs[i].start <= x < bs[i].End()
    ensures !Covers(bs[..i], x) && !Covers(bs[i + 1..], x)
  {
    forall j | 0 <= j < i ensures !(bs[..i][j].start <= x < bs[..i][j].End()) {}
    var t := bs[i + 1..];
    forall j | 0 <= j < |t| ensures !(t[j].start <= x < t[j].End()) {
      assert t[j] == bs[i + 1 + j];
    }
  }

  /** Splitting a block off a free block and freeing it again gives back the same free list. */
  lemma SplitThenFree(bs: seq<Block>, i: nat, n: nat)
    requires Coalesced(bs) && i < |bs| && 0 < n <= bs[i].size
    ensures Coalesce(Insert(TakeTail(bs, i, n), Block(bs[i].End() - n, n))) == bs
  {
    var b, r := Block(bs[i].End() - n, n), TakeTail(bs, i, n);
    TakeTailCoalesced(bs, i, n);
    FreeAddsBlock(r, b);
    forall x: nat ensures Covers(r, x) <==> Covers(bs, x) && !(b.start <= x < b.End()) {
      TakeTailCovers(bs, i, n, x);
    }
    forall x: nat | b.start <= x < b.End() ensures Covers(bs, x) {
      assert bs[i].start <= x < bs[i].End();
    }
    CoalescedIsCanonical(Coalesce(Insert(r, b)), bs);
  }
}
