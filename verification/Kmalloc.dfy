/**
 The kernel heap (src/kmalloc.c): a circular doubly linked list of free blocks kept
 inside the blocks themselves. Memory is a map from addresses to 8-byte words; a
 node has its size at +0, prev at +8 and next at +16.
 */
module Kmalloc {
  import opened Words
  import opened FreeBlocks

  type Memory = map<nat, nat>

  const HEADER: nat := 24
  const ALIGN: nat := 16
  const MIN_BLOCK: nat := 32

  function Word(mem: Memory, x: nat): nat {
    if x in mem then mem[x] else 0
  }

  /** Node 0 is the list head, node k the header of block k - 1. */
  ghost function At(head: nat, bs: seq<Block>, k: nat): nat
    requires k <= |bs|
  {
    if k == 0 then head else bs[k - 1].start
  }

  ghost function Next(bs: seq<Block>, k: nat): (n: nat)
    requires k <= |bs|
    ensures n <= |bs|
  {
    if k == |bs| then 0 else k + 1
  }

  ghost function Prev(bs: seq<Block>, k: nat): (n: nat)
    requires k <= |bs|
    ensures n <= |bs|
  {
    if k == 0 then |bs| else k - 1
  }

  /** Every block is above the head, aligned, and large enough for its own header. */
  ghost predicate Placed(head: nat, bs: seq<Block>) {
    && Ordered(bs)
    && forall i :: 0 <= i < |bs| ==> bs[i].start >= head + HEADER && bs[i].start % ALIGN == 0 && bs[i].size % ALIGN == 0 && bs[i].size >= MIN_BLOCK
  }

  /** Memory holds exactly these blocks, linked in this order in both directions. */
  ghost predicate Linked(mem: Memory, head: nat, bs: seq<Block>) {
    Sized(mem, head, bs) && forall k :: 0 <= k <= |bs| ==> Tied(mem, head, bs, k)
  }

  ghost predicate Sized(mem: Memory, head: nat, bs: seq<Block>) {
    && Word(mem, head) == 0
    && forall i :: 0 <= i < |bs| ==> Word(mem, bs[i].start) == bs[i].size
  }

  ghost predicate Tied(mem: Memory, head: nat, bs: seq<Block>, k: nat)
    requires k <= |bs|
  {
    && Word(mem, At(head, bs, k) + 8) == At(head, bs, Prev(bs, k))
    && Word(mem, At(head, bs, k) + 16) == At(head, bs, Next(bs, k))
  }

  /** The bytes the list lives in: its free blocks and the head. */
  ghost predicate InList(head: nat, bs: seq<Block>, x: nat) {
    Covers(bs, x) || head <= x < head + HEADER
  }

  /** Only free bytes and the head's own header differ. */
  ghost predicate OnlyFreeChanged(m: Memory, m': Memory, head: nat, bs: seq<Block>) {
    forall x: nat :: !InList(head, bs, x) ==> Word(m', x) == Word(m, x)
  }

  lemma NodesApart(head: nat, bs: seq<Block>, j: nat, k: nat)
    requires Placed(head, bs) && j < k <= |bs|
    ensures At(head, bs, j) + HEADER <= At(head, bs, k)
  {
  }

  lemma AllNodesApart(head: nat, bs: seq<Block>)
    requires Placed(head, bs)
    ensures forall j, k :: 0 <= j < k <= |bs| ==> At(head, bs, j) + HEADER <= At(head, bs, k)
  {
    forall j, k | 0 <= j < k <= |bs| ensures At(head, bs, j) + HEADER <= At(head, bs, k) {
      NodesApart(head, bs, j, k);
    }
  }

  ghost predicate SameHeader(m: Memory, m': Memory, a: nat) {
    Word(m', a) == Word(m, a) && Word(m', a + 8) == Word(m, a + 8) && Word(m', a + 16) == Word(m, a + 16)
  }

  /** The list is in the headers alone. */
  lemma HeadersDecide(m: Memory, m': Memory, head: nat, bs: seq<Block>)
    requires Linked(m, head, bs)
    requires forall k :: 0 <= k <= |bs| ==> SameHeader(m, m', At(head, bs, k))
    ensures Linked(m', head, bs)
  {
    forall k | 0 <= k <= |bs| ensures Tied(m', head, bs, k) {
      assert Tied(m, head, bs, k);
    }
    assert SameHeader(m, m', At(head, bs, 0));
    forall i | 0 <= i < |bs| ensures Word(m', bs[i].start) == bs[i].size {
      assert SameHeader(m, m', At(head, bs, i + 1));
    }
  }

  /** Whoever holds the other bytes may write them: the list does not notice. */
  lemma OthersCannotBreakList(m: Memory, m': Memory, head: nat, bs: seq<Block>)
    requires Placed(head, bs) && Linked(m, head, bs)
    requires forall x: nat :: InList(head, bs, x) ==> Word(m', x) == Word(m, x)
    ensures Linked(m', head, bs)
  {
    HeadersInList(head, bs);
    hide Placed, InList, Linked;
    forall k | 0 <= k <= |bs| ensures SameHeader(m, m', At(head, bs, k)) {
      var a := At(head, bs, k);
      assert InList(head, bs, a) && InList(head, bs, a + 8) && InList(head, bs, a + 16);
    }
    HeadersDecide(m, m', head, bs);
  }

  lemma HeadersInList(head: nat, bs: seq<Block>)
    requires Placed(head, bs)
    ensures forall k, x: nat :: 0 <= k <= |bs| && At(head, bs, k) <= x < At(head, bs, k) + HEADER ==> InList(head, bs, x)
  {
  }

  // ---------- node_append and node_remove as changes of memory ----------

  function Appended(mem: Memory, a: nat, b: nat, next: nat): Memory {
    mem[b + 16 := next][b + 8 := a][next + 8 := b][a + 16 := b]
  }

  function Removed(mem: Memory, prev: nat, next: nat): Memory {
    mem[next + 8 := prev][prev + 16 := next]
  }

  ghost function Inserted(bs: seq<Block>, k: nat, b: Block): seq<Block>
    requires k <= |bs|
  {
    bs[..k] + [b] + bs[k..]
  }

  ghost function Without(bs: seq<Block>, i: nat): seq<Block>
    requires i < |bs|
  {
    bs[..i] + bs[i + 1..]
  }

  /** Node j of the longer list, in the numbering of the shorter one. */
  ghost function Old(k: nat, j: nat): nat
    requires j != k + 1
  {
    if j <= k then j else j - 1
  }

  lemma InsertedNodes(head: nat, bs: seq<Block>, k: nat, b: Block)
    requires k <= |bs|
    ensures var r := Inserted(bs, k, b);
      && |r| == |bs| + 1 && At(head, r, k + 1) == b.start
      && forall j :: 0 <= j <= |r| && j != k + 1 ==> At(head, r, j) == At(head, bs, Old(k, j))
  {
    var r := Inserted(bs, k, b);
    forall j | 0 <= j <= |r| && j != k + 1 ensures At(head, r, j) == At(head, bs, Old(k, j)) {
      assert j > 0 ==> r[j - 1] == bs[Old(k, j) - 1];
    }
  }

  lemma AppendLinks(mem: Memory, head: nat, bs: seq<Block>, k: nat, b: Block)
    requires k <= |bs| && Linked(mem, head, bs) && Placed(head, Inserted(bs, k, b)) && Word(mem, b.start) == b.size
    ensures Linked(Appended(mem, At(head, bs, k), b.start, At(head, bs, Next(bs, k))), head, Inserted(bs, k, b))
  {
    var r := Inserted(bs, k, b);
    var m := Appended(mem, At(head, bs, k), b.start, At(head, bs, Next(bs, k)));
    InsertedNodes(head, bs, k, b);
    AllNodesApart(head, r);
    assert At(head, bs, k) == At(head, r, k);
    var n := if k == |bs| then 0 else k + 2;
    assert At(head, bs, Next(bs, k)) == At(head, r, n);
    forall j | 0 <= j <= |r| ensures Tied(m, head, r, j) {
      AppendTies(m, mem, head, bs, k, b, j);
    }
    AppendSizes(m, mem, head, bs, k, b);
  }

  lemma AppendSizes(m: Memory, mem: Memory, head: nat, bs: seq<Block>, k: nat, b: Block)
    requires k <= |bs| && Sized(mem, head, bs) && Placed(head, Inserted(bs, k, b)) && Word(mem, b.start) == b.size
    requires m == Appended(mem, At(head, bs, k), b.start, At(head, bs, Next(bs, k)))
    ensures Sized(m, head, Inserted(bs, k, b))
  {
    hide Appended, Placed, Inserted, At;
    var r := Inserted(bs, k, b);
    var n := if k == |bs| then 0 else k + 2;
    InsertedNodes(head, bs, k, b);
    AllNodesApart(head, r);
    assert Old(k, k) == k && At(head, bs, k) == At(head, r, k);
    assert Old(k, n) == Next(bs, k) && At(head, bs, Next(bs, k)) == At(head, r, n);
    forall j | 0 <= j <= |r| ensures Word(m, At(head, r, j) + 0) == Word(mem, At(head, r, j)) {
      NodeWord(m, mem, head, r, k, n, j, 0);
    }
    FirstIsHead(head, r);
    forall i | 0 <= i < |r| ensures Word(m, r[i].start) == r[i].size {
      InsertedBlock(head, bs, k, b, i);
    }
  }

  lemma FirstIsHead(head: nat, bs: seq<Block>)
    ensures At(head, bs, 0) + 0 == head
  {
  }

  lemma InsertedBlock(head: nat, bs: seq<Block>, k: nat, b: Block, i: nat)
    requires k <= |bs| && i <= |bs|
    ensures var r := Inserted(bs, k, b);
      |r| == |bs| + 1 && At(head, r, i + 1) + 0 == r[i].start && r[i] == if i == k then b else bs[if i < k then i else i - 1]
  {
  }

  lemma AppendTies(m: Memory, mem: Memory, head: nat, bs: seq<Block>, k: nat, b: Block, j: nat)
    requires k <= |bs| && j <= |bs| + 1 && Linked(mem, head, bs) && Placed(head, Inserted(bs, k, b))
    requires m == Appended(mem, At(head, bs, k), b.start, At(head, bs, Next(bs, k)))
    ensures Tied(m, head, Inserted(bs, k, b), j)
  {
    hide At, Placed, Inserted, Appended, Sized, Word;
    var r := Inserted(bs, k, b);
    var n := if k == |bs| then 0 else k + 2;
    AppendedWords(m, mem, head, bs, k, b, n, j);
    InsertedNodes(head, bs, k, b);
    if j != k + 1 {
      assert Tied(mem, head, bs, Old(k, j));
      if j != n {
        assert Prev(r, j) != k + 1 && Old(k, Prev(r, j)) == Prev(bs, Old(k, j));
      }
      if j != k {
        assert Next(r, j) != k + 1 && Old(k, Next(r, j)) == Next(bs, Old(k, j));
      }
    }
  }

  lemma AppendedWords(m: Memory, mem: Memory, head: nat, bs: seq<Block>, k: nat, b: Block, n: nat, j: nat)
    requires k <= |bs| && j <= |bs| + 1 && n == (if k == |bs| then 0 else k + 2) && Placed(head, Inserted(bs, k, b))
    requires m == Appended(mem, At(head, bs, k), b.start, At(head, bs, Next(bs, k)))
    ensures var r := Inserted(bs, k, b);
      && |r| == |bs| + 1
      && Word(m, At(head, r, j) + 8) == (if j == n then At(head, r, k + 1) else if j == k + 1 then At(head, r, k) else Word(mem, At(head, r, j) + 8))
      && Word(m, At(head, r, j) + 16) == (if j == k then At(head, r, k + 1) else if j == k + 1 then At(head, r, n) else Word(mem, At(head, r, j) + 16))
  {
    hide Placed, Inserted, At;
    var r := Inserted(bs, k, b);
    InsertedNodes(head, bs, k, b);
    AllNodesApart(head, r);
    assert Old(k, k) == k && At(head, bs, k) == At(head, r, k);
    assert Old(k, n) == Next(bs, k) && At(head, bs, Next(bs, k)) == At(head, r, n);
    NodeWord(m, mem, head, r, k, n, j, 8);
    NodeWord(m, mem, head, r, k, n, j, 16);
  }

  /** What field d of node j holds after the four writes. */
  lemma NodeWord(m: Memory, mem: Memory, head: nat, r: seq<Block>, k: nat, n: nat, j: nat, d: nat)
    requires k + 1 <= |r| && n <= |r| && n != k + 1 && j <= |r| && d in {0, 8, 16}
    requires forall i, j :: 0 <= i < j <= |r| ==> At(head, r, i) + HEADER <= At(head, r, j)
    requires m == Appended(mem, At(head, r, k), At(head, r, k + 1), At(head, r, n))
    ensures Word(m, At(head, r, j) + d) ==
      if j == k && d == 16 then At(head, r, k + 1)
      else if j == n && d == 8 then At(head, r, k + 1)
      else if j == k + 1 && d == 8 then At(head, r, k)
      else if j == k + 1 && d == 16 then At(head, r, n)
      else Word(mem, At(head, r, j) + d)
  {
    hide At;
    assert j < k ==> At(head, r, j) + HEADER <= At(head, r, k);
    assert j > k ==> At(head, r, k) + HEADER <= At(head, r, j);
    assert j < k + 1 ==> At(head, r, j) + HEADER <= At(head, r, k + 1);
    assert j > k + 1 ==> At(head, r, k + 1) + HEADER <= At(head, r, j);
    assert j < n ==> At(head, r, j) + HEADER <= At(head, r, n);
    assert j > n ==> At(head, r, n) + HEADER <= At(head, r, j);
  }

  lemma WithoutNodes(head: nat, bs: seq<Block>, i: nat)
    requires i < |bs|
    ensures var r := Without(bs, i);
      && |r| == |bs| - 1
      && forall j :: 0 <= j <= |r| ==> At(head, r, j) == At(head, bs, if j <= i then j else j + 1)
  {
  }

  lemma WithoutPlaced(head: nat, bs: seq<Block>, i: nat)
    requires i < |bs| && Placed(head, bs)
    ensures Placed(head, Without(bs, i))
  {
    var r := Without(bs, i);
    forall j | 0 <= j < |r| ensures r[j] == bs[if j < i then j else j + 1] {}
  }

  lemma RemoveLinks(mem: Memory, head: nat, bs: seq<Block>, i: nat)
    requires i < |bs| && Linked(mem, head, bs) && Placed(head, bs)
    ensures Linked(Removed(mem, At(head, bs, i), At(head, bs, Next(bs, i + 1))), head, Without(bs, i))
  {
    var r := Without(bs, i);
    var m := Removed(mem, At(head, bs, i), At(head, bs, Next(bs, i + 1)));
    WithoutNodes(head, bs, i);
    AllNodesApart(head, bs);
    forall j | 0 <= j <= |r| ensures Tied(m, head, r, j) {
      RemoveTies(m, mem, head, bs, i, j);
    }
    forall j | 0 <= j <= |bs| ensures Word(m, At(head, bs, j)) == Word(mem, At(head, bs, j)) {
      RemovedWord(m, mem, head, bs, i, j);
    }
    hide Removed, Tied, Placed, Next;
    assert At(head, bs, 0) == head;
    forall j | 0 <= j < |r| ensures Word(m, r[j].start) == r[j].size {
      var o := if j < i then j else j + 1;
      assert r[j] == bs[o] && At(head, bs, o + 1) == bs[o].start;
    }
  }

  lemma RemovedWord(m: Memory, mem: Memory, head: nat, bs: seq<Block>, i: nat, j: nat)
    requires i < |bs| && j <= |bs|
    requires forall i, j :: 0 <= i < j <= |bs| ==> At(head, bs, i) + HEADER <= At(head, bs, j)
    requires m == Removed(mem, At(head, bs, i), At(head, bs, Next(bs, i + 1)))
    ensures Word(m, At(head, bs, j)) == Word(mem, At(head, bs, j))
    ensures Word(m, At(head, bs, j) + 8) == if j == Next(bs, i + 1) then At(head, bs, i) else Word(mem, At(head, bs, j) + 8)
    ensures Word(m, At(head, bs, j) + 16) == if j == i then At(head, bs, Next(bs, i + 1)) else Word(mem, At(head, bs, j) + 16)
  {
    var n := Next(bs, i + 1);
    hide At;
    assert j < i ==> At(head, bs, j) + HEADER <= At(head, bs, i);
    assert j > i ==> At(head, bs, i) + HEADER <= At(head, bs, j);
    assert j < n ==> At(head, bs, j) + HEADER <= At(head, bs, n);
    assert j > n ==> At(head, bs, n) + HEADER <= At(head, bs, j);
  }

  lemma RemoveTies(m: Memory, mem: Memory, head: nat, bs: seq<Block>, i: nat, j: nat)
    requires i < |bs| && j < |bs| && Linked(mem, head, bs) && Placed(head, bs)
    requires m == Removed(mem, At(head, bs, i), At(head, bs, Next(bs, i + 1)))
    ensures |Without(bs, i)| == |bs| - 1 && Tied(m, head, Without(bs, i), j)
  {
    hide At, Placed, Without, Removed, Sized, Word;
    var r := Without(bs, i);
    var o := if j <= i then j else j + 1;
    RemovedNodeWords(m, mem, head, bs, i, o);
    WithoutNodes(head, bs, i);
    assert Tied(mem, head, bs, o);
    var p, n := Prev(r, j), Next(r, j);
    assert (if p <= i then p else p + 1) == if o == Next(bs, i + 1) then i else Prev(bs, o);
    assert (if n <= i then n else n + 1) == if o == i then Next(bs, i + 1) else Next(bs, o);
  }

  lemma RemovedNodeWords(m: Memory, mem: Memory, head: nat, bs: seq<Block>, i: nat, j: nat)
    requires i < |bs| && j <= |bs| && Placed(head, bs)
    requires m == Removed(mem, At(head, bs, i), At(head, bs, Next(bs, i + 1)))
    ensures Word(m, At(head, bs, j) + 8) == if j == Next(bs, i + 1) then At(head, bs, i) else Word(mem, At(head, bs, j) + 8)
    ensures Word(m, At(head, bs, j) + 16) == if j == i then At(head, bs, Next(bs, i + 1)) else Word(mem, At(head, bs, j) + 16)
  {
    AllNodesApart(head, bs);
    hide At, Placed, Removed;
    RemovedWord(m, mem, head, bs, i, j);
  }

  // ---------- changes of size ----------

  lemma ResizeLinks(m: Memory, head: nat, bs: seq<Block>, i: nat, size: nat)
    requires i < |bs| && Linked(m, head, bs) && Placed(head, bs)
    ensures Linked(m[bs[i].start := size], head, bs[i := Block(bs[i].start, size)])
  {
    var r := bs[i := Block(bs[i].start, size)];
    var m' := m[bs[i].start := size];
    AllNodesApart(head, bs);
    assert At(head, bs, i + 1) == bs[i].start;
    ResizeNodes(head, bs, i, size);
    forall k | 0 <= k <= |bs| ensures Tied(m', head, r, k) {
      hide Placed, At, Sized;
      assert Tied(m, head, bs, k);
      assert k < i + 1 ==> At(head, bs, k) + HEADER <= At(head, bs, i + 1);
      assert k > i + 1 ==> At(head, bs, i + 1) + HEADER <= At(head, bs, k);
    }
    ResizeSizes(m, head, bs, i, size);
  }

  lemma ResizeSizes(m: Memory, head: nat, bs: seq<Block>, i: nat, size: nat)
    requires i < |bs| && Sized(m, head, bs) && Placed(head, bs)
    ensures Sized(m[bs[i].start := size], head, bs[i := Block(bs[i].start, size)])
  {
    var r, m' := bs[i := Block(bs[i].start, size)], m[bs[i].start := size];
    assert bs[i].start >= head + HEADER;
    forall j | 0 <= j < |r| && j != i ensures r[j].start != bs[i].start {
      assert j < i ==> bs[j].End() <= bs[i].start;
      assert j > i ==> bs[i].End() <= bs[j].start;
    }
  }

  lemma ResizeNodes(head: nat, bs: seq<Block>, i: nat, size: nat)
    requires i < |bs|
    ensures forall k :: 0 <= k <= |bs| ==> At(head, bs[i := Block(bs[i].start, size)], k) == At(head, bs, k)
    ensures forall k :: 0 < k <= |bs| ==> At(head, bs, k) == bs[k - 1].start
  {
  }

  /** Block i takes in block i + 1. */
  ghost function Merged(bs: seq<Block>, i: nat): seq<Block>
    requires i + 1 < |bs|
  {
    bs[..i] + [Block(bs[i].start, bs[i].size + bs[i + 1].size)] + bs[i + 2..]
  }

  lemma MergePlaced(head: nat, bs: seq<Block>, i: nat)
    requires i + 1 < |bs| && Placed(head, bs) && bs[i].End() == bs[i + 1].start
    ensures Placed(head, Merged(bs, i))
  {
    var r := Merged(bs, i);
    forall j | 0 <= j < |r| && j != i ensures r[j] == bs[if j < i then j else j + 1] {}
  }

  ghost function AbsorbedMemory(m: Memory, head: nat, bs: seq<Block>, i: nat): Memory
    requires i + 1 < |bs|
  {
    Removed(m[bs[i].start := bs[i].size + bs[i + 1].size], bs[i].start, At(head, bs, Next(bs, i + 2)))
  }

  lemma MergeLinks(m: Memory, head: nat, bs: seq<Block>, i: nat)
    requires i + 1 < |bs| && Linked(m, head, bs) && Placed(head, bs)
    ensures Linked(AbsorbedMemory(m, head, bs, i), head, Merged(bs, i))
  {
    var n := At(head, bs, Next(bs, i + 2));
    var size := bs[i].size + bs[i + 1].size;
    RemoveLinks(m, head, bs, i + 1);
    WithoutPlaced(head, bs, i + 1);
    var m1 := Removed(m, bs[i].start, n);
    ResizeLinks(m1, head, Without(bs, i + 1), i, size);
    assert Without(bs, i + 1)[i := Block(bs[i].start, size)] == Merged(bs, i);
    assert bs[i].start != n + 8 by { AllNodesApart(head, bs); assert At(head, bs, i + 1) == bs[i].start; }
    assert m1[bs[i].start := size] == Removed(m[bs[i].start := size], bs[i].start, n);
  }

  // ---------- the operations ----------

  /** A new block's header is nobody else's. */
  lemma NewNodeApart(head: nat, bs: seq<Block>, k: nat, b: Block, j: nat)
    requires k <= |bs| && j <= |bs| && Placed(head, Inserted(bs, k, b))
    ensures At(head, bs, j) + HEADER <= b.start || b.start + HEADER <= At(head, bs, j)
    ensures forall x: nat :: At(head, bs, j) <= x < At(head, bs, j) + HEADER ==> InList(head, Inserted(bs, k, b), x)
    ensures forall x: nat :: b.start <= x < b.start + HEADER ==> InList(head, Inserted(bs, k, b), x)
  {
    var r := Inserted(bs, k, b);
    InsertedNodes(head, bs, k, b);
    AllNodesApart(head, r);
    HeadersInList(head, r);
    var i := if j <= k then j else j + 1;
    assert Old(k, i) == j && At(head, r, i) == At(head, bs, j);
    assert At(head, r, k + 1) == b.start;
  }

  /** One step of coalescing behind the blocks already done. */
  lemma CoalesceAt(bs: seq<Block>, i: nat)
    requires i + 1 < |bs|
    ensures bs[i].End() == bs[i + 1].start ==>
      && Coalesce(bs[i..]) == Coalesce(Merged(bs, i)[i..]) && Merged(bs, i)[..i] == bs[..i]
    ensures bs[i].End() != bs[i + 1].start ==> bs[..i] + Coalesce(bs[i..]) == bs[..i + 1] + Coalesce(bs[i + 1..])
  {
    var t := bs[i..];
    assert t[0] == bs[i] && t[1] == bs[i + 1] && t[1..] == bs[i + 1..] && t[2..] == bs[i + 2..];
    if bs[i].End() == bs[i + 1].start {
      assert Merged(bs, i)[i..] == [Block(bs[i].start, bs[i].size + bs[i + 1].size)] + t[2..];
    } else {
      assert bs[..i + 1] == bs[..i] + [bs[i]];
    }
  }

  lemma MergedCovers(bs: seq<Block>, i: nat, x: nat)
    requires i + 1 < |bs| && bs[i].End() == bs[i + 1].start
    ensures Covers(Merged(bs, i), x) <==> Covers(bs, x)
  {
    var m := Block(bs[i].start, bs[i].size + bs[i + 1].size);
    var a, c := bs[..i], bs[i + 2..];
    assert bs == a + ([bs[i]] + ([bs[i + 1]] + c));
    assert Merged(bs, i) == a + ([m] + c);
    CoversConcat(a, [bs[i]] + ([bs[i + 1]] + c), x);
    CoversCons(bs[i], [bs[i + 1]] + c, x);
    CoversCons(bs[i + 1], c, x);
    CoversConcat(a, [m] + c, x);
    CoversCons(m, c, x);
  }

  lemma FirstNode(m: Memory, head: nat, bs: seq<Block>)
    requires Linked(m, head, bs)
    ensures Word(m, head + 16) == (if bs == [] then head else bs[0].start)
    ensures Word(m, head + 8) == (if bs == [] then head else bs[|bs| - 1].start)
  {
    assert Tied(m, head, bs, 0);
  }

  /** A block's successor is the head exactly when it is the last one. */
  lemma LastNode(m: Memory, head: nat, bs: seq<Block>, i: nat)
    requires Placed(head, bs) && Linked(m, head, bs) && i < |bs|
    ensures Word(m, bs[i].start) == bs[i].size
    ensures Word(m, bs[i].start + 16) == head <==> i + 1 == |bs|
    ensures i + 1 < |bs| ==> Word(m, bs[i].start + 16) == bs[i + 1].start
    ensures Word(m, bs[i].start + 8) == (if i == 0 then head else bs[i - 1].start)
  {
    assert Tied(m, head, bs, i + 1);
  }

  /** The words of block i's header, and that the header is nobody else's. */
  lemma BesideBlock(m: Memory, head: nat, bs: seq<Block>, i: nat)
    requires Placed(head, bs) && Linked(m, head, bs) && i < |bs|
    ensures Word(m, bs[i].start) == bs[i].size
    ensures Word(m, bs[i].start + 8) == At(head, bs, i)
    ensures Word(m, bs[i].start + 16) == At(head, bs, Next(bs, i + 1))
    ensures var n := At(head, bs, Next(bs, i + 1)); n + HEADER <= bs[i].start || bs[i].start + HEADER <= n
    ensures At(head, bs, i + 1) == bs[i].start
    ensures forall x: nat :: bs[i].start <= x < bs[i].start + HEADER ==> InList(head, bs, x)
    ensures var n := At(head, bs, Next(bs, i + 1)); forall x: nat :: n <= x < n + HEADER ==> InList(head, bs, x)
  {
    assert Tied(m, head, bs, i + 1);
    AllNodesApart(head, bs);
    HeadersInList(head, bs);
  }

  ghost predicate SameBytes(xs: seq<Block>, ys: seq<Block>) {
    forall x: nat :: Covers(xs, x) <==> Covers(ys, x)
  }

  lemma MergedBytes(cur: seq<Block>, i: nat, bs: seq<Block>)
    requires i + 1 < |cur| && cur[i].End() == cur[i + 1].start && SameBytes(cur, bs)
    ensures SameBytes(Merged(cur, i), bs)
    ensures |Merged(cur, i)| == |cur| - 1 && Merged(cur, i)[i].start == cur[i].start
  {
    forall x: nat ensures Covers(Merged(cur, i), x) <==> Covers(cur, x) {
      MergedCovers(cur, i, x);
    }
  }

  lemma FrameStarts(m: Memory, head: nat, bs: seq<Block>)
    ensures OnlyFreeChanged(m, m, head, bs) && SameBytes(bs, bs)
  {
  }

  lemma FrameGoesOn(m0: Memory, m: Memory, m': Memory, head: nat, bs: seq<Block>, cur: seq<Block>)
    requires OnlyFreeChanged(m0, m, head, bs) && OnlyFreeChanged(m, m', head, cur) && SameBytes(cur, bs)
    ensures OnlyFreeChanged(m0, m', head, bs)
  {
    hide Covers;
    forall x: nat | !InList(head, bs, x) ensures Word(m', x) == Word(m0, x) {
      assert !InList(head, cur, x);
    }
  }

  /** The loop ends at the last block, with everything coalesced. */
  lemma AllDone(m: Memory, head: nat, bs: seq<Block>, cur: seq<Block>, i: nat)
    requires Placed(head, bs) && Placed(head, cur) && Linked(m, head, cur)
    requires if bs == [] then cur == [] else i < |cur| && Word(m, cur[i].start + 16) == head
    requires bs != [] ==> Coalesce(bs) == cur[..i] + Coalesce(cur[i..])
    ensures Coalesce(bs) == cur && Coalesced(cur)
  {
    CoalesceWorks(bs);
    if bs != [] {
      LastNode(m, head, cur, i);
      assert cur[..i] + Coalesce(cur[i..]) == cur;
    }
  }

  lemma AbsorbFrame(m: Memory, head: nat, bs: seq<Block>, i: nat)
    requires Placed(head, bs) && i + 1 < |bs|
    ensures OnlyFreeChanged(m, AbsorbedMemory(m, head, bs, i), head, bs)
  {
    HeadersInList(head, bs);
    assert At(head, bs, i + 1) == bs[i].start;
  }

  lemma NodeAddress(head: nat, bs: seq<Block>, k: nat, p: nat)
    requires k <= |bs| && Placed(head, bs)
    ensures At(head, bs, k) == (if k == 0 then head else bs[k - 1].start)
    ensures At(head, bs, k) == head <==> k == 0
    ensures k > 0 ==> forall i :: k <= i < |bs| ==> bs[k - 1].start <= bs[i].start
  {
  }

  /** Where the backward search stops is where the block belongs. */
  lemma PlaceFound(head: nat, bs: seq<Block>, b: Block, k: nat)
    requires k <= |bs| && Placed(head, bs) && Placed(head, [b]) && Apart(bs, b)
    requires forall i :: k <= i < |bs| ==> b.start <= bs[i].start
    requires k > 0 ==> bs[k - 1].start < b.start
    ensures Inserted(bs, k, b) == Insert(bs, b) && Ordered(Insert(bs, b)) && Placed(head, Insert(bs, b))
  {
    PositionIs(bs, b, k);
    assert [b][0] == b;
    InsertOrdered(bs, b);
    var r := Insert(bs, b);
    hide Ordered;
    forall i | 0 <= i < |r| ensures r[i] == if i < k then bs[i] else if i == k then b else bs[i - 1] {}
  }

  lemma FreedFrame(m: Memory, m': Memory, head: nat, bs: seq<Block>)
    requires Ordered(bs) && OnlyFreeChanged(m, m', head, bs)
    ensures OnlyFreeChanged(m, m', head, Coalesce(bs))
  {
    CoalesceWorks(bs);
    hide Covers;
    forall x: nat | !InList(head, Coalesce(bs), x) ensures Word(m', x) == Word(m, x) {
      assert !InList(head, bs, x);
    }
  }

  lemma SplitKeepsPlaces(head: nat, bs: seq<Block>, i: nat, bytes: nat)
    requires i < |bs| && Placed(head, bs) && Coalesced(bs)
    requires bytes % ALIGN == 0 && MIN_BLOCK <= bytes <= bs[i].size
    ensures Coalesced(TakeTail(bs, i, bytes))
    ensures bs[i].size - bytes != ALIGN ==> Placed(head, TakeTail(bs, i, bytes))
    ensures bs[i].size - bytes < ALIGN ==> bytes == bs[i].size
  {
    TakeTailCoalesced(bs, i, bytes);
    if bs[i].size == bytes { WithoutPlaced(head, bs, i); }
  }

  lemma SplitWhole(m: Memory, head: nat, bs: seq<Block>, i: nat)
    requires i < |bs| && Placed(head, bs) && Linked(m, head, bs)
    ensures var m' := Removed(m, At(head, bs, i), At(head, bs, Next(bs, i + 1)));
      && Linked(m', head, TakeTail(bs, i, bs[i].size)) && OnlyFreeChanged(m, m', head, bs)
      && Word(m', bs[i].start) == bs[i].size
  {
    RemoveLinks(m, head, bs, i);
    HeadersInList(head, bs);
    AllNodesApart(head, bs);
    assert At(head, bs, i + 1) == bs[i].start;
    assert Without(bs, i) == TakeTail(bs, i, bs[i].size);
    RemovedWord(Removed(m, At(head, bs, i), At(head, bs, Next(bs, i + 1))), m, head, bs, i, i + 1);
  }

  lemma SplitPart(m: Memory, head: nat, bs: seq<Block>, i: nat, bytes: nat)
    requires i < |bs| && Placed(head, bs) && Linked(m, head, bs)
    requires bytes % ALIGN == 0 && MIN_BLOCK <= bytes < bs[i].size
    ensures var m' := m[bs[i].End() - bytes := bytes][bs[i].start := bs[i].size - bytes];
      && OnlyFreeChanged(m, m', head, bs)
      && (Linked(m', head, TakeTail(bs, i, bytes)) <==> bs[i].size - bytes != ALIGN || At(head, bs, Next(bs, i + 1)) == bytes)
  {
    hide Placed, Linked;
    var ret := bs[i].End() - bytes;
    var m1 := m[ret := bytes];
    var m' := m1[bs[i].start := bs[i].size - bytes];
    var r := TakeTail(bs, i, bytes);
    assert r == bs[i := Block(bs[i].start, bs[i].size - bytes)];
    SplitFrame(m, head, bs, i, bytes);
    if bs[i].size - bytes != ALIGN || At(head, bs, Next(bs, i + 1)) == bytes {
      forall k | 0 <= k <= |bs| ensures SameHeader(m, m1, At(head, bs, k)) {
        HeaderWord(m, head, bs, i, bytes, k);
      }
      HeadersDecide(m, m1, head, bs);
      ResizeLinks(m1, head, bs, i, bs[i].size - bytes);
    } else {
      NextOf(m', head, r, i);
      assert Word(m', bs[i].start + 16) == bytes;
      assert At(head, r, Next(r, i + 1)) == At(head, bs, Next(bs, i + 1));
    }
  }

  lemma NextOf(m: Memory, head: nat, bs: seq<Block>, i: nat)
    requires i < |bs|
    ensures Linked(m, head, bs) ==> Word(m, bs[i].start + 16) == At(head, bs, Next(bs, i + 1))
  {
    assert Linked(m, head, bs) ==> Tied(m, head, bs, i + 1);
  }

  /** The new header touches an old one only if 16 bytes are left, and then its first word is that block's next field. */
  lemma HeaderWord(m: Memory, head: nat, bs: seq<Block>, i: nat, bytes: nat, k: nat)
    requires i < |bs| && k <= |bs| && Placed(head, bs) && Linked(m, head, bs)
    requires bytes % ALIGN == 0 && MIN_BLOCK <= bytes < bs[i].size
    requires bs[i].size - bytes != ALIGN || At(head, bs, Next(bs, i + 1)) == bytes
    ensures SameHeader(m, m[bs[i].End() - bytes := bytes], At(head, bs, k))
  {
    assert bs[i].size % ALIGN == 0;
    NextOf(m, head, bs, i);
    assert k > 0 && k - 1 < i ==> bs[k - 1].End() <= bs[i].start;
    assert k > 0 && k - 1 > i ==> bs[i].End() <= bs[k - 1].start;
  }

  lemma SplitFrame(m: Memory, head: nat, bs: seq<Block>, i: nat, bytes: nat)
    requires i < |bs| && MIN_BLOCK <= bytes < bs[i].size
    ensures OnlyFreeChanged(m, m[bs[i].End() - bytes := bytes][bs[i].start := bs[i].size - bytes], head, bs)
  {
    forall x: nat | x == bs[i].start || x == bs[i].End() - bytes ensures InList(head, bs, x) {
      assert bs[i].start <= x < bs[i].End();
    }
  }

  lemma CutFacts(head: nat, bs: seq<Block>, i: nat, bytes: nat)
    requires i < |bs| && Placed(head, bs) && Coalesced(bs)
    requires bytes % ALIGN == 0 && MIN_BLOCK <= bytes <= bs[i].size
    ensures var b := Block(bs[i].End() - bytes, bytes);
      && Placed(head, [b]) && Apart(TakeTail(bs, i, bytes), b) && Coalesce(Insert(TakeTail(bs, i, bytes), b)) == bs
  {
    hide Placed, Insert, Coalesce, TakeTail, Apart, Coalesced;
    TakeTailCoalesced(bs, i, bytes);
    SplitThenFree(bs, i, bytes);
    TailPlaced(head, bs, i, bytes);
  }

  lemma TailPlaced(head: nat, bs: seq<Block>, i: nat, bytes: nat)
    requires i < |bs| && Placed(head, bs)
    requires bytes % ALIGN == 0 && MIN_BLOCK <= bytes <= bs[i].size
    ensures Placed(head, [Block(bs[i].End() - bytes, bytes)])
  {
    var start, size := bs[i].start, bs[i].size;
    assert start >= head + HEADER && start % ALIGN == 0 && size % ALIGN == 0;
    hide Placed;
    assert (start + size - bytes) % ALIGN == 0;
    PlacedAlone(head, Block(start + size - bytes, bytes));
  }

  lemma PlacedAlone(head: nat, b: Block)
    requires b.start >= head + HEADER && b.start % ALIGN == 0 && b.size % ALIGN == 0 && b.size >= MIN_BLOCK
    ensures Placed(head, [b])
  {
  }

  class KernelHeap {
    const head: nat
    var mem: Memory

    function Get(x: nat): nat
      reads this
    {
      Word(mem, x)
    }

    /** The free list is well formed and coalesced, and holds exactly these blocks. */
    ghost predicate Holds(bs: seq<Block>)
      reads this
    {
      Placed(head, bs) && Coalesced(bs) && Linked(mem, head, bs)
    }

    constructor (start: nat)
      requires start % ALIGN == 0
      ensures head == start && Holds([])
    {
      head := start;
      mem := map[start := 0, start + 16 := start, start + 8 := start];
    }

    /** Links block b in behind node k. */
    method NodeAppend(a: nat, b: nat, ghost bs: seq<Block>, ghost k: nat, ghost block: Block)
      requires k <= |bs| && a == At(head, bs, k) && block.start == b
      requires Linked(mem, head, bs) && Placed(head, bs) && Placed(head, Inserted(bs, k, block)) && Word(mem, b) == block.size
      modifies this
      ensures Linked(mem, head, Inserted(bs, k, block))
      ensures OnlyFreeChanged(old(mem), mem, head, Inserted(bs, k, block))
    {
      hide Placed, Inserted, At, InList;
      ghost var m, next := mem, At(head, bs, Next(bs, k));
      NewNodeApart(head, bs, k, block, k);
      NewNodeApart(head, bs, k, block, Next(bs, k));
      assert Tied(m, head, bs, k);
      mem := mem[b + 16 := Get(a + 16)];
      mem := mem[b + 8 := a];
      mem := mem[Get(b + 16) + 8 := b];
      mem := mem[Get(b + 8) + 16 := b];
      assert mem == Appended(m, a, b, next);
      AppendLinks(m, head, bs, k, block);
      forall x: nat | !InList(head, Inserted(bs, k, block), x) ensures Word(mem, x) == Word(m, x) {}
    }

    /** What this does to the list is RemoveLinks and MergeLinks. */
    method NodeRemove(a: nat)
      requires Get(a + 16) != a && Get(a + 16) != a + 8
      modifies this
      ensures mem == Removed(old(mem), old(Get(a + 8)), old(Get(a + 16)))
    {
      mem := mem[Get(a + 16) + 8 := Get(a + 8)];
      mem := mem[Get(a + 8) + 16 := Get(a + 16)];
    }

    /** The step of the loop below: the block behind temp is taken in. */
    method Absorb(temp: nat, ghost bs: seq<Block>, ghost i: nat)
      requires i + 1 < |bs| && temp == bs[i].start
      requires Linked(mem, head, bs) && Placed(head, bs) && bs[i].End() == bs[i + 1].start
      modifies this
      ensures Linked(mem, head, Merged(bs, i)) && Placed(head, Merged(bs, i))
      ensures OnlyFreeChanged(old(mem), mem, head, bs)
    {
      hide Placed, Merged, InList, At, Linked, OnlyFreeChanged;
      ghost var m, n := mem, At(head, bs, Next(bs, i + 2));
      BesideBlock(m, head, bs, i);
      BesideBlock(m, head, bs, i + 1);
      mem := mem[temp := Get(temp) + Get(Get(temp + 16))];
      NodeRemove(Get(temp + 16));
      assert mem == AbsorbedMemory(m, head, bs, i);
      MergeLinks(m, head, bs, i);
      MergePlaced(head, bs, i);
      AbsorbFrame(m, head, bs, i);
    }

    /** A block swallows its successor as long as they touch. */
    method CoalesceFreeList(ghost bs: seq<Block>)
      requires Placed(head, bs) && Linked(mem, head, bs)
      modifies this
      ensures Holds(Coalesce(bs))
      ensures OnlyFreeChanged(old(mem), mem, head, bs)
    {
      hide Placed, Linked, Merged, Coalesce, At, OnlyFreeChanged, SameBytes;
      FirstNode(mem, head, bs);
      FrameStarts(mem, head, bs);
      var temp := Get(head + 16);
      ghost var i, cur := 0, bs;
      while Get(temp + 16) != head
        invariant Placed(head, cur) && Linked(mem, head, cur)
        invariant if bs == [] then cur == [] && temp == head else i < |cur| && temp == cur[i].start
        invariant bs != [] ==> Coalesce(bs) == cur[..i] + Coalesce(cur[i..])
        invariant SameBytes(cur, bs) && OnlyFreeChanged(old(mem), mem, head, bs)
        decreases |cur| - i
      {
        FirstNode(mem, head, cur);
        LastNode(mem, head, cur, i);
        CoalesceAt(cur, i);
        if temp + Get(temp) == Get(temp + 16) {
          MergedBytes(cur, i, bs);
          ghost var m := mem;
          Absorb(temp, cur, i);
          FrameGoesOn(old(mem), m, mem, head, bs, cur);
          cur := Merged(cur, i);
        } else {
          temp := Get(temp + 16);
          i := i + 1;
        }
      }
      AllDone(mem, head, bs, cur, i);
    }

    /** kfree: whatever the list was, it now also covers the freed block, and no other byte has changed. */
    method Free(ptr: nat, ghost bs: seq<Block>)
      requires Holds(bs) && (ptr == 0 || ptr >= 8)
      requires ptr != 0 && Get(ptr - 8) != 0 ==> var b := Block(ptr - 8, Get(ptr - 8)); Placed(head, [b]) && Apart(bs, b)
      modifies this
      ensures ptr == 0 || old(Get(ptr - 8)) == 0 ==> mem == old(mem)
      ensures ptr != 0 && old(Get(ptr - 8)) != 0 ==>
        (var r := Coalesce(Insert(bs, Block(ptr - 8, old(Get(ptr - 8)))));
         Holds(r) && OnlyFreeChanged(old(mem), mem, head, r))
    {
      hide Placed, Linked, Coalesce, At, OnlyFreeChanged, SameBytes, Insert, Inserted, Position;
      if ptr != 0 {
        var p := ptr - 8;
        if Get(p) == 0 {
          return;
        }
        ghost var m, b := mem, Block(p, Get(p));
        FirstNode(mem, head, bs);
        var temp := Get(head + 8);
        ghost var k: nat := |bs|;
        NodeAddress(head, bs, k, p);
        while temp != head && p <= temp
          invariant k <= |bs| && temp == At(head, bs, k) && mem == m
          invariant forall i :: k <= i < |bs| ==> p <= bs[i].start
          decreases k
        {
          NodeAddress(head, bs, k, p);
          LastNode(mem, head, bs, k - 1);
          NodeAddress(head, bs, k - 1, p);
          temp := Get(temp + 8);
          k := k - 1;
        }
        NodeAddress(head, bs, k, p);
        PlaceFound(head, bs, b, k);
        NodeAppend(temp, p, bs, k, b);
        ghost var appended := mem;
        CoalesceFreeList(Insert(bs, b));
        FrameStarts(m, head, Insert(bs, b));
        FrameGoesOn(m, appended, mem, head, Insert(bs, b), Insert(bs, b));
        FreedFrame(m, mem, head, Insert(bs, b));
      }
    }

    /** The end of kmalloc: `bytes` bytes are cut off the tail of a free block that is large enough. */
    method Split(temp: nat, bytes: nat, ghost bs: seq<Block>, ghost i: nat) returns (ptr: nat)
      requires Holds(bs) && i < |bs| && temp == bs[i].start
      requires bytes % ALIGN == 0 && MIN_BLOCK <= bytes <= bs[i].size
      modifies this
      ensures ptr == bs[i].End() - bytes + 8 && Get(ptr - 8) == bytes
      ensures OnlyFreeChanged(old(mem), mem, head, bs)
      ensures bs[i].size - bytes != ALIGN ==> Holds(TakeTail(bs, i, bytes))
      ensures bs[i].size - bytes == ALIGN ==> (Linked(mem, head, TakeTail(bs, i, bytes)) <==> At(head, bs, Next(bs, i + 1)) == bytes)
    {
      hide Placed, Linked, At, OnlyFreeChanged, InList, TakeTail;
      ghost var m := mem;
      BesideBlock(mem, head, bs, i);
      SplitKeepsPlaces(head, bs, i, bytes);
      var ret := temp + Get(temp) - bytes;
      if Get(temp) - bytes < ALIGN {
        NodeRemove(temp);
        SplitWhole(m, head, bs, i);
      } else {
        mem := mem[ret := bytes];
        mem := mem[temp := Get(temp) - bytes];
        SplitPart(m, head, bs, i, bytes);
      }
      ptr := ret + 8;
    }

    /** Cutting a block off and freeing it leaves the list it started from, unless 16 bytes remain in between. */
    method AllocateThenFree(temp: nat, bytes: nat, ghost bs: seq<Block>, ghost i: nat)
      requires Holds(bs) && i < |bs| && temp == bs[i].start
      requires bytes % ALIGN == 0 && MIN_BLOCK <= bytes <= bs[i].size && bs[i].size - bytes != ALIGN
      modifies this
      ensures Holds(bs)
    {
      hide Placed, Linked, Coalesced, Coalesce, At, OnlyFreeChanged, Insert, TakeTail, Apart;
      ghost var b := Block(bs[i].End() - bytes, bytes);
      CutFacts(head, bs, i, bytes);
      var ptr := Split(temp, bytes, bs, i);
      assert Block(ptr - 8, bytes) == b;
      Free(ptr, TakeTail(bs, i, bytes));
    }

    /**
     The search at the start of kmalloc, with its test as it stands: it stops at the
     first block that is too small, so what it returns is either the head or a block
     that does not fit.
     */
    method Search(bytes: nat, ghost bs: seq<Block>) returns (temp: nat, ghost k: nat)
      requires Holds(bs) && bytes > 0
      ensures temp == head || Get(temp) < bytes
      ensures k <= |bs| && temp == At(head, bs, k)
      ensures k > 0 ==> bs[k - 1].size < bytes && forall i :: 0 <= i < k - 1 ==> bs[i].size >= bytes
      ensures k == 0 ==> forall i :: 0 <= i < |bs| ==> bs[i].size >= bytes
    {
      FirstNode(mem, head, bs);
      temp := Get(head + 16);
      k := Next(bs, 0);
      while true
        invariant k <= |bs| && temp == At(head, bs, k)
        invariant forall i :: 0 <= i < (if k == 0 then |bs| else k - 1) ==> bs[i].size >= bytes
        decreases if k == 0 then 0 else |bs| + 1 - k
      {
        if Get(temp) < bytes { break; }
        if temp == head { break; }
        LastNode(mem, head, bs, k - 1);
        temp := Get(temp + 16);
        k := Next(bs, k);
      }
    }
  }

  /** The block size kmalloc asks the list for, in 64-bit arithmetic. What the caller can use behind the size word is
      as much as asked for exactly when the sum did not wrap. */
  function RequestSize(n: u64): (r: nat)
    ensures r % ALIGN == 0
    ensures n + 8 + HEADER < 0x1_0000_0000_0000_0000 ==> r >= MIN_BLOCK && n + 9 <= r - 8 <= n + HEADER
    ensures n <= r - 8 <==> n + 8 + HEADER < 0x1_0000_0000_0000_0000
  {
    (n + 8 + HEADER) % 0x1_0000_0000_0000_0000 / ALIGN * ALIGN
  }
}
