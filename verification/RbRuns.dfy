/**
 Whole runs of rb_insert, rb_delete and rb_find from an empty tree: the intended
 form answers as a finite map would, and the form as written does not.
 */
module RbRuns {
  import opened RbTree
  import opened RbContents
  import opened RbDelete
  import opened RbInsert
  import opened RbRepaint

  /** `made` is the node that create_node makes when the key is absent. */
  datatype Op = Put(k: Key, v: Value, made: RBNode) | Del(k: Key) | Get(k: Key)

  /** Nodes that were linked and nodes that were freed are counted over the whole run. */
  datatype Run =
    | Crashed
    | Ran(tree: Tree, answers: seq<seq<Value>>, linked: multiset<RBNode>, freed: multiset<RBNode>)

  datatype Reference = Reference(content: map<Key, Value>, answers: seq<seq<Value>>)

  ghost function Step(s: Run, op: Op, mode: Mode): Run {
    if s.Crashed? then Crashed
    else
      match op
      case Put(k, v, made) =>
        s.(tree := Insert(s.tree, k, v, made), linked := s.linked + Linked(s.tree, k, made))
      case Get(k) => s.(answers := s.answers + [Find(s.tree, k)])
      case Del(k) =>
        match Delete(s.tree, k, mode)
        case Fault => Crashed
        case Done(r, freed) => s.(tree := r, freed := s.freed + multiset(freed))
  }

  ghost function RunOf(ops: seq<Op>, mode: Mode): Run {
    if ops == [] then Ran(Leaf, [], multiset{}, multiset{})
    else Step(RunOf(ops[..|ops| - 1], mode), ops[|ops| - 1], mode)
  }

  /** The same operations on a finite map. */
  ghost function ReferenceOf(ops: seq<Op>): Reference {
    if ops == [] then Reference(map[], [])
    else
      var r := ReferenceOf(ops[..|ops| - 1]);
      match ops[|ops| - 1]
      case Put(k, v, _) => r.(content := r.content[k := v])
      case Del(k) => r.(content := r.content - {k})
      case Get(k) => r.(answers := r.answers + [if k in r.content then [r.content[k]] else []])
  }

  /** The state of a correct run: valid, standing for the reference map, with every node accounted for. */
  ghost predicate Correct(s: Run, r: Reference) {
    && s.Ran?
    && Valid(s.tree) && Model(s.tree) == r.content && s.answers == r.answers
    && s.linked == Objects(s.tree) + s.freed
  }

  lemma StepIsCorrect(s: Run, ops: seq<Op>)
    requires ops != [] && Correct(s, ReferenceOf(ops[..|ops| - 1]))
    ensures Correct(Step(s, ops[|ops| - 1], Intended), ReferenceOf(ops))
  {
    hide Correct, Step;
    match ops[|ops| - 1]
    case Put(k, v, made) => InsertionIsCorrect(s, ReferenceOf(ops[..|ops| - 1]), k, v, made);
    case Get(k) => AnswerIsCorrect(s, ReferenceOf(ops[..|ops| - 1]), k);
    case Del(k) => DeletionIsCorrect(s, ReferenceOf(ops[..|ops| - 1]), k);
  }

  lemma InsertionIsCorrect(s: Run, r: Reference, k: Key, v: Value, made: RBNode)
    requires Correct(s, r)
    ensures Correct(Step(s, Put(k, v, made), Intended), r.(content := r.content[k := v]))
  {
    hide Valid, Model, Insert;
    InsertKeepsValid(s.tree, k, v, made);
  }

  lemma AnswerIsCorrect(s: Run, r: Reference, k: Key)
    requires Correct(s, r)
    ensures Correct(Step(s, Get(k), Intended), r.(answers := r.answers + [if k in r.content then [r.content[k]] else []]))
  {
    FindIsLookup(s.tree, k);
    hide Valid, Model, Find;
  }

  lemma DeletionIsCorrect(s: Run, r: Reference, k: Key)
    requires Correct(s, r)
    ensures Correct(Step(s, Del(k), Intended), r.(content := r.content - {k}))
  {
    hide Valid, Model, Delete;
    DeleteKeepsValid(s.tree, k);
    DeleteIsMapDelete(s.tree, k, Intended);
  }

  /** Over every run in the intended form the tree stays ordered, left-leaning and balanced, answers every find as
      a finite map does, never crashes, and frees each node that it unlinks. */
  lemma {:induction false} EveryRunIsCorrect(ops: seq<Op>)
    ensures Correct(RunOf(ops, Intended), ReferenceOf(ops))
  {
    if ops != [] {
      EveryRunIsCorrect(ops[..|ops| - 1]);
      StepIsCorrect(RunOf(ops[..|ops| - 1], Intended), ops);
    }
  }

  /** The deletion that the run does next meets a subtree that comes back red. */
  ghost predicate NextMeetsRed(s: Run, op: Op) {
    s.Ran? && op.Del? && MeetsRed(s.tree, op.k)
  }

  /** As written, a run is correct as long as no deletion in it meets red. */
  lemma {:induction false} AsWrittenRunIsCorrect(ops: seq<Op>)
    requires forall i :: 0 <= i < |ops| ==> !NextMeetsRed(RunOf(ops[..i], AsWritten), ops[i])
    ensures Correct(RunOf(ops, AsWritten), ReferenceOf(ops))
  {
    if ops != [] {
      var n := |ops| - 1;
      var before := ops[..n];
      forall i | 0 <= i < n ensures !NextMeetsRed(RunOf(before[..i], AsWritten), before[i]) {
        assert before[..i] == ops[..i];
      }
      AsWrittenRunIsCorrect(before);
      var s := RunOf(before, AsWritten);
      if ops[n].Del? {
        AsWrittenKeepsValidIff(s.tree, ops[n].k);
      }
      StepIsCorrect(s, ops);
    }
  }

  /** Correct after every operation. */
  ghost predicate CorrectThroughout(ops: seq<Op>) {
    forall n :: 0 <= n <= |ops| ==> Correct(RunOf(ops[..n], AsWritten), ReferenceOf(ops[..n]))
  }

  ghost predicate NeverMeetsRed(ops: seq<Op>) {
    forall i :: 0 <= i < |ops| ==> !NextMeetsRed(RunOf(ops[..i], AsWritten), ops[i])
  }

  /** And only so long: a run as written is correct throughout exactly when none of its deletions meets red. */
  lemma AsWrittenRunIsCorrectIff(ops: seq<Op>)
    ensures CorrectThroughout(ops) <==> NeverMeetsRed(ops)
  {
    hide Correct, NextMeetsRed, RunOf, ReferenceOf;
    if NeverMeetsRed(ops) {
      forall n | 0 <= n <= |ops| ensures Correct(RunOf(ops[..n], AsWritten), ReferenceOf(ops[..n])) {
        forall i | 0 <= i < n ensures !NextMeetsRed(RunOf(ops[..n][..i], AsWritten), ops[..n][i]) {
          assert ops[..n][..i] == ops[..i];
        }
        AsWrittenRunIsCorrect(ops[..n]);
      }
    } else {
      var i :| 0 <= i < |ops| && NextMeetsRed(RunOf(ops[..i], AsWritten), ops[i]);
      assert CorrectThroughout(ops) ==> Correct(RunOf(ops[..i], AsWritten), ReferenceOf(ops[..i]));
      assert CorrectThroughout(ops) ==> Correct(RunOf(ops[..i + 1], AsWritten), ReferenceOf(ops[..i + 1]));
      assert ops[..i + 1] == ops[..i] + [ops[i]];
      MeetingRedGoesWrong(ops[..i], ops[i]);
    }
  }

  lemma MeetingRedGoesWrong(ops: seq<Op>, op: Op)
    requires NextMeetsRed(RunOf(ops, AsWritten), op)
    ensures Correct(RunOf(ops, AsWritten), ReferenceOf(ops)) ==> !Correct(RunOf(ops + [op], AsWritten), ReferenceOf(ops + [op]))
  {
    hide Valid, MeetsRed, Delete;
    var s := RunOf(ops, AsWritten);
    if Correct(s, ReferenceOf(ops)) {
      AsWrittenKeepsValidIff(s.tree, op.k);
      RunAppend(ops, op, AsWritten);
    }
  }

  /** As written, the first deletion of any run still answers as the map does, whether or not it meets red. */
  lemma FirstDeleteIsMapDelete(ops: seq<Op>, k: Key)
    requires forall i :: 0 <= i < |ops| ==> !ops[i].Del?
    ensures var s := RunOf(ops + [Del(k)], AsWritten);
      && s.Ran? && Sorted(Items(s.tree)) && Model(s.tree) == ReferenceOf(ops + [Del(k)]).content
      && s.linked == Objects(s.tree) + s.freed
  {
    hide Delete, Model, Items, Sorted, Objects, Valid, NextMeetsRed;
    var all := ops + [Del(k)];
    assert all[..|all| - 1] == ops;
    NothingMeetsRed(ops);
    AsWrittenRunIsCorrect(ops);
    DeleteIsMapDelete(RunOf(ops, AsWritten).tree, k, AsWritten);
  }

  lemma NothingMeetsRed(ops: seq<Op>)
    requires forall i :: 0 <= i < |ops| ==> !ops[i].Del?
    ensures forall i :: 0 <= i < |ops| ==> !NextMeetsRed(RunOf(ops[..i], AsWritten), ops[i])
  {
  }

  // ---------- runs that go wrong ----------

  /** Two keys, a deletion of an absent key, then a deletion: flip_color reads through a missing right child. */
  lemma AsWrittenCanCrash(a: RBNode, b: RBNode)
    ensures RunOf([Put(1, 10, a), Put(2, 20, b), Del(0), Del(1)], AsWritten).Crashed?
  {
    var ops := [Put(1, 10, a), Put(2, 20, b)];
    TwoPuts(a, b);
    DeleteTwice(a, b);
    RunAppend(ops, Del(0), AsWritten);
    RunAppend(ops + [Del(0)], Del(1), AsWritten);
    assert ops + [Del(0)] + [Del(1)] == [Put(1, 10, a), Put(2, 20, b), Del(0), Del(1)];
  }

  lemma TwoPuts(a: RBNode, b: RBNode)
    ensures var s := RunOf([Put(1, 10, a), Put(2, 20, b)], AsWritten);
      s.Ran? && s.tree == Node(b, Black, 2, 20, Node(a, Red, 1, 10, Leaf, Leaf), Leaf)
  {
    RunAppend([], Put(1, 10, a), AsWritten);
    assert RunOf([Put(1, 10, a)], AsWritten).tree == Node(a, Black, 1, 10, Leaf, Leaf) by {
      assert [] + [Put(1, 10, a)] == [Put(1, 10, a)];
    }
    InsertIntoOne(a, b);
    RunAppend([Put(1, 10, a)], Put(2, 20, b), AsWritten);
    assert [Put(1, 10, a)] + [Put(2, 20, b)] == [Put(1, 10, a), Put(2, 20, b)];
  }

  lemma DeleteTwice(a: RBNode, b: RBNode)
    ensures var n1 := Node(a, Black, 1, 10, Leaf, Leaf);
      && Delete(Node(b, Black, 2, 20, n1.(color := Red), Leaf), 0, AsWritten)
        == Done(Node(b, Black, 2, 20, n1, Leaf), [])
      && Delete(Node(b, Black, 2, 20, n1, Leaf), 1, AsWritten) == Fault
  {
    var n2 := Node(b, Black, 2, 20, Node(a, Red, 1, 10, Leaf, Leaf), Leaf);
    assert RemoveIt(n2.left, 0, AsWritten) == Done(n2.left, []);
    LeftUnfolds(n2, n2, 0, AsWritten);
  }

  lemma RunAppend(ops: seq<Op>, op: Op, mode: Mode)
    ensures RunOf(ops + [op], mode) == Step(RunOf(ops, mode), op, mode)
  {
    assert (ops + [op])[..|ops|] == ops;
  }

  lemma InsertIntoOne(a: RBNode, b: RBNode)
    ensures Insert(Node(a, Black, 1, 10, Leaf, Leaf), 2, 20, b)
      == Node(b, Black, 2, 20, Node(a, Red, 1, 10, Leaf, Leaf), Leaf)
  {
    var n := Node(a, Black, 1, 10, Leaf, Leaf);
    assert InsertThis(Leaf, 2, 20, b) == Node(b, Red, 2, 20, Leaf, Leaf);
    var u := n.(right := InsertThis(n.right, 2, 20, b));
    assert InsertThis(n, 2, 20, b) == InsertFixup(u);
  }

  ghost function Twig(at: RBNode, c: Color, k: Key): Tree {
    Node(at, c, k, k, Leaf, Leaf)
  }

  ghost function SixKeys(n: seq<RBNode>): Tree
    requires |n| == 6
  {
    var low := Node(n[1], Black, 1, 1, Twig(n[0], Red, 0), Leaf);
    Node(n[4], Black, 4, 4, Node(n[2], Red, 2, 2, low, Twig(n[3], Black, 3)), Twig(n[5], Black, 5))
  }

  /** Deleting 0, 5 and then 4 as written frees node 4 while 3 still hangs below it. */
  lemma DeletesLoseThree(n: seq<RBNode>)
    requires |n| == 6
    ensures exists t1, t2, t3 ::
      && Delete(SixKeys(n), 0, AsWritten) == Done(t1, [n[0]])
      && Delete(t1, 5, AsWritten) == Done(t2, [n[5]]) && Find(t2, 3) == [3]
      && Delete(t2, 4, AsWritten) == Done(t3, [n[4]]) && Find(t3, 3) == []
  {
    var one, three := Twig(n[1], Black, 1), Twig(n[3], Black, 3);
    var mid := Node(n[2], Black, 2, 2, one, three);
    var t1 := Node(n[4], Black, 4, 4, mid, Twig(n[5], Black, 5));
    var t2 := Node(n[4], Black, 4, 4, mid.(color := Red), Leaf);
    DeleteZero(n, t1);
    DeleteFive(n, t1, t2);
    DeleteFour(n, t2);
  }

  lemma DeleteFive(n: seq<RBNode>, t1: Tree, t2: Tree)
    requires |n| == 6
    requires var mid := Node(n[2], Black, 2, 2, Twig(n[1], Black, 1), Twig(n[3], Black, 3));
      t1 == Node(n[4], Black, 4, 4, mid, Twig(n[5], Black, 5)) && t2 == Node(n[4], Black, 4, 4, mid.(color := Red), Leaf)
    ensures Delete(t1, 5, AsWritten) == Done(t2, [n[5]])
  {
    assert RemoveIt(Twig(n[5], Red, 5), 5, AsWritten) == Done(Leaf, [n[5]]);
    assert PrepareRight(t1) == Done(Flip(t1), []);
    RightUnfolds(t1, Flip(t1), 5, AsWritten);
  }

  lemma DeleteFour(n: seq<RBNode>, t2: Tree)
    requires |n| == 6
    requires t2 == Node(n[4], Black, 4, 4, Node(n[2], Red, 2, 2, Twig(n[1], Black, 1), Twig(n[3], Black, 3)), Leaf)
    ensures Find(t2, 3) == [3]
    ensures var t3 := Node(n[2], Black, 2, 2, Twig(n[1], Black, 1), Leaf); Delete(t2, 4, AsWritten) == Done(t3, [n[4]]) && Find(t3, 3) == []
  {
    var three := Twig(n[3], Black, 3);
    assert Find(t2.left, 3) == Find(three, 3) == [3];
    var s := RotateRight(t2);
    assert s.right == Node(n[4], Red, 4, 4, three, Leaf);
    assert RemoveIt(s.right, 4, AsWritten) == Done(Leaf, [n[4]]);
    RightUnfolds(t2, s, 4, AsWritten);
  }

  lemma DeleteZero(n: seq<RBNode>, t1: Tree)
    requires |n| == 6
    requires t1 == Node(n[4], Black, 4, 4,
      Node(n[2], Black, 2, 2, Twig(n[1], Black, 1), Twig(n[3], Black, 3)), Twig(n[5], Black, 5))
    ensures Delete(SixKeys(n), 0, AsWritten) == Done(t1, [n[0]])
  {
    var t := SixKeys(n);
    var mid, low := t.left, t.left.left;
    assert RemoveIt(low.left, 0, AsWritten) == Done(Leaf, [n[0]]);
    LeftUnfolds(low, low, 0, AsWritten);
    assert RemoveIt(low, 0, AsWritten) == Done(Twig(n[1], Black, 1), [n[0]]);
    LeftUnfolds(mid, mid, 0, AsWritten);
    LeftUnfolds(t, t, 0, AsWritten);
  }

  function SixPuts(n: seq<RBNode>): seq<Op>
    requires |n| == 6
  {
    [Put(1, 1, n[1]), Put(2, 2, n[2]), Put(3, 3, n[3]), Put(4, 4, n[4]), Put(5, 5, n[5]), Put(0, 0, n[0])]
  }

  /** What the tree is after the first j insertions. */
  ghost function Built(n: seq<RBNode>, j: nat): Tree
    requires |n| == 6 && j <= 6
  {
    var one, three, five := Twig(n[1], Black, 1), Twig(n[3], Black, 3), Twig(n[5], Black, 5);
    if j == 0 then Leaf
    else if j == 1 then one
    else if j == 2 then Node(n[2], Black, 2, 2, Twig(n[1], Red, 1), Leaf)
    else if j == 3 then Node(n[2], Black, 2, 2, one, three)
    else if j == 4 then Node(n[2], Black, 2, 2, one, Node(n[4], Black, 4, 4, Twig(n[3], Red, 3), Leaf))
    else if j == 5 then Node(n[4], Black, 4, 4, Node(n[2], Red, 2, 2, one, three), five)
    else SixKeys(n)
  }

  lemma InsertRight(t: Tree, k: Key, v: Value, made: RBNode, r: Tree)
    requires t.Node? && k > t.key && InsertThis(t.right, k, v, made) == r
    ensures InsertThis(t, k, v, made) == InsertFixup(t.(right := r))
  {
  }

  lemma InsertLeft(t: Tree, k: Key, v: Value, made: RBNode, l: Tree)
    requires t.Node? && k < t.key && InsertThis(t.left, k, v, made) == l
    ensures InsertThis(t, k, v, made) == InsertFixup(t.(left := l))
  {
  }

  lemma BuiltStep(n: seq<RBNode>, j: nat)
    requires |n| == 6 && j < 6
    ensures var op := SixPuts(n)[j]; Insert(Built(n, j), op.k, op.v, op.made) == Built(n, j + 1)
  {
    var t, op := Built(n, j), SixPuts(n)[j];
    var twig := Twig(op.made, Red, op.k);
    assert InsertThis(Leaf, op.k, op.v, op.made) == twig;
    hide InsertThis;
    if j == 1 || j == 2 {
      InsertRight(t, op.k, op.v, op.made, twig);
    } else if j == 3 || j == 4 {
      InsertRight(t.right, op.k, op.v, op.made, twig);
      InsertRight(t, op.k, op.v, op.made, InsertFixup(t.right.(right := twig)));
    } else if j == 5 {
      InsertLeft(t.left.left, op.k, op.v, op.made, twig);
      InsertLeft(t.left, op.k, op.v, op.made, InsertFixup(t.left.left.(left := twig)));
      InsertLeft(t, op.k, op.v, op.made, InsertFixup(t.left.(left := InsertFixup(t.left.left.(left := twig)))));
    }
  }

  lemma {:induction false} SixPutsBuild(n: seq<RBNode>, j: nat)
    requires |n| == 6 && j <= 6
    ensures var s := RunOf(SixPuts(n)[..j], AsWritten); s.Ran? && s.tree == Built(n, j) && s.answers == []
  {
    hide Insert;
    if j > 0 {
      SixPutsBuild(n, j - 1);
      BuiltStep(n, j - 1);
      assert SixPuts(n)[..j][..j - 1] == SixPuts(n)[..j - 1];
      assert SixPuts(n)[..j][j - 1] == SixPuts(n)[j - 1];
    }
  }

  /** A run: insert 1, 2, 3, 4, 5, 0, delete 0, 5, 4. As written, key 3 is found before the last deletion and lost by it. */
  lemma AsWrittenCanLoseAKey(n: seq<RBNode>)
    requires |n| == 6
    ensures var s := RunOf(SixPuts(n) + [Del(0), Del(5), Get(3), Del(4), Get(3)], AsWritten);
      s.Ran? && s.answers == [[3], []]
  {
    var ops := SixPuts(n);
    SixPutsBuild(n, 6);
    assert ops[..6] == ops;
    hide Step, Delete, Find, RunOf, SixKeys, SixPuts;
    FiveAppended(ops, Del(0), Del(5), Get(3), Del(4), Get(3));
    FiveSteps(RunOf(ops, AsWritten), n);
  }

  lemma FiveAppended(ops: seq<Op>, a: Op, b: Op, c: Op, d: Op, e: Op)
    ensures RunOf(ops + [a, b, c, d, e], AsWritten)
      == Step(Step(Step(Step(Step(RunOf(ops, AsWritten), a, AsWritten), b, AsWritten), c, AsWritten), d, AsWritten), e, AsWritten)
  {
    hide Step, RunOf;
    RunAppend(ops, a, AsWritten);
    RunAppend(ops + [a], b, AsWritten);
    RunAppend(ops + [a] + [b], c, AsWritten);
    RunAppend(ops + [a] + [b] + [c], d, AsWritten);
    RunAppend(ops + [a] + [b] + [c] + [d], e, AsWritten);
    assert ops + [a, b, c, d, e] == ops + [a] + [b] + [c] + [d] + [e];
  }

  lemma FiveSteps(s: Run, n: seq<RBNode>)
    requires |n| == 6 && s.Ran? && s.tree == SixKeys(n) && s.answers == []
    ensures var r := Step(Step(Step(Step(Step(s, Del(0), AsWritten), Del(5), AsWritten), Get(3), AsWritten), Del(4), AsWritten), Get(3), AsWritten);
      r.Ran? && r.answers == [[3], []]
  {
    DeletesLoseThree(n);
    hide Delete, Find, SixKeys;
  }
}
