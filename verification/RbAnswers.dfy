/**
 Whole runs of the tree beyond the first deletion that unbalances it: exactly when a
 run reads through a missing child, and exactly how long it answers as a finite map.
 */
module RbAnswers {
  import opened RbTree
  import opened RbContents
  import opened RbDelete
  import opened RbInsert
  import opened RbSurvive
  import opened RbRuns

  // ---------- runs that crash ----------

  /** The deletion that the run does next does not find both children somewhere. */
  ghost predicate NextFaults(s: Run, op: Op) {
    s.Ran? && op.Del? && !Reaches(s.tree, op.k)
  }

  ghost predicate NeverFaults(ops: seq<Op>, mode: Mode) {
    forall i :: 0 <= i < |ops| ==> !NextFaults(RunOf(ops[..i], mode), ops[i])
  }

  lemma StepCrashesIff(s: Run, op: Op, mode: Mode)
    ensures Step(s, op, mode).Crashed? <==> s.Crashed? || NextFaults(s, op)
  {
    if s.Ran? && op.Del? { FaultsIff(s.tree, op.k, mode); }
  }

  /** A run reads through a missing child exactly when some deletion in it does not find both children. */
  lemma {:induction false} CrashesIff(ops: seq<Op>, mode: Mode)
    ensures RunOf(ops, mode).Crashed? <==> !NeverFaults(ops, mode)
  {
    hide Step, NextFaults;
    if ops != [] {
      var n := |ops| - 1;
      CrashesIff(ops[..n], mode);
      StepCrashesIff(RunOf(ops[..n], mode), ops[n], mode);
      forall i | 0 <= i < n ensures ops[..n][..i] == ops[..i] && ops[..n][i] == ops[i] {}
      assert NeverFaults(ops, mode) <==> NeverFaults(ops[..n], mode) && !NextFaults(RunOf(ops[..n], mode), ops[n]);
    }
  }

  // ---------- runs that answer ----------

  /** Whatever the shape and the colours: ordered, standing for the reference map, with every node accounted for. */
  ghost predicate Agrees(s: Run, r: Reference) {
    && s.Ran?
    && Sorted(Items(s.tree)) && Model(s.tree) == r.content && s.answers == r.answers
    && s.linked == Objects(s.tree) + s.freed
  }

  /** In such a state rb_find answers every key as the map does. */
  lemma AgreesFinds(s: Run, r: Reference, k: Key)
    requires Agrees(s, r)
    ensures Find(s.tree, k) == if k in r.content then [r.content[k]] else []
  {
    FindIsLookup(s.tree, k);
  }

  ghost predicate NextDies(s: Run, op: Op) {
    s.Ran? && op.Del? && !Survives(s.tree, op.k)
  }

  lemma InsertAgrees(t: Tree, k: Key, v: Value, made: RBNode)
    requires Sorted(Items(t))
    ensures var r := Insert(t, k, v, made);
      Sorted(Items(r)) && Model(r) == Model(t)[k := v] && Objects(r) == Objects(t) + Linked(t, k, made)
  {
    PaintKeeps(InsertThis(t, k, v, made), Black);
    InsertItems(t, k, v, made);
    InsertObjects(t, k, v, made);
    PutSorted(Items(t), k, v);
    MapPut(Items(t), k, v);
  }

  /** One operation keeps the agreement exactly when it is no deletion, or one that survives. */
  lemma StepAgreesIff(ops: seq<Op>, mode: Mode)
    requires ops != [] && Agrees(RunOf(ops[..|ops| - 1], mode), ReferenceOf(ops[..|ops| - 1]))
    ensures Agrees(RunOf(ops, mode), ReferenceOf(ops)) <==> !NextDies(RunOf(ops[..|ops| - 1], mode), ops[|ops| - 1])
  {
    hide Survives, Insert, Sorted, Items, Objects, Model, Delete, Find;
    var s, op := RunOf(ops[..|ops| - 1], mode), ops[|ops| - 1];
    match op
    case Put(k, v, made) => InsertAgrees(s.tree, k, v, made);
    case Get(k) => AgreesFinds(s, ReferenceOf(ops[..|ops| - 1]), k);
    case Del(k) => DeletionAgreesIff(s, ReferenceOf(ops[..|ops| - 1]), k, mode);
  }

  lemma DeletionAgreesIff(s: Run, r: Reference, k: Key, mode: Mode)
    requires Agrees(s, r)
    ensures Agrees(Step(s, Del(k), mode), r.(content := r.content - {k})) <==> Survives(s.tree, k)
  {
    hide Survives, Delete;
    DeleteSurvivesIff(s.tree, k, mode);
    var o := Delete(s.tree, k, mode);
    if !Survives(s.tree, k) && o.Done? {
      WithoutSorted(Items(s.tree), k);
      MapWithout(Items(s.tree), k);
      SizeIsCount(s.tree);
      if Sorted(Items(o.tree)) {
        SizeIsCount(o.tree);
        WithoutCount(Items(s.tree), k);
      }
    }
  }

  /** A sorted list has as many items as its map has keys. */
  lemma {:induction false} SortedCount(s: KeyValues)
    requires Sorted(s)
    ensures |ToMap(s)| == |s|
  {
    if s != [] {
      var x, b := s[0], s[1..];
      assert s == [] + [x] + b;
      SortedSplit([], x, b);
      ToMapSplit([], x, b);
      SortedCount(b);
      assert ToMap(s).Keys == {x.0} + ToMap(b).Keys;
    }
  }

  lemma WithoutCount(s: KeyValues, k: Key)
    requires Sorted(s)
    ensures |ToMap(s) - {k}| == |Without(s, k)|
  {
    WithoutSorted(s, k);
    MapWithout(s, k);
    SortedCount(Without(s, k));
  }

  ghost predicate AgreesThroughout(ops: seq<Op>, mode: Mode) {
    forall n :: 0 <= n <= |ops| ==> Agrees(RunOf(ops[..n], mode), ReferenceOf(ops[..n]))
  }

  ghost predicate NeverDies(ops: seq<Op>, mode: Mode) {
    forall i :: 0 <= i < |ops| ==> !NextDies(RunOf(ops[..i], mode), ops[i])
  }

  /** In either form, a run agrees with the finite map after every operation, and so answers every find as it would,
      exactly when each of its deletions survives. */
  lemma {:induction false} RunAgreesIff(ops: seq<Op>, mode: Mode)
    ensures AgreesThroughout(ops, mode) <==> NeverDies(ops, mode)
  {
    hide Agrees, NextDies, RunOf, ReferenceOf;
    if ops == [] {
      EmptyAgrees(mode);
    } else {
      var n := |ops| - 1;
      RunAgreesIff(ops[..n], mode);
      forall i | 0 <= i <= n ensures ops[..n][..i] == ops[..i] {}
      assert ops[..n + 1] == ops;
      assert AgreesThroughout(ops, mode) <==> AgreesThroughout(ops[..n], mode) && Agrees(RunOf(ops, mode), ReferenceOf(ops));
      assert NeverDies(ops, mode) <==> NeverDies(ops[..n], mode) && !NextDies(RunOf(ops[..n], mode), ops[n]);
      if AgreesThroughout(ops[..n], mode) {
        assert ops[..n][..n] == ops[..n];
        StepAgreesIff(ops, mode);
      }
    }
  }

  lemma EmptyAgrees(mode: Mode)
    ensures Agrees(RunOf([], mode), ReferenceOf([]))
  {
  }

  // ---------- what callers of rb_find see ----------

  function Lookup(content: map<Key, Value>, k: Key): seq<Value> {
    if k in content then [content[k]] else []
  }

  /** Every key, if it were looked up now, would be answered as by the map. */
  ghost predicate Answers(s: Run, r: Reference) {
    s.Ran? && forall k :: Find(s.tree, k) == Lookup(r.content, k)
  }

  ghost predicate AnswersThroughout(ops: seq<Op>, mode: Mode) {
    forall n :: 0 <= n <= |ops| ==> Answers(RunOf(ops[..n], mode), ReferenceOf(ops[..n]))
  }

  /** A deletion that does not survive is seen by some find, or crashes. */
  lemma DeathIsSeen(s: Run, r: Reference, k: Key, mode: Mode)
    requires Agrees(s, r) && !Survives(s.tree, k)
    ensures !Answers(Step(s, Del(k), mode), r.(content := r.content - {k}))
  {
    hide Survives, Delete, Without;
    DeleteSurvivesIff(s.tree, k, mode);
    var o := Delete(s.tree, k, mode);
    if o.Done? {
      DeleteOrdered(s.tree, k, mode);
      WithoutCount(Items(s.tree), k);
      if forall x :: Find(o.tree, x) == Lookup(r.content - {k}, x) { SameAnswersSameCount(o.tree, r.content - {k}); }
    }
  }

  /** An ordered tree that answers every key as a map does has as many items as the map has keys. */
  lemma SameAnswersSameCount(t: Tree, content: map<Key, Value>)
    requires Sorted(Items(t)) && forall x :: Find(t, x) == Lookup(content, x)
    ensures |Items(t)| == |content|
  {
    hide Items, Sorted, Find, ToMap;
    forall x ensures x in Model(t) <==> x in content { FindIsLookup(t, x); }
    assert Model(t).Keys == content.Keys;
    assert |Model(t).Keys| == |Model(t)| && |content.Keys| == |content|;
    SortedCount(Items(t));
  }

  /** In either form, every find anywhere in a run would be answered as by the map, exactly when each deletion survives. */
  lemma {:induction false} RunAnswersIff(ops: seq<Op>, mode: Mode)
    ensures AnswersThroughout(ops, mode) <==> NeverDies(ops, mode)
  {
    hide Agrees, Answers, NextDies, RunOf, ReferenceOf;
    RunAgreesIff(ops, mode);
    if NeverDies(ops, mode) {
      forall n | 0 <= n <= |ops| ensures Answers(RunOf(ops[..n], mode), ReferenceOf(ops[..n])) {
        AgreesAnswers(RunOf(ops[..n], mode), ReferenceOf(ops[..n]));
      }
    } else {
      var n := |ops| - 1;
      RunAnswersIff(ops[..n], mode);
      RunAgreesIff(ops[..n], mode);
      forall i | 0 <= i <= n ensures ops[..n][..i] == ops[..i] {}
      assert ops[..n + 1] == ops;
      assert NeverDies(ops, mode) <==> NeverDies(ops[..n], mode) && !NextDies(RunOf(ops[..n], mode), ops[n]);
      assert AnswersThroughout(ops, mode) ==> AnswersThroughout(ops[..n], mode) && Answers(RunOf(ops, mode), ReferenceOf(ops));
      if NeverDies(ops[..n], mode) {
        assert ops[..n][..n] == ops[..n];
        LastDeathIsSeen(ops, mode);
      }
    }
  }

  lemma AgreesAnswers(s: Run, r: Reference)
    requires Agrees(s, r)
    ensures Answers(s, r)
  {
    forall k ensures Find(s.tree, k) == Lookup(r.content, k) { AgreesFinds(s, r, k); }
  }

  lemma LastDeathIsSeen(ops: seq<Op>, mode: Mode)
    requires ops != [] && Agrees(RunOf(ops[..|ops| - 1], mode), ReferenceOf(ops[..|ops| - 1]))
    requires NextDies(RunOf(ops[..|ops| - 1], mode), ops[|ops| - 1])
    ensures !Answers(RunOf(ops, mode), ReferenceOf(ops))
  {
    hide Survives, Answers, Agrees, Delete;
    DeathIsSeen(RunOf(ops[..|ops| - 1], mode), ReferenceOf(ops[..|ops| - 1]), ops[|ops| - 1].k, mode);
  }
}
