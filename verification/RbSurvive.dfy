/**
 Deletion from a search tree of any shape and colouring, such as the form as written
 can leave behind: exactly when it reads through a missing child, and exactly when it
 loses nothing. Neither condition depends on the form, and nothing is removed to test
 it: the descent is only prepared.
 */
module RbSurvive {
  import opened RbTree
  import opened RbContents
  import opened RbDelete

  // ---------- missing children ----------

  /** remove_min finds both children wherever it flips colours. */
  ghost predicate MinReaches(t: Tree)
    decreases Size(t)
  {
    t.Node? && t.left.Node? ==> PrepareLeft(t).Done? && MinReaches(PrepareLeft(t).tree.left)
  }

  /** So does the deletion of a key. */
  ghost predicate Reaches(t: Tree, k: Key)
    decreases Size(t)
  {
    t.Node? ==>
      if k < t.key then t.left.Node? ==> PrepareLeft(t).Done? && Reaches(PrepareLeft(t).tree.left, k)
      else StepRight(t).right.Node? ==>
        && PrepareRight(StepRight(t)).Done?
        && var p := PrepareRight(StepRight(t)).tree; if k == p.key then MinReaches(p.right) else Reaches(p.right, k)
  }

  lemma {:induction false} MinFaultsIff(t: Tree)
    ensures RemoveMin(t).Fault? <==> !MinReaches(t)
    decreases Size(t)
  {
    if t.Node? && t.left.Node? && PrepareLeft(t).Done? { MinFaultsIff(PrepareLeft(t).tree.left); }
  }

  /** A deletion reads through a missing child exactly when its descent does not find both children somewhere. */
  lemma {:induction false} FaultsIff(t: Tree, k: Key, mode: Mode)
    ensures RemoveIt(t, k, mode).Fault? <==> !Reaches(t, k)
    decreases Size(t)
  {
    if t.Node? && k < t.key {
      if t.left.Node? && PrepareLeft(t).Done? { FaultsIff(PrepareLeft(t).tree.left, k, mode); }
    } else if t.Node? && StepRight(t).right.Node? && PrepareRight(StepRight(t)).Done? {
      var p := PrepareRight(StepRight(t)).tree;
      if k == p.key { MinFaultsIff(p.right); } else { FaultsIff(p.right, k, mode); }
    }
  }

  // ---------- lost subtrees ----------

  /** remove_min ends at a node without a right child. */
  ghost predicate MinSurvives(t: Tree)
    decreases Size(t)
  {
    t.Node? ==>
      if t.left.Leaf? then t.right.Leaf?
      else PrepareLeft(t).Done? && MinSurvives(PrepareLeft(t).tree.left)
  }

  /** The descent finds its children, and the node that it unlinks has no other child. */
  ghost predicate Survives(t: Tree, k: Key)
    decreases Size(t)
  {
    t.Node? ==>
      if k < t.key then t.left.Node? ==> PrepareLeft(t).Done? && Survives(PrepareLeft(t).tree.left, k)
      else
        var s := StepRight(t);
        if s.right.Leaf? then k == s.key ==> s.left.Leaf?
        else
          && PrepareRight(s).Done?
          && var p := PrepareRight(s).tree; if k == p.key then MinSurvives(p.right) else Survives(p.right, k)
  }

  /** What is left is less than what should be. */
  ghost predicate Loses(o: Outcome, expected: KeyValues) {
    o.Done? ==> |Items(o.tree)| < |expected|
  }

  lemma {:induction false} MinSurvivesIff(t: Tree)
    requires t.Node?
    ensures MinSurvives(t) ==> RemoveMin(t).Done? && Items(t) == [(Min(t).key, Min(t).value)] + Items(RemoveMin(t).tree)
    ensures !MinSurvives(t) ==> RemoveMin(t).Done? ==> |Items(RemoveMin(t).tree)| + 1 < |Items(t)|
    decreases Size(t)
  {
    if t.left.Node? && PrepareLeft(t).Done? {
      MinSurvivesIff(PrepareLeft(t).tree.left);
      MinLevel(t, PrepareLeft(t).tree);
    } else if t.left.Leaf? && t.right.Node? {
      MinIsFirst(t.right);
    }
  }

  /** One level of remove_min. */
  lemma MinLevel(t: Tree, p: Tree)
    requires t.Node? && t.left.Node? && PrepareLeft(t) == Done(p, [])
    ensures RemoveMin(t).Done? <==> RemoveMin(p.left).Done?
    ensures RemoveMin(t).Done? ==>
      var l := RemoveMin(p.left).tree;
      && |Items(t)| - |Items(RemoveMin(t).tree)| == |Items(p.left)| - |Items(l)|
      && (Items(p.left) == [(Min(p.left).key, Min(p.left).value)] + Items(l) ==>
          Items(t) == [(Min(t).key, Min(t).value)] + Items(RemoveMin(t).tree))
  {
    if RemoveMin(p.left).Done? {
      var l := RemoveMin(p.left).tree;
      assert RemoveMin(t).tree == Balance(p.(left := l));
      LeftContents(t, l);
      MinOfPrepared(t);
      hide Items, RemoveMin, Min, Balance, PrepareLeft;
      JoinItems([(Min(t).key, Min(t).value)], Items(l), [(p.key, p.value)], Items(p.right));
    }
  }

  /** In both forms a deletion of a surviving key takes away exactly the items with the key, and any other deletion
      faults or loses items. */
  lemma {:induction false} SurvivesIff(t: Tree, k: Key, mode: Mode)
    requires Sorted(Items(t))
    ensures var o := RemoveIt(t, k, mode);
      if Survives(t, k) then o.Done? && Items(o.tree) == Without(Items(t), k) else Loses(o, Without(Items(t), k))
    decreases Size(t), 1
  {
    if t.Leaf? {
    } else if k < t.key {
      if t.left.Leaf? { StopsLeft(t, k); } else if PrepareLeft(t).Done? { SurvivesLeft(t, k, mode); }
    } else if StepRight(t).right.Leaf? {
      StopsRight(t, k, mode);
    } else if PrepareRight(StepRight(t)).Done? {
      SurvivesRight(t, k, mode);
    }
  }

  lemma StopsLeft(t: Tree, k: Key)
    requires t.Node? && Sorted(Items(t)) && k < t.key && t.left.Leaf?
    ensures Items(Balance(t)) == Without(Items(t), k)
  {
    BalanceKeeps(t);
    WithoutSplit(Items(t.left), (t.key, t.value), Items(t.right), k);
  }

  lemma StopsRight(t: Tree, k: Key, mode: Mode)
    requires t.Node? && Sorted(Items(t)) && k >= t.key && StepRight(t).right.Leaf?
    ensures var o := RemoveIt(t, k, mode);
      if Survives(t, k) then o.Done? && Items(o.tree) == Without(Items(t), k) else Loses(o, Without(Items(t), k))
  {
    var s := StepRight(t);
    assert s == t;
    BalanceKeeps(s);
    assert Items(s.left) + [(s.key, s.value)] + [] == Items(s);
    WithoutSplit(Items(s.left), (s.key, s.value), [], k);
    if s.left.Node? { MinIsFirst(s.left); }
  }

  lemma {:induction false} SurvivesLeft(t: Tree, k: Key, mode: Mode)
    requires t.Node? && Sorted(Items(t)) && k < t.key && t.left.Node? && PrepareLeft(t).Done?
    ensures var o := RemoveIt(t, k, mode);
      if Survives(t, k) then o.Done? && Items(o.tree) == Without(Items(t), k) else Loses(o, Without(Items(t), k))
    decreases Size(t), 0
  {
    hide Balance, Without, Sorted, Items, Objects;
    var p := PrepareLeft(t).tree;
    PreparationKeeps(t);
    PartsSorted(t, p);
    SurvivesIff(p.left, k, mode);
    var o := RemoveIt(p.left, k, mode);
    if o.Done? {
      var l := Recoloured(o, mode).tree;
      PaintKeeps(o.tree, Black);
      LeftUnfolds(t, p, k, mode);
      LeftContents(t, l);
      PreparedKeyBelow(t);
      WithoutSplit(Items(p.left), (p.key, p.value), Items(p.right), k);
    }
  }

  lemma {:induction false} SurvivesRight(t: Tree, k: Key, mode: Mode)
    requires t.Node? && Sorted(Items(t)) && k >= t.key && StepRight(t).right.Node? && PrepareRight(StepRight(t)).Done?
    ensures var o := RemoveIt(t, k, mode);
      if Survives(t, k) then o.Done? && Items(o.tree) == Without(Items(t), k) else Loses(o, Without(Items(t), k))
    decreases Size(t), 0
  {
    StepRightKeeps(t);
    var p := PrepareRight(StepRight(t)).tree;
    PartsSorted(t, p);
    PreparedKeyAbove(t, k);
    WithoutSplit(Items(p.left), (p.key, p.value), Items(p.right), k);
    if k == p.key {
      SurvivesFound(t, p, k, mode);
    } else {
      SurvivesIff(p.right, k, mode);
      var o := RemoveIt(p.right, k, mode);
      if o.Done? {
        var r := Recoloured(o, mode).tree;
        PaintKeeps(o.tree, Black);
        RightUnfolds(t, p, k, mode);
        RightContents(p, p.key, p.value, r);
        assert p.(key := p.key, value := p.value, right := r) == p.(right := r);
      }
    }
  }

  lemma SurvivesFound(t: Tree, p: Tree, k: Key, mode: Mode)
    requires t.Node? && k >= t.key && StepRight(t).right.Node? && PrepareRight(StepRight(t)) == Done(p, [])
    requires k == p.key && Sorted(Items(p)) && Items(t) == Items(p)
    ensures var o := RemoveIt(t, k, mode);
      if Survives(t, k) then o.Done? && Items(o.tree) == Without(Items(t), k) else Loses(o, Without(Items(t), k))
  {
    MinSurvivesIff(p.right);
    if RemoveMin(p.right).Done? {
      var m, r := Min(p.right), RemoveMin(p.right).tree;
      RightUnfolds(t, p, k, mode);
      RightContents(p, m.key, m.value, r);
      WithoutSplit(Items(p.left), (p.key, p.value), Items(p.right), k);
      if MinSurvives(p.right) { FoundLevelItems(p, (m.key, m.value), r); }
    }
  }

  /** The right preparation may rotate a smaller key up, never a larger one. */
  lemma PreparedKeyAbove(t: Tree, k: Key)
    requires t.Node? && Sorted(Items(t)) && k >= t.key && StepRight(t).right.Node? && PrepareRight(StepRight(t)).Done?
    ensures k >= PrepareRight(StepRight(t)).tree.key
  {
    LeftKeyBelow(t);
    PreparationKeeps(t);
    PartsSorted(t, StepRight(t));
    LeftKeyBelow(StepRight(t));
  }

  // ---------- nodes ----------

  lemma {:induction false} MinSurvivesFrees(t: Tree)
    requires t.Node? && MinSurvives(t)
    ensures RemoveMin(t).Done? && |RemoveMin(t).freed| == 1
    ensures Objects(t) == Objects(RemoveMin(t).tree) + multiset(RemoveMin(t).freed)
    decreases Size(t)
  {
    if t.left.Node? {
      var p := PrepareLeft(t).tree;
      MinSurvivesFrees(p.left);
      var o := RemoveMin(p.left);
      LeftContents(t, o.tree);
      hide Balance;
      JoinObjects(multiset{p.at}, Objects(o.tree), Objects(p.right), multiset(o.freed));
    }
  }

  /** A surviving deletion frees one node if the key was there and none otherwise, and leaves every other one linked. */
  lemma {:induction false} SurvivesFrees(t: Tree, k: Key, mode: Mode) returns (r: Tree, freed: seq<RBNode>)
    requires Sorted(Items(t)) && Survives(t, k)
    ensures RemoveIt(t, k, mode) == Done(r, freed) && FreesKey(t, k, r, freed)
    decreases Size(t)
  {
    hide Sorted, FreesKey, SameContents, Objects, Items;
    if t.Leaf? {
      r, freed := Leaf, [];
      NothingFreed(k);
    } else if t.left.Leaf? && k < t.key {
      r, freed := Balance(t), [];
      StopObjects(t, k, r);
    } else if k < t.key {
      var p := PrepareLeft(t).tree;
      PreparationKeeps(t);
      PartsSorted(t, p);
      var l, f := SurvivesFrees(p.left, k, mode);
      LeftUnfolds(t, p, k, mode);
      FreesAfterPaint(p.left, k, l, f);
      l := Recoloured(Done(l, f), mode).tree;
      r, freed := Balance(p.(left := l)), f;
      LeftLevelObjects(t, k, l, f);
    } else if StepRight(t).right.Leaf? {
      r, freed := if k == t.key then Leaf else Balance(t), if k == t.key then [t.at] else [];
      EndObjects(t, k);
    } else {
      StepRightKeeps(t);
      var p := PrepareRight(StepRight(t)).tree;
      PartsSorted(t, p);
      PreparedKeyAbove(t, k);
      RightUnfolds(t, p, k, mode);
      if k == p.key {
        var m, o := Min(p.right), RemoveMin(p.right);
        MinSurvivesFrees(p.right);
        r, freed := Balance(p.(key := m.key, value := m.value, right := o.tree)), o.freed;
        FoundLevelObjects(p, (m.key, m.value), o.tree, o.freed);
      } else {
        var x, f := SurvivesFrees(p.right, k, mode);
        FreesAfterPaint(p.right, k, x, f);
        x := Recoloured(Done(x, f), mode).tree;
        r, freed := Balance(p.(right := x)), f;
        RightLevelObjects(p, k, x, f);
      }
      SameKeys(t, p, k, r, freed);
    }
  }

  lemma NothingFreed(k: Key)
    ensures FreesKey(Leaf, k, Leaf, [])
  {
  }

  lemma EndObjects(t: Tree, k: Key)
    requires t.Node? && Sorted(Items(t)) && k >= t.key && t.right.Leaf? && (k == t.key ==> t.left.Leaf?)
    ensures FreesKey(t, k, if k == t.key then Leaf else Balance(t), if k == t.key then [t.at] else [])
  {
    WhereIsKey(t, k);
    BalanceKeeps(t);
  }

  // ---------- rb_delete ----------

  /** One rb_delete from an ordered tree, in either form: it is map deletion, and accounts for every node, if the
      key survives; otherwise it faults or leaves fewer keys than it should. */
  lemma DeleteSurvivesIff(t: Tree, k: Key, mode: Mode)
    requires Sorted(Items(t))
    ensures var o := Delete(t, k, mode);
      if Survives(t, k) then
        o.Done? && Sorted(Items(o.tree)) && Model(o.tree) == Model(t) - {k} && FreesKey(t, k, o.tree, o.freed)
      else o.Done? ==> |Items(o.tree)| < |Without(Items(t), k)|
  {
    hide RemoveIt, Survives, Without, Sorted, ToMap, Items, Objects, FreesKey;
    SurvivesIff(t, k, mode);
    var o := RemoveIt(t, k, mode);
    WithoutSorted(Items(t), k);
    MapWithout(Items(t), k);
    if o.Done? { PaintedItems(o.tree); }
    if Survives(t, k) {
      var r, freed := SurvivesFrees(t, k, mode);
      FreesAfterPaint(t, k, r, freed);
    }
  }

  lemma PaintedItems(t: Tree)
    ensures Items(Paint(t, Black)) == Items(t)
  {
    PaintKeeps(t, Black);
  }

  // ---------- order ----------

  /** Every item of `a` is one of `b`. */
  ghost predicate Within(a: KeyValues, b: KeyValues) {
    forall x :: x in a ==> x in b
  }

  lemma LeftPartOrdered(l: KeyValues, a: KeyValues, x: (Key, Value), b: KeyValues)
    requires Sorted(a + [x] + b) && Sorted(l) && Within(l, a)
    ensures Sorted(l + [x] + b) && Within(l + [x] + b, a + [x] + b)
  {
    SortedSplit(a, x, b);
    forall i | 0 <= i < |l| ensures l[i].0 < x.0 { assert l[i] in a; }
    SortedSplit(l, x, b);
  }

  lemma RightPartOrdered(a: KeyValues, x: (Key, Value), b: KeyValues, r: KeyValues)
    requires Sorted(a + [x] + b) && Sorted(r) && Within(r, b)
    ensures Sorted(a + [x] + r) && Within(a + [x] + r, a + [x] + b)
  {
    SortedSplit(a, x, b);
    forall i | 0 <= i < |r| ensures x.0 < r[i].0 { assert r[i] in b; }
    SortedSplit(a, x, r);
  }

  /** The next larger item moves into the middle. */
  lemma MiddleOrdered(a: KeyValues, x: (Key, Value), b: KeyValues, r: KeyValues)
    requires Sorted(a + [x] + b) && b != [] && Sorted(r) && Within(r, b[1..])
    ensures Sorted(a + [b[0]] + r) && Within(a + [b[0]] + r, a + [x] + b)
  {
    SortedSplit(a, x, b);
    var m := b[0];
    assert b == [] + [m] + b[1..];
    SortedSplit([], m, b[1..]);
    assert Below(a, m.0) by { assert x.0 < m.0; }
    forall i | 0 <= i < |r| ensures m.0 < r[i].0 { assert r[i] in b[1..]; }
    SortedSplit(a, m, r);
    assert forall y :: y in b[1..] ==> y in b;
  }

  lemma {:induction false} MinOrdered(t: Tree)
    requires t.Node? && Sorted(Items(t)) && RemoveMin(t).Done?
    ensures Items(t) != [] && Sorted(Items(RemoveMin(t).tree)) && Within(Items(RemoveMin(t).tree), Items(t)[1..])
    decreases Size(t)
  {
    if t.left.Node? {
      var p := PrepareLeft(t).tree;
      PreparationKeeps(t);
      PartsSorted(t, p);
      MinOrdered(p.left);
      MinLevelItems(t, p);
      hide RemoveMin, Items, Sorted, PrepareLeft;
      TailPartOrdered(Items(RemoveMin(p.left).tree), Items(p.left), (p.key, p.value), Items(p.right));
    } else {
      MinIsFirst(t);
    }
  }

  lemma MinLevelItems(t: Tree, p: Tree)
    requires t.Node? && t.left.Node? && PrepareLeft(t) == Done(p, []) && RemoveMin(t).Done?
    ensures RemoveMin(p.left).Done?
    ensures Items(RemoveMin(t).tree) == Items(RemoveMin(p.left).tree) + [(p.key, p.value)] + Items(p.right)
    ensures Items(t) == Items(p.left) + [(p.key, p.value)] + Items(p.right)
  {
    LeftContents(t, RemoveMin(p.left).tree);
    assert RemoveMin(t).tree == Balance(p.(left := RemoveMin(p.left).tree));
  }

  lemma TailPartOrdered(l: KeyValues, a: KeyValues, x: (Key, Value), b: KeyValues)
    requires Sorted(a + [x] + b) && a != [] && Sorted(l) && Within(l, a[1..])
    ensures Sorted(l + [x] + b) && Within(l + [x] + b, (a + [x] + b)[1..])
  {
    hide Sorted, Within;
    TailSorted(a, x, b);
    assert (a + [x] + b)[1..] == a[1..] + [x] + b;
    LeftPartOrdered(l, a[1..], x, b);
  }

  lemma TailSorted(a: KeyValues, x: (Key, Value), b: KeyValues)
    requires Sorted(a + [x] + b) && a != []
    ensures Sorted(a[1..] + [x] + b)
  {
    SortedSplit(a, x, b);
    assert a == [] + [a[0]] + a[1..];
    SortedSplit([], a[0], a[1..]);
    SortedSplit(a[1..], x, b);
  }

  /** Even where a deletion loses items, the rest stays in order, and none is new. */
  lemma {:induction false} RemoveItOrdered(t: Tree, k: Key, mode: Mode)
    requires Sorted(Items(t)) && RemoveIt(t, k, mode).Done?
    ensures var r := RemoveIt(t, k, mode).tree; Sorted(Items(r)) && Within(Items(r), Items(t))
    decreases Size(t), 1
  {
    if t.Leaf? {
    } else if k < t.key {
      if t.left.Leaf? { BalanceKeeps(t); } else { LeftOrdered(t, k, mode); }
    } else if StepRight(t).right.Leaf? {
      BalanceKeeps(StepRight(t));
    } else {
      RightOrdered(t, k, mode);
    }
  }

  lemma {:induction false} LeftOrdered(t: Tree, k: Key, mode: Mode)
    requires t.Node? && Sorted(Items(t)) && RemoveIt(t, k, mode).Done? && k < t.key && t.left.Node?
    ensures var r := RemoveIt(t, k, mode).tree; Sorted(Items(r)) && Within(Items(r), Items(t))
    decreases Size(t), 0
  {
    var p := PrepareLeft(t).tree;
    PreparationKeeps(t);
    PartsSorted(t, p);
    RemoveItOrdered(p.left, k, mode);
    LeftUnfolds(t, p, k, mode);
    var l := Recoloured(RemoveIt(p.left, k, mode), mode).tree;
    PaintKeeps(RemoveIt(p.left, k, mode).tree, Black);
    LeftContents(t, l);
    hide RemoveIt, Balance, Items, Sorted, PrepareLeft;
    LeftPartOrdered(Items(l), Items(p.left), (p.key, p.value), Items(p.right));
  }

  lemma {:induction false} RightOrdered(t: Tree, k: Key, mode: Mode)
    requires t.Node? && Sorted(Items(t)) && RemoveIt(t, k, mode).Done? && k >= t.key && StepRight(t).right.Node?
    ensures var r := RemoveIt(t, k, mode).tree; Sorted(Items(r)) && Within(Items(r), Items(t))
    decreases Size(t), 0
  {
    StepRightKeeps(t);
    var p := PrepareRight(StepRight(t)).tree;
    PartsSorted(t, p);
    RightUnfolds(t, p, k, mode);
    if k == p.key {
      var m, r := Min(p.right), RemoveMin(p.right).tree;
      MinOrdered(p.right);
      MinIsFirst(p.right);
      RightContents(p, m.key, m.value, r);
      hide RemoveIt, Balance, Items, Sorted, RemoveMin, Min;
      MiddleOrdered(Items(p.left), (p.key, p.value), Items(p.right), Items(r));
    } else {
      RemoveItOrdered(p.right, k, mode);
      var r := Recoloured(RemoveIt(p.right, k, mode), mode).tree;
      PaintKeeps(RemoveIt(p.right, k, mode).tree, Black);
      RightContents(p, p.key, p.value, r);
      assert p.(key := p.key, value := p.value, right := r) == p.(right := r);
      hide RemoveIt, Balance, Items, Sorted;
      RightPartOrdered(Items(p.left), (p.key, p.value), Items(p.right), Items(r));
    }
  }

  lemma DeleteOrdered(t: Tree, k: Key, mode: Mode)
    requires Sorted(Items(t)) && Delete(t, k, mode).Done?
    ensures Sorted(Items(Delete(t, k, mode).tree))
  {
    hide RemoveIt;
    RemoveItOrdered(t, k, mode);
    PaintedItems(RemoveIt(t, k, mode).tree);
  }
}
