/**
 Where deletion as written departs from the algorithm: rb_remove_key_node
 (src/rbtree.c:226-235) blackens the root of every subtree that the removal
 recurses into. This module says exactly when one deletion from a valid tree
 survives that.
 */
module RbRepaint {
  import opened RbTree
  import opened RbContents
  import opened RbDelete
  import opened RbInsert

  /** What a recursive call hands to the line that blackens it. */
  ghost predicate RedResult(t: Tree, k: Key) {
    var o := RemoveIt(t, k, AsWritten);
    o.Done? && IsRed(o.tree)
  }

  /** Some call below the root finds a red node to blacken at src/rbtree.c:230-232. */
  ghost predicate Repaints(t: Tree, k: Key)
    decreases Size(t)
  {
    if t.Leaf? then false
    else if k < t.key then
      && t.left.Node? && PrepareLeft(t).Done?
      && var s := PrepareLeft(t).tree.left; Repaints(s, k) || RedResult(s, k)
    else
      && StepRight(t).right.Node? && PrepareRight(StepRight(t)).Done?
      && var p := PrepareRight(StepRight(t)).tree; k != p.key && (Repaints(p.right, k) || RedResult(p.right, k))
  }

  /** Without such a call the two forms do the same. */
  lemma {:induction false} SameUnlessRepainted(t: Tree, k: Key)
    requires !Repaints(t, k)
    ensures RemoveIt(t, k, AsWritten) == RemoveIt(t, k, Intended)
    decreases Size(t)
  {
    if t.Node? && k < t.key {
      if t.left.Node? && PrepareLeft(t).Done? {
        SameUnlessRepainted(PrepareLeft(t).tree.left, k);
      }
    } else if t.Node? && StepRight(t).right.Node? && PrepareRight(StepRight(t)).Done? {
      var p := PrepareRight(StepRight(t)).tree;
      if k != p.key { SameUnlessRepainted(p.right, k); }
    }
  }

  // ---------- unequal black heights are never repaired ----------

  lemma RotationsKeepBalance(t: Tree)
    requires t.Node?
    ensures IsRed(t.right) ==> (Balanced(RotateLeft(t)) <==> Balanced(t))
    ensures IsRed(t.left) ==> (Balanced(RotateRight(t)) <==> Balanced(t))
    ensures HasBoth(t) && t.left.color == t.right.color ==> (Balanced(Flip(t)) <==> Balanced(t))
  {
  }

  lemma BalanceKeepsBalance(t: Tree)
    requires t.Node?
    ensures Balanced(Balance(t)) <==> Balanced(t)
  {
    var u := if IsRed(t.right) then RotateLeft(t) else t;
    RotationsKeepBalance(t);
    RotationsKeepBalance(u);
    RotationsKeepBalance(LeanRight(u));
  }

  /** The sibling of the subtree that is entered has the same black height. */
  lemma LeftSibling(t: Tree, h: nat)
    requires Ready(t, h) && t.left.Node? && h > 0 && PrepareLeft(t).Done?
    ensures Ok(PrepareLeft(t).tree.right, LeftHeight(t, h))
  {
    if !IsRed(t.left) && !IsRed(t.left.left) {
      SiblingExists(t.left, t.right, h);
      assert Ok(t.right, h);
      if IsRed(t.right.left) {
        assert Ok(t.right.left, h - 1);
        assert Ok(t.right.left.right, h - 1);
        assert Ok(MoveRedToLeft(t).right, h);
      } else {
        assert Ok(Flip(t).right, h - 1);
      }
    }
  }

  lemma RightSibling(t: Tree, h: nat, k: Key)
    requires Enterable(t, h, k) && k >= t.key && StepRight(t).right.Node? && h > 0 && PrepareRight(StepRight(t)).Done?
    ensures Ok(PrepareRight(StepRight(t)).tree.left, RightHeight(t, h))
  {
    if IsRed(t.left) {
      assert Ok(t.left, h - 1);
    } else if !IsRed(t.right) && !IsRed(t.right.left) {
      SiblingExists(t.right, t.left, h);
      if IsRed(t.left.left) {
        assert Ok(t.left.left, h - 1);
        assert MoveRedToRight(t).left == t.left.left.(color := Black);
      } else {
        assert Ok(Flip(t).left, h - 1);
      }
    }
  }

  /** A subtree that is one black node too deep, or uneven inside, leaves the whole uneven. */
  lemma UnevenBelow(p: Tree, l: Tree, r: Tree, g: nat)
    requires p.Node?
    requires ((!Balanced(l) || Bh(l) == g + 1) && Ok(r, g)) || ((!Balanced(r) || Bh(r) == g + 1) && Ok(l, g))
    ensures !Balanced(Balance(p.(left := l, right := r)))
  {
    OkIsShape(l, g);
    OkIsShape(r, g);
    BalanceKeepsBalance(p.(left := l, right := r));
  }

  /** What the blackened result of a recursive call looks like, once a red node was blackened. */
  lemma PaintedUneven(r: Tree, g: nat)
    ensures !Balanced(r) ==> !Balanced(Paint(r, Black))
    ensures Ok(r, g) && IsRed(r) ==> Bh(Paint(r, Black)) == g + 1
  {
    OkIsShape(r, g);
  }

  /** Once a red node was blackened, the subtree returned has unequal black heights. */
  lemma {:induction false} RepaintUnbalances(t: Tree, h: nat, k: Key)
    requires Enterable(t, h, k) && Sorted(Items(t)) && Repaints(t, k)
    ensures RemoveIt(t, k, AsWritten).Done? && !Balanced(RemoveIt(t, k, AsWritten).tree)
    decreases Size(t), 1
  {
    RemoveItDone(t, h, k, AsWritten);
    if k < t.key {
      LeftEnterable(t, h);
      LeftSibling(t, h);
      PreparationKeeps(t);
      var p, g := PrepareLeft(t).tree, LeftHeight(t, h);
      PartsSorted(t, p);
      var r := RepaintedResult(p.left, g, k);
      UnevenBelow(p, r, p.right, g);
      LeftUnfolds(t, p, k, AsWritten);
    } else {
      RightEnterable(t, h, k);
      RightSibling(t, h, k);
      StepRightKeeps(t);
      var p, g := PrepareRight(StepRight(t)).tree, RightHeight(t, h);
      PartsSorted(t, p);
      var r := RepaintedResult(p.right, g, k);
      UnevenBelow(p, p.left, r, g);
      RightUnfolds(t, p, k, AsWritten);
    }
  }

  lemma {:induction false} RepaintedResult(s: Tree, g: nat, k: Key) returns (r: Tree)
    requires Enterable(s, g, k) && Sorted(Items(s)) && (Repaints(s, k) || RedResult(s, k))
    ensures RemoveIt(s, k, AsWritten).Done?
    ensures r == Recoloured(RemoveIt(s, k, AsWritten), AsWritten).tree
    ensures !Balanced(r) || Bh(r) == g + 1
    decreases Size(s), 2
  {
    RemoveItDone(s, g, k, AsWritten);
    r := Recoloured(RemoveIt(s, k, AsWritten), AsWritten).tree;
    PaintedUneven(RemoveIt(s, k, AsWritten).tree, g);
    if Repaints(s, k) {
      RepaintUnbalances(s, g, k);
    } else {
      SameUnlessRepainted(s, k);
      RemoveItShape(s, g, k);
    }
  }

  // ---------- the condition, read off the descent's colours ----------

  /** The subtree that remove_min leaves is red: every node that its descent prepares is red, or black between two
      red children. */
  ghost predicate StaysRed(t: Tree)
    decreases Size(t)
  {
    t.Node? && t.left.Node? && PrepareLeft(t).Done?
    && var p := PrepareLeft(t).tree; IsRed(p) || (IsRed(p.right) && StaysRed(p.left))
  }

  /** The entered subtree comes back red, or holds a repainted node: its prepared node is red, or its descent goes on
      to such a subtree or ends with the key absent, or the key is found between two children that stay red. */
  ghost predicate EndsRed(t: Tree, k: Key)
    decreases Size(t)
  {
    t.Node?
    && if k < t.key then
         t.left.Leaf? || (PrepareLeft(t).Done? && var p := PrepareLeft(t).tree; IsRed(p) || EndsRed(p.left, k))
       else if StepRight(t).right.Leaf? then k != StepRight(t).key
       else
         && PrepareRight(StepRight(t)).Done?
         && var p := PrepareRight(StepRight(t)).tree;
            IsRed(p) || if k == p.key then IsRed(p.left) && StaysRed(p.right) else EndsRed(p.right, k)
  }

  /** The deletion goes on below the root, to a subtree that comes back red. Nothing is removed to find this out. */
  ghost predicate MeetsRed(t: Tree, k: Key) {
    t.Node?
    && if k < t.key then t.left.Node? && PrepareLeft(t).Done? && EndsRed(PrepareLeft(t).tree.left, k)
       else
         && StepRight(t).right.Node? && PrepareRight(StepRight(t)).Done?
         && var p := PrepareRight(StepRight(t)).tree; k != p.key && EndsRed(p.right, k)
  }

  /** rb_balance keeps the colour of a node whose replaced child is not red. */
  lemma BalanceKeepsColour(p: Tree, l: Tree, r: Tree, g: nat)
    requires p.Node? && ((!IsRed(l) && Ok(r, g)) || (!IsRed(r) && Ok(l, g)))
    ensures IsRed(Balance(p.(left := l, right := r))) <==> IsRed(p)
  {
  }

  /** A red child put back makes it red exactly when the other child is red too. */
  lemma BalanceBetweenReds(p: Tree, l: Tree, r: Tree, g: nat)
    requires p.Node? && !IsRed(p) && Ok(l, g) && Ok(r, g)
    ensures IsRed(Balance(p.(left := l, right := r))) <==> IsRed(l) && IsRed(r)
  {
  }

  lemma {:induction false} StaysRedIsResult(t: Tree, h: nat)
    requires Ready(t, h)
    ensures RemoveMin(t).Done? && (StaysRed(t) <==> IsRed(RemoveMin(t).tree))
    decreases Size(t)
  {
    RemoveMinShape(t, h);
    if t.left.Node? {
      LeftEnterable(t, h);
      LeftSibling(t, h);
      var p, g := PrepareLeft(t).tree, LeftHeight(t, h);
      StaysRedIsResult(p.left, g);
      RemoveMinShape(p.left, g);
      var l := RemoveMin(p.left).tree;
      assert p.(left := l) == p.(left := l, right := p.right);
      if IsRed(p) {
        RedChildren(t, h);
        BalanceKeepsColour(p, l, p.right, g);
      } else {
        BalanceBetweenReds(p, l, p.right, g);
      }
    }
  }

  /** A node that is red when prepared has a black sibling beside the subtree that is entered. */
  lemma RedChildren(t: Tree, h: nat)
    requires Ready(t, h) && t.left.Node? && h > 0 && PrepareLeft(t).Done? && IsRed(PrepareLeft(t).tree)
    ensures !IsRed(PrepareLeft(t).tree.right)
  {
  }

  lemma RedChildrenRight(t: Tree, h: nat, k: Key)
    requires Enterable(t, h, k) && k >= t.key && h > 0 && StepRight(t).right.Node? && PrepareRight(StepRight(t)).Done?
    requires IsRed(PrepareRight(StepRight(t)).tree)
    ensures !IsRed(PrepareRight(StepRight(t)).tree.left)
  {
  }

  /** The colours tell it: a subtree that is entered comes back red, or uneven, exactly when EndsRed says so. */
  lemma {:induction false} EndsRedIsResult(t: Tree, h: nat, k: Key)
    requires Enterable(t, h, k) && Sorted(Items(t))
    ensures EndsRed(t, k) <==> Repaints(t, k) || RedResult(t, k)
    decreases Size(t), 1
  {
    RemoveItDone(t, h, k, AsWritten);
    if k < t.key {
      if t.left.Node? { EndsRedLeft(t, h, k); } else { NoOnlyRight(t, h); }
    } else if StepRight(t).right.Leaf? {
      RightEnd(t, h, k);
    } else {
      EndsRedRight(t, h, k);
    }
  }

  lemma {:induction false} EndsRedLeft(t: Tree, h: nat, k: Key)
    requires Ready(t, h) && Sorted(Items(t)) && k < t.key && t.left.Node?
    ensures EndsRed(t, k) <==> Repaints(t, k) || RedResult(t, k)
    decreases Size(t), 0
  {
    LeftEnterable(t, h);
    LeftSibling(t, h);
    PreparationKeeps(t);
    var p, g := PrepareLeft(t).tree, LeftHeight(t, h);
    PartsSorted(t, p);
    EndsRedIsResult(p.left, g, k);
    if !EndsRed(p.left, k) {
      RemoveItDone(p.left, g, k, AsWritten);
      LeftUnfolds(t, p, k, AsWritten);
      var l := Recoloured(RemoveIt(p.left, k, AsWritten), AsWritten).tree;
      assert p.(left := l) == p.(left := l, right := p.right);
      BalanceKeepsColour(p, l, p.right, g);
    }
  }

  lemma {:induction false} EndsRedRight(t: Tree, h: nat, k: Key)
    requires Enterable(t, h, k) && Sorted(Items(t)) && k >= t.key && StepRight(t).right.Node?
    ensures EndsRed(t, k) <==> Repaints(t, k) || RedResult(t, k)
    decreases Size(t), 0
  {
    RightEnterable(t, h, k);
    RightSibling(t, h, k);
    StepRightKeeps(t);
    var p, g := PrepareRight(StepRight(t)).tree, RightHeight(t, h);
    PartsSorted(t, p);
    if k == p.key {
      EndsRedFound(t, h, k);
    } else {
      EndsRedIsResult(p.right, g, k);
      if !EndsRed(p.right, k) {
        RemoveItDone(p.right, g, k, AsWritten);
        RightUnfolds(t, p, k, AsWritten);
        var r := Recoloured(RemoveIt(p.right, k, AsWritten), AsWritten).tree;
        assert p.(right := r) == p.(left := p.left, right := r);
        BalanceKeepsColour(p, p.left, r, g);
      }
    }
  }

  lemma EndsRedFound(t: Tree, h: nat, k: Key)
    requires Enterable(t, h, k) && Sorted(Items(t)) && k >= t.key && StepRight(t).right.Node?
    requires PrepareRight(StepRight(t)).Done? && PrepareRight(StepRight(t)).tree.key == k
    ensures EndsRed(t, k) <==> Repaints(t, k) || RedResult(t, k)
  {
    RightEnterable(t, h, k);
    RightSibling(t, h, k);
    var p, g := PrepareRight(StepRight(t)).tree, RightHeight(t, h);
    StaysRedIsResult(p.right, g);
    RemoveMinShape(p.right, g);
    RightUnfolds(t, p, k, AsWritten);
    var m, r := Min(p.right), RemoveMin(p.right).tree;
    var q := p.(key := m.key, value := m.value);
    assert q.(right := r) == q.(left := p.left, right := r);
    if IsRed(p) {
      RedChildrenRight(t, h, k);
      BalanceKeepsColour(q, p.left, r, g);
    } else {
      BalanceBetweenReds(q, p.left, r, g);
    }
  }

  /** So the repaints of a deletion can be told beforehand. */
  lemma MeetsRedIsRepaint(t: Tree, h: nat, k: Key)
    requires Enterable(t, h, k) && Sorted(Items(t))
    ensures MeetsRed(t, k) <==> Repaints(t, k)
  {
    if k < t.key && t.left.Node? {
      LeftEnterable(t, h);
      PreparationKeeps(t);
      PartsSorted(t, PrepareLeft(t).tree);
      EndsRedIsResult(PrepareLeft(t).tree.left, LeftHeight(t, h), k);
    } else if k >= t.key && StepRight(t).right.Node? {
      RightEnterable(t, h, k);
      StepRightKeeps(t);
      var p := PrepareRight(StepRight(t)).tree;
      PartsSorted(t, p);
      if k != p.key { EndsRedIsResult(p.right, RightHeight(t, h), k); }
    }
  }

  // ---------- the exact condition ----------

  lemma RepaintsIgnoresRoot(t: Tree, k: Key, c: Color)
    ensures Repaints(t, k) <==> Repaints(Paint(t, c), k)
    ensures MeetsRed(t, k) <==> MeetsRed(Paint(t, c), k)
  {
    var u := Paint(t, c);
    if t.Node? {
      PrepareBlind(t, u);
      PrepareBlind(StepRight(t), StepRight(u));
    }
  }

  /** In a valid tree. */
  lemma ValidMeetsRed(t: Tree, k: Key)
    requires Valid(t)
    ensures MeetsRed(t, k) <==> Repaints(t, k)
  {
    if t.Node? {
      var u, h := RootEnterable(t);
      RepaintsIgnoresRoot(t, k, u.color);
      MeetsRedIsRepaint(u, h, k);
    }
  }

  /** One rb_delete as written leaves a valid tree exactly when its descent meets no subtree that comes back red. */
  lemma AsWrittenKeepsValidIff(t: Tree, k: Key)
    requires Valid(t)
    ensures Delete(t, k, AsWritten).Done?
    ensures Valid(Delete(t, k, AsWritten).tree) <==> !MeetsRed(t, k)
    ensures !MeetsRed(t, k) ==> Delete(t, k, AsWritten) == Delete(t, k, Intended)
  {
    ValidMeetsRed(t, k);
    DeleteIsMapDelete(t, k, AsWritten);
    DeleteKeepsValid(t, k);
    if !Repaints(t, k) {
      SameUnlessRepainted(t, k);
    } else {
      var u, h := RootEnterable(t);
      RepaintsIgnoresRoot(t, k, u.color);
      RootColourIsIrrelevant(t, k, AsWritten, u.color);
      RepaintUnbalances(u, h, k);
      PaintedUneven(RemoveIt(u, k, AsWritten).tree, h);
    }
  }

  // ---------- keys that are not there ----------

  lemma {:induction false} AbsentReturnsRed(t: Tree, h: nat, k: Key)
    requires Enterable(t, h, k) && Sorted(Items(t)) && k !in Model(t)
    ensures Repaints(t, k) || RedResult(t, k)
    decreases Size(t)
  {
    WhereIsKey(t, k);
    if k < t.key {
      if t.left.Node? {
        LeftEnterable(t, h);
        PreparationKeeps(t);
        PreparedKeyBelow(t);
        var p := PrepareLeft(t).tree;
        PartsSorted(t, p);
        WhereIsKey(p, k);
        AbsentReturnsRed(p.left, LeftHeight(t, h), k);
      } else {
        NoOnlyRight(t, h);
      }
    } else if StepRight(t).right.Leaf? {
      RightEnd(t, h, k);
    } else {
      RightEnterable(t, h, k);
      StepRightKeeps(t);
      var p := PrepareRight(StepRight(t)).tree;
      PartsSorted(t, p);
      WhereIsKey(p, k);
      AbsentReturnsRed(p.right, RightHeight(t, h), k);
    }
  }

  /** As written, deleting a key that is not there keeps a valid tree valid exactly when it has at most one key. */
  lemma AsWrittenAbsentKeyIff(t: Tree, k: Key)
    requires Valid(t) && k !in Model(t)
    ensures Delete(t, k, AsWritten).Done?
    ensures Valid(Delete(t, k, AsWritten).tree) <==> |Model(t)| <= 1
  {
    AsWrittenKeepsValidIff(t, k);
    ValidMeetsRed(t, k);
    SizeIsCount(t);
    if t.Node? {
      var u, h := RootEnterable(t);
      RepaintsIgnoresRoot(t, k, u.color);
      AbsentAtRoot(u, h, k);
    }
  }

  lemma AbsentAtRoot(t: Tree, h: nat, k: Key)
    requires Ready(t, h) && Sorted(Items(t)) && k !in Model(t)
    ensures Repaints(t, k) <==> Size(t) > 1
  {
    NoOnlyRight(t, h);
    WhereIsKey(t, k);
    if k < t.key && t.left.Node? {
      LeftEnterable(t, h);
      PreparationKeeps(t);
      PreparedKeyBelow(t);
      var p := PrepareLeft(t).tree;
      PartsSorted(t, p);
      WhereIsKey(p, k);
      AbsentReturnsRed(p.left, LeftHeight(t, h), k);
    } else if k > t.key && StepRight(t).right.Node? {
      RightEnterable(t, h, k);
      StepRightKeeps(t);
      var p := PrepareRight(StepRight(t)).tree;
      PartsSorted(t, p);
      WhereIsKey(p, k);
      AbsentReturnsRed(p.right, RightHeight(t, h), k);
    }
  }
}
