/**
 Deletion in the left-leaning red-black tree: the shape that the descent keeps,
 what it does to the items, and where the code as written departs from the
 algorithm it implements.
 */
module RbDelete {
  import opened RbTree
  import opened RbContents

  // ---------- the descent ----------

  /** Shape and black height in one: left-leaning, no red chain, `h` black nodes on every path. */
  ghost predicate Ok(t: Tree, h: nat) {
    match t
    case Leaf => h == 0
    case Node(_, Red, _, _, l, r) => !IsRed(l) && !IsRed(r) && Ok(l, h) && Ok(r, h)
    case Node(_, Black, _, _, l, r) => !IsRed(r) && h > 0 && Ok(l, h - 1) && Ok(r, h - 1)
  }

  lemma {:induction false} OkIsShape(t: Tree, h: nat)
    ensures Ok(t, h) <==> Shape(t) && Bh(t) == h
  {
    if t.Node? {
      var below := if t.color.Red? then h else h - 1;
      if below >= 0 {
        OkIsShape(t.left, below);
        OkIsShape(t.right, below);
      }
    }
  }

  /** What the descent makes sure of before it enters a subtree. */
  ghost predicate Ready(t: Tree, h: nat) {
    t.Node? && Ok(t, h) && (IsRed(t) || IsRed(t.left))
  }

  /** The one other tree that is entered: move_red_to_right leaves it on the right when it rotates. */
  ghost predicate RightReady(t: Tree, h: nat) {
    t.Node? && t.color.Black? && h > 0 && Ok(t.left, h - 1) && Ok(t.right, h - 1) && !IsRed(t.left) && IsRed(t.right)
  }

  ghost predicate Enterable(t: Tree, h: nat, k: Key) {
    Ready(t, h) || (RightReady(t, h) && k >= t.key)
  }

  /** `r` may stand where `t` stood: same black height, and red only if `t` was. */
  ghost predicate Replaces(r: Tree, t: Tree, h: nat) {
    Ok(r, h) && (IsRed(r) ==> IsRed(t))
  }

  /** The black height of the subtree that the left descent enters. */
  ghost function LeftHeight(t: Tree, h: nat): nat
    requires t.Node? && t.left.Node? && h > 0
  {
    if IsRed(t.left) then h - 1
    else if IsRed(t.left.left) || (t.right.Node? && IsRed(t.right.left)) then h
    else h - 1
  }

  /** The black height of the subtree that the right descent enters. */
  ghost function RightHeight(t: Tree, h: nat): nat
    requires t.Node? && h > 0
  {
    if IsRed(t.left) || IsRed(t.right) then h - 1
    else if (t.right.Node? && IsRed(t.right.left)) || (t.left.Node? && IsRed(t.left.left)) then h
    else h - 1
  }

  /** A black node on a path with black nodes left to cross has a black or red node beside it, never a missing one. */
  lemma SiblingExists(t: Tree, u: Tree, h: nat)
    requires Ok(t, h) && Ok(u, h) && t.Node? && !IsRed(t)
    ensures u.Node?
  {
  }

  /** The left descent finds the children it flips, and enters a tree that is ready. */
  lemma LeftEnterable(t: Tree, h: nat)
    requires Ready(t, h) && t.left.Node?
    ensures h > 0 && PrepareLeft(t).Done? && Ready(PrepareLeft(t).tree.left, LeftHeight(t, h))
  {
    assert IsRed(t) ==> Ok(t.left, h);
    if !IsRed(t.left) && !IsRed(t.left.left) {
      SiblingExists(t.left, t.right, h);
      var f := Flip(t);
      assert Ok(f.left, h - 1);
      if IsRed(t.right.left) {
        assert Ok(t.right, h) && Ok(t.right.left, h - 1);
        assert Ok(t.right.left.left, h - 1);
        assert MoveRedToLeft(t).left == f.(right := t.right.left.left, color := Black);
      }
    }
  }

  /** rb_balance on the way back from the left. */
  lemma LeftRejoins(t: Tree, h: nat, l: Tree)
    requires Ready(t, h) && t.left.Node? && h > 0 && PrepareLeft(t).Done?
    requires Replaces(l, PrepareLeft(t).tree.left, LeftHeight(t, h))
    ensures Replaces(Balance(PrepareLeft(t).tree.(left := l)), t, h)
  {
    if !IsRed(t.left) && !IsRed(t.left.left) {
      SiblingExists(t.left, t.right, h);
      var f := Flip(t);
      if IsRed(t.right.left) {
        assert Ok(t.right, h) && Ok(t.right.left, h - 1);
        assert Ok(t.right.left.right, h - 1);
        assert Ok(MoveRedToLeft(t).right, h);
      } else {
        assert Ok(f.right, h - 1);
        RedRightBalances(f.(left := l), h);
      }
    }
  }

  /** rb_balance turns a black node with a red right child, and possibly a red left one, into a well shaped tree. */
  lemma RedRightBalances(u: Tree, h: nat)
    requires u.Node? && u.color.Black? && h > 0 && Ok(u.left, h - 1) && Ok(u.right, h - 1)
    ensures Ok(Balance(u), h)
    ensures IsRed(Balance(u)) ==> IsRed(u.left) && IsRed(u.right)
  {
    if IsRed(u.right) {
      var v := RotateLeft(u);
      assert v.left == u.(color := Red, right := u.right.left);
      assert Ok(v.right, h - 1);
      if IsRed(u.left) {
        assert RotateRight(v) == u;
        assert Balance(u) == Flip(u);
      } else {
        assert Ok(v.left, h - 1);
        assert Balance(u) == v;
      }
    }
  }

  lemma LeftKeyBelow(t: Tree)
    requires t.Node? && Sorted(Items(t))
    ensures t.left.Node? ==> t.left.key < t.key
    ensures t.right.Node? ==> t.key < t.right.key
  {
    SortedSplit(Items(t.left), (t.key, t.value), Items(t.right));
    if t.left.Node? { assert Items(t.left)[|Items(t.left.left)|].0 == t.left.key; }
    if t.right.Node? { assert Items(t.right)[|Items(t.right.left)|].0 == t.right.key; }
  }

  /** The right descent finds the children it flips, and enters a tree that is enterable for the key. */
  lemma RightEnterable(t: Tree, h: nat, k: Key)
    requires Enterable(t, h, k) && k >= t.key && Sorted(Items(t)) && StepRight(t).right.Node?
    ensures h > 0 && PrepareRight(StepRight(t)).Done?
    ensures var p := PrepareRight(StepRight(t)).tree;
      Enterable(p.right, RightHeight(t, h), k) && k >= p.key && (k == p.key ==> Ready(p.right, RightHeight(t, h)))
  {
    LeftKeyBelow(t);
    assert IsRed(t) ==> Ok(t.right, h);
    if IsRed(t.left) {
      assert Ok(t.left, h - 1);
      assert RotateRight(t).right == t.(color := Red, left := t.left.right);
    } else if !IsRed(t.right) && !IsRed(t.right.left) {
      SiblingExists(t.right, t.left, h);
      var f := Flip(t);
      assert Ok(f.right, h - 1);
      if IsRed(t.left.left) {
        assert MoveRedToRight(t).right == f.(left := t.left.right);
      }
    }
  }

  /** rb_balance on the way back from the right, whatever key and value the node was given. */
  lemma RightRejoins(t: Tree, h: nat, k: Key, r: Tree, k': Key, v': Value)
    requires Enterable(t, h, k) && StepRight(t).right.Node? && h > 0 && PrepareRight(StepRight(t)).Done?
    requires Replaces(r, PrepareRight(StepRight(t)).tree.right, RightHeight(t, h))
    ensures Replaces(Balance(PrepareRight(StepRight(t)).tree.(key := k', value := v', right := r)), t, h)
  {
    var u := PrepareRight(StepRight(t)).tree.(key := k', value := v', right := r);
    if IsRed(t.left) {
      assert Ok(t.left, h - 1);
      RedRightBalances(u, h);
    } else if IsRed(t.right) {
      RedRightBalances(u, h);
    } else if !IsRed(t.right.left) {
      SiblingExists(t.right, t.left, h);
      if IsRed(t.left.left) {
        assert Ok(t.left.left, h - 1);
        assert u.left == t.left.left.(color := Black) && Ok(u.left, h);
      } else {
        assert Ok(Flip(t).left, h - 1);
        RedRightBalances(u, h);
      }
    }
  }

  // ---------- remove_min ----------

  /** A red node without a left child has no child at all. */
  lemma NoOnlyRight(t: Tree, h: nat)
    requires Ready(t, h)
    ensures t.left.Leaf? ==> t.right.Leaf?
    ensures !IsRed(t.left) && t.right.Leaf? ==> t.left.Leaf?
  {
    if t.left.Leaf? && t.right.Node? { SiblingExists(t.right, t.left, h); }
    if !IsRed(t.left) && t.right.Leaf? && t.left.Node? { SiblingExists(t.left, t.right, h); }
  }

  lemma {:induction false} RemoveMinShape(t: Tree, h: nat)
    requires Ready(t, h)
    ensures RemoveMin(t).Done? && Replaces(RemoveMin(t).tree, t, h)
    decreases Size(t)
  {
    NoOnlyRight(t, h);
    if t.left.Node? {
      LeftEnterable(t, h);
      var p := PrepareLeft(t).tree;
      RemoveMinShape(p.left, LeftHeight(t, h));
      LeftRejoins(t, h, RemoveMin(p.left).tree);
    }
  }

  /** The contents of a node whose left subtree was replaced on the way back. */
  lemma LeftContents(t: Tree, l: Tree)
    requires t.Node? && t.left.Node? && PrepareLeft(t).Done?
    ensures var p := PrepareLeft(t).tree; var b := Balance(p.(left := l));
      && Items(t) == Items(p.left) + [(p.key, p.value)] + Items(p.right)
      && Items(b) == Items(l) + [(p.key, p.value)] + Items(p.right)
      && Objects(t) == multiset{p.at} + Objects(p.left) + Objects(p.right)
      && Objects(b) == multiset{p.at} + Objects(l) + Objects(p.right)
  {
    var p := PrepareLeft(t).tree;
    PreparationKeeps(t);
    BalanceKeeps(p.(left := l));
  }

  /** remove_min takes away the first item and no other. */
  lemma {:induction false} RemoveMinItems(t: Tree, h: nat)
    requires Ready(t, h) && RemoveMin(t).Done?
    ensures Items(t) == [(Min(t).key, Min(t).value)] + Items(RemoveMin(t).tree)
    decreases Size(t)
  {
    NoOnlyRight(t, h);
    if t.left.Node? {
      LeftEnterable(t, h);
      var p := PrepareLeft(t).tree;
      var o := RemoveMin(p.left);
      RemoveMinItems(p.left, LeftHeight(t, h));
      MinOfPrepared(t);
      LeftContents(t, o.tree);
      JoinItems([(Min(t).key, Min(t).value)], Items(o.tree), [(p.key, p.value)], Items(p.right));
    }
  }

  lemma JoinItems(a: KeyValues, b: KeyValues, c: KeyValues, d: KeyValues)
    ensures (a + b) + c + d == a + (b + c + d)
  {
  }

  /** remove_min frees one node, and every other one stays linked. */
  lemma {:induction false} RemoveMinObjects(t: Tree, h: nat)
    requires Ready(t, h) && RemoveMin(t).Done?
    ensures |RemoveMin(t).freed| == 1
    ensures Objects(t) == Objects(RemoveMin(t).tree) + multiset(RemoveMin(t).freed)
    decreases Size(t)
  {
    NoOnlyRight(t, h);
    if t.left.Node? {
      LeftEnterable(t, h);
      var p := PrepareLeft(t).tree;
      var o := RemoveMin(p.left);
      RemoveMinObjects(p.left, LeftHeight(t, h));
      LeftContents(t, o.tree);
      JoinObjects(multiset{p.at}, Objects(o.tree), Objects(p.right), multiset(o.freed));
    }
  }

  /** The first item is the one that min finds, however the tree was rearranged. */
  lemma {:induction false} MinIsFirst(t: Tree)
    requires t.Node?
    ensures |Items(t)| > 0 && Items(t)[0] == (Min(t).key, Min(t).value)
  {
    if t.left.Node? { MinIsFirst(t.left); }
  }

  lemma MinOfPrepared(t: Tree)
    requires t.Node? && t.left.Node? && PrepareLeft(t).Done?
    ensures var p := PrepareLeft(t).tree;
      Min(p.left).key == Min(t).key && Min(p.left).value == Min(t).value
  {
    var p := PrepareLeft(t).tree;
    PreparationKeeps(t);
    MinIsFirst(t);
    MinIsFirst(p);
    assert Min(p) == Min(p.left);
  }

  // ---------- remove_it ----------

  lemma PartsSorted(t: Tree, p: Tree)
    requires t.Node? && p.Node? && SameContents(p, t) && Sorted(Items(t))
    ensures Sorted(Items(p)) && Sorted(Items(p.left)) && Sorted(Items(p.right))
  {
    SortedSplit(Items(p.left), (p.key, p.value), Items(p.right));
  }

  lemma StepRightKeeps(t: Tree)
    requires t.Node? && StepRight(t).right.Node? && PrepareRight(StepRight(t)).Done?
    ensures SameContents(PrepareRight(StepRight(t)).tree, t)
  {
    PreparationKeeps(t);
    PreparationKeeps(StepRight(t));
  }

  /** remove_it never reads through a null pointer, in either form. */
  lemma {:induction false} RemoveItDone(t: Tree, h: nat, k: Key, mode: Mode)
    requires Enterable(t, h, k) && Sorted(Items(t))
    ensures RemoveIt(t, k, mode).Done?
    decreases Size(t)
  {
    if k < t.key {
      if t.left.Node? {
        LeftEnterable(t, h);
        var p := PrepareLeft(t).tree;
        PreparationKeeps(t);
        PartsSorted(t, p);
        RemoveItDone(p.left, LeftHeight(t, h), k, mode);
      }
    } else if StepRight(t).right.Node? {
      RightEnterable(t, h, k);
      StepRightKeeps(t);
      var p := PrepareRight(StepRight(t)).tree;
      PartsSorted(t, p);
      if k == p.key {
        RemoveMinShape(p.right, RightHeight(t, h));
      } else {
        RemoveItDone(p.right, RightHeight(t, h), k, mode);
      }
    }
  }

  /** The right descent stops only at a red node without children. */
  lemma RightEnd(t: Tree, h: nat, k: Key)
    requires Enterable(t, h, k) && k >= t.key && StepRight(t).right.Leaf?
    ensures StepRight(t) == t && t.left.Leaf? && t.right.Leaf? && IsRed(t) && Balance(t) == t
  {
    NoOnlyRight(t, h);
  }

  /** In the intended form the removal keeps the black height and leaves no red chain. */
  lemma {:induction false} RemoveItShape(t: Tree, h: nat, k: Key)
    requires Enterable(t, h, k) && Sorted(Items(t))
    ensures RemoveIt(t, k, Intended).Done? && Replaces(RemoveIt(t, k, Intended).tree, t, h)
    decreases Size(t)
  {
    RemoveItDone(t, h, k, Intended);
    if k < t.key {
      if t.left.Node? {
        LeftEnterable(t, h);
        var p := PrepareLeft(t).tree;
        PreparationKeeps(t);
        PartsSorted(t, p);
        RemoveItShape(p.left, LeftHeight(t, h), k);
        LeftRejoins(t, h, RemoveIt(p.left, k, Intended).tree);
      } else {
        NoOnlyRight(t, h);
      }
    } else if StepRight(t).right.Leaf? {
      RightEnd(t, h, k);
    } else {
      RemoveItShapeRight(t, h, k);
    }
  }

  lemma {:induction false} RemoveItShapeRight(t: Tree, h: nat, k: Key)
    requires Enterable(t, h, k) && Sorted(Items(t)) && k >= t.key && StepRight(t).right.Node?
    requires RemoveIt(t, k, Intended).Done?
    ensures Replaces(RemoveIt(t, k, Intended).tree, t, h)
    decreases Size(t), 0
  {
    RightEnterable(t, h, k);
    StepRightKeeps(t);
    var p := PrepareRight(StepRight(t)).tree;
    PartsSorted(t, p);
    if k == p.key {
      var m := Min(p.right);
      RemoveMinShape(p.right, RightHeight(t, h));
      RightRejoins(t, h, k, RemoveMin(p.right).tree, m.key, m.value);
    } else {
      RemoveItShape(p.right, RightHeight(t, h), k);
      RightRejoins(t, h, k, RemoveIt(p.right, k, Intended).tree, p.key, p.value);
    }
  }

  /** The contents of a node whose key, value and right subtree were replaced on the way back. */
  lemma RightContents(p: Tree, k: Key, v: Value, r: Tree)
    requires p.Node?
    ensures var b := Balance(p.(key := k, value := v, right := r));
      && Items(b) == Items(p.left) + [(k, v)] + Items(r)
      && Objects(b) == multiset{p.at} + Objects(p.left) + Objects(r)
  {
    var u := p.(key := k, value := v, right := r);
    BalanceKeeps(u);
  }

  lemma PaintKeeps(t: Tree, c: Color)
    ensures SameContents(Paint(t, c), t)
  {
  }

  /** One level of the left descent. */
  lemma LeftLevelItems(t: Tree, k: Key, l: Tree)
    requires t.Node? && t.left.Node? && PrepareLeft(t).Done? && Sorted(Items(t)) && k < t.key
    requires Items(l) == Without(Items(PrepareLeft(t).tree.left), k)
    ensures Items(Balance(PrepareLeft(t).tree.(left := l))) == Without(Items(t), k)
  {
    var p := PrepareLeft(t).tree;
    LeftContents(t, l);
    PreparedKeyBelow(t);
    PreparationKeeps(t);
    WithoutSplit(Items(p.left), (p.key, p.value), Items(p.right), k);
  }

  /** One level of the right descent, when it goes on. */
  lemma RightLevelItems(p: Tree, k: Key, r: Tree)
    requires p.Node? && Sorted(Items(p)) && k > p.key
    requires Items(r) == Without(Items(p.right), k)
    ensures Items(Balance(p.(right := r))) == Without(Items(p), k)
  {
    WithoutSplit(Items(p.left), (p.key, p.value), Items(p.right), k);
    RightContents(p, p.key, p.value, r);
    assert p.(key := p.key, value := p.value, right := r) == p.(right := r);
  }

  /** The level at which the key is found: the next larger item takes its place. */
  lemma FoundLevelItems(p: Tree, m: (Key, Value), r: Tree)
    requires p.Node? && Sorted(Items(p)) && Items(p.right) == [m] + Items(r)
    ensures Items(Balance(p.(key := m.0, value := m.1, right := r))) == Without(Items(p), p.key)
  {
    RightContents(p, m.0, m.1, r);
    WithoutMiddle(Items(p.left), (p.key, p.value), m, Items(r));
  }

  lemma WithoutMiddle(a: KeyValues, x: (Key, Value), m: (Key, Value), b: KeyValues)
    requires Sorted(a + [x] + ([m] + b))
    ensures Without(a + [x] + ([m] + b), x.0) == a + [m] + b
  {
    var c := [m] + b;
    WithoutSplit(a, x, c, x.0);
    assert a + c == a + [m] + b;
  }

  /** Removing takes away exactly the items with the key, in either form. */
  lemma {:induction false} RemoveItItems(t: Tree, h: nat, k: Key, mode: Mode)
    requires Enterable(t, h, k) && Sorted(Items(t)) && RemoveIt(t, k, mode).Done?
    ensures Items(RemoveIt(t, k, mode).tree) == Without(Items(t), k)
    decreases Size(t)
  {
    if t.left.Leaf? && k < t.key {
      RemoveItStopsLeft(t, h, k, mode);
    } else if k < t.key {
      LeftEnterable(t, h);
      var p := PrepareLeft(t).tree;
      PreparationKeeps(t);
      PartsSorted(t, p);
      var o := RemoveIt(p.left, k, mode);
      RemoveItItems(p.left, LeftHeight(t, h), k, mode);
      PaintKeeps(o.tree, Black);
      LeftLevelItems(t, k, Recoloured(o, mode).tree);
    } else if StepRight(t).right.Leaf? {
      RemoveItStopsRight(t, h, k, mode);
    } else {
      RightEnterable(t, h, k);
      StepRightKeeps(t);
      var p := PrepareRight(StepRight(t)).tree;
      PartsSorted(t, p);
      if k == p.key {
        var m := Min(p.right);
        RemoveMinItems(p.right, RightHeight(t, h));
        FoundLevelItems(p, (m.key, m.value), RemoveMin(p.right).tree);
      } else {
        var o := RemoveIt(p.right, k, mode);
        RemoveItItems(p.right, RightHeight(t, h), k, mode);
        PaintKeeps(o.tree, Black);
        RightLevelItems(p, k, Recoloured(o, mode).tree);
      }
    }
  }

  lemma RemoveItStopsLeft(t: Tree, h: nat, k: Key, mode: Mode)
    requires Enterable(t, h, k) && Sorted(Items(t)) && k < t.key && t.left.Leaf?
    ensures RemoveIt(t, k, mode) == Done(Balance(t), [])
    ensures Items(Balance(t)) == Without(Items(t), k)
  {
    BalanceKeeps(t);
    WithoutSplit(Items(t.left), (t.key, t.value), Items(t.right), k);
  }

  lemma RemoveItStopsRight(t: Tree, h: nat, k: Key, mode: Mode)
    requires Enterable(t, h, k) && Sorted(Items(t)) && k >= t.key && StepRight(t).right.Leaf?
    ensures RemoveIt(t, k, mode) == if k == t.key then Done(Leaf, [t.at]) else Done(t, [])
    ensures Items(RemoveIt(t, k, mode).tree) == Without(Items(t), k)
  {
    RightEnd(t, h, k);
    WithoutSplit([], (t.key, t.value), [], k);
  }

  /** After the left preparation the node's key is not below what it was. */
  lemma PreparedKeyBelow(t: Tree)
    requires t.Node? && t.left.Node? && PrepareLeft(t).Done? && Sorted(Items(t))
    ensures PrepareLeft(t).tree.key >= t.key
  {
    var p := PrepareLeft(t).tree;
    PreparationKeeps(t);
    PartsSorted(t, p);
    LeftKeyBelow(p);
  }

  /** The items with the key decide whether a node is freed, and every other node stays linked. */
  ghost predicate FreesKey(t: Tree, k: Key, r: Tree, freed: seq<RBNode>) {
    && |freed| == (if k in Model(t) then 1 else 0)
    && Objects(t) == Objects(r) + multiset(freed)
  }

  lemma LeftLevelObjects(t: Tree, k: Key, l: Tree, freed: seq<RBNode>)
    requires t.Node? && t.left.Node? && PrepareLeft(t).Done? && Sorted(Items(t)) && k < t.key
    requires FreesKey(PrepareLeft(t).tree.left, k, l, freed)
    ensures FreesKey(t, k, Balance(PrepareLeft(t).tree.(left := l)), freed)
  {
    var p := PrepareLeft(t).tree;
    LeftContents(t, l);
    PreparedKeyBelow(t);
    PreparationKeeps(t);
    PartsSorted(t, p);
    WhereIsKey(p, k);
    JoinObjects(multiset{p.at}, Objects(l), Objects(p.right), multiset(freed));
  }

  lemma RightLevelObjects(p: Tree, k: Key, r: Tree, freed: seq<RBNode>)
    requires p.Node? && Sorted(Items(p)) && k > p.key && FreesKey(p.right, k, r, freed)
    ensures FreesKey(p, k, Balance(p.(right := r)), freed)
  {
    RightContents(p, p.key, p.value, r);
    assert p.(key := p.key, value := p.value, right := r) == p.(right := r);
    WhereIsKey(p, k);
    JoinObjects(multiset{p.at}, Objects(p.left), Objects(r), multiset(freed));
  }

  lemma FoundLevelObjects(p: Tree, m: (Key, Value), r: Tree, freed: seq<RBNode>)
    requires p.Node? && Sorted(Items(p)) && |freed| == 1
    requires Objects(p.right) == Objects(r) + multiset(freed)
    ensures FreesKey(p, p.key, Balance(p.(key := m.0, value := m.1, right := r)), freed)
  {
    RightContents(p, m.0, m.1, r);
    WhereIsKey(p, p.key);
    JoinObjects(multiset{p.at}, Objects(p.left), Objects(r), multiset(freed));
  }

  lemma SameKeys(t: Tree, p: Tree, k: Key, r: Tree, freed: seq<RBNode>)
    requires SameContents(p, t) && FreesKey(p, k, r, freed)
    ensures FreesKey(t, k, r, freed)
  {
  }

  /** What one level of the right descent returns. */
  lemma RightUnfolds(t: Tree, p: Tree, k: Key, mode: Mode)
    requires t.Node? && k >= t.key && StepRight(t).right.Node? && PrepareRight(StepRight(t)) == Done(p, [])
    ensures k == p.key && RemoveMin(p.right).Done? ==>
      var m := Min(p.right); var o := RemoveMin(p.right);
      RemoveIt(t, k, mode) == Done(Balance(p.(key := m.key, value := m.value, right := o.tree)), o.freed)
    ensures k != p.key && RemoveIt(p.right, k, mode).Done? ==>
      var o := Recoloured(RemoveIt(p.right, k, mode), mode);
      RemoveIt(t, k, mode) == Done(Balance(p.(right := o.tree)), o.freed)
  {
  }

  /** What one level of the left descent returns. */
  lemma LeftUnfolds(t: Tree, p: Tree, k: Key, mode: Mode)
    requires t.Node? && k < t.key && t.left.Node? && PrepareLeft(t) == Done(p, [])
    ensures RemoveIt(p.left, k, mode).Done? ==>
      var o := Recoloured(RemoveIt(p.left, k, mode), mode);
      RemoveIt(t, k, mode) == Done(Balance(p.(left := o.tree)), o.freed)
  {
  }

  lemma FreesAfterPaint(t: Tree, k: Key, r: Tree, freed: seq<RBNode>)
    requires FreesKey(t, k, r, freed)
    ensures FreesKey(t, k, Paint(r, Black), freed)
  {
  }

  lemma StopObjects(t: Tree, k: Key, r: Tree)
    requires t.Node? && Sorted(Items(t))
    ensures k < t.key && t.left.Leaf? ==> FreesKey(t, k, Balance(t), [])
    ensures t.left.Leaf? && t.right.Leaf? ==>
      if k == t.key then FreesKey(t, k, Leaf, [t.at]) else FreesKey(t, k, t, [])
  {
    WhereIsKey(t, k);
    BalanceKeeps(t);
  }

  /** Exactly one node is freed when the key is there, none when it is not, and no other node is lost. */
  lemma {:induction false} RemoveItObjects(t: Tree, h: nat, k: Key, mode: Mode) returns (r: Tree, freed: seq<RBNode>)
    requires Enterable(t, h, k) && Sorted(Items(t))
    ensures RemoveIt(t, k, mode) == Done(r, freed) && FreesKey(t, k, r, freed)
    decreases Size(t)
  {
    hide Sorted, FreesKey, SameContents, Objects, Items;
    if t.left.Leaf? && k < t.key {
      r, freed := Balance(t), [];
      StopObjects(t, k, r);
    } else if k < t.key {
      LeftEnterable(t, h);
      var p := PrepareLeft(t).tree;
      PreparationKeeps(t);
      PartsSorted(t, p);
      var l, f := RemoveItObjects(p.left, LeftHeight(t, h), k, mode);
      LeftUnfolds(t, p, k, mode);
      FreesAfterPaint(p.left, k, l, f);
      l := Recoloured(Done(l, f), mode).tree;
      r, freed := Balance(p.(left := l)), f;
      LeftLevelObjects(t, k, l, f);
    } else if StepRight(t).right.Leaf? {
      RightEnd(t, h, k);
      r, freed := if k == t.key then Leaf else t, if k == t.key then [t.at] else [];
      StopObjects(t, k, r);
    } else {
      RightEnterable(t, h, k);
      StepRightKeeps(t);
      var p := PrepareRight(StepRight(t)).tree;
      PartsSorted(t, p);
      RightUnfolds(t, p, k, mode);
      if k == p.key {
        var m, o := Min(p.right), RemoveMin(p.right);
        RemoveMinShape(p.right, RightHeight(t, h));
        RemoveMinObjects(p.right, RightHeight(t, h));
        r, freed := Balance(p.(key := m.key, value := m.value, right := o.tree)), o.freed;
        FoundLevelObjects(p, (m.key, m.value), o.tree, o.freed);
      } else {
        var x, f := RemoveItObjects(p.right, RightHeight(t, h), k, mode);
        FreesAfterPaint(p.right, k, x, f);
        x := Recoloured(Done(x, f), mode).tree;
        r, freed := Balance(p.(right := x)), f;
        RightLevelObjects(p, k, x, f);
      }
      SameKeys(t, p, k, r, freed);
    }
  }

  // ---------- rb_delete ----------

  /** Equal but for the colour of the root. */
  ghost predicate SameBelow(t: Tree, u: Tree) {
    Paint(t, Black) == Paint(u, Black)
  }

  lemma BalanceBlind(t: Tree, u: Tree)
    requires t.Node? && u.Node? && SameBelow(t, u)
    ensures SameBelow(Balance(t), Balance(u))
  {
    assert u == t.(color := u.color);
  }

  lemma PrepareBlind(t: Tree, u: Tree)
    requires t.Node? && u.Node? && SameBelow(t, u)
    ensures t.left.Node? ==>
      match PrepareLeft(t)
      case Fault => PrepareLeft(u) == Fault
      case Done(p, _) => PrepareLeft(u).Done? && SameBelow(p, PrepareLeft(u).tree)
    ensures SameBelow(StepRight(t), StepRight(u))
    ensures t.right.Node? ==>
      match PrepareRight(t)
      case Fault => PrepareRight(u) == Fault
      case Done(p, _) => PrepareRight(u).Done? && SameBelow(p, PrepareRight(u).tree)
  {
    assert u == t.(color := u.color);
  }

  /** The colour of the node that remove_it starts from decides only the colour of the node it returns. */
  lemma RootColourIsIrrelevant(t: Tree, k: Key, mode: Mode, c: Color)
    ensures Delete(t, k, mode) == Delete(Paint(t, c), k, mode)
  {
    var u := Paint(t, c);
    if t.Node? && k < t.key {
      PrepareBlind(t, u);
      if t.left.Leaf? {
        BalanceBlind(t, u);
      } else if PrepareLeft(t).Done? {
        var p, q := PrepareLeft(t).tree, PrepareLeft(u).tree;
        var o := Recoloured(RemoveIt(p.left, k, mode), mode);
        if o.Done? {
          BalanceBlind(p.(left := o.tree), q.(left := o.tree));
        }
      }
    } else if t.Node? {
      PrepareBlind(t, u);
      RootColourRight(t, u, k, mode);
    }
  }

  lemma RootColourRight(t: Tree, u: Tree, k: Key, mode: Mode)
    requires t.Node? && u.Node? && SameBelow(t, u) && k >= t.key
    ensures Delete(t, k, mode) == Delete(u, k, mode)
  {
    PrepareBlind(t, u);
    var s, r := StepRight(t), StepRight(u);
    PrepareBlind(s, r);
    if s.right.Leaf? {
      BalanceBlind(s, r);
    } else if PrepareRight(s).Done? {
      var p, q := PrepareRight(s).tree, PrepareRight(r).tree;
      if k == p.key {
        var o, m := RemoveMin(p.right), Min(p.right);
        if o.Done? {
          BalanceBlind(p.(key := m.key, value := m.value, right := o.tree), q.(key := m.key, value := m.value, right := o.tree));
        }
      } else {
        var o := Recoloured(RemoveIt(p.right, k, mode), mode);
        if o.Done? {
          BalanceBlind(p.(right := o.tree), q.(right := o.tree));
        }
      }
    }
  }

  /** A valid tree can be entered as it stands, or once its root is taken to be red. */
  lemma RootEnterable(t: Tree) returns (u: Tree, h: nat)
    requires Valid(t) && t.Node?
    ensures Ready(u, h) && SameContents(u, t)
    ensures u == Paint(t, Red) || u == t
  {
    OkIsShape(t, Bh(t));
    if IsRed(t.left) {
      u, h := t, Bh(t);
    } else {
      u, h := Paint(t, Red), Bh(t) - 1;
    }
  }

  lemma BlackenedIsShaped(t: Tree, h: nat)
    requires Ok(t, h)
    ensures Shape(Paint(t, Black)) && !IsRed(Paint(t, Black))
  {
    var g := if IsRed(t) then h + 1 else h;
    assert Ok(Paint(t, Black), g);
    OkIsShape(Paint(t, Black), g);
  }

  /** One rb_delete on any valid tree, in either form: it reads no missing child, leaves an ordered tree that
      stands for the old map without the key, frees one node if the key was there and none otherwise. */
  lemma DeleteIsMapDelete(t: Tree, k: Key, mode: Mode)
    requires Valid(t)
    ensures Delete(t, k, mode).Done?
    ensures Sorted(Items(Delete(t, k, mode).tree))
    ensures Model(Delete(t, k, mode).tree) == Model(t) - {k}
    ensures FreesKey(t, k, Delete(t, k, mode).tree, Delete(t, k, mode).freed)
  {
    if t.Node? {
      var u, h := RootEnterable(t);
      RootColourIsIrrelevant(t, k, mode, u.color);
      RemoveItDone(u, h, k, mode);
      RemoveItItems(u, h, k, mode);
      var r, freed := RemoveItObjects(u, h, k, mode);
      var o := RemoveIt(u, k, mode);
      PaintKeeps(o.tree, Black);
      WithoutSorted(Items(t), k);
      MapWithout(Items(t), k);
      SameKeys(t, u, k, o.tree, o.freed);
    }
  }

  /** In the intended form rb_delete keeps every invariant of the tree. */
  lemma DeleteKeepsValid(t: Tree, k: Key)
    requires Valid(t)
    ensures Delete(t, k, Intended).Done? && Valid(Delete(t, k, Intended).tree)
  {
    DeleteIsMapDelete(t, k, Intended);
    if t.Node? {
      var u, h := RootEnterable(t);
      RootColourIsIrrelevant(t, k, Intended, u.color);
      RemoveItShape(u, h, k);
      BlackenedIsShaped(RemoveIt(u, k, Intended).tree, h);
    }
  }
}
