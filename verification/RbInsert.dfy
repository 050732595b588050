/**
 Insertion in the left-leaning red-black tree: it keeps every invariant, and a
 tree with n keys is at most 2 * log2(n + 1) nodes deep.
 */
module RbInsert {
  import opened Arithmetic
  import opened RbTree
  import opened RbContents
  import opened RbDelete

  /** What insert_this returns for a tree of black height h: a red node may come back with a red left child. */
  ghost predicate Inserted(r: Tree, t: Tree, h: nat) {
    if IsRed(t) then IsRed(r) && !IsRed(r.right) && Ok(r.left, h) && Ok(r.right, h) else Ok(r, h)
  }

  lemma {:induction false} InsertShape(t: Tree, h: nat, k: Key, v: Value, made: RBNode)
    requires Ok(t, h)
    ensures Inserted(InsertThis(t, k, v, made), t, h)
  {
    if t.Node? {
      var g := if IsRed(t) then h else h - 1;
      if k < t.key {
        InsertShape(t.left, g, k, v, made);
        FixupShape(t, t.(left := InsertThis(t.left, k, v, made)), h);
      } else if k > t.key {
        InsertShape(t.right, g, k, v, made);
        FixupShape(t, t.(right := InsertThis(t.right, k, v, made)), h);
      } else {
        FixupShape(t, t.(value := v), h);
      }
    }
  }

  /** The repairs of one level, given that one child of `t` went through an insertion and the other did not. */
  lemma FixupShape(t: Tree, u: Tree, h: nat)
    requires t.Node? && Ok(t, h) && u.Node? && u.color == t.color
    requires
      var g := if IsRed(t) then h else h - 1;
      || (u.left == t.left && Inserted(u.right, t.right, g))
      || (u.right == t.right && Inserted(u.left, t.left, g))
    ensures Inserted(InsertFixup(u), t, h)
  {
    if IsRed(u.right) && !IsRed(u.left) {
      var v := RotateLeft(u);
      assert v.left == u.(color := Red, right := u.right.left);
    } else if IsRed(u.left) && IsRed(u.left.left) {
      var w := RotateRight(u);
      assert w.right == u.(color := Red, left := u.left.right);
      assert IsRed(w.left) && IsRed(w.right);
      assert InsertFixup(u) == Flip(w);
      assert Ok(Flip(w).left, h) && Ok(Flip(w).right, h);
    } else if IsRed(u.left) && IsRed(u.right) {
      assert Ok(Flip(u).left, h) && Ok(Flip(u).right, h);
    }
  }

  /** rb_insert keeps the tree ordered, left-leaning and balanced, and updates the map at exactly one key. */
  lemma InsertKeepsValid(t: Tree, k: Key, v: Value, made: RBNode)
    requires Valid(t)
    ensures Valid(Insert(t, k, v, made))
    ensures Model(Insert(t, k, v, made)) == Model(t)[k := v]
    ensures Objects(Insert(t, k, v, made)) == Objects(t) + Linked(t, k, made)
  {
    var r := InsertThis(t, k, v, made);
    OkIsShape(t, Bh(t));
    InsertShape(t, Bh(t), k, v, made);
    BlackenedIsShaped(r, Bh(t));
    PaintKeeps(r, Black);
    InsertItems(t, k, v, made);
    InsertObjects(t, k, v, made);
    PutSorted(Items(t), k, v);
    MapPut(Items(t), k, v);
  }

  // ---------- depth ----------

  ghost function Height(t: Tree): nat {
    match t
    case Leaf => 0
    case Node(_, _, _, _, l, r) => 1 + if Height(l) > Height(r) then Height(l) else Height(r)
  }

  lemma {:induction false} DepthByBlackHeight(t: Tree, h: nat)
    requires Ok(t, h)
    ensures Height(t) <= 2 * h + if IsRed(t) then 1 else 0
    ensures Pow2(h) <= Size(t) + 1
  {
    Pow2Step(h);
    if t.Node? {
      var g := if IsRed(t) then h else h - 1;
      DepthByBlackHeight(t.left, g);
      DepthByBlackHeight(t.right, g);
    }
  }

  lemma {:induction false} SizeIsCount(t: Tree)
    requires Sorted(Items(t))
    ensures Size(t) == |Items(t)| == |Model(t)|
  {
    if t.Node? {
      var a, x, b := Items(t.left), (t.key, t.value), Items(t.right);
      SortedSplit(a, x, b);
      ToMapSplit(a, x, b);
      SizeIsCount(t.left);
      SizeIsCount(t.right);
      assert Model(t).Keys == Model(t.left).Keys + {x.0} + Model(t.right).Keys;
    }
  }

  lemma ValidBounds(t: Tree)
    requires Valid(t)
    ensures Height(t) <= 2 * Bh(t) && Pow2(Bh(t)) <= |Model(t)| + 1
  {
    OkIsShape(t, Bh(t));
    DepthByBlackHeight(t, Bh(t));
    SizeIsCount(t);
  }

  /** A valid tree with n keys has height h with 2^(h/2) <= n + 1, and half of an odd h counts whole. */
  lemma HeightIsLogarithmic(t: Tree)
    requires Valid(t)
    ensures Pow2((Height(t) + 1) / 2) <= |Model(t)| + 1
  {
    ValidBounds(t);
    hide Valid, Height, Model, Bh;
    Pow2Grows((Height(t) + 1) / 2, Bh(t));
  }
}
