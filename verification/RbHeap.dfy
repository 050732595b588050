/**
 src/rbtree.c on linked nodes: the functions rewrite left, right, color, key and
 value in place. Each method is proved to leave the nodes that the functions of
 module `RbTree` describe.
 */
module RbHeap {
  import opened Arithmetic
  import opened RbTree
  import opened RbContents
  import opened RbDelete
  import opened RbInsert

  ghost function Nodes(t: Tree): set<RBNode> {
    match t
    case Leaf => {}
    case Node(at, _, _, _, l, r) => {at} + Nodes(l) + Nodes(r)
  }

  /** The nodes reachable from `n` are those of `t`, with its links, colours, keys and values, and none is shared. */
  ghost predicate Stored(n: RBNode?, t: Tree)
    reads Nodes(t)
  {
    match t
    case Leaf => n == null
    case Node(at, c, k, v, l, r) =>
      && n == at && at.color == c && at.key == k && at.value == v
      && at !in Nodes(l) && at !in Nodes(r) && Nodes(l) !! Nodes(r)
      && Stored(at.left, l) && Stored(at.right, r)
  }

  /** The objects that a tree value mentions exist. */
  lemma NodesAllocated(t: Tree)
    ensures forall o :: o in Nodes(t) ==> allocated(o)
  {
    if t.Node? {
      NodesAllocated(t.left);
      NodesAllocated(t.right);
    }
  }

  /** is_red */
  predicate RedNode(n: RBNode?)
    reads n
  {
    n != null && n.color == Red
  }

  /** flip_color */
  method FlipColor(n: RBNode, ghost t: Tree)
    requires Stored(n, t) && HasBoth(t)
    modifies Nodes(t)
    ensures Stored(n, Flip(t)) && Nodes(Flip(t)) == Nodes(t)
  {
    n.color := if n.color == Red then Black else Red;
    n.left.color := if n.left.color == Red then Black else Red;
    n.right.color := if n.right.color == Red then Black else Red;
  }

  /** rotate_left */
  method TurnLeft(left: RBNode, ghost t: Tree) returns (right: RBNode)
    requires Stored(left, t) && t.Node? && t.right.Node?
    modifies Nodes(t)
    ensures Stored(right, RotateLeft(t)) && Nodes(RotateLeft(t)) == Nodes(t)
  {
    right := left.right;
    left.right := right.left;
    right.left := left;
    right.color := left.color;
    left.color := Red;
  }

  /** rotate_right */
  method TurnRight(right: RBNode, ghost t: Tree) returns (left: RBNode)
    requires Stored(right, t) && t.Node? && t.left.Node?
    modifies Nodes(t)
    ensures Stored(left, RotateRight(t)) && Nodes(RotateRight(t)) == Nodes(t)
  {
    left := right.left;
    right.left := left.right;
    left.right := right;
    left.color := right.color;
    right.color := Red;
  }

  /** The last two repairs, shared by insert_this and rb_balance. */
  method Settle(n: RBNode, ghost t: Tree) returns (r: RBNode)
    requires Stored(n, t) && t.Node?
    modifies Nodes(t)
    ensures Stored(r, Split(LeanRight(t))) && Nodes(Split(LeanRight(t))) == Nodes(t)
  {
    r := n;
    ghost var u := LeanRight(t);
    assert Stored(r.left, t.left);
    assert t.left.Node? ==> Stored(r.left.left, t.left.left);
    if RedNode(r.left) && RedNode(r.left.left) {
      r := TurnRight(r, t);
    }
    assert Stored(r, u) && Stored(r.left, u.left) && Stored(r.right, u.right);
    if RedNode(r.left) && RedNode(r.right) {
      FlipColor(r, u);
    }
  }

  /** rb_balance */
  method Rebalance(n: RBNode, ghost t: Tree) returns (r: RBNode)
    requires Stored(n, t) && t.Node?
    modifies Nodes(t)
    ensures Stored(r, Balance(t)) && Nodes(Balance(t)) == Nodes(t)
  {
    r := n;
    ghost var u := t;
    assert Stored(r.right, t.right);
    if RedNode(r.right) {
      r := TurnLeft(r, t);
      u := RotateLeft(t);
    }
    r := Settle(r, u);
  }

  /** move_red_to_left */
  method MoveRedLeft(n: RBNode, ghost t: Tree) returns (r: RBNode)
    requires Stored(n, t) && HasBoth(t)
    modifies Nodes(t)
    ensures Stored(r, MoveRedToLeft(t)) && Nodes(MoveRedToLeft(t)) == Nodes(t)
  {
    r := n;
    FlipColor(r, t);
    ghost var f := Flip(t);
    assert Stored(r.left, f.left) && Stored(r.right, f.right) && Stored(r.right.left, f.right.left);
    if RedNode(r.right.left) {
      ghost var u := f.(right := RotateRight(f.right));
      NodesAllocated(f.left);
      var x := TurnRight(r.right, f.right);
      assert Stored(r.left, f.left);
      r.right := x;
      assert Stored(r.left, u.left) && Stored(r.right, u.right);
      r := TurnLeft(r, u);
      FlipColor(r, RotateLeft(u));
    }
  }

  /** move_red_to_right */
  method MoveRedRight(n: RBNode, ghost t: Tree) returns (r: RBNode)
    requires Stored(n, t) && HasBoth(t)
    modifies Nodes(t)
    ensures Stored(r, MoveRedToRight(t)) && Nodes(MoveRedToRight(t)) == Nodes(t)
  {
    r := n;
    FlipColor(r, t);
    ghost var f := Flip(t);
    assert Stored(r.left, f.left) && Stored(r.left.left, f.left.left);
    if RedNode(r.left.left) {
      r := TurnRight(r, f);
      FlipColor(r, RotateRight(f));
    }
  }

  // ---------- insert ----------

  /** insert_this: `made` is the node that create_node returned, if it was called. */
  method InsertAt(n: RBNode?, k: Key, v: Value, ghost t: Tree) returns (r: RBNode, ghost made: RBNode)
    requires Stored(n, t)
    modifies Nodes(t)
    ensures Stored(r, InsertThis(t, k, v, made))
    ensures Nodes(t) <= Nodes(InsertThis(t, k, v, made)) <= Nodes(t) + {made}
    ensures made in Nodes(t) || fresh(made)
    decreases t
  {
    if n == null {
      r := new RBNode(k, v);
      made := r;
      return;
    }
    r, made := n, n;
    ghost var u;
    if k == r.key {
      r.value := v;
      u := t.(value := v);
    } else if k < r.key {
      assert Stored(r.right, t.right);
      NodesAllocated(t.right);
      var x;
      x, made := InsertAt(r.left, k, v, t.left);
      assert Stored(r.right, t.right);
      r.left := x;
      u := t.(left := InsertThis(t.left, k, v, made));
      assert Stored(r.left, u.left) && Stored(r.right, u.right);
    } else {
      assert Stored(r.left, t.left);
      NodesAllocated(t.left);
      var x;
      x, made := InsertAt(r.right, k, v, t.right);
      assert Stored(r.left, t.left);
      r.right := x;
      u := t.(right := InsertThis(t.right, k, v, made));
      assert Stored(r.left, u.left) && Stored(r.right, u.right);
    }
    r := FixInsert(r, u);
  }

  method FixInsert(n: RBNode, ghost t: Tree) returns (r: RBNode)
    requires Stored(n, t) && t.Node?
    modifies Nodes(t)
    ensures Stored(r, InsertFixup(t)) && Nodes(InsertFixup(t)) == Nodes(t)
  {
    r := n;
    ghost var u := t;
    assert Stored(r.left, t.left) && Stored(r.right, t.right);
    if RedNode(r.right) && !RedNode(r.left) {
      r := TurnLeft(r, t);
      u := RotateLeft(t);
    }
    r := Settle(r, u);
  }

  // ---------- delete ----------

  /** The left preparation of remove_min and remove_it. */
  method PrepareLeftAt(n: RBNode, ghost t: Tree) returns (r: RBNode)
    requires Stored(n, t) && t.Node? && t.left.Node? && PrepareLeft(t).Done?
    modifies Nodes(t)
    ensures Stored(r, PrepareLeft(t).tree) && Nodes(PrepareLeft(t).tree) == Nodes(t)
  {
    r := n;
    assert Stored(r.left, t.left) && Stored(r.left.left, t.left.left);
    if !RedNode(r.left) && !RedNode(r.left.left) {
      r := MoveRedLeft(r, t);
    }
  }

  method PrepareRightAt(n: RBNode, ghost t: Tree) returns (r: RBNode)
    requires Stored(n, t) && t.Node? && t.right.Node? && PrepareRight(t).Done?
    modifies Nodes(t)
    ensures Stored(r, PrepareRight(t).tree) && Nodes(PrepareRight(t).tree) == Nodes(t)
  {
    r := n;
    assert Stored(r.right, t.right) && Stored(r.right.left, t.right.left);
    if !RedNode(r.right) && !RedNode(r.right.left) {
      r := MoveRedRight(r, t);
    }
  }

  /** Hang a changed left subtree below `n` and repair. */
  method RejoinLeft(n: RBNode, x: RBNode?, ghost p: Tree, ghost l: Tree) returns (r: RBNode)
    requires p.Node? && n == p.at && n.color == p.color && n.key == p.key && n.value == p.value
    requires Stored(n.right, p.right) && Stored(x, l)
    requires n !in Nodes(p.right) && n !in Nodes(l) && Nodes(l) !! Nodes(p.right)
    modifies {n} + Nodes(p.right) + Nodes(l)
    ensures Stored(r, Balance(p.(left := l)))
    ensures Nodes(Balance(p.(left := l))) == {n} + Nodes(p.right) + Nodes(l)
  {
    n.left := x;
    assert Stored(n.left, l) && Stored(n.right, p.right);
    r := Rebalance(n, p.(left := l));
  }

  method RejoinRight(n: RBNode, x: RBNode?, ghost p: Tree, ghost l: Tree) returns (r: RBNode)
    requires p.Node? && n == p.at && n.color == p.color && n.key == p.key && n.value == p.value
    requires Stored(n.left, p.left) && Stored(x, l)
    requires n !in Nodes(p.left) && n !in Nodes(l) && Nodes(l) !! Nodes(p.left)
    modifies {n} + Nodes(p.left) + Nodes(l)
    ensures Stored(r, Balance(p.(right := l)))
    ensures Nodes(Balance(p.(right := l))) == {n} + Nodes(p.left) + Nodes(l)
  {
    n.right := x;
    assert Stored(n.right, l) && Stored(n.left, p.left);
    r := Rebalance(n, p.(right := l));
  }

  /** remove_min; `freed` is what it passes to kfree. */
  method RemoveMinAt(n: RBNode?, ghost t: Tree) returns (r: RBNode?, ghost freed: seq<RBNode>)
    requires Stored(n, t) && RemoveMin(t).Done?
    modifies Nodes(t)
    ensures RemoveMin(t) == Done(RemoveMin(t).tree, freed) && Stored(r, RemoveMin(t).tree)
    ensures Nodes(RemoveMin(t).tree) <= Nodes(t)
    decreases Size(t)
  {
    if n == null {
      return null, [];
    }
    if n.left == null {
      return null, [n];
    }
    var m := PrepareLeftAt(n, t);
    ghost var p := PrepareLeft(t).tree;
    assert Stored(m.left, p.left) && Stored(m.right, p.right);
    NodesAllocated(p.right);
    var x;
    x, freed := RemoveMinAt(m.left, p.left);
    assert Stored(m.right, p.right);
    r := RejoinLeft(m, x, p, RemoveMin(p.left).tree);
  }

  /** min */
  method MinAt(n: RBNode, ghost t: Tree) returns (m: RBNode)
    requires Stored(n, t) && t.Node?
    ensures m in Nodes(t) && m == Min(t).at && m.key == Min(t).key && m.value == Min(t).value
  {
    m := n;
    ghost var u := t;
    while m.left != null
      invariant u.Node? && Stored(m, u) && Nodes(u) <= Nodes(t) && Min(u) == Min(t)
      decreases u
    {
      m, u := m.left, u.left;
    }
  }

  /** rb_remove_key_node as written, remove_it itself in the intended form. */
  method Repaint(n: RBNode?, ghost t: Tree, mode: Mode)
    requires Stored(n, t)
    modifies Nodes(t)
    ensures Stored(n, if mode.AsWritten? then Paint(t, Black) else t)
    ensures Nodes(Paint(t, Black)) == Nodes(t)
  {
    if mode.AsWritten? && n != null {
      n.color := Black;
    }
  }

  /** remove_it */
  method RemoveAt(n: RBNode?, k: Key, mode: Mode, ghost t: Tree) returns (r: RBNode?, ghost freed: seq<RBNode>)
    requires Stored(n, t) && RemoveIt(t, k, mode).Done?
    modifies Nodes(t)
    ensures RemoveIt(t, k, mode) == Done(RemoveIt(t, k, mode).tree, freed) && Stored(r, RemoveIt(t, k, mode).tree)
    ensures Nodes(RemoveIt(t, k, mode).tree) <= Nodes(t)
    decreases Size(t), 1
  {
    if n == null {
      return null, [];
    }
    if k < n.key {
      assert Stored(n.left, t.left);
      if n.left == null {
        r := Rebalance(n, t);
        freed := [];
      } else {
        r, freed := RemoveLeftAt(n, k, mode, t);
      }
    } else {
      var m := n;
      ghost var s := StepRight(t);
      assert Stored(n.left, t.left);
      if RedNode(n.left) {
        m := TurnRight(n, t);
      }
      assert Nodes(s) == Nodes(t);
      assert Stored(m.right, s.right);
      if k == m.key && m.right == null {
        return null, [m];
      }
      if m.right == null {
        r := Rebalance(m, s);
        freed := [];
      } else {
        r, freed := RemoveRightAt(m, k, mode, t, s);
      }
    }
  }

  method RemoveLeftAt(n: RBNode, k: Key, mode: Mode, ghost t: Tree) returns (r: RBNode?, ghost freed: seq<RBNode>)
    requires Stored(n, t) && t.Node? && t.left.Node? && k < t.key && RemoveIt(t, k, mode).Done?
    modifies Nodes(t)
    ensures RemoveIt(t, k, mode) == Done(RemoveIt(t, k, mode).tree, freed) && Stored(r, RemoveIt(t, k, mode).tree)
    ensures Nodes(RemoveIt(t, k, mode).tree) <= Nodes(t)
    decreases Size(t), 0
  {
    var m := PrepareLeftAt(n, t);
    ghost var p := PrepareLeft(t).tree;
    assert Stored(m.left, p.left) && Stored(m.right, p.right);
    NodesAllocated(p.right);
    var x;
    x, freed := RemoveAt(m.left, k, mode, p.left);
    ghost var l := RemoveIt(p.left, k, mode).tree;
    assert Stored(m.right, p.right);
    Repaint(x, l, mode);
    assert Stored(m.right, p.right);
    r := RejoinLeft(m, x, p, Recoloured(RemoveIt(p.left, k, mode), mode).tree);
  }

  /** The right half of remove_it, once the node was rotated if its left child was red. */
  method RemoveRightAt(n: RBNode, k: Key, mode: Mode, ghost t: Tree, ghost s: Tree)
    returns (r: RBNode?, ghost freed: seq<RBNode>)
    requires t.Node? && k >= t.key && s == StepRight(t) && Stored(n, s) && Nodes(s) == Nodes(t)
    requires s.right.Node? && RemoveIt(t, k, mode).Done?
    modifies Nodes(s)
    ensures RemoveIt(t, k, mode) == Done(RemoveIt(t, k, mode).tree, freed) && Stored(r, RemoveIt(t, k, mode).tree)
    ensures Nodes(RemoveIt(t, k, mode).tree) <= Nodes(t)
    decreases Size(t), 0
  {
    var m := PrepareRightAt(n, s);
    ghost var p := PrepareRight(s).tree;
    RightUnfolds(t, p, k, mode);
    if k == m.key {
      r, freed := RemoveFoundAt(m, p);
    } else {
      assert Stored(m.left, p.left) && Stored(m.right, p.right);
      NodesAllocated(p.left);
      var x;
      x, freed := RemoveAt(m.right, k, mode, p.right);
      ghost var l := RemoveIt(p.right, k, mode).tree;
      assert Stored(m.left, p.left);
      Repaint(x, l, mode);
      assert Stored(m.left, p.left);
      r := RejoinRight(m, x, p, Recoloured(RemoveIt(p.right, k, mode), mode).tree);
    }
  }

  /** The node with the key takes over the next larger key and value, and that node is removed instead. */
  method RemoveFoundAt(m: RBNode, ghost p: Tree) returns (r: RBNode?, ghost freed: seq<RBNode>)
    requires Stored(m, p) && p.Node? && p.right.Node? && RemoveMin(p.right).Done?
    modifies Nodes(p)
    ensures var low := Min(p.right); var o := RemoveMin(p.right);
      var b := Balance(p.(key := low.key, value := low.value, right := o.tree));
      Stored(r, b) && Nodes(b) <= Nodes(p) && freed == o.freed
  {
    assert Stored(m.left, p.left) && Stored(m.right, p.right);
    NodesAllocated(p.left);
    NodesAllocated(p.right);
    var low := MinAt(m.right, p.right);
    m.key := low.key;
    m.value := low.value;
    assert Stored(m.left, p.left) && Stored(m.right, p.right);
    var x;
    x, freed := RemoveMinAt(m.right, p.right);
    assert Stored(m.left, p.left);
    r := RejoinRight(m, x, p.(key := Min(p.right).key, value := Min(p.right).value), RemoveMin(p.right).tree);
  }

  /** A stored tree holds each of its nodes once. */
  lemma {:induction false} StoredOnce(n: RBNode?, t: Tree)
    requires Stored(n, t)
    ensures forall o :: o in Nodes(t) ==> Objects(t)[o] == 1
  {
    if t.Node? {
      ObjectsAreNodes(t.left);
      ObjectsAreNodes(t.right);
      StoredOnce(t.at.left, t.left);
      StoredOnce(t.at.right, t.right);
    }
  }

  lemma {:induction false} ObjectsAreNodes(t: Tree)
    ensures forall o :: o in Nodes(t) ==> o in Objects(t)
    ensures forall o :: o in Objects(t) ==> o in Nodes(t)
  {
    if t.Node? {
      ObjectsAreNodes(t.left);
      ObjectsAreNodes(t.right);
    }
  }

  /** If the objects of `t` are those of `r` and the freed ones, no freed node is left in `r`. */
  lemma FreedAreUnlinked(n: RBNode?, t: Tree, r: Tree, freed: seq<RBNode>)
    requires Stored(n, t) && Objects(t) == Objects(r) + multiset(freed)
    ensures forall o :: o in freed ==> o in Nodes(t) && o !in Nodes(r)
    ensures forall o :: o in Nodes(t) ==> o in freed || o in Nodes(r)
  {
    hide Objects, Nodes, Stored;
    StoredOnce(n, t);
    ObjectsAreNodes(t);
    ObjectsAreNodes(r);
    forall o | o in freed ensures o in Nodes(t) && o !in Nodes(r) {
      assert o in multiset(freed) && o in Objects(t);
      assert Objects(t)[o] == Objects(r)[o] + multiset(freed)[o];
      assert o in Nodes(r) ==> o in Objects(r);
    }
    forall o | o in Nodes(t) ensures o in freed || o in Nodes(r) {
      assert o in Objects(t);
      assert o in Objects(r) || o in multiset(freed);
    }
  }

  /** How many nodes a search for k looks at. */
  ghost function Depth(t: Tree, k: Key): (n: nat)
    ensures n <= Height(t)
  {
    if t.Leaf? then 0
    else 1 + if k == t.key then 0 else Depth(if k < t.key then t.left else t.right, k)
  }

  lemma DepthIsLogarithmic(t: Tree, k: Key)
    requires Valid(t)
    ensures Pow2((Depth(t, k) + 1) / 2) <= |Model(t)| + 1
  {
    hide Pow2, Valid, Height, Model;
    var steps := Depth(t, k);
    HeightIsLogarithmic(t);
    Pow2Grows((steps + 1) / 2, (Height(t) + 1) / 2);
  }

  /** The loop of rb_find. */
  method SearchFrom(n: RBNode?, k: Key, ghost t: Tree) returns (found: bool, value: Value, ghost steps: nat)
    requires Stored(n, t)
    ensures RbContents.Find(t, k) == if found then [value] else []
    ensures steps == Depth(t, k)
  {
    found, value, steps := false, 0, 0;
    var node := n;
    ghost var u := t;
    while node != null
      invariant Stored(node, u) && RbContents.Find(u, k) == RbContents.Find(t, k)
      invariant steps + Depth(u, k) == Depth(t, k)
      decreases u
    {
      steps := steps + 1;
      if k == node.key {
        return true, node.value, steps;
      }
      if k < node.key {
        node, u := node.left, u.left;
      } else {
        node, u := node.right, u.right;
      }
    }
  }

  // ---------- the public operations ----------

  class RBTree {
    var root: RBNode?
    ghost var tree: Tree

    /** The root's nodes are those of `tree`; what `tree` satisfies is said separately. */
    ghost predicate Linked()
      reads this, Nodes(tree)
    {
      Stored(root, tree)
    }

    constructor ()
      ensures Linked() && tree == Leaf
    {
      root := null;
      tree := Leaf;
    }

    /** rb_insert; `made` is the node that was allocated, if the key was absent. */
    method Insert(k: Key, v: Value) returns (ghost made: RBNode)
      requires Linked() && Valid(tree)
      modifies this, Nodes(tree)
      ensures Linked() && Valid(tree) && fresh(Nodes(tree) - old(Nodes(tree)))
      ensures tree == RbTree.Insert(old(tree), k, v, made)
      ensures Model(tree) == old(Model(tree))[k := v]
    {
      root, made := InsertAt(root, k, v, tree);
      ghost var t := InsertThis(tree, k, v, made);
      Repaint(root, t, AsWritten);
      InsertKeepsValid(tree, k, v, made);
      tree := Paint(t, Black);
    }

    /** rb_find; `steps` counts the nodes that the loop looks at. */
    method Find(k: Key) returns (found: bool, value: Value, ghost steps: nat)
      requires Linked() && Valid(tree)
      ensures found <==> k in Model(tree)
      ensures found ==> value == Model(tree)[k]
      ensures steps == Depth(tree, k) && Pow2((steps + 1) / 2) <= |Model(tree)| + 1
    {
      found, value, steps := SearchFrom(root, k, tree);
      FindIsLookup(tree, k);
      DepthIsLogarithmic(tree, k);
    }

    /** rb_delete, in either form; the nodes passed to kfree are no longer linked. */
    method Delete(k: Key, mode: Mode) returns (ghost freed: seq<RBNode>)
      requires Linked() && Valid(tree)
      modifies this, Nodes(tree)
      ensures Linked() && Nodes(tree) <= old(Nodes(tree))
      ensures RbTree.Delete(old(tree), k, mode) == Done(tree, freed)
      ensures Sorted(Items(tree)) && Model(tree) == old(Model(tree)) - {k}
      ensures |freed| == if k in old(Model(tree)) then 1 else 0
      ensures forall n :: n in freed ==> n in old(Nodes(tree)) && n !in Nodes(tree)
      ensures forall n :: n in old(Nodes(tree)) ==> n in freed || n in Nodes(tree)
      ensures mode.Intended? ==> Valid(tree)
    {
      hide Valid, Model, Sorted, RemoveIt, Objects;
      DeleteIsMapDelete(tree, k, mode);
      DeleteKeepsValid(tree, k);
      FreedAreUnlinked(root, tree, RbTree.Delete(tree, k, mode).tree, RbTree.Delete(tree, k, mode).freed);
      root, freed := RemoveAt(root, k, mode, tree);
      Repaint(root, RemoveIt(tree, k, mode).tree, AsWritten);
      tree := RbTree.Delete(tree, k, mode).tree;
    }
  }
}
