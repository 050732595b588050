/**
 The left-leaning red-black tree of src/rbtree.c, as functions over tree values.

 A `Tree` is a snapshot of the linked nodes: every node of it carries the object
 that stores it, so that a rotation moves objects about exactly as the code does,
 and a node that is handed to `kfree` can be told from one that stays linked.
 The methods of module `RbHeap` rewrite real nodes and are proved to do what these
 functions say.
 */
module RbTree {

  import opened Words

  type Key = u64
  type Value = u64

  datatype Color = Black | Red

  /** struct RBNode. */
  class RBNode {
    var key: Key
    var value: Value
    var color: Color
    var left: RBNode?
    var right: RBNode?

    constructor (key: Key, value: Value)
      ensures this.key == key && this.value == value && color == Red
      ensures left == null && right == null
    {
      this.key := key;
      this.value := value;
      color := Red;
      left := null;
      right := null;
    }
  }

  datatype Tree =
    | Leaf
    | Node(at: RBNode, color: Color, key: Key, value: Value, left: Tree, right: Tree)

  /** What a removal leaves: a tree and the nodes given to kfree, or a read through a null pointer. */
  datatype Outcome = Fault | Done(tree: Tree, freed: seq<RBNode>)

  /** `Intended` blackens only the root of the whole tree; `AsWritten` blackens the
      root of every subtree that the removal recurses into (src/rbtree.c:226-235). */
  datatype Mode = Intended | AsWritten

  // ---------- contents of a tree ----------

  ghost function Size(t: Tree): nat {
    match t
    case Leaf => 0
    case Node(_, _, _, _, l, r) => Size(l) + 1 + Size(r)
  }

  /** Keys with their values, from left to right. */
  ghost function Items(t: Tree): seq<(Key, Value)> {
    match t
    case Leaf => []
    case Node(_, _, k, v, l, r) => Items(l) + [(k, v)] + Items(r)
  }

  /** The objects that store the nodes, each with its number of occurrences. */
  ghost function Objects(t: Tree): multiset<RBNode> {
    match t
    case Leaf => multiset{}
    case Node(at, _, _, _, l, r) => multiset{at} + Objects(l) + Objects(r)
  }

  /** Same keys, values and order, and the same objects. */
  ghost predicate SameContents(t: Tree, u: Tree) {
    Size(t) == Size(u) && Items(t) == Items(u) && Objects(t) == Objects(u)
  }

  // ---------- the code's helpers ----------

  ghost predicate IsRed(t: Tree) {
    t.Node? && t.color.Red?
  }

  ghost function Opposite(c: Color): Color {
    if c.Red? then Black else Red
  }

  ghost predicate HasBoth(t: Tree) {
    t.Node? && t.left.Node? && t.right.Node?
  }

  ghost function Paint(t: Tree, c: Color): Tree {
    if t.Leaf? then t else t.(color := c)
  }

  ghost function Flip(t: Tree): (r: Tree)
    requires HasBoth(t)
    ensures r.Node? && Size(r) == Size(t)
  {
    t.(color := Opposite(t.color),
       left := t.left.(color := Opposite(t.left.color)),
       right := t.right.(color := Opposite(t.right.color)))
  }

  ghost function RotateLeft(t: Tree): (r: Tree)
    requires t.Node? && t.right.Node?
    ensures r.Node? && Size(r) == Size(t)
  {
    t.right.(color := t.color, left := t.(color := Red, right := t.right.left))
  }

  ghost function RotateRight(t: Tree): (r: Tree)
    requires t.Node? && t.left.Node?
    ensures r.Node? && Size(r) == Size(t)
  {
    t.left.(color := t.color, right := t.(color := Red, left := t.left.right))
  }

  ghost function LeanRight(t: Tree): (r: Tree)
    requires t.Node?
    ensures r.Node? && Size(r) == Size(t)
  {
    if IsRed(t.left) && IsRed(t.left.left) then RotateRight(t) else t
  }

  ghost function Split(t: Tree): (r: Tree)
    requires t.Node?
    ensures r.Node? && Size(r) == Size(t)
  {
    if IsRed(t.left) && IsRed(t.right) then Flip(t) else t
  }

  /** rb_balance */
  ghost function Balance(t: Tree): (r: Tree)
    requires t.Node?
    ensures r.Node? && Size(r) == Size(t)
  {
    Split(LeanRight(if IsRed(t.right) then RotateLeft(t) else t))
  }

  /** The three repairs at the end of insert_this: unlike rb_balance, the first one looks at the left child too. */
  ghost function InsertFixup(t: Tree): (r: Tree)
    requires t.Node?
    ensures r.Node? && Size(r) == Size(t)
  {
    Split(LeanRight(if IsRed(t.right) && !IsRed(t.left) then RotateLeft(t) else t))
  }

  ghost function MoveRedToLeft(t: Tree): (r: Tree)
    requires HasBoth(t)
    ensures r.Node? && Size(r) == Size(t)
  {
    var f := Flip(t);
    if IsRed(f.right.left) then Flip(RotateLeft(f.(right := RotateRight(f.right)))) else f
  }

  ghost function MoveRedToRight(t: Tree): (r: Tree)
    requires HasBoth(t)
    ensures r.Node? && Size(r) == Size(t)
  {
    var f := Flip(t);
    if IsRed(f.left.left) then Flip(RotateRight(f)) else f
  }

  /** Rotations and colour flips change no item and no object. */
  lemma StepsKeep(t: Tree)
    requires t.Node?
    ensures t.right.Node? ==> SameContents(RotateLeft(t), t)
    ensures t.left.Node? ==> SameContents(RotateRight(t), t)
    ensures HasBoth(t) ==> SameContents(Flip(t), t)
    ensures SameContents(LeanRight(t), t) && SameContents(Split(t), t)
  {
    if t.right.Node? { RotateLeftKeeps(t); }
    if t.left.Node? { RotateRightKeeps(t); }
  }

  lemma RotateLeftKeeps(t: Tree)
    requires t.Node? && t.right.Node?
    ensures SameContents(RotateLeft(t), t)
  {
    var a, b, c := Items(t.left), Items(t.right.left), Items(t.right.right);
    var x, y := [(t.key, t.value)], [(t.right.key, t.right.value)];
    assert (a + x + b) + y + c == a + x + (b + y + c);
  }

  lemma RotateRightKeeps(t: Tree)
    requires t.Node? && t.left.Node?
    ensures SameContents(RotateRight(t), t)
  {
    var a, b, c := Items(t.left.left), Items(t.left.right), Items(t.right);
    var x, y := [(t.left.key, t.left.value)], [(t.key, t.value)];
    assert (a + x + b) + y + c == a + x + (b + y + c);
  }

  lemma BalanceKeeps(t: Tree)
    requires t.Node?
    ensures SameContents(Balance(t), t) && SameContents(InsertFixup(t), t)
  {
    StepsKeep(t);
    StepsKeep(LeanRight(t));
    if t.right.Node? {
      StepsKeep(RotateLeft(t));
      StepsKeep(LeanRight(RotateLeft(t)));
    }
  }

  lemma MoveKeeps(t: Tree)
    requires HasBoth(t)
    ensures SameContents(MoveRedToLeft(t), t) && SameContents(MoveRedToRight(t), t)
  {
    var f := Flip(t);
    StepsKeep(t);
    StepsKeep(f);
    if IsRed(f.right.left) {
      StepsKeep(f.right);
      var u := f.(right := RotateRight(f.right));
      StepsKeep(u);
      StepsKeep(RotateLeft(u));
    }
    if IsRed(f.left.left) {
      StepsKeep(RotateRight(f));
    }
  }

  // ---------- insert ----------

  /** insert_this, where `made` is the node that create_node would make. */
  ghost function InsertThis(t: Tree, k: Key, v: Value, made: RBNode): (r: Tree)
    ensures r.Node?
  {
    match t
    case Leaf => Node(made, Red, k, v, Leaf, Leaf)
    case Node(_, _, key, _, l, r) =>
      InsertFixup(
        if k == key then t.(value := v)
        else if k < key then t.(left := InsertThis(l, k, v, made))
        else t.(right := InsertThis(r, k, v, made)))
  }

  ghost function Insert(t: Tree, k: Key, v: Value, made: RBNode): Tree {
    Paint(InsertThis(t, k, v, made), Black)
  }

  // ---------- delete ----------

  /** min: the leftmost node. */
  ghost function Min(t: Tree): (m: Tree)
    requires t.Node?
    ensures m.Node?
  {
    if t.left.Leaf? then t else Min(t.left)
  }

  /** The node that the left descent continues from; Fault when flip_color would reach a missing child. */
  ghost function PrepareLeft(t: Tree): (r: Outcome)
    requires t.Node? && t.left.Node?
    ensures r.Done? ==> r.tree.Node? && r.tree.left.Node? && Size(r.tree) == Size(t)
  {
    if IsRed(t.left) || IsRed(t.left.left) then Done(t, [])
    else if HasBoth(t) then Done(MoveRedToLeft(t), [])
    else Fault
  }

  ghost function PrepareRight(t: Tree): (r: Outcome)
    requires t.Node? && t.right.Node?
    ensures r.Done? ==> r.tree.Node? && r.tree.right.Node? && Size(r.tree) == Size(t)
  {
    if IsRed(t.right) || IsRed(t.right.left) then Done(t, [])
    else if HasBoth(t) then Done(MoveRedToRight(t), [])
    else Fault
  }

  ghost function StepRight(t: Tree): (r: Tree)
    requires t.Node?
    ensures r.Node? && Size(r) == Size(t)
  {
    if IsRed(t.left) then RotateRight(t) else t
  }

  /** What the preparations of the descent change is only where the nodes hang. */
  lemma PreparationKeeps(t: Tree)
    requires t.Node?
    ensures t.left.Node? && PrepareLeft(t).Done? ==> SameContents(PrepareLeft(t).tree, t)
    ensures t.right.Node? && PrepareRight(t).Done? ==> SameContents(PrepareRight(t).tree, t)
    ensures SameContents(StepRight(t), t)
  {
    StepsKeep(t);
    if HasBoth(t) { MoveKeeps(t); }
  }

  ghost function RemoveMin(t: Tree): Outcome
    decreases Size(t)
  {
    if t.Leaf? then Done(Leaf, [])
    else if t.left.Leaf? then Done(Leaf, [t.at])
    else
      match PrepareLeft(t)
      case Fault => Fault
      case Done(p, _) =>
        match RemoveMin(p.left)
        case Fault => Fault
        case Done(l, freed) => Done(Balance(p.(left := l)), freed)
  }

  /** rb_remove_key_node around remove_it when `mode` is AsWritten, plain recursion when it is Intended. */
  ghost function Recoloured(r: Outcome, mode: Mode): Outcome {
    if mode.AsWritten? && r.Done? then Done(Paint(r.tree, Black), r.freed) else r
  }

  ghost function RemoveIt(t: Tree, k: Key, mode: Mode): Outcome
    decreases Size(t)
  {
    if t.Leaf? then Done(Leaf, [])
    else if k < t.key then
      if t.left.Leaf? then Done(Balance(t), [])
      else
        match PrepareLeft(t)
        case Fault => Fault
        case Done(p, _) =>
          match Recoloured(RemoveIt(p.left, k, mode), mode)
          case Fault => Fault
          case Done(l, freed) => Done(Balance(p.(left := l)), freed)
    else
      var s := StepRight(t);
      if s.right.Leaf? then
        if k == s.key then Done(Leaf, [s.at]) else Done(Balance(s), [])
      else
        match PrepareRight(s)
        case Fault => Fault
        case Done(p, _) =>
          if k == p.key then
            match RemoveMin(p.right)
            case Fault => Fault
            case Done(r, freed) =>
              var m := Min(p.right);
              Done(Balance(p.(key := m.key, value := m.value, right := r)), freed)
          else
            match Recoloured(RemoveIt(p.right, k, mode), mode)
            case Fault => Fault
            case Done(r, freed) => Done(Balance(p.(right := r)), freed)
  }

  /** rb_delete: the root of the whole tree is always blackened. */
  ghost function Delete(t: Tree, k: Key, mode: Mode): Outcome {
    Recoloured(RemoveIt(t, k, mode), AsWritten)
  }

  // ---------- the invariants ----------

  ghost predicate Sorted(s: seq<(Key, Value)>) {
    forall i, j :: 0 <= i < j < |s| ==> s[i].0 < s[j].0
  }

  ghost function Bh(t: Tree): nat {
    match t
    case Leaf => 0
    case Node(_, c, _, _, l, _) => Bh(l) + (if c.Black? then 1 else 0)
  }

  /** Every path from the root to a leaf crosses the same number of black nodes. */
  ghost predicate Balanced(t: Tree) {
    t.Node? ==> Balanced(t.left) && Balanced(t.right) && Bh(t.left) == Bh(t.right)
  }

  /** Red links lean left, and no red node has a red child. */
  ghost predicate Leaning(t: Tree) {
    t.Node? ==>
      && Leaning(t.left) && Leaning(t.right)
      && !IsRed(t.right)
      && !(t.color.Red? && IsRed(t.left))
  }

  ghost predicate Shape(t: Tree) {
    Leaning(t) && Balanced(t)
  }

  /** What every public operation keeps. */
  ghost predicate Valid(t: Tree) {
    Shape(t) && !IsRed(t) && Sorted(Items(t))
  }
}
