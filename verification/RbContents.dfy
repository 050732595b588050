/**
 The tree of src/rbtree.c as a finite map: its items in order, and what inserting
 and removing one key does to them.
 */
module RbContents {
  import opened RbTree

  type KeyValues = seq<(Key, Value)>

  /** The finite map that a list of items stands for. */
  ghost function ToMap(s: KeyValues): map<Key, Value> {
    if s == [] then map[] else ToMap(s[1..])[s[0].0 := s[0].1]
  }

  ghost function Model(t: Tree): map<Key, Value> {
    ToMap(Items(t))
  }

  ghost function Without(s: KeyValues, k: Key): KeyValues {
    if s == [] then []
    else if s[0].0 == k then Without(s[1..], k)
    else [s[0]] + Without(s[1..], k)
  }

  ghost function Put(s: KeyValues, k: Key, v: Value): KeyValues {
    if s == [] || k < s[0].0 then [(k, v)] + s
    else if k == s[0].0 then [(k, v)] + s[1..]
    else [s[0]] + Put(s[1..], k, v)
  }

  ghost predicate Above(s: KeyValues, k: Key) {
    forall i :: 0 <= i < |s| ==> k < s[i].0
  }

  ghost predicate Below(s: KeyValues, k: Key) {
    forall i :: 0 <= i < |s| ==> s[i].0 < k
  }

  // ---------- lists of items ----------

  lemma {:induction false} ToMapKeys(s: KeyValues, k: Key)
    ensures k in ToMap(s) <==> exists i :: 0 <= i < |s| && s[i].0 == k
  {
    if s != [] {
      ToMapKeys(s[1..], k);
      if k in ToMap(s[1..]) {
        var i :| 0 <= i < |s[1..]| && s[1..][i].0 == k;
        assert s[i + 1].0 == k;
      }
      if i :| 0 <= i < |s| && s[i].0 == k {
        assert i > 0 ==> s[1..][i - 1].0 == k;
      }
    }
  }

  lemma SortedSplit(a: KeyValues, x: (Key, Value), b: KeyValues)
    ensures Sorted(a + [x] + b) <==> Sorted(a) && Sorted(b) && Below(a, x.0) && Above(b, x.0)
  {
    var s := a + [x] + b;
    assert s[|a|] == x;
    assert forall i :: 0 <= i < |a| ==> s[i] == a[i];
    assert forall i :: 0 <= i < |b| ==> s[|a| + 1 + i] == b[i];
    if Sorted(s) {
      forall i, j | 0 <= i < j < |b| ensures b[i].0 < b[j].0 {
        assert s[|a| + 1 + i].0 < s[|a| + 1 + j].0;
      }
    }
  }

  lemma {:induction false} WithoutConcat(a: KeyValues, b: KeyValues, k: Key)
    ensures Without(a + b, k) == Without(a, k) + Without(b, k)
  {
    if a == [] {
      assert a + b == b;
    } else {
      assert (a + b)[1..] == a[1..] + b;
      WithoutConcat(a[1..], b, k);
    }
  }

  lemma {:induction false} WithoutAbsent(s: KeyValues, k: Key)
    requires forall i :: 0 <= i < |s| ==> s[i].0 != k
    ensures Without(s, k) == s
  {
    if s != [] {
      assert forall i :: 0 <= i < |s[1..]| ==> s[1..][i] == s[i + 1];
      WithoutAbsent(s[1..], k);
    }
  }

  /** Removing from a sorted list touches only the part that the key can be in. */
  lemma WithoutSplit(a: KeyValues, x: (Key, Value), b: KeyValues, k: Key)
    requires Sorted(a + [x] + b)
    ensures k < x.0 ==> Without(a + [x] + b, k) == Without(a, k) + [x] + b
    ensures k == x.0 ==> Without(a + [x] + b, k) == a + b
    ensures k > x.0 ==> Without(a + [x] + b, k) == a + [x] + Without(b, k)
  {
    SortedSplit(a, x, b);
    WithoutConcat(a + [x], b, k);
    WithoutConcat(a, [x], k);
    assert Without([x], k) == if x.0 == k then [] else [x];
    if k <= x.0 { WithoutAbsent(b, k); }
    if k >= x.0 { WithoutAbsent(a, k); }
  }

  lemma {:induction false} WithoutMembers(s: KeyValues, k: Key)
    ensures forall y :: y in Without(s, k) <==> y in s && y.0 != k
  {
    if s != [] { WithoutMembers(s[1..], k); }
  }

  lemma {:induction false} WithoutSorted(s: KeyValues, k: Key)
    requires Sorted(s)
    ensures Sorted(Without(s, k))
    ensures |Without(s, k)| == |s| - if k in ToMap(s) then 1 else 0
  {
    if s != [] {
      var x, b := s[0], s[1..];
      assert s == [] + [x] + b;
      SortedSplit([], x, b);
      WithoutSorted(b, k);
      if x.0 == k {
        WithoutAbsent(b, k);
      } else {
        var w := Without(b, k);
        WithoutMembers(b, k);
        AboveMembers(w, x.0);
        SortedSplit([], x, w);
        assert [] + [x] + w == Without(s, k);
      }
    }
  }

  lemma {:induction false} MapWithout(s: KeyValues, k: Key)
    ensures ToMap(Without(s, k)) == ToMap(s) - {k}
  {
    if s != [] {
      MapWithout(s[1..], k);
      if s[0].0 != k {
        assert Without(s, k)[1..] == Without(s[1..], k);
      }
    }
  }

  lemma {:induction false} PutMembers(s: KeyValues, k: Key, v: Value)
    ensures forall y :: y in Put(s, k, v) ==> y == (k, v) || y in s
  {
    if s != [] && k > s[0].0 { PutMembers(s[1..], k, v); }
  }

  lemma {:induction false} PutSorted(s: KeyValues, k: Key, v: Value)
    requires Sorted(s)
    ensures Sorted(Put(s, k, v))
  {
    if s == [] {
    } else if k < s[0].0 {
      SortedSplit([], (k, v), s);
      assert Put(s, k, v) == [] + [(k, v)] + s;
    } else {
      var x, b := s[0], s[1..];
      SortedSplit([], x, b);
      assert s == [] + [x] + b;
      if k == x.0 {
        SortedSplit([], (k, v), b);
        assert Put(s, k, v) == [] + [(k, v)] + b;
      } else {
        PutSorted(b, k, v);
        PutMembers(b, k, v);
        AboveMembers(Put(b, k, v), x.0);
        SortedSplit([], x, Put(b, k, v));
        assert Put(s, k, v) == [] + [x] + Put(b, k, v);
      }
    }
  }

  lemma AboveMembers(s: KeyValues, k: Key)
    requires forall y :: y in s ==> k < y.0
    ensures Above(s, k)
  {
    forall i | 0 <= i < |s| ensures k < s[i].0 {
      assert s[i] in s;
    }
  }

  lemma {:induction false} MapPut(s: KeyValues, k: Key, v: Value)
    ensures ToMap(Put(s, k, v)) == ToMap(s)[k := v]
  {
    if s != [] {
      if k < s[0].0 {
        assert Put(s, k, v)[1..] == s;
      } else if k == s[0].0 {
        assert Put(s, k, v)[1..] == s[1..];
      } else {
        assert Put(s, k, v)[1..] == Put(s[1..], k, v);
        MapPut(s[1..], k, v);
      }
    }
  }

  lemma {:induction false} PutBefore(a: KeyValues, x: (Key, Value), b: KeyValues, k: Key, v: Value)
    requires k < x.0
    ensures Put(a + [x] + b, k, v) == Put(a, k, v) + [x] + b
  {
    var s := a + [x] + b;
    if a != [] {
      assert s[0] == a[0] && s[1..] == a[1..] + [x] + b;
      PutBefore(a[1..], x, b, k, v);
    }
  }

  lemma {:induction false} PutAfter(a: KeyValues, b: KeyValues, k: Key, v: Value)
    requires Below(a, k)
    ensures Put(a + b, k, v) == a + Put(b, k, v)
  {
    if a == [] {
      assert a + b == b;
    } else {
      assert (a + b)[0] == a[0] && (a + b)[1..] == a[1..] + b;
      PutAfter(a[1..], b, k, v);
      assert [a[0]] + (a[1..] + Put(b, k, v)) == a + Put(b, k, v);
    }
  }

  /** Inserting into a sorted list touches only the part that the key belongs in. */
  lemma PutSplit(a: KeyValues, x: (Key, Value), b: KeyValues, k: Key, v: Value)
    requires Sorted(a + [x] + b)
    ensures k < x.0 ==> Put(a + [x] + b, k, v) == Put(a, k, v) + [x] + b
    ensures k == x.0 ==> Put(a + [x] + b, k, v) == a + [(k, v)] + b
    ensures k > x.0 ==> Put(a + [x] + b, k, v) == a + [x] + Put(b, k, v)
  {
    SortedSplit(a, x, b);
    if k < x.0 {
      PutBefore(a, x, b, k, v);
    } else if k == x.0 {
      PutAfter(a, [x] + b, k, v);
      assert a + [x] + b == a + ([x] + b) && ([x] + b)[1..] == b;
      assert a + ([(k, v)] + b) == a + [(k, v)] + b;
    } else {
      PutAfter(a + [x], b, k, v);
    }
  }

  // ---------- find ----------

  ghost function Find(t: Tree, k: Key): (r: seq<Value>) {
    if t.Leaf? then []
    else if k == t.key then [t.value]
    else if k < t.key then Find(t.left, k)
    else Find(t.right, k)
  }

  /** The search path of rb_find answers as the finite map does. */
  lemma {:induction false} FindIsLookup(t: Tree, k: Key)
    requires Sorted(Items(t))
    ensures Find(t, k) == if k in Model(t) then [Model(t)[k]] else []
  {
    if t.Node? {
      var a, x, b := Items(t.left), (t.key, t.value), Items(t.right);
      SortedSplit(a, x, b);
      FindIsLookup(t.left, k);
      FindIsLookup(t.right, k);
      ToMapSplit(a, x, b);
      ToMapKeys(a, k);
      ToMapKeys(b, k);
    }
  }

  lemma {:induction false} ToMapSplit(a: KeyValues, x: (Key, Value), b: KeyValues)
    requires Sorted(a + [x] + b)
    ensures ToMap(a + [x] + b) == ToMap(a)[x.0 := x.1] + ToMap(b)
    ensures x.0 !in ToMap(a) && x.0 !in ToMap(b)
    ensures ToMap(a).Keys !! ToMap(b).Keys
  {
    SortedSplit(a, x, b);
    ToMapKeys(a, x.0);
    ToMapKeys(b, x.0);
    forall k ensures !(k in ToMap(a) && k in ToMap(b)) {
      ToMapKeys(a, k);
      ToMapKeys(b, k);
    }
    if a == [] {
      assert a + [x] + b == [x] + b;
      assert ([x] + b)[1..] == b;
    } else {
      var s := a + [x] + b;
      assert s[1..] == a[1..] + [x] + b;
      assert Sorted(s[1..]) by { assert forall i :: 0 <= i < |s[1..]| ==> s[1..][i] == s[i + 1]; }
      ToMapSplit(a[1..], x, b);
      ToMapKeys(a, a[0].0);
      ToMapKeys(b, a[0].0);
    }
  }

  // ---------- insert ----------

  /** The repairs of one level change no item and no object. */
  lemma InsertOneLevel(t: Tree, k: Key, v: Value, made: RBNode)
    requires t.Node?
    ensures var r := InsertThis(t, k, v, made);
      && (k < t.key ==>
        var l := InsertThis(t.left, k, v, made);
        && Items(r) == Items(l) + [(t.key, t.value)] + Items(t.right)
        && Objects(r) == multiset{t.at} + Objects(l) + Objects(t.right))
      && (k == t.key ==>
        Items(r) == Items(t.left) + [(k, v)] + Items(t.right) && Objects(r) == Objects(t))
      && (k > t.key ==>
        var m := InsertThis(t.right, k, v, made);
        && Items(r) == Items(t.left) + [(t.key, t.value)] + Items(m)
        && Objects(r) == multiset{t.at} + Objects(t.left) + Objects(m))
  {
    if k < t.key {
      BalanceKeeps(t.(left := InsertThis(t.left, k, v, made)));
    } else if k > t.key {
      BalanceKeeps(t.(right := InsertThis(t.right, k, v, made)));
    } else {
      BalanceKeeps(t.(value := v));
    }
  }

  /** Inserting puts exactly one key and keeps every other item. */
  lemma {:induction false} InsertItems(t: Tree, k: Key, v: Value, made: RBNode)
    requires Sorted(Items(t))
    ensures Items(InsertThis(t, k, v, made)) == Put(Items(t), k, v)
  {
    if t.Leaf? {
      assert Put([], k, v) == [(k, v)];
    } else {
      var a, x, b := Items(t.left), (t.key, t.value), Items(t.right);
      SortedSplit(a, x, b);
      PutSplit(a, x, b, k, v);
      InsertOneLevel(t, k, v, made);
      if k < t.key {
        InsertItems(t.left, k, v, made);
      } else if k > t.key {
        InsertItems(t.right, k, v, made);
      }
    }
  }

  /** The new node, when a key that was absent is inserted. */
  ghost function Linked(t: Tree, k: Key, made: RBNode): multiset<RBNode> {
    if k in Model(t) then multiset{} else multiset{made}
  }

  /** Inserting links the new node exactly when the key was absent, and loses no node. */
  lemma {:induction false} InsertObjects(t: Tree, k: Key, v: Value, made: RBNode)
    requires Sorted(Items(t))
    ensures Objects(InsertThis(t, k, v, made)) == Objects(t) + Linked(t, k, made)
  {
    if t.Node? {
      assert Sorted(Items(t.left)) && Sorted(Items(t.right)) by {
        SortedSplit(Items(t.left), (t.key, t.value), Items(t.right));
      }
      LinkedBelow(t, k, made);
      InsertOneLevel(t, k, v, made);
      if k < t.key {
        InsertObjects(t.left, k, v, made);
        JoinObjects(multiset{t.at}, Objects(t.left), Objects(t.right), Linked(t, k, made));
      } else if k > t.key {
        InsertObjects(t.right, k, v, made);
        JoinObjects(multiset{t.at}, Objects(t.left), Objects(t.right), Linked(t, k, made));
      }
    }
  }

  lemma JoinObjects(at: multiset<RBNode>, a: multiset<RBNode>, b: multiset<RBNode>, e: multiset<RBNode>)
    ensures at + (a + e) + b == at + a + b + e == at + a + (b + e)
  {
  }

  lemma LinkedBelow(t: Tree, k: Key, made: RBNode)
    requires t.Node? && Sorted(Items(t))
    ensures Linked(t, k, made) ==
      if k < t.key then Linked(t.left, k, made)
      else if k > t.key then Linked(t.right, k, made) else multiset{}
  {
    WhereIsKey(t, k);
  }

  lemma WhereIsKey(t: Tree, k: Key)
    requires t.Node? && Sorted(Items(t))
    ensures k < t.key ==> (k in Model(t) <==> k in Model(t.left))
    ensures k == t.key ==> k in Model(t)
    ensures k > t.key ==> (k in Model(t) <==> k in Model(t.right))
  {
    var a, x, b := Items(t.left), (t.key, t.value), Items(t.right);
    SortedSplit(a, x, b);
    ToMapSplit(a, x, b);
    ToMapKeys(a, k);
    ToMapKeys(b, k);
  }
}
