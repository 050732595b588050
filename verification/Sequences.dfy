/** Sequences back to front. */
module Sequences {

  function Reversed<T>(s: seq<T>): (r: seq<T>)
    ensures |r| == |s|
  {
    if s == [] then [] else Reversed(s[1..]) + [s[0]]
  }

  lemma {:induction false} ReversedConcat<T>(a: seq<T>, b: seq<T>)
    ensures Reversed(a + b) == Reversed(b) + Reversed(a)
  {
    if a == [] {
      assert a + b == b;
    } else {
      assert (a + b)[1..] == a[1..] + b;
      ReversedConcat(a[1..], b);
    }
  }

  lemma {:induction false} ReversedAt<T>(s: seq<T>)
    ensures forall i :: 0 <= i < |s| ==> Reversed(s)[i] == s[|s| - 1 - i]
  {
    if s != [] { ReversedAt(s[1..]); }
  }

  lemma ReversedEmpty<T>()
    ensures Reversed<T>([]) == []
  {
  }

  lemma ReversedCons<T>(x: T, s: seq<T>)
    ensures Reversed([x] + s) == Reversed(s) + [x]
  {
    assert ([x] + s)[1..] == s;
  }

  /** The last one comes first. */
  lemma ReversedSnoc<T>(s: seq<T>, x: T)
    ensures Reversed(s + [x]) == [x] + Reversed(s)
  {
    ReversedConcat(s, [x]);
    assert [x][1..] == [];
  }

  lemma ReversedTwice<T>(s: seq<T>)
    ensures Reversed(Reversed(s)) == s
  {
    ReversedAt(s);
    ReversedAt(Reversed(s));
  }
}
