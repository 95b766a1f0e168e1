/** Facts about sequences without repetition and their positions, shared by all models. */
module Sequences {

  ghost predicate Distinct<T>(s: seq<T>)
  {
    forall i, j :: 0 <= i < j < |s| ==> s[i] != s[j]
  }

  /** The elements of a sequence. */
  ghost function Elements<T>(s: seq<T>): (r: set<T>)
    ensures forall x :: x in s ==> x in r
    ensures forall x :: x in r ==> x in s
  {
    set x | x in s
  }

  /** Position of the first occurrence. */
  ghost function IndexOf<T>(s: seq<T>, x: T): (i: nat)
    requires x in s
    ensures i < |s| && s[i] == x && x !in s[..i]
  {
    if s[0] == x then 0 else 1 + IndexOf(s[1..], x)
  }

  /** The position of an element; anything else comes first. */
  ghost function Rank<T>(s: seq<T>, x: T): (i: nat)
  {
    if x in s then IndexOf(s, x) else 0
  }

  /** An element keeps its position when the sequence grows at the end. */
  lemma IndexOfPrefix<T>(s: seq<T>, t: seq<T>, x: T)
    requires s <= t && x in s
    ensures IndexOf(t, x) == IndexOf(s, x)
  {
    var i := IndexOf(s, x);
    assert t[i] == x && t[..i] == s[..i];
  }

  lemma {:induction false} DistinctSize<T>(s: seq<T>)
    requires Distinct(s)
    ensures |Elements(s)| == |s|
  {
    if s != [] {
      var n := |s| - 1;
      DistinctSize(s[..n]);
      assert Elements(s) == Elements(s[..n]) + {s[n]};
    }
  }

  /** A sequence without repetition over a finite set is no longer than the set. */
  lemma DistinctBound<T>(s: seq<T>, universe: set<T>)
    requires Distinct(s) && forall x :: x in s ==> x in universe
    ensures |s| <= |universe|
  {
    DistinctSize(s);
    SubsetSize(Elements(s), universe);
  }

  lemma {:induction false} SubsetSize<T>(a: set<T>, b: set<T>)
    requires a <= b
    ensures |a| <= |b|
    ensures |a| == |b| ==> a == b
    decreases a
  {
    if a != {} {
      var x :| x in a;
      SubsetSize(a - {x}, b - {x});
      assert a == (a - {x}) + {x} && b == (b - {x}) + {x};
    } else if b != {} {
      assert |b| > 0;
    }
  }

  lemma TakeNext<T>(s: seq<T>, i: nat)
    requires i < |s|
    ensures s[..i + 1] == s[..i] + [s[i]]
  {
  }

  lemma ConcatAssociative<T>(a: seq<T>, b: seq<T>, c: seq<T>)
    ensures a + (b + c) == (a + b) + c
  {
  }

  lemma SplitLast<T>(s: seq<T>)
    requires s != []
    ensures s == s[..|s| - 1] + [s[|s| - 1]]
  {
  }

  lemma DistinctConcat<T>(a: seq<T>, b: seq<T>)
    requires Distinct(a) && Distinct(b) && forall x :: x in b ==> x !in a
    ensures Distinct(a + b)
  {
    forall i, j | 0 <= i < j < |a + b| ensures (a + b)[i] != (a + b)[j] {
      if i < |a| <= j {
        assert (a + b)[j] in b;
      }
    }
  }
}
