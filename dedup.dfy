/** Order-preserving removal of duplicates, the `seen`-map idiom of the Asura adapter. */
module Dedup {

  /** The index of the first occurrence of `x` in `s`. */
  function FirstIndex<T(==,!new)>(s: seq<T>, x: T): (i: nat)
    requires x in s
    ensures i < |s| && s[i] == x
    ensures forall j :: 0 <= j < i ==> s[j] != x
  {
    if s[0] == x then 0 else 1 + FirstIndex(s[1..], x)
  }

  /** Appending an element does not move the first occurrence of an element already there. */
  lemma {:induction false} FirstIndexExtend<T(!new)>(p: seq<T>, y: T, x: T)
    requires x in p
    ensures FirstIndex(p + [y], x) == FirstIndex(p, x)
  {
    if p[0] != x {
      assert (p + [y])[1..] == p[1..] + [y];
      FirstIndexExtend(p[1..], y, x);
    }
  }

  /** The first occurrence of every element of `s`, in the order of those occurrences. */
  function Unique<T(==,!new)>(s: seq<T>): (r: seq<T>)
    ensures |r| <= |s|
    ensures forall x :: x in r <==> x in s
    ensures forall i, j :: 0 <= i < j < |r| ==> r[i] != r[j]
  {
    if |s| == 0 then []
    else
      var p, y := s[..|s| - 1], s[|s| - 1];
      assert s == p + [y];
      var u := Unique(p);
      if y in u then u else u + [y]
  }

  /** Unique of a prefix grown by one element. */
  lemma UniqueStep<T(!new)>(s: seq<T>, i: nat)
    requires i < |s|
    ensures Unique(s[..i + 1]) == if s[i] in s[..i] then Unique(s[..i]) else Unique(s[..i]) + [s[i]]
  {
    assert s[..i + 1][..i] == s[..i];
  }

  /** The elements seen after one more element of `s`. */
  lemma SeenStep<T(!new)>(s: seq<T>, i: nat, seen: set<T>)
    requires i < |s| && forall x :: x in seen <==> x in s[..i]
    ensures forall x :: x in seen + {s[i]} <==> x in s[..i + 1]
  {
    assert s[..i + 1] == s[..i] + [s[i]];
  }

  /** Unique keeps the elements in the order of their first occurrences. */
  lemma {:induction false} UniqueKeepsOrder<T(!new)>(s: seq<T>)
    ensures forall i, j :: 0 <= i < j < |Unique(s)| ==> FirstIndex(s, Unique(s)[i]) < FirstIndex(s, Unique(s)[j])
  {
    if |s| > 0 {
      var p, y := s[..|s| - 1], s[|s| - 1];
      assert s == p + [y];
      var u := Unique(p);
      UniqueKeepsOrder(p);
      forall x | x in p ensures FirstIndex(s, x) == FirstIndex(p, x) {
        FirstIndexExtend(p, y, x);
      }
      if y !in u {
        assert FirstIndex(s, y) == |p|;
      }
    }
  }

  /** A sequence without duplicates is its own Unique. */
  lemma {:induction false} UniqueOfDistinct<T(!new)>(s: seq<T>)
    requires forall i, j :: 0 <= i < j < |s| ==> s[i] != s[j]
    ensures Unique(s) == s
  {
    if |s| > 0 {
      var p, y := s[..|s| - 1], s[|s| - 1];
      assert s == p + [y];
      UniqueOfDistinct(p);
      assert y !in p;
    }
  }
}
