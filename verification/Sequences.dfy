/** Sequences: first occurrences, and taking an element out. */
module Sequences {

  /** Where x first occurs in s; the length of s if it does not. */
  function IndexOf<T(==)>(s: seq<T>, x: T): (i: nat)
    ensures i <= |s| && (i < |s| <==> x in s)
    ensures i < |s| ==> s[i] == x
    ensures forall j :: 0 <= j < i ==> s[j] != x
  {
    if s == [] || s[0] == x then 0 else 1 + IndexOf(s[1..], x)
  }

  /** The list without the first occurrence of x. */
  function Detached<T(==)>(s: seq<T>, x: T): seq<T> {
    var i := IndexOf(s, x);
    if i < |s| then s[..i] + s[i + 1..] else s
  }

  lemma DetachedIs<T>(s: seq<T>, x: T)
    ensures IndexOf(s, x) < |s| ==> Detached(s, x) == s[..IndexOf(s, x)] + s[IndexOf(s, x) + 1..]
    ensures IndexOf(s, x) == |s| ==> Detached(s, x) == s
  {
  }

  predicate Distinct<T(==)>(s: seq<T>) {
    forall i, j :: 0 <= i < j < |s| ==> s[i] != s[j]
  }

  /** Detaching takes x out of a list without duplicates, and nothing else: what stood
      before it and what stood after it stay as they were. */
  lemma DetachedIsExact<T>(s: seq<T>, x: T)
    requires Distinct(s)
    ensures x !in s ==> Detached(s, x) == s
    ensures x in s ==> exists i :: 0 <= i < |s| && s[i] == x && Detached(s, x) == s[..i] + s[i + 1..]
    ensures Distinct(Detached(s, x)) && x !in Detached(s, x)
    ensures forall y :: y != x ==> (y in Detached(s, x) <==> y in s)
    ensures |Detached(s, x)| == if x in s then |s| - 1 else |s|
  {
    var i, d := IndexOf(s, x), Detached(s, x);
    if i < |s| {
      forall y | y != x && y in s
        ensures y in d
      {
        var j :| 0 <= j < |s| && s[j] == y;
        assert d[if j < i then j else j - 1] == y;
      }
    }
  }

  lemma DistinctMeans<T>(s: seq<T>)
    requires Distinct(s)
    ensures forall i, j :: 0 <= i < j < |s| ==> s[i] != s[j]
  {
  }

  lemma SomeMember<T>(s: seq<T>)
    ensures s != [] ==> exists x :: x in s
  {
    if s != [] {
      assert s[0] in s;
    }
  }

  lemma {:induction false} DistinctCount<T>(s: seq<T>, x: T)
    requires Distinct(s)
    ensures multiset(s)[x] <= 1
    decreases s
  {
    if s != [] {
      DistinctCount(s[1..], x);
      assert s == [s[0]] + s[1..];
      if s[0] == x {
        assert x !in s[1..];
      }
    }
  }

  lemma CountTwice<T>(s: seq<T>, i: nat, j: nat)
    requires i < j < |s| && s[i] == s[j]
    ensures multiset(s)[s[i]] >= 2
  {
    assert s == s[..j] + ([s[j]] + s[j + 1..]);
    assert s[i] in s[..j];
  }

  /** A permutation of a sequence without duplicates has none either. */
  lemma DistinctPermutes<T>(s: seq<T>, t: seq<T>)
    requires Distinct(s) && multiset(s) == multiset(t)
    ensures Distinct(t)
  {
    forall i, j | 0 <= i < j < |t|
      ensures t[i] != t[j]
    {
      if t[i] == t[j] {
        CountTwice(t, i, j);
        DistinctCount(s, t[i]);
      }
    }
  }

  lemma TakenOut<T>(s: seq<T>, j: nat)
    requires j < |s|
    ensures multiset(s[..j] + s[j + 1..]) == multiset(s) - multiset{s[j]}
  {
    assert s == s[..j] + ([s[j]] + s[j + 1..]);
  }
}
