/** The delete operation: equivalents of the edit node are removed until none is found. */
module Deletion {
  import opened Xml
  import opened Schema
  import opened Matching
  import opened Instances
  import opened Equivalents
  import opened Merge
  import opened Targets

  function RemoveAt(f: seq<Node>, p: Path): (r: seq<Node>)
    requires IsNode(f, p)
    ensures Size(r) < Size(f)
  {
    NodeInParent(f, p);
    SizeSetKids(f, Parent(p), Without(KidsAt(f, Parent(p)), Last(p)));
    SizeWithout(KidsAt(f, Parent(p)), Last(p));
    SetKids(f, Parent(p), Without(KidsAt(f, Parent(p)), Last(p)))
  }

  /** The document after equivalents have been removed one by one. */
  function DeleteAll(m: Model, f: seq<Node>, chain: seq<Node>): seq<Node>
    requires chain != []
    decreases Size(f)
  {
    match FindEquiv(m, [], f, chain)
    case None => f
    case Some(p) => DeleteAll(m, RemoveAt(f, p), chain)
  }

  /** Removes every equivalent of the edit node at q; false if there is none. Every turn
      makes the document smaller. */
  method DeleteEquivalents(m: Model, orig: Document, edit: seq<Node>, q: Path) returns (ok: bool)
    requires IsNode(edit, q)
    modifies orig
    ensures ok <==> FindEquiv(m, [], old(orig.roots), Chain(edit, q)).Some?
    ensures orig.roots == DeleteAll(m, old(orig.roots), Chain(edit, q))
  {
    hide FindEquiv;
    var found := FindElementEquiv(m, orig.roots, edit, q);
    if found.None? {
      return false;
    }
    while found.Some?
      invariant found == FindEquiv(m, [], orig.roots, Chain(edit, q))
      invariant DeleteAll(m, orig.roots, Chain(edit, q)) == DeleteAll(m, old(orig.roots), Chain(edit, q))
      decreases Size(orig.roots), found.Some?
    {
      NodeInParent(orig.roots, found.value);
      orig.Unlink(Parent(found.value), Last(found.value));
      found := FindElementEquiv(m, orig.roots, edit, q);
    }
    return true;
  }

  /** Afterwards nothing in the document is equivalent to the edit node. */
  lemma {:induction false} NoEquivalentLeft(m: Model, f: seq<Node>, chain: seq<Node>)
    requires chain != []
    ensures FindEquiv(m, [], DeleteAll(m, f, chain), chain).None?
    decreases Size(f)
  {
    hide FindEquiv;
    var p := FindEquiv(m, [], f, chain);
    if p.Some? {
      NoEquivalentLeft(m, RemoveAt(f, p.value), chain);
    }
  }

  /** The children that do not match an edit node, in order. */
  function NotMatching(m: Model, e: Node, kids: seq<Node>, leaf: bool): (r: seq<Node>)
    ensures forall n :: n in r <==> n in kids && !Matches(m, e, n, leaf)
  {
    if kids == [] then []
    else (if Matches(m, e, kids[0], leaf) then [] else [kids[0]]) + NotMatching(m, e, kids[1..], leaf)
  }

  lemma {:induction false} NotMatchingWithout(m: Model, e: Node, kids: seq<Node>, leaf: bool, i: nat)
    requires i < |kids| && Matches(m, e, kids[i], leaf)
    ensures NotMatching(m, e, Without(kids, i), leaf) == NotMatching(m, e, kids, leaf)
    decreases kids
  {
    hide Matches;
    if i == 0 {
      assert Without(kids, 0) == kids[1..];
    } else {
      assert Without(kids, i)[0] == kids[0] && Without(kids, i)[1..] == Without(kids[1..], i - 1);
      NotMatchingWithout(m, e, kids[1..], leaf, i - 1);
    }
  }

  lemma {:induction false} AllNotMatching(m: Model, e: Node, kids: seq<Node>, leaf: bool)
    requires FirstMatch(m, e, kids, leaf).None?
    ensures NotMatching(m, e, kids, leaf) == kids
    decreases kids
  {
    hide Matches;
    if kids != [] {
      AllNotMatching(m, e, kids[1..], leaf);
      assert [kids[0]] + kids[1..] == kids;
    }
  }

  lemma WithoutFits(m: Model, at: seq<string>, kids: seq<Node>, i: nat)
    requires FitKids(m, at, kids) && i < |kids|
    ensures FitKids(m, at, Without(kids, i))
  {
    hide FitNode, IdOf;
    var r := Without(kids, i);
    assert forall j :: 0 <= j < |r| ==> r[j] == kids[if j < i then j else j + 1];
  }

  lemma KeysKeptWithout(m: Model, names: seq<string>, kids: seq<Node>, i: nat)
    requires i < |kids| && !IsKeyAt(m, names, NameOf(kids[i]))
    ensures KeysKept(m, names, kids, Without(kids, i))
  {
    forall k | IsKeyAt(m, names, k)
      ensures KidValue(m, Without(kids, i), k) == KidValue(m, kids, k)
    {
      KidValueWithout(m, kids, i, k);
    }
  }

  lemma MatchHasName(m: Model, e: Node, n: Node, leaf: bool)
    requires e.Element? && Matches(m, e, n, leaf)
    ensures NameOf(n) == e.name
  {
  }

  /** Removing one match from the child list that a chain finds. */
  lemma RemoveOne(m: Model, f: seq<Node>, parents: seq<Node>, e: Node, up: Path, i: nat)
    requires WellKeyed(m) && FitKids(m, [], f) && Passable(m, [], parents) && e.Element?
    requires !IsKeyAt(m, Names(parents), e.name)
    requires FindEquiv(m, [], f, parents) == Some(up) && IsList(f, up)
    requires FitKids(m, Names(parents), KidsAt(f, up))
    requires FirstMatch(m, e, KidsAt(f, up), IsLeafList(m, Names(parents) + [e.name])) == Some(i)
    ensures IsNode(f, up + [i]) && RemoveAt(f, up + [i]) == SetKids(f, up, Without(KidsAt(f, up), i))
    ensures FitKids(m, [], RemoveAt(f, up + [i])) && FindEquiv(m, [], RemoveAt(f, up + [i]), parents) == Some(up)
    ensures IsList(RemoveAt(f, up + [i]), up) && KidsAt(RemoveAt(f, up + [i]), up) == Without(KidsAt(f, up), i)
    ensures FitKids(m, Names(parents), Without(KidsAt(f, up), i))
    ensures parents != [] ==> KeysKept(m, Names(parents), KidsAt(f, up), Without(KidsAt(f, up), i))
  {
    hide FitKids, FindEquiv, Passable, Matches, KeysKept;
    var kids, p := KidsAt(f, up), up + [i];
    assert [] + Names(parents) == Names(parents);
    NodeSnoc(f, up, i);
    assert Parent(p) == up && Last(p) == i;
    MatchHasName(m, e, kids[i], IsLeafList(m, Names(parents) + [e.name]));
    WithoutFits(m, Names(parents), kids, i);
    KeysKeptWithout(m, Names(parents), kids, i);
    SetBelow(m, [], f, parents, up, Without(kids, i));
    SetThenGet(f, up, Without(kids, i));
  }

  /** Deletion is exact: in a fit document the children that match the edit node are gone
      from the list its parents name, however many they are and also when the edit node
      leaves keys out; everything else stands as it was, in order. */
  lemma {:induction false} DeleteExact(m: Model, f: seq<Node>, parents: seq<Node>, e: Node)
    requires WellKeyed(m) && FitKids(m, [], f) && Passable(m, [], parents) && e.Element?
    requires !IsKeyAt(m, Names(parents), e.name)
    ensures var up := FindEquiv(m, [], f, parents);
      (up.Some? ==> IsList(f, up.value)) &&
      DeleteAll(m, f, parents + [e]) ==
        if up.None? then f
        else SetKids(f, up.value, NotMatching(m, e, KidsAt(f, up.value), IsLeafList(m, Names(parents) + [e.name])))
    decreases Size(f)
  {
    hide FitKids, FindEquiv, Passable, Matches, RemoveAt, NotMatching, FirstMatch;
    PassableElements(m, [], parents);
    FindSnoc(m, [], f, parents, e);
    assert [] + Names(parents) == Names(parents);
    var up := FindEquiv(m, [], f, parents);
    if up.Some? {
      var kids, leaf := KidsAt(f, up.value), IsLeafList(m, Names(parents) + [e.name]);
      var i := FirstMatch(m, e, kids, leaf);
      ParentFits(m, f, parents, up.value);
      if i.None? {
        AllNotMatching(m, e, kids, leaf);
        SetGet(f, up.value);
      } else {
        RemoveOne(m, f, parents, e, up.value, i.value);
        var g := RemoveAt(f, up.value + [i.value]);
        DeleteExact(m, g, parents, e);
        NotMatchingWithout(m, e, kids, leaf, i.value);
        SetThenSet(f, up.value, Without(kids, i.value), NotMatching(m, e, kids, leaf));
      }
    }
  }

  lemma ParentFits(m: Model, f: seq<Node>, parents: seq<Node>, up: Path)
    requires FitKids(m, [], f) && Passable(m, [], parents) && FindEquiv(m, [], f, parents) == Some(up)
    ensures IsList(f, up) && FitKids(m, Names(parents), KidsAt(f, up))
  {
    hide FitKids, FindEquiv, Passable;
    assert [] + Names(parents) == Names(parents);
    if parents == [] {
      FindNothing(m, [], f);
      NoNames();
    } else {
      FoundIsThere(m, [], f, parents);
    }
  }
}
