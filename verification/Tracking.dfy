/** Two cursors that move through two documents together: the node an edit node stands
    for keeps being found while both documents are edited below the cursors. */
module Tracking {
  import opened Xml
  import opened Schema
  import opened Matching
  import opened Instances
  import opened Equivalents
  import opened Merge

  /** The nodes on the path q of the edit say which instances they stand for, and those
      on the path p of the configuration are these instances. None of them is a key. */
  predicate Tracks(m: Model, at: seq<string>, f: seq<Node>, p: Path, e: seq<Node>, q: Path)
    decreases p
  {
    |p| == |q| &&
    (p == [] ||
     (p[0] < |f| && q[0] < |e| &&
      Addressed(m, at, f[p[0]]) && Addressed(m, at, e[q[0]]) &&
      IdOf(m, at, f[p[0]]) == IdOf(m, at, e[q[0]]) &&
      !IsKeyAt(m, at, f[p[0]].name) &&
      Tracks(m, at + [f[p[0]].name], f[p[0]].kids, p[1..], e[q[0]].kids, q[1..])))
  }

  /** The names of the elements on a path. */
  function NamesAt(f: seq<Node>, p: Path): seq<string>
    requires IsList(f, p)
  {
    if p == [] then [] else [f[p[0]].name] + NamesAt(f[p[0]].kids, p[1..])
  }

  /** Names on a path do not change when the list it leads to does. */
  lemma {:induction false} NamesBelow(e: seq<Node>, q: Path, ls: seq<Node>)
    requires IsList(e, q)
    ensures IsList(SetKids(e, q, ls), q) && NamesAt(SetKids(e, q, ls), q) == NamesAt(e, q)
    decreases q
  {
    SetThenGet(e, q, ls);
    if q != [] {
      NamesBelow(e[q[0]].kids, q[1..], ls);
    }
  }

  lemma {:induction false} TracksPaths(m: Model, at: seq<string>, f: seq<Node>, p: Path, e: seq<Node>, q: Path)
    requires Tracks(m, at, f, p, e, q)
    ensures IsList(f, p) && IsList(e, q) && NamesAt(f, p) == NamesAt(e, q)
    decreases p
  {
    if p != [] {
      TracksPaths(m, at + [f[p[0]].name], f[p[0]].kids, p[1..], e[q[0]].kids, q[1..]);
    }
  }

  /** The search finds the tracked node. */
  lemma {:induction false} TracksFound(m: Model, at: seq<string>, f: seq<Node>, p: Path, e: seq<Node>, q: Path)
    requires Tracks(m, at, f, p, e, q) && FitKids(m, at, f)
    ensures q == [] || IsNode(e, q)
    ensures FindEquiv(m, at, f, Chain(e, q)) == Some(p)
    decreases p
  {
    hide FitKids, FitNode, IdOf, Matches, FirstMatch, IsLeafList;
    TracksPaths(m, at, f, p, e, q);
    if q != [] {
      NodeOwnsList(e, q);
      var c := e[q[0]];
      MatchIsSameId(m, at, c, f[p[0]]);
      OneMatch(m, at, f, c, p[0]);
      FitBelow(m, at, f, p[0]);
      TracksBelow(m, at, f, p, e, q);
      assert p == [p[0]] + p[1..];
    }
  }

  lemma {:induction false} TracksBelow(m: Model, at: seq<string>, f: seq<Node>, p: Path, e: seq<Node>, q: Path)
    requires Tracks(m, at, f, p, e, q) && FitKids(m, at, f) && p != [] && IsNode(e, q)
    ensures FindEquiv(m, at + [NameOf(e[q[0]])], KidsOf(f[p[0]]), Chain(e, q)[1..]) == Some(p[1..])
    ensures Chain(e, q)[0] == e[q[0]]
    decreases p, 0
  {
    var here := at + [f[p[0]].name];
    if |p| == 1 {
      assert Chain(e, q)[1..] == [];
    } else {
      assert Chain(e, q)[1..] == Chain(e[q[0]].kids, q[1..]);
      assert FitNode(m, at, f[p[0]]);
      assert Addressed(m, here, f[p[0]].kids[p[1]]);
      TracksFound(m, here, f[p[0]].kids, p[1..], e[q[0]].kids, q[1..]);
    }
  }

  /** Two elements that are the same instance of their parent. */
  predicate SameInstance(m: Model, at: seq<string>, a: Node, b: Node) {
    Addressed(m, at, a) && Addressed(m, at, b) && IdOf(m, at, a) == IdOf(m, at, b)
  }

  /** Replacing a child that is not a key by one of the same name leaves the parent the
      same instance. */
  lemma ParentSame(m: Model, at: seq<string>, n: Node, i: nat, c: Node)
    requires WellKeyed(m) && Addressed(m, at, n) && i < |n.kids| && n.kids[i].Element? && c.Element?
    requires c.name == n.kids[i].name && !IsKeyAt(m, at + [n.name], c.name)
    ensures SameInstance(m, at, n, n.(kids := n.kids[i := c]))
  {
    var r := n.kids[i := c];
    forall k | k in KeysOf(m, n.name)
      ensures KidValue(m, r, k) == KidValue(m, n.kids, k)
    {
      KeyIsKeyAt(m, at, n.name, k);
      KidValueUpdate(m, n.kids, i, c, k);
    }
    SameKeyValues(m, r, n.kids, KeysOf(m, n.name));
    forall k | k in KeysOf(m, n.name)
      ensures FirstNamed(r, k).Some?
    {
      assert KidValue(m, r, k).Some?;
    }
  }

  /** The node at p with another child list is still the same instance. */
  predicate StaysSame(m: Model, at: seq<string>, f: seq<Node>, p: Path, ks: seq<Node>)
    requires IsNode(f, p) && NodeAt(f, p).Element?
    decreases p
  {
    if |p| == 1 then SameInstance(m, at, f[p[0]], f[p[0]].(kids := ks))
    else StaysSame(m, at + [f[p[0]].name], f[p[0]].kids, p[1..], ks)
  }

  /** Tracking survives edits below the cursors that leave the tracked nodes the same
      instances, on the side of the configuration. */
  lemma {:induction false} TracksSetOrig(m: Model, at: seq<string>, f: seq<Node>, p: Path, e: seq<Node>, q: Path,
      ks: seq<Node>)
    requires WellKeyed(m) && Tracks(m, at, f, p, e, q) && p != [] && IsNode(f, p) && NodeAt(f, p).Element?
    requires StaysSame(m, at, f, p, ks) && IsList(f, p)
    ensures Tracks(m, at, SetKids(f, p, ks), p, e, q)
    ensures SameInstance(m, at, f[p[0]], SetKids(f, p, ks)[p[0]])
    decreases p
  {
    var n, here := f[p[0]], at + [f[p[0]].name];
    if |p| == 1 {
      assert SetKids(f, p, ks)[p[0]] == n.(kids := ks);
      assert p[1..] == [] && q[1..] == [];
    } else {
      TracksSetOrig(m, here, n.kids, p[1..], e[q[0]].kids, q[1..], ks);
      var c := SetKids(n.kids, p[1..], ks)[p[1]];
      assert SetKids(n.kids, p[1..], ks) == n.kids[p[1] := c];
      ParentSame(m, at, n, p[1], c);
    }
  }

  /** The same on the side of the edit. */
  lemma {:induction false} TracksSetEdit(m: Model, at: seq<string>, f: seq<Node>, p: Path, e: seq<Node>, q: Path,
      ls: seq<Node>)
    requires WellKeyed(m) && Tracks(m, at, f, p, e, q) && q != [] && IsNode(e, q) && NodeAt(e, q).Element?
    requires StaysSame(m, at, e, q, ls) && IsList(e, q)
    ensures Tracks(m, at, f, p, SetKids(e, q, ls), q)
    ensures SameInstance(m, at, e[q[0]], SetKids(e, q, ls)[q[0]])
    decreases q
  {
    var n, here := e[q[0]], at + [e[q[0]].name];
    if |q| == 1 {
      assert SetKids(e, q, ls)[q[0]] == n.(kids := ls);
      assert p[1..] == [] && q[1..] == [];
    } else {
      TracksSetEdit(m, here, f[p[0]].kids, p[1..], n.kids, q[1..], ls);
      var c := SetKids(n.kids, q[1..], ls)[q[1]];
      assert SetKids(n.kids, q[1..], ls) == n.kids[q[1] := c];
      ParentSame(m, at, n, q[1], c);
    }
  }

  /** The node at p would be fit with another child list. */
  predicate FitsThere(m: Model, at: seq<string>, f: seq<Node>, p: Path, ks: seq<Node>)
    requires IsNode(f, p) && NodeAt(f, p).Element?
    decreases p
  {
    if |p| == 1 then FitNode(m, at, f[p[0]].(kids := ks))
    else FitsThere(m, at + [f[p[0]].name], f[p[0]].kids, p[1..], ks)
  }

  /** An edit below the cursor that leaves its node the same fit instance leaves the
      document fit. */
  lemma {:induction false} FitsSet(m: Model, at: seq<string>, f: seq<Node>, p: Path, e: seq<Node>, q: Path,
      ks: seq<Node>)
    requires WellKeyed(m) && FitKids(m, at, f) && Tracks(m, at, f, p, e, q)
    requires p != [] && IsNode(f, p) && NodeAt(f, p).Element? && IsList(f, p)
    requires StaysSame(m, at, f, p, ks) && FitsThere(m, at, f, p, ks)
    ensures FitKids(m, at, SetKids(f, p, ks))
    decreases p
  {
    var n, here := f[p[0]], at + [f[p[0]].name];
    var r := SetKids(f, p, ks)[p[0]];
    TracksSetOrig(m, at, f, p, e, q, ks);
    assert FitNode(m, at, n);
    if |p| > 1 {
      assert Addressed(m, here, n.kids[p[1]]);
      FitBelow(m, at, f, p[0]);
      FitsSet(m, here, n.kids, p[1..], e[q[0]].kids, q[1..], ks);
    } else {
      assert p[1..] == [] && SetKids(n.kids, [], ks) == ks;
    }
    assert SetKids(f, p, ks) == f[p[0] := r];
    UpdateFits(m, at, f, p[0], r);
  }

  /** The names above a node, one step down. */
  lemma NamesAbove(at: seq<string>, f: seq<Node>, p: Path)
    requires IsNode(f, p) && |p| > 1 && IsList(f, Parent(p))
    ensures Parent(p)[1..] == Parent(p[1..]) && Parent(p)[0] == p[0]
    ensures IsList(f[p[0]].kids, Parent(p[1..]))
    ensures at + [f[p[0]].name] + NamesAt(f[p[0]].kids, Parent(p[1..])) == at + NamesAt(f, Parent(p))
    ensures NodeAt(f, p) == NodeAt(f[p[0]].kids, p[1..])
  {
    assert Parent(p)[1..] == Parent(p[1..]);
  }

  lemma TracksNodes(m: Model, at: seq<string>, f: seq<Node>, p: Path, e: seq<Node>, q: Path)
    requires Tracks(m, at, f, p, e, q) && p != []
    ensures IsNode(f, p) && IsNode(e, q) && NodeAt(f, p).Element? && NodeAt(e, q).Element?
    ensures IsList(f, p) && IsList(e, q) && IsList(f, Parent(p))
    ensures KidsAt(f, p) == NodeAt(f, p).kids && KidsAt(e, q) == NodeAt(e, q).kids
  {
    TracksPaths(m, at, f, p, e, q);
    NodeOwnsList(f, p);
    NodeOwnsList(e, q);
    NodeInParent(f, p);
  }

  /** The node reached by two cursors, seen from its own level. */
  lemma {:induction false} TracksAt(m: Model, at: seq<string>, f: seq<Node>, p: Path, e: seq<Node>, q: Path)
    requires Tracks(m, at, f, p, e, q) && FitKids(m, at, f) && p != []
    requires IsNode(f, p) && IsNode(e, q) && IsList(f, Parent(p))
    ensures FitNode(m, at + NamesAt(f, Parent(p)), NodeAt(f, p))
    ensures SameInstance(m, at + NamesAt(f, Parent(p)), NodeAt(f, p), NodeAt(e, q))
    decreases p
  {
    assert FitNode(m, at, f[p[0]]);
    if |p| == 1 {
      assert Parent(p) == [] && at + NamesAt(f, []) == at;
    } else {
      NamesAbove(at, f, p);
      FitBelow(m, at, f, p[0]);
      assert Addressed(m, at + [f[p[0]].name], f[p[0]].kids[p[1]]);
      TracksAt(m, at + [f[p[0]].name], f[p[0]].kids, p[1..], e[q[0]].kids, q[1..]);
    }
  }

  /** What holds of the tracked nodes at their own level holds along the paths. */
  lemma {:induction false} AtOwnLevel(m: Model, at: seq<string>, f: seq<Node>, p: Path, ks: seq<Node>)
    requires IsNode(f, p) && NodeAt(f, p).Element? && IsList(f, Parent(p))
    ensures StaysSame(m, at, f, p, ks) <==>
      SameInstance(m, at + NamesAt(f, Parent(p)), NodeAt(f, p), NodeAt(f, p).(kids := ks))
    ensures FitsThere(m, at, f, p, ks) <==> FitNode(m, at + NamesAt(f, Parent(p)), NodeAt(f, p).(kids := ks))
    decreases p
  {
    if |p| == 1 {
      assert Parent(p) == [] && at + NamesAt(f, []) == at;
    } else {
      NamesAbove(at, f, p);
      AtOwnLevel(m, at + [f[p[0]].name], f[p[0]].kids, p[1..], ks);
    }
  }
}
