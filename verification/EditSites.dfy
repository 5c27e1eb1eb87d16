/** The edit nodes with an explicit operation: finding them, and taking them out of the
    edit one by one. */
module EditSites {
  import opened Xml
  import opened Schema
  import opened Matching
  import opened Instances
  import opened Equivalents
  import opened Merge
  import opened Operation
  import opened Creation
  import opened Targets
  import opened Deletion
  import opened Effects
  import opened Phases
  import opened EditMerge

  predicate IsSite(n: Node) {
    Explicit(OwnOp(n))
  }

  /** Some node has an explicit operation. */
  predicate HasSite(kids: seq<Node>) {
    exists i :: 0 <= i < |kids| && (IsSite(kids[i]) || (kids[i].Element? && HasSite(kids[i].kids)))
  }

  /** The first node with operation op in document order; operations do not nest. */
  function FirstSite(kids: seq<Node>, op: Op): (r: Option<Path>)
    ensures r.Some? ==> IsNode(kids, r.value) && OwnOp(NodeAt(kids, r.value)) == op
  {
    if kids == [] then None
    else if OwnOp(kids[0]) == op then Some([0])
    else
      match FirstBelow(kids[0], op)
      case Some(q) => Some([0] + q)
      case None =>
        match FirstSite(kids[1..], op)
        case Some(q) => Some(Shift(q))
        case None => None
  }

  function FirstBelow(n: Node, op: Op): (r: Option<Path>)
    ensures r.Some? ==> n.Element? && IsNode(n.kids, r.value) && OwnOp(NodeAt(n.kids, r.value)) == op
  {
    if n.Text? || IsSite(n) then None else FirstSite(n.kids, op)
  }

  /** The targets of all nodes with operation op, in document order. */
  function Sites(m: Model, at: seq<string>, up: seq<Id>, kids: seq<Node>, op: Op): seq<Sig>
    decreases kids
  {
    if kids == [] then [] else SitesOf(m, at, up, kids[0], op) + Sites(m, at, up, kids[1..], op)
  }

  function SitesOf(m: Model, at: seq<string>, up: seq<Id>, n: Node, op: Op): seq<Sig>
    decreases n
  {
    match n
    case Text(_) => []
    case Element(name, _, kids) =>
      if OwnOp(n) == op then [Sig(op, up + [IdOf(m, at, n)], at, n)]
      else if IsSite(n) then []
      else Sites(m, at + [name], up + [IdOf(m, at, n)], kids, op)
  }

  /** Operations do not nest, are explicit, and are named by passable ancestors; no key is
      a target, and nothing that is added asks for a place. */
  predicate EditFine(m: Model, at: seq<string>, kids: seq<Node>)
    decreases kids
  {
    forall i :: 0 <= i < |kids| ==> NodeFine(m, at, kids[i])
  }

  predicate NodeFine(m: Model, at: seq<string>, n: Node)
    decreases n
  {
    match n
    case Text(_) => true
    case Element(name, _, kids) =>
      if IsSite(n) then
        Addressed(m, at, n) && !IsKeyAt(m, at, name) && OpFree(kids) &&
        (Adds(OwnOp(n)) ==> AsksNoPlace(m, at + [name], n))
      else
        OwnOp(n) == NotSet && EditFine(m, at + [name], kids) &&
        (HasSite(kids) ==> Addressed(m, at, n) && Holder(m, at + [name]) && !IsKeyAt(m, at, name))
  }

  /** The edit without the first node with operation op. */
  function CutFirst(kids: seq<Node>, op: Op): seq<Node> {
    if kids == [] then []
    else if OwnOp(kids[0]) == op then kids[1..]
    else if FirstBelow(kids[0], op).Some? then [kids[0].(kids := CutFirst(kids[0].kids, op))] + kids[1..]
    else [kids[0]] + CutFirst(kids[1..], op)
  }

  /** What is left without any explicit operation. */
  function Rest(kids: seq<Node>): seq<Node> {
    if kids == [] then [] else RestOfNode(kids[0]) + Rest(kids[1..])
  }

  function RestOfNode(n: Node): seq<Node> {
    match n
    case Text(_) => [n]
    case Element(_, _, kids) => if IsSite(n) then [] else [n.(kids := Rest(kids))]
  }

  lemma {:induction false} CutIsRemove(kids: seq<Node>, op: Op)
    requires FirstSite(kids, op).Some?
    ensures RemoveAt(kids, FirstSite(kids, op).value) == CutFirst(kids, op)
    decreases kids
  {
    var q := FirstSite(kids, op).value;
    NodeInParent(kids, q);
    if OwnOp(kids[0]) == op {
      assert Without(kids, 0) == kids[1..];
    } else if FirstBelow(kids[0], op).Some? {
      var r := FirstBelow(kids[0], op).value;
      CutIsRemove(kids[0].kids, op);
      assert q[1..] == r;
      assert Parent(q) == [0] + Parent(r) && Last(q) == Last(r) && Parent(q)[1..] == Parent(r);
      NodeInParent(kids[0].kids, r);
    } else {
      var r := FirstSite(kids[1..], op).value;
      CutIsRemove(kids[1..], op);
      NodeInParent(kids[1..], r);
      RemoveTail(kids, r);
    }
  }

  /** The path r in the tail of a list, as a path in the list. */
  function Shift(r: Path): Path
    requires r != []
  {
    [r[0] + 1] + r[1..]
  }

  lemma SetTail(kids: seq<Node>, p: Path, ks: seq<Node>)
    requires kids != [] && p != [] && IsList(kids[1..], p)
    ensures IsList(kids, Shift(p)) && KidsAt(kids, Shift(p)) == KidsAt(kids[1..], p)
    ensures SetKids(kids, Shift(p), ks) == [kids[0]] + SetKids(kids[1..], p, ks)
  {
    assert Shift(p)[1..] == p[1..] && kids[Shift(p)[0]] == kids[1..][p[0]];
  }

  /** Removing below the tail of a list. */
  lemma RemoveTail(kids: seq<Node>, r: Path)
    requires kids != [] && IsNode(kids[1..], r)
    ensures IsNode(kids, Shift(r)) && RemoveAt(kids, Shift(r)) == [kids[0]] + RemoveAt(kids[1..], r)
  {
    hide SetKids, KidsAt, IsList, Size, Without;
    assert Shift(r)[1..] == r[1..] && kids[Shift(r)[0]] == kids[1..][r[0]];
    NodeInParent(kids[1..], r);
    NodeInParent(kids, Shift(r));
    if |r| == 1 {
      OneLevel(kids, r[0]);
    } else {
      assert Parent(Shift(r)) == Shift(Parent(r)) && Last(Shift(r)) == Last(r);
      SetTail(kids, Parent(r), Without(KidsAt(kids[1..], Parent(r)), Last(r)));
    }
  }

  lemma OneLevel(kids: seq<Node>, i: nat)
    requires kids != [] && i < |kids| - 1
    ensures RemoveAt(kids, [i + 1]) == [kids[0]] + RemoveAt(kids[1..], [i])
  {
    assert Parent([i + 1]) == [] && Parent([i]) == [];
    assert Without(kids, i + 1) == [kids[0]] + Without(kids[1..], i);
  }

  // ---- taking the first site out

  /** An element that keeps its keys still says which instance it stands for. */
  lemma StillAddressed(m: Model, at: seq<string>, n: Node, ks: seq<Node>)
    requires WellKeyed(m) && Addressed(m, at, n) && Holder(m, at + [n.name])
    requires KeysKept(m, at + [n.name], n.kids, ks)
    ensures Addressed(m, at, n.(kids := ks)) && IdOf(m, at, n.(kids := ks)) == IdOf(m, at, n)
  {
    hide KeyValues;
    forall k | k in KeysOf(m, n.name)
      ensures KidValue(m, ks, k) == KidValue(m, n.kids, k) && FirstNamed(ks, k).Some?
    {
      KeyIsKeyAt(m, at, n.name, k);
      assert KidValue(m, n.kids, k).Some?;
    }
    SameKeyValues(m, ks, n.kids, KeysOf(m, n.name));
  }

  lemma KeysKeptHead(m: Model, at: seq<string>, kids: seq<Node>, n: Node)
    requires kids != [] && NameOf(n) == NameOf(kids[0]) && !IsKeyAt(m, at, NameOf(n))
    ensures KeysKept(m, at, kids, [n] + kids[1..])
  {
    assert [n] + kids[1..] == kids[0 := n];
    forall k | IsKeyAt(m, at, k)
      ensures KidValue(m, kids[0 := n], k) == KidValue(m, kids, k)
    {
      KidValueUpdate(m, kids, 0, n, k);
    }
  }

  lemma KeysKeptTail(m: Model, at: seq<string>, kids: seq<Node>, rest: seq<Node>)
    requires kids != [] && KeysKept(m, at, kids[1..], rest)
    ensures KeysKept(m, at, kids, [kids[0]] + rest)
  {
    var r := [kids[0]] + rest;
    assert r[1..] == rest;
    forall k | IsKeyAt(m, at, k)
      ensures KidValue(m, r, k) == KidValue(m, kids, k)
    {
      assert KidValue(m, rest, k) == KidValue(m, kids[1..], k);
    }
  }

  lemma {:induction false} HasSiteThen(kids: seq<Node>, op: Op)
    requires Explicit(op) && FirstSite(kids, op).Some?
    ensures HasSite(kids)
    decreases kids
  {
    if OwnOp(kids[0]) != op {
      if FirstBelow(kids[0], op).Some? {
        HasSiteThen(kids[0].kids, op);
      } else {
        HasSiteThen(kids[1..], op);
        var i :| 0 <= i < |kids[1..]| &&
          (IsSite(kids[1..][i]) || (kids[1..][i].Element? && HasSite(kids[1..][i].kids)));
        assert kids[i + 1] == kids[1..][i];
      }
    }
  }

  lemma FineSplit(m: Model, at: seq<string>, n: Node, rest: seq<Node>)
    ensures EditFine(m, at, [n] + rest) <==> NodeFine(m, at, n) && EditFine(m, at, rest)
  {
    var r := [n] + rest;
    if EditFine(m, at, r) {
      assert NodeFine(m, at, r[0]);
      forall i | 0 <= i < |rest|
        ensures NodeFine(m, at, rest[i])
      {
        assert NodeFine(m, at, r[i + 1]);
      }
    }
    if NodeFine(m, at, n) && EditFine(m, at, rest) {
      forall i | 0 <= i < |r|
        ensures NodeFine(m, at, r[i])
      {
        assert r[i] == if i == 0 then n else rest[i - 1];
      }
    }
  }

  lemma FineBelow(m: Model, at: seq<string>, n: Node)
    requires NodeFine(m, at, n) && n.Element? && !IsSite(n)
    ensures EditFine(m, at + [n.name], n.kids)
  {
  }

  /** Taking the first site with an operation out takes its target off the list of that
      operation, and changes no other list, no key and nothing of the rest. */
  ghost predicate CutsOne(m: Model, at: seq<string>, up: seq<Id>, kids: seq<Node>, op: Op, cut: seq<Node>) {
    EditFine(m, at, cut) && KeysKept(m, at, kids, cut) && Rest(cut) == Rest(kids) &&
    Sites(m, at, up, kids, op) != [] && Sites(m, at, up, cut, op) == Sites(m, at, up, kids, op)[1..] &&
    forall o: Op :: Explicit(o) && o != op ==> Sites(m, at, up, cut, o) == Sites(m, at, up, kids, o)
  }

  lemma {:induction false} CutSites(m: Model, at: seq<string>, up: seq<Id>, kids: seq<Node>, op: Op)
    requires WellKeyed(m) && EditFine(m, at, kids) && Explicit(op) && FirstSite(kids, op).Some?
    ensures CutsOne(m, at, up, kids, op, CutFirst(kids, op))
    decreases kids
  {
    hide KeysKept, IdOf, Addressed, Holder, IsKeyAt, EditFine, NodeFine, CutsOne;
    assert kids == [kids[0]] + kids[1..];
    FineSplit(m, at, kids[0], kids[1..]);
    if OwnOp(kids[0]) == op {
      CutHere(m, at, up, kids, op);
    } else if FirstBelow(kids[0], op).Some? {
      FineBelow(m, at, kids[0]);
      CutSites(m, at + [kids[0].name], up + [IdOf(m, at, kids[0])], kids[0].kids, op);
      CutBelow(m, at, up, kids, op);
    } else {
      CutSites(m, at, up, kids[1..], op);
      CutAfter(m, at, up, kids, op);
    }
  }

  lemma CutHere(m: Model, at: seq<string>, up: seq<Id>, kids: seq<Node>, op: Op)
    requires kids != [] && NodeFine(m, at, kids[0]) && EditFine(m, at, kids[1..]) && Explicit(op)
    requires OwnOp(kids[0]) == op
    ensures CutsOne(m, at, up, kids, op, kids[1..])
  {
    hide KeysKept, IdOf, Addressed, Holder, EditFine;
    assert Without(kids, 0) == kids[1..];
    KeysKeptWithout(m, at, kids, 0);
    assert RestOfNode(kids[0]) == [] && [] + Rest(kids[1..]) == Rest(kids[1..]);
    assert Rest(kids) == RestOfNode(kids[0]) + Rest(kids[1..]);
    var sig := Sig(op, up + [IdOf(m, at, kids[0])], at, kids[0]);
    assert ([sig] + Sites(m, at, up, kids[1..], op))[1..] == Sites(m, at, up, kids[1..], op);
    forall o: Op | Explicit(o) && o != op
      ensures Sites(m, at, up, kids[1..], o) == Sites(m, at, up, kids, o)
    {
      assert SitesOf(m, at, up, kids[0], o) == [];
      assert [] + Sites(m, at, up, kids[1..], o) == Sites(m, at, up, kids[1..], o);
    }
    assert KeysKept(m, at, kids, kids[1..]);
    assert Sites(m, at, up, kids, op) == [sig] + Sites(m, at, up, kids[1..], op);
  }

  lemma CutBelow(m: Model, at: seq<string>, up: seq<Id>, kids: seq<Node>, op: Op)
    requires WellKeyed(m) && kids != [] && NodeFine(m, at, kids[0]) && EditFine(m, at, kids[1..]) && Explicit(op)
    requires OwnOp(kids[0]) != op && FirstBelow(kids[0], op).Some?
    requires CutsOne(m, at + [kids[0].name], up + [IdOf(m, at, kids[0])], kids[0].kids, op, CutFirst(kids[0].kids, op))
    ensures CutsOne(m, at, up, kids, op, CutFirst(kids, op))
  {
    hide KeysKept, IdOf, Addressed, Holder, EditFine, CutFirst, HasSite, IsKeyAt;
    var n, rest := kids[0], kids[1..];
    var cut := CutFirst(n.kids, op);
    var n2 := n.(kids := cut);
    assert CutFirst(kids, op) == [n2] + rest by {
      CutBelowIs(kids, op);
    }
    HasSiteThen(n.kids, op);
    StillAddressed(m, at, n, cut);
    assert NodeFine(m, at, n2);
    FineSplit(m, at, n2, rest);
    KeysKeptHead(m, at, kids, n2);
    assert ([n2] + rest)[1..] == rest && ([n2] + rest)[0] == n2;
    var s := Sites(m, at + [n.name], up + [IdOf(m, at, n)], n.kids, op);
    assert (s + Sites(m, at, up, rest, op))[1..] == s[1..] + Sites(m, at, up, rest, op);
    assert RestOfNode(n2) == RestOfNode(n);
    forall o: Op | Explicit(o) && o != op
      ensures Sites(m, at, up, [n2] + rest, o) == Sites(m, at, up, kids, o)
    {
      assert SitesOf(m, at, up, n2, o) == SitesOf(m, at, up, n, o);
    }
    assert SitesOf(m, at, up, n2, op) == s[1..] && SitesOf(m, at, up, n, op) == s;
  }

  lemma CutBelowIs(kids: seq<Node>, op: Op)
    requires kids != [] && OwnOp(kids[0]) != op && FirstBelow(kids[0], op).Some?
    ensures CutFirst(kids, op) == [kids[0].(kids := CutFirst(kids[0].kids, op))] + kids[1..]
  {
  }

  lemma CutAfter(m: Model, at: seq<string>, up: seq<Id>, kids: seq<Node>, op: Op)
    requires kids != [] && NodeFine(m, at, kids[0]) && Explicit(op)
    requires OwnOp(kids[0]) != op && FirstBelow(kids[0], op).None?
    requires CutsOne(m, at, up, kids[1..], op, CutFirst(kids[1..], op))
    ensures CutsOne(m, at, up, kids, op, CutFirst(kids, op))
  {
    hide KeysKept, IdOf, Addressed, Holder, EditFine, NodeFine;
    var n, cut := kids[0], CutFirst(kids[1..], op);
    FineSplit(m, at, n, cut);
    KeysKeptTail(m, at, kids, cut);
    assert ([n] + cut)[1..] == cut;
    NoSiteBelow(m, at, up, n, op);
    assert forall s: seq<Sig> :: [] + s == s;
  }

  lemma NoSiteBelow(m: Model, at: seq<string>, up: seq<Id>, n: Node, op: Op)
    requires OwnOp(n) != op && FirstBelow(n, op).None?
    ensures SitesOf(m, at, up, n, op) == []
  {
    if n.Element? && !IsSite(n) {
      NoSites(m, at + [n.name], up + [IdOf(m, at, n)], n.kids, op);
    }
  }

  lemma {:induction false} NoSites(m: Model, at: seq<string>, up: seq<Id>, kids: seq<Node>, op: Op)
    requires FirstSite(kids, op).None?
    ensures Sites(m, at, up, kids, op) == []
    decreases kids
  {
    if kids != [] {
      if kids[0].Element? && !IsSite(kids[0]) {
        NoSites(m, at + [kids[0].name], up + [IdOf(m, at, kids[0])], kids[0].kids, op);
      }
      NoSites(m, at, up, kids[1..], op);
    }
  }

  /** The node at q is a site that is named by passable ancestors and is no key, and sig is
      its target. */
  predicate Located(m: Model, at: seq<string>, up: seq<Id>, kids: seq<Node>, op: Op, q: Path, sig: Sig) {
    IsNode(kids, q) && (Parent(q) == [] || IsNode(kids, Parent(q))) && NodeAt(kids, q).Element? &&
    AllElements(Chain(kids, Parent(q))) &&
    var chain, n := Chain(kids, Parent(q)), NodeAt(kids, q);
    var here := at + Names(chain);
    Passable(m, at, chain) && Addressed(m, here, n) && !IsKeyAt(m, here, n.name) &&
    (Adds(op) ==> AsksNoPlace(m, here + [n.name], n)) &&
    sig == Sig(op, up + (IdsOf(m, at, chain) + [IdOf(m, here, n)]), here, n)
  }

  lemma LocatedHere(m: Model, at: seq<string>, up: seq<Id>, kids: seq<Node>, op: Op)
    requires kids != [] && kids[0].Element? && Addressed(m, at, kids[0]) && !IsKeyAt(m, at, kids[0].name)
    requires Adds(op) ==> AsksNoPlace(m, at + [kids[0].name], kids[0])
    ensures Located(m, at, up, kids, op, [0], Sig(op, up + [IdOf(m, at, kids[0])], at, kids[0]))
  {
    hide IdOf;
    assert Parent([0]) == [] && at + [] == at && [] + [IdOf(m, at, kids[0])] == [IdOf(m, at, kids[0])];
  }

  lemma LocatedBelow(m: Model, at: seq<string>, up: seq<Id>, kids: seq<Node>, op: Op, r: Path, sig: Sig)
    requires kids != [] && kids[0].Element? && Addressed(m, at, kids[0]) && Holder(m, at + [kids[0].name])
    requires !IsKeyAt(m, at, kids[0].name)
    requires Located(m, at + [kids[0].name], up + [IdOf(m, at, kids[0])], kids[0].kids, op, r, sig)
    ensures Located(m, at, up, kids, op, [0] + r, sig)
  {
    hide IdOf, Addressed, Holder, IsKeyAt;
    var n, q: Path := kids[0], [0] + r;
    assert q[1..] == r && Parent(q) == [0] + Parent(r) && Parent(q)[1..] == Parent(r);
    NodeInParent(n.kids, r);
    var c := Chain(n.kids, Parent(r));
    var chain := Chain(kids, Parent(q));
    assert chain == [n] + c && chain[1..] == c;
    NamesHead(at, chain);
    var x := [IdOf(m, at + Names(chain), NodeAt(kids, q))];
    assert IdsOf(m, at, chain) == [IdOf(m, at, n)] + IdsOf(m, at + [n.name], c);
    assert up + (([IdOf(m, at, n)] + IdsOf(m, at + [n.name], c)) + x) ==
      (up + [IdOf(m, at, n)]) + (IdsOf(m, at + [n.name], c) + x);
  }

  lemma LocatedAfter(m: Model, at: seq<string>, up: seq<Id>, kids: seq<Node>, op: Op, r: Path, sig: Sig)
    requires kids != [] && Located(m, at, up, kids[1..], op, r, sig)
    ensures Located(m, at, up, kids, op, Shift(r), sig)
  {
    hide IdOf, Addressed, Holder, IsKeyAt;
    var q := Shift(r);
    assert q[1..] == r[1..] && kids[q[0]] == kids[1..][r[0]];
    if |r| > 1 {
      assert Parent(q) == Shift(Parent(r)) && Parent(q)[1..] == Parent(r)[1..];
    } else {
      assert Parent(q) == [] && Parent(r) == [];
    }
  }

  /** The first site is where its operation's list of targets says. */
  lemma {:induction false} FirstIsLocated(m: Model, at: seq<string>, up: seq<Id>, kids: seq<Node>, op: Op)
    requires EditFine(m, at, kids) && Explicit(op) && FirstSite(kids, op).Some?
    ensures Sites(m, at, up, kids, op) != []
    ensures Located(m, at, up, kids, op, FirstSite(kids, op).value, Sites(m, at, up, kids, op)[0])
    decreases kids
  {
    hide IdOf, Addressed, Holder, IsKeyAt, Located;
    assert NodeFine(m, at, kids[0]);
    if OwnOp(kids[0]) == op {
      LocatedHere(m, at, up, kids, op);
    } else if FirstBelow(kids[0], op).Some? {
      var n := kids[0];
      FirstIsLocated(m, at + [n.name], up + [IdOf(m, at, n)], n.kids, op);
      HasSiteThen(n.kids, op);
      LocatedBelow(m, at, up, kids, op, FirstBelow(n, op).value,
        Sites(m, at + [n.name], up + [IdOf(m, at, n)], n.kids, op)[0]);
    } else {
      NoSiteBelow(m, at, up, kids[0], op);
      assert kids == [kids[0]] + kids[1..];
      FineSplit(m, at, kids[0], kids[1..]);
      FirstIsLocated(m, at, up, kids[1..], op);
      assert [] + Sites(m, at, up, kids[1..], op) == Sites(m, at, up, kids[1..], op);
      LocatedAfter(m, at, up, kids, op, FirstSite(kids[1..], op).value, Sites(m, at, up, kids[1..], op)[0]);
    }
  }

  /** An edit without sites is its own rest, and free of operations. */
  lemma {:induction false} NothingElse(m: Model, at: seq<string>, kids: seq<Node>)
    requires EditFine(m, at, kids)
    requires forall op :: Explicit(op) ==> FirstSite(kids, op).None?
    ensures Rest(kids) == kids && OpFree(kids)
    decreases kids
  {
    if kids != [] {
      var n := kids[0];
      assert NodeFine(m, at, n);
      assert kids == [n] + kids[1..];
      FineSplit(m, at, n, kids[1..]);
      forall op | Explicit(op)
        ensures FirstSite(kids[1..], op).None? && OwnOp(n) != op && FirstBelow(n, op).None?
      {
        assert FirstSite(kids, op).None?;
      }
      NothingElse(m, at, kids[1..]);
      if n.Element? {
        assert FirstSite(kids, OwnOp(n)).Some? || !IsSite(n);
        forall op | Explicit(op)
          ensures FirstSite(n.kids, op).None?
        {
          assert FirstBelow(n, op).None?;
        }
        NothingElse(m, at + [n.name], n.kids);
      }
      OpFreeCons(n, kids[1..]);
    }
  }

  lemma OpFreeCons(n: Node, rest: seq<Node>)
    requires OpFree(rest) && (n.Element? ==> OPERATION !in n.attrs && OpFree(n.kids))
    ensures OpFree([n] + rest)
  {
  }
}
