/** Creating and moving entries of user-ordered lists: the whole operation in place, and its
    effect on the map from instance paths to values. */
module OrderEffects {
  import opened Xml
  import opened Sequences
  import opened Schema
  import opened Matching
  import opened Instances
  import opened Equivalents
  import opened Merge
  import opened MergeMeaning
  import opened Operation
  import opened Creation
  import opened Targets
  import opened Deletion
  import opened Effects
  import opened Reference
  import opened UserOrder

  // ---- the order of siblings does not matter to the map

  lemma PermutedHas<T>(ks: seq<T>, ls: seq<T>, i: nat) returns (j: nat)
    requires multiset(ks) == multiset(ls) && i < |ls|
    ensures j < |ks| && ks[j] == ls[i]
  {
    assert ls[i] in multiset(ls);
    assert ls[i] in ks;
    j :| 0 <= j < |ks| && ks[j] == ls[i];
  }

  lemma DistinctIds(m: Model, at: seq<string>, ks: seq<Node>)
    requires FitKids(m, at, ks)
    ensures Distinct(ks)
  {
    hide IdOf, FitNode;
    forall i, j | 0 <= i < j < |ks|
      ensures ks[i] != ks[j]
    {
      FitNodeAddressed(m, at, ks[i]);
      FitNodeAddressed(m, at, ks[j]);
      assert IdOf(m, at, ks[i]) != IdOf(m, at, ks[j]);
    }
  }

  lemma PermutedFits(m: Model, at: seq<string>, ks: seq<Node>, ls: seq<Node>)
    requires FitKids(m, at, ks) && multiset(ks) == multiset(ls)
    ensures FitKids(m, at, ls)
  {
    hide IdOf, FitNode;
    DistinctIds(m, at, ks);
    DistinctPermutes(ks, ls);
    forall i | 0 <= i < |ls|
      ensures FitNode(m, at, ls[i]) && ls[i].Element?
    {
      var j := PermutedHas(ks, ls, i);
      FitNodeAddressed(m, at, ls[i]);
    }
    forall i, j | 0 <= i < j < |ls|
      ensures IdOf(m, at, ls[i]) != IdOf(m, at, ls[j])
    {
      var a := PermutedHas(ks, ls, i);
      var b := PermutedHas(ks, ls, j);
      DistinctMeans(ls);
      if a < b {
        assert IdOf(m, at, ks[a]) != IdOf(m, at, ks[b]);
      } else {
        assert IdOf(m, at, ks[b]) != IdOf(m, at, ks[a]);
      }
    }
  }

  lemma PermutedLookup(m: Model, at: seq<string>, ks: seq<Node>, ls: seq<Node>, x: seq<Id>)
    requires FitKids(m, at, ks) && multiset(ks) == multiset(ls) && x != []
    ensures Lookup(m, at, ls, x) == Lookup(m, at, ks, x)
  {
    hide IdOf, FitKids, ValueOf, SeekId;
    PermutedFits(m, at, ks, ls);
    var i, j := SeekId(m, at, ks, x[0]), SeekId(m, at, ls, x[0]);
    if i.Some? {
      var k := PermutedHas(ls, ks, i.value);
      SeekFinds(m, at, ls, k);
    } else if j.Some? {
      var k := PermutedHas(ks, ls, j.value);
      SeekFinds(m, at, ks, k);
    }
  }

  lemma PermutedKey(m: Model, at: seq<string>, ks: seq<Node>, ls: seq<Node>, k: string)
    requires WellKeyed(m) && FitKids(m, at, ks) && FitKids(m, at, ls) && multiset(ks) == multiset(ls) &&
      IsKeyAt(m, at, k)
    ensures KidValue(m, ls, k) == KidValue(m, ks, k)
  {
    hide IdOf, FitKids, IsKeyAt;
    var i, j := FirstNamed(ks, k), FirstNamed(ls, k);
    if i.Some? {
      var h := PermutedHas(ls, ks, i.value);
      KeyLeafFound(m, at, ks, k);
      KeyLeafFound(m, at, ls, k);
      SeekFinds(m, at, ls, h);
    } else if j.Some? {
      var h := PermutedHas(ks, ls, j.value);
    }
  }

  /** Any permutation of a child list that a chain finds leaves the document fit and the map
      as it was. */
  lemma PermuteEffect(m: Model, f: seq<Node>, parents: seq<Node>, up: Path, ls: seq<Node>, x: seq<Id>)
    requires WellKeyed(m) && FitKids(m, [], f) && Passable(m, [], parents) && AllElements(parents) && x != []
    requires FindEquiv(m, [], f, parents) == Some(up) && IsList(f, up)
    requires multiset(KidsAt(f, up)) == multiset(ls)
    ensures FitKids(m, [], SetKids(f, up, ls)) && Lookup(m, [], SetKids(f, up, ls), x) == Lookup(m, [], f, x)
  {
    hide FitKids, FitNode, FindEquiv, Passable, IdOf, IdsOf, Lookup, Under, SeekId, IsKeyAt, KidValue;
    var at, ks := Names(parents), KidsAt(f, up);
    assert [] + at == at;
    ParentFits(m, f, parents, up);
    PermutedFits(m, at, ks, ls);
    forall k | IsKeyAt(m, at, k)
      ensures KidValue(m, ls, k) == KidValue(m, ks, k)
    {
      PermutedKey(m, at, ks, ls, k);
    }
    SetBelow(m, [], f, parents, up, ls);
    SetLookup(m, [], f, parents, up, ls, x);
    if |parents| < |x| && Under(IdsOf(m, [], parents), x) {
      PermutedLookup(m, at, ks, ls, x[|parents|..]);
      LookupThere(m, f, parents, up, x);
    }
  }

  // ---- moving an entry

  /** Moving an entry of a user-ordered list changes no value in the map, and leaves the
      document fit. */
  lemma MoveEffect(m: Model, scope: Scope, f: seq<Node>, parents: seq<Node>, up: Path, i: nat, n: Node, x: seq<Id>)
    requires WellKeyed(m) && FitKids(m, [], f) && Passable(m, [], parents) && AllElements(parents) && x != []
    requires FindEquiv(m, [], f, parents) == Some(up) && IsList(f, up)
    requires n.Element? && i < |KidsAt(f, up)| && InstanceOf(KidsAt(f, up)[i], n.name)
    requires var at := Names(parents);
      MoveListed(m, scope, KidsAt(f, up), i, n, InList(m, at), IsLeafList(m, at + [n.name])).Placed?
    ensures var at := Names(parents);
      var g := SetKids(f, up,
        MoveListed(m, scope, KidsAt(f, up), i, n, InList(m, at), IsLeafList(m, at + [n.name])).kids);
      FitKids(m, [], g) && Lookup(m, [], g, x) == Lookup(m, [], f, x)
  {
    hide FitKids, FitNode, FindEquiv, Passable, IdOf, IdsOf, Lookup, Under, SeekId, IsKeyAt, MoveListed, KeysKept;
    var at, kids := Names(parents), KidsAt(f, up);
    var r := MoveListed(m, scope, kids, i, n, InList(m, at), IsLeafList(m, at + [n.name])).kids;
    if INSERT !in n.attrs {
      NotMoved(m, scope, kids, i, n, InList(m, at), IsLeafList(m, at + [n.name]));
      SetGet(f, up);
    } else {
      var d := Drop(kids[i], INSERT);
      var now := kids[i := d];
      ParentFits(m, f, parents, up);
      assert [] + at == at;
      DropSame(m, at, kids, i, INSERT);
      SetBelow(m, [], f, parents, up, now);
      SetLookup(m, [], f, parents, up, now, x);
      if |parents| < |x| && Under(IdsOf(m, [], parents), x) {
        DropLookup(m, at, kids, i, INSERT, x[|parents|..]);
        LookupThere(m, f, parents, up, x);
      }
      SetThenGet(f, up, now);
      SetThenSet(f, up, now, r);
      MoveConserves(m, scope, kids, i, n, InList(m, at), IsLeafList(m, at + [n.name]));
      PermuteEffect(m, SetKids(f, up, now), parents, up, r, x);
    }
  }

  lemma NotMoved(m: Model, scope: Scope, kids: seq<Node>, i: nat, n: Node, inList: bool, leaf: bool)
    requires n.Element? && i < |kids| && kids[i].Element? && INSERT !in n.attrs
    ensures MoveListed(m, scope, kids, i, n, inList, leaf) == Placed(kids)
  {
  }

  /** Attributes do not matter to a fit child list and its keys... */
  lemma DropSame(m: Model, at: seq<string>, kids: seq<Node>, i: nat, attr: string)
    requires FitKids(m, at, kids) && i < |kids| && kids[i].Element?
    ensures FitKids(m, at, kids[i := Drop(kids[i], attr)]) && KeysKept(m, at, kids, kids[i := Drop(kids[i], attr)])
  {
    var d := Drop(kids[i], attr);
    FitMember(m, at, kids, i);
    DropFits(m, at, kids[i], attr);
    UpdateFits(m, at, kids, i, d);
    hide FitKids, FitNode, IdOf, IsKeyAt;
    forall k | IsKeyAt(m, at, k)
      ensures KidValue(m, kids[i := d], k) == KidValue(m, kids, k)
    {
      DropValue(m, kids, i, attr, k);
    }
  }

  lemma DropFits(m: Model, at: seq<string>, n: Node, attr: string)
    requires FitNode(m, at, n) && n.Element?
    ensures FitNode(m, at, Drop(n, attr)) && IdOf(m, at, Drop(n, attr)) == IdOf(m, at, n)
  {
  }

  lemma {:induction false} DropValue(m: Model, kids: seq<Node>, i: nat, attr: string, k: string)
    requires i < |kids| && kids[i].Element?
    ensures KidValue(m, kids[i := Drop(kids[i], attr)], k) == KidValue(m, kids, k)
    decreases kids
  {
    if i > 0 {
      assert kids[i := Drop(kids[i], attr)][1..] == kids[1..][i - 1 := Drop(kids[1..][i - 1], attr)];
      DropValue(m, kids[1..], i - 1, attr, k);
    }
  }

  /** ... nor to its map. */
  lemma DropLookup(m: Model, at: seq<string>, kids: seq<Node>, i: nat, attr: string, x: seq<Id>)
    requires FitKids(m, at, kids) && i < |kids| && kids[i].Element? && x != []
    ensures Lookup(m, at, kids[i := Drop(kids[i], attr)], x) == Lookup(m, at, kids, x)
  {
    hide FitKids, FitNode, IdOf, Lookup;
    FitMember(m, at, kids, i);
    DropFits(m, at, kids[i], attr);
    UpdateStep(m, at, kids, i, Drop(kids[i], attr), x);
    UpdateStep(m, at, kids, i, kids[i], x);
    assert kids[i := kids[i]] == kids;
    DropOne(m, at, kids[i], attr, x);
  }

  lemma DropOne(m: Model, at: seq<string>, n: Node, attr: string, x: seq<Id>)
    requires n.Element? && x != []
    ensures Lookup(m, at, [Drop(n, attr)], x) == Lookup(m, at, [n], x)
  {
    LookupOne(m, at, n, x);
    LookupOne(m, at, Drop(n, attr), x);
  }

  // ---- creating an entry

  /** What creating an entry of a user-ordered list below a chain of parents makes of the
      document; on failure only the missing parents are there. */
  function CreateEntry(m: Model, scope: Scope, f: seq<Node>, parents: seq<Node>, n: Node):
    (UserOrder.Outcome, seq<Node>)
    requires AllElements(parents) && n.Element?
  {
    var (g, p) := CreateParents(m, f, parents);
    var at := Names(parents);
    var r := CreateListed(m, scope, KidsAt(g, p), StripOp(n), InList(m, at), IsLeafList(m, at + [n.name]));
    (r, if r.Placed? then SetKids(g, p, r.kids) else g)
  }

  /** Creates the edit node at q with its missing parents: an entry of a user-ordered list
      where its insert attribute says, any other node at the end. The node is taken out of
      the edit unless that fails. */
  method EditCreateAny(m: Model, scope: Scope, orig: Document, edit: Document, q: Path) returns (ok: bool)
    requires orig != edit && IsNode(edit.roots, q)
    modifies orig, edit
    ensures Parent(q) == [] || IsNode(old(edit.roots), Parent(q))
    ensures AllElements(Chain(old(edit.roots), Parent(q)))
    ensures var n, parents := NodeAt(old(edit.roots), q), Chain(old(edit.roots), Parent(q));
      if n.Element? && UserOrdered(m, Names(parents) + [n.name]) then
        var (r, g) := CreateEntry(m, scope, old(orig.roots), parents, n); ok == r.Placed? && orig.roots == g
      else ok && orig.roots == CreateNode(m, old(orig.roots), parents, n)
    ensures edit.roots == if ok then RemoveAt(old(edit.roots), q) else old(edit.roots)
  {
    hide CreateParents, CreateListed, CreateNode, UserOrdered, IsLeafList;
    ChainSnoc(edit.roots, q);
    NodeInParent(edit.roots, q);
    var n, parents := NodeAt(edit.roots, q), Chain(edit.roots, Parent(q));
    var at := Names(parents);
    NamesSnoc(parents, n);
    if !n.Element? || !UserOrdered(m, at + [n.name]) {
      EditCreate(m, orig, edit, q);
      return true;
    }
    var parent: Path := [];
    if |q| > 1 {
      parent := EditCreateRecursively(m, orig, edit.roots, Parent(q));
    } else {
      NoParents(m, orig.roots);
    }
    var r := EditCreateLists(m, scope, at, orig, parent, StripOp(n));
    ok := r.Placed?;
    if ok {
      edit.Unlink(Parent(q), Last(q));
    }
  }

  lemma NoParents(m: Model, f: seq<Node>)
    ensures CreateParents(m, f, []) == (f, [])
  {
  }

  /** Wherever an entry is put, the map is as if it had been put last. */
  lemma EntryEffect(m: Model, scope: Scope, f: seq<Node>, parents: seq<Node>, n: Node, x: seq<Id>)
    requires Plain(m) && FitKids(m, [], f) && AllElements(parents) && n.Element? && x != []
    requires Targeted(m, parents, n) && FitNode(m, Names(parents), StripOp(n))
    requires MissingAreContainers(m, f, parents) && RootThere(m, f, parents)
    requires Lookup(m, [], f, Target(m, parents, n)).None? && CreateEntry(m, scope, f, parents, n).0.Placed?
    ensures var g := CreateEntry(m, scope, f, parents, n).1;
      FitKids(m, [], g) && Lookup(m, [], g, x) == Lookup(m, [], CreateNode(m, f, parents, n), x)
  {
    hide FitKids, FitNode, FindEquiv, Passable, IdOf, IdsOf, KeysKept, Lookup, SeekId, MissingAreContainers,
      RootThere, CreateParents, Under, Names, KidsAt, SetKids, IsList, CreateListed, Addressed, IsKeyAt;
    var at, t, s := Names(parents), Target(m, parents, n), StripOp(n);
    var (g, p) := CreateParents(m, f, parents);
    var kids := KidsAt(g, p);
    ParentsEffect(m, f, parents, t);
    PrefixOfTarget(m, parents, n, t);
    UnderItself(t);
    StripSame(m, at, n);
    LookupLast(m, g, parents, p, IdOf(m, at, n));
    CleanIsIdentity(m, at, kids, n.name);
    var inList, leaf := InList(m, at), IsLeafList(m, at + [n.name]);
    ParentFits(m, g, parents, p);
    assert [] + at == at;
    FitNodeAddressed(m, at, s);
    var y := EntryPlaced(m, scope, at, kids, s, inList);
    SameKidsFit(m, at, s, y);
    if Under(Target(m, parents, y), x) {
      UnderMeans(Target(m, parents, y), x);
      SameKidsLookup(m, at, s, y, x[|parents|..]);
    }
    AddEffect(m, g, parents, s, p, x);
    AddEffect(m, g, parents, y, p, x);
    SetThenGet(g, p, kids + [y]);
    var r := CreateListed(m, scope, kids, s, inList, leaf).kids;
    SetThenSet(g, p, kids + [y], r);
    PermuteEffect(m, SetKids(g, p, kids + [y]), parents, p, r, x);
  }

  /** A copy that is placed has the name and children of the node to create. */
  lemma EntryPlaced(m: Model, scope: Scope, at: seq<string>, kids: seq<Node>, s: Node, inList: bool)
      returns (y: Node)
    requires FitKids(m, at, kids) && Addressed(m, at, s) && SeekId(m, at, kids, IdOf(m, at, s)).None?
    requires CreateListed(m, scope, kids, s, inList, IsLeafList(m, at + [s.name])).Placed?
    ensures y.Element? && y.name == s.name && y.kids == s.kids
    ensures multiset(CreateListed(m, scope, kids, s, inList, IsLeafList(m, at + [s.name])).kids) == multiset(kids + [y])
  {
    hide CreateListed, Refer, AsAsked, Stands, FitNode, FitKids;
    AddressedIsElement(m, at, s);
    var leaf := IsLeafList(m, at + [s.name]);
    var x := Drop(s, INSERT);
    var ref := Refer(m, scope, kids, x, leaf);
    CreateConserves(m, scope, kids, s, inList, leaf);
    if RefersToItself(m, InsertOf(s), ref, kids, x, leaf) {
      NotAmong(m, at, kids, s, x, ref.i);
    }
    var pos, z :| Stands(CreateListed(m, scope, kids, s, inList, leaf).kids, pos, z, kids) && CopyOf(z, s) &&
      multiset(CreateListed(m, scope, kids, s, inList, leaf).kids) == multiset(kids) + multiset{z} &&
      AsAsked(InsertOf(s), ref, kids, s.name, inList, CreateListed(m, scope, kids, s, inList, leaf).kids, pos);
    y := z;
  }

  lemma NotAmong(m: Model, at: seq<string>, kids: seq<Node>, s: Node, x: Node, i: nat)
    requires FitKids(m, at, kids) && Addressed(m, at, s) && SeekId(m, at, kids, IdOf(m, at, s)).None?
    requires x.Element? && x.name == s.name && x.kids == s.kids && i < |kids|
    ensures !Matches(m, x, kids[i], IsLeafList(m, at + [s.name]))
  {
    hide FitKids, FitNode, Matches, SeekId;
    FitMember(m, at, kids, i);
    SeekFinds(m, at, kids, i);
    MatchIsSameId(m, at, x, kids[i]);
  }

  lemma SameKidsFit(m: Model, at: seq<string>, s: Node, y: Node)
    requires s.Element? && y.Element? && y.name == s.name && y.kids == s.kids
    ensures FitNode(m, at, y) <==> FitNode(m, at, s)
    ensures IdOf(m, at, y) == IdOf(m, at, s)
  {
  }

  lemma SameKidsLookup(m: Model, at: seq<string>, s: Node, y: Node, x: seq<Id>)
    requires s.Element? && y.Element? && y.name == s.name && y.kids == s.kids && x != []
    ensures Lookup(m, at, [y], x) == Lookup(m, at, [s], x)
  {
    LookupOne(m, at, s, x);
    LookupOne(m, at, y, x);
  }
}
