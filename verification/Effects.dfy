/** What one operation does to the map from instance paths to values. */
module Effects {
  import opened Xml
  import opened Sequences
  import opened Schema
  import opened Matching
  import opened Instances
  import opened Equivalents
  import opened Merge
  import opened MergeMeaning
  import opened Operation
  import opened Creation
  import opened Targets
  import opened Deletion

  /** An edit node with an explicit operation, and its ancestors, root first. */
  datatype Act = Act(op: Op, parents: seq<Node>, node: Node)

  predicate Adds(op: Op) {
    op.CreateOp? || op.ReplaceOp?
  }

  /** The document after one operation, and whether it succeeds. */
  function Perform(m: Model, f: seq<Node>, a: Act): (bool, seq<Node>)
    requires AllElements(a.parents)
  {
    var found := FindEquiv(m, [], f, a.parents + [a.node]);
    match a.op
    case DeleteOp => (found.Some?, DeleteAll(m, f, a.parents + [a.node]))
    case RemoveOp => (true, if found.Some? then RemoveAt(f, found.value) else f)
    case ReplaceOp => (true, CreateNode(m, if found.Some? then RemoveAt(f, found.value) else f, a.parents, a.node))
    case CreateOp => (true, CreateNode(m, f, a.parents, a.node))
    case _ => (true, f)
  }

  /** Only a delete can fail, and it does exactly if it finds nothing. */
  lemma OnlyDeleteFails(m: Model, f: seq<Node>, a: Act)
    requires AllElements(a.parents)
    ensures Perform(m, f, a).0 <==> (a.op == DeleteOp ==> FindEquiv(m, [], f, a.parents + [a.node]).Some?)
  {
    hide FindEquiv, DeleteAll, CreateNode, RemoveAt;
  }

  /** The target is named by passable ancestors, says which instance it stands for and is
      not a key. */
  predicate Targeted(m: Model, parents: seq<Node>, e: Node) {
    Passable(m, [], parents) && Addressed(m, Names(parents), e) && !IsKeyAt(m, Names(parents), e.name)
  }

  function Target(m: Model, parents: seq<Node>, e: Node): (r: seq<Id>)
    requires AllElements(parents) && e.Element?
    ensures |r| == |parents| + 1
  {
    IdsOf(m, [], parents) + [IdOf(m, Names(parents), e)]
  }

  /** Ancestors of a node to create that are missing can be created without children: they
      are containers. */
  ghost predicate MissingAreContainers(m: Model, f: seq<Node>, parents: seq<Node>)
    requires AllElements(parents)
  {
    forall j :: 0 <= j < |parents| && Lookup(m, [], f, IdsOf(m, [], parents)[..j + 1]).None? ==>
      FitNode(m, Names(parents)[..j], Bare(parents[j]))
  }

  /** A missing root is created only in an empty document: there it takes nothing's place. */
  predicate RootThere(m: Model, f: seq<Node>, parents: seq<Node>)
    requires AllElements(parents)
  {
    parents == [] || f == [] || Lookup(m, [], f, IdsOf(m, [], parents)[..1]).Some?
  }

  // ---- the map is closed under going up

  lemma {:induction false} LookupPrefix(m: Model, at: seq<string>, f: seq<Node>, x: seq<Id>, n: nat)
    requires 0 < n <= |x| && Lookup(m, at, f, x).Some?
    ensures Lookup(m, at, f, x[..n]).Some?
    decreases x
  {
    hide SeekId, ValueOf;
    if n > 1 {
      var i := SeekId(m, at, f, x[0]).value;
      assert x[..n][1..] == x[1..][..n - 1];
      LookupPrefix(m, at + [f[i].name], f[i].kids, x[1..], n - 1);
    }
  }

  // ---- taking a child out of a list

  lemma {:induction false} SeekWithout(m: Model, at: seq<string>, kids: seq<Node>, i: nat, id: Id)
    requires i < |kids| && kids[i].Element? && IdOf(m, at, kids[i]) != id
    ensures var j := SeekId(m, at, kids, id);
      SeekId(m, at, Without(kids, i), id) ==
        if j.None? then None else Some(if j.value < i then j.value else j.value - 1)
    decreases kids
  {
    hide IdOf, SeekId;
    var r := Without(kids, i);
    SeekHead(m, at, kids, id);
    if i == 0 {
      assert r == kids[1..];
    } else {
      assert r == [kids[0]] + Without(kids[1..], i - 1);
      assert r[0] == kids[0] && r[1..] == Without(kids[1..], i - 1);
      SeekHead(m, at, r, id);
      SeekWithout(m, at, kids[1..], i - 1, id);
    }
  }

  /** The map loses the child that is taken out, and nothing else. */
  lemma LookupWithout(m: Model, at: seq<string>, kids: seq<Node>, i: nat, x: seq<Id>)
    requires FitKids(m, at, kids) && i < |kids| && x != []
    ensures kids[i].Element?
    ensures Lookup(m, at, Without(kids, i), x) ==
      if x[0] == IdOf(m, at, kids[i]) then None else Lookup(m, at, kids, x)
  {
    hide IdOf, FitKids, ValueOf, SeekId;
    var r := Without(kids, i);
    FitIsElements(m, at, kids);
    if x[0] != IdOf(m, at, kids[i]) {
      SeekWithout(m, at, kids, i, x[0]);
    } else {
      SeekFinds(m, at, kids, i);
      forall j | 0 <= j < |r|
        ensures r[j].Element? && IdOf(m, at, r[j]) != x[0]
      {
        assert r[j] == kids[if j < i then j else j + 1];
        SeekFinds(m, at, kids, if j < i then j else j + 1);
      }
    }
  }

  // ---- delete and remove

  /** With its keys the edit node matches one child at most. */
  lemma OneNotMatching(m: Model, at: seq<string>, kids: seq<Node>, e: Node, i: nat)
    requires FitKids(m, at, kids) && Addressed(m, at, e)
    requires FirstMatch(m, e, kids, IsLeafList(m, at + [e.name])) == Some(i)
    ensures NotMatching(m, e, kids, IsLeafList(m, at + [e.name])) == Without(kids, i)
  {
    hide FitKids, Matches, IsLeafList;
    var leaf := IsLeafList(m, at + [e.name]);
    NotMatchingWithout(m, e, kids, leaf, i);
    var rest := Without(kids, i);
    if FirstMatch(m, e, rest, leaf).Some? {
      var j := FirstMatch(m, e, rest, leaf).value;
      var k := if j < i then j else j + 1;
      assert rest[j] == kids[k];
      OneMatch(m, at, kids, e, k);
    }
    AllNotMatching(m, e, rest, leaf);
  }

  /** Deleting or removing an instance takes it out of the map with all below it. */
  lemma RemoveEffect(m: Model, f: seq<Node>, parents: seq<Node>, e: Node, x: seq<Id>)
    requires WellKeyed(m) && FitKids(m, [], f) && Targeted(m, parents, e) && x != []
    requires FindEquiv(m, [], f, parents + [e]).Some?
    ensures AllElements(parents)
    ensures var g := RemoveAt(f, FindEquiv(m, [], f, parents + [e]).value);
      DeleteAll(m, f, parents + [e]) == g && FitKids(m, [], g) &&
      Lookup(m, [], g, x) == if Under(Target(m, parents, e), x) then None else Lookup(m, [], f, x)
  {
    hide FitKids, FindEquiv, Passable, Matches, FirstMatch, IdOf, IdsOf, KeysKept, DeleteAll, RemoveAt, Lookup,
      IsLeafList, NotMatching, Under;
    PassableElements(m, [], parents);
    FindSnoc(m, [], f, parents, e);
    assert [] + Names(parents) == Names(parents);
    var up := FindEquiv(m, [], f, parents).value;
    var kids, leaf := KidsAt(f, up), IsLeafList(m, Names(parents) + [e.name]);
    var i := FirstMatch(m, e, kids, leaf).value;
    ParentFits(m, f, parents, up);
    RemoveOne(m, f, parents, e, up, i);
    DeleteExact(m, f, parents, e);
    OneNotMatching(m, Names(parents), kids, e, i);
    MatchIsSeek(m, Names(parents), kids, e);
    SetLookup(m, [], f, parents, up, Without(kids, i), x);
    TargetUnder(m, parents, e, x);
    if |parents| < |x| && Under(IdsOf(m, [], parents), x) {
      LookupWithout(m, Names(parents), kids, i, x[|parents|..]);
      LookupThere(m, f, parents, up, x);
    }
  }

  lemma TargetUnder(m: Model, parents: seq<Node>, e: Node, x: seq<Id>)
    requires AllElements(parents) && e.Element?
    ensures Under(Target(m, parents, e), x) <==>
      |parents| < |x| && Under(IdsOf(m, [], parents), x) && x[|parents|..][0] == IdOf(m, Names(parents), e)
  {
    hide IdOf, IdsOf;
    var ids, t := IdsOf(m, [], parents), Target(m, parents, e);
    if |parents| < |x| {
      assert x[..|t|] == x[..|ids|] + [x[|ids|]];
      assert x[|ids|..][0] == x[|ids|];
      if x[..|t|] == t {
        assert x[..|ids|] == t[..|ids|] == ids;
        assert x[|ids|] == t[|ids|];
      }
    }
  }

  /** Below the list that a chain finds, the document's map is the list's. */
  lemma LookupThere(m: Model, f: seq<Node>, parents: seq<Node>, up: Path, x: seq<Id>)
    requires WellKeyed(m) && FitKids(m, [], f) && Passable(m, [], parents) && AllElements(parents)
    requires FindEquiv(m, [], f, parents) == Some(up) && IsList(f, up)
    requires |parents| < |x| && Under(IdsOf(m, [], parents), x)
    ensures Lookup(m, [], f, x) == Lookup(m, Names(parents), KidsAt(f, up), x[|parents|..])
  {
    hide FitKids, FindEquiv, Passable, IdsOf, Lookup, Under;
    ParentFits(m, f, parents, up);
    assert [] + Names(parents) == Names(parents);
    SetGet(f, up);
    KeptItself(m, Names(parents), KidsAt(f, up));
    SetLookup(m, [], f, parents, up, KidsAt(f, up), x);
  }

  lemma KeptItself(m: Model, names: seq<string>, kids: seq<Node>)
    ensures KeysKept(m, names, kids, kids)
  {
  }

  // ---- creating the missing ancestors

  lemma LookupLast(m: Model, f: seq<Node>, parents: seq<Node>, up: Path, id: Id)
    requires WellKeyed(m) && FitKids(m, [], f) && Passable(m, [], parents) && AllElements(parents)
    requires FindEquiv(m, [], f, parents) == Some(up) && IsList(f, up)
    ensures Lookup(m, [], f, IdsOf(m, [], parents) + [id]).Some? <==>
      SeekId(m, Names(parents), KidsAt(f, up), id).Some?
  {
    hide FitKids, FindEquiv, Passable, IdsOf, SeekId;
    var ids := IdsOf(m, [], parents);
    var x := ids + [id];
    assert x[..|ids|] == ids && x[|ids|..] == [id];
    LookupThere(m, f, parents, up, x);
  }

  /** Adding an instance to the list that a chain finds adds it to the map. */
  lemma AddEffect(m: Model, f: seq<Node>, parents: seq<Node>, n: Node, up: Path, x: seq<Id>)
    requires WellKeyed(m) && FitKids(m, [], f) && Passable(m, [], parents) && AllElements(parents) && x != []
    requires FindEquiv(m, [], f, parents) == Some(up) && IsList(f, up)
    requires FitNode(m, Names(parents), n) && n.Element? && !IsKeyAt(m, Names(parents), n.name)
    requires SeekId(m, Names(parents), KidsAt(f, up), IdOf(m, Names(parents), n)).None?
    ensures var g := SetKids(f, up, KidsAt(f, up) + [n]);
      FitKids(m, [], g) && FindEquiv(m, [], g, parents) == Some(up) && IsList(g, up) &&
      KidsAt(g, up) == KidsAt(f, up) + [n] &&
      Lookup(m, [], g, x) ==
        if Under(Target(m, parents, n), x) then Lookup(m, Names(parents), [n], x[|parents|..])
        else Lookup(m, [], f, x)
  {
    hide FitKids, FitNode, FindEquiv, Passable, IdOf, IdsOf, KeysKept, Lookup, Under, SeekId;
    assert [] + Names(parents) == Names(parents);
    var kids := KidsAt(f, up);
    ParentFits(m, f, parents, up);
    AppendFits(m, Names(parents), kids, n);
    KeysKeptAppend(m, Names(parents), kids, n);
    SetBelow(m, [], f, parents, up, kids + [n]);
    SetThenGet(f, up, kids + [n]);
    SetLookup(m, [], f, parents, up, kids + [n], x);
    TargetUnder(m, parents, n, x);
    if |parents| < |x| && Under(IdsOf(m, [], parents), x) {
      var y := x[|parents|..];
      AddStep(m, Names(parents), kids, n, y);
      LookupOne(m, Names(parents), n, y);
      LookupThere(m, f, parents, up, x);
      if y[0] == IdOf(m, Names(parents), n) {
        AbsentBelow(m, Names(parents), kids, y);
      }
    }
  }

  lemma KeysKeptAppend(m: Model, names: seq<string>, kids: seq<Node>, n: Node)
    requires n.Element? && !IsKeyAt(m, names, n.name)
    ensures KeysKept(m, names, kids, kids + [n])
  {
    forall k | IsKeyAt(m, names, k)
      ensures KidValue(m, kids + [n], k) == KidValue(m, kids, k)
    {
      KidValueOther(m, kids, n, k);
    }
  }

  lemma {:induction false} KidValueOther(m: Model, kids: seq<Node>, n: Node, k: string)
    requires NameOf(n) != k
    ensures KidValue(m, kids + [n], k) == KidValue(m, kids, k)
    decreases kids
  {
    if kids == [] {
      assert kids + [n] == [n] && [n][1..] == [];
    } else {
      assert (kids + [n])[1..] == kids[1..] + [n];
      KidValueOther(m, kids[1..], n, k);
    }
  }

  lemma IdsSnoc(m: Model, at: seq<string>, chain: seq<Node>, e: Node)
    requires AllElements(chain) && e.Element?
    ensures AllElements(chain + [e])
    ensures IdsOf(m, at, chain + [e]) == IdsOf(m, at, chain) + [IdOf(m, at + Names(chain), e)]
    decreases chain
  {
    hide IdOf;
    if chain == [] {
      assert chain + [e] == [e] && [e][1..] == [] && at + Names(chain) == at;
    } else {
      assert (chain + [e])[1..] == chain[1..] + [e];
      IdsSnoc(m, at + [chain[0].name], chain[1..], e);
      NamesHead(at, chain);
    }
  }

  lemma {:induction false} PassableSnoc(m: Model, at: seq<string>, chain: seq<Node>, e: Node)
    requires Passable(m, at, chain + [e])
    ensures Passable(m, at, chain)
    ensures Addressed(m, at + Names(chain), e) && !IsKeyAt(m, at + Names(chain), e.name)
    decreases chain
  {
    if chain == [] {
      assert chain + [e] == [e] && at + Names(chain) == at;
    } else {
      assert (chain + [e])[1..] == chain[1..] + [e];
      PassableSnoc(m, at + [chain[0].name], chain[1..], e);
      NamesHead(at, chain);
    }
  }

  /** A container without children is the same instance as one with. */
  lemma BareSame(m: Model, at: seq<string>, e: Node)
    requires e.Element? && FitNode(m, at, Bare(e))
    ensures IdOf(m, at, Bare(e)) == IdOf(m, at, e)
    ensures forall x :: x != [] ==>
      Lookup(m, at, [Bare(e)], x) == if x == [IdOf(m, at, e)] then Some(Val.Inner) else None
  {
    var names := KeysOf(m, e.name);
    SomeMember(names);
    TextIsLeaf(m, at, Bare(e));
    forall x: seq<Id> | x != []
      ensures Lookup(m, at, [Bare(e)], x) == if x == [IdOf(m, at, e)] then Some(Val.Inner) else None
    {
      LookupOne(m, at, Bare(e), x);
      if |x| > 1 {
        SeekEmpty(m, at + [e.name], x[1]);
      }
    }
  }

  lemma SplitChain(m: Model, f: seq<Node>, chain: seq<Node>)
    requires Passable(m, [], chain) && AllElements(chain) && chain != []
    requires MissingAreContainers(m, f, chain) && RootThere(m, f, chain)
    ensures var up, e := chain[..|chain| - 1], chain[|chain| - 1];
      chain == up + [e] && AllElements(up) && e.Element? && Targeted(m, up, e) && Passable(m, [], up) &&
      MissingAreContainers(m, f, up) && RootThere(m, f, up) &&
      IdsOf(m, [], chain) == Target(m, up, e) &&
      (Lookup(m, [], f, IdsOf(m, [], chain)).None? ==> FitNode(m, Names(up), Bare(e)))
  {
    hide IdOf, IdsOf, Passable, FitNode, Addressed, Lookup, Names;
    var up, e := chain[..|chain| - 1], chain[|chain| - 1];
    assert chain == up + [e];
    IdsSnoc(m, [], up, e);
    PassableSnoc(m, [], up, e);
    NamesSnoc(up, e);
    assert [] + Names(up) == Names(up);
    ContainersUp(m, f, up, e, chain);
    if up != [] {
      assert IdsOf(m, [], chain)[..1] == IdsOf(m, [], up)[..1];
    }
  }

  lemma ContainersUp(m: Model, f: seq<Node>, up: seq<Node>, e: Node, chain: seq<Node>)
    requires chain == up + [e] && e.Element? && AllElements(chain) && AllElements(up)
    requires IdsOf(m, [], chain) == IdsOf(m, [], up) + [IdOf(m, Names(up), e)] &&
      Names(chain) == Names(up) + [NameOf(e)]
    requires MissingAreContainers(m, f, chain)
    ensures MissingAreContainers(m, f, up)
    ensures Lookup(m, [], f, IdsOf(m, [], chain)).None? ==> FitNode(m, Names(up), Bare(e))
  {
    hide IdOf, IdsOf, FitNode, Lookup, Names;
    var ids, us := IdsOf(m, [], chain), IdsOf(m, [], up);
    assert ids[..|us| + 1] == ids && Names(chain)[..|us|] == Names(up) && chain[|us|] == e;
    forall j | 0 <= j < |up| && Lookup(m, [], f, us[..j + 1]).None?
      ensures FitNode(m, Names(up)[..j], Bare(up[j]))
    {
      assert ids[..j + 1] == us[..j + 1] && Names(chain)[..j] == Names(up)[..j] && chain[j] == up[j];
    }
  }

  /** Creating the missing ancestors adds just them to the map. */
  lemma {:induction false} ParentsEffect(m: Model, f: seq<Node>, chain: seq<Node>, x: seq<Id>)
    requires WellKeyed(m) && FitKids(m, [], f) && Passable(m, [], chain) && AllElements(chain) && x != []
    requires MissingAreContainers(m, f, chain) && RootThere(m, f, chain)
    ensures var (g, p) := CreateParents(m, f, chain);
      FitKids(m, [], g) && FindEquiv(m, [], g, chain) == Some(p) &&
      Lookup(m, [], g, x) ==
        if Under(x, IdsOf(m, [], chain)) && Lookup(m, [], f, x).None? then Some(Val.Inner) else Lookup(m, [], f, x)
    decreases |chain|
  {
    hide FitKids, FitNode, FindEquiv, Passable, IdOf, IdsOf, KeysKept, Lookup, SeekId, Targeted, MissingAreContainers,
      RootThere;
    if chain == [] {
      FindNothing(m, [], f);
    } else if FindEquiv(m, [], f, chain).Some? {
      FoundIsThere(m, [], f, chain);
      if Under(x, IdsOf(m, [], chain)) {
        LookupPrefix(m, [], f, IdsOf(m, [], chain), |x|);
      }
    } else {
      FoundIsThere(m, [], f, chain);
      SplitChain(m, f, chain);
      var up, e := chain[..|chain| - 1], chain[|chain| - 1];
      BareSame(m, Names(up), e);
      if |chain| == 1 {
        RootEffect(m, f, chain, x);
      } else {
        var (g0, p0) := CreateParents(m, f, up);
        ParentsEffect(m, f, up, x);
        ParentsEffect(m, f, up, IdsOf(m, [], chain));
        CreateLast(m, f, g0, up, e, p0, x);
      }
    }
  }

  lemma CreateLast(m: Model, f: seq<Node>, g0: seq<Node>, up: seq<Node>, e: Node, p0: Path, x: seq<Id>)
    requires WellKeyed(m) && FitKids(m, [], g0) && e.Element? && AllElements(up) && Targeted(m, up, e) && x != []
    requires FindEquiv(m, [], g0, up) == Some(p0) && IsList(g0, p0) && FitNode(m, Names(up), Bare(e))
    requires Lookup(m, [], g0, Target(m, up, e)) == Lookup(m, [], f, Target(m, up, e)) == None
    requires Lookup(m, [], g0, x) ==
      if Under(x, IdsOf(m, [], up)) && Lookup(m, [], f, x).None? then Some(Val.Inner) else Lookup(m, [], f, x)
    ensures var kids := KidsAt(g0, p0); var g := SetKids(g0, p0, kids + [Bare(e)]);
      FitKids(m, [], g) && FindEquiv(m, [], g, up + [e]) == Some(p0 + [|kids|]) &&
      Lookup(m, [], g, x) ==
        if Under(x, Target(m, up, e)) && Lookup(m, [], f, x).None? then Some(Val.Inner) else Lookup(m, [], f, x)
  {
    hide FitKids, FitNode, FindEquiv, Passable, IdOf, IdsOf, KeysKept, Lookup, SeekId, Under, KidsAt, SetKids, IsList,
      Names;
    var kids, bare, t := KidsAt(g0, p0), Bare(e), Target(m, up, e);
    BareSame(m, Names(up), e);
    LookupLast(m, g0, up, p0, IdOf(m, Names(up), e));
    AddEffect(m, g0, up, bare, p0, x);
    var g := SetKids(g0, p0, kids + [bare]);
    NewestFound(m, g, up, e, p0, kids);
    PrefixOfTarget(m, up, e, x);
    if Under(t, x) {
      if Lookup(m, [], f, x).Some? {
        assert x[..|t|] == t by {
          UnderMeans(t, x);
        }
        LookupPrefix(m, [], f, x, |t|);
      }
    }
  }

  lemma UnderMeans(t: seq<Id>, x: seq<Id>)
    requires Under(t, x)
    ensures |t| <= |x| && x[..|t|] == t
  {
  }

  lemma PrefixOfTarget(m: Model, up: seq<Node>, e: Node, x: seq<Id>)
    requires AllElements(up) && e.Element? && x != []
    ensures var t := Target(m, up, e);
      (Under(x, t) <==> x == t || Under(x, IdsOf(m, [], up))) &&
      (Under(t, x) ==> |up| < |x| && !Under(x, IdsOf(m, [], up))) &&
      (Under(t, x) ==> (x == t <==> x[|up|..] == [IdOf(m, Names(up), e)]))
  {
    hide IdOf, IdsOf;
    var ids, t := IdsOf(m, [], up), Target(m, up, e);
    if |x| <= |ids| {
      assert t[..|x|] == ids[..|x|];
    }
    if Under(t, x) {
      assert x == x[..|t|] + x[|t|..];
      assert |x| == |t| ==> x == t && x[|up|..] == [t[|up|]];
    }
  }

  /** The node just created is the one found. */
  lemma NewestFound(m: Model, g: seq<Node>, up: seq<Node>, e: Node, p0: Path, kids: seq<Node>)
    requires WellKeyed(m) && FitKids(m, [], g) && e.Element? && Targeted(m, up, e)
    requires FindEquiv(m, [], g, up) == Some(p0) && IsList(g, p0) && KidsAt(g, p0) == kids + [Bare(e)]
    requires IdOf(m, Names(up), Bare(e)) == IdOf(m, Names(up), e)
    ensures FindEquiv(m, [], g, up + [e]) == Some(p0 + [|kids|])
  {
    hide FitKids, FindEquiv, Passable, IdOf, SeekId, FirstMatch;
    PassableElements(m, [], up);
    ParentFits(m, g, up, p0);
    FindSnoc(m, [], g, up, e);
    assert [] + Names(up) == Names(up);
    MatchIsSeek(m, Names(up), kids + [Bare(e)], e);
    assert (kids + [Bare(e)])[|kids|] == Bare(e);
    SeekFinds(m, Names(up), kids + [Bare(e)], |kids|);
  }

  lemma RootEffect(m: Model, f: seq<Node>, chain: seq<Node>, x: seq<Id>)
    requires WellKeyed(m) && FitKids(m, [], f) && AllElements(chain) && |chain| == 1 && x != []
    requires Passable(m, [], chain) && FindEquiv(m, [], f, chain).None? && RootThere(m, f, chain)
    requires Lookup(m, [], f, IdsOf(m, [], chain)).None? && FitNode(m, [], Bare(chain[0]))
    ensures var (g, p) := CreateParents(m, f, chain);
      FitKids(m, [], g) && FindEquiv(m, [], g, chain) == Some(p) &&
      Lookup(m, [], g, x) ==
        if Under(x, IdsOf(m, [], chain)) && Lookup(m, [], f, x).None? then Some(Val.Inner) else Lookup(m, [], f, x)
  {
    hide FitKids, FitNode, FindEquiv, Passable, IdOf, KeysKept, Lookup, SeekId;
    var e, ids := chain[0], IdsOf(m, [], chain);
    var bare := Bare(e);
    assert chain == [] + [e] && chain[1..] == [] && ids == [IdOf(m, [], e)] && ids[..1] == ids;
    assert f == [];
    PassableSnoc(m, [], [], e);
    NoNames();
    assert [] + Names([]) == [];
    BareSame(m, [], e);
    FindNothing(m, [], f);
    SeekEmpty(m, [], IdOf(m, [], bare));
    assert [] + [bare] == [bare];
    AddEffect(m, [], [], bare, [], x);
    FindNothing(m, [], [bare]);
    NewestFound(m, [bare], [], e, [], []);
    assert [] + [0] == [0];
    EmptyLookup(m, [], x);
    assert x[0..] == x;
    if Under(Target(m, [], bare), x) {
      assert x != ids ==> |x| > 1;
    }
    assert Under(x, ids) <==> x == ids;
    assert Target(m, [], bare) == ids && (x == ids ==> Under(ids, x));
  }

  // ---- create

  lemma StripSame(m: Model, at: seq<string>, n: Node)
    requires n.Element?
    ensures StripOp(n).Element? && StripOp(n).name == n.name && IdOf(m, at, StripOp(n)) == IdOf(m, at, n)
  {
  }

  /** Creating an instance that is not there adds it, with what it holds, and the missing
      ancestors to the map, and changes nothing else. */
  lemma CreateEffect(m: Model, f: seq<Node>, parents: seq<Node>, n: Node, x: seq<Id>)
    requires Plain(m) && FitKids(m, [], f) && AllElements(parents) && n.Element? && x != []
    requires Targeted(m, parents, n) && FitNode(m, Names(parents), StripOp(n))
    requires MissingAreContainers(m, f, parents) && RootThere(m, f, parents)
    requires Lookup(m, [], f, Target(m, parents, n)).None?
    ensures var g := CreateNode(m, f, parents, n);
      FitKids(m, [], g) &&
      Lookup(m, [], g, x) ==
        if Under(Target(m, parents, n), x) then Lookup(m, Names(parents), [StripOp(n)], x[|parents|..])
        else if Under(x, Target(m, parents, n)) && Lookup(m, [], f, x).None? then Some(Val.Inner)
        else Lookup(m, [], f, x)
  {
    hide FitKids, FitNode, FindEquiv, Passable, IdOf, IdsOf, KeysKept, Lookup, SeekId, MissingAreContainers,
      RootThere, CreateParents, Under, Names, KidsAt, SetKids, IsList;
    var t := Target(m, parents, n);
    var (g, p) := CreateParents(m, f, parents);
    ParentsEffect(m, f, parents, x);
    ParentsEffect(m, f, parents, t);
    PrefixOfTarget(m, parents, n, x);
    PrefixOfTarget(m, parents, n, t);
    UnderItself(t);
    StripSame(m, Names(parents), n);
    LookupLast(m, g, parents, p, IdOf(m, Names(parents), n));
    CleanIsIdentity(m, Names(parents), KidsAt(g, p), n.name);
    AddEffect(m, g, parents, StripOp(n), p, x);
    if x == t {
      UnderItself(t);
    }
  }

  lemma UnderItself(t: seq<Id>)
    ensures Under(t, t)
  {
  }
}
