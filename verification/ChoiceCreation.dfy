/** Creating a node in a model with choices: what goes with the other branches, and when one
    branch of each choice is left. */
module ChoiceCreation {
  import opened Xml
  import opened Schema
  import opened Matching
  import opened Instances
  import opened Equivalents
  import opened Merge
  import opened MergeMeaning
  import opened Choices
  import opened ChoiceMeaning
  import opened Operation
  import opened Creation
  import opened Tracking
  import opened Targets
  import opened Deletion
  import opened Effects
  import opened MissingParents

  // ---- the map

  /** The instance at x, or one above it, is a child of the last parent in another branch than
      a child called keep. */
  predicate OutedAt(m: Model, parents: seq<Node>, keep: string, x: seq<Id>)
    requires AllElements(parents)
  {
    |parents| < |x| && Under(IdsOf(m, [], parents), x) && Rivals(m, Names(parents), keep, x[|parents|].name)
  }

  /** Cleaning the list that a chain finds takes exactly the rivals off the map. */
  lemma CleanEffect(m: Model, f: seq<Node>, parents: seq<Node>, keep: string, up: Path, x: seq<Id>)
    requires Mergeable(m) && FitKids(m, [], f) && Passable(m, [], parents) && AllElements(parents) && x != []
    requires FindEquiv(m, [], f, parents) == Some(up) && IsList(f, up)
    ensures var ks := ChoiceClean(m, Names(parents), KidsAt(f, up), keep); var g := SetKids(f, up, ks);
      FitKids(m, [], g) && FindEquiv(m, [], g, parents) == Some(up) && IsList(g, up) && KidsAt(g, up) == ks &&
      Lookup(m, [], g, x) == if OutedAt(m, parents, keep, x) then None else Lookup(m, [], f, x)
  {
    hide FitKids, FitNode, FindEquiv, Passable, IdOf, IdsOf, KeysKept, Lookup, Under, SeekId, ChoiceClean, Rivals,
      IsKeyAt;
    var at, kids := Names(parents), KidsAt(f, up);
    var ks := ChoiceClean(m, at, kids, keep);
    assert [] + at == at;
    ParentFits(m, f, parents, up);
    CleanFits(m, at, kids, keep);
    CleanKeepsKeys(m, at, kids, keep);
    SetBelow(m, [], f, parents, up, ks);
    SetThenGet(f, up, ks);
    SetLookup(m, [], f, parents, up, ks, x);
    if |parents| < |x| && Under(IdsOf(m, [], parents), x) {
      LookupThere(m, f, parents, up, x);
      FitIsElements(m, at, kids);
      CleanLookup(m, at, kids, keep, x[|parents|..]);
    }
  }

  lemma CleanKeepsKeys(m: Model, at: seq<string>, kids: seq<Node>, keep: string)
    requires KeysOutsideChoices(m)
    ensures KeysKept(m, at, kids, ChoiceClean(m, at, kids, keep))
  {
    hide Rivals, IsKeyAt, ChoiceClean;
    forall k | IsKeyAt(m, at, k)
      ensures KidValue(m, ChoiceClean(m, at, kids, keep), k) == KidValue(m, kids, k)
    {
      CleanKeepsNamed(m, at, kids, keep, k);
    }
  }

  /** Creating an instance that is not there adds it and the missing ancestors to the map,
      takes every sibling in another branch of its choice off it, with all below, and changes
      nothing else. */
  lemma ChoiceCreateEffect(m: Model, f: seq<Node>, parents: seq<Node>, n: Node, x: seq<Id>)
    requires Mergeable(m) && FitKids(m, [], f) && AllElements(parents) && n.Element? && x != []
    requires Targeted(m, parents, n) && FitNode(m, Names(parents), StripOp(n))
    requires MissingAreContainers(m, f, parents) && RootThere(m, f, parents)
    requires Lookup(m, [], f, Target(m, parents, n)).None?
    ensures var g := CreateNode(m, f, parents, n);
      FitKids(m, [], g) &&
      Lookup(m, [], g, x) ==
        if Under(Target(m, parents, n), x) then Lookup(m, Names(parents), [StripOp(n)], x[|parents|..])
        else if OutedAt(m, parents, n.name, x) then None
        else if Under(x, Target(m, parents, n)) && Lookup(m, [], f, x).None? then Some(Val.Inner)
        else Lookup(m, [], f, x)
  {
    hide FitKids, FitNode, FindEquiv, Passable, IdOf, IdsOf, KeysKept, Lookup, SeekId, MissingAreContainers,
      RootThere, CreateParents, Under, Names, KidsAt, SetKids, IsList, ChoiceClean, Rivals, OutedAt;
    var t, at := Target(m, parents, n), Names(parents);
    var (g, p) := CreateParents(m, f, parents);
    ParentsEffect(m, f, parents, x);
    ParentsEffect(m, f, parents, t);
    PrefixOfTarget(m, parents, n, x);
    PrefixOfTarget(m, parents, n, t);
    UnderItself(t);
    StripSame(m, at, n);
    LookupLast(m, g, parents, p, IdOf(m, at, n));
    CleanEffect(m, g, parents, n.name, p, x);
    CleanEffect(m, g, parents, n.name, p, t);
    var ks := ChoiceClean(m, at, KidsAt(g, p), n.name);
    var h := SetKids(g, p, ks);
    LookupLast(m, h, parents, p, IdOf(m, at, n));
    AddEffect(m, h, parents, StripOp(n), p, x);
    SetThenSet(g, p, ks, ks + [StripOp(n)]);
    if x == t {
      UnderItself(t);
    }
    if OutedAt(m, parents, n.name, x) {
      OutedIsBelow(m, parents, n, x);
    }
  }

  lemma OutedIsBelow(m: Model, parents: seq<Node>, n: Node, x: seq<Id>)
    requires AllElements(parents) && n.Element? && OutedAt(m, parents, n.name, x)
    ensures Under(x, Target(m, parents, n)) ==> x == Target(m, parents, n)
  {
  }

  // ---- one branch of each choice

  lemma {:induction false} OneBranchAt(m: Model, at: seq<string>, f: seq<Node>, p: Path)
    requires OneBranch(m, at, f) && IsList(f, p)
    ensures OneBranch(m, at + NamesAt(f, p), KidsAt(f, p))
    decreases p
  {
    hide Rivals;
    if p == [] {
      assert at + [] == at;
    } else {
      var n := f[p[0]];
      OneBranchAt(m, at + [n.name], n.kids, p[1..]);
      assert (at + [n.name]) + NamesAt(n.kids, p[1..]) == at + NamesAt(f, p);
    }
  }

  lemma {:induction false} SetOneBranch(m: Model, at: seq<string>, f: seq<Node>, p: Path, ks: seq<Node>)
    requires OneBranch(m, at, f) && IsList(f, p) && OneBranch(m, at + NamesAt(f, p), ks)
    ensures OneBranch(m, at, SetKids(f, p, ks))
    decreases p
  {
    hide Rivals;
    if p == [] {
      assert at + [] == at;
    } else {
      var n := f[p[0]];
      assert (at + [n.name]) + NamesAt(n.kids, p[1..]) == at + NamesAt(f, p);
      SetOneBranch(m, at + [n.name], n.kids, p[1..], ks);
      UpdateOneBranch(m, at, f, p[0], n.(kids := SetKids(n.kids, p[1..], ks)));
    }
  }

  /** Nothing that is there lies beside a missing ancestor, in another branch. */
  ghost predicate MissingUnrivalled(m: Model, f: seq<Node>, parents: seq<Node>)
    requires AllElements(parents)
  {
    var ids := IdsOf(m, [], parents);
    forall j, y :: 0 <= j < |parents| && Lookup(m, [], f, ids[..j + 1]).None? ==>
      BesideOk(m, f, parents, j, y)
  }

  predicate BesideOk(m: Model, f: seq<Node>, parents: seq<Node>, j: nat, y: Id)
    requires AllElements(parents) && j < |parents|
  {
    Lookup(m, [], f, IdsOf(m, [], parents)[..j] + [y]).Some? ==>
      !Rivals(m, Names(parents)[..j], parents[j].name, y.name)
  }

  lemma RivalsSwap(m: Model, at: seq<string>, a: string, b: string)
    ensures Rivals(m, at, a, b) <==> Rivals(m, at, b, a)
    ensures !Rivals(m, at, a, a)
  {
  }

  /** An empty new child joins a list without breaking choices exactly if it has no rival
      there. */
  lemma JoinsList(m: Model, at: seq<string>, kids: seq<Node>, n: Node)
    requires OneBranch(m, at, kids) && n.Element? && n.kids == []
    ensures OneBranch(m, at, kids + [n]) <==> NoRival(m, at, kids, n.name)
  {
    hide Rivals;
    if NoRival(m, at, kids, n.name) {
      AppendOneBranch(m, at, kids, n);
    }
    if OneBranch(m, at, kids + [n]) {
      var r := kids + [n];
      forall i | 0 <= i < |kids| && kids[i].Element?
        ensures !Rivals(m, at, n.name, kids[i].name)
      {
        assert r[i] == kids[i] && r[|kids|] == n;
      }
    }
  }

  /** The list of a parent that has just been created is empty. */
  lemma {:induction false} CreatedEmpty(m: Model, f: seq<Node>, chain: seq<Node>)
    requires AllElements(chain) && chain != [] && FindEquiv(m, [], f, chain).None?
    ensures var (g, p) := CreateParents(m, f, chain); KidsAt(g, p) == []
  {
    hide FindEquiv, Names;
    if |chain| == 1 {
      assert [0][1..] == [];
    } else {
      var up, bare := chain[..|chain| - 1], Bare(chain[|chain| - 1]);
      var (g, p) := CreateParents(m, f, up);
      var kids := KidsAt(g, p);
      SetThenGet(g, p, kids + [bare]);
      ListSnoc(SetKids(g, p, kids + [bare]), p, |kids|);
    }
  }

  /** What stands in the list that a chain finds, in terms of the map. */
  lemma BesideFound(m: Model, f: seq<Node>, up: seq<Node>, p: Path, name: string)
    requires WellKeyed(m) && FitKids(m, [], f) && Passable(m, [], up) && AllElements(up)
    requires FindEquiv(m, [], f, up) == Some(p) && IsList(f, p)
    ensures NoRival(m, Names(up), KidsAt(f, p), name) <==>
      forall y :: Lookup(m, [], f, IdsOf(m, [], up) + [y]).Some? ==> !Rivals(m, Names(up), name, y.name)
  {
    hide FitKids, FitNode, FindEquiv, Passable, IdOf, IdsOf, Lookup, Rivals, Names;
    var at, kids := Names(up), KidsAt(f, p);
    ParentFits(m, f, up, p);
    if NoRival(m, at, kids, name) {
      forall y | Lookup(m, [], f, IdsOf(m, [], up) + [y]).Some?
        ensures !Rivals(m, at, name, y.name)
      {
        LookupLast(m, f, up, p, y);
        var i := SeekId(m, at, kids, y).value;
        IdHasItsName(m, at, kids[i]);
      }
    }
    if forall y :: Lookup(m, [], f, IdsOf(m, [], up) + [y]).Some? ==> !Rivals(m, at, name, y.name) {
      forall i | 0 <= i < |kids| && kids[i].Element?
        ensures !Rivals(m, at, name, kids[i].name)
      {
        SeekFinds(m, at, kids, i);
        IdHasItsName(m, at, kids[i]);
        LookupLast(m, f, up, p, IdOf(m, at, kids[i]));
      }
    }
  }

  /** Exchanging a child list for another: one branch of each choice is left exactly if the
      new list has one. */
  lemma ExchangedOneBranch(m: Model, f: seq<Node>, p: Path, ks: seq<Node>)
    requires IsList(f, p) && OneBranch(m, NamesAt(f, p), KidsAt(f, p))
    ensures OneBranch(m, [], SetKids(f, p, ks)) <==> OneBranch(m, [], f) && OneBranch(m, NamesAt(f, p), ks)
  {
    hide OneBranch, KidsAt, SetKids, IsList, NamesAt;
    assert [] + NamesAt(f, p) == NamesAt(f, p);
    var g := SetKids(f, p, ks);
    SetThenGet(f, p, ks);
    NamesBelow(f, p, ks);
    if OneBranch(m, [], g) {
      OneBranchAt(m, [], g, p);
      SetOneBranch(m, [], g, p, KidsAt(f, p));
      SetThenSet(f, p, ks, KidsAt(f, p));
      SetGet(f, p);
    }
    if OneBranch(m, [], f) && OneBranch(m, NamesAt(f, p), ks) {
      SetOneBranch(m, [], f, p, ks);
    }
  }

  lemma NoneMissing(m: Model, f: seq<Node>, chain: seq<Node>)
    requires FitKids(m, [], f) && Passable(m, [], chain) && AllElements(chain) && FindEquiv(m, [], f, chain).Some?
    ensures MissingUnrivalled(m, f, chain)
  {
    hide FitKids, FindEquiv, Passable, IdsOf, Lookup, BesideOk;
    if !MissingUnrivalled(m, f, chain) {
      var ids := IdsOf(m, [], chain);
      var j, y :| 0 <= j < |chain| && Lookup(m, [], f, ids[..j + 1]).None? && !BesideOk(m, f, chain, j, y);
      FoundIsThere(m, [], f, chain);
      LookupPrefix(m, [], f, ids, j + 1);
      assert false;
    }
  }

  /** The condition for a chain is that for all but its last node, and that for the last. */
  lemma UnrivalledSnoc(m: Model, f: seq<Node>, up: seq<Node>, e: Node)
    requires AllElements(up) && e.Element? && AllElements(up + [e])
    requires Lookup(m, [], f, IdsOf(m, [], up + [e])).None?
    ensures MissingUnrivalled(m, f, up + [e]) <==>
      MissingUnrivalled(m, f, up) &&
      forall y :: Lookup(m, [], f, IdsOf(m, [], up) + [y]).Some? ==> !Rivals(m, Names(up), e.name, y.name)
  {
    hide IdOf, IdsOf, Lookup, Names, Rivals;
    var chain := up + [e];
    var ids, us := IdsOf(m, [], chain), IdsOf(m, [], up);
    IdsSnoc(m, [], up, e);
    NamesSnoc(up, e);
    assert [] + Names(up) == Names(up);
    assert ids[..|up| + 1] == ids && ids[..|up|] == us && Names(chain)[..|up|] == Names(up) && chain[|up|] == e;
    forall j, y: Id | 0 <= j < |up|
      ensures BesideOk(m, f, chain, j, y) <==> BesideOk(m, f, up, j, y)
    {
      assert ids[..j] == us[..j] && Names(chain)[..j] == Names(up)[..j] && chain[j] == up[j];
    }
    forall y: Id
      ensures BesideOk(m, f, chain, |up|, y) <==>
        (Lookup(m, [], f, us + [y]).Some? ==> !Rivals(m, Names(up), e.name, y.name))
    {
    }
    UnrivalledParts(m, f, up, e);
  }

  lemma UnrivalledParts(m: Model, f: seq<Node>, up: seq<Node>, e: Node)
    requires AllElements(up) && e.Element? && AllElements(up + [e])
    requires var ids, us := IdsOf(m, [], up + [e]), IdsOf(m, [], up);
      |us| == |up| && Lookup(m, [], f, ids[..|up| + 1]).None? &&
      |ids| == |up| + 1 && ids[..|up|] == us &&
      forall j, y :: 0 <= j < |up| ==> (BesideOk(m, f, up + [e], j, y) <==> BesideOk(m, f, up, j, y))
    ensures MissingUnrivalled(m, f, up + [e]) <==>
      MissingUnrivalled(m, f, up) && forall y :: BesideOk(m, f, up + [e], |up|, y)
  {
    hide IdOf, IdsOf, Lookup, BesideOk;
    var ids, us := IdsOf(m, [], up + [e]), IdsOf(m, [], up);
    if MissingUnrivalled(m, f, up + [e]) {
      forall j, y | 0 <= j < |up| && Lookup(m, [], f, us[..j + 1]).None?
        ensures BesideOk(m, f, up, j, y)
      {
        assert us[..j + 1] == ids[..|up|][..j + 1] == ids[..j + 1];
        assert BesideOk(m, f, up + [e], j, y);
      }
    }
    if MissingUnrivalled(m, f, up) && forall y :: BesideOk(m, f, up + [e], |up|, y) {
      forall j, y | 0 <= j < |up| + 1 && Lookup(m, [], f, ids[..j + 1]).None?
        ensures BesideOk(m, f, up + [e], j, y)
      {
        if j < |up| {
          assert us[..j + 1] == ids[..|up|][..j + 1] == ids[..j + 1];
          assert BesideOk(m, f, up, j, y);
        }
      }
    }
  }

  /** Creating the missing ancestors leaves one branch of each choice if and only if none of
      them has a rival beside it: they are added without a look at choices. */
  lemma {:induction false} ParentsOneBranch(m: Model, f: seq<Node>, chain: seq<Node>)
    requires WellKeyed(m) && FitKids(m, [], f) && OneBranch(m, [], f)
    requires Passable(m, [], chain) && AllElements(chain) && RootThere(m, f, chain)
    ensures OneBranch(m, [], CreateParents(m, f, chain).0) <==> MissingUnrivalled(m, f, chain)
    decreases |chain|
  {
    hide FitKids, FitNode, FindEquiv, Passable, IdOf, IdsOf, Lookup, Names, KidsAt, SetKids, IsList, NamesAt, OneBranch,
      MissingUnrivalled, Rivals, RootThere;
    var (g, p) := CreateParents(m, f, chain);
    if FindEquiv(m, [], f, chain).Some? {
      NoneMissing(m, f, chain);
    } else {
      NothingMissing(m, f, chain);
      FoundIsThere(m, [], f, chain);
      var up, e := chain[..|chain| - 1], chain[|chain| - 1];
      assert chain == up + [e];
      UpRootThere(m, f, up, e);
      UnrivalledSnoc(m, f, up, e);
      if |chain| == 1 {
        RootUnrivalled(m, f, chain);
      } else {
        ParentsOneBranch(m, f, up);
        var (g0, p0) := CreateParents(m, f, up);
        CreatedNames(m, f, up);
        LastParent(m, f, up, e, g0, p0);
      }
    }
  }

  lemma UpRootThere(m: Model, f: seq<Node>, up: seq<Node>, e: Node)
    requires Passable(m, [], up + [e]) && AllElements(up + [e]) && RootThere(m, f, up + [e])
    ensures AllElements(up) && e.Element? && Passable(m, [], up) && RootThere(m, f, up)
  {
    hide IdOf, IdsOf, Lookup, Passable;
    var chain := up + [e];
    assert chain[|up|] == e && forall j :: 0 <= j < |up| ==> chain[j] == up[j];
    PassableSnoc(m, [], up, e);
    IdsSnoc(m, [], up, e);
    if up != [] {
      assert IdsOf(m, [], chain)[..1] == IdsOf(m, [], up)[..1];
    }
  }

  lemma RootUnrivalled(m: Model, f: seq<Node>, chain: seq<Node>)
    requires FitKids(m, [], f) && Passable(m, [], chain) && AllElements(chain) && RootThere(m, f, chain)
    requires |chain| == 1 && FindEquiv(m, [], f, chain).None?
    ensures OneBranch(m, [], CreateParents(m, f, chain).0) && MissingUnrivalled(m, f, chain)
  {
    hide FindEquiv, Passable, IdOf, Lookup;
    FoundIsThere(m, [], f, chain);
    var ids, g := IdsOf(m, [], chain), CreateParents(m, f, chain).0;
    assert ids[..1] == ids;
    assert f == [] && g == [Bare(chain[0])];
    RivalsSwap(m, [], chain[0].name, chain[0].name);
    forall y: Id
      ensures Lookup(m, [], f, ids[..0] + [y]).None?
    {
      EmptyLookup(m, [], ids[..0] + [y]);
    }
  }

  lemma LastParent(m: Model, f: seq<Node>, up: seq<Node>, e: Node, g0: seq<Node>, p0: Path)
    requires WellKeyed(m) && FitKids(m, [], f) && OneBranch(m, [], f) && Passable(m, [], up) && AllElements(up)
    requires up != [] && e.Element? && (g0, p0) == CreateParents(m, f, up) && NamesAt(g0, p0) == Names(up)
    ensures OneBranch(m, [], SetKids(g0, p0, KidsAt(g0, p0) + [Bare(e)])) <==>
      OneBranch(m, [], g0) &&
      forall y :: Lookup(m, [], f, IdsOf(m, [], up) + [y]).Some? ==> !Rivals(m, Names(up), e.name, y.name)
  {
    hide FitKids, FitNode, FindEquiv, Passable, IdOf, IdsOf, Lookup, Names, KidsAt, SetKids, IsList, NamesAt, OneBranch,
      Rivals;
    var kids := KidsAt(g0, p0);
    FoundIsThere(m, [], f, up);
    if FindEquiv(m, [], f, up).Some? {
      OneBranchAt(m, [], f, p0);
      assert [] + NamesAt(f, p0) == NamesAt(f, p0);
      BesideFound(m, f, up, p0, e.name);
    } else {
      CreatedEmpty(m, f, up);
      NoKidsOneBranch(m, Names(up), e.name);
      forall y: Id
        ensures Lookup(m, [], f, IdsOf(m, [], up) + [y]).None?
      {
        var ids := IdsOf(m, [], up) + [y];
        assert ids[..|up|] == IdsOf(m, [], up);
        if Lookup(m, [], f, ids).Some? {
          LookupPrefix(m, [], f, ids, |up|);
        }
      }
    }
    JoinsList(m, Names(up), kids, Bare(e));
    ExchangedOneBranch(m, g0, p0, kids + [Bare(e)]);
  }

  lemma NoKidsOneBranch(m: Model, at: seq<string>, name: string)
    ensures OneBranch(m, at, []) && NoRival(m, at, [], name)
  {
  }

  /** Creating a node leaves one branch of each choice if and only if no missing ancestor has
      a rival beside it: rivals are looked for beside the node alone. */
  lemma CreateKeepsOneBranch(m: Model, f: seq<Node>, parents: seq<Node>, n: Node)
    requires Mergeable(m) && FitKids(m, [], f) && OneBranch(m, [], f)
    requires Passable(m, [], parents) && AllElements(parents) && RootThere(m, f, parents)
    requires n.Element? && OneBranch(m, Names(parents) + [n.name], n.kids)
    ensures OneBranch(m, [], CreateNode(m, f, parents, n)) <==> MissingUnrivalled(m, f, parents)
  {
    hide FitKids, FitNode, FindEquiv, Passable, IdOf, IdsOf, Lookup, Names, KidsAt, SetKids, IsList, NamesAt, OneBranch,
      MissingUnrivalled, Rivals, RootThere, CreateParents, ChoiceClean;
    var at := Names(parents);
    var (g, p) := CreateParents(m, f, parents);
    var kids := KidsAt(g, p);
    ParentsOneBranch(m, f, parents);
    CreatedNames(m, f, parents);
    ListOneBranch(m, f, parents);
    CleanHasNoRival(m, at, kids, n.name);
    SubsetOneBranch(m, at, kids, ChoiceClean(m, at, kids, n.name));
    AppendOneBranch(m, at, ChoiceClean(m, at, kids, n.name), StripOp(n));
    ExchangedOneBranch(m, g, p, ChoiceClean(m, at, kids, n.name) + [StripOp(n)]);
  }

  lemma ListOneBranch(m: Model, f: seq<Node>, parents: seq<Node>)
    requires OneBranch(m, [], f) && AllElements(parents)
    ensures var (g, p) := CreateParents(m, f, parents); OneBranch(m, NamesAt(g, p), KidsAt(g, p))
  {
    hide FindEquiv, KidsAt, SetKids, IsList, NamesAt, OneBranch, Rivals;
    var (g, p) := CreateParents(m, f, parents);
    if FindEquiv(m, [], f, parents).Some? {
      OneBranchAt(m, [], f, p);
      assert [] + NamesAt(f, p) == NamesAt(f, p);
    } else {
      NothingMissing(m, f, parents);
      CreatedEmpty(m, f, parents);
      NoKidsOneBranch(m, NamesAt(g, p), "");
    }
  }

  /** A container with a choice between the container a, with a leaf x, and the leaf b. */
  predicate TwoBranches(m: Model, t: string, a: string, x: string, b: string) {
    var branches := [Stmt(Container(false), a, [Stmt(Leaf(None), x, [])]), Stmt(Leaf(None), b, [])];
    m.top == [Stmt(Container(false), t, [Stmt(Choice, "", branches)])] && a != b
  }

  /** An input: the leaf b is there and x is created below the missing container a. Both
      branches are there afterwards. */
  lemma BothBranchesLeft(m: Model, t: string, a: string, x: string, b: string, v: string, w: string)
    requires TwoBranches(m, t, a, x, b)
    ensures var f := [Element(t, map[], [Element(b, map[], [Text(v)])])];
      var parents, n := [Element(t, map[], []), Element(a, map[], [])], Element(x, map[], [Text(w)]);
      Mergeable(m) && FitKids(m, [], f) && OneBranch(m, [], f) && Passable(m, [], parents) &&
      RootThere(m, f, parents) && FitNode(m, [t, a], n) && !OneBranch(m, [], CreateNode(m, f, parents, n))
  {
    var leaf := Element(b, map[], [Text(v)]);
    var f := [Element(t, map[], [leaf])];
    var parents, n := [Element(t, map[], []), Element(a, map[], [])], Element(x, map[], [Text(w)]);
    DefinedBranches(m, t, a, x, b);
    hide KindOf, KeyStmts, BranchOf, CreateNode;
    hide FitKids, OneBranch, MissingUnrivalled, Passable, RootThere, Mergeable, FitNode, Names;
    BranchInput(m, t, a, x, b, leaf);
    LeafOfBranch(m, t, a, x, n);
    CreateKeepsOneBranch(m, f, parents, n);
  }

  lemma LeafOfBranch(m: Model, t: string, a: string, x: string, n: Node)
    requires KindOf(m, [t, a, x]) == Some(Leaf(None)) && KeyStmts(m.top) == []
    requires n.Element? && n.name == x && HoldsText(n)
    ensures FitNode(m, [t, a], n) && OneBranch(m, [t, a, x], n.kids) && [t, a] + [x] == [t, a, x]
    ensures Names([Element(t, map[], []), Element(a, map[], [])]) == [t, a]
  {
    hide KindOf, KeyStmts;
    assert [t, a] + [x] == [t, a, x];
    var parents := [Element(t, map[], []), Element(a, map[], [])];
    assert parents[1..] == [Element(a, map[], [])] && parents[1..][1..] == [];
  }

  lemma BranchInput(m: Model, t: string, a: string, x: string, b: string, leaf: Node)
    requires KindOf(m, [t]) == Some(Container(false)) && KindOf(m, [t, a]) == Some(Container(false))
    requires KindOf(m, [t, b]) == Some(Leaf(None)) && KeyStmts(m.top) == [] && a != b
    requires Rivals(m, [t], a, b) && leaf.Element? && leaf.name == b && HoldsText(leaf)
    ensures var f, parents := [Element(t, map[], [leaf])], [Element(t, map[], []), Element(a, map[], [])];
      Mergeable(m) && FitKids(m, [], f) && OneBranch(m, [], f) && Passable(m, [], parents) && AllElements(parents) &&
      RootThere(m, f, parents) && !MissingUnrivalled(m, f, parents)
  {
    hide KindOf, KeyStmts, Rivals;
    var f, parents := [Element(t, map[], [leaf])], [Element(t, map[], []), Element(a, map[], [])];
    assert [] + [t] == [t] && [t] + [a] == [t, a] && [t] + [b] == [t, b];
    assert parents[1..] == [Element(a, map[], [])] && parents[1..][1..] == [];
    RivalsSwap(m, [], t, t);
    RivalsSwap(m, [t], b, b);
    assert KeysOf(m, t) == [] && KeysOf(m, a) == [] && KeysOf(m, b) == [];
    assert FitNode(m, [t], leaf);
    assert FitKids(m, [t], [leaf]);
    assert FitNode(m, [], f[0]);
    assert OneBranch(m, [t, b], leaf.kids) && OneBranch(m, [t], [leaf]);
    assert OneBranch(m, [], f);
    assert Passable(m, [t, a], []) && Passable(m, [t], parents[1..]);
    BranchMissing(m, t, a, b, leaf);
  }

  lemma BranchMissing(m: Model, t: string, a: string, b: string, leaf: Node)
    requires KindOf(m, [t]) == Some(Container(false)) && KindOf(m, [t, a]) == Some(Container(false))
    requires KindOf(m, [t, b]) == Some(Leaf(None)) && KeyStmts(m.top) == [] && a != b
    requires Rivals(m, [t], a, b) && leaf.Element? && leaf.name == b
    ensures var f, parents := [Element(t, map[], [leaf])], [Element(t, map[], []), Element(a, map[], [])];
      AllElements(parents) && RootThere(m, f, parents) && !MissingUnrivalled(m, f, parents)
  {
    hide KindOf, KeyStmts, Rivals;
    var f, parents := [Element(t, map[], [leaf])], [Element(t, map[], []), Element(a, map[], [])];
    assert [] + [t] == [t] && [t] + [a] == [t, a] && [t] + [b] == [t, b];
    assert parents[1..] == [Element(a, map[], [])] && parents[1..][1..] == [];
    assert KeysOf(m, t) == [] && KeysOf(m, a) == [] && KeysOf(m, b) == [];
    var it, ia, y := Id(t, []), Id(a, []), Id(b, []);
    assert IdOf(m, [], f[0]) == it && IdOf(m, [t], parents[1]) == ia && IdOf(m, [t], leaf) == y;
    var ids := IdsOf(m, [], parents);
    assert IdsOf(m, [t], parents[1..]) == [ia] && ids == [it, ia];
    assert ids[..1] == [it] && ids[..2] == ids && ids[1..] == [ia] && [it, y][1..] == [y] && ids[..1] + [y] == [it, y];
    assert f[1..] == [] && [leaf][1..] == [];
    assert Lookup(m, [t], [leaf], [ia]).None? && Lookup(m, [t], [leaf], [y]).Some?;
    assert Lookup(m, [], f, ids).None? && Lookup(m, [], f, [it, y]).Some?;
    assert Names(parents)[..1] == [t];
    assert !BesideOk(m, f, parents, 1, y);
  }

  lemma DefinedBranches(m: Model, t: string, a: string, x: string, b: string)
    requires TwoBranches(m, t, a, x, b)
    ensures KindOf(m, [t]) == Some(Container(false)) && KindOf(m, [t, a]) == Some(Container(false))
    ensures KindOf(m, [t, b]) == Some(Leaf(None)) && KindOf(m, [t, a, x]) == Some(Leaf(None))
    ensures KeyStmts(m.top) == [] && Rivals(m, [t], a, b)
  {
    var c, ch := m.top[0], m.top[0].kids[0];
    hide FindModel, KeyStmts, StmtAt, IsStmt, BranchAbove;
    FoundBranches(m, t, a, x, b);
    NoKeyStmts(m, t, a, x, b);
    BranchStmts(m.top, c, ch);
    BranchHere(m.top, [0, 0, 0]);
    BranchHere(m.top, [0, 0, 1]);
    assert [t] + [a] == [t, a] && [t] + [b] == [t, b] && [0, 0, 0][2] != [0, 0, 1][2];
  }

  /** The statements of the choice and its branches. */
  lemma BranchStmts(top: seq<Stmt>, c: Stmt, ch: Stmt)
    requires top == [c] && c.kids == [ch] && |ch.kids| == 2 && |ch.kids[0].kids| == 1
    ensures IsStmt(top, [0]) && StmtAt(top, [0]) == c && IsStmt(top, [0, 0]) && StmtAt(top, [0, 0]) == ch
    ensures IsStmt(top, [0, 0, 0]) && StmtAt(top, [0, 0, 0]) == ch.kids[0]
    ensures IsStmt(top, [0, 0, 1]) && StmtAt(top, [0, 0, 1]) == ch.kids[1]
    ensures IsStmt(top, [0, 0, 0, 0]) && StmtAt(top, [0, 0, 0, 0]) == ch.kids[0].kids[0]
    ensures Parent([0, 0, 0]) == [0, 0] == Parent([0, 0, 1])
  {
    hide StmtAt, IsStmt;
    StmtOne(top, 0);
    StmtOne(c.kids, 0);
    StmtOne(ch.kids, 0);
    StmtOne(ch.kids, 1);
    StmtOne(ch.kids[0].kids, 0);
    assert [0] + [0] == [0, 0] && [0] + [1] == [0, 1] && [0] + [0, 0] == [0, 0, 0] && [0] + [0, 1] == [0, 0, 1];
    assert [0] + [0, 0, 0] == [0, 0, 0, 0];
    StmtStep(top, 0, [0]);
    StmtStep(c.kids, 0, [0]);
    StmtStep(c.kids, 0, [1]);
    StmtStep(ch.kids, 0, [0]);
    StmtStep(top, 0, [0, 0]);
    StmtStep(top, 0, [0, 1]);
    StmtStep(c.kids, 0, [0, 0]);
    StmtStep(top, 0, [0, 0, 0]);
  }

  lemma StmtOne(kids: seq<Stmt>, i: nat)
    requires i < |kids|
    ensures IsStmt(kids, [i]) && StmtAt(kids, [i]) == kids[i]
  {
  }

  lemma StmtStep(kids: seq<Stmt>, i: nat, q: Path)
    requires i < |kids| && IsStmt(kids[i].kids, q)
    ensures IsStmt(kids, [i] + q) && StmtAt(kids, [i] + q) == StmtAt(kids[i].kids, q)
  {
    assert ([i] + q)[1..] == q;
  }

  lemma BranchHere(kids: seq<Stmt>, pos: Path)
    requires IsStmt(kids, pos) && |pos| > 1 && IsStmt(kids, Parent(pos)) && StmtAt(kids, Parent(pos)).kind.Choice?
    ensures BranchAbove(kids, pos) == Some(pos)
  {
  }

  lemma NoKeyStmts(m: Model, t: string, a: string, x: string, b: string)
    requires TwoBranches(m, t, a, x, b)
    ensures KeyStmts(m.top) == []
  {
    var c, ch := m.top[0], m.top[0].kids[0];
    var ca, lb := ch.kids[0], ch.kids[1];
    assert m.top[1..] == [] && c.kids[1..] == [] && ch.kids[1..] == [lb] && [lb][1..] == [] && ca.kids[1..] == [];
    assert KeyStmtsOf(ca.kids[0]) == [] && KeyStmts(ca.kids) == [] && KeyStmtsOf(ca) == [];
    assert KeyStmtsOf(lb) == [] && KeyStmts([lb]) == [] && KeyStmts(ch.kids) == [];
    assert KeyStmtsOf(ch) == [] && KeyStmts(c.kids) == [] && KeyStmtsOf(c) == [];
  }

  lemma FoundBranches(m: Model, t: string, a: string, x: string, b: string)
    requires TwoBranches(m, t, a, x, b)
    ensures FindModel(m.top, [t]) == Some([0])
    ensures FindModel(m.top, [t, a]) == Some([0, 0, 0]) && FindModel(m.top, [t, b]) == Some([0, 0, 1])
    ensures FindModel(m.top, [t, a, x]) == Some([0, 0, 0, 0])
  {
    var c, ch := m.top[0], m.top[0].kids[0];
    var ca, lb := ch.kids[0], ch.kids[1];
    StmtsFound(c, ch, ca, lb, a, x, b);
    hide FindStmt, StmtAt, IsStmt;
    StmtOne(m.top, 0);
    StmtOne(ca.kids, 0);
    StmtOne(ch.kids, 0);
    StmtOne(ch.kids, 1);
    StmtStep(c.kids, 0, [0]);
    StmtStep(c.kids, 0, [1]);
    assert [0] + [0] == [0, 0] && [0] + [1] == [0, 1] && [0] + [0, 0] == [0, 0, 0] && [0] + [0, 1] == [0, 0, 1];
    FindOne(ca.kids, [x]);
    FindOne(c.kids, [a]);
    FindOne(c.kids, [b]);
    FindDown(c.kids, [a, x], [0]);
    TopFound(m, t);
    FindOne(m.top, [t]);
    FindDown(m.top, [t, a], [0, 0]);
    FindDown(m.top, [t, b], [0, 1]);
    assert [0, 0] + [0] == [0, 0, 0];
    FindDown(m.top, [t, a, x], [0, 0, 0]);
    assert [0] + [0, 0, 0] == [0, 0, 0, 0];
  }

  lemma TopFound(m: Model, t: string)
    requires |m.top| == 1 && m.top[0].kind.Container? && m.top[0].name == t
    ensures FindStmt(m.top, t) == Some([0])
  {
    assert [0] + [] == [0];
  }

  lemma FindOne(kids: seq<Stmt>, names: seq<string>)
    requires |names| == 1 && FindStmt(kids, names[0]).Some?
    ensures FindModel(kids, names) == FindStmt(kids, names[0])
  {
    var p := FindStmt(kids, names[0]).value;
    assert names[1..] == [] && p + [] == p;
  }

  lemma FindDown(kids: seq<Stmt>, names: seq<string>, q: Path)
    requires |names| > 1 && FindStmt(kids, names[0]).Some?
    requires FindModel(StmtAt(kids, FindStmt(kids, names[0]).value).kids, names[1..]) == Some(q)
    ensures FindModel(kids, names) == Some(FindStmt(kids, names[0]).value + q)
  {
  }

  lemma StmtsFound(c: Stmt, ch: Stmt, ca: Stmt, lb: Stmt, a: string, x: string, b: string)
    requires c.kids == [ch] && ch.kind.Choice? && ch.kids == [ca, lb] && a != b
    requires ca == Stmt(Container(false), a, [Stmt(Leaf(None), x, [])]) && lb == Stmt(Leaf(None), b, [])
    ensures FindStmt(c.kids, a) == Some([0, 0]) && FindStmt(c.kids, b) == Some([0, 1])
    ensures FindStmt(ca.kids, x) == Some([0])
  {
    assert ch.kids[1..] == [lb];
    assert CompareStmt(ca, a) == Some([]) && CompareStmt(ca, b) == None && CompareStmt(lb, b) == Some([]);
    assert [0] + [] == [0] && [0][1..] == [] && [0][0] + 1 == 1 && [1] + [] == [1];
    assert FindStmt(ch.kids, a) == Some([0]) && FindStmt([lb], b) == Some([0]) && FindStmt(ch.kids, b) == Some([1]);
    assert CompareStmt(ch, a) == Some([0]) && CompareStmt(ch, b) == Some([1]);
    assert [0] + [0] == [0, 0] && [0] + [1] == [0, 1];
    assert CompareStmt(ca.kids[0], x) == Some([]);
  }
}
