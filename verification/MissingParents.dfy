/** Creating missing ancestors: exactly when the document stays fit. */
module MissingParents {
  import opened Xml
  import opened Schema
  import opened Matching
  import opened Instances
  import opened Equivalents
  import opened MergeMeaning
  import opened Creation
  import opened Tracking
  import opened Targets
  import opened Deletion
  import opened Effects

  lemma {:induction false} LevelNames(m: Model, at: seq<string>, chain: seq<Node>, found: seq<Node>)
    requires LevelMatch(m, at, chain, found)
    ensures Names(found) == Names(chain)
    decreases chain
  {
    hide IsLeafList, KeysMatch;
    if chain != [] {
      LevelNames(m, at + [NameOf(chain[0])], chain[1..], found[1..]);
    }
  }

  lemma {:induction false} ListNames(f: seq<Node>, p: Path)
    requires IsList(f, p)
    ensures p == [] || IsNode(f, p)
    ensures Names(Chain(f, p)) == NamesAt(f, p)
    decreases p
  {
    if p != [] {
      NodeOwnsList(f, p);
      ListNames(f[p[0]].kids, p[1..]);
      if |p| == 1 {
        assert Chain(f, p)[1..] == [] && p[1..] == [];
      } else {
        assert Chain(f, p)[1..] == Chain(f[p[0]].kids, p[1..]);
      }
    }
  }

  /** The list that creating a chain ends at is named like the chain. */
  lemma {:induction false} CreatedNames(m: Model, f: seq<Node>, chain: seq<Node>)
    requires AllElements(chain)
    ensures NamesAt(CreateParents(m, f, chain).0, CreateParents(m, f, chain).1) == Names(chain)
    decreases |chain|
  {
    hide FindEquiv, NamesAt, KidsAt, SetKids, IsList, Names, Chain, LevelMatch;
    var (g, p) := CreateParents(m, f, chain);
    if FindEquiv(m, [], f, chain).Some? {
      FindIsList(m, f, chain);
      ListNames(f, p);
      FoundMatches(m, [], f, chain);
      LevelNames(m, [], chain, Chain(f, p));
    } else if |chain| == 1 {
      OneCreated(m, f, chain);
    } else {
      NothingMissing(m, f, chain);
      var up, e := chain[..|chain| - 1], chain[|chain| - 1];
      assert chain == up + [e];
      CreatedNames(m, f, up);
      var (g0, p0) := CreateParents(m, f, up);
      var kids := KidsAt(g0, p0) + [Bare(e)];
      NamesBelow(g0, p0, kids);
      SetThenGet(g0, p0, kids);
      ListSnoc(g, p0, |KidsAt(g0, p0)|);
      NamesOneMore(g, p0, |KidsAt(g0, p0)|);
      NamesSnoc(up, e);
    }
  }

  lemma NothingMissing(m: Model, f: seq<Node>, chain: seq<Node>)
    ensures FindEquiv(m, [], f, chain).None? ==> chain != []
  {
  }

  lemma OneCreated(m: Model, f: seq<Node>, chain: seq<Node>)
    requires AllElements(chain) && |chain| == 1 && FindEquiv(m, [], f, chain).None?
    ensures NamesAt(CreateParents(m, f, chain).0, CreateParents(m, f, chain).1) == Names(chain)
  {
    assert [0][1..] == [] && chain[1..] == [];
  }

  lemma {:induction false} NamesOneMore(f: seq<Node>, p: Path, i: nat)
    requires IsList(f, p) && IsList(f, p + [i]) && i < |KidsAt(f, p)| && KidsAt(f, p)[i].Element?
    ensures NamesAt(f, p + [i]) == NamesAt(f, p) + [KidsAt(f, p)[i].name]
    decreases p
  {
    if p == [] {
      assert [] + [i] == [i] && [i][1..] == [];
    } else {
      assert (p + [i])[1..] == p[1..] + [i];
      NamesOneMore(f[p[0]].kids, p[1..], i);
    }
  }

  /** Taking the last child of the list at p out of a fit document. */
  lemma LastOut(m: Model, f: seq<Node>, p: Path, kids: seq<Node>, n: Node)
    requires WellKeyed(m) && IsList(f, p) && FitKids(m, [], SetKids(f, p, kids + [n]))
    requires n.Element? && !IsKeyAt(m, NamesAt(f, p), n.name) && kids == KidsAt(f, p)
    ensures FitKids(m, [], f) && FitNode(m, NamesAt(f, p), n)
  {
    hide FitKids, FitNode, FindEquiv, Passable, IsKeyAt, NamesAt, KidsAt, SetKids, IsList, Names, Chain, KeysKept;
    var g := SetKids(f, p, kids + [n]);
    NamesBelow(f, p, kids + [n]);
    SetThenGet(f, p, kids + [n]);
    NodeSnoc(g, p, |kids|);
    FitPath(m, [], g, p + [|kids|]);
    assert Parent(p + [|kids|]) == p;
    ListNames(g, p);
    assert [] + NamesAt(g, p) == NamesAt(g, p);
    var up := Chain(g, p);
    if p == [] {
      FindNothing(m, [], g);
      NoChain(g);
    } else {
      NodeOwnsList(g, p);
      FitPath(m, [], g, p);
    }
    ParentFits(m, g, up, p);
    assert Without(kids + [n], |kids|) == kids;
    WithoutFits(m, NamesAt(f, p), kids + [n], |kids|);
    KeysKeptWithout(m, NamesAt(f, p), kids + [n], |kids|);
    SetBelow(m, [], g, up, p, kids);
    SetThenSet(f, p, kids + [n], kids);
    SetGet(f, p);
  }

  lemma NoChain(f: seq<Node>)
    ensures Chain(f, []) == []
  {
  }

  lemma UpIsMissing(m: Model, f: seq<Node>, up: seq<Node>, e: Node)
    requires Passable(m, [], up + [e]) && AllElements(up + [e]) && RootThere(m, f, up + [e])
    ensures AllElements(up) && e.Element? && Passable(m, [], up) && RootThere(m, f, up)
    ensures !IsKeyAt(m, Names(up), e.name)
    ensures MissingAreContainers(m, f, up) && FitNode(m, Names(up), Bare(e)) ==> MissingAreContainers(m, f, up + [e])
  {
    hide IdOf, IdsOf, FitNode, Lookup, Names, Passable, IsKeyAt, Addressed;
    var chain := up + [e];
    assert chain[|up|] == e && forall j :: 0 <= j < |up| ==> chain[j] == up[j];
    PassableSnoc(m, [], up, e);
    IdsSnoc(m, [], up, e);
    NamesSnoc(up, e);
    assert [] + Names(up) == Names(up);
    var ids, us := IdsOf(m, [], chain), IdsOf(m, [], up);
    if up != [] {
      assert ids[..1] == us[..1];
    }
    if MissingAreContainers(m, f, up) && FitNode(m, Names(up), Bare(e)) {
      forall j | 0 <= j < |chain| && Lookup(m, [], f, ids[..j + 1]).None?
        ensures FitNode(m, Names(chain)[..j], Bare(chain[j]))
      {
        if j < |up| {
          assert ids[..j + 1] == us[..j + 1] && Names(chain)[..j] == Names(up)[..j];
        } else {
          assert Names(chain)[..j] == Names(up);
        }
      }
    }
  }

  lemma OnlyRoot(m: Model, f: seq<Node>, chain: seq<Node>)
    requires FitKids(m, [], f) && Passable(m, [], chain) && AllElements(chain) && RootThere(m, f, chain)
    requires |chain| == 1 && FindEquiv(m, [], f, chain).None?
    ensures FitKids(m, [], CreateParents(m, f, chain).0) ==> MissingAreContainers(m, f, chain)
  {
    hide FindEquiv, Passable, IdOf, Lookup, FitNode;
    FoundIsThere(m, [], f, chain);
    var ids, g := IdsOf(m, [], chain), CreateParents(m, f, chain).0;
    assert ids[..1] == ids && Names(chain)[..0] == [];
    assert f == [] && g == [Bare(chain[0])];
    if FitKids(m, [], g) {
      assert FitNode(m, [], g[0]);
    }
  }

  /** Creating the missing ancestors of a node leaves the document fit if and only if they
      are fit without children. */
  lemma {:induction false} CreationFitsBare(m: Model, f: seq<Node>, chain: seq<Node>)
    requires WellKeyed(m) && FitKids(m, [], f) && Passable(m, [], chain) && AllElements(chain) && RootThere(m, f, chain)
    ensures FitKids(m, [], CreateParents(m, f, chain).0) <==> MissingAreContainers(m, f, chain)
    decreases |chain|
  {
    hide FitKids, FitNode, FindEquiv, Passable, IdOf, IdsOf, Lookup, Names, KidsAt, SetKids, IsList, NamesAt, IsKeyAt;
    var (g, p) := CreateParents(m, f, chain);
    if MissingAreContainers(m, f, chain) {
      ParentsEffect(m, f, chain, [Id("", [])]);
    } else if FindEquiv(m, [], f, chain).Some? {
      NothingIsMissing(m, f, chain);
    } else {
      NothingMissing(m, f, chain);
      var up, e := chain[..|chain| - 1], chain[|chain| - 1];
      assert chain == up + [e];
      UpIsMissing(m, f, up, e);
      if |chain| == 1 {
        OnlyRoot(m, f, chain);
      } else {
        CreationFitsBare(m, f, up);
        CreatedNames(m, f, up);
        if FitKids(m, [], g) {
          var (g0, p0) := CreateParents(m, f, up);
          LastOut(m, g0, p0, KidsAt(g0, p0), Bare(e));
        }
      }
    }
  }

  lemma NothingIsMissing(m: Model, f: seq<Node>, chain: seq<Node>)
    requires FitKids(m, [], f) && Passable(m, [], chain) && AllElements(chain) && FindEquiv(m, [], f, chain).Some?
    ensures MissingAreContainers(m, f, chain)
  {
    hide FitKids, FitNode, FindEquiv, Passable, IdsOf, Lookup;
    if !MissingAreContainers(m, f, chain) {
      var ids := IdsOf(m, [], chain);
      var j :| 0 <= j < |chain| && Lookup(m, [], f, ids[..j + 1]).None? &&
        !FitNode(m, Names(chain)[..j], Bare(chain[j]));
      FoundIsThere(m, [], f, chain);
      LookupPrefix(m, [], f, ids, j + 1);
      assert false;
    }
  }

  // ---- in terms of the model

  /** What is missing of the chain has no keys: it is a container, or a list without keys. */
  ghost predicate MissingAreKeyless(m: Model, f: seq<Node>, chain: seq<Node>)
    requires AllElements(chain)
  {
    forall j :: 0 <= j < |chain| && Lookup(m, [], f, IdsOf(m, [], chain)[..j + 1]).None? ==>
      KeysOf(m, chain[j].name) == []
  }

  lemma {:induction false} PassableAt(m: Model, at: seq<string>, chain: seq<Node>, j: nat)
    requires Passable(m, at, chain) && j < |chain|
    ensures chain[j].Element? && Holder(m, at + Names(chain)[..j] + [chain[j].name])
    ensures !IsKeyAt(m, at + Names(chain)[..j], chain[j].name)
    decreases chain
  {
    hide Holder, IsKeyAt, Addressed;
    PassableElements(m, at, chain);
    if j == 0 {
      assert Names(chain)[..0] == [] && at + [] == at;
    } else {
      PassableAt(m, at + [chain[0].name], chain[1..], j - 1);
      assert at + Names(chain)[..j] == at + [chain[0].name] + Names(chain[1..])[..j - 1];
    }
  }

  /** An element that can have children is fit without any exactly if it has no keys. */
  lemma BareFits(m: Model, at: seq<string>, e: Node)
    requires e.Element? && Holder(m, at + [e.name]) && !IsKeyAt(m, at, e.name)
    ensures FitNode(m, at, Bare(e)) <==> KeysOf(m, e.name) == []
  {
    hide KindOf, IsKeyAt;
    var b := Bare(e);
    if KeysOf(m, e.name) != [] {
      assert KeysOf(m, e.name)[0] in KeysOf(m, e.name) && FirstNamed([], KeysOf(m, e.name)[0]).None?;
    }
    assert FitKids(m, at + [e.name], []);
  }

  /** Creating the missing ancestors of a node leaves the document fit if and only if none of
      them is a list with keys. */
  lemma CreationFitsExactly(m: Model, f: seq<Node>, chain: seq<Node>)
    requires WellKeyed(m) && FitKids(m, [], f) && Passable(m, [], chain) && AllElements(chain) && RootThere(m, f, chain)
    ensures FitKids(m, [], CreateParents(m, f, chain).0) <==> MissingAreKeyless(m, f, chain)
  {
    hide FitKids, FitNode, Passable, IdsOf, Lookup, Names, Holder, IsKeyAt, RootThere, CreateParents;
    CreationFitsBare(m, f, chain);
    forall j | 0 <= j < |chain|
      ensures FitNode(m, Names(chain)[..j], Bare(chain[j])) <==> KeysOf(m, chain[j].name) == []
    {
      PassableAt(m, [], chain, j);
      assert [] + Names(chain)[..j] == Names(chain)[..j];
      BareFits(m, Names(chain)[..j], chain[j]);
    }
  }

  /** An input: in a model with a list in a container, the container is there, and something
      is created in an entry that is not. */
  lemma CreatedEntryHasNoKey(m: Model, a: string, b: string, k: string, v: string)
    requires m.top == [Stmt(Container(false), a, [Stmt(List([k], false), b, [Stmt(Leaf(None), k, [])])])] && a != b
    ensures var f := [Element(a, map[], [])];
      var chain := [Element(a, map[], []), Element(b, map[], [Element(k, map[], [Text(v)])])];
      WellKeyed(m) && FitKids(m, [], f) && Passable(m, [], chain) && RootThere(m, f, chain) &&
      !FitKids(m, [], CreateParents(m, f, chain).0)
  {
    var f := [Element(a, map[], [])];
    var e := Element(b, map[], [Element(k, map[], [Text(v)])]);
    var chain := [Element(a, map[], []), e];
    DefinedList(m, a, b, k);
    hide KindOf, KeysOf, FindModel, KeyStmts, CreateParents, IsKey;
    assert [] + [a] == [a] && [a] + [b] == [a, b] && chain[1..] == [e] && [e][1..] == [] && f[1..] == [];
    assert Passable(m, [a], [e]) by {
      assert FirstNamed(e.kids, k) == Some(0);
    }
    assert FitKids(m, [a], []);
    assert FitNode(m, [], f[0]);
    var ids := IdsOf(m, [], chain);
    assert ids[..1] == [IdOf(m, [], f[0])] && ids[..2] == ids;
    assert Lookup(m, [], f, ids).None? by {
      EmptyLookup(m, [a], ids[1..]);
    }
    assert chain[1] == e && !MissingAreKeyless(m, f, chain);
    CreationFitsExactly(m, f, chain);
  }

  lemma DefinedList(m: Model, a: string, b: string, k: string)
    requires m.top == [Stmt(Container(false), a, [Stmt(List([k], false), b, [Stmt(Leaf(None), k, [])])])] && a != b
    ensures KindOf(m, [a]) == Some(Container(false)) && KindOf(m, [a, b]) == Some(List([k], false))
    ensures KeysOf(m, a) == [] && KeysOf(m, b) == [k] && WellKeyed(m) && !IsKey(m, a, b)
  {
    var c, l := m.top[0], m.top[0].kids[0];
    assert [0] + [] == [0] && ([0] + [0])[1..] == [0];
    assert [a][1..] == [] && [a, b][1..] == [b] && [b][1..] == [];
    assert CompareStmt(c, a) == Some([]) && CompareStmt(l, b) == Some([]);
    assert FindModel(c.kids, []) == Some([]) && FindModel(l.kids, []) == Some([]);
    assert FindModel(c.kids, [b]) == Some([0]);
    assert FindModel(m.top, [a]) == Some([0]) && FindModel(m.top, [a, b]) == Some([0] + [0]);
    assert m.top[1..] == [] && c.kids[1..] == [] && l.kids[1..] == [];
    assert KeyStmts([]) == [] && KeyStmtsOf(l.kids[0]) == [] && KeyStmts(l.kids) == [];
    assert KeyStmtsOf(l) == [KeyStmt(b, [k])] && KeyStmts(c.kids) == [KeyStmt(b, [k])];
    var ks := [KeyStmt(b, [k])];
    assert KeyStmts(m.top) == ks && ks[1..] == [];
    assert KeysIn(ks, a) == KeysIn(ks[1..], a) == [];
  }
}
