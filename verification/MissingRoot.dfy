/** Creating a node whose root is missing: exactly when nothing of the configuration is
    lost. */
module MissingRoot {
  import opened Xml
  import opened Schema
  import opened Matching
  import opened Instances
  import opened Equivalents
  import opened Merge
  import opened Creation
  import opened Targets
  import opened Effects

  /** The new root in the place of the first root. */
  function Replaced(f: seq<Node>, chain: seq<Node>): seq<Node>
    requires f != [] && chain != []
  {
    f[0 := Bare(chain[0])]
  }

  /** The document has roots, but not the one the chain starts at. */
  predicate RootMissing(m: Model, f: seq<Node>, chain: seq<Node>) {
    f != [] && chain != [] && Passable(m, [], chain) && SeekId(m, [], f, IdOf(m, [], chain[0])).None?
  }

  lemma NewRootFits(m: Model, f: seq<Node>, chain: seq<Node>)
    requires WellKeyed(m) && FitKids(m, [], f) && RootMissing(m, f, chain) && FitNode(m, [], Bare(chain[0]))
    ensures FitKids(m, [], Replaced(f, chain))
    ensures IdOf(m, [], Bare(chain[0])) == IdOf(m, [], chain[0])
    ensures SeekId(m, [], Replaced(f, chain), IdOf(m, [], chain[0])) == Some(0)
    ensures FirstMatch(m, chain[0], Replaced(f, chain), IsLeafList(m, [chain[0].name])) == Some(0)
  {
    assert [] + [chain[0].name] == [chain[0].name];
    hide IdOf, FitNode, SeekId, Addressed;
    BareSame(m, [], chain[0]);
    var g := Replaced(f, chain);
    forall i | 0 <= i < |g|
      ensures FitNode(m, [], g[i])
    {
    }
    forall i | 0 < i < |g|
      ensures IdOf(m, [], g[i]) != IdOf(m, [], g[0])
    {
      FitNodeAddressed(m, [], f[i]);
    }
    assert FitKids(m, [], g);
    SeekFinds(m, [], g, 0);
    MatchIsSeek(m, [], g, chain[0]);
  }

  lemma {:induction false} NotFoundBefore(m: Model, f: seq<Node>, chain: seq<Node>)
    requires FitKids(m, [], f) && RootMissing(m, f, chain)
    ensures FindEquiv(m, [], f, chain).None?
  {
    hide IdOf, FitKids, SeekId, FirstMatch, IsLeafList;
    MatchIsSeek(m, [], f, chain[0]);
  }

  /** Below the new root, which has no children, nothing is found yet. */
  lemma {:induction false} OnlyRootAfter(m: Model, g: seq<Node>, chain: seq<Node>)
    requires g != [] && chain != [] && g[0] == Bare(chain[0]) && chain[0].Element?
    requires FirstMatch(m, chain[0], g, IsLeafList(m, [chain[0].name])) == Some(0)
    ensures FindEquiv(m, [], g, chain) == if |chain| == 1 then Some([0]) else None
  {
    assert [] + [chain[0].name] == [chain[0].name];
    assert [0] + [] == [0];
    hide FirstMatch, IsLeafList;
    if |chain| == 1 {
      assert chain[1..] == [];
    } else {
      NoneAmongNone(m, chain[1], IsLeafList(m, [chain[0].name] + [NameOf(chain[1])]));
    }
  }

  lemma NoneAmongNone(m: Model, e: Node, leaf: bool)
    ensures FirstMatch(m, e, [], leaf).None?
  {
  }

  /** A missing root first takes the place of the first root. */
  lemma {:induction false} RootComesFirst(m: Model, f: seq<Node>, chain: seq<Node>)
    requires WellKeyed(m) && FitKids(m, [], f) && AllElements(chain)
    requires RootMissing(m, f, chain) && FitNode(m, [], Bare(chain[0]))
    ensures CreateParents(m, f, chain) == CreateParents(m, Replaced(f, chain), chain)
    decreases |chain|
  {
    hide IdOf, FitNode, FitKids, SeekId, FirstMatch, IsLeafList, FindEquiv, Passable;
    NewRootFits(m, f, chain);
    NotFoundBefore(m, f, chain);
    OnlyRootAfter(m, Replaced(f, chain), chain);
    if |chain| > 1 {
      var up := chain[..|chain| - 1];
      assert chain == up + [chain[|chain| - 1]] && up[0] == chain[0];
      PassableSnoc(m, [], up, chain[|chain| - 1]);
      RootComesFirst(m, f, up);
    }
  }

  /** What was below the first root is lost. */
  lemma FirstRootLost(m: Model, f: seq<Node>, chain: seq<Node>)
    requires WellKeyed(m) && FitKids(m, [], f) && AllElements(chain) && Passable(m, [], chain)
    requires MissingAreContainers(m, f, chain) && !RootThere(m, f, chain)
    ensures f[0].Element? && Lookup(m, [], f, [IdOf(m, [], f[0])]).Some?
    ensures Lookup(m, [], CreateParents(m, f, chain).0, [IdOf(m, [], f[0])]).None?
  {
    hide IdOf, FitNode, FitKids, SeekId, CreateParents;
    var ids, g := IdsOf(m, [], chain), Replaced(f, chain);
    SeekFinds(m, [], f, 0);
    var x := [IdOf(m, [], f[0])];
    assert ids[..1] == [ids[0]] && ids[..0 + 1] == ids[..1];
    assert Names(chain)[..0] == [];
    NewRootFits(m, f, chain);
    RootComesFirst(m, f, chain);
    StillContainers(m, f, chain);
    ParentsEffect(m, g, chain, x);
    FirstIdGone(m, f, Bare(chain[0]), x[0]);
    assert !Under(x, ids);
  }

  lemma FirstIdGone(m: Model, f: seq<Node>, bare: Node, id: Id)
    requires FitKids(m, [], f) && f != [] && f[0].Element? && bare.Element? && id == IdOf(m, [], f[0])
    requires IdOf(m, [], bare) != id
    ensures SeekId(m, [], f[0 := bare], id).None?
  {
    hide IdOf, FitNode;
    var g := f[0 := bare];
    forall j | 0 <= j < |g|
      ensures g[j].Text? || IdOf(m, [], g[j]) != id
    {
      if j > 0 {
        assert FitNode(m, [], f[j]);
      }
    }
  }

  lemma StillContainers(m: Model, f: seq<Node>, chain: seq<Node>)
    requires AllElements(chain) && RootMissing(m, f, chain) && MissingAreContainers(m, f, chain)
    requires SeekId(m, [], Replaced(f, chain), IdOf(m, [], chain[0])) == Some(0)
    ensures MissingAreContainers(m, Replaced(f, chain), chain) && RootThere(m, Replaced(f, chain), chain)
  {
    hide IdOf, FitNode, SeekId;
    var ids := IdsOf(m, [], chain);
    assert ids[..1] == [ids[0]];
    forall j | 0 <= j < |chain| && Lookup(m, [], Replaced(f, chain), ids[..j + 1]).None?
      ensures FitNode(m, Names(chain)[..j], Bare(chain[j]))
    {
      assert ids[..j + 1][0] == ids[0];
    }
  }

  /** Creating the missing ancestors of a node keeps the value of every instance exactly if
      the root is there, or the document is empty. Otherwise the first root, with all that
      is below it, is lost. */
  lemma CreationKeepsAll(m: Model, f: seq<Node>, chain: seq<Node>)
    requires WellKeyed(m) && FitKids(m, [], f) && AllElements(chain) && Passable(m, [], chain)
    requires MissingAreContainers(m, f, chain)
    ensures RootThere(m, f, chain) <==>
      forall x :: x != [] && Lookup(m, [], f, x).Some? ==>
        Lookup(m, [], CreateParents(m, f, chain).0, x) == Lookup(m, [], f, x)
  {
    hide IdOf, FitNode, FitKids, Lookup, CreateParents, MissingAreContainers, RootThere, Passable;
    if RootThere(m, f, chain) {
      forall x: seq<Id> | x != [] && Lookup(m, [], f, x).Some?
        ensures Lookup(m, [], CreateParents(m, f, chain).0, x) == Lookup(m, [], f, x)
      {
        ParentsEffect(m, f, chain, x);
      }
    } else {
      FirstRootLost(m, f, chain);
    }
  }

  /** An input on which a root is lost: two containers at the top of the model, one of them
      in the configuration, and something created below the other. */
  lemma RootLossHappens(m: Model, a: string, b: string)
    requires a != b && KeysOf(m, a) == [] && KeysOf(m, b) == []
    requires KindOf(m, [a]) == Some(Container(false)) && KindOf(m, [b]) == Some(Container(false))
    ensures var f, chain := [Element(a, map[], [])], [Element(b, map[], [])];
      FitKids(m, [], f) && Passable(m, [], chain) && MissingAreContainers(m, f, chain) &&
      Lookup(m, [], f, [Id(a, [])]) == Some(Val.Inner) && Lookup(m, [], CreateParents(m, f, chain).0, [Id(a, [])]).None?
  {
    hide KindOf, KeysOf;
    var f, chain := [Element(a, map[], [])], [Element(b, map[], [])];
    assert [] + [a] == [a] && [] + [b] == [b] && chain[1..] == [] && f[1..] == [];
    assert FirstMatch(m, chain[0], f, IsLeafList(m, [b])).None?;
    assert f[0 := Bare(chain[0])] == chain;
    assert FitKids(m, [a], []) && FitNode(m, [], f[0]);
    forall j | 0 <= j < |chain|
      ensures FitNode(m, Names(chain)[..j], Bare(chain[j]))
    {
      assert Names(chain)[..0] == [];
    }
  }
}
