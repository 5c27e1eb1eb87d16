/** Finding the configuration node that an edit node stands for. */
module Equivalents {
  import opened Xml
  import opened Schema
  import opened Matching
  import opened Instances

  /** The first sibling that matches an edit node. */
  function FirstMatch(m: Model, e: Node, kids: seq<Node>, leaf: bool): (r: Option<nat>)
    ensures r.Some? ==> r.value < |kids| && Matches(m, e, kids[r.value], leaf)
    ensures forall j :: 0 <= j < (if r.Some? then r.value else |kids|) ==> !Matches(m, e, kids[j], leaf)
  {
    if kids == [] then None
    else if Matches(m, e, kids[0], leaf) then Some(0)
    else
      match FirstMatch(m, e, kids[1..], leaf)
      case Some(i) => Some(i + 1)
      case None => None
  }

  /** The nodes from a root down to the node at q. */
  function Chain(f: seq<Node>, q: Path): (r: seq<Node>)
    requires q == [] || IsNode(f, q)
    ensures |r| == |q|
    decreases q
  {
    if q == [] then []
    else if |q| == 1 then [f[q[0]]]
    else [f[q[0]]] + Chain(f[q[0]].kids, q[1..])
  }

  function Names(chain: seq<Node>): (r: seq<string>)
    ensures |r| == |chain|
  {
    if chain == [] then [] else [NameOf(chain[0])] + Names(chain[1..])
  }

  predicate AllElements(chain: seq<Node>) {
    forall i :: 0 <= i < |chain| ==> chain[i].Element?
  }

  function KidsOf(n: Node): seq<Node> {
    if n.Element? then n.kids else []
  }

  /** The node, below elements named at, that the last node of an edit chain stands for:
      level by level, the first match among the children of the match above. */
  function FindEquiv(m: Model, at: seq<string>, f: seq<Node>, chain: seq<Node>): (r: Option<Path>)
    ensures r.Some? ==> |r.value| == |chain| && (chain == [] || IsNode(f, r.value))
    decreases chain
  {
    if chain == [] then Some([])
    else
      var here := at + [NameOf(chain[0])];
      match FirstMatch(m, chain[0], f, IsLeafList(m, here))
      case None => None
      case Some(i) =>
        match FindEquiv(m, here, KidsOf(f[i]), chain[1..])
        case None => None
        case Some(q) => Some([i] + q)
  }

  /** One more level of the chain is one more first-match search. */
  lemma {:induction false} FindSnoc(m: Model, at: seq<string>, f: seq<Node>, chain: seq<Node>, e: Node)
    requires AllElements(chain)
    ensures FindEquiv(m, at, f, chain).None? ==> FindEquiv(m, at, f, chain + [e]).None?
    ensures FindEquiv(m, at, f, chain).Some? ==> IsList(f, FindEquiv(m, at, f, chain).value)
    ensures FindEquiv(m, at, f, chain).Some? ==>
      var p := FindEquiv(m, at, f, chain).value;
      var i := FirstMatch(m, e, KidsAt(f, p), IsLeafList(m, at + Names(chain) + [NameOf(e)]));
      FindEquiv(m, at, f, chain + [e]) == if i.Some? then Some(p + [i.value]) else None
    decreases chain
  {
    if chain == [] {
      assert [] + [e] == [e] && at + Names([]) == at;
      assert forall i: nat :: [i] + [] == [i] && [] + [i] == [i];
    } else {
      var here := at + [NameOf(chain[0])];
      assert (chain + [e])[1..] == chain[1..] + [e];
      assert here + Names(chain[1..]) == at + Names(chain);
      var i := FirstMatch(m, chain[0], f, IsLeafList(m, here));
      if i.Some? {
        FindSnoc(m, here, f[i.value].kids, chain[1..], e);
        var q := FindEquiv(m, here, f[i.value].kids, chain[1..]);
        if q.Some? {
          assert forall j: nat :: [i.value] + (q.value + [j]) == ([i.value] + q.value) + [j];
        }
      }
    }
  }

  lemma {:induction false} ChainSnoc(f: seq<Node>, q: Path)
    requires IsNode(f, q)
    ensures Parent(q) == [] || IsNode(f, Parent(q))
    ensures Chain(f, q) == Chain(f, Parent(q)) + [NodeAt(f, q)]
    ensures AllElements(Chain(f, Parent(q)))
    decreases q
  {
    NodeInParent(f, q);
    if |q| > 1 {
      ChainSnoc(f[q[0]].kids, q[1..]);
      assert Parent(q)[1..] == Parent(q[1..]);
    }
  }

  lemma {:induction false} NamesSnoc(chain: seq<Node>, e: Node)
    ensures Names(chain + [e]) == Names(chain) + [NameOf(e)]
  {
    if chain != [] {
      assert (chain + [e])[1..] == chain[1..] + [e];
      NamesSnoc(chain[1..], e);
    }
  }

  /** Walks the siblings to the first one that matches; past the end if none does. */
  method SeekMatch(m: Model, e: Node, kids: seq<Node>, leaf: bool) returns (i: nat)
    ensures i <= |kids| && FirstMatch(m, e, kids, leaf) == if i < |kids| then Some(i) else None
  {
    i := 0;
    while i < |kids|
      invariant 0 <= i <= |kids|
      invariant forall j :: 0 <= j < i ==> !Matches(m, e, kids[j], leaf)
    {
      var r := MatchingElements(m, e, kids[i], leaf);
      if r {
        return;
      }
      i := i + 1;
    }
  }

  /** Searches a document for the equivalent of the edit node at q, parents first. */
  method FindElementEquiv(m: Model, orig: seq<Node>, edit: seq<Node>, q: Path) returns (r: Option<Path>)
    requires IsNode(edit, q)
    ensures r == FindEquiv(m, [], orig, Chain(edit, q))
    decreases |q|
  {
    var e := NodeAt(edit, q);
    ChainSnoc(edit, q);
    FindSnoc(m, [], orig, Chain(edit, Parent(q)), e);
    NamesSnoc(Chain(edit, Parent(q)), e);
    assert [] + Names(Chain(edit, Parent(q))) == Names(Chain(edit, Parent(q)));
    var parent: Option<Path> := Some([]);
    if |q| > 1 {
      parent := FindElementEquiv(m, orig, edit, Parent(q));
    }
    if parent.None? {
      return None;
    }
    var i := SeekMatch(m, e, KidsAt(orig, parent.value), IsLeafList(m, Names(Chain(edit, q))));
    if i < |KidsAt(orig, parent.value)| {
      return Some(parent.value + [i]);
    }
    return None;
  }

  /** Two chains whose nodes match level by level, the first being the edit chain. */
  predicate LevelMatch(m: Model, at: seq<string>, chain: seq<Node>, found: seq<Node>)
    decreases chain
  {
    if chain == [] then found == []
    else
      found != [] && Matches(m, chain[0], found[0], IsLeafList(m, at + [NameOf(chain[0])])) &&
      LevelMatch(m, at + [NameOf(chain[0])], chain[1..], found[1..])
  }

  /** What the search returns matches the edit chain level by level. */
  lemma {:induction false} FoundMatches(m: Model, at: seq<string>, f: seq<Node>, chain: seq<Node>)
    requires FindEquiv(m, at, f, chain).Some?
    ensures LevelMatch(m, at, chain, Chain(f, FindEquiv(m, at, f, chain).value))
    decreases chain
  {
    if chain != [] {
      var here := at + [NameOf(chain[0])];
      var i := FirstMatch(m, chain[0], f, IsLeafList(m, here)).value;
      FoundMatches(m, here, KidsOf(f[i]), chain[1..]);
    }
  }

  /** Every node of the chain says which instance it stands for. */
  predicate ChainAddressed(m: Model, at: seq<string>, chain: seq<Node>)
    decreases chain
  {
    chain == [] ||
    (Addressed(m, at, chain[0]) && ChainAddressed(m, at + [NameOf(chain[0])], chain[1..]))
  }

  /** In a fit child list the match is unique. */
  lemma OneMatch(m: Model, at: seq<string>, kids: seq<Node>, e: Node, j: nat)
    requires FitKids(m, at, kids) && Addressed(m, at, e)
    requires j < |kids| && Matches(m, e, kids[j], IsLeafList(m, at + [e.name]))
    ensures FirstMatch(m, e, kids, IsLeafList(m, at + [e.name])) == Some(j)
  {
    hide IdOf, Matches, IsLeafList, Addressed, FitNode;
    AddressedIsElement(m, at, e);
    var i := FirstMatch(m, e, kids, IsLeafList(m, at + [e.name])).value;
    FitMember(m, at, kids, i);
    FitMember(m, at, kids, j);
    MatchIsSameId(m, at, e, kids[i]);
    MatchIsSameId(m, at, e, kids[j]);
  }

  /** The child list of a fit node is fit, or holds just the text of a leaf. */
  lemma FitBelow(m: Model, at: seq<string>, kids: seq<Node>, i: nat)
    requires FitKids(m, at, kids) && i < |kids|
    ensures kids[i].Element?
    ensures FitKids(m, at + [kids[i].name], kids[i].kids) || (|kids[i].kids| == 1 && kids[i].kids[0].Text?)
  {
    assert FitNode(m, at, kids[i]);
  }

  lemma MatchIsElement(m: Model, e: Node, o: Node, leaf: bool)
    requires e.Element? && Matches(m, e, o, leaf)
    ensures o.Element? && o.name == e.name
  {
  }

  lemma ChainHead(m: Model, at: seq<string>, chain: seq<Node>)
    requires ChainAddressed(m, at, chain) && chain != []
    ensures Addressed(m, at, chain[0]) && chain[0].Element?
    ensures ChainAddressed(m, at + [NameOf(chain[0])], chain[1..])
  {
  }

  // ---- when the search finds every node

  /** No sibling matches an earlier one, here and below. */
  predicate NoTwins(m: Model, at: seq<string>, kids: seq<Node>)
    decreases kids
  {
    NoTwinsHere(m, at, kids) &&
    forall i :: 0 <= i < |kids| && kids[i].Element? ==> NoTwins(m, at + [kids[i].name], kids[i].kids)
  }

  predicate NoTwinsHere(m: Model, at: seq<string>, kids: seq<Node>) {
    forall i, j :: 0 <= i < j < |kids| ==> !Matches(m, kids[j], kids[i], IsLeafList(m, at + [NameOf(kids[j])]))
  }

  lemma NoTwinsBelow(m: Model, at: seq<string>, kids: seq<Node>, i: nat)
    requires NoTwins(m, at, kids) && i < |kids|
    ensures NoTwinsHere(m, at, kids)
    ensures kids[i].Element? ==> NoTwins(m, at + [kids[i].name], kids[i].kids)
  {
  }

  /** The node at q is the one that its own chain finds. */
  predicate FindsItself(m: Model, at: seq<string>, f: seq<Node>, q: Path)
    requires IsNode(f, q)
  {
    FindEquiv(m, at, f, Chain(f, q)) == Some(q)
  }

  lemma FindsChild(m: Model, at: seq<string>, f: seq<Node>, q: Path)
    requires IsNode(f, q)
    ensures var n := f[q[0]];
      FindsItself(m, at, f, q) <==>
        FirstMatch(m, n, f, IsLeafList(m, at + [NameOf(n)])) == Some(q[0]) &&
        (|q| > 1 ==> FindsItself(m, at + [NameOf(n)], n.kids, q[1..]))
  {
    hide FirstMatch, IsLeafList;
    var n, rest := f[q[0]], q[1..];
    assert q == [q[0]] + rest;
    if |q| == 1 {
      assert Chain(f, q)[1..] == [] && rest == [];
    } else {
      assert Chain(f, q)[1..] == Chain(n.kids, rest);
    }
    var i := FirstMatch(m, n, f, IsLeafList(m, at + [NameOf(n)]));
    if i.Some? {
      var below := FindEquiv(m, at + [NameOf(n)], KidsOf(f[i.value]), Chain(f, q)[1..]);
      assert below.Some? ==> [i.value] + below.value == q ==> i.value == q[0] && below.value == q[1..];
    }
  }

  lemma FirstIsItself(m: Model, at: seq<string>, f: seq<Node>, i: nat)
    requires i < |f|
    ensures FirstMatch(m, f[i], f, IsLeafList(m, at + [NameOf(f[i])])) == Some(i) <==>
      forall h :: 0 <= h < i ==> !Matches(m, f[i], f[h], IsLeafList(m, at + [NameOf(f[i])]))
  {
    hide Matches, IsLeafList;
    MatchesItself(m, f[i], IsLeafList(m, at + [NameOf(f[i])]));
  }

  ghost predicate AllFound(m: Model, at: seq<string>, f: seq<Node>) {
    forall q :: IsNode(f, q) ==> FindsItself(m, at, f, q)
  }

  lemma {:induction false} NoTwinsFound(m: Model, at: seq<string>, f: seq<Node>, q: Path)
    requires NoTwins(m, at, f) && IsNode(f, q)
    ensures FindsItself(m, at, f, q)
    decreases q
  {
    hide FindsItself, Matches;
    FirstIsItself(m, at, f, q[0]);
    FindsChild(m, at, f, q);
    if |q| > 1 {
      NoTwinsFound(m, at + [f[q[0]].name], f[q[0]].kids, q[1..]);
    }
  }

  lemma {:induction false} FoundNoTwins(m: Model, at: seq<string>, f: seq<Node>)
    requires AllFound(m, at, f)
    ensures NoTwins(m, at, f)
    decreases f
  {
    hide FindsItself, Matches;
    forall i, j | 0 <= i < j < |f|
      ensures !Matches(m, f[j], f[i], IsLeafList(m, at + [NameOf(f[j])]))
    {
      assert IsNode(f, [j]) && FindsItself(m, at, f, [j]);
      FindsChild(m, at, f, [j]);
      FirstIsItself(m, at, f, j);
    }
    forall i | 0 <= i < |f| && f[i].Element?
      ensures NoTwins(m, at + [f[i].name], f[i].kids)
    {
      forall r | IsNode(f[i].kids, r)
        ensures FindsItself(m, at + [f[i].name], f[i].kids, r)
      {
        var q: Path := [i] + r;
        assert q[1..] == r && IsNode(f, q);
        FindsChild(m, at, f, q);
      }
      FoundNoTwins(m, at + [f[i].name], f[i].kids);
    }
  }

  /** Every node of a document is found by the chain that leads to it if and only if no
      sibling matches an earlier one, anywhere. */
  lemma AllFoundExactly(m: Model, at: seq<string>, f: seq<Node>)
    ensures AllFound(m, at, f) <==> NoTwins(m, at, f)
  {
    hide FindsItself, NoTwins;
    if NoTwins(m, at, f) {
      forall q | IsNode(f, q)
        ensures FindsItself(m, at, f, q)
      {
        NoTwinsFound(m, at, f, q);
      }
    }
    if AllFound(m, at, f) {
      FoundNoTwins(m, at, f);
    }
  }

  /** No leaf-list shares its name with a keyed list. */
  ghost predicate LeafListsKeyless(m: Model) {
    forall at: seq<string>, name: string :: IsLeafList(m, at + [name]) ==> KeysOf(m, name) == []
  }

  /** Two siblings that an edit element with all its keys matches match each other. */
  lemma MatchedTogether(m: Model, at: seq<string>, e: Node, a: Node, b: Node)
    requires Addressed(m, at, e) && LeafListsKeyless(m)
    requires Matches(m, e, a, IsLeafList(m, at + [e.name])) && Matches(m, e, b, IsLeafList(m, at + [e.name]))
    ensures b.Element? && b.name == e.name && Matches(m, b, a, IsLeafList(m, at + [e.name]))
  {
    hide IsLeafList, KeysOf;
    assert IsLeafList(m, at + [e.name]) ==> KeysOf(m, e.name) == [];
    assert forall k :: k in KeysOf(m, e.name) ==> KidValue(m, e.kids, k).Some?;
  }

  lemma OnlyMatch(m: Model, at: seq<string>, f: seq<Node>, e: Node, i: nat)
    requires NoTwinsHere(m, at, f) && Addressed(m, at, e) && LeafListsKeyless(m)
    requires i < |f| && Matches(m, e, f[i], IsLeafList(m, at + [e.name]))
    ensures FirstMatch(m, e, f, IsLeafList(m, at + [e.name])) == Some(i)
  {
    hide Matches, IsLeafList, Addressed, LeafListsKeyless;
    AddressedIsElement(m, at, e);
    var h := FirstMatch(m, e, f, IsLeafList(m, at + [e.name])).value;
    if h < i {
      MatchedTogether(m, at, e, f[h], f[i]);
    }
  }

  lemma AddressedIsElement(m: Model, at: seq<string>, e: Node)
    requires Addressed(m, at, e)
    ensures e.Element?
  {
  }

  /** Without twins the search is complete: a node that matches the edit chain level by
      level is the one found. */
  lemma {:induction false} FindComplete(m: Model, at: seq<string>, f: seq<Node>, chain: seq<Node>, q: Path)
    requires NoTwins(m, at, f) && ChainAddressed(m, at, chain) && LeafListsKeyless(m)
    requires q == [] || IsNode(f, q)
    requires LevelMatch(m, at, chain, Chain(f, q))
    ensures FindEquiv(m, at, f, chain) == Some(q)
    decreases chain
  {
    hide Matches, FirstMatch, IsLeafList, Addressed, LeafListsKeyless, NoTwins, NoTwinsHere, ChainAddressed, Chain,
      LevelMatch, FindEquiv;
    if chain == [] {
      LevelNone(m, at, f, q);
    } else {
      LevelDown(m, at, f, chain, q);
      ChainHead(m, at, chain);
      NoTwinsBelow(m, at, f, q[0]);
      OnlyMatch(m, at, f, chain[0], q[0]);
      MatchIsElement(m, chain[0], f[q[0]], IsLeafList(m, at + [NameOf(chain[0])]));
      FindComplete(m, at + [NameOf(chain[0])], KidsOf(f[q[0]]), chain[1..], q[1..]);
      FindDown(m, at, f, chain, q[0]);
      assert q == [q[0]] + q[1..];
    }
  }

  lemma LevelNone(m: Model, at: seq<string>, f: seq<Node>, q: Path)
    requires q == [] || IsNode(f, q)
    requires LevelMatch(m, at, [], Chain(f, q))
    ensures q == [] && FindEquiv(m, at, f, []) == Some(q)
  {
  }

  /** One level of a match. */
  lemma LevelDown(m: Model, at: seq<string>, f: seq<Node>, chain: seq<Node>, q: Path)
    requires chain != [] && (q == [] || IsNode(f, q))
    requires LevelMatch(m, at, chain, Chain(f, q))
    ensures q != [] && q[0] < |f| && Matches(m, chain[0], f[q[0]], IsLeafList(m, at + [NameOf(chain[0])]))
    ensures q[1..] == [] || IsNode(KidsOf(f[q[0]]), q[1..])
    ensures LevelMatch(m, at + [NameOf(chain[0])], chain[1..], Chain(KidsOf(f[q[0]]), q[1..]))
  {
    hide Matches, IsLeafList;
    assert |Chain(f, q)| == |q|;
    if |q| == 1 {
      assert Chain(f, q)[1..] == [];
    } else {
      assert Chain(f, q)[1..] == Chain(f[q[0]].kids, q[1..]);
    }
  }

  lemma FindDown(m: Model, at: seq<string>, f: seq<Node>, chain: seq<Node>, i: nat)
    requires chain != [] && i < |f| && FirstMatch(m, chain[0], f, IsLeafList(m, at + [NameOf(chain[0])])) == Some(i)
    ensures FindEquiv(m, at, f, chain) ==
      match FindEquiv(m, at + [NameOf(chain[0])], KidsOf(f[i]), chain[1..])
      case None => None
      case Some(r) => Some([i] + r)
  {
    hide FirstMatch, IsLeafList;
  }

  /** Node lookup is sound and complete: without twins it returns exactly the node that
      matches the edit chain level by level, and nothing only if there is none. */
  lemma LookupExact(m: Model, f: seq<Node>, chain: seq<Node>, q: Path)
    requires NoTwins(m, [], f) && ChainAddressed(m, [], chain) && LeafListsKeyless(m)
    requires IsNode(f, q)
    ensures FindEquiv(m, [], f, chain) == Some(q) <==> LevelMatch(m, [], chain, Chain(f, q))
  {
    if FindEquiv(m, [], f, chain) == Some(q) {
      FoundMatches(m, [], f, chain);
    }
    if LevelMatch(m, [], chain, Chain(f, q)) {
      FindComplete(m, [], f, chain, q);
    }
  }

  /** Fit documents have no twins. */
  lemma {:induction false} FitHasNoTwins(m: Model, at: seq<string>, kids: seq<Node>)
    requires FitKids(m, at, kids)
    ensures NoTwins(m, at, kids)
    decreases kids
  {
    hide FitNode, Addressed, IdOf, Matches, IsLeafList;
    forall i | 0 <= i < |kids|
      ensures Addressed(m, at, kids[i]) && kids[i].Element?
    {
      FitMember(m, at, kids, i);
      AddressedIsElement(m, at, kids[i]);
    }
    forall i, j | 0 <= i < j < |kids|
      ensures !Matches(m, kids[j], kids[i], IsLeafList(m, at + [NameOf(kids[j])]))
    {
      MatchIsSameId(m, at, kids[j], kids[i]);
    }
    forall i | 0 <= i < |kids|
      ensures NoTwins(m, at + [kids[i].name], kids[i].kids)
    {
      FitBelow(m, at, kids, i);
      if FitKids(m, at + [kids[i].name], kids[i].kids) {
        FitHasNoTwins(m, at + [kids[i].name], kids[i].kids);
      } else {
        OneTextNoTwins(m, at + [kids[i].name], kids[i].kids);
      }
    }
  }

  lemma OneTextNoTwins(m: Model, at: seq<string>, kids: seq<Node>)
    requires |kids| == 1 && kids[0].Text?
    ensures NoTwins(m, at, kids)
  {
  }

  /** With twins the search can miss: it never leaves the first matching parent, so an
      equivalent under a second one is not found. Here the model defines a container with a
      leaf in it, and the container stands in the document twice. */
  lemma SearchDoesNotBacktrack(m: Model, top: string, leaf: string)
    requires m.top == [Stmt(Container(false), top, [Stmt(Leaf(None), leaf, [])])]
    ensures KindOf(m, [top]) == Some(Container(false)) && KindOf(m, [top, leaf]) == Some(Leaf(None))
    ensures exists f: seq<Node>, chain: seq<Node>, q: Path ::
      IsNode(f, q) && LevelMatch(m, [], chain, Chain(f, q)) && FindEquiv(m, [], f, chain).None?
  {
    DefinedKinds(m, top, leaf);
    hide IsLeafList, KindOf, KeysOf, FindModel;
    var l := Element(leaf, map[], [Text("v")]);
    var t := Element(top, map[], []);
    var f, chain := [t, t.(kids := [l])], [t, l];
    var q: Path := [1, 0];
    assert [] + [top] == [top] && q[1..] == [0] && chain[1..] == [l] && [l][1..] == [];
    MatchesItself(m, l, IsLeafList(m, [top] + [leaf]));
    assert FirstMatch(m, t, f, IsLeafList(m, [top])) == Some(0);
    var found := Chain(f, q);
    assert found == [f[1], l] && found[1..] == [l];
    assert LevelMatch(m, [top], [l], [l]);
    assert LevelMatch(m, [], chain, Chain(f, q)) && FindEquiv(m, [], f, chain).None? && IsNode(f, q);
  }

  lemma DefinedKinds(m: Model, top: string, leaf: string)
    requires m.top == [Stmt(Container(false), top, [Stmt(Leaf(None), leaf, [])])]
    ensures KindOf(m, [top]) == Some(Container(false)) && KindOf(m, [top, leaf]) == Some(Leaf(None))
    ensures !IsLeafList(m, [top]) && KeysOf(m, top) == []
  {
    var c, l := m.top[0], m.top[0].kids[0];
    assert [0] + [] == [0] && ([0] + [0])[1..] == [0];
    assert [top][1..] == [] && [top, leaf][1..] == [leaf] && [leaf][1..] == [];
    assert CompareStmt(c, top) == Some([]) && CompareStmt(l, leaf) == Some([]);
    assert FindModel(c.kids, []) == Some([]) && FindModel(l.kids, []) == Some([]);
    assert FindModel(c.kids, [leaf]) == Some([0]);
    assert FindModel(m.top, [top]) == Some([0]) && FindModel(m.top, [top, leaf]) == Some([0] + [0]);
    assert m.top[1..] == [] && c.kids[1..] == [];
    assert KeyStmts([]) == [] && KeyStmtsOf(l) == [] && KeyStmts(c.kids) == [] && KeyStmtsOf(c) == [];
  }
}
