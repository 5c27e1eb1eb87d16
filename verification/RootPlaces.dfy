/** Entries of user-ordered lists right below a root of the edit: when the default merge adds
    one, it goes last, and its insert attribute is neither obeyed nor taken off. */
module RootPlaces {
  import opened Xml
  import opened Schema
  import opened Matching
  import opened Instances
  import opened Equivalents
  import opened Merge
  import opened Operation
  import opened Reference
  import opened UserOrder

  /** An entry asks for the last place. */
  predicate AsksLast(insert: string, ref: Ref, kids: seq<Node>, name: string, inList: bool) {
    match insert
    case "last" => true
    case "first" => if inList then forall j :: 0 <= j < |kids| ==> !InstanceOf(kids[j], name) else kids == []
    case "after" => ref.Found? && ref.i == |kids| - 1
    case _ => false
  }

  lemma CopyMatches(m: Model, n: Node, y: Node, leaf: bool)
    requires CopyOf(y, n)
    ensures Matches(m, Drop(n, INSERT), y, leaf)
  {
  }

  /** A new element of a list is last exactly if it is inserted behind all others. */
  lemma InsertedIsLast(kids: seq<Node>, at: nat, y: Node, z: Node)
    requires at <= |kids| && y !in kids
    ensures InsertAt(kids, at, y) == kids + [z] ==> at == |kids|
    ensures InsertAt(kids, |kids|, y) == kids + [y]
  {
    assert InsertAt(kids, at, y)[at] == y;
    assert at < |kids| ==> (kids + [z])[at] == kids[at];
  }

  /** Putting an entry without counterpart behind all others is creating it, but for the
      attributes, if and only if it asks for the last place. */
  lemma LastExactly(m: Model, scope: Scope, kids: seq<Node>, n: Node, inList: bool, leaf: bool)
    requires n.Element? && INSERT in n.attrs
    requires forall j :: 0 <= j < |kids| ==> !Matches(m, Drop(n, INSERT), kids[j], leaf)
    ensures (exists y :: CopyOf(y, n) && CreateListed(m, scope, kids, n, inList, leaf) == Placed(kids + [y])) <==>
      AsksLast(n.attrs[INSERT], Refer(m, scope, kids, Drop(n, INSERT), leaf), kids, n.name, inList)
  {
    hide Refer, Matches, InsertAt;
    var x, insert := Drop(n, INSERT), n.attrs[INSERT];
    var ref := Refer(m, scope, kids, x, leaf);
    var y := if insert in ["before", "after"] then Drop(if leaf then Drop(x, VALUE) else x, KEY) else x;
    assert CopyOf(y, n);
    CopyMatches(m, n, y, leaf);
    assert y !in kids;
    forall at: nat, z | at <= |kids|
      ensures InsertAt(kids, at, y) == kids + [z] ==> at == |kids|
    {
      InsertedIsLast(kids, at, y, z);
    }
    InsertedIsLast(kids, |kids|, y, y);
    var at := if insert == "first" then FirstPlace(kids, n.name, inList)
              else if insert == "last" then |kids|
              else if ref.Found? then (if insert == "before" then ref.i else ref.i + 1) else 0;
    assert CreateListed(m, scope, kids, n, inList, leaf).Placed? ==>
      CreateListed(m, scope, kids, n, inList, leaf) == Placed(InsertAt(kids, at, y)) by {
      if insert == "last" {
        assert y == x && kids + [x] == InsertAt(kids, |kids|, y);
      }
    }
    assert insert == "first" ==> (at == |kids| <==> AsksLast(insert, ref, kids, n.name, inList));
  }

  lemma SameMatches(m: Model, n: Node, o: Node, leaf: bool)
    requires n.Element?
    ensures Matches(m, Drop(n, INSERT), o, leaf) <==> Matches(m, n, o, leaf)
  {
  }

  /** The default merge adds a new child of a root as it is, insert attribute included, behind
      all others. That is where creating the entry would put it, but for the attributes, if
      and only if the entry asks for the last place. */
  lemma RootInsertExactly(m: Model, scope: Scope, at: seq<string>, kids: seq<Node>, n: Node)
    requires n.Element? && INSERT in n.attrs && !IsKeyAt(m, at, n.name)
    requires FirstMatch(m, n, kids, IsLeafList(m, at + [n.name])).None?
    ensures var left, leaf := ChoiceClean(m, at, kids, n.name), IsLeafList(m, at + [n.name]);
      MergeKid(m, at, kids, n) == left + [n] &&
      ((exists y :: CopyOf(y, n) && CreateListed(m, scope, left, n, InList(m, at), leaf) == Placed(left + [y])) <==>
        AsksLast(n.attrs[INSERT], Refer(m, scope, left, Drop(n, INSERT), leaf), left, n.name, InList(m, at)))
  {
    hide Matches, IsLeafList, InList, CreateListed, AsksLast, Refer, IsKeyAt, ChoiceClean;
    var left, leaf := ChoiceClean(m, at, kids, n.name), IsLeafList(m, at + [n.name]);
    forall j | 0 <= j < |left|
      ensures !Matches(m, Drop(n, INSERT), left[j], leaf)
    {
      assert left[j] in kids;
      SameMatches(m, n, left[j], leaf);
    }
    LastExactly(m, scope, left, n, InList(m, at), leaf);
  }

  /** An input: a container with a user-ordered leaf-list, one entry configured and another
      that is to go first in the edit. Merging puts it last and keeps the attribute. */
  lemma RootInsertIgnored(m: Model, scope: Scope, a: string, b: string, v: string, w: string)
    requires m.top == [Stmt(Container(false), a, [Stmt(LeafList(true), b, [])])] && m.norm(v) != m.norm(w)
    ensures var o, n := Element(b, map[], [Text(v)]), Element(b, map[INSERT := "first"], [Text(w)]);
      var f, e := [Element(a, map[], [o])], [Element(a, map[], [n])];
      WellKeyed(m) && FitKids(m, [], f) && FitKids(m, [], e) && UserOrdered(m, [a, b]) &&
      MergeKids(m, [], f, e) == [Element(a, map[], [o, n])] &&
      CreateListed(m, scope, [o], n, InList(m, [a]), true) == Placed([Element(b, map[], [Text(w)]), o])
  {
    var o, n := Element(b, map[], [Text(v)]), Element(b, map[INSERT := "first"], [Text(w)]);
    var f, e := [Element(a, map[], [o])], [Element(a, map[], [n])];
    DefinedEntries(m, a, b);
    hide KindOf, KeyStmts, FindModel, FitKids, MergeKids, BranchOf;
    EntryFits(m, a, b, o);
    EntryFits(m, a, b, n);
    NewEntryLast(m, a, b, o, n);
    assert n.attrs - {INSERT} == map[];
    assert InsertAt([o], 0, Drop(n, INSERT)) == [Element(b, map[], [Text(w)]), o];
  }

  lemma EntryFits(m: Model, a: string, b: string, n: Node)
    requires KindOf(m, [a]) == Some(Container(false)) && KindOf(m, [a, b]) == Some(LeafList(true))
    requires KeyStmts(m.top) == [] && n.Element? && n.name == b && HoldsText(n)
    ensures FitKids(m, [], [Element(a, map[], [n])])
  {
    hide KindOf, KeyStmts;
    assert [] + [a] == [a] && [a] + [b] == [a, b];
    assert FitNode(m, [a], n);
    assert FitKids(m, [a], [n]);
    assert FitNode(m, [], Element(a, map[], [n]));
  }

  lemma NewEntryLast(m: Model, a: string, b: string, o: Node, n: Node)
    requires KindOf(m, [a]) == Some(Container(false)) && KindOf(m, [a, b]) == Some(LeafList(true))
    requires KeyStmts(m.top) == [] && BranchOf(m, [a]).None? && BranchOf(m, [a, b]).None?
    requires o.Element? && n.Element? && o.name == n.name == b && HoldsText(o) && HoldsText(n)
    requires m.norm(o.kids[0].content) != m.norm(n.kids[0].content)
    ensures MergeKids(m, [], [Element(a, map[], [o])], [Element(a, map[], [n])]) == [Element(a, map[], [o, n])]
  {
    hide KindOf, KeyStmts, BranchOf, ChoiceClean;
    var f, e := [Element(a, map[], [o])], [Element(a, map[], [n])];
    assert [] + [a] == [a] && [a] + [b] == [a, b] && e[1..] == [] && [n][1..] == [];
    assert IsLeafList(m, [a, b]) && !IsLeafList(m, [a]);
    NoBranchNoClean(m, [a], [o], b);
    assert FirstMatch(m, n, [o], true).None?;
    assert MergeKid(m, [a], [o], n) == [o, n];
    assert MergeKids(m, [a], [o], [n]) == [o, n];
    assert FirstMatch(m, e[0], f, false) == Some(0);
    var g := [Element(a, map[], [o, n])];
    assert f[0 := MergeNode(m, [], f[0], e[0])] == g;
    NoBranchNoClean(m, [], g, a);
    assert MergeKid(m, [], f, e[0]) == g;
  }

  lemma DefinedEntries(m: Model, a: string, b: string)
    requires m.top == [Stmt(Container(false), a, [Stmt(LeafList(true), b, [])])]
    ensures KindOf(m, [a]) == Some(Container(false)) && KindOf(m, [a, b]) == Some(LeafList(true))
    ensures KeyStmts(m.top) == [] && BranchOf(m, [a]).None? && BranchOf(m, [a, b]).None?
  {
    var c, k := m.top[0], m.top[0].kids[0];
    assert [0] + [] == [0] && ([0] + [0])[1..] == [0];
    assert [a][1..] == [] && [a, b][1..] == [b] && [b][1..] == [];
    assert CompareStmt(c, a) == Some([]) && CompareStmt(k, b) == Some([]);
    assert FindModel(c.kids, []) == Some([]) && FindModel(k.kids, []) == Some([]);
    assert FindModel(c.kids, [b]) == Some([0]);
    assert FindModel(m.top, [a]) == Some([0]) && FindModel(m.top, [a, b]) == Some([0] + [0]);
    assert m.top[1..] == [] && c.kids[1..] == [];
    assert KeyStmts([]) == [] && KeyStmtsOf(k) == [] && KeyStmts(c.kids) == [] && KeyStmtsOf(c) == [];
  }
}
