/** Leaves at the top of an edit: where the configuration has another value, the default
    merge appends the edit's text to the old one. */
module RootTexts {
  import opened Xml
  import opened Schema
  import opened Matching
  import opened Instances
  import opened Merge
  import opened MergeMeaning
  import opened Choices
  import opened ChoiceMeaning

  /** The configuration has the leaf e with another value, up to whitespace. */
  predicate Clashes(m: Model, f: seq<Node>, e: Node) {
    e.Element? && HoldsText(e) && !IsLeafList(m, [e.name]) &&
    match Lookup(m, [], f, [IdOf(m, [], e)])
    case Some(LeafVal(t)) => m.norm(t) != m.norm(e.kids[0].content)
    case _ => false
  }

  function OldText(m: Model, f: seq<Node>, e: Node): string
    requires Clashes(m, f, e)
  {
    Lookup(m, [], f, [IdOf(m, [], e)]).value.text
  }

  /** The root that is merged in effect: a clashing leaf carries the old text as well. */
  function JoinRoot(m: Model, f: seq<Node>, e: Node): Node {
    if Clashes(m, f, e) then e.(kids := [Text(OldText(m, f, e) + e.kids[0].content)]) else e
  }

  function JoinRoots(m: Model, f: seq<Node>, es: seq<Node>): (r: seq<Node>)
    ensures |r| == |es| && forall i :: 0 <= i < |es| ==> r[i] == JoinRoot(m, f, es[i])
  {
    if es == [] then [] else [JoinRoot(m, f, es[0])] + JoinRoots(m, f, es[1..])
  }

  lemma ClashIsLeaf(m: Model, f: seq<Node>, e: Node)
    requires FitNode(m, [], e) && Clashes(m, f, e)
    ensures KeysOf(m, e.name) == [] && IdOf(m, [], e) == Id(e.name, [])
    ensures KindOf(m, [e.name]).Some? && KindOf(m, [e.name]).value.Leaf?
  {
    assert [] + [e.name] == [e.name];
    TextIsLeaf(m, [], e);
  }

  /** Joining keeps a root fit and the same instance. */
  lemma JoinFits(m: Model, f: seq<Node>, e: Node)
    requires FitNode(m, [], e)
    ensures e.Element? && FitNode(m, [], JoinRoot(m, f, e))
    ensures var j := JoinRoot(m, f, e);
      j.Element? && j.name == e.name && j.attrs == e.attrs && IdOf(m, [], j) == IdOf(m, [], e)
  {
    FitNodeAddressed(m, [], e);
    if Clashes(m, f, e) {
      ClashIsLeaf(m, f, e);
      assert [] + [e.name] == [e.name];
    }
  }

  lemma JoinsFit(m: Model, f: seq<Node>, es: seq<Node>)
    requires FitKids(m, [], es)
    ensures FitKids(m, [], JoinRoots(m, f, es))
  {
    hide FitNode, IdOf, JoinRoot;
    var r := JoinRoots(m, f, es);
    forall i | 0 <= i < |es|
      ensures FitNode(m, [], r[i]) && r[i].Element? && es[i].Element? && IdOf(m, [], r[i]) == IdOf(m, [], es[i])
    {
      JoinFits(m, f, es[i]);
    }
  }

  lemma JoinsOneBranch(m: Model, f: seq<Node>, es: seq<Node>)
    requires FitKids(m, [], es) && OneBranch(m, [], es)
    ensures OneBranch(m, [], JoinRoots(m, f, es))
  {
    hide FitNode, IdOf, Rivals, Lookup;
    var r := JoinRoots(m, f, es);
    forall i | 0 <= i < |es|
      ensures r[i].Element? && es[i].Element? && r[i].name == es[i].name && OneBranch(m, [es[i].name], r[i].kids)
    {
      JoinFits(m, f, es[i]);
      assert [] + [es[i].name] == [es[i].name];
    }
    assert forall i :: 0 <= i < |es| ==> [] + [r[i].name] == [r[i].name];
  }

  // ---- the map

  /** What the edit says in effect about the instance x, where the configuration has v and
      the edit w: texts of leaves at the top are joined. */
  function JoinedValue(m: Model, x: seq<Id>, v: Option<Val>, w: Option<Val>): Option<Val>
    requires x != []
  {
    match (v, w)
    case (Some(LeafVal(t)), Some(LeafVal(u))) =>
      if |x| == 1 && !IsLeafList(m, [x[0].name]) && m.norm(t) != m.norm(u) then Some(LeafVal(t + u)) else w
    case _ => w
  }

  lemma JoinOneLookup(m: Model, f: seq<Node>, e: Node, x: seq<Id>)
    requires FitNode(m, [], e) && x != []
    ensures e.Element? && Lookup(m, [], [JoinRoot(m, f, e)], x) ==
      JoinedValue(m, x, Lookup(m, [], f, x), Lookup(m, [], [e], x))
  {
    hide FitNode, Lookup, KeysOf;
    JoinFits(m, f, e);
    var j := JoinRoot(m, f, e);
    LookupOne(m, [], e, x);
    LookupOne(m, [], j, x);
    assert [] + [e.name] == [e.name];
    TextIsLeaf(m, [], e);
    if |x| == 1 {
      assert x == [x[0]];
    } else if Clashes(m, f, e) {
      LookupText(m, [e.name], e, x[1..]);
      LookupText(m, [e.name], j, x[1..]);
    }
  }

  lemma {:induction false} JoinsLookup(m: Model, f: seq<Node>, es: seq<Node>, x: seq<Id>)
    requires FitKids(m, [], es) && x != []
    ensures Lookup(m, [], JoinRoots(m, f, es), x) == JoinedValue(m, x, Lookup(m, [], f, x), Lookup(m, [], es, x))
    decreases es
  {
    hide FitKids, FitNode, IdOf, Lookup, JoinRoot;
    if es == [] {
      EmptyLookup(m, [], x);
    } else {
      var e, t := es[0], es[1..];
      TailFits(m, [], es);
      JoinFits(m, f, e);
      JoinsLookup(m, f, t, x);
      JoinOneLookup(m, f, e, x);
      assert es == [e] + t;
      LookupCons(m, [], e, t, x);
      LookupCons(m, [], JoinRoot(m, f, e), JoinRoots(m, f, t), x);
    }
  }

  /** Joining ousts nothing more and nothing less. */
  lemma JoinsOust(m: Model, f: seq<Node>, es: seq<Node>, x: seq<Id>)
    requires FitKids(m, [], es) && x != []
    ensures Ousted(m, [], JoinRoots(m, f, es), x) <==> Ousted(m, [], es, x)
  {
    hide FitKids, FitNode, IdOf, Rivals, Lookup, ValueOf, RivalAmong, JoinRoot;
    var r := JoinRoots(m, f, es);
    JoinsFit(m, f, es);
    forall i | 0 <= i < |es|
      ensures r[i].Element? && es[i].Element? && r[i].name == es[i].name && IdOf(m, [], r[i]) == IdOf(m, [], es[i])
      ensures r[i].kids == es[i].kids ||
        (|r[i].kids| == 1 && r[i].kids[0].Text? && |es[i].kids| == 1 && es[i].kids[0].Text?)
    {
      FitMember(m, [], es, i);
      JoinFits(m, f, es[i]);
      JoinedKids(m, f, es[i]);
    }
    SameNamesRival(m, es, r, x[0].name);
    SameIdsFound(m, es, r, x[0]);
    var i := SeekId(m, [], es, x[0]);
    if |x| > 1 && i.Some? && r[i.value].kids != es[i.value].kids {
      TextOustsNothing(m, [] + [es[i.value].name], es[i.value].kids, x[1..]);
      TextOustsNothing(m, [] + [es[i.value].name], r[i.value].kids, x[1..]);
    }
  }

  lemma JoinedKids(m: Model, f: seq<Node>, e: Node)
    requires e.Element?
    ensures var j := JoinRoot(m, f, e);
      j.Element? && (j == e || (|j.kids| == 1 && j.kids[0].Text? && |e.kids| == 1 && e.kids[0].Text?))
  {
  }

  lemma SameNamesRival(m: Model, es: seq<Node>, r: seq<Node>, name: string)
    requires |r| == |es| && forall i :: 0 <= i < |es| ==> r[i].Element? && es[i].Element? && r[i].name == es[i].name
    ensures RivalAmong(m, [], r, name) <==> RivalAmong(m, [], es, name)
  {
    hide Rivals;
  }

  lemma {:induction false} SameIdsFound(m: Model, es: seq<Node>, r: seq<Node>, id: Id)
    requires |r| == |es| && forall i :: 0 <= i < |es| ==>
      r[i].Element? && es[i].Element? && IdOf(m, [], r[i]) == IdOf(m, [], es[i])
    ensures SeekId(m, [], r, id) == SeekId(m, [], es, id)
  {
    hide IdOf, SeekId;
    if es == [] {
      assert r == [];
    } else {
      SeekHead(m, [], es, id);
      SeekHead(m, [], r, id);
      assert forall i :: 0 <= i < |es[1..]| ==> es[1..][i] == es[i + 1] && r[1..][i] == r[i + 1];
      SameIdsFound(m, es[1..], r[1..], id);
    }
  }

  /** The default merge of a whole edit: every instance has what the edit says in effect, or
      else keeps its value unless it is ousted. */
  lemma RootsMeaning(m: Model, f: seq<Node>, es: seq<Node>, x: seq<Id>)
    requires Mergeable(m) && FitKids(m, [], f) && FitKids(m, [], es) && OneBranch(m, [], es) && x != []
    ensures Lookup(m, [], MergeKids(m, [], f, JoinRoots(m, f, es)), x) ==
      Override(Kept(m, [], f, es, x), JoinedValue(m, x, Lookup(m, [], f, x), Lookup(m, [], es, x)))
  {
    hide FitKids, OneBranch, Lookup, Ousted, MergeKids;
    JoinsFit(m, f, es);
    JoinsOneBranch(m, f, es);
    NoKeysAtTheTop(m, f, JoinRoots(m, f, es));
    ChoiceOverrides(m, [], f, JoinRoots(m, f, es), x);
    JoinsOust(m, f, es, x);
    JoinsLookup(m, f, es, x);
  }

  lemma NoKeysAtTheTop(m: Model, kids: seq<Node>, edits: seq<Node>)
    ensures KeysAgree(m, [], kids, edits)
  {
  }

  /** Every leaf at the top of the edit is new, or has the value of the configuration up to
      whitespace, or replaces an empty one. */
  predicate NoClash(m: Model, f: seq<Node>, es: seq<Node>) {
    forall i :: 0 <= i < |es| ==> !Clashes(m, f, es[i]) || OldText(m, f, es[i]) == ""
  }

  /** The default merge takes the edit's values if and only if no leaf at its top clashes. */
  lemma RootValuesExactly(m: Model, f: seq<Node>, es: seq<Node>)
    requires Mergeable(m) && FitKids(m, [], f) && FitKids(m, [], es) && OneBranch(m, [], es)
    ensures NoClash(m, f, es) <==>
      forall x :: x != [] ==>
        Lookup(m, [], MergeKids(m, [], f, JoinRoots(m, f, es)), x) ==
          Override(Kept(m, [], f, es, x), Lookup(m, [], es, x))
  {
    hide FitKids, OneBranch, Lookup, Ousted, MergeKids, FitNode, IdOf;
    if NoClash(m, f, es) {
      forall x: seq<Id> | x != []
        ensures JoinedValue(m, x, Lookup(m, [], f, x), Lookup(m, [], es, x)) == Lookup(m, [], es, x)
      {
        NoClashNoJoin(m, f, es, x);
      }
      forall x: seq<Id> | x != []
        ensures Lookup(m, [], MergeKids(m, [], f, JoinRoots(m, f, es)), x) ==
          Override(Kept(m, [], f, es, x), Lookup(m, [], es, x))
      {
        RootsMeaning(m, f, es, x);
      }
    } else {
      var i :| 0 <= i < |es| && Clashes(m, f, es[i]) && OldText(m, f, es[i]) != "";
      var x := [IdOf(m, [], es[i])];
      RootsMeaning(m, f, es, x);
      ClashJoins(m, f, es, i);
    }
  }

  lemma NoClashNoJoin(m: Model, f: seq<Node>, es: seq<Node>, x: seq<Id>)
    requires FitKids(m, [], es) && x != [] && NoClash(m, f, es)
    ensures JoinedValue(m, x, Lookup(m, [], f, x), Lookup(m, [], es, x)) == Lookup(m, [], es, x)
  {
    hide FitKids, FitNode, IdOf;
    var i := SeekId(m, [], es, x[0]);
    if |x| == 1 && i.Some? {
      FitMember(m, [], es, i.value);
      var e := es[i.value];
      TextIsLeaf(m, [], e);
      assert [] + [e.name] == [e.name] && x == [x[0]];
      IdHasItsName(m, [], e);
      var v := Lookup(m, [], f, x);
      if v.Some? && v.value.LeafVal? && TextFirst(e) && !IsLeafList(m, [e.name]) {
        assert Lookup(m, [], es, x) == Some(LeafVal(e.kids[0].content));
        assert m.norm(v.value.text) != m.norm(e.kids[0].content) ==> Clashes(m, f, e);
        assert "" + e.kids[0].content == e.kids[0].content;
      }
    }
  }

  lemma ClashJoins(m: Model, f: seq<Node>, es: seq<Node>, i: nat)
    requires FitKids(m, [], es) && i < |es| && Clashes(m, f, es[i]) && OldText(m, f, es[i]) != ""
    ensures es[i].Element? && Lookup(m, [], es, [IdOf(m, [], es[i])]).Some?
    ensures var x := [IdOf(m, [], es[i])];
      JoinedValue(m, x, Lookup(m, [], f, x), Lookup(m, [], es, x)).Some? &&
      JoinedValue(m, x, Lookup(m, [], f, x), Lookup(m, [], es, x)) != Lookup(m, [], es, x)
  {
    hide FitKids, FitNode, IdOf;
    SeekFinds(m, [], es, i);
    IdHasItsName(m, [], es[i]);
    assert [] + [es[i].name] == [es[i].name];
    var t, u := OldText(m, f, es[i]), es[i].kids[0].content;
    assert |t + u| > |u|;
  }

  /** An input on which the texts are joined: a leaf at the top with the value v, merged
      with the value w. */
  lemma RootTextsJoin(m: Model, a: string, v: string, w: string)
    requires KeysOf(m, a) == [] && KindOf(m, [a]).Some? && KindOf(m, [a]).value.Leaf? && m.norm(v) != m.norm(w)
    ensures var f, es, x := [Element(a, map[], [Text(v)])], [Element(a, map[], [Text(w)])], [Id(a, [])];
      Lookup(m, [], es, x) == Some(LeafVal(w)) &&
      JoinedValue(m, x, Lookup(m, [], f, x), Lookup(m, [], es, x)) == Some(LeafVal(v + w)) &&
      (v != "" ==> !NoClash(m, f, es))
  {
    hide KindOf, KeysOf;
    var f, es := [Element(a, map[], [Text(v)])], [Element(a, map[], [Text(w)])];
    assert [] + [a] == [a] && f[1..] == [] && es[1..] == [];
    assert Clashes(m, f, es[0]) && OldText(m, f, es[0]) == v;
    assert v != "" ==> OldText(m, f, es[0]) != "";
  }

  // ---- root by root

  /** Merging one root leaves the others' counterparts as they were. */
  lemma JoinStable(m: Model, f: seq<Node>, es: seq<Node>)
    requires Mergeable(m) && FitKids(m, [], f) && FitKids(m, [], es) && OneBranch(m, [], es) && es != []
    ensures JoinRoots(m, MergeKid(m, [], f, JoinRoot(m, f, es[0])), es[1..]) == JoinRoots(m, f, es[1..])
  {
    hide FitKids, FitNode, OneBranch, Lookup, MergeKid, IdOf, JoinRoot, Ousted, Rivals;
    var c, t := es[0], es[1..];
    TailFits(m, [], es);
    JoinFits(m, f, c);
    var j := JoinRoot(m, f, c);
    JoinedOneBranch(m, f, es);
    NoKeysAtTheTop(m, f, [j]);
    var g := MergeKid(m, [], f, j);
    forall i | 0 <= i < |t|
      ensures JoinRoot(m, g, t[i]) == JoinRoot(m, f, t[i])
    {
      JoinFits(m, f, t[i]);
      FitMember(m, [], t, i);
      var x := [IdOf(m, [], t[i])];
      ChosenKid(m, [], f, j, x);
      OtherRoot(m, es, j, i);
      OustedOne(m, [], j, x);
      LookupOther(m, [], j, x);
      SameCounterpart(m, f, g, t[i]);
    }
  }

  lemma JoinedOneBranch(m: Model, f: seq<Node>, es: seq<Node>)
    requires FitKids(m, [], es) && OneBranch(m, [], es) && es != []
    ensures JoinRoot(m, f, es[0]).Element?
    ensures OneBranch(m, [] + [JoinRoot(m, f, es[0]).name], JoinRoot(m, f, es[0]).kids)
  {
    hide FitKids;
    JoinsOneBranch(m, f, es);
    TailFits(m, [], es);
    JoinFits(m, f, es[0]);
    assert JoinRoots(m, f, es)[0] == JoinRoot(m, f, es[0]);
  }

  lemma OtherRoot(m: Model, es: seq<Node>, j: Node, i: nat)
    requires FitKids(m, [], es) && OneBranch(m, [], es) && es != [] && i < |es[1..]| && es[0].Element?
    requires j.Element? && j.name == es[0].name && IdOf(m, [], j) == IdOf(m, [], es[0])
    ensures es[1..][i].Element? && IdOf(m, [], es[1..][i]) != IdOf(m, [], j)
    ensures !Rivals(m, [], j.name, IdOf(m, [], es[1..][i]).name)
  {
    hide FitNode, IdOf, Rivals;
    assert es[1..][i] == es[i + 1];
    FitMember(m, [], es, i + 1);
    IdHasItsName(m, [], es[i + 1]);
  }

  lemma SameCounterpart(m: Model, f: seq<Node>, g: seq<Node>, e: Node)
    requires e.Element? && Lookup(m, [], g, [IdOf(m, [], e)]) == Lookup(m, [], f, [IdOf(m, [], e)])
    ensures JoinRoot(m, g, e) == JoinRoot(m, f, e)
  {
    hide Lookup, IdOf;
  }
}
