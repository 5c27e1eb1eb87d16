/** The effect of merging on the map from instance paths to values: the edit's map
    overrides the configuration's. */
module MergeMeaning {
  import opened Xml
  import opened Schema
  import opened Matching
  import opened Instances
  import opened Equivalents
  import opened Merge

  /** One map overriding another, at one path. */
  function Override(under: Option<Val>, over: Option<Val>): Option<Val> {
    if over.Some? then over else under
  }

  lemma CleanIsIdentity(m: Model, at: seq<string>, kids: seq<Node>, keep: string)
    requires ChoiceFree(m.top)
    ensures ChoiceClean(m, at, kids, keep) == kids
  {
    NoBranch(m, at + [keep]);
    NoBranchNoClean(m, at, kids, keep);
  }

  lemma NoBranch(m: Model, names: seq<string>)
    requires ChoiceFree(m.top) && names != []
    ensures BranchOf(m, names).None?
  {
    if FindModel(m.top, names).Some? {
      ChoiceFreeBranch(m.top, FindModel(m.top, names).value);
    }
  }

  /** A model without choices whose list names are not shared. */
  ghost predicate Plain(m: Model) {
    WellKeyed(m) && ChoiceFree(m.top)
  }

  lemma PlainIsMergeable(m: Model)
    requires Plain(m)
    ensures Mergeable(m)
  {
    forall at, c, k | IsKeyAt(m, at, k)
      ensures !Rivals(m, at, c, k)
    {
      NoBranch(m, at + [c]);
    }
  }

  /** Every key child of the edit has the same value in the configuration. */
  predicate KeysAgree(m: Model, at: seq<string>, kids: seq<Node>, edits: seq<Node>) {
    forall i :: 0 <= i < |edits| && edits[i].Element? && IsKeyAt(m, at, edits[i].name) ==>
      KidValue(m, kids, edits[i].name) == Some(m.norm(Content(edits[i])))
  }

  lemma TextContent(n: Node)
    requires n.Element? && HoldsText(n)
    ensures Content(n) == n.kids[0].content
  {
    assert n.kids[1..] == [];
    assert ContentOf(n.kids) == Content(n.kids[0]) + ContentOf([]) == Content(n.kids[0]) + "";
  }

  /** A key leaf of a fit list is the first child of its name, and is found by it. */
  lemma KeyLeafFound(m: Model, at: seq<string>, kids: seq<Node>, k: string)
    requires FitKids(m, at, kids) && IsKeyAt(m, at, k) && FirstNamed(kids, k).Some?
    ensures var n := kids[FirstNamed(kids, k).value];
      n.Element? && HoldsText(n) && IdOf(m, at, n) == Id(k, []) &&
      ValueOf(m, at, n) == LeafVal(m.norm(Content(n))) &&
      SeekId(m, at, kids, Id(k, [])) == FirstNamed(kids, k)
  {
    var j := FirstNamed(kids, k).value;
    assert FitNode(m, at, kids[j]);
    TextContent(kids[j]);
    SeekFinds(m, at, kids, j);
  }

  /** An edit child that is a key has, by itself, the identity of its name. */
  lemma KeyLeafId(m: Model, at: seq<string>, c: Node)
    requires FitNode(m, at, c) && IsKeyAt(m, at, c.name)
    ensures HoldsText(c) && IdOf(m, at, c) == Id(c.name, []) && ValueOf(m, at, c) == LeafVal(m.norm(Content(c)))
  {
    TextContent(c);
  }

  /** The map of a document with one child. */
  lemma LookupOne(m: Model, at: seq<string>, c: Node, p: seq<Id>)
    requires c.Element? && p != []
    ensures Lookup(m, at, [c], p) ==
      if p[0] != IdOf(m, at, c) then None
      else if |p| == 1 then Some(ValueOf(m, at, c))
      else Lookup(m, at + [c.name], c.kids, p[1..])
  {
    assert [c][1..] == [];
  }

  lemma {:induction false} LookupCons(m: Model, at: seq<string>, n: Node, t: seq<Node>, x: seq<Id>)
    requires n.Element? && x != []
    ensures Lookup(m, at, [n] + t, x) ==
      if x[0] == IdOf(m, at, n) then Lookup(m, at, [n], x) else Lookup(m, at, t, x)
  {
    hide IdOf, ValueOf;
    assert ([n] + t)[1..] == t && ([n] + t)[0] == n;
    SeekHead(m, at, [n] + t, x[0]);
    LookupOne(m, at, n, x);
  }

  lemma LookupText(m: Model, at: seq<string>, n: Node, p: seq<Id>)
    requires n.Element? && HoldsText(n) && p != []
    ensures Lookup(m, at, n.kids, p).None?
  {
    assert n.kids == [n.kids[0]] && n.kids[1..] == [];
  }

  lemma AbsentBelow(m: Model, at: seq<string>, kids: seq<Node>, y: seq<Id>)
    requires y != []
    ensures SeekId(m, at, kids, y[0]).None? ==> Lookup(m, at, kids, y).None?
  {
  }

  lemma EmptyLookup(m: Model, at: seq<string>, x: seq<Id>)
    requires x != []
    ensures Lookup(m, at, [], x).None?
  {
  }

  /** A key child changes nothing, and says nothing new. */
  lemma KeyStep(m: Model, at: seq<string>, kids: seq<Node>, c: Node, p: seq<Id>)
    requires FitKids(m, at, kids) && FitNode(m, at, c) && p != []
    requires IsKeyAt(m, at, c.name) && KeysAgree(m, at, kids, [c])
    ensures Lookup(m, at, kids, p) == Override(Lookup(m, at, kids, p), Lookup(m, at, [c], p))
  {
    assert [c][0] == c;
    KeyLeafFound(m, at, kids, c.name);
    KeyLeafId(m, at, c);
    LookupOne(m, at, c, p);
    if |p| > 1 && p[0] == IdOf(m, at, c) {
      LookupText(m, at + [c.name], c, p[1..]);
    }
  }

  /** A child without a match is added: the map gains it. */
  lemma AddStep(m: Model, at: seq<string>, kids: seq<Node>, c: Node, p: seq<Id>)
    requires FitKids(m, at, kids) && FitNode(m, at, c) && p != []
    requires SeekId(m, at, kids, IdOf(m, at, c)).None?
    ensures Lookup(m, at, kids + [c], p) == Override(Lookup(m, at, kids, p), Lookup(m, at, [c], p))
  {
    SeekAppend(m, at, kids, [c], p[0]);
    SeekHead(m, at, [c], p[0]);
    SeekEmpty(m, at, p[0]);
    LookupOne(m, at, c, p);
    if p[0] == IdOf(m, at, c) {
      assert (kids + [c])[|kids|] == c;
    }
  }

  /** Changing the child of one identity changes the map below that identity only. */
  lemma UpdateStep(m: Model, at: seq<string>, kids: seq<Node>, i: nat, n: Node, p: seq<Id>)
    requires FitKids(m, at, kids) && i < |kids| && kids[i].Element? && n.Element? && p != []
    requires IdOf(m, at, n) == IdOf(m, at, kids[i])
    ensures Lookup(m, at, kids[i := n], p) ==
      if p[0] == IdOf(m, at, n) then Lookup(m, at, [n], p) else Lookup(m, at, kids, p)
  {
    SeekUpdate(m, at, kids, i, n, p[0]);
    SeekFinds(m, at, kids, i);
    LookupOne(m, at, n, p);
  }

  /** In a fit document a matching pair agrees on its keys. */
  lemma MatchAgrees(m: Model, at: seq<string>, o: Node, e: Node)
    requires WellKeyed(m) && FitNode(m, at, o) && FitNode(m, at, e) && IdOf(m, at, o) == IdOf(m, at, e)
    requires FitKids(m, at + [e.name], e.kids)
    ensures KeysAgree(m, at + [e.name], o.kids, e.kids)
  {
    forall i | 0 <= i < |e.kids| && e.kids[i].Element? && IsKeyAt(m, at + [e.name], e.kids[i].name)
      ensures KidValue(m, o.kids, e.kids[i].name) == Some(m.norm(Content(e.kids[i])))
    {
      var k := e.kids[i].name;
      KeyIsKeyAt(m, at, e.name, k);
      TextIsLeaf(m, at, e);
      KeyLeafUnique(m, at + [e.name], e.kids, i);
      SameIdSameKeys(m, at, o, e, k);
    }
  }

  lemma KeyLeafUnique(m: Model, at: seq<string>, kids: seq<Node>, i: nat)
    requires FitKids(m, at, kids) && i < |kids| && kids[i].Element? && IsKeyAt(m, at, kids[i].name)
    ensures FirstNamed(kids, kids[i].name) == Some(i)
  {
    assert FitNode(m, at, kids[i]);
    KeyLeafFound(m, at, kids, kids[i].name);
    KeyLeafId(m, at, kids[i]);
    SeekFinds(m, at, kids, i);
  }

  lemma SameIdSameKeys(m: Model, at: seq<string>, o: Node, e: Node, k: string)
    requires o.Element? && e.Element? && IdOf(m, at, o) == IdOf(m, at, e) && k in KeysOf(m, e.name)
    requires !(IsLeafList(m, at + [e.name]) && TextFirst(e))
    requires !(IsLeafList(m, at + [o.name]) && TextFirst(o))
    ensures KidValue(m, o.kids, k) == KidValue(m, e.kids, k)
  {
    var names := KeysOf(m, e.name);
    var i :| 0 <= i < |names| && names[i] == k;
    assert KeyValues(m, o.kids, names)[i] == KeyValues(m, e.kids, names)[i];
  }

  /** Merging takes the edit's value. */
  lemma MergedValue(m: Model, at: seq<string>, o: Node, e: Node)
    requires Mergeable(m) && FitNode(m, at, o) && FitNode(m, at, e) && IdOf(m, at, o) == IdOf(m, at, e)
    requires !IsKeyAt(m, at, e.name)
    ensures ValueOf(m, at, MergeNode(m, at, o, e)) == ValueOf(m, at, e)
  {
    TextIsLeaf(m, at, o);
    TextIsLeaf(m, at, e);
    if HoldsText(o) && HoldsText(e) {
      LeafMerge(m, at, o, e);
    } else {
      SameShape(m, at, o, e);
      MergeNodeFits(m, at, o, e);
      TextIsLeaf(m, at, MergeNode(m, at, o, e));
      MergeKidsFit(m, at + [o.name], o.kids, e.kids);
    }
  }

  /** Merging a pair of matching children overrides the map of the one by the other's. */
  lemma {:induction false} NodeStep(m: Model, at: seq<string>, o: Node, e: Node, p: seq<Id>)
    requires Plain(m) && FitNode(m, at, o) && FitNode(m, at, e) && IdOf(m, at, o) == IdOf(m, at, e)
    requires !IsKeyAt(m, at, e.name) && p != []
    ensures Lookup(m, at, [MergeNode(m, at, o, e)], p) ==
      Override(Lookup(m, at, [o], p), Lookup(m, at, [e], p))
    decreases e, 0
  {
    var r := MergeNode(m, at, o, e);
    PlainIsMergeable(m);
    MergeKeepsId(m, at, o, e);
    LookupOne(m, at, o, p);
    LookupOne(m, at, e, p);
    LookupOne(m, at, r, p);
    MergedValue(m, at, o, e);
    if |p| > 1 {
      var here := at + [e.name];
      if HoldsText(o) && HoldsText(e) {
        LeafMerge(m, at, o, e);
        LookupText(m, here, o, p[1..]);
        LookupText(m, here, e, p[1..]);
      } else {
        SameShape(m, at, o, e);
        MatchAgrees(m, at, o, e);
        MergeOverrides(m, here, o.kids, e.kids, p[1..]);
      }
    }
  }

  /** Merging one child overrides the map by that child's. */
  lemma {:induction false} KidStep(m: Model, at: seq<string>, kids: seq<Node>, c: Node, p: seq<Id>)
    requires Plain(m) && FitKids(m, at, kids) && FitNode(m, at, c) && p != []
    requires KeysAgree(m, at, kids, [c])
    ensures Lookup(m, at, MergeKid(m, at, kids, c), p) ==
      Override(Lookup(m, at, kids, p), Lookup(m, at, [c], p))
    decreases c, 1
  {
    MatchIsSeek(m, at, kids, c);
    var i := FirstMatch(m, c, kids, IsLeafList(m, at + [c.name]));
    if IsKeyAt(m, at, c.name) {
      KeyStep(m, at, kids, c, p);
    } else if i.None? {
      CleanIsIdentity(m, at, kids, c.name);
      AddStep(m, at, kids, c, p);
    } else {
      var o := kids[i.value];
      var n := MergeNode(m, at, o, c);
      CleanIsIdentity(m, at, kids[i.value := n], c.name);
      assert FitNode(m, at, o);
      PlainIsMergeable(m);
      MergeKeepsId(m, at, o, c);
      UpdateStep(m, at, kids, i.value, n, p);
      NodeStep(m, at, o, c, p);
      SeekFinds(m, at, kids, i.value);
      LookupOne(m, at, o, p);
      LookupOne(m, at, c, p);
    }
  }

  /** Merging overrides: at every instance path the merged children have the edit's value
      where the edit has one, and the configuration's value everywhere else. */
  lemma {:induction false} MergeOverrides(m: Model, at: seq<string>, kids: seq<Node>, edits: seq<Node>, p: seq<Id>)
    requires Plain(m) && FitKids(m, at, kids) && FitKids(m, at, edits) && p != []
    requires KeysAgree(m, at, kids, edits)
    ensures Lookup(m, at, MergeKids(m, at, kids, edits), p) ==
      Override(Lookup(m, at, kids, p), Lookup(m, at, edits, p))
    decreases edits, 2
  {
    if edits != [] {
      var c, rest := edits[0], edits[1..];
      TailFits(m, at, edits);
      PlainIsMergeable(m);
      MergeKidFits(m, at, kids, c);
      AgreeSplit(m, at, kids, edits);
      KidStep(m, at, kids, c, p);
      MergeOverrides(m, at, MergeKid(m, at, kids, c), rest, p);
      LookupSplit(m, at, edits, p);
    }
  }

  /** Agreement on keys splits along the edit and survives merging its first child. */
  lemma AgreeSplit(m: Model, at: seq<string>, kids: seq<Node>, edits: seq<Node>)
    requires Mergeable(m) && edits != [] && edits[0].Element? && KeysAgree(m, at, kids, edits)
    ensures KeysAgree(m, at, kids, [edits[0]])
    ensures KeysAgree(m, at, MergeKid(m, at, kids, edits[0]), edits[1..])
  {
    var rest := edits[1..];
    forall i | 0 <= i < |rest| && rest[i].Element? && IsKeyAt(m, at, rest[i].name)
      ensures KidValue(m, MergeKid(m, at, kids, edits[0]), rest[i].name) == Some(m.norm(Content(rest[i])))
    {
      assert rest[i] == edits[i + 1];
      MergeKidKeepsKey(m, at, kids, edits[0], rest[i].name);
    }
  }

  /** The map of a child list is that of its first child, overriding the rest. */
  lemma LookupSplit(m: Model, at: seq<string>, kids: seq<Node>, p: seq<Id>)
    requires FitKids(m, at, kids) && kids != [] && p != []
    ensures Lookup(m, at, kids, p) == Override(Lookup(m, at, [kids[0]], p), Lookup(m, at, kids[1..], p))
  {
    hide IdOf, FitKids;
    TailFits(m, at, kids);
    LookupOne(m, at, kids[0], p);
    if p[0] == IdOf(m, at, kids[0]) {
      SeekFinds(m, at, kids, 0);
    } else {
      assert SeekId(m, at, kids, p[0]) ==
        if SeekId(m, at, kids[1..], p[0]).Some? then Some(SeekId(m, at, kids[1..], p[0]).value + 1) else None;
    }
  }

  // ---- order and idempotence

  /** Merging keeps the configuration's children in place, in order: the i-th child is
      still the same instance, and is untouched unless the edit names it. New children
      follow, in the order of the edit. */
  ghost predicate KeepsOrder(m: Model, at: seq<string>, kids: seq<Node>, edits: seq<Node>, r: seq<Node>) {
    |kids| <= |r| &&
    (forall i :: 0 <= i < |r| ==> r[i].Element?) &&
    (forall i :: 0 <= i < |kids| ==> kids[i].Element? && IdOf(m, at, r[i]) == IdOf(m, at, kids[i])) &&
    (forall i :: 0 <= i < |kids| ==> r[i] == kids[i] || SeekId(m, at, edits, IdOf(m, at, kids[i])).Some?) &&
    r[|kids|..] == NewKids(m, at, kids, edits)
  }

  /** The children of the edit that have no counterpart. */
  function NewKids(m: Model, at: seq<string>, kids: seq<Node>, edits: seq<Node>): seq<Node> {
    if edits == [] then []
    else
      (if edits[0].Text? || SeekId(m, at, kids, IdOf(m, at, edits[0])).Some? then [] else [edits[0]])
      + NewKids(m, at, kids, edits[1..])
  }

  lemma {:induction false} NewKidsSame(m: Model, at: seq<string>, a: seq<Node>, b: seq<Node>, edits: seq<Node>)
    requires forall i :: 0 <= i < |edits| && edits[i].Element? ==>
      (SeekId(m, at, a, IdOf(m, at, edits[i])).Some? <==> SeekId(m, at, b, IdOf(m, at, edits[i])).Some?)
    ensures NewKids(m, at, a, edits) == NewKids(m, at, b, edits)
  {
    if edits != [] {
      forall i | 0 <= i < |edits[1..]| && edits[1..][i].Element?
        ensures SeekId(m, at, a, IdOf(m, at, edits[1..][i])).Some? <==>
          SeekId(m, at, b, IdOf(m, at, edits[1..][i])).Some?
      {
        assert edits[1..][i] == edits[i + 1];
      }
      NewKidsSame(m, at, a, b, edits[1..]);
    }
  }

  /** One step of merging, without choices: nothing, an update in place, or an addition. */
  lemma StepShape(m: Model, at: seq<string>, kids: seq<Node>, c: Node)
    requires Plain(m) && FitKids(m, at, kids) && FitNode(m, at, c) && KeysAgree(m, at, kids, [c])
    ensures var i := SeekId(m, at, kids, IdOf(m, at, c));
      MergeKid(m, at, kids, c) ==
        if i.None? then kids + [c]
        else if IsKeyAt(m, at, c.name) then kids
        else kids[i.value := MergeNode(m, at, kids[i.value], c)]
  {
    MatchIsSeek(m, at, kids, c);
    var i := SeekId(m, at, kids, IdOf(m, at, c));
    if IsKeyAt(m, at, c.name) {
      assert [c][0] == c;
      KeyLeafFound(m, at, kids, c.name);
      KeyLeafId(m, at, c);
    } else if i.None? {
      CleanIsIdentity(m, at, kids, c.name);
    } else {
      CleanIsIdentity(m, at, kids[i.value := MergeNode(m, at, kids[i.value], c)], c.name);
    }
  }

  /** One step of merging keeps order. */
  lemma StepKeepsOrder(m: Model, at: seq<string>, kids: seq<Node>, c: Node)
    requires Plain(m) && FitKids(m, at, kids) && FitNode(m, at, c) && KeysAgree(m, at, kids, [c])
    ensures KeepsOrder(m, at, kids, [c], MergeKid(m, at, kids, c))
  {
    hide MergeKid, IdOf, FitNode, FitKids;
    var r := MergeKid(m, at, kids, c);
    FitNodeAddressed(m, at, c);
    FitIsElements(m, at, kids);
    StepShape(m, at, kids, c);
    var i := SeekId(m, at, kids, IdOf(m, at, c));
    assert NewKids(m, at, kids, [c]) == (if i.Some? then [] else [c]) + NewKids(m, at, kids, []);
    assert SeekId(m, at, [c], IdOf(m, at, c)) == Some(0);
    if i.None? {
      assert r[|kids|..] == [c];
    } else {
      assert r[|kids|..] == [];
      PlainIsMergeable(m);
      FitMember(m, at, kids, i.value);
      SameNameOfId(m, at, kids[i.value], c);
      MergeKeepsId(m, at, kids[i.value], c);
    }
  }

  lemma SameNameOfId(m: Model, at: seq<string>, a: Node, b: Node)
    requires a.Element? && b.Element? && IdOf(m, at, a) == IdOf(m, at, b)
    ensures a.name == b.name
  {
  }

  /** Merging keeps the order of the configuration and appends the rest in edit order. */
  lemma {:induction false} MergeKeepsOrder(m: Model, at: seq<string>, kids: seq<Node>, edits: seq<Node>)
    requires Plain(m) && FitKids(m, at, kids) && FitKids(m, at, edits) && KeysAgree(m, at, kids, edits)
    ensures KeepsOrder(m, at, kids, edits, MergeKids(m, at, kids, edits))
    decreases edits
  {
    if edits == [] {
      FitIsElements(m, at, kids);
    } else {
      var c, rest := edits[0], edits[1..];
      var r1 := MergeKid(m, at, kids, c);
      TailFits(m, at, edits);
      PlainIsMergeable(m);
      MergeKidFits(m, at, kids, c);
      AgreeSplit(m, at, kids, edits);
      StepKeepsOrder(m, at, kids, c);
      MergeKeepsOrder(m, at, r1, rest);
      OrderTrans(m, at, kids, edits, r1, MergeKids(m, at, r1, rest));
    }
  }

  lemma OrderTrans(m: Model, at: seq<string>, kids: seq<Node>, edits: seq<Node>, r1: seq<Node>, r: seq<Node>)
    requires edits != [] && edits[0].Element? && SeekId(m, at, edits[1..], IdOf(m, at, edits[0])).None?
    requires KeepsOrder(m, at, kids, [edits[0]], r1) && KeepsOrder(m, at, r1, edits[1..], r)
    ensures KeepsOrder(m, at, kids, edits, r)
  {
    var c, rest := edits[0], edits[1..];
    assert edits == [c] + rest;
    forall id
      ensures SeekId(m, at, [c], id).Some? || SeekId(m, at, rest, id).Some? ==> SeekId(m, at, edits, id).Some?
    {
      SeekAppend(m, at, [c], rest, id);
    }
    assert forall i :: 0 <= i < |kids| ==> r1[i] == kids[i] || SeekId(m, at, [c], IdOf(m, at, kids[i])).Some?;
    OrderTransNew(m, at, kids, edits, r1, r);
  }

  lemma OrderTransNew(m: Model, at: seq<string>, kids: seq<Node>, edits: seq<Node>, r1: seq<Node>, r: seq<Node>)
    requires edits != [] && edits[0].Element? && SeekId(m, at, edits[1..], IdOf(m, at, edits[0])).None?
    requires KeepsOrder(m, at, kids, [edits[0]], r1) && KeepsOrder(m, at, r1, edits[1..], r)
    ensures r[|kids|..] == NewKids(m, at, kids, edits)
  {
    var c, rest := edits[0], edits[1..];
    assert NewKids(m, at, kids, [c]) == (if SeekId(m, at, kids, IdOf(m, at, c)).Some? then [] else [c]) + [];
    assert r1[|kids|..] == if SeekId(m, at, kids, IdOf(m, at, c)).Some? then [] else [c];
    AddedStays(m, at, kids, c, rest, r1, r);
    forall i | 0 <= i < |rest| && rest[i].Element?
      ensures SeekId(m, at, kids, IdOf(m, at, rest[i])).Some? <==> SeekId(m, at, r1, IdOf(m, at, rest[i])).Some?
    {
      SeekAmongMore(m, at, kids, r1, c, IdOf(m, at, rest[i]));
    }
    NewKidsSame(m, at, kids, r1, rest);
  }

  /** A child added by one step stays as it is through the steps that follow. */
  lemma AddedStays(m: Model, at: seq<string>, kids: seq<Node>, c: Node, rest: seq<Node>, r1: seq<Node>, r: seq<Node>)
    requires c.Element? && SeekId(m, at, rest, IdOf(m, at, c)).None?
    requires |kids| <= |r1| && (r1[|kids|..] == [] || r1[|kids|..] == [c])
    requires KeepsOrder(m, at, r1, rest, r)
    ensures r[|kids|..] == r1[|kids|..] + r[|r1|..]
  {
    hide IdOf, NewKids, SeekId;
    if |r1| > |kids| {
      assert r1[|kids|] == r1[|kids|..][0] == c && |r1[|kids|..]| == 1;
      assert r[|kids|] == c;
    }
  }

  lemma SeekAmongMore(m: Model, at: seq<string>, kids: seq<Node>, r1: seq<Node>, c: Node, id: Id)
    requires c.Element? && id != IdOf(m, at, c)
    requires |kids| <= |r1| && (r1[|kids|..] == [] || r1[|kids|..] == [c])
    requires forall i :: 0 <= i < |kids| ==>
      kids[i].Element? && r1[i].Element? && IdOf(m, at, r1[i]) == IdOf(m, at, kids[i])
    ensures SeekId(m, at, kids, id).Some? <==> SeekId(m, at, r1, id).Some?
  {
    SameIdsSeek(m, at, kids, r1[..|kids|], id);
    SeekAppend(m, at, r1[..|kids|], r1[|kids|..], id);
    assert r1 == r1[..|kids|] + r1[|kids|..];
    SeekHead(m, at, [c], id);
    SeekEmpty(m, at, id);
  }

  /** Lists whose elements have the same identities are searched alike. */
  lemma {:induction false} SameIdsSeek(m: Model, at: seq<string>, a: seq<Node>, b: seq<Node>, id: Id)
    requires |a| == |b|
    requires forall i :: 0 <= i < |a| ==> a[i].Element? && b[i].Element? && IdOf(m, at, a[i]) == IdOf(m, at, b[i])
    ensures SeekId(m, at, a, id) == SeekId(m, at, b, id)
  {
    hide IdOf;
    if a != [] {
      SameIdsSeek(m, at, a[1..], b[1..], id);
    }
  }

  /** An edit each of whose children changes nothing changes nothing. */
  lemma {:induction false} AbsorbAll(m: Model, at: seq<string>, kids: seq<Node>, edits: seq<Node>)
    requires forall i :: 0 <= i < |edits| ==> MergeKid(m, at, kids, edits[i]) == kids
    ensures MergeKids(m, at, kids, edits) == kids
    decreases edits
  {
    if edits != [] {
      AbsorbAll(m, at, kids, edits[1..]);
    }
  }

  lemma SelfAgrees(m: Model, at: seq<string>, kids: seq<Node>)
    requires FitKids(m, at, kids)
    ensures KeysAgree(m, at, kids, kids)
  {
    forall i | 0 <= i < |kids| && kids[i].Element? && IsKeyAt(m, at, kids[i].name)
      ensures KidValue(m, kids, kids[i].name) == Some(m.norm(Content(kids[i])))
    {
      KeyLeafUnique(m, at, kids, i);
    }
  }

  /** Merging a document into itself changes nothing. */
  lemma {:induction false} SelfMerge(m: Model, at: seq<string>, kids: seq<Node>)
    requires Plain(m) && FitKids(m, at, kids)
    ensures MergeKids(m, at, kids, kids) == kids
    decreases kids, 1
  {
    SelfAgrees(m, at, kids);
    forall i | 0 <= i < |kids|
      ensures MergeKid(m, at, kids, kids[i]) == kids
    {
      assert FitNode(m, at, kids[i]);
      SeekFinds(m, at, kids, i);
      assert [kids[i]][0] == kids[i];
      StepShape(m, at, kids, kids[i]);
      SelfMergeNode(m, at, kids[i]);
    }
    AbsorbAll(m, at, kids, kids);
  }

  lemma {:induction false} SelfMergeNode(m: Model, at: seq<string>, n: Node)
    requires Plain(m) && FitNode(m, at, n)
    ensures MergeNode(m, at, n, n) == n
    decreases n, 0
  {
    TextIsLeaf(m, at, n);
    if HoldsText(n) {
      LeafMerge(m, at, n, n);
    } else {
      SelfMerge(m, at + [n.name], n.kids);
    }
  }

  /** Merging a child twice into its counterpart is merging it once. */
  lemma {:induction false} NodeTwice(m: Model, at: seq<string>, o: Node, e: Node)
    requires Plain(m) && FitNode(m, at, o) && FitNode(m, at, e) && IdOf(m, at, o) == IdOf(m, at, e)
    ensures MergeNode(m, at, MergeNode(m, at, o, e), e) == MergeNode(m, at, o, e)
    decreases e, 0
  {
    if HoldsText(o) && HoldsText(e) {
      LeafMerge(m, at, o, e);
      LeafMerge(m, at, MergeNode(m, at, o, e), e);
    } else {
      SameShape(m, at, o, e);
      MatchAgrees(m, at, o, e);
      MergeTwice(m, at + [o.name], o.kids, e.kids);
    }
  }

  /** Merging the same edit again changes nothing. */
  lemma {:induction false} MergeTwice(m: Model, at: seq<string>, kids: seq<Node>, edits: seq<Node>)
    requires Plain(m) && FitKids(m, at, kids) && FitKids(m, at, edits) && KeysAgree(m, at, kids, edits)
    ensures MergeKids(m, at, MergeKids(m, at, kids, edits), edits) == MergeKids(m, at, kids, edits)
    decreases edits, 2
  {
    var r := MergeKids(m, at, kids, edits);
    forall j | 0 <= j < |edits|
      ensures MergeKid(m, at, r, edits[j]) == r
    {
      Absorbed(m, at, kids, edits, j);
    }
    AbsorbAll(m, at, r, edits);
  }

  /** The merged children absorb each child of the edit. */
  lemma {:induction false} Absorbed(m: Model, at: seq<string>, kids: seq<Node>, edits: seq<Node>, j: nat)
    requires Plain(m) && FitKids(m, at, kids) && FitKids(m, at, edits) && KeysAgree(m, at, kids, edits)
    requires j < |edits|
    ensures MergeKid(m, at, MergeKids(m, at, kids, edits), edits[j]) == MergeKids(m, at, kids, edits)
    decreases edits, 1, j
  {
    var c, rest := edits[0], edits[1..];
    var r1 := MergeKid(m, at, kids, c);
    TailFits(m, at, edits);
    PlainIsMergeable(m);
    MergeKidFits(m, at, kids, c);
    AgreeSplit(m, at, kids, edits);
    if j > 0 {
      assert rest[j - 1] == edits[j];
      Absorbed(m, at, r1, rest, j - 1);
    } else {
      var k := StepAbsorbs(m, at, kids, c);
      StaysAbsorbed(m, at, r1, rest, c, k);
    }
  }

  /** After one step, the child's counterpart is there and absorbs it. */
  lemma {:induction false} StepAbsorbs(m: Model, at: seq<string>, kids: seq<Node>, c: Node) returns (k: nat)
    requires Plain(m) && FitKids(m, at, kids) && FitNode(m, at, c) && KeysAgree(m, at, kids, [c])
    ensures var r1 := MergeKid(m, at, kids, c);
      k < |r1| && r1[k].Element? && IdOf(m, at, r1[k]) == IdOf(m, at, c) &&
      (IsKeyAt(m, at, c.name) || MergeNode(m, at, r1[k], c) == r1[k])
    decreases c, 1
  {
    PlainIsMergeable(m);
    StepShape(m, at, kids, c);
    var i := SeekId(m, at, kids, IdOf(m, at, c));
    if i.None? {
      SelfMergeNode(m, at, c);
      k := |kids|;
    } else {
      k := i.value;
      assert FitNode(m, at, kids[k]);
      MergeKeepsId(m, at, kids[k], c);
      NodeTwice(m, at, kids[k], c);
    }
  }

  /** A child that is absorbed stays absorbed through later steps. */
  lemma StaysAbsorbed(m: Model, at: seq<string>, r1: seq<Node>, rest: seq<Node>, c: Node, k: nat)
    requires Plain(m) && FitKids(m, at, r1) && FitKids(m, at, rest) && KeysAgree(m, at, r1, rest)
    requires FitNode(m, at, c) && SeekId(m, at, rest, IdOf(m, at, c)).None? && KeysAgree(m, at, r1, [c])
    requires k < |r1| && r1[k].Element? && IdOf(m, at, r1[k]) == IdOf(m, at, c)
    requires IsKeyAt(m, at, c.name) || MergeNode(m, at, r1[k], c) == r1[k]
    ensures MergeKid(m, at, MergeKids(m, at, r1, rest), c) == MergeKids(m, at, r1, rest)
  {
    var r := MergeKids(m, at, r1, rest);
    PlainIsMergeable(m);
    MergeKidsFit(m, at, r1, rest);
    MergeKeepsOrder(m, at, r1, rest);
    assert r[k] == r1[k];
    SeekFinds(m, at, r, k);
    FitIsElements(m, at, rest);
    if IsKeyAt(m, at, c.name) {
      assert [c][0] == c;
      MergeKeepsKey(m, at, r1, rest, c.name);
    }
    assert KeysAgree(m, at, r, [c]);
    StepShape(m, at, r, c);
  }
}
