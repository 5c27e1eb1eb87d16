/** The effect of merging on the map when the model has choices: the edit's map overrides the
    configuration's, and what lies in a rival branch of an edit node goes. */
module ChoiceMeaning {
  import opened Xml
  import opened Schema
  import opened Matching
  import opened Instances
  import opened Equivalents
  import opened Merge
  import opened MergeMeaning
  import opened Choices

  /** An instance called name lies in another branch of a choice than some edit node. */
  predicate RivalAmong(m: Model, at: seq<string>, edits: seq<Node>, name: string) {
    exists j :: 0 <= j < |edits| && edits[j].Element? && Rivals(m, at, edits[j].name, name)
  }

  /** The instance at p, or one above it, lies in another branch than an edit node. */
  predicate Ousted(m: Model, at: seq<string>, edits: seq<Node>, p: seq<Id>)
    decreases p
  {
    p != [] &&
    (RivalAmong(m, at, edits, p[0].name) ||
     (|p| > 1 && SeekId(m, at, edits, p[0]).Some? &&
      var c := edits[SeekId(m, at, edits, p[0]).value];
      Ousted(m, at + [c.name], c.kids, p[1..])))
  }

  /** The old value, unless it is ousted. */
  function Kept(m: Model, at: seq<string>, kids: seq<Node>, edits: seq<Node>, p: seq<Id>): Option<Val>
    requires p != []
  {
    if Ousted(m, at, edits, p) then None else Lookup(m, at, kids, p)
  }

  lemma {:induction false} CleanLookup(m: Model, at: seq<string>, kids: seq<Node>, keep: string, p: seq<Id>)
    requires (forall i :: 0 <= i < |kids| ==> kids[i].Element?) && p != []
    ensures Lookup(m, at, ChoiceClean(m, at, kids, keep), p) ==
      if Rivals(m, at, keep, p[0].name) then None else Lookup(m, at, kids, p)
    decreases kids
  {
    hide ValueOf, Rivals, IdOf, Lookup;
    if kids == [] {
      EmptyLookup(m, at, p);
    } else {
      var n, t := kids[0], kids[1..];
      CleanLookup(m, at, t, keep, p);
      assert kids == [n] + t;
      LookupCons(m, at, n, t, p);
      IdHasItsName(m, at, n);
      LookupOther(m, at, n, p);
      var rest := ChoiceClean(m, at, t, keep);
      assert [] + rest == rest;
      LookupCons(m, at, n, rest, p);
    }
  }

  lemma LookupOther(m: Model, at: seq<string>, n: Node, p: seq<Id>)
    requires n.Element? && p != []
    ensures p[0] != IdOf(m, at, n) ==> Lookup(m, at, [n], p).None?
  {
    LookupOne(m, at, n, p);
  }

  lemma IdHasItsName(m: Model, at: seq<string>, n: Node)
    requires n.Element?
    ensures IdOf(m, at, n).name == n.name
  {
  }

  /** Among the edits, at most the first and not the rest can oust what the first names. */
  lemma OustedSplit(m: Model, at: seq<string>, edits: seq<Node>, p: seq<Id>)
    requires FitKids(m, at, edits) && edits != [] && OneBranch(m, at, edits) && p != []
    ensures edits[0].Element?
    ensures Ousted(m, at, edits, p) <==> Ousted(m, at, [edits[0]], p) || Ousted(m, at, edits[1..], p)
    ensures Lookup(m, at, [edits[0]], p).Some? ==> !Ousted(m, at, edits[1..], p)
  {
    hide FitKids, Rivals, IdOf, OneBranch, ValueOf;
    var c, rest := edits[0], edits[1..];
    TailFits(m, at, edits);
    FitNodeAddressed(m, at, c);
    AddressedIsElement(m, at, c);
    RivalSplit(m, at, edits, p[0].name);
    SeekHead(m, at, edits, p[0]);
    SeekHead(m, at, [c], p[0]);
    assert [c][1..] == [];
    SeekEmpty(m, at, p[0]);
    IdHasItsName(m, at, c);
    LookupOther(m, at, c, p);
    NoRivalInRest(m, at, edits);
  }

  lemma RivalSplit(m: Model, at: seq<string>, edits: seq<Node>, name: string)
    requires edits != [] && edits[0].Element?
    ensures RivalAmong(m, at, edits, name) <==>
      Rivals(m, at, edits[0].name, name) || RivalAmong(m, at, edits[1..], name)
    ensures RivalAmong(m, at, [edits[0]], name) <==> Rivals(m, at, edits[0].name, name)
  {
    hide Rivals;
    var rest := edits[1..];
    assert forall j :: 0 <= j < |rest| ==> rest[j] == edits[j + 1];
    if RivalAmong(m, at, edits, name) {
      var j :| 0 <= j < |edits| && edits[j].Element? && Rivals(m, at, edits[j].name, name);
      assert j > 0 ==> rest[j - 1] == edits[j];
    }
    assert [edits[0]][0] == edits[0];
  }

  lemma NoRivalInRest(m: Model, at: seq<string>, edits: seq<Node>)
    requires OneBranch(m, at, edits) && edits != [] && edits[0].Element?
    ensures !RivalAmong(m, at, edits[1..], edits[0].name)
  {
    hide Rivals;
    forall j | 0 <= j < |edits[1..]| && edits[1..][j].Element?
      ensures !Rivals(m, at, edits[1..][j].name, edits[0].name)
    {
      assert edits[1..][j] == edits[j + 1];
    }
  }

  /** A name is no rival of itself, and keys have none. */
  lemma NoRivals(m: Model, at: seq<string>, name: string)
    ensures !Rivals(m, at, name, name)
    ensures KeysOutsideChoices(m) && IsKeyAt(m, at, name) ==> forall b :: !Rivals(m, at, name, b)
  {
    forall b | KeysOutsideChoices(m) && IsKeyAt(m, at, name)
      ensures !Rivals(m, at, name, b)
    {
      assert !Rivals(m, at, b, name);
    }
  }

  lemma OustedOne(m: Model, at: seq<string>, c: Node, p: seq<Id>)
    requires c.Element? && p != []
    ensures Ousted(m, at, [c], p) <==>
      Rivals(m, at, c.name, p[0].name) ||
      (|p| > 1 && p[0] == IdOf(m, at, c) && Ousted(m, at + [c.name], c.kids, p[1..]))
  {
    hide Rivals, IdOf, ValueOf;
    RivalSplit(m, at, [c], p[0].name);
    SeekHead(m, at, [c], p[0]);
    assert [c][1..] == [];
    SeekEmpty(m, at, p[0]);
  }

  lemma {:induction false} ChosenNode(m: Model, at: seq<string>, o: Node, e: Node, p: seq<Id>)
    requires Mergeable(m) && FitNode(m, at, o) && FitNode(m, at, e) && IdOf(m, at, o) == IdOf(m, at, e)
    requires !IsKeyAt(m, at, e.name) && p != [] && OneBranch(m, at + [e.name], e.kids)
    ensures Lookup(m, at, [MergeNode(m, at, o, e)], p) ==
      Override(Kept(m, at, [o], [e], p), Lookup(m, at, [e], p))
    decreases e, 0
  {
    hide Rivals, OneBranch, FitKids;
    var r := MergeNode(m, at, o, e);
    MergeKeepsId(m, at, o, e);
    IdHasItsName(m, at, o);
    IdHasItsName(m, at, e);
    LookupOne(m, at, o, p);
    LookupOne(m, at, e, p);
    LookupOne(m, at, r, p);
    MergedValue(m, at, o, e);
    OustedOne(m, at, e, p);
    NoRivals(m, at, e.name);
    if |p| > 1 && p[0] == IdOf(m, at, e) {
      var here := at + [e.name];
      if HoldsText(o) && HoldsText(e) {
        LeafMerge(m, at, o, e);
        LookupText(m, here, o, p[1..]);
        LookupText(m, here, e, p[1..]);
      } else {
        SameShape(m, at, o, e);
        MatchAgrees(m, at, o, e);
        ChoiceOverrides(m, here, o.kids, e.kids, p[1..]);
      }
    }
  }

  /** Merging one child overrides the map by that child's, and ousts its rivals. */
  lemma {:induction false} ChosenKid(m: Model, at: seq<string>, kids: seq<Node>, c: Node, p: seq<Id>)
    requires Mergeable(m) && FitKids(m, at, kids) && FitNode(m, at, c) && p != []
    requires KeysAgree(m, at, kids, [c]) && OneBranch(m, at + [c.name], c.kids)
    ensures Lookup(m, at, MergeKid(m, at, kids, c), p) ==
      Override(Kept(m, at, kids, [c], p), Lookup(m, at, [c], p))
    decreases c, 1
  {
    hide Rivals, OneBranch, FitKids, FitNode, IdOf, Lookup, Ousted, MergeNode, Matches, IsKeyAt, KeysAgree, ValueOf;
    FitNodeAddressed(m, at, c);
    AddressedIsElement(m, at, c);
    MatchIsSeek(m, at, kids, c);
    FitIsElements(m, at, kids);
    OustedOne(m, at, c, p);
    NoRivals(m, at, c.name);
    IdHasItsName(m, at, c);
    LookupOther(m, at, c, p);
    var i := FirstMatch(m, c, kids, IsLeafList(m, at + [c.name]));
    if IsKeyAt(m, at, c.name) {
      KeyStep(m, at, kids, c, p);
      KeyLeafId(m, at, c);
      TextOustsNothing(m, at + [c.name], c.kids, p[1..]);
    } else if i.None? {
      CleanFits(m, at, kids, c.name);
      AddStep(m, at, ChoiceClean(m, at, kids, c.name), c, p);
      CleanLookup(m, at, kids, c.name, p);
      AbsentBelow(m, at, kids, p);
    } else {
      var o := kids[i.value];
      var n := MergeNode(m, at, o, c);
      FitMember(m, at, kids, i.value);
      IdHasItsName(m, at, o);
      MergeKeepsId(m, at, o, c);
      CleanLookup(m, at, kids[i.value := n], c.name, p);
      UpdateStep(m, at, kids, i.value, n, p);
      UpdateStep(m, at, kids, i.value, o, p);
      assert kids[i.value := o] == kids;
      ChosenNode(m, at, o, c, p);
    }
  }

  lemma TextOustsNothing(m: Model, at: seq<string>, kids: seq<Node>, p: seq<Id>)
    requires |kids| == 1 && kids[0].Text?
    ensures !Ousted(m, at, kids, p)
  {
    assert kids[1..] == [];
  }

  /** Merging with choices: at every instance path the merged children have the edit's value
      where the edit has one; elsewhere the configuration's value, unless the instance or
      one above it lies in another branch than an edit node. */
  lemma {:induction false} ChoiceOverrides(m: Model, at: seq<string>, kids: seq<Node>, edits: seq<Node>, p: seq<Id>)
    requires Mergeable(m) && FitKids(m, at, kids) && FitKids(m, at, edits) && p != []
    requires KeysAgree(m, at, kids, edits) && OneBranch(m, at, edits)
    ensures Lookup(m, at, MergeKids(m, at, kids, edits), p) ==
      Override(Kept(m, at, kids, edits, p), Lookup(m, at, edits, p))
    decreases edits, 2
  {
    hide Rivals, OneBranch, FitKids, FitNode, IdOf, Lookup, Ousted, MergeKid;
    if edits == [] {
      EmptyLookup(m, at, p);
      NothingOusted(m, at, p);
    } else {
      var c, rest := edits[0], edits[1..];
      TailFits(m, at, edits);
      FitNodeAddressed(m, at, c);
      AddressedIsElement(m, at, c);
      MergeKidFits(m, at, kids, c);
      AgreeSplit(m, at, kids, edits);
      SubsetOneBranch(m, at, edits, rest);
      OneBranchBelow(m, at, edits);
      ChosenKid(m, at, kids, c, p);
      ChoiceOverrides(m, at, MergeKid(m, at, kids, c), rest, p);
      LookupSplit(m, at, edits, p);
      OustedSplit(m, at, edits, p);
    }
  }

  lemma NothingOusted(m: Model, at: seq<string>, p: seq<Id>)
    ensures !Ousted(m, at, [], p)
  {
  }

  lemma OneBranchBelow(m: Model, at: seq<string>, edits: seq<Node>)
    requires OneBranch(m, at, edits) && edits != [] && edits[0].Element?
    ensures OneBranch(m, at + [edits[0].name], edits[0].kids)
  {
  }
}
