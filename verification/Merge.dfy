/** What merging means: the child list that results from merging an edit into a
    configuration, and the effect of that on the map from instance paths to values. */
module Merge {
  import opened Xml
  import opened Schema
  import opened Matching
  import opened Instances
  import opened Equivalents

  /** Two siblings called a and b lie in different branches of one choice. */
  predicate Rivals(m: Model, at: seq<string>, a: string, b: string) {
    var p, q := BranchOf(m, at + [a]), BranchOf(m, at + [b]);
    p.Some? && q.Some? && p.value != q.value && p.value != [] && q.value != [] &&
    Parent(p.value) == Parent(q.value)
  }

  /** The children that survive when a child called keep takes its branch of a choice. */
  function ChoiceClean(m: Model, at: seq<string>, kids: seq<Node>, keep: string): (r: seq<Node>)
    ensures |r| <= |kids|
    ensures forall n :: n in r ==> n in kids
  {
    if kids == [] then []
    else
      (if kids[0].Element? && Rivals(m, at, keep, kids[0].name) then [] else [kids[0]])
      + ChoiceClean(m, at, kids[1..], keep)
  }

  lemma {:induction false} NoBranchNoClean(m: Model, at: seq<string>, kids: seq<Node>, keep: string)
    requires BranchOf(m, at + [keep]).None?
    ensures ChoiceClean(m, at, kids, keep) == kids
  {
    if kids != [] {
      NoBranchNoClean(m, at, kids[1..], keep);
    }
  }

  predicate HasText(kids: seq<Node>) {
    exists i :: 0 <= i < |kids| && kids[i].Text?
  }

  function ReplaceTexts(kids: seq<Node>, t: Node): (r: seq<Node>)
    ensures |r| == |kids|
    ensures forall i :: 0 <= i < |r| ==> r[i] == if kids[i].Text? then t else kids[i]
  {
    if kids == [] then []
    else [if kids[0].Text? then t else kids[0]] + ReplaceTexts(kids[1..], t)
  }

  /** The children of an element named at after merging the edit's children in turn. */
  function MergeKids(m: Model, at: seq<string>, kids: seq<Node>, edits: seq<Node>): seq<Node>
    decreases edits, 2
  {
    if edits == [] then kids
    else MergeKids(m, at, MergeKid(m, at, kids, edits[0]), edits[1..])
  }

  /** Merging one child: text replaces text except in a leaf-list entry, keys are left
      alone, a matching child is merged into, any other child is added. */
  function MergeKid(m: Model, at: seq<string>, kids: seq<Node>, c: Node): seq<Node>
    decreases c, 1
  {
    match c
    case Text(_) =>
      if !HasText(kids) then kids + [c]
      else if at != [] && IsLeafList(m, at) then kids
      else ReplaceTexts(kids, c)
    case Element(name, _, _) =>
      if IsKeyAt(m, at, name) then kids
      else
        match FirstMatch(m, c, kids, IsLeafList(m, at + [name]))
        case None => ChoiceClean(m, at, kids, name) + [c]
        case Some(i) => ChoiceClean(m, at, kids[i := MergeNode(m, at, kids[i], c)], name)
  }

  function MergeNode(m: Model, at: seq<string>, o: Node, e: Node): (r: Node)
    requires o.Element? && e.Element?
    ensures r.Element? && r.name == o.name
    decreases e, 0
  {
    o.(kids := MergeKids(m, at + [o.name], o.kids, e.kids))
  }

  /** No key of a list lies in a branch of a choice. */
  ghost predicate KeysOutsideChoices(m: Model) {
    forall at, c, k :: IsKeyAt(m, at, k) ==> !Rivals(m, at, c, k)
  }

  // ---- merging keeps keys and identities

  lemma {:induction false} CleanKeepsNamed(m: Model, at: seq<string>, kids: seq<Node>, keep: string, k: string)
    requires !Rivals(m, at, keep, k)
    ensures KidValue(m, ChoiceClean(m, at, kids, keep), k) == KidValue(m, kids, k)
  {
    if kids != [] {
      CleanKeepsNamed(m, at, kids[1..], keep, k);
      var r := ChoiceClean(m, at, kids, keep);
      var rest := ChoiceClean(m, at, kids[1..], keep);
      if kids[0].Element? && Rivals(m, at, keep, kids[0].name) {
        assert r == rest;
      } else {
        assert r == [kids[0]] + rest && r[1..] == rest;
      }
    }
  }

  lemma {:induction false} KidValueAppend(m: Model, kids: seq<Node>, more: seq<Node>, k: string)
    requires KidValue(m, kids, k).Some?
    ensures KidValue(m, kids + more, k) == KidValue(m, kids, k)
  {
    if NameOf(kids[0]) != k {
      KidValueAppend(m, kids[1..], more, k);
      assert (kids + more)[1..] == kids[1..] + more;
    }
  }

  lemma {:induction false} KidValueUpdate(m: Model, kids: seq<Node>, i: nat, n: Node, k: string)
    requires i < |kids| && NameOf(n) == NameOf(kids[i]) != k
    ensures KidValue(m, kids[i := n], k) == KidValue(m, kids, k)
  {
    if i > 0 {
      assert kids[i := n][1..] == kids[1..][i - 1 := n];
      KidValueUpdate(m, kids[1..], i - 1, n, k);
    }
  }

  lemma {:induction false} KidValueWithout(m: Model, kids: seq<Node>, i: nat, k: string)
    requires i < |kids| && NameOf(kids[i]) != k
    ensures KidValue(m, Without(kids, i), k) == KidValue(m, kids, k)
    decreases kids
  {
    if i == 0 {
      assert Without(kids, 0) == kids[1..];
    } else {
      assert Without(kids, i)[0] == kids[0] && Without(kids, i)[1..] == Without(kids[1..], i - 1);
      KidValueWithout(m, kids[1..], i - 1, k);
    }
  }

  /** Merging a child leaves every key value as it was. */
  lemma MergeKidKeepsKey(m: Model, at: seq<string>, kids: seq<Node>, c: Node, k: string)
    requires KeysOutsideChoices(m) && c.Element? && IsKeyAt(m, at, k) && KidValue(m, kids, k).Some?
    ensures KidValue(m, MergeKid(m, at, kids, c), k) == KidValue(m, kids, k)
  {
    if !IsKeyAt(m, at, c.name) {
      assert !Rivals(m, at, c.name, k);
      var i := FirstMatch(m, c, kids, IsLeafList(m, at + [c.name]));
      if i.Some? {
        var n := MergeNode(m, at, kids[i.value], c);
        KidValueUpdate(m, kids, i.value, n, k);
        CleanKeepsNamed(m, at, kids[i.value := n], c.name, k);
      } else {
        CleanKeepsNamed(m, at, kids, c.name, k);
        KidValueAppend(m, ChoiceClean(m, at, kids, c.name), [c], k);
      }
    }
  }

  lemma {:induction false} MergeKeepsKey(m: Model, at: seq<string>, kids: seq<Node>, edits: seq<Node>, k: string)
    requires KeysOutsideChoices(m) && IsKeyAt(m, at, k) && KidValue(m, kids, k).Some?
    requires forall i :: 0 <= i < |edits| ==> edits[i].Element?
    ensures KidValue(m, MergeKids(m, at, kids, edits), k) == KidValue(m, kids, k)
    decreases edits
  {
    if edits != [] {
      MergeKidKeepsKey(m, at, kids, edits[0], k);
      MergeKeepsKey(m, at, MergeKid(m, at, kids, edits[0]), edits[1..], k);
    }
  }

  /** The model is one the engine can merge by: list names are not shared, and keys lie
      outside choices. */
  ghost predicate Mergeable(m: Model) {
    WellKeyed(m) && KeysOutsideChoices(m)
  }

  lemma KeyIsKeyAt(m: Model, at: seq<string>, name: string, k: string)
    requires WellKeyed(m)
    ensures k in KeysOf(m, name) <==> IsKeyAt(m, at + [name], k)
  {
    KeyReadingsAgree(m, name, k);
    assert (at + [name])[|at + [name]| - 1] == name;
  }

  /** What merging does to the single text of a leaf or leaf-list entry. */
  lemma LeafMerge(m: Model, at: seq<string>, o: Node, e: Node)
    requires o.Element? && e.Element? && HoldsText(o) && HoldsText(e)
    ensures MergeNode(m, at, o, e).kids == if IsLeafList(m, at + [o.name]) then o.kids else e.kids
  {
    var here := at + [o.name];
    assert o.kids == [o.kids[0]] && e.kids == [e.kids[0]] && e.kids[1..] == [];
    assert o.kids[0] in o.kids && HasText(o.kids);
    var t := ReplaceTexts(o.kids, e.kids[0]);
    assert t == e.kids;
    assert MergeKids(m, here, o.kids, e.kids) == MergeKids(m, here, MergeKid(m, here, o.kids, e.kids[0]), []);
  }

  lemma FitIsElements(m: Model, at: seq<string>, kids: seq<Node>)
    requires FitKids(m, at, kids)
    ensures forall i :: 0 <= i < |kids| ==> kids[i].Element?
  {
    forall i | 0 <= i < |kids|
      ensures kids[i].Element?
    {
      assert FitNode(m, at, kids[i]);
    }
  }

  /** In a fit document only leaves and leaf-list entries hold text. */
  lemma TextIsLeaf(m: Model, at: seq<string>, n: Node)
    requires FitNode(m, at, n)
    ensures HoldsText(n) <==> !FitKids(m, at + [n.name], n.kids)
    ensures HoldsText(n) && !IsLeafList(m, at + [n.name]) ==> KeysOf(m, n.name) == []
    ensures HoldsText(n) <==> TextFirst(n)
    ensures IsLeafList(m, at + [n.name]) ==> HoldsText(n)
  {
    if n.kids != [] {
      assert n.kids[0].Text? ==> !FitNode(m, at + [n.name], n.kids[0]);
    }
  }

  /** Two siblings that are the same instance are of one kind: both hold a text, or both
      have fit child lists. */
  lemma SameShape(m: Model, at: seq<string>, o: Node, e: Node)
    requires FitNode(m, at, o) && FitNode(m, at, e) && o.name == e.name
    ensures (HoldsText(o) && HoldsText(e)) ||
      (FitKids(m, at + [o.name], o.kids) && FitKids(m, at + [o.name], e.kids))
  {
  }

  /** Merging into a child does not change which instance it is. */
  lemma MergeKeepsId(m: Model, at: seq<string>, o: Node, e: Node)
    requires Mergeable(m) && FitNode(m, at, o) && FitNode(m, at, e) && o.name == e.name
    ensures Addressed(m, at, MergeNode(m, at, o, e))
    ensures IdOf(m, at, MergeNode(m, at, o, e)) == IdOf(m, at, o)
  {
    var r := MergeNode(m, at, o, e);
    if HoldsText(o) && HoldsText(e) {
      LeafMerge(m, at, o, e);
      TextIsLeaf(m, at, o);
    } else {
      SameShape(m, at, o, e);
      FitIsElements(m, at + [o.name], e.kids);
      forall k | k in KeysOf(m, o.name)
        ensures FirstNamed(r.kids, k).Some? && KidValue(m, r.kids, k) == KidValue(m, o.kids, k)
      {
        KeyIsKeyAt(m, at, o.name, k);
        MergeKeepsKey(m, at + [o.name], o.kids, e.kids, k);
      }
      SameKeyValues(m, r.kids, o.kids, KeysOf(m, o.name));
    }
  }

  lemma SameKeyValues(m: Model, a: seq<Node>, b: seq<Node>, names: seq<string>)
    requires forall k :: k in names ==> KidValue(m, a, k) == KidValue(m, b, k)
    ensures KeyValues(m, a, names) == KeyValues(m, b, names)
  {
    forall i | 0 <= i < |names|
      ensures KeyValues(m, a, names)[i] == KeyValues(m, b, names)[i]
    {
      assert names[i] in names;
    }
  }

  // ---- merging keeps documents fit

  /** First match and search by identity are the same search. */
  lemma MatchIsSeek(m: Model, at: seq<string>, kids: seq<Node>, c: Node)
    requires FitKids(m, at, kids) && Addressed(m, at, c)
    ensures FirstMatch(m, c, kids, IsLeafList(m, at + [c.name])) == SeekId(m, at, kids, IdOf(m, at, c))
  {
    hide IdOf, Matches, IsLeafList;
    var i := FirstMatch(m, c, kids, IsLeafList(m, at + [c.name]));
    var j := SeekId(m, at, kids, IdOf(m, at, c));
    if j.Some? {
      assert FitNode(m, at, kids[j.value]);
      MatchIsSameId(m, at, c, kids[j.value]);
    }
    if i.Some? {
      assert FitNode(m, at, kids[i.value]);
      MatchIsSameId(m, at, c, kids[i.value]);
    }
  }

  lemma AppendFits(m: Model, at: seq<string>, kids: seq<Node>, c: Node)
    requires FitKids(m, at, kids) && FitNode(m, at, c) && SeekId(m, at, kids, IdOf(m, at, c)).None?
    ensures FitKids(m, at, kids + [c])
  {
    var r := kids + [c];
    forall i | 0 <= i < |r|
      ensures FitNode(m, at, r[i])
    {
      assert r[i] == if i < |kids| then kids[i] else c;
    }
  }

  lemma UpdateFits(m: Model, at: seq<string>, kids: seq<Node>, i: nat, n: Node)
    requires FitKids(m, at, kids) && i < |kids| && FitNode(m, at, n)
    requires kids[i].Element? && IdOf(m, at, n) == IdOf(m, at, kids[i])
    ensures FitKids(m, at, kids[i := n])
  {
    var r := kids[i := n];
    forall j | 0 <= j < |r|
      ensures FitNode(m, at, r[j]) && IdOf(m, at, r[j]) == IdOf(m, at, kids[j])
    {
      assert FitNode(m, at, kids[j]);
    }
  }

  lemma TailFits(m: Model, at: seq<string>, kids: seq<Node>)
    requires FitKids(m, at, kids) && kids != []
    ensures FitNode(m, at, kids[0]) && FitKids(m, at, kids[1..])
    ensures SeekId(m, at, kids[1..], IdOf(m, at, kids[0])).None?
  {
    forall i | 0 <= i < |kids[1..]|
      ensures FitNode(m, at, kids[1..][i]) && kids[1..][i] == kids[i + 1]
    {
      assert FitNode(m, at, kids[i + 1]);
    }
    forall i | 0 <= i < |kids[1..]|
      ensures IdOf(m, at, kids[1..][i]) != IdOf(m, at, kids[0])
    {
      assert kids[1..][i] == kids[i + 1];
    }
  }

  /** Putting a child in front. */
  lemma PrependFits(m: Model, at: seq<string>, n: Node, kids: seq<Node>)
    requires FitNode(m, at, n) && FitKids(m, at, kids) && SeekId(m, at, kids, IdOf(m, at, n)).None?
    ensures FitKids(m, at, [n] + kids)
  {
    var r := [n] + kids;
    forall i | 0 <= i < |r|
      ensures FitNode(m, at, r[i])
    {
      assert r[i] == if i == 0 then n else kids[i - 1];
    }
  }

  lemma {:induction false} CleanFits(m: Model, at: seq<string>, kids: seq<Node>, keep: string)
    requires FitKids(m, at, kids)
    ensures FitKids(m, at, ChoiceClean(m, at, kids, keep))
    ensures forall id :: SeekId(m, at, kids, id).None? ==> SeekId(m, at, ChoiceClean(m, at, kids, keep), id).None?
  {
    if kids != [] {
      TailFits(m, at, kids);
      CleanFits(m, at, kids[1..], keep);
      var rest := ChoiceClean(m, at, kids[1..], keep);
      if !Rivals(m, at, keep, kids[0].name) {
        assert ([kids[0]] + rest)[1..] == rest;
        PrependFits(m, at, kids[0], rest);
      } else {
        assert [] + rest == rest;
      }
    }
  }

  lemma {:induction false} MergeKidsFit(m: Model, at: seq<string>, kids: seq<Node>, edits: seq<Node>)
    requires Mergeable(m) && FitKids(m, at, kids) && FitKids(m, at, edits)
    ensures FitKids(m, at, MergeKids(m, at, kids, edits))
    decreases edits, 2
  {
    if edits != [] {
      TailFits(m, at, edits);
      MergeKidFits(m, at, kids, edits[0]);
      MergeKidsFit(m, at, MergeKid(m, at, kids, edits[0]), edits[1..]);
    }
  }

  lemma {:induction false} MergeKidFits(m: Model, at: seq<string>, kids: seq<Node>, c: Node)
    requires Mergeable(m) && FitKids(m, at, kids) && FitNode(m, at, c)
    ensures FitKids(m, at, MergeKid(m, at, kids, c))
    decreases c, 1
  {
    MatchIsSeek(m, at, kids, c);
    var i := FirstMatch(m, c, kids, IsLeafList(m, at + [c.name]));
    if !IsKeyAt(m, at, c.name) {
      if i.Some? {
        var o := kids[i.value];
        assert FitNode(m, at, o);
        var n := MergeNode(m, at, o, c);
        MergeNodeFits(m, at, o, c);
        MergeKeepsId(m, at, o, c);
        UpdateFits(m, at, kids, i.value, n);
        CleanFits(m, at, kids[i.value := n], c.name);
      } else {
        CleanFits(m, at, kids, c.name);
        AppendFits(m, at, ChoiceClean(m, at, kids, c.name), c);
      }
    }
  }

  lemma {:induction false} MergeNodeFits(m: Model, at: seq<string>, o: Node, e: Node)
    requires Mergeable(m) && FitNode(m, at, o) && FitNode(m, at, e) && o.name == e.name
    ensures FitNode(m, at, MergeNode(m, at, o, e))
    decreases e, 0
  {
    MergeKeepsId(m, at, o, e);
    TextIsLeaf(m, at, o);
    TextIsLeaf(m, at, e);
    if HoldsText(o) && HoldsText(e) {
      LeafMerge(m, at, o, e);
    } else {
      SameShape(m, at, o, e);
      MergeKidsFit(m, at + [o.name], o.kids, e.kids);
    }
  }
}
