/** Merging an edit into the configuration in place, node by node, as the engine does:
    the configuration is updated below a cursor, and edit nodes that had to be created
    are taken out of the edit document on the way. */
module EditMerge {
  import opened Xml
  import opened Schema
  import opened Matching
  import opened Instances
  import opened Equivalents
  import opened Merge
  import opened Tracking
  import opened Creation
  import opened Operation
  import opened Choices
  import opened MergeMeaning
  import opened ChoiceMeaning
  import opened RootTexts

  /** No element carries an operation. */
  predicate OpFree(kids: seq<Node>) {
    forall i :: 0 <= i < |kids| ==> kids[i].Text? || (OPERATION !in kids[i].attrs && OpFree(kids[i].kids))
  }

  /** No entry of a user-ordered list among kids, or below, says where it goes. */
  predicate NoPlaces(m: Model, at: seq<string>, kids: seq<Node>)
    decreases kids
  {
    forall i :: 0 <= i < |kids| ==> NodePlaceFree(m, at, kids[i])
  }

  predicate NodePlaceFree(m: Model, at: seq<string>, n: Node)
    decreases n
  {
    AsksNoPlace(m, at + [NameOf(n)], n) &&
    match n
    case Text(_) => true
    case Element(name, _, kids) => NoPlaces(m, at + [name], kids)
  }

  /** No entry of a user-ordered list that is looked at when c is merged into kids says where
      it goes. A new child of a root is not looked at, nor what is below a new node. */
  predicate PlaceFree(m: Model, at: seq<string>, kids: seq<Node>, c: Node)
    decreases c
  {
    c.Element? ==>
      var here := at + [c.name];
      match FirstMatch(m, c, kids, IsLeafList(m, here))
      case None => |at| == 1 || AsksNoPlace(m, here, c)
      case Some(i) =>
        AsksNoPlace(m, here, c) &&
        forall j :: 0 <= j < |c.kids| ==> PlaceFree(m, here, KidsOf(kids[i]), c.kids[j])
  }

  /** Where nothing says where it goes, nothing that is looked at does. */
  lemma {:induction false} FreeEverywhere(m: Model, at: seq<string>, kids: seq<Node>, c: Node)
    requires NodePlaceFree(m, at, c)
    ensures PlaceFree(m, at, kids, c)
    decreases c
  {
    hide AsksNoPlace, FirstMatch, IsLeafList;
    if c.Element? {
      var i := FirstMatch(m, c, kids, IsLeafList(m, at + [c.name]));
      if i.Some? {
        forall j | 0 <= j < |c.kids|
          ensures PlaceFree(m, at + [c.name], KidsOf(kids[i.value]), c.kids[j])
        {
          assert NodePlaceFree(m, at + [c.name], c.kids[j]);
          FreeEverywhere(m, at + [c.name], KidsOf(kids[i.value]), c.kids[j]);
        }
      }
    }
  }

  /** Both cursors stand on elements, the second on the edit of the first. */
  ghost predicate Ready(m: Model, f: seq<Node>, p: Path, e: seq<Node>, q: Path) {
    p != [] && Tracks(m, [], f, p, e, q) && FitKids(m, [], f)
  }

  lemma {:induction false} ChainNames(m: Model, at: seq<string>, f: seq<Node>, p: Path, e: seq<Node>, q: Path)
    requires Tracks(m, at, f, p, e, q)
    ensures IsList(f, p) && (q == [] || IsNode(e, q))
    ensures Names(Chain(e, q)) == NamesAt(f, p)
    decreases p
  {
    TracksPaths(m, at, f, p, e, q);
    if q != [] {
      NodeOwnsList(e, q);
      ChainNames(m, at + [f[p[0]].name], f[p[0]].kids, p[1..], e[q[0]].kids, q[1..]);
      assert e[q[0]].name == f[p[0]].name;
      if |q| == 1 {
        assert q[1..] == [] && Chain(e, q) == [e[q[0]]];
      }
    }
  }

  /** What Ready says at the level of the cursors. */
  lemma ReadyHere(m: Model, f: seq<Node>, p: Path, e: seq<Node>, q: Path)
    requires Ready(m, f, p, e, q)
    ensures IsNode(f, p) && IsNode(e, q) && NodeAt(f, p).Element? && NodeAt(e, q).Element?
    ensures IsList(f, p) && IsList(e, q) && IsList(f, Parent(p))
    ensures KidsAt(f, p) == NodeAt(f, p).kids && KidsAt(e, q) == NodeAt(e, q).kids
    ensures FitNode(m, NamesAt(f, Parent(p)), NodeAt(f, p))
    ensures SameInstance(m, NamesAt(f, Parent(p)), NodeAt(f, p), NodeAt(e, q))
    ensures NamesAt(f, p) == NamesAt(f, Parent(p)) + [NodeAt(f, p).name]
  {
    TracksNodes(m, [], f, p, e, q);
    TracksAt(m, [], f, p, e, q);
    assert [] + NamesAt(f, Parent(p)) == NamesAt(f, Parent(p));
    NamesAtSnoc(f, p);
  }

  lemma {:induction false} NamesAtSnoc(f: seq<Node>, p: Path)
    requires p != [] && IsList(f, p)
    ensures IsNode(f, p) && NodeAt(f, p).Element? && IsList(f, Parent(p))
    ensures NamesAt(f, p) == NamesAt(f, Parent(p)) + [NodeAt(f, p).name]
    decreases p
  {
    NodeOwnsList(f, p);
    NodeInParent(f, p);
    if |p| > 1 {
      NamesAbove([], f, p);
      NamesAtSnoc(f[p[0]].kids, p[1..]);
    } else {
      assert p[1..] == [] && Parent(p) == [];
    }
  }

  /** Below a configuration node, an edit that keeps the node the same fit instance keeps
      the cursors ready. */
  lemma ReadySetOrig(m: Model, f: seq<Node>, p: Path, e: seq<Node>, q: Path, ks: seq<Node>)
    requires WellKeyed(m) && Ready(m, f, p, e, q)
    requires IsNode(f, p) && NodeAt(f, p).Element? && IsList(f, p) && IsList(f, Parent(p))
    requires SameInstance(m, NamesAt(f, Parent(p)), NodeAt(f, p), NodeAt(f, p).(kids := ks))
    requires FitNode(m, NamesAt(f, Parent(p)), NodeAt(f, p).(kids := ks))
    ensures Ready(m, SetKids(f, p, ks), p, e, q)
    ensures IsList(SetKids(f, p, ks), p) && NamesAt(SetKids(f, p, ks), p) == NamesAt(f, p)
  {
    assert [] + NamesAt(f, Parent(p)) == NamesAt(f, Parent(p));
    AtOwnLevel(m, [], f, p, ks);
    TracksSetOrig(m, [], f, p, e, q, ks);
    FitsSet(m, [], f, p, e, q, ks);
    TracksPaths(m, [], f, p, e, q);
    TracksPaths(m, [], SetKids(f, p, ks), p, e, q);
  }

  lemma ReadySetEdit(m: Model, f: seq<Node>, p: Path, e: seq<Node>, q: Path, ls: seq<Node>)
    requires WellKeyed(m) && Ready(m, f, p, e, q)
    requires IsNode(e, q) && NodeAt(e, q).Element? && IsList(e, q) && IsList(f, Parent(p))
    requires SameInstance(m, NamesAt(f, Parent(p)), NodeAt(e, q), NodeAt(e, q).(kids := ls))
    ensures Ready(m, f, p, SetKids(e, q, ls), q)
    ensures IsList(SetKids(e, q, ls), q)
  {
    NodeInParent(e, q);
    SameNamesAbove(m, [], f, p, e, q);
    assert [] + NamesAt(e, Parent(q)) == NamesAt(e, Parent(q));
    AtOwnLevel(m, [], e, q, ls);
    TracksSetEdit(m, [], f, p, e, q, ls);
    TracksPaths(m, [], f, p, SetKids(e, q, ls), q);
  }

  lemma {:induction false} SameNamesAbove(m: Model, at: seq<string>, f: seq<Node>, p: Path, e: seq<Node>, q: Path)
    requires Tracks(m, at, f, p, e, q) && p != []
    ensures IsList(f, Parent(p)) && IsList(e, Parent(q)) && NamesAt(f, Parent(p)) == NamesAt(e, Parent(q))
    decreases p
  {
    TracksNodes(m, at, f, p, e, q);
    NodeInParent(e, q);
    if |p| > 1 {
      NamesAbove([], f, p);
      NamesAbove([], e, q);
      SameNamesAbove(m, at + [f[p[0]].name], f[p[0]].kids, p[1..], e[q[0]].kids, q[1..]);
    }
  }

  /** Merging a child keeps the cursors ready. */
  lemma ReadyMergeKid(m: Model, f: seq<Node>, p: Path, e: seq<Node>, q: Path, c: Node)
    requires Mergeable(m) && Ready(m, f, p, e, q) && IsList(f, p) && FitNode(m, NamesAt(f, p), c)
    requires FitKids(m, NamesAt(f, p), KidsAt(f, p))
    ensures var r := SetKids(f, p, MergeKid(m, NamesAt(f, p), KidsAt(f, p), c));
      Ready(m, r, p, e, q) && IsList(r, p) && NamesAt(r, p) == NamesAt(f, p)
  {
    hide MergeKid, Tracks;
    ReadyHere(m, f, p, e, q);
    var above, n, at := NamesAt(f, Parent(p)), NodeAt(f, p), NamesAt(f, p);
    var ks := MergeKid(m, at, n.kids, c);
    MergeKidFits(m, at, n.kids, c);
    TextIsLeaf(m, above, n);
    forall k | k in KeysOf(m, n.name)
      ensures KidValue(m, ks, k) == KidValue(m, n.kids, k) && FirstNamed(ks, k).Some?
    {
      KeyIsKeyAt(m, above, n.name, k);
      MergeKidKeepsKey(m, at, n.kids, c, k);
    }
    SameKeyValues(m, ks, n.kids, KeysOf(m, n.name));
    ReadySetOrig(m, f, p, e, q, ks);
  }

  /** Taking a child that is not a key out of the edit keeps the cursors ready. */
  lemma ReadyTakeOut(m: Model, f: seq<Node>, p: Path, e: seq<Node>, q: Path, c: nat)
    requires WellKeyed(m) && Ready(m, f, p, e, q) && IsList(f, p) && IsList(e, q)
    requires FitKids(m, NamesAt(f, p), KidsAt(f, p))
    requires c < |KidsAt(e, q)| && !IsKeyAt(m, NamesAt(f, p), NameOf(KidsAt(e, q)[c]))
    ensures var r := SetKids(e, q, Without(KidsAt(e, q), c));
      Ready(m, f, p, r, q) && IsList(r, q)
  {
    ReadyHere(m, f, p, e, q);
    var above, n := NamesAt(f, Parent(p)), NodeAt(e, q);
    var ls := Without(n.kids, c);
    TextIsLeaf(m, above, NodeAt(f, p));
    forall k | k in KeysOf(m, n.name)
      ensures KidValue(m, ls, k) == KidValue(m, n.kids, k) && FirstNamed(ls, k).Some?
    {
      KeyIsKeyAt(m, above, n.name, k);
      KidValueWithout(m, n.kids, c, k);
    }
    SameKeyValues(m, ls, n.kids, KeysOf(m, n.name));
    ReadySetEdit(m, f, p, e, q, ls);
  }

  /** Changing a child of the edit that is not a key, but not its name, keeps the cursors
      ready. */
  lemma ReadyChange(m: Model, f: seq<Node>, p: Path, e: seq<Node>, q: Path, c: nat, d: Node)
    requires WellKeyed(m) && Ready(m, f, p, e, q) && IsList(f, p) && IsList(e, q)
    requires c < |KidsAt(e, q)| && KidsAt(e, q)[c].Element? && d.Element? && d.name == KidsAt(e, q)[c].name
    requires !IsKeyAt(m, NamesAt(f, p), d.name)
    ensures var r := SetKids(e, q, KidsAt(e, q)[c := d]);
      Ready(m, f, p, r, q) && IsList(r, q)
  {
    ReadyHere(m, f, p, e, q);
    ParentSame(m, NamesAt(f, Parent(p)), NodeAt(e, q), c, d);
    ReadySetEdit(m, f, p, e, q, KidsAt(e, q)[c := d]);
  }

  lemma {:induction false} TracksSnoc(m: Model, at: seq<string>, f: seq<Node>, p: Path, e: seq<Node>, q: Path,
      i: nat, c: nat)
    requires Tracks(m, at, f, p, e, q) && IsList(f, p) && IsList(e, q)
    requires i < |KidsAt(f, p)| && c < |KidsAt(e, q)|
    requires SameInstance(m, at + NamesAt(f, p), KidsAt(f, p)[i], KidsAt(e, q)[c])
    requires !IsKeyAt(m, at + NamesAt(f, p), KidsAt(f, p)[i].name)
    ensures Tracks(m, at, f, p + [i], e, q + [c])
    decreases p
  {
    hide IdOf, Addressed;
    if p == [] {
      assert at + NamesAt(f, []) == at && [] + [i] == [i] && [] + [c] == [c];
      assert [i][1..] == [] && [c][1..] == [];
    } else {
      var here := at + [f[p[0]].name];
      assert (p + [i])[1..] == p[1..] + [i] && (q + [c])[1..] == q[1..] + [c];
      assert here + NamesAt(f[p[0]].kids, p[1..]) == at + NamesAt(f, p);
      TracksSnoc(m, here, f[p[0]].kids, p[1..], e[q[0]].kids, q[1..], i, c);
    }
  }

  /** Both cursors step down to a pair of children that are the same instance. */
  lemma {:induction false} ReadyDown(m: Model, f: seq<Node>, p: Path, e: seq<Node>, q: Path, i: nat, c: nat)
    requires Tracks(m, [], f, p, e, q) && FitKids(m, [], f) && IsList(f, p) && IsList(e, q)
    requires i < |KidsAt(f, p)| && c < |KidsAt(e, q)|
    requires SameInstance(m, NamesAt(f, p), KidsAt(f, p)[i], KidsAt(e, q)[c])
    requires !IsKeyAt(m, NamesAt(f, p), KidsAt(f, p)[i].name)
    ensures Ready(m, f, p + [i], e, q + [c])
    ensures IsList(f, p + [i]) && IsList(e, q + [c])
    ensures KidsAt(f, p + [i]) == KidsAt(f, p)[i].kids && KidsAt(e, q + [c]) == KidsAt(e, q)[c].kids
    ensures NamesAt(f, p + [i]) == NamesAt(f, p) + [KidsAt(f, p)[i].name]
  {
    hide Tracks, FitKids, IsKeyAt, IdOf, Addressed, KidsAt, IsList, NamesAt;
    AddressedIsElement(m, NamesAt(f, p), KidsAt(f, p)[i]);
    AddressedIsElement(m, NamesAt(f, p), KidsAt(e, q)[c]);
    assert [] + NamesAt(f, p) == NamesAt(f, p);
    TracksSnoc(m, [], f, p, e, q, i, c);
    ListSnoc(e, q, c);
    NamesDown(f, p, i);
  }

  /** One step down by position. */
  lemma NamesDown(f: seq<Node>, p: Path, i: nat)
    requires IsList(f, p) && i < |KidsAt(f, p)| && KidsAt(f, p)[i].Element?
    ensures IsList(f, p + [i]) && KidsAt(f, p + [i]) == KidsAt(f, p)[i].kids
    ensures NamesAt(f, p + [i]) == NamesAt(f, p) + [KidsAt(f, p)[i].name]
  {
    hide KidsAt, IsList, NamesAt, NodeAt, IsNode;
    ListSnoc(f, p, i);
    NodeSnoc(f, p, i);
    NamesAtSnoc(f, p + [i]);
    assert Parent(p + [i]) == p;
  }

  function TextMerged(m: Model, at: seq<string>, kids: seq<Node>, text: Node): seq<Node>
    requires at != []
  {
    if IsLeafList(m, at) then kids else ReplaceTexts(kids, text)
  }

  /** Puts a copy of the edit's text in place of every text among the children. */
  method ReplaceEachText(kids: seq<Node>, text: Node) returns (r: seq<Node>)
    requires text.Text?
    ensures r == ReplaceTexts(kids, text)
  {
    r := kids;
    var i := 0;
    while i < |r|
      invariant |r| == |kids| && 0 <= i <= |kids|
      invariant forall j :: 0 <= j < |r| ==> r[j] == if j < i && kids[j].Text? then text else kids[j]
    {
      if r[i].Text? {
        r := r[i := text];
      }
      i := i + 1;
    }
  }

  /** A sibling that counts as the same leaf-list entry: same name, same text. */
  predicate SameEntry(m: Model, s: Node, entry: Node) {
    s.Element? && entry.Element? && s.name == entry.name &&
    (TextFirst(s) && TextFirst(entry) ==> m.norm(s.kids[0].content) == m.norm(entry.kids[0].content))
  }

  predicate Known(m: Model, kids: seq<Node>, entry: Node) {
    exists i :: 0 <= i < |kids| && SameEntry(m, kids[i], entry)
  }

  /** The document after the text of an edit entry is merged into the node at p: a leaf's
      text is replaced; an entry of a leaf-list is never modified, but added after the node
      at p if no sibling is the same. */
  function TextMerge(m: Model, f: seq<Node>, p: Path, at: seq<string>, entry: Node): seq<Node>
    requires p != [] && IsList(f, p) && IsList(f, Parent(p)) && Last(p) < |KidsAt(f, Parent(p))| && at != []
    requires entry.Element? && HoldsText(entry)
  {
    if !IsLeafList(m, at) then SetKids(f, p, ReplaceTexts(KidsAt(f, p), entry.kids[0]))
    else if Known(m, KidsAt(f, Parent(p)), entry) then f
    else SetKids(f, Parent(p), InsertAt(KidsAt(f, Parent(p)), Last(p) + 1, entry))
  }

  /** An entry that no sibling equals stands behind the node it was matched with, and the
      siblings stay as they were. */
  lemma EntryGoesBehind(m: Model, f: seq<Node>, p: Path, at: seq<string>, entry: Node)
    requires p != [] && IsList(f, p) && IsList(f, Parent(p)) && Last(p) < |KidsAt(f, Parent(p))| && at != []
    requires entry.Element? && HoldsText(entry) && IsLeafList(m, at) && !Known(m, KidsAt(f, Parent(p)), entry)
    ensures var g := TextMerge(m, f, p, at, entry);
      IsList(g, Parent(p)) &&
      var before, after := KidsAt(f, Parent(p)), KidsAt(g, Parent(p));
      |after| == |before| + 1 && after[Last(p)] == before[Last(p)] && after[Last(p) + 1] == entry &&
      Without(after, Last(p) + 1) == before
  {
    hide Known, IsLeafList, KidsAt, IsList, SetKids;
    var before := KidsAt(f, Parent(p));
    SetThenGet(f, Parent(p), InsertAt(before, Last(p) + 1, entry));
  }

  method SeekEntry(m: Model, kids: seq<Node>, entry: Node) returns (known: bool)
    ensures known == Known(m, kids, entry)
  {
    var i := 0;
    while i < |kids|
      invariant 0 <= i <= |kids|
      invariant forall j :: 0 <= j < i ==> !SameEntry(m, kids[j], entry)
    {
      if SameEntry(m, kids[i], entry) {
        return true;
      }
      i := i + 1;
    }
    return false;
  }

  /** Merges the text of an edit entry into the node at p. */
  method MergeText(m: Model, orig: Document, p: Path, at: seq<string>, entry: Node)
    requires p != [] && IsList(orig.roots, p) && IsList(orig.roots, Parent(p))
    requires Last(p) < |KidsAt(orig.roots, Parent(p))| && at != [] && entry.Element? && HoldsText(entry)
    modifies orig
    ensures orig.roots == TextMerge(m, old(orig.roots), p, at, entry)
  {
    hide SetKids, KidsAt, IsList;
    if IsLeafList(m, at) {
      var known := SeekEntry(m, KidsAt(orig.roots, Parent(p)), entry);
      if !known {
        orig.InsertKid(Parent(p), Last(p) + 1, entry);
      }
    } else {
      var kids := ReplaceEachText(KidsAt(orig.roots, p), entry.kids[0]);
      orig.Relink(p, kids);
    }
  }

  /** Where the node at p matches a leaf-list entry, the entry is known: it matches itself. */
  lemma MatchedIsKnown(m: Model, f: seq<Node>, p: Path, at: seq<string>, entry: Node)
    requires p != [] && IsList(f, p) && IsList(f, Parent(p)) && Last(p) < |KidsAt(f, Parent(p))| && at != []
    requires entry.Element? && HoldsText(entry)
    requires var n := KidsAt(f, Parent(p))[Last(p)];
      n.Element? && n.name == entry.name &&
      (IsLeafList(m, at) ==> TextFirst(n) && m.norm(n.kids[0].content) == m.norm(entry.kids[0].content))
    ensures TextMerge(m, f, p, at, entry) == SetKids(f, p, TextMerged(m, at, KidsAt(f, p), entry.kids[0]))
  {
    hide SetKids, ReplaceTexts;
    SetGet(f, p);
    if IsLeafList(m, at) {
      assert SameEntry(m, KidsAt(f, Parent(p))[Last(p)], entry);
    }
  }

  /** The edit document changed in one child list only. */
  ghost predicate OnlyBelow(e0: seq<Node>, q: Path, e1: seq<Node>) {
    IsList(e0, q) && IsList(e1, q) && e1 == SetKids(e0, q, KidsAt(e1, q))
  }

  lemma OnlyBelowTrans(e0: seq<Node>, q: Path, e1: seq<Node>, e2: seq<Node>)
    requires OnlyBelow(e0, q, e1) && OnlyBelow(e1, q, e2)
    ensures OnlyBelow(e0, q, e2)
  {
    SetThenSet(e0, q, KidsAt(e1, q), KidsAt(e2, q));
  }

  /** What a child of the edit must be for merging it into the children at p. */
  ghost predicate Mergible(m: Model, at: seq<string>, kids: seq<Node>, c: Node) {
    c.Element? && FitNode(m, at, c) && OpFree([c]) && OneBranch(m, at + [c.name], c.kids) && PlaceFree(m, at, kids, c)
  }

  ghost predicate AllMergible(m: Model, at: seq<string>, kids: seq<Node>, edits: seq<Node>) {
    FitKids(m, at, edits) && forall j :: 0 <= j < |edits| ==> Mergible(m, at, kids, edits[j])
  }

  /** Merging one child leaves the counterpart of any other as it was, or takes it out. */
  lemma OtherStays(m: Model, at: seq<string>, kids: seq<Node>, a: Node, b: Node)
    requires Mergeable(m) && FitKids(m, at, kids) && FitNode(m, at, a) && FitNode(m, at, b)
    requires a.Element? && b.Element? && IdOf(m, at, a) != IdOf(m, at, b)
    ensures var leaf := IsLeafList(m, at + [b.name]); var r := MergeKid(m, at, kids, a);
      var i := FirstMatch(m, b, r, leaf);
      i.Some? ==>
        var j := FirstMatch(m, b, kids, leaf);
        j.Some? && r[i.value] == kids[j.value]
  {
    hide FitKids, FitNode, IdOf, Rivals, MergeNode, Matches, IsKeyAt, ChoiceClean, IsLeafList;
    var r := MergeKid(m, at, kids, a);
    FitNodeAddressed(m, at, b);
    MergeKidFits(m, at, kids, a);
    MatchIsSeek(m, at, kids, b);
    MatchIsSeek(m, at, r, b);
    var i := SeekId(m, at, r, IdOf(m, at, b));
    if i.Some? {
      MergedMember(m, at, kids, a, r[i.value]);
      var j :| 0 <= j < |kids| && kids[j] == r[i.value];
      SeekFinds(m, at, kids, j);
    }
  }

  lemma MergedMember(m: Model, at: seq<string>, kids: seq<Node>, a: Node, n: Node)
    requires Mergeable(m) && FitKids(m, at, kids) && FitNode(m, at, a) && a.Element?
    requires n in MergeKid(m, at, kids, a) && n.Element? && IdOf(m, at, n) != IdOf(m, at, a)
    ensures n in kids
  {
    hide FitKids, FitNode, IdOf, Rivals, MergeNode, Matches, IsKeyAt, IsLeafList, ChoiceClean;
    FitNodeAddressed(m, at, a);
    MatchIsSeek(m, at, kids, a);
    var i := SeekId(m, at, kids, IdOf(m, at, a));
    if i.Some? {
      FitMember(m, at, kids, i.value);
      SameNameOfId(m, at, kids[i.value], a);
      MergeKeepsId(m, at, kids[i.value], a);
    }
  }

  lemma PlaceFreeStays(m: Model, at: seq<string>, kids: seq<Node>, a: Node, b: Node)
    requires Mergeable(m) && FitKids(m, at, kids) && FitNode(m, at, a) && FitNode(m, at, b) && PlaceFree(m, at, kids, b)
    requires a.Element? && b.Element? && IdOf(m, at, a) != IdOf(m, at, b)
    ensures PlaceFree(m, at, MergeKid(m, at, kids, a), b)
  {
    hide FitKids, FitNode, IdOf, MergeKid, OneBranch, FirstMatch, AsksNoPlace, IsLeafList;
    OtherStays(m, at, kids, a, b);
  }

  lemma MergibleStays(m: Model, at: seq<string>, kids: seq<Node>, a: Node, b: Node)
    requires Mergeable(m) && FitKids(m, at, kids) && FitNode(m, at, a) && Mergible(m, at, kids, b)
    requires a.Element? && b.Element? && IdOf(m, at, a) != IdOf(m, at, b)
    ensures Mergible(m, at, MergeKid(m, at, kids, a), b)
  {
    hide FitKids, FitNode, IdOf, MergeKid, OneBranch, PlaceFree;
    PlaceFreeStays(m, at, kids, a, b);
  }

  /** What the node at p must be for merging children into it. */
  ghost predicate Host(m: Model, f: seq<Node>, p: Path) {
    IsList(f, p) && FitKids(m, NamesAt(f, p), KidsAt(f, p)) && OneBranch(m, NamesAt(f, p), KidsAt(f, p))
  }

  /** Creating a child of the tracked node is adding it to the children at the cursor. */
  lemma CreateHere(m: Model, f: seq<Node>, p: Path, e: seq<Node>, q: Path, c: Node)
    requires Tracks(m, [], f, p, e, q) && FitKids(m, [], f) && IsList(f, p)
    requires c.Element? && OpFree([c]) && !IsKeyAt(m, NamesAt(f, p), c.name)
    requires FirstMatch(m, c, KidsAt(f, p), IsLeafList(m, NamesAt(f, p) + [c.name])).None?
    ensures (q == [] || IsNode(e, q)) && AllElements(Chain(e, q))
    ensures CreateNode(m, f, Chain(e, q), c) == SetKids(f, p, MergeKid(m, NamesAt(f, p), KidsAt(f, p), c))
  {
    TracksPaths(m, [], f, p, e, q);
    TracksFound(m, [], f, p, e, q);
    ChainNames(m, [], f, p, e, q);
    ElementChain(e, q);
    assert [c][0] == c;
    assert c.attrs - {OPERATION} == c.attrs;
  }

  lemma {:induction false} ElementChain(e: seq<Node>, q: Path)
    requires IsList(e, q)
    ensures (q == [] || IsNode(e, q)) && AllElements(Chain(e, q))
    decreases q
  {
    if q != [] {
      NodeOwnsList(e, q);
      ElementChain(e[q[0]].kids, q[1..]);
    }
  }

  /** Merging a matching child and then cleaning up its choice is one step of merging. */
  lemma MergeHere(m: Model, f: seq<Node>, p: Path, i: nat, c: Node, merged: seq<Node>)
    requires IsList(f, p) && i < |KidsAt(f, p)| && c.Element? && !IsKeyAt(m, NamesAt(f, p), c.name)
    requires FirstMatch(m, c, KidsAt(f, p), IsLeafList(m, NamesAt(f, p) + [c.name])) == Some(i)
    requires KidsAt(f, p)[i].Element?
    requires merged == MergeKids(m, NamesAt(f, p) + [c.name], KidsAt(f, p)[i].kids, c.kids)
    ensures IsList(f, p + [i])
    ensures var g := SetKids(f, p + [i], merged);
      IsList(g, p) &&
      SetKids(g, p, ChoiceClean(m, NamesAt(f, p), KidsAt(g, p), c.name)) ==
        SetKids(f, p, MergeKid(m, NamesAt(f, p), KidsAt(f, p), c))
  {
    var kids := KidsAt(f, p);
    var n := MergeNode(m, NamesAt(f, p), kids[i], c);
    SetSnoc(f, p, i, merged);
    SetThenGet(f, p, kids[i := n]);
    SetThenSet(f, p, kids[i := n], ChoiceClean(m, NamesAt(f, p), kids[i := n], c.name));
  }

  /** The sizes that make merging terminate. */
  lemma KidSmaller(kids: seq<Node>, c: nat)
    requires c < |kids|
    ensures NodeSize(kids[c]) <= Size(kids)
    ensures kids[c].Element? ==> Size(kids[c].kids) < NodeSize(kids[c])
  {
    SizeUpdate(kids, c, kids[c]);
  }

  /** The edit node at q can be merged into the configuration node at p. */
  ghost predicate Into(m: Model, f: seq<Node>, p: Path, e: seq<Node>, q: Path) {
    p != [] && IsList(f, p) && IsList(f, Parent(p)) && IsList(e, q) && IsNode(e, q) &&
    FitNode(m, NamesAt(f, Parent(p)), NodeAt(e, q)) && OpFree(KidsAt(e, q)) &&
    (forall j :: 0 <= j < |KidsAt(e, q)| ==> PlaceFree(m, NamesAt(f, p), KidsAt(f, p), KidsAt(e, q)[j])) &&
    OneBranch(m, NamesAt(f, p), KidsAt(e, q)) && OneBranch(m, NamesAt(f, p), KidsAt(f, p))
  }

  /** The match of an edit child, if any, is the same instance as the child. */
  lemma MatchedDown(m: Model, f: seq<Node>, p: Path, e: seq<Node>, q: Path, i: nat, c: nat)
    requires Tracks(m, [], f, p, e, q) && FitKids(m, [], f) && Host(m, f, p) && IsList(e, q)
    requires c < |KidsAt(e, q)| && Mergible(m, NamesAt(f, p), KidsAt(f, p), KidsAt(e, q)[c])
    requires !IsKeyAt(m, NamesAt(f, p), KidsAt(e, q)[c].name)
    requires FirstMatch(m, KidsAt(e, q)[c], KidsAt(f, p),
      IsLeafList(m, NamesAt(f, p) + [KidsAt(e, q)[c].name])) == Some(i)
    ensures KidsAt(f, p)[i].Element? && FitNode(m, NamesAt(f, p), KidsAt(f, p)[i])
    ensures KidsAt(f, p)[i].name == KidsAt(e, q)[c].name
    ensures Ready(m, f, p + [i], e, q + [c]) && Into(m, f, p + [i], e, q + [c])
    ensures KidsAt(f, p + [i]) == KidsAt(f, p)[i].kids && KidsAt(e, q + [c]) == KidsAt(e, q)[c].kids
    ensures NamesAt(f, p + [i]) == NamesAt(f, p) + [KidsAt(f, p)[i].name]
  {
    hide FitKids, FitNode, Tracks, KidsAt, IsList, NamesAt, NodeAt, IsNode, IsKeyAt, IdOf, Addressed, Mergible,
      PlaceFree, OneBranch, OpFree, IsLeafList;
    var at, o, d := NamesAt(f, p), KidsAt(f, p)[i], KidsAt(e, q)[c];
    MergibleParts(m, at, KidsAt(f, p), d);
    FitMember(m, at, KidsAt(f, p), i);
    FitNodeAddressed(m, at, d);
    AddressedIsElement(m, at, o);
    MatchIsSameId(m, at, d, o);
    SameIdSameName(m, at, d, o);
    ReadyDown(m, f, p, e, q, i, c);
    NodeSnoc(e, q, c);
    ParentSnoc(p, i);
    IntoKid(m, at, KidsAt(f, p), i, d);
  }

  lemma MergibleParts(m: Model, at: seq<string>, kids: seq<Node>, d: Node)
    requires Mergible(m, at, kids, d)
    ensures d.Element? && FitNode(m, at, d)
  {
  }

  lemma SameIdSameName(m: Model, at: seq<string>, a: Node, b: Node)
    requires a.Element? && b.Element? && IdOf(m, at, a) == IdOf(m, at, b)
    ensures a.name == b.name
  {
  }

  lemma ParentSnoc(p: Path, i: nat)
    ensures p + [i] != [] && Parent(p + [i]) == p
  {
  }

  /** What holds of an edit child holds of its children, beside those of its counterpart. */
  lemma IntoKid(m: Model, at: seq<string>, kids: seq<Node>, i: nat, d: Node)
    requires OneBranch(m, at, kids) && Mergible(m, at, kids, d)
    requires FirstMatch(m, d, kids, IsLeafList(m, at + [d.name])) == Some(i) && kids[i].Element?
    requires kids[i].name == d.name
    ensures OpFree(d.kids) && OneBranch(m, at + [d.name], d.kids) && OneBranch(m, at + [d.name], kids[i].kids)
    ensures forall j :: 0 <= j < |d.kids| ==> PlaceFree(m, at + [d.name], kids[i].kids, d.kids[j])
  {
    hide FitNode, Rivals, FirstMatch, IsLeafList, AsksNoPlace;
    assert [d][0] == d;
  }

  /** The edit document after its c-th child at q has been taken out. */
  lemma TakenOut(e: seq<Node>, q: Path, c: nat)
    requires IsList(e, q) && c < |KidsAt(e, q)|
    ensures IsNode(e, q + [c]) && Parent(q + [c]) == q && Last(q + [c]) == c
    ensures NodeAt(e, q + [c]) == KidsAt(e, q)[c] && (q == [] || IsNode(e, q)) && AllElements(Chain(e, q))
    ensures var e1 := SetKids(e, q, Without(KidsAt(e, q), c));
      OnlyBelow(e, q, e1) && c <= |KidsAt(e1, q)| && KidsAt(e1, q)[c..] == KidsAt(e, q)[c + 1..]
  {
    NodeSnoc(e, q, c);
    ElementChain(e, q);
    SetThenGet(e, q, Without(KidsAt(e, q), c));
  }

  /** The cursors after a child without a match has been created. */
  lemma AfterCreate(m: Model, f: seq<Node>, p: Path, e: seq<Node>, q: Path, c: nat)
    requires Mergeable(m) && Ready(m, f, p, e, q) && Host(m, f, p) && IsList(e, q)
    requires c < |KidsAt(e, q)| && Mergible(m, NamesAt(f, p), KidsAt(f, p), KidsAt(e, q)[c])
    requires !IsKeyAt(m, NamesAt(f, p), KidsAt(e, q)[c].name)
    ensures Ready(m, SetKids(f, p, MergeKid(m, NamesAt(f, p), KidsAt(f, p), KidsAt(e, q)[c])), p,
      SetKids(e, q, Without(KidsAt(e, q), c)), q)
  {
    hide MergeKid, FitKids, FitNode, Tracks;
    var child := KidsAt(e, q)[c];
    ReadyMergeKid(m, f, p, e, q, child);
    ReadyTakeOut(m, f, p, e, q, c);
    ReadyBoth(m, f, p, e, q, SetKids(f, p, MergeKid(m, NamesAt(f, p), KidsAt(f, p), child)),
      SetKids(e, q, Without(KidsAt(e, q), c)));
  }

  /** If the cursors stay ready when either document changes, they stay ready when both
      do: only the identities on the paths matter. */
  lemma ReadyBoth(m: Model, f: seq<Node>, p: Path, e: seq<Node>, q: Path, f1: seq<Node>, e1: seq<Node>)
    requires Ready(m, f, p, e, q) && Ready(m, f1, p, e, q) && Ready(m, f, p, e1, q)
    ensures Ready(m, f1, p, e1, q)
  {
    TracksBoth(m, [], f, p, e, q, f1, e1);
  }

  lemma {:induction false} TracksBoth(m: Model, at: seq<string>, f: seq<Node>, p: Path, e: seq<Node>, q: Path,
      f1: seq<Node>, e1: seq<Node>)
    requires Tracks(m, at, f, p, e, q) && Tracks(m, at, f1, p, e, q) && Tracks(m, at, f, p, e1, q)
    ensures Tracks(m, at, f1, p, e1, q)
    decreases p
  {
    if p != [] {
      TracksBoth(m, at + [f[p[0]].name], f[p[0]].kids, p[1..], e[q[0]].kids, q[1..], f1[p[0]].kids, e1[q[0]].kids);
    }
  }

  /** The edit document after its c-th child at q has changed below. */
  lemma ChangedBelow(e: seq<Node>, q: Path, c: nat, e1: seq<Node>)
    requires IsList(e, q) && c < |KidsAt(e, q)| && KidsAt(e, q)[c].Element? && OnlyBelow(e, q + [c], e1)
    ensures OnlyBelow(e, q, e1) && c < |KidsAt(e1, q)| && KidsAt(e1, q)[c + 1..] == KidsAt(e, q)[c + 1..]
    ensures KidsAt(e1, q)[c].Element? && KidsAt(e1, q)[c].name == KidsAt(e, q)[c].name
    ensures KidsAt(e1, q) == KidsAt(e, q)[c := KidsAt(e1, q)[c]]
  {
    var kids := KidsAt(e, q);
    var d := kids[c].(kids := KidsAt(e1, q + [c]));
    ListSnoc(e, q, c);
    SetSnoc(e, q, c, KidsAt(e1, q + [c]));
    SetThenGet(e, q, kids[c := d]);
  }

  /** The cursors after a matching child has been merged and its choice cleaned up. */
  lemma AfterMerge(m: Model, f: seq<Node>, p: Path, e: seq<Node>, q: Path, c: nat, e1: seq<Node>)
    requires Mergeable(m) && Ready(m, f, p, e, q) && Host(m, f, p) && IsList(e, q)
    requires c < |KidsAt(e, q)| && Mergible(m, NamesAt(f, p), KidsAt(f, p), KidsAt(e, q)[c])
    requires !IsKeyAt(m, NamesAt(f, p), KidsAt(e, q)[c].name)
    requires OnlyBelow(e, q + [c], e1)
    ensures Ready(m, SetKids(f, p, MergeKid(m, NamesAt(f, p), KidsAt(f, p), KidsAt(e, q)[c])), p, e1, q)
  {
    hide MergeKid, FitKids, FitNode, Tracks;
    var child := KidsAt(e, q)[c];
    ChangedBelow(e, q, c, e1);
    ReadyMergeKid(m, f, p, e, q, child);
    ReadyChange(m, f, p, e, q, c, KidsAt(e1, q)[c]);
    ReadyBoth(m, f, p, e, q, SetKids(f, p, MergeKid(m, NamesAt(f, p), KidsAt(f, p), child)), e1);
  }

  lemma ChildNames(m: Model, f: seq<Node>, p: Path, e: seq<Node>, q: Path, c: nat)
    requires Ready(m, f, p, e, q) && IsList(f, p) && IsList(e, q) && c < |KidsAt(e, q)|
    ensures IsNode(e, q + [c]) && NodeAt(e, q + [c]) == KidsAt(e, q)[c]
    ensures Names(Chain(e, q + [c])) == NamesAt(f, p) + [NameOf(KidsAt(e, q)[c])]
  {
    hide FitKids;
    NodeSnoc(e, q, c);
    assert Parent(q + [c]) == q;
    ChainSnoc(e, q + [c]);
    ChainNames(m, [], f, p, e, q);
    NamesSnoc(Chain(e, q), KidsAt(e, q)[c]);
  }

  /** Creates an edit child that has no match. */
  method CreateChild(m: Model, orig: Document, p: Path, edit: Document, q: Path, c: nat)
    requires orig != edit && Mergeable(m)
    requires Ready(m, orig.roots, p, edit.roots, q) && Host(m, orig.roots, p)
    requires IsList(edit.roots, q) && c < |KidsAt(edit.roots, q)|
    requires Mergible(m, NamesAt(orig.roots, p), KidsAt(orig.roots, p), KidsAt(edit.roots, q)[c])
    requires !IsKeyAt(m, NamesAt(orig.roots, p), KidsAt(edit.roots, q)[c].name)
    requires FirstMatch(m, KidsAt(edit.roots, q)[c], KidsAt(orig.roots, p),
      IsLeafList(m, NamesAt(orig.roots, p) + [KidsAt(edit.roots, q)[c].name])).None? && |p| > 1
    modifies orig, edit
    ensures orig.roots == SetKids(old(orig.roots), p,
      MergeKid(m, NamesAt(old(orig.roots), p), KidsAt(old(orig.roots), p), KidsAt(old(edit.roots), q)[c]))
    ensures Ready(m, orig.roots, p, edit.roots, q) && OnlyBelow(old(edit.roots), q, edit.roots)
    ensures c <= |KidsAt(edit.roots, q)| && KidsAt(edit.roots, q)[c..] == KidsAt(old(edit.roots), q)[c + 1..]
  {
    hide MergeKid, FitKids, FitNode, CreateNode;
    TakenOut(edit.roots, q, c);
    ChildNames(m, orig.roots, p, edit.roots, q, c);
    CreateHere(m, orig.roots, p, edit.roots, q, KidsAt(edit.roots, q)[c]);
    AfterCreate(m, orig.roots, p, edit.roots, q, c);
    EditCreate(m, orig, edit, q + [c]);
  }

  /** Merges the c-th child of the edit node at q into the configuration node at p, and
      returns where the next child is. */
  method MergeChild(m: Model, orig: Document, p: Path, edit: Document, q: Path, c: nat) returns (next: nat)
    requires orig != edit && Mergeable(m)
    requires Ready(m, orig.roots, p, edit.roots, q) && Host(m, orig.roots, p)
    requires IsList(edit.roots, q) && c < |KidsAt(edit.roots, q)|
    requires Mergible(m, NamesAt(orig.roots, p), KidsAt(orig.roots, p), KidsAt(edit.roots, q)[c])
    requires |p| > 1
    modifies orig, edit
    ensures orig.roots == SetKids(old(orig.roots), p,
      MergeKid(m, NamesAt(old(orig.roots), p), KidsAt(old(orig.roots), p), KidsAt(old(edit.roots), q)[c]))
    ensures Ready(m, orig.roots, p, edit.roots, q) && OnlyBelow(old(edit.roots), q, edit.roots)
    ensures next <= |KidsAt(edit.roots, q)| && KidsAt(edit.roots, q)[next..] == KidsAt(old(edit.roots), q)[c + 1..]
    decreases NodeSize(KidsAt(edit.roots, q)[c]), 0
  {
    hide MergeKids, FitKids, FitNode, Matches, KidsAt, SetKids, IsList, NamesAt, ChoiceClean, Size, NodeSize;
    var at, child := NamesAt(orig.roots, p), KidsAt(edit.roots, q)[c];
    if IsKeyAt(m, at, child.name) {
      SetGet(orig.roots, p);
      SetGet(edit.roots, q);
      return c + 1;
    }
    var i := SeekMatch(m, child, KidsAt(orig.roots, p), IsLeafList(m, at + [child.name]));
    if i == |KidsAt(orig.roots, p)| {
      CreateChild(m, orig, p, edit, q, c);
      return c;
    }
    ghost var f, e := orig.roots, edit.roots;
    MatchedDown(m, f, p, e, q, i, c);
    KidSmaller(KidsAt(e, q), c);
    MergeRecursively(m, orig, p + [i], edit, q + [c]);
    MergeHere(m, f, p, i, child, KidsAt(orig.roots, p + [i]));
    ChangedBelow(e, q, c, edit.roots);
    AfterMerge(m, f, p, e, q, c, edit.roots);
    EditChoiceClean(m, at, orig, p, child.name);
    return c + 1;
  }

  /** A leaf of the edit merged into its counterpart. */
  lemma LeafPair(m: Model, f: seq<Node>, p: Path, e: seq<Node>, q: Path)
    requires Mergeable(m) && Ready(m, f, p, e, q) && Into(m, f, p, e, q) && HoldsText(NodeAt(e, q))
    ensures KidsAt(e, q) == NodeAt(e, q).kids && NamesAt(f, p) != []
    ensures var r := TextMerged(m, NamesAt(f, p), KidsAt(f, p), KidsAt(e, q)[0]);
      r == MergeKids(m, NamesAt(f, p), KidsAt(f, p), KidsAt(e, q)) && Ready(m, SetKids(f, p, r), p, e, q)
  {
    ReadyHere(m, f, p, e, q);
    var above, o, n := NamesAt(f, Parent(p)), NodeAt(f, p), NodeAt(e, q);
    SameShape(m, above, o, n);
    TextIsLeaf(m, above, o);
    TextIsLeaf(m, above, n);
    LeafMerge(m, above, o, n);
    MergeNodeFits(m, above, o, n);
    MergeKeepsId(m, above, o, n);
    assert ReplaceTexts(o.kids, n.kids[0]) == n.kids;
    ReadySetOrig(m, f, p, e, q, MergeNode(m, above, o, n).kids);
  }

  lemma EntryPair(m: Model, f: seq<Node>, p: Path, e: seq<Node>, q: Path)
    requires Mergeable(m) && Ready(m, f, p, e, q) && Into(m, f, p, e, q) && HoldsText(NodeAt(e, q))
    ensures IsList(f, Parent(p)) && Last(p) < |KidsAt(f, Parent(p))| && NamesAt(f, p) != []
    ensures TextMerge(m, f, p, NamesAt(f, p), NodeAt(e, q)) ==
      SetKids(f, p, TextMerged(m, NamesAt(f, p), KidsAt(f, p), NodeAt(e, q).kids[0]))
  {
    hide FitKids, Tracks;
    ReadyHere(m, f, p, e, q);
    NodeInParent(f, p);
    var above, o, n := NamesAt(f, Parent(p)), NodeAt(f, p), NodeAt(e, q);
    SameShape(m, above, o, n);
    TextIsLeaf(m, above, o);
    TextIsLeaf(m, above, n);
    SameTexts(m, above, o, n);
    MatchedIsKnown(m, f, p, NamesAt(f, p), n);
  }

  lemma SameTexts(m: Model, at: seq<string>, o: Node, n: Node)
    requires SameInstance(m, at, o, n) && HoldsText(o) && HoldsText(n)
    ensures o.name == n.name
    ensures IsLeafList(m, at + [n.name]) ==> m.norm(o.kids[0].content) == m.norm(n.kids[0].content)
  {
  }

  /** An edit node that is not a leaf, ready for its children to be merged. */
  lemma InnerPair(m: Model, f: seq<Node>, p: Path, e: seq<Node>, q: Path)
    requires Mergeable(m) && Ready(m, f, p, e, q) && Into(m, f, p, e, q) && !HoldsText(NodeAt(e, q))
    ensures Host(m, f, p) && KidsAt(e, q) == NodeAt(e, q).kids
    ensures AllMergible(m, NamesAt(f, p), KidsAt(f, p), KidsAt(e, q))
  {
    ReadyHere(m, f, p, e, q);
    SameShape(m, NamesAt(f, Parent(p)), NodeAt(f, p), NodeAt(e, q));
    var kids := KidsAt(e, q);
    FitIsElements(m, NamesAt(f, p), kids);
    forall j | 0 <= j < |kids|
      ensures Mergible(m, NamesAt(f, p), KidsAt(f, p), kids[j])
    {
      assert FitNode(m, NamesAt(f, p), kids[j]);
      assert [kids[j]][0] == kids[j];
    }
  }

  /** How far merging the children at q has come: k of them are done. */
  ghost predicate Progress(m: Model, f0: seq<Node>, p: Path, e0: seq<Node>, q: Path, k: nat,
      f: seq<Node>, e: seq<Node>, c: nat) {
    IsList(f0, p) && IsList(f, p) && IsList(e0, q) && k <= |KidsAt(e0, q)| &&
    Ready(m, f, p, e, q) && Host(m, f, p) && NamesAt(f, p) == NamesAt(f0, p) &&
    f == SetKids(f0, p, KidsAt(f, p)) &&
    OnlyBelow(e0, q, e) && c <= |KidsAt(e, q)| && KidsAt(e, q)[c..] == KidsAt(e0, q)[k..] &&
    AllMergible(m, NamesAt(f0, p), KidsAt(f, p), KidsAt(e0, q)[k..]) &&
    MergeKids(m, NamesAt(f0, p), KidsAt(f, p), KidsAt(e0, q)[k..]) ==
      MergeKids(m, NamesAt(f0, p), KidsAt(f0, p), KidsAt(e0, q))
  }

  lemma ProgressStart(m: Model, f: seq<Node>, p: Path, e: seq<Node>, q: Path)
    requires Ready(m, f, p, e, q) && Host(m, f, p) && IsList(e, q)
    requires AllMergible(m, NamesAt(f, p), KidsAt(f, p), KidsAt(e, q))
    ensures Progress(m, f, p, e, q, 0, f, e, 0)
  {
    SetGet(f, p);
    SetGet(e, q);
    assert KidsAt(e, q)[0..] == KidsAt(e, q);
  }

  lemma ProgressStep(m: Model, f0: seq<Node>, p: Path, e0: seq<Node>, q: Path, k: nat,
      f: seq<Node>, e: seq<Node>, c: nat, f1: seq<Node>, e1: seq<Node>, next: nat)
    requires Mergeable(m) && Progress(m, f0, p, e0, q, k, f, e, c) && c < |KidsAt(e, q)|
    requires k < |KidsAt(e0, q)|
    requires f1 == SetKids(f, p, MergeKid(m, NamesAt(f, p), KidsAt(f, p), KidsAt(e, q)[c]))
    requires Ready(m, f1, p, e1, q) && OnlyBelow(e, q, e1)
    requires next <= |KidsAt(e1, q)| && KidsAt(e1, q)[next..] == KidsAt(e, q)[c + 1..]
    ensures Progress(m, f0, p, e0, q, k + 1, f1, e1, next)
  {
    hide MergeKid, FitKids, FitNode, Tracks;
    var at, kids, es := NamesAt(f, p), KidsAt(f, p), KidsAt(e0, q);
    assert KidsAt(e, q)[c] == es[k..][0] == es[k] && es[k..][1..] == es[k + 1..];
    assert KidsAt(e, q)[c..][1..] == KidsAt(e, q)[c + 1..];
    var r := MergeKid(m, at, kids, es[k]);
    RestMergible(m, at, kids, es[k..]);
    SetThenGet(f, p, r);
    SetThenSet(f0, p, kids, r);
    MergeKidFits(m, at, kids, es[k]);
    MergeKidOneBranch(m, at, kids, es[k]);
    OnlyBelowTrans(e0, q, e, e1);
    ReadyNames(m, f, p, e, q, f1, e1);
  }

  lemma RestMergible(m: Model, at: seq<string>, kids: seq<Node>, edits: seq<Node>)
    requires Mergeable(m) && FitKids(m, at, kids) && AllMergible(m, at, kids, edits) && edits != []
    ensures Mergible(m, at, kids, edits[0]) && AllMergible(m, at, MergeKid(m, at, kids, edits[0]), edits[1..])
  {
    hide FitKids, FitNode, IdOf, MergeKid, Mergible;
    TailFits(m, at, edits);
    forall j | 0 <= j < |edits[1..]|
      ensures Mergible(m, at, MergeKid(m, at, kids, edits[0]), edits[1..][j])
    {
      assert Mergible(m, at, kids, edits[0]) && Mergible(m, at, kids, edits[j + 1]);
      OtherMember(m, at, edits, j + 1);
      MergibleStays(m, at, kids, edits[0], edits[j + 1]);
    }
  }

  lemma OtherMember(m: Model, at: seq<string>, edits: seq<Node>, j: nat)
    requires FitKids(m, at, edits) && 0 < j < |edits|
    ensures FitNode(m, at, edits[0]) && edits[0].Element? && edits[j].Element?
    ensures IdOf(m, at, edits[0]) != IdOf(m, at, edits[j])
  {
    hide IdOf;
  }

  /** The names on the tracked path do not change while the cursors stay ready. */
  lemma ReadyNames(m: Model, f: seq<Node>, p: Path, e: seq<Node>, q: Path, f1: seq<Node>, e1: seq<Node>)
    requires Ready(m, f, p, e, q) && Ready(m, f1, p, e1, q) && OnlyBelow(e, q, e1)
    ensures IsList(f, p) && IsList(f1, p) && NamesAt(f1, p) == NamesAt(f, p)
  {
    TracksPaths(m, [], f, p, e, q);
    TracksPaths(m, [], f1, p, e1, q);
    NamesBelow(e, q, KidsAt(e1, q));
  }

  /** Merges the children of the edit node at q into the configuration node at p, one by
      one. */
  method MergeElements(m: Model, orig: Document, p: Path, edit: Document, q: Path)
    requires orig != edit && Mergeable(m)
    requires Ready(m, orig.roots, p, edit.roots, q) && Host(m, orig.roots, p) && IsList(edit.roots, q)
    requires AllMergible(m, NamesAt(orig.roots, p), KidsAt(orig.roots, p), KidsAt(edit.roots, q))
    requires |p| > 1
    modifies orig, edit
    ensures orig.roots == SetKids(old(orig.roots), p,
      MergeKids(m, NamesAt(old(orig.roots), p), KidsAt(old(orig.roots), p), KidsAt(old(edit.roots), q)))
    ensures Ready(m, orig.roots, p, edit.roots, q) && OnlyBelow(old(edit.roots), q, edit.roots)
    decreases Size(KidsAt(edit.roots, q)), 1
  {
    hide MergeKid, MergeKids, FitKids, FitNode, Tracks, OneBranch;
    ghost var f0, e0 := orig.roots, edit.roots;
    ProgressStart(m, f0, p, e0, q);
    var c: nat := 0;
    ghost var k: nat := 0;
    while c < |KidsAt(edit.roots, q)|
      invariant IsList(edit.roots, q) && Progress(m, f0, p, e0, q, k, orig.roots, edit.roots, c)
      decreases |KidsAt(e0, q)| - k
    {
      ghost var f, e, was := orig.roots, edit.roots, c;
      assert KidsAt(e, q)[c] == KidsAt(e, q)[c..][0] == KidsAt(e0, q)[k];
      KidSmaller(KidsAt(e0, q), k);
      c := MergeChild(m, orig, p, edit, q, c);
      ProgressStep(m, f0, p, e0, q, k, f, e, was, orig.roots, edit.roots, c);
      k := k + 1;
    }
    ProgressEnd(m, f0, p, e0, q, k, orig.roots, edit.roots, c);
  }

  lemma ProgressEnd(m: Model, f0: seq<Node>, p: Path, e0: seq<Node>, q: Path, k: nat,
      f: seq<Node>, e: seq<Node>, c: nat)
    requires Progress(m, f0, p, e0, q, k, f, e, c) && c == |KidsAt(e, q)|
    ensures KidsAt(f, p) == MergeKids(m, NamesAt(f0, p), KidsAt(f0, p), KidsAt(e0, q))
  {
    assert KidsAt(e, q)[c..] == [];
  }

  /** Merges the edit node at q into the configuration node at p. */
  method MergeRecursively(m: Model, orig: Document, p: Path, edit: Document, q: Path)
    requires orig != edit && Mergeable(m)
    requires Ready(m, orig.roots, p, edit.roots, q) && Into(m, orig.roots, p, edit.roots, q)
    requires |p| > 1
    modifies orig, edit
    ensures orig.roots == SetKids(old(orig.roots), p,
      MergeKids(m, NamesAt(old(orig.roots), p), KidsAt(old(orig.roots), p), KidsAt(old(edit.roots), q)))
    ensures Ready(m, orig.roots, p, edit.roots, q) && OnlyBelow(old(edit.roots), q, edit.roots)
    ensures IsList(orig.roots, p) && KidsAt(orig.roots, p) ==
      MergeKids(m, NamesAt(old(orig.roots), p), KidsAt(old(orig.roots), p), KidsAt(old(edit.roots), q))
    decreases Size(KidsAt(edit.roots, q)), 2
  {
    hide MergeKid, MergeKids, FitKids, FitNode, Tracks, OneBranch;
    ghost var f, e := orig.roots, edit.roots;
    SetThenGet(f, p, MergeKids(m, NamesAt(f, p), KidsAt(f, p), KidsAt(e, q)));
    NodeOwnsList(e, q);
    if HoldsText(NodeAt(edit.roots, q)) {
      LeafPair(m, f, p, e, q);
      EntryPair(m, f, p, e, q);
      SetGet(e, q);
      MergeText(m, orig, p, NamesAt(orig.roots, p), NodeAt(edit.roots, q));
    } else {
      InnerPair(m, f, p, e, q);
      MergeElements(m, orig, p, edit, q);
    }
  }

  // ---- the top level of merging

  lemma {:induction false} CleanAppend(m: Model, at: seq<string>, kids: seq<Node>, n: Node)
    requires n.Element?
    ensures ChoiceClean(m, at, kids + [n], n.name) == ChoiceClean(m, at, kids, n.name) + [n]
  {
    if kids == [] {
      assert [] + [n] == [n] && [n][1..] == [] && [n] + [] == [n];
    } else {
      assert (kids + [n])[1..] == kids[1..] + [n];
      CleanAppend(m, at, kids[1..], n);
    }
  }

  /** Searching from the root finds the match among the children at the cursor. */
  lemma FindFromRoot(m: Model, f: seq<Node>, p: Path, e: seq<Node>, q: Path, c: nat)
    requires Ready(m, f, p, e, q) && IsList(f, p) && IsList(e, q) && c < |KidsAt(e, q)|
    ensures IsNode(e, q + [c])
    ensures var child := KidsAt(e, q)[c];
      var i := FirstMatch(m, child, KidsAt(f, p), IsLeafList(m, NamesAt(f, p) + [NameOf(child)]));
      FindEquiv(m, [], f, Chain(e, q + [c])) == if i.Some? then Some(p + [i.value]) else None
  {
    hide FitKids, FitNode, Tracks;
    NodeSnoc(e, q, c);
    ChainSnoc(e, q + [c]);
    assert Parent(q + [c]) == q;
    TracksFound(m, [], f, p, e, q);
    ChainNames(m, [], f, p, e, q);
    ElementChain(e, q);
    FindSnoc(m, [], f, Chain(e, q), KidsAt(e, q)[c]);
    assert [] + Names(Chain(e, q)) == Names(Chain(e, q));
  }

  /** Adding a copy of a child and then cleaning up its choice is one step of merging. */
  lemma AddHere(m: Model, f: seq<Node>, p: Path, c: Node)
    requires IsList(f, p) && c.Element? && !IsKeyAt(m, NamesAt(f, p), c.name)
    requires FirstMatch(m, c, KidsAt(f, p), IsLeafList(m, NamesAt(f, p) + [c.name])).None?
    ensures var g := SetKids(f, p, KidsAt(f, p) + [c]);
      IsList(g, p) &&
      SetKids(g, p, ChoiceClean(m, NamesAt(f, p), KidsAt(g, p), c.name)) ==
        SetKids(f, p, MergeKid(m, NamesAt(f, p), KidsAt(f, p), c))
  {
    CleanAppend(m, NamesAt(f, p), KidsAt(f, p), c);
    SetThenGet(f, p, KidsAt(f, p) + [c]);
    SetThenSet(f, p, KidsAt(f, p) + [c], ChoiceClean(m, NamesAt(f, p), KidsAt(f, p) + [c], c.name));
  }

  /** Merges the c-th child of a top-level edit node: it is searched for from the root,
      and copied rather than moved, to the end and with its attributes, if it is new. */
  method MergeTopChild(m: Model, orig: Document, p: Path, edit: Document, q: Path, c: nat)
    requires orig != edit && Mergeable(m)
    requires Ready(m, orig.roots, p, edit.roots, q) && Host(m, orig.roots, p)
    requires IsList(edit.roots, q) && c < |KidsAt(edit.roots, q)|
    requires Mergible(m, NamesAt(orig.roots, p), KidsAt(orig.roots, p), KidsAt(edit.roots, q)[c])
    modifies orig, edit
    ensures orig.roots == SetKids(old(orig.roots), p,
      MergeKid(m, NamesAt(old(orig.roots), p), KidsAt(old(orig.roots), p), KidsAt(old(edit.roots), q)[c]))
    ensures Ready(m, orig.roots, p, edit.roots, q) && OnlyBelow(old(edit.roots), q, edit.roots)
    ensures c < |KidsAt(edit.roots, q)| && KidsAt(edit.roots, q)[c + 1..] == KidsAt(old(edit.roots), q)[c + 1..]
  {
    hide MergeKids, FitKids, FitNode;
    var at, child := NamesAt(orig.roots, p), KidsAt(edit.roots, q)[c];
    SetGet(edit.roots, q);
    if IsKeyAt(m, at, child.name) {
      SetGet(orig.roots, p);
      return;
    }
    ghost var f, e := orig.roots, edit.roots;
    FindFromRoot(m, f, p, e, q, c);
    var aux := FindElementEquiv(m, orig.roots, edit.roots, q + [c]);
    if aux.None? {
      AddHere(m, f, p, child);
      ReadyMergeKid(m, f, p, e, q, child);
      orig.AddChild(p, child);
    } else {
      ghost var i := Last(aux.value);
      MatchedDown(m, f, p, e, q, i, c);
      MergeRecursively(m, orig, aux.value, edit, q + [c]);
      MergeHere(m, f, p, i, child, KidsAt(orig.roots, aux.value));
      ChangedBelow(e, q, c, edit.roots);
      AfterMerge(m, f, p, e, q, c, edit.roots);
    }
    EditChoiceClean(m, at, orig, p, child.name);
  }

  /** Merges the children of a top-level edit node. */
  method MergeTop(m: Model, orig: Document, p: Path, edit: Document, q: Path)
    requires orig != edit && Mergeable(m)
    requires Ready(m, orig.roots, p, edit.roots, q) && Host(m, orig.roots, p) && IsList(edit.roots, q)
    requires AllMergible(m, NamesAt(orig.roots, p), KidsAt(orig.roots, p), KidsAt(edit.roots, q))
    modifies orig, edit
    ensures orig.roots == SetKids(old(orig.roots), p,
      MergeKids(m, NamesAt(old(orig.roots), p), KidsAt(old(orig.roots), p), KidsAt(old(edit.roots), q)))
    ensures OnlyBelow(old(edit.roots), q, edit.roots)
  {
    hide MergeKid, MergeKids, FitKids, FitNode, Tracks, OneBranch;
    ghost var f0, e0 := orig.roots, edit.roots;
    ProgressStart(m, f0, p, e0, q);
    var c: nat := 0;
    while c < |KidsAt(edit.roots, q)|
      invariant IsList(edit.roots, q) && Progress(m, f0, p, e0, q, c, orig.roots, edit.roots, c)
      decreases |KidsAt(e0, q)| - c
    {
      ghost var f, e := orig.roots, edit.roots;
      assert KidsAt(e, q)[c] == KidsAt(e, q)[c..][0] == KidsAt(e0, q)[c];
      MergeTopChild(m, orig, p, edit, q, c);
      ProgressStep(m, f0, p, e0, q, c, f, e, c, orig.roots, edit.roots, c + 1);
      c := c + 1;
    }
    ProgressEnd(m, f0, p, e0, q, c, orig.roots, edit.roots, c);
  }

  /** A top-level edit node and its counterpart, ready for merging. */
  lemma RootPair(m: Model, f: seq<Node>, e: seq<Node>, i: nat)
    requires Mergeable(m) && FitKids(m, [], f) && OneBranch(m, [], f)
    requires e != [] && Mergible(m, [], f, e[0]) && !HoldsText(e[0])
    requires FirstMatch(m, e[0], f, IsLeafList(m, [e[0].name])) == Some(i)
    requires !IsKeyAt(m, [], e[0].name)
    ensures Ready(m, f, [i], e, [0]) && Host(m, f, [i]) && IsList(e, [0])
    ensures KidsAt(e, [0]) == e[0].kids && KidsAt(f, [i]) == f[i].kids && NamesAt(f, [i]) == [e[0].name]
    ensures f[i].Element? && f[i].name == e[0].name
    ensures AllMergible(m, [e[0].name], f[i].kids, e[0].kids)
  {
    hide FitKids, FitNode;
    assert [] + [e[0].name] == [e[0].name];
    FitMember(m, [], f, i);
    FitNodeAddressed(m, [], e[0]);
    MatchIsSameId(m, [], e[0], f[i]);
    SetGet(f, []);
    assert NamesAt(f, []) == [] && [] + NamesAt(f, []) == [] && IsList(f, []) && IsList(e, []);
    assert Tracks(m, [], f, [], e, []);
    assert [] + [i] == [i] && [] + [0] == [0];
    ReadyDown(m, f, [], e, [], i, 0);
    assert [e[0]][0] == e[0];
    assert Parent([i]) == [];
    InnerPair(m, f, [i], e, [0]);
  }

  /** The top-level children of the edit. */
  lemma RootMerged(m: Model, f: seq<Node>, e: Node, i: nat, ks: seq<Node>)
    requires KeysOutsideChoices(m) && OneBranch(m, [], f) && e.Element? && OneBranch(m, [e.name], e.kids)
    requires !IsKeyAt(m, [], e.name) && FirstMatch(m, e, f, IsLeafList(m, [e.name])) == Some(i)
    requires f[i].Element? && f[i].name == e.name
    requires ks == MergeKids(m, [e.name], f[i].kids, e.kids)
    ensures IsList(f, [i]) && SetKids(f, [i], ks) == MergeKid(m, [], f, e)
  {
    assert [] + [e.name] == [e.name] && [i][1..] == [];
    var n := MergeNode(m, [], f[i], e);
    MergeNodeOneBranch(m, [], f[i], e);
    UpdateOneBranch(m, [], f, i, n);
    NothingToClean(m, [], f[i := n], e.name);
  }

  /** A leaf at the top of the edit and its counterpart. */
  lemma RootLeafPair(m: Model, f: seq<Node>, e: Node, i: nat)
    requires Mergeable(m) && FitKids(m, [], f) && FitNode(m, [], e) && HoldsText(e)
    requires FirstMatch(m, e, f, IsLeafList(m, [e.name])) == Some(i)
    ensures i < |f| && f[i].Element? && f[i].name == e.name && HoldsText(f[i])
    ensures IsLeafList(m, [e.name]) ==> m.norm(f[i].kids[0].content) == m.norm(e.kids[0].content)
    ensures !IsLeafList(m, [e.name]) ==> Lookup(m, [], f, [IdOf(m, [], e)]) == Some(LeafVal(f[i].kids[0].content))
    ensures FirstMatch(m, JoinRoot(m, f, e), f, IsLeafList(m, [e.name])) == Some(i)
  {
    hide FitKids, FitNode, Matches, IdOf, Lookup, Addressed, KeysOf, ValueOf, IsLeafList, HoldsText;
    FitMember(m, [], f, i);
    FitNodeAddressed(m, [], e);
    AddressedIsElement(m, [], e);
    assert [] + [e.name] == [e.name];
    AddressedIsElement(m, [], f[i]);
    MatchIsSeek(m, [], f, e);
    JoinFits(m, f, e);
    FitNodeAddressed(m, [], JoinRoot(m, f, e));
    MatchIsSeek(m, [], f, JoinRoot(m, f, e));
    RootLeaf(m, f, e, i);
  }

  lemma RootLeaf(m: Model, f: seq<Node>, e: Node, i: nat)
    requires Mergeable(m) && FitKids(m, [], f) && FitNode(m, [], e) && HoldsText(e)
    requires SeekId(m, [], f, IdOf(m, [], e)) == Some(i)
    ensures i < |f| && f[i].Element? && f[i].name == e.name && HoldsText(f[i])
    ensures IsLeafList(m, [e.name]) ==> m.norm(f[i].kids[0].content) == m.norm(e.kids[0].content)
    ensures !IsLeafList(m, [e.name]) ==> Lookup(m, [], f, [IdOf(m, [], e)]) == Some(LeafVal(f[i].kids[0].content))
  {
    hide FitKids, FitNode, KeysOf, IsLeafList;
    FitMember(m, [], f, i);
    FitNodeAddressed(m, [], e);
    assert [] + [e.name] == [e.name];
    IdHasItsName(m, [], e);
    IdHasItsName(m, [], f[i]);
    SameShape(m, [], f[i], e);
    TextIsLeaf(m, [], f[i]);
    TextIsLeaf(m, [], e);
    SameTexts(m, [], f[i], e);
  }

  /** Searching for the text of the leaf finds it exactly if it is the same up to
      whitespace. */
  lemma FindRootText(m: Model, f: seq<Node>, e: seq<Node>, i: nat)
    requires e != [] && e[0].Element? && HoldsText(e[0]) && i < |f| && f[i].Element? && HoldsText(f[i])
    requires FindEquiv(m, [], f, Chain(e, [0])) == Some([i])
    ensures IsNode(e, [0, 0]) && NodeAt(e, [0, 0]) == e[0].kids[0]
    ensures FindEquiv(m, [], f, Chain(e, [0, 0])).Some? <==>
      m.norm(e[0].kids[0].content) == m.norm(f[i].kids[0].content)
  {
    var t, at := e[0].kids[0], [] + Names(Chain(e, [0])) + [NameOf(e[0].kids[0])];
    assert [0, 0][1..] == [0] && Parent([0, 0]) == [0] && [i][1..] == [];
    ChainSnoc(e, [0, 0]);
    FindSnoc(m, [], f, Chain(e, [0]), t);
    assert KidsAt(f, [i]) == f[i].kids;
    assert f[i].kids[1..] == [] && f[i].kids[0] == f[i].kids[0];
    assert FirstMatch(m, t, f[i].kids, IsLeafList(m, at)).Some? <==> Matches(m, t, f[i].kids[0], IsLeafList(m, at));
  }

  /** What merging the text of a root leaf makes of the configuration. */
  lemma RootTextMerged(m: Model, f: seq<Node>, e: Node, i: nat)
    requires Mergeable(m) && FitKids(m, [], f) && OneBranch(m, [], f) && FitNode(m, [], e) && HoldsText(e)
    requires FirstMatch(m, e, f, IsLeafList(m, [e.name])) == Some(i) && !IsKeyAt(m, [], e.name)
    ensures i < |f| && f[i].Element? && HoldsText(f[i]) && IsList(f, [i]) && KidsAt(f, [i]) == f[i].kids
    ensures var same := m.norm(e.kids[0].content) == m.norm(f[i].kids[0].content);
      SetKids(f, [i], if same then TextMerged(m, [e.name], f[i].kids, e.kids[0]) else JoinText(f[i].kids, e.kids[0]))
        == MergeKid(m, [], f, JoinRoot(m, f, e))
  {
    hide FitKids, Matches, Lookup, OneBranch;
    assert [] + [e.name] == [e.name] && [i][1..] == [];
    RootLeafPair(m, f, e, i);
    JoinFits(m, f, e);
    var j := JoinRoot(m, f, e);
    assert HoldsText(j);
    FitMember(m, [], f, i);
    LeafMerge(m, [], f[i], j);
    TextOneBranch(m, [e.name], j.kids);
    RootMerged(m, f, j, i, MergeKids(m, [e.name], f[i].kids, j.kids));
    assert f[i].kids[..0] + [Text(f[i].kids[0].content + e.kids[0].content)] ==
      [Text(f[i].kids[0].content + e.kids[0].content)];
  }

  lemma TextOneBranch(m: Model, at: seq<string>, kids: seq<Node>)
    requires |kids| == 1 && kids[0].Text?
    ensures OneBranch(m, at, kids)
  {
  }

  /** Merges the text of a leaf at the top: it is searched for from the root like any child,
      and a copy is appended to the old text if it is not found. */
  method MergeRootText(m: Model, orig: Document, edit: Document, i: nat)
    requires orig != edit && Mergeable(m) && FitKids(m, [], orig.roots) && OneBranch(m, [], orig.roots)
    requires edit.roots != [] && FitNode(m, [], edit.roots[0]) && HoldsText(edit.roots[0])
    requires FirstMatch(m, edit.roots[0], orig.roots, IsLeafList(m, [edit.roots[0].name])) == Some(i)
    modifies orig
    ensures orig.roots == MergeKid(m, [], old(orig.roots), JoinRoot(m, old(orig.roots), edit.roots[0]))
  {
    hide FitKids, Matches, Lookup, OneBranch, MergeKid, JoinRoot, FirstMatch, IsLeafList, TextMerged, TextMerge;
    ghost var f := orig.roots;
    var root := edit.roots[0];
    RootTextMerged(m, f, root, i);
    RootLeafPair(m, f, root, i);
    FindRoot(m, f, edit.roots);
    FindRootText(m, f, edit.roots, i);
    var aux := FindElementEquiv(m, orig.roots, edit.roots, [0, 0]);
    if aux.None? {
      orig.AddText([i], root.kids[0]);
    } else {
      assert Parent([i]) == [] && Last([i]) == i && KidsAt(f, []) == f;
      MatchedIsKnown(m, f, [i], [root.name], root);
      MergeText(m, orig, [i], [root.name], root);
    }
  }

  /** Merges the first top-level node of the edit and takes it out of the edit. */
  method EditMerge(m: Model, orig: Document, edit: Document)
    requires orig != edit && Mergeable(m)
    requires FitKids(m, [], orig.roots) && OneBranch(m, [], orig.roots)
    requires edit.roots != [] && Mergible(m, [], orig.roots, edit.roots[0])
    modifies orig, edit
    ensures orig.roots == MergeKid(m, [], old(orig.roots), JoinRoot(m, old(orig.roots), old(edit.roots)[0]))
    ensures edit.roots == old(edit.roots)[1..]
  {
    hide MergeKids, MergeKid, FitKids, FitNode, Tracks, OneBranch, Lookup;
    ghost var f, e := orig.roots, edit.roots;
    var root := edit.roots[0];
    assert [] + [root.name] == [root.name];
    FindRoot(m, f, e);
    var found := FindElementEquiv(m, orig.roots, edit.roots, [0]);
    if found.None? {
      NewRootJoinsNothing(m, f, root);
      CreateRoot(m, f, e);
      EditCreate(m, orig, edit, [0]);
      return;
    }
    ghost var i := Last(found.value);
    if HoldsText(root) {
      MergeRootText(m, orig, edit, Last(found.value));
      assert Without(edit.roots, 0) == e[1..];
    } else {
      RootPair(m, f, e, i);
      MergeTop(m, orig, found.value, edit, [0]);
      RootMerged(m, f, root, i, MergeKids(m, [root.name], f[i].kids, root.kids));
      RestBelow(e, edit.roots);
    }
    edit.Unlink([], 0);
  }

  lemma NewRootJoinsNothing(m: Model, f: seq<Node>, e: Node)
    requires FitKids(m, [], f) && FitNode(m, [], e) && e.Element?
    requires FirstMatch(m, e, f, IsLeafList(m, [e.name])).None?
    ensures JoinRoot(m, f, e) == e
  {
    hide FitKids;
    assert [] + [e.name] == [e.name];
    FitNodeAddressed(m, [], e);
    MatchIsSeek(m, [], f, e);
  }

  lemma FindRoot(m: Model, f: seq<Node>, e: seq<Node>)
    requires e != [] && e[0].Element?
    ensures IsNode(e, [0]) && NodeAt(e, [0]) == e[0]
    ensures var i := FirstMatch(m, e[0], f, IsLeafList(m, [e[0].name]));
      FindEquiv(m, [], f, Chain(e, [0])) == if i.Some? then Some([i.value]) else None
  {
    assert Chain(e, [0]) == [e[0]] && [e[0]][1..] == [] && [] + [e[0].name] == [e[0].name];
    assert forall j: nat :: [j] + [] == [j];
  }

  lemma CreateRoot(m: Model, f: seq<Node>, e: seq<Node>)
    requires e != [] && e[0].Element? && OpFree([e[0]])
    requires FirstMatch(m, e[0], f, IsLeafList(m, [e[0].name])).None? && !IsKeyAt(m, [], e[0].name)
    ensures Parent([0]) == [] && Last([0]) == 0 && Names(Chain(e, [0])) == [e[0].name]
    ensures CreateNode(m, f, Chain(e, []), e[0]) == MergeKid(m, [], f, e[0])
    ensures SetKids(e, [], Without(KidsAt(e, []), 0)) == e[1..]
  {
    assert [e[0]][0] == e[0] && Chain(e, [0]) == [e[0]] && Names([]) == [];
    assert [] + [e[0].name] == [e[0].name];
    assert e[0].attrs - {OPERATION} == e[0].attrs;
    assert Without(e, 0) == e[1..];
  }

  lemma RestBelow(e: seq<Node>, e1: seq<Node>)
    requires e != [] && e[0].Element? && OnlyBelow(e, [0], e1)
    ensures e1 != [] && Without(e1, 0) == e[1..] && IsList(e1, []) && KidsAt(e1, []) == e1
  {
    assert [0][1..] == [];
    assert Without(e1, 0) == e1[1..] == e[1..];
  }

  /** What an edit of f must be: fit, without operations, one branch of each choice, and
      without entries that are asked for a place and name one. */
  ghost predicate DefaultEdit(m: Model, f: seq<Node>, e: seq<Node>) {
    FitKids(m, [], e) && OpFree(e) && OneBranch(m, [], e) &&
    forall i :: 0 <= i < |e| ==> PlaceFree(m, [], f, e[i])
  }

  lemma PlacesNowhere(m: Model, f: seq<Node>, e: seq<Node>)
    requires NoPlaces(m, [], e)
    ensures forall i :: 0 <= i < |e| ==> PlaceFree(m, [], f, e[i])
  {
    hide NodePlaceFree;
    forall i | 0 <= i < |e|
      ensures PlaceFree(m, [], f, e[i])
    {
      FreeEverywhere(m, [], f, e[i]);
    }
  }

  /** Merges a whole edit document, top-level node by top-level node: afterwards the
      configuration is what merging means, where leaves at the top that clash carry the old
      text as well, and the edit is used up. */
  method DefaultMerge(m: Model, orig: Document, edit: Document)
    requires orig != edit && Mergeable(m)
    requires FitKids(m, [], orig.roots) && OneBranch(m, [], orig.roots) && DefaultEdit(m, orig.roots, edit.roots)
    modifies orig, edit
    ensures orig.roots == MergeKids(m, [], old(orig.roots), JoinRoots(m, old(orig.roots), old(edit.roots)))
    ensures edit.roots == []
    ensures FitKids(m, [], orig.roots) && OneBranch(m, [], orig.roots)
  {
    hide FitKids, FitNode, MergeKid, OneBranch, JoinRoot;
    ghost var f0, e0 := orig.roots, edit.roots;
    while edit.roots != []
      invariant FitKids(m, [], orig.roots) && OneBranch(m, [], orig.roots) && DefaultEdit(m, orig.roots, edit.roots)
      invariant MergeKids(m, [], orig.roots, JoinRoots(m, orig.roots, edit.roots)) ==
        MergeKids(m, [], f0, JoinRoots(m, f0, e0))
      decreases |edit.roots|
    {
      DefaultEditStep(m, orig.roots, edit.roots);
      EditMerge(m, orig, edit);
    }
  }

  lemma FirstOfEdit(m: Model, e: seq<Node>)
    requires e != [] && e[0].Element? && OpFree(e) && OneBranch(m, [], e)
    ensures OpFree([e[0]]) && OneBranch(m, [] + [e[0].name], e[0].kids)
    ensures OpFree(e[1..]) && OneBranch(m, [], e[1..])
  {
    hide Rivals;
    assert [e[0]][0] == e[0];
    assert forall i :: 0 <= i < |e[1..]| ==> e[1..][i] == e[i + 1];
    SubsetOneBranch(m, [], e, e[1..]);
  }

  lemma DefaultEditStep(m: Model, f: seq<Node>, e: seq<Node>)
    requires Mergeable(m) && FitKids(m, [], f) && OneBranch(m, [], f) && DefaultEdit(m, f, e) && e != []
    ensures Mergible(m, [], f, e[0])
    ensures var g := MergeKid(m, [], f, JoinRoot(m, f, e[0]));
      DefaultEdit(m, g, e[1..]) && FitKids(m, [], g) && OneBranch(m, [], g) &&
      MergeKids(m, [], f, JoinRoots(m, f, e)) == MergeKids(m, [], g, JoinRoots(m, g, e[1..]))
  {
    hide FitKids, FitNode, OneBranch, MergeKid, JoinRoot, PlaceFree, OpFree, IdOf, KeysOutsideChoices, WellKeyed;
    TailFits(m, [], e);
    JoinFits(m, f, e[0]);
    FirstOfEdit(m, e);
    JoinedOneBranch(m, f, e);
    MergeKidFits(m, [], f, JoinRoot(m, f, e[0]));
    MergeKidOneBranch(m, [], f, JoinRoot(m, f, e[0]));
    JoinStable(m, f, e);
    assert JoinRoots(m, f, e)[1..] == JoinRoots(m, f, e[1..]);
    forall i | 0 <= i < |e[1..]|
      ensures PlaceFree(m, [], MergeKid(m, [], f, JoinRoot(m, f, e[0])), e[1..][i])
    {
      OtherMember(m, [], e, i + 1);
      FitMember(m, [], e, i + 1);
      PlaceFreeStays(m, [], f, JoinRoot(m, f, e[0]), e[i + 1]);
    }
  }
}
