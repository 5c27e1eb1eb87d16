/** The words of the operation attribute: where the checks allow them, and what a performed
    edit makes of the nodes that carry them. */
module OperationWords {
  import opened Xml
  import opened Schema
  import opened Matching
  import opened Instances
  import opened Equivalents
  import opened Operation
  import opened Compaction
  import opened MergeMeaning
  import opened Targets
  import opened Creation
  import opened Effects
  import opened Phases
  import opened EditSites
  import opened EditMerge
  import opened EditPhases
  import opened RootTexts
  import opened Prechecks
  import opened TrimChecks
  import opened Editing

  /** The node carries the operation with this word. */
  predicate Says(n: Node, word: string) {
    n.Element? && "operation" in n.attrs && n.attrs["operation"] == word
  }

  /** The node carries no operation, or one of these words. */
  predicate SaysOnly(n: Node, words: seq<string>) {
    n.Element? && "operation" in n.attrs ==> n.attrs["operation"] in words
  }

  /** Every node above the one at q carries no operation, or one of these words. */
  predicate AboveSays(e: seq<Node>, q: Path, words: seq<string>) {
    forall j :: 0 < j < |q| ==> IsNode(e, q[..j]) && SaysOnly(NodeAt(e, q[..j]), words)
  }

  /** Each word stands for its operation, and any other for none that is known. */
  lemma WordsOf(n: Node)
    ensures OwnOp(n) == NotSet <==> SaysOnly(n, [])
    ensures OwnOp(n) == MergeOp <==> Says(n, "merge")
    ensures OwnOp(n) == ReplaceOp <==> Says(n, "replace")
    ensures OwnOp(n) == CreateOp <==> Says(n, "create")
    ensures OwnOp(n) == DeleteOp <==> Says(n, "delete")
    ensures OwnOp(n) == RemoveOp <==> Says(n, "remove")
    ensures OwnOp(n) == BadOp <==> !SaysOnly(n, ["merge", "replace", "create", "delete", "remove"])
  {
  }

  lemma OpUp(e: seq<Node>, q: Path, j: nat)
    requires IsNode(e, q) && 0 < j <= |q|
    ensures IsNode(e, q[..j]) && OpAbove(e, q, j) == OwnOp(NodeAt(e, q[..j]))
  {
    UpperIsNode(e, q, j);
  }

  /** Which operations may stand where: deletes and removes not with default operation
      replace and not below create or replace, create and replace not below delete or
      remove, and neither below a word that is not known. */
  lemma HierarchyExactly(e: seq<Node>, q: Path, d: DefOp)
    requires IsNode(e, q)
    ensures var n := NodeAt(e, q);
      HierarchyOk(e, q, d) <==>
        SaysOnly(n, ["merge"]) ||
        ((Says(n, "delete") || Says(n, "remove")) && d != DefReplace &&
         AboveSays(e, q, ["merge", "delete", "remove"])) ||
        ((Says(n, "create") || Says(n, "replace")) && AboveSays(e, q, ["merge", "create", "replace"]))
  {
    hide NodeAt, OwnOp, OpAbove;
    WordsOf(NodeAt(e, q));
    forall j | 0 < j < |q|
      ensures IsNode(e, q[..j]) && OpAbove(e, q, j) == OwnOp(NodeAt(e, q[..j]))
      ensures OpAbove(e, q, j) !in {CreateOp, ReplaceOp, BadOp} <==>
        SaysOnly(NodeAt(e, q[..j]), ["merge", "delete", "remove"])
      ensures OpAbove(e, q, j) !in {DeleteOp, RemoveOp, BadOp} <==>
        SaysOnly(NodeAt(e, q[..j]), ["merge", "create", "replace"])
    {
      OpUp(e, q, j);
      WordsOf(NodeAt(e, q[..j]));
    }
  }

  /** A delete passes the check exactly if what it deletes is there, the default operation
      is not replace, and all above it carry no operation, or merge, delete or remove. */
  lemma DeletePasses(m: Model, f: seq<Node>, e: seq<Node>, q: Path, d: DefOp)
    requires IsNode(e, q) && Says(NodeAt(e, q), "delete")
    ensures Passes(m, f, e, q, DeleteOp, d) <==>
      FindEquiv(m, [], f, Chain(e, q)).Some? && d != DefReplace && AboveSays(e, q, ["merge", "delete", "remove"])
  {
    hide FindEquiv, HierarchyOk, AboveSays;
    HierarchyExactly(e, q, d);
  }

  /** A create passes the check exactly if what it creates is not there and all above it
      carry no operation, or merge, create or replace. */
  lemma CreatePasses(m: Model, f: seq<Node>, e: seq<Node>, q: Path, d: DefOp)
    requires IsNode(e, q) && Says(NodeAt(e, q), "create")
    ensures Passes(m, f, e, q, CreateOp, d) <==>
      FindEquiv(m, [], f, Chain(e, q)).None? && AboveSays(e, q, ["merge", "create", "replace"])
  {
    hide FindEquiv, HierarchyOk, AboveSays;
    HierarchyExactly(e, q, d);
  }

  /** The check of one delete when all defaults are reported: what is not there may still be
      deleted if the edit node holds its default, and then only the edit node goes. */
  lemma ReportAllDelete(m: Model, d: DefOp, f: seq<Node>, e: seq<Node>, q: Path)
    requires IsNode(e, q) && Says(NodeAt(e, q), "delete")
    ensures var (ok, f2, e2) := CheckNode(m, Mode.ReportAll, DeleteOp, d, f, e, q);
      var found := FindEquiv(m, [], f, Chain(e, q)).Some?;
      var holds := DefaultAt(m, Names(Chain(e, q))) == Some(Content(NodeAt(e, q)));
      (ok <==> d != DefReplace && AboveSays(e, q, ["merge", "delete", "remove"]) && (found || holds)) &&
      f2 == f && IsList(e, Parent(q)) && Last(q) < |KidsAt(e, Parent(q))| &&
      e2 == if ok && !found then SetKids(e, Parent(q), Without(KidsAt(e, Parent(q)), Last(q))) else e
  {
    hide FindEquiv, HierarchyOk, AboveSays, DefaultAt, NodeAt, Chain;
    HierarchyExactly(e, q, d);
    NodeInParent(e, q);
  }

  /** An edit is admitted exactly if every word in it is known, every delete finds what it
      deletes and every create does not, and neither stands where it must not. */
  lemma AdmittedExactly(m: Model, f: seq<Node>, e: seq<Node>, d: DefOp)
    ensures Admitted(m, f, e, d) <==> forall q :: IsNode(e, q) ==> NodeAdmitted(m, f, e, q, d)
  {
    hide FindEquiv, HierarchyOk, NodeAt, OwnOp, Chain;
    forall q | IsNode(e, q)
      ensures NodeAdmitted(m, f, e, q, d) <==>
        OwnOp(NodeAt(e, q)) != BadOp && (Carries(e, q, DeleteOp) ==> Passes(m, f, e, q, DeleteOp, d)) &&
        (Carries(e, q, CreateOp) ==> Passes(m, f, e, q, CreateOp, d))
    {
      OneAdmitted(m, f, e, q, d);
    }
  }

  ghost predicate NodeAdmitted(m: Model, f: seq<Node>, e: seq<Node>, q: Path, d: DefOp)
    requires IsNode(e, q)
  {
    var n, found := NodeAt(e, q), FindEquiv(m, [], f, Chain(e, q)).Some?;
    SaysOnly(n, ["merge", "replace", "create", "delete", "remove"]) &&
    (Says(n, "delete") ==> found && d != DefReplace && AboveSays(e, q, ["merge", "delete", "remove"])) &&
    (Says(n, "create") ==> !found && AboveSays(e, q, ["merge", "create", "replace"]))
  }

  lemma OneAdmitted(m: Model, f: seq<Node>, e: seq<Node>, q: Path, d: DefOp)
    requires IsNode(e, q)
    ensures NodeAdmitted(m, f, e, q, d) <==>
      OwnOp(NodeAt(e, q)) != BadOp && (Carries(e, q, DeleteOp) ==> Passes(m, f, e, q, DeleteOp, d)) &&
      (Carries(e, q, CreateOp) ==> Passes(m, f, e, q, CreateOp, d))
  {
    hide FindEquiv, HierarchyOk, NodeAt, OwnOp, Chain, AboveSays, Passes;
    var n := NodeAt(e, q);
    WordsOf(n);
    if Says(n, "delete") {
      DeletePasses(m, f, e, q, d);
    }
    if Says(n, "create") {
      CreatePasses(m, f, e, q, d);
    }
  }

  // ---- what a performed edit makes of its nodes

  /** The nodes that carry an operation are the targets of the edit. */
  lemma {:induction false} CarrierIsSite(m: Model, at: seq<string>, up: seq<Id>, kids: seq<Node>, op: Op, q: Path)
      returns (sig: Sig)
    requires EditFine(m, at, kids) && Explicit(op) && Carries(kids, q, op)
    ensures Located(m, at, up, kids, op, q, sig) && sig in Sites(m, at, up, kids, op)
    decreases kids
  {
    hide IdOf, Addressed, Holder, IsKeyAt, Located;
    assert kids == [kids[0]] + kids[1..];
    FineSplit(m, at, kids[0], kids[1..]);
    var n := kids[0];
    if q[0] > 0 {
      var r: Path := [q[0] - 1] + q[1..];
      assert q == Shift(r);
      CarriesShift(kids, r, op);
      sig := CarrierIsSite(m, at, up, kids[1..], op, r);
      LocatedAfter(m, at, up, kids, op, r, sig);
    } else if |q| == 1 {
      assert q == [0];
      LocatedHere(m, at, up, kids, op);
      sig := Sig(op, up + [IdOf(m, at, n)], at, n);
    } else {
      assert q == [0] + q[1..];
      CarriesBelow(kids, q[1..], op);
      if IsSite(n) {
        OpFreeCarriesNothing(n.kids, q[1..]);
        assert false;
      }
      CarrierHasSite(n.kids, q[1..], op);
      sig := CarrierIsSite(m, at + [n.name], up + [IdOf(m, at, n)], n.kids, op, q[1..]);
      LocatedBelow(m, at, up, kids, op, q[1..], sig);
    }
  }

  lemma LocatedSig(m: Model, e: seq<Node>, op: Op, q: Path, sig: Sig)
    requires Located(m, [], [], e, op, q, sig)
    ensures IsNode(e, q) && NodeAt(e, q).Element? && (Parent(q) == [] || IsNode(e, Parent(q)))
    ensures sig == Sig(op, TargetAt(m, e, q), Names(Chain(e, Parent(q))), NodeAt(e, q))
    ensures |sig.target| == |sig.at| + 1 == |q|
  {
    hide IdOf, Addressed, IsKeyAt, Passable;
    var chain := Chain(e, Parent(q));
    assert [] + Names(chain) == Names(chain) && [] + Target(m, chain, NodeAt(e, q)) == Target(m, chain, NodeAt(e, q));
  }

  /** A node that carries an operation, after the edit: with delete and remove there is
      nothing left of its instance, with create and replace the instance and all below it
      are as in the edit. */
  lemma CarrierSettles(m: Model, f: seq<Node>, c: seq<Node>, g: seq<Node>, q: Path, x: seq<Id>)
    requires Sensible(m, f, c) && x != [] && Settles(m, f, AllSites(m, c), Rest(c), g, x)
    requires IsNode(c, q) && !SaysOnly(NodeAt(c, q), [])
    requires Under(TargetAt(m, c, q), x)
    ensures |x| >= |q| && (Parent(q) == [] || IsNode(c, Parent(q)))
    ensures var n := NodeAt(c, q);
      ((Says(n, "delete") || Says(n, "remove")) && Lookup(m, [], g, x) == None) ||
      ((Says(n, "create") || Says(n, "replace")) &&
       Lookup(m, [], g, x) == Lookup(m, Names(Chain(c, Parent(q))), [n], x[|q| - 1..]))
  {
    hide EditFine, Located, Lookup, Sites, NodeAt, OwnOp, Chain, TargetAt, FitNode, MissingBare, Rooted, NoPlaces, Rest;
    var n := NodeAt(c, q);
    var op := OwnOp(n);
    WordsOf(n);
    CarriesExplicit(m, [], c, q);
    var sig := CarrierIsSite(m, [], [], c, op, q);
    LocatedSig(m, c, op, q, sig);
    assert sig in AllSites(m, c);
    RestBelow(m, Rest(c), sig.target, x);
    StripLooksAt(m, sig.at, n, x[|q| - 1..]);
  }

  lemma {:induction false} CarriesExplicit(m: Model, at: seq<string>, kids: seq<Node>, q: Path)
    requires EditFine(m, at, kids) && IsNode(kids, q)
    ensures OwnOp(NodeAt(kids, q)) == NotSet || Explicit(OwnOp(NodeAt(kids, q)))
    decreases q
  {
    hide Addressed, Holder, IsKeyAt, AsksNoPlace;
    var n := kids[q[0]];
    assert NodeFine(m, at, n);
    if |q| > 1 {
      if IsSite(n) {
        OpFreeCarriesNothing(n.kids, q[1..]);
      } else {
        CarriesExplicit(m, at + [n.name], n.kids, q[1..]);
      }
    }
  }

  /** Nothing of the rest is below a target. */
  lemma RestBelow(m: Model, r: seq<Node>, t: seq<Id>, x: seq<Id>)
    requires t != [] && Under(t, x) && Lookup(m, [], r, t).None?
    ensures Lookup(m, [], r, x).None?
  {
    hide Lookup;
    if Lookup(m, [], r, x).Some? {
      LookupPrefix(m, [], r, x, |t|);
    }
  }

  lemma StripLooksAt(m: Model, at: seq<string>, n: Node, x: seq<Id>)
    requires n.Element? && x != []
    ensures StripOp(n).Element? && Lookup(m, at, [StripOp(n)], x) == Lookup(m, at, [n], x)
  {
    LookupOne(m, at, n, x);
    LookupOne(m, at, StripOp(n), x);
  }

  /** Some node with one of the words is there whose instance is below x. */
  ghost predicate AddedBelow(m: Model, c: seq<Node>, x: seq<Id>) {
    exists q :: AddsBelow(m, c, q, x)
  }

  predicate AddsBelow(m: Model, c: seq<Node>, q: Path, x: seq<Id>) {
    IsNode(c, q) && (Says(NodeAt(c, q), "create") || Says(NodeAt(c, q), "replace")) && Under(x, TargetAt(m, c, q))
  }

  predicate Elsewhere(m: Model, c: seq<Node>, q: Path, x: seq<Id>)
    requires IsNode(c, q)
  {
    !SaysOnly(NodeAt(c, q), []) ==> !Under(TargetAt(m, c, q), x)
  }

  /** Every other instance is as it was, or there above something created, and then
      overridden by the rest of the edit. */
  lemma RestSettles(m: Model, f: seq<Node>, c: seq<Node>, g: seq<Node>, x: seq<Id>)
    requires Sensible(m, f, c) && x != [] && Settles(m, f, AllSites(m, c), Rest(c), g, x)
    requires forall q :: IsNode(c, q) ==> Elsewhere(m, c, q, x)
    ensures var old_ := Lookup(m, [], f, x);
      var v := if old_.None? && AddedBelow(m, c, x) then Some(Inner) else old_;
      Lookup(m, [], g, x) == Override(v, JoinedValue(m, x, v, Lookup(m, [], Rest(c), x)))
  {
    hide EditFine, Located, Lookup, Sites, NodeAt, OwnOp, Chain, TargetAt, FitNode, MissingBare, Rooted, NoPlaces, Rest,
      SaysOnly, Says, RestOf, Reachable, Apart, OneRoot, Override, JoinedValue;
    forall s | s in AllSites(m, c)
      ensures !Under(s.target, x)
      ensures Adds(s.op) && Under(x, s.target) ==> AddedBelow(m, c, x)
    {
      var q := SiteCarrier(m, c, s);
      WordsOf(s.node);
      assert Elsewhere(m, c, q, x);
      if Adds(s.op) && Under(x, s.target) {
        assert AddsBelow(m, c, q, x);
      }
    }
    if AddedBelow(m, c, x) {
      var q :| AddsBelow(m, c, q, x);
      var s := AddsSite(m, c, q, x);
      assert s in AllSites(m, c) && Adds(s.op) && Under(x, s.target);
    }
  }

  lemma AddsSite(m: Model, c: seq<Node>, q: Path, x: seq<Id>) returns (s: Sig)
    requires EditFine(m, [], c) && AddsBelow(m, c, q, x)
    ensures s in AllSites(m, c) && Adds(s.op) && Under(x, s.target)
  {
    hide EditFine, Located, Sites, NodeAt, OwnOp, TargetAt;
    WordsOf(NodeAt(c, q));
    s := CarrierIsSite(m, [], [], c, OwnOp(NodeAt(c, q)), q);
    LocatedSig(m, c, OwnOp(NodeAt(c, q)), q, s);
  }

  /** Every target is that of a node which carries its operation. */
  lemma SiteCarrier(m: Model, c: seq<Node>, s: Sig) returns (q: Path)
    requires EditFine(m, [], c) && s in AllSites(m, c)
    ensures IsNode(c, q) && s.node == NodeAt(c, q) && s.node.Element? && s.target == TargetAt(m, c, q)
    ensures OwnOp(s.node) == s.op && Explicit(s.op)
  {
    hide EditFine, Located, Sites, NodeAt, OwnOp, TargetAt;
    var op: Op :| Explicit(op) && s in Sites(m, [], [], c, op);
    var k :| 0 <= k < |Sites(m, [], [], c, op)| && Sites(m, [], [], c, op)[k] == s;
    q := LocatedCarries(m, [], [], c, op, k);
    LocatedSig(m, c, op, q, s);
  }

  // ---- one root

  /** An edit of one root without further operations is sensible whatever word it carries,
      but for merge, and has one target. */
  lemma OneTarget(m: Model, n: Node)
    requires FitNode(m, [], n) && OpFree(n.kids) && Explicit(OwnOp(n)) && AsksNoPlace(m, [NameOf(n)], n)
    ensures n.Element? && EditFine(m, [], [n]) && Rest([n]) == []
    ensures AllSites(m, [n]) == [Sig(OwnOp(n), [IdOf(m, [], n)], [], n)]
  {
    hide IdOf, FitNode, Addressed, OwnOp, AsksNoPlace, UserOrdered, IsKeyAt;
    FitNodeAddressed(m, [], n);
    AddressedIsElement(m, [], n);
    assert [] + [n.name] == [n.name];
    assert [n][1..] == [] && [] + [IdOf(m, [], n)] == [IdOf(m, [], n)];
    assert !IsKeyAt(m, [], n.name) by {
      NoKeyAtTop(m, n.name);
    }
    var sig := Sig(OwnOp(n), [IdOf(m, [], n)], [], n);
    forall op | Explicit(op)
      ensures Sites(m, [], [], [n], op) == if op == OwnOp(n) then [sig] else []
    {
      assert Sites(m, [], [], [n], op) == SitesOf(m, [], [], n, op) + Sites(m, [], [], [], op);
    }
  }

  lemma NoKeyAtTop(m: Model, name: string)
    ensures !IsKeyAt(m, [], name)
  {
  }

  lemma OneSensible(m: Model, f: seq<Node>, n: Node)
    requires FitNode(m, [], n) && OpFree(n.kids) && Explicit(OwnOp(n)) && AsksNoPlace(m, [NameOf(n)], n)
    ensures Sensible(m, f, [n])
  {
    hide FitNode, IdOf, EditFine, AllSites, Rest, OwnOp, Lookup, FitKids;
    OneTarget(m, n);
    StripFits(m, n);
    EmptyLookup(m, [], [IdOf(m, [], n)]);
    NothingFits(m);
  }

  /** The nodes of such an edit: only the root carries an operation. */
  lemma OnlyRootSays(n: Node, q: Path)
    requires n.Element? && OpFree(n.kids) && IsNode([n], q)
    ensures q == [0] || (SaysOnly(NodeAt([n], q), []) && q != [])
    ensures q == [0] ==> NodeAt([n], q) == n && Chain([n], q) == [n]
  {
    hide OwnOp;
    if |q| > 1 {
      OpFreeCarriesNothing(n.kids, q[1..]);
      WordsOf(NodeAt([n], q));
    }
  }

  lemma OneFound(m: Model, f: seq<Node>, n: Node)
    requires FitKids(m, [], f) && FitNode(m, [], n)
    ensures n.Element?
    ensures FindEquiv(m, [], f, [n]).Some? <==> Lookup(m, [], f, [IdOf(m, [], n)]).Some?
  {
    hide FitKids, FitNode, SeekId, FirstMatch, IdOf, Addressed, IsLeafList, ValueOf;
    FitNodeAddressed(m, [], n);
    AddressedIsElement(m, [], n);
    Merge.MatchIsSeek(m, [], f, n);
    assert [] + [n.name] == [n.name] && [n][1..] == [];
  }

  predicate Explicitly(n: Node) {
    Says(n, "delete") || Says(n, "remove") || Says(n, "create") || Says(n, "replace")
  }

  lemma RootCompacts(n: Node, inherited: Op)
    requires n.Element? && OpFree(n.kids) && Explicit(OwnOp(n)) && OwnOp(n) != inherited
    ensures CompactKids([n], inherited) == (true, [n])
  {
    hide OwnOp;
    OpFreeRepeatsNothing(n.kids, OwnOp(n));
    assert NoRepeats([n], inherited);
    NoRepeatsIsCompact([n], inherited);
  }

  /** An edit of one root: with remove and replace it is admitted in every configuration,
      with delete exactly if the root is there, with create exactly if it is not. */
  lemma RootAdmitted(m: Model, f: seq<Node>, n: Node, d: DefOp)
    requires WellKeyed(m) && FitKids(m, [], f) && FitNode(m, [], n) && OpFree(n.kids) && Explicitly(n)
    requires AsksNoPlace(m, [NameOf(n)], n) && (d.DefMerge? || d.DefNotSet?)
    ensures var there := Lookup(m, [], f, [IdOf(m, [], n)]).Some?;
      Admitted(m, f, [n], d) <==> (Says(n, "delete") ==> there) && (Says(n, "create") ==> !there)
    ensures CompactKids([n], Cast(d)) == (true, [n]) && Sensible(m, f, [n])
  {
    hide FitKids, FitNode, IdOf, Lookup, Admitted, Sensible, FindEquiv, CompactKids, AboveSays, OwnOp, AsksNoPlace,
      OpFree;
    WordsOf(n);
    RootCompacts(n, Cast(d));
    OneSensible(m, f, n);
    OneFound(m, f, n);
    AdmittedExactly(m, f, [n], d);
    forall q | IsNode([n], q)
      ensures q == [0] || NodeAdmitted(m, f, [n], q, d)
    {
      OnlyRootSays(n, q);
      if q != [0] {
        WordsOf(NodeAt([n], q));
      }
    }
    OnlyRootSays(n, [0]);
    NothingAbove(n);
  }

  lemma NothingAbove(n: Node)
    ensures IsNode([n], [0]) && forall words :: AboveSays([n], [0], words)
  {
  }

  /** Performed, such an edit leaves nothing of the root with delete and remove, the root as
      in the edit with create and replace, and all other roots as they were. */
  lemma RootSettles(m: Model, f: seq<Node>, n: Node, g: seq<Node>, x: seq<Id>)
    requires FitNode(m, [], n) && OpFree(n.kids) && Explicitly(n) && AsksNoPlace(m, [NameOf(n)], n) && x != []
    requires Settles(m, f, AllSites(m, [n]), Rest([n]), g, x)
    ensures Lookup(m, [], g, x) ==
      if x[0] != IdOf(m, [], n) then Lookup(m, [], f, x)
      else if Says(n, "delete") || Says(n, "remove") then None
      else Lookup(m, [], [n], x)
  {
    hide FitNode, IdOf, Lookup, AllSites, Rest, OwnOp, AsksNoPlace, OpFree, FitKids;
    WordsOf(n);
    OneTarget(m, n);
    var s := Sig(OwnOp(n), [IdOf(m, [], n)], [], n);
    EmptyLookup(m, [], x);
    StripLooks(m, n, x);
    assert x[0..] == x && x[..1] == [x[0]];
    assert Under(s.target, x) <==> x[0] == IdOf(m, [], n);
    assert Under(x, s.target) ==> Under(s.target, x);
    assert s in [s];
  }

  /** The word merge says what default operation merge does anyway. */
  lemma RootMerge(m: Model, f: seq<Node>, n: Node)
    requires FitNode(m, [], n) && OpFree(n.kids) && Says(n, "merge")
    ensures Admitted(m, f, [n], DefMerge) && Admitted(m, f, [StripOp(n)], DefMerge)
    ensures CompactKids([n], Cast(DefMerge)) == (true, [StripOp(n)]) == CompactKids([StripOp(n)], Cast(DefMerge))
  {
    hide FitNode, FindEquiv, AboveSays;
    WordsOf(n);
    AdmittedExactly(m, f, [n], DefMerge);
    AdmittedExactly(m, f, [StripOp(n)], DefMerge);
    forall q | IsNode([n], q)
      ensures NodeAdmitted(m, f, [n], q, DefMerge)
    {
      OnlyRootSays(n, q);
    }
    forall q | IsNode([StripOp(n)], q)
      ensures NodeAdmitted(m, f, [StripOp(n)], q, DefMerge)
    {
      OnlyRootSays(StripOp(n), q);
    }
    MergeDropped(n);
    MergeDropped(StripOp(n));
    assert StripOp(StripOp(n)) == StripOp(n);
  }

  lemma MergeDropped(n: Node)
    requires n.Element? && OpFree(n.kids) && OwnOp(n) in {NotSet, MergeOp}
    ensures CompactKids([n], MergeOp) == (true, [StripOp(n)])
  {
    var r := StripOp(n);
    assert r == Element(n.name, n.attrs - {OPERATION}, n.kids);
    OpFreeRepeatsNothing(n.kids, MergeOp);
    NoRepeatsIsCompact(n.kids, MergeOp);
    assert OwnOp(n) == NotSet ==> n.attrs - {OPERATION} == n.attrs;
    assert CompactKids([], MergeOp) == (true, []) && CompactNode(n, MergeOp) == (true, r);
    assert [r] + [] == [r] && [n][1..] == [];
  }
}
