/** Default operation replace performs none of the operations below the roots of an edit. */
module Replacing {
  import opened Xml
  import opened Schema
  import opened Instances
  import opened Equivalents
  import opened Merge
  import opened MergeMeaning
  import opened Operation
  import opened Compaction
  import opened Deletion
  import opened Creation
  import opened Effects
  import opened EditMerge
  import opened OperationAttributes
  import opened OperationWords
  import opened Editing
  import P = RootPlaces

  /** Every operation below repeats the one in force above. */
  predicate Uniform(kids: seq<Node>, inherited: Op) {
    forall i :: 0 <= i < |kids| ==>
      (OwnOp(kids[i]) == NotSet || OwnOp(kids[i]) == inherited) &&
      (kids[i].Element? ==> Uniform(kids[i].kids, inherited))
  }

  /** Compaction leaves no operation exactly where each repeats what it inherits. */
  lemma {:induction false} CompactedOpFree(kids: seq<Node>, inherited: Op)
    requires CompactKids(kids, inherited).0
    ensures OpFree(CompactKids(kids, inherited).1) <==> Uniform(kids, inherited)
    decreases kids
  {
    hide CompactKids, CompactNode;
    var r := CompactKids(kids, inherited).1;
    forall i | 0 <= i < |kids|
      ensures r[i].Text? || (OPERATION !in r[i].attrs && OpFree(r[i].kids)) <==>
        (OwnOp(kids[i]) == NotSet || OwnOp(kids[i]) == inherited) &&
        (kids[i].Element? ==> Uniform(kids[i].kids, inherited))
    {
      CompactAt(kids, inherited, i);
      NodeCompacted(kids[i], inherited);
      if kids[i].Element? {
        CompactedOpFree(kids[i].kids, InForce(kids[i], inherited));
      }
    }
  }

  lemma NodeCompacted(n: Node, inherited: Op)
    requires CompactNode(n, inherited).0
    ensures n.Text? ==> CompactNode(n, inherited).1 == n
    ensures n.Element? ==>
      var ks := CompactKids(n.kids, InForce(n, inherited)); var r := CompactNode(n, inherited).1;
      ks.0 && r.Element? && r.kids == ks.1 && OwnOp(n) != BadOp &&
      (OPERATION !in r.attrs <==> OwnOp(n) == NotSet || OwnOp(n) == inherited)
  {
    hide CompactKids;
  }

  // ---- roots replaced

  /** The new root goes behind the others, and its equivalent is gone. */
  lemma RootReplacedBy(m: Model, f: seq<Node>, n: Node)
    requires Plain(m) && FitKids(m, [], f) && FitNode(m, [], n)
    ensures n.Element?
    ensures var i := SeekId(m, [], f, IdOf(m, [], n));
      ReplaceRoot(m, f, n) == (if i.Some? then Without(f, i.value) else f) + [StripOp(n)]
  {
    hide FitKids, FitNode, IdOf, SeekId, FirstMatch, ChoiceClean, IsLeafList;
    FitNodeAddressed(m, [], n);
    AddressedIsElement(m, [], n);
    MatchIsSeek(m, [], f, n);
    assert [n][1..] == [] && [] + [n.name] == [n.name];
    FirstRoot(m, f, [n]);
    var found := FindEquiv(m, [], f, [n]);
    var g := if found.Some? then RemoveAt(f, found.value) else f;
    assert found.Some? ==> Parent(found.value) == [] && g == Without(f, found.value[0]);
    CleanIsIdentity(m, [], g, n.name);
    assert CreateParents(m, g, []) == (g, []);
  }

  lemma RestStays(m: Model, f: seq<Node>, n: Node, k: Node)
    requires Plain(m) && FitKids(m, [], f) && FitNode(m, [], n) && n.Element?
    ensures StripOp(n) in ReplaceRoot(m, f, n)
    ensures k in ReplaceRoot(m, f, n) ==> k == StripOp(n) || k in f
    ensures k.Element? && IdOf(m, [], k) != IdOf(m, [], n) && k in f ==> k in ReplaceRoot(m, f, n)
  {
    hide FitKids, FitNode, IdOf, ReplaceRoot;
    RootReplacedBy(m, f, n);
    var i := SeekId(m, [], f, IdOf(m, [], n));
    if k in f && i.Some? && k != f[i.value] {
      var j :| 0 <= j < |f| && f[j] == k;
      assert Without(f, i.value)[if j < i.value then j else j - 1] == k;
    }
  }

  /** The edit has no root that stands for the same instance. */
  predicate OtherRoot(m: Model, c: seq<Node>, k: Node) {
    k.Element? && forall i :: 0 <= i < |c| && c[i].Element? ==> IdOf(m, [], c[i]) != IdOf(m, [], k)
  }

  /** Every root of the edit ends up in the configuration as it is but for its own
      operation, and every other root was there before. */
  lemma {:induction false} RootsReplaced(m: Model, f: seq<Node>, c: seq<Node>, k: Node)
    requires Plain(m) && FitKids(m, [], f) && FitKids(m, [], c)
    ensures k in ReplaceRoots(m, f, c) ==> k in f || exists i :: 0 <= i < |c| && k == StripOp(c[i])
    ensures forall i :: 0 <= i < |c| ==> StripOp(c[i]) in ReplaceRoots(m, f, c)
    ensures k in f && OtherRoot(m, c, k) ==> k in ReplaceRoots(m, f, c)
    decreases c
  {
    hide FitKids, FitNode, IdOf, ReplaceRoot, Lookup;
    if c != [] {
      var n := c[0];
      assert c == [n] + c[1..];
      TailFits(m, [], c);
      FitNodeAddressed(m, [], n);
      AddressedIsElement(m, [], n);
      RootReplaced(m, f, n, [Id("", [])]);
      RestStays(m, f, n, k);
      RestStays(m, f, n, StripOp(n));
      var g := ReplaceRoot(m, f, n);
      RootsReplaced(m, g, c[1..], k);
      StripSame(m, [], n);
      FirstIsOther(m, c);
      RootsReplaced(m, g, c[1..], StripOp(n));
      assert forall i :: 0 < i < |c| ==> c[i] == c[1..][i - 1];
    }
  }

  lemma FirstIsOther(m: Model, c: seq<Node>)
    requires FitKids(m, [], c) && c != []
    ensures c[0].Element?
    ensures forall i :: 0 < i < |c| ==> c[i].Element? && IdOf(m, [], c[i]) != IdOf(m, [], c[0])
  {
    hide IdOf, FitNode;
    forall i | 0 <= i < |c|
      ensures c[i].Element?
    {
      FitNodeAddressed(m, [], c[i]);
      AddressedIsElement(m, [], c[i]);
    }
  }

  /** With default operation replace the configuration stays free of operation attributes
      exactly if every operation below a root of the edit repeats the one in force there:
      any other stays in the configuration. */
  lemma ReplacingExactly(m: Model, f: seq<Node>, e: seq<Node>)
    requires Plain(m) && FitKids(m, [], f) && FitKids(m, [], e) && OpFree(f) && CompactKids(e, ReplaceOp).0
    ensures OpFree(ReplaceRoots(m, f, CompactKids(e, ReplaceOp).1)) <==>
      forall i :: 0 <= i < |e| && e[i].Element? ==> Uniform(e[i].kids, InForce(e[i], ReplaceOp))
  {
    hide FitKids, ReplaceRoots, CompactKids, Uniform, OpFree;
    var c := CompactKids(e, ReplaceOp).1;
    var r := ReplaceRoots(m, f, c);
    CompactedSays(m, e, ReplaceOp, [Id("", [])]);
    forall i | 0 <= i < |e|
      ensures e[i].Element? && c[i].Element?
      ensures OpFree(c[i].kids) <==> Uniform(e[i].kids, InForce(e[i], ReplaceOp))
    {
      CompactAt(e, ReplaceOp, i);
      FitElement(m, e, i);
      NodeCompacted(e[i], ReplaceOp);
      CompactedOpFree(e[i].kids, InForce(e[i], ReplaceOp));
    }
    if OpFree(r) {
      forall i | 0 <= i < |e|
        ensures OpFree(c[i].kids)
      {
        RootsReplaced(m, f, c, StripOp(c[i]));
        var j :| 0 <= j < |r| && r[j] == StripOp(c[i]);
        OneOpFree(r, j);
      }
    }
    if forall i :: 0 <= i < |e| ==> OpFree(c[i].kids) {
      forall j | 0 <= j < |r|
        ensures r[j].Text? || (OPERATION !in r[j].attrs && OpFree(r[j].kids))
      {
        RootsReplaced(m, f, c, r[j]);
        if r[j] in f {
          var i :| 0 <= i < |f| && f[i] == r[j];
          OneOpFree(f, i);
        }
      }
      AllOpFree(r);
    }
  }

  lemma AllOpFree(kids: seq<Node>)
    requires forall j :: 0 <= j < |kids| ==> kids[j].Text? || (OPERATION !in kids[j].attrs && OpFree(kids[j].kids))
    ensures OpFree(kids)
  {
  }

  lemma FitElement(m: Model, e: seq<Node>, i: nat)
    requires FitKids(m, [], e) && i < |e|
    ensures e[i].Element?
  {
    FitNodeAddressed(m, [], e[i]);
    AddressedIsElement(m, [], e[i]);
  }

  /** An input: an entry that the edit removes is created instead, in an empty configuration,
      and keeps its operation attribute. */
  lemma RemovedIsCreated(m: Model, a: string, b: string, w: string)
    requires m.top == [Stmt(Container(false), a, [Stmt(LeafList(true), b, [])])]
    ensures var e := [Element(a, map[], [Element(b, map["operation" := "remove"], [Text(w)])])];
      WellKeyed(m) && FitKids(m, [], e) && Admitted(m, [], e, DefReplace) &&
      CompactKids(e, ReplaceOp) == (true, e) && ReplaceRoots(m, [], e) == e
  {
    var n := Element(b, map["operation" := "remove"], [Text(w)]);
    var root := Element(a, map[], [n]);
    P.DefinedEntries(m, a, b);
    hide KindOf, KeyStmts, FindModel, FitKids, FindEquiv, ReplaceRoot, CompactKids;
    P.EntryFits(m, a, b, n);
    RemoveAdmitted(m, a, b, w);
    NothingRepeats(n, root);
    assert ChoiceFree(m.top) by {
      assert ChoiceFree(m.top[0].kids[0].kids) && ChoiceFree(m.top[0].kids);
    }
    NoRepeatsIsCompact([root], ReplaceOp);
    NothingFits(m);
    OneRootFits(m, root);
    RootReplacedBy(m, [], root);
    assert StripOp(root) == root && [] + [root] == [root] && [root][1..] == [];
    assert ReplaceRoots(m, [], [root]) == ReplaceRoots(m, [root], []);
  }

  lemma NothingRepeats(n: Node, root: Node)
    requires n.Element? && Says(n, "remove") && OpFree(n.kids) && root.Element? && root.kids == [n]
    requires SaysOnly(root, [])
    ensures NoRepeats([root], ReplaceOp)
  {
    WordsOf(n);
    WordsOf(root);
    OpFreeRepeatsNothing(n.kids, RemoveOp);
    assert NoRepeats([n], ReplaceOp);
  }

  lemma OneRootFits(m: Model, n: Node)
    requires FitKids(m, [], [n])
    ensures FitNode(m, [], n)
  {
    assert FitNode(m, [], [n][0]);
  }

  lemma RemoveAdmitted(m: Model, a: string, b: string, w: string)
    ensures Admitted(m, [], [Element(a, map[], [Element(b, map["operation" := "remove"], [Text(w)])])], DefReplace)
  {
    hide FindEquiv, AboveSays;
    var n := Element(b, map["operation" := "remove"], [Text(w)]);
    var root := Element(a, map[], [n]);
    AdmittedExactly(m, [], [root], DefReplace);
    forall q | IsNode([root], q)
      ensures NodeAdmitted(m, [], [root], q, DefReplace)
    {
      OneBelow(root, q);
      if |q| > 1 {
        OneBelow(n, q[1..]);
        if |q| > 2 {
          OneBelow(Text(w), q[1..][1..]);
        }
      }
      assert NodeAt([root], q) in [root, n, Text(w)];
    }
  }

  lemma OneBelow(n: Node, q: Path)
    requires IsNode([n], q)
    ensures |q| == 1 ==> NodeAt([n], q) == n
    ensures |q| > 1 ==> n.Element? && IsNode(n.kids, q[1..]) && NodeAt([n], q) == NodeAt(n.kids, q[1..])
  {
  }
}
