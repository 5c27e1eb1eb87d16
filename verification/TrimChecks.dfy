/** The check before creates when defaults are trimmed: what it takes out of the
    configuration, and when that leaves the values in effect alone. */
module TrimChecks {
  import opened Xml
  import opened Schema
  import opened Instances
  import opened Equivalents
  import opened Operation
  import opened Targets
  import opened Deletion
  import opened Effects
  import opened MergeMeaning
  import opened Phases
  import opened EditSites
  import opened Prechecks
  import opened Defaults
  import W = WithDefaults

  /** The instance that the edit node at q stands for. */
  function TargetAt(m: Model, e: seq<Node>, q: Path): (r: seq<Id>)
    requires IsNode(e, q) && NodeAt(e, q).Element?
    ensures r != []
  {
    ChainSnoc(e, q);
    Target(m, Chain(e, Parent(q)), NodeAt(e, q))
  }

  lemma {:induction false} IdNames(m: Model, at: seq<string>, chain: seq<Node>)
    requires AllElements(chain)
    ensures NamesOf(IdsOf(m, at, chain)) == Names(chain)
    decreases chain
  {
    hide IdOf;
    if chain != [] {
      NodeId(m, at, chain[0]);
      IdNames(m, at + [chain[0].name], chain[1..]);
      var ids := IdsOf(m, at, chain);
      assert ids[1..] == IdsOf(m, at + [chain[0].name], chain[1..]);
    }
  }

  lemma NodeId(m: Model, at: seq<string>, n: Node)
    requires n.Element?
    ensures IdOf(m, at, n).name == n.name
  {
  }

  lemma {:induction false} NamesOfSnoc(ids: seq<Id>, id: Id)
    ensures NamesOf(ids + [id]) == NamesOf(ids) + [id.name]
  {
    if ids == [] {
      assert [] + [id] == [id] && [id][1..] == [];
    } else {
      assert (ids + [id])[1..] == ids[1..] + [id];
      NamesOfSnoc(ids[1..], id);
    }
  }

  lemma TargetNames(m: Model, e: seq<Node>, q: Path)
    requires IsNode(e, q) && NodeAt(e, q).Element?
    ensures NamesOf(TargetAt(m, e, q)) == Names(Chain(e, q))
  {
    hide IdOf;
    ChainSnoc(e, q);
    var up, n := Chain(e, Parent(q)), NodeAt(e, q);
    IdNames(m, [], up);
    NodeId(m, Names(up), n);
    NamesOfSnoc(IdsOf(m, [], up), IdOf(m, Names(up), n));
    NamesSnoc(up, n);
  }

  lemma NotAboveLeaf(m: Model, t: seq<Id>, x: seq<Id>)
    requires t != [] && W.LeafPath(m, [], x) && |t| < |x| && x[..|t|] == t
    ensures DefaultAt(m, NamesOf(t)).None?
  {
    hide Holder;
    W.AboveLeaf(m, [], x, |t|);
    assert W.Upto(x, |t|) == t && [] + NamesOf(t) == NamesOf(t);
    W.HolderIsNoLeaf(m, NamesOf(t));
  }

  /** Below a leaf there is no leaf. */
  lemma OnlyItself(m: Model, t: seq<Id>, x: seq<Id>)
    requires t != [] && W.LeafPath(m, [], x) && Under(t, x) && DefaultAt(m, NamesOf(t)).Some?
    ensures t == x
  {
    if |t| < |x| {
      NotAboveLeaf(m, t, x);
      assert false;
    }
    assert x[..|x|] == x;
  }

  /** The check of one create: its target is gone, and was not there unless the edit node
      holds its default. */
  lemma TrimStep(m: Model, d: DefOp, f: seq<Node>, e: seq<Node>, q: Path, x: seq<Id>)
    requires WellKeyed(m) && FitKids(m, [], f) && EditFine(m, [], e) && Carries(e, q, CreateOp) && W.LeafPath(m, [], x)
    requires CheckNode(m, Mode.Trim, CreateOp, d, f, e, q).0
    ensures NodeAt(e, q).Element? && x != []
    ensures var (ok, f2, e2) := CheckNode(m, Mode.Trim, CreateOp, d, f, e, q); var t := TargetAt(m, e, q);
      e2 == e && FitKids(m, [], f2) &&
      Lookup(m, [], f2, x) == (if x == t then None else Lookup(m, [], f, x)) &&
      (Lookup(m, [], f, t).Some? ==> HoldsDefault(m, e, q))
  {
    hide EditFine, FitKids, FindEquiv, Located, HierarchyOk, Lookup, RemoveAt, Names, IdsOf, IdOf, Addressed, Passable,
      IsKeyAt, Target, DefaultAt;
    W.LeafPathFromRoot(m, x);
    var sig := CarrierIsLocated(m, [], [], e, CreateOp, q);
    ChainSnoc(e, q);
    var up, n := Chain(e, Parent(q)), NodeAt(e, q);
    LocatedTargeted(m, e, CreateOp, q, sig);
    var t := TargetAt(m, e, q);
    TargetFound(m, f, Act(CreateOp, up, n));
    if FindEquiv(m, [], f, Chain(e, q)).Some? {
      RemoveEffect(m, f, up, n, x);
      TargetNames(m, e, q);
      if Under(t, x) {
        OnlyItself(m, t, x);
      }
      UnderItself(t);
    }
  }

  lemma LocatedTargeted(m: Model, e: seq<Node>, op: Op, q: Path, sig: Sig)
    requires Located(m, [], [], e, op, q, sig)
    ensures IsNode(e, q) && (Parent(q) == [] || IsNode(e, Parent(q)))
    ensures NodeAt(e, q).Element? && AllElements(Chain(e, Parent(q))) && Targeted(m, Chain(e, Parent(q)), NodeAt(e, q))
  {
    hide IdOf, Addressed, IsKeyAt;
    assert [] + Names(Chain(e, Parent(q))) == Names(Chain(e, Parent(q)));
  }

  /** Some create from the i-th on targets x. */
  ghost predicate CreateTargets(m: Model, e: seq<Node>, i: nat, x: seq<Id>) {
    exists k :: i <= k < |OpPaths(e, CreateOp)| && TargetsAt(m, e, OpPaths(e, CreateOp)[k], x)
  }

  predicate TargetsAt(m: Model, e: seq<Node>, q: Path, x: seq<Id>) {
    IsNode(e, q) && NodeAt(e, q).Element? && TargetAt(m, e, q) == x
  }

  lemma TargetsStep(m: Model, e: seq<Node>, i: nat, x: seq<Id>)
    requires i < |OpPaths(e, CreateOp)|
    ensures CreateTargets(m, e, i, x) <==>
      TargetsAt(m, e, OpPaths(e, CreateOp)[i], x) || CreateTargets(m, e, i + 1, x)
  {
    hide OpPaths, TargetsAt;
    if TargetsAt(m, e, OpPaths(e, CreateOp)[i], x) {
      assert i <= i < |OpPaths(e, CreateOp)| && TargetsAt(m, e, OpPaths(e, CreateOp)[i], x);
    }
  }

  lemma {:induction false} TrimFrom(m: Model, d: DefOp, f: seq<Node>, e: seq<Node>, i: nat, x: seq<Id>)
    requires WellKeyed(m) && FitKids(m, [], f) && EditFine(m, [], e) && W.LeafPath(m, [], x)
    requires i <= |OpPaths(e, CreateOp)| && CheckFrom(m, Mode.Trim, CreateOp, d, f, e, i).0
    ensures var (ok, f2, e2) := CheckFrom(m, Mode.Trim, CreateOp, d, f, e, i);
      e2 == e && FitKids(m, [], f2) &&
      Lookup(m, [], f2, x) == (if CreateTargets(m, e, i, x) then None else Lookup(m, [], f, x)) &&
      (CreateTargets(m, e, i, x) && Lookup(m, [], f, x).Some? ==> x != [] && DefaultAt(m, NamesOf(x)).Some?)
    decreases |OpPaths(e, CreateOp)| - i
  {
    hide CheckNode, OpPaths, EditFine, FitKids, Lookup, Carries, CreateTargets, TargetAt, DefaultAt, FindEquiv;
    if i == |OpPaths(e, CreateOp)| {
      NoTargets(m, e, i, x);
    } else {
      OpPathsSound(e, CreateOp, i);
      var q := OpPaths(e, CreateOp)[i];
      CarriesIsNode(e, q, CreateOp);
      TrimStep(m, d, f, e, q, x);
      var (ok, g, e2) := CheckNode(m, Mode.Trim, CreateOp, d, f, e, q);
      TrimFrom(m, d, g, e, i + 1, x);
      TargetsStep(m, e, i, x);
      TargetNames(m, e, q);
    }
  }

  lemma NoTargets(m: Model, e: seq<Node>, i: nat, x: seq<Id>)
    requires i == |OpPaths(e, CreateOp)|
    ensures !CreateTargets(m, e, i, x)
  {
  }

  /** A passed check with trimmed defaults takes the targets of the creates out of the
      configuration and keeps every other leaf. The value in effect changes at a target that
      holds something else than its default, and only there. */
  lemma TrimCheckExact(m: Model, d: DefOp, f: seq<Node>, e: seq<Node>, x: seq<Id>)
    requires WellKeyed(m) && FitKids(m, [], f) && EditFine(m, [], e) && W.LeafPath(m, [], x)
    requires CheckFrom(m, Mode.Trim, CreateOp, d, f, e, 0).0
    ensures x != []
    ensures var (ok, f2, e2) := CheckFrom(m, Mode.Trim, CreateOp, d, f, e, 0);
      e2 == e && FitKids(m, [], f2) &&
      Lookup(m, [], f2, x) == (if CreateTargets(m, e, 0, x) then None else Lookup(m, [], f, x)) &&
      (W.InEffect(m, f2, x) == W.InEffect(m, f, x) <==>
        (CreateTargets(m, e, 0, x) && Lookup(m, [], f, x).Some? ==>
          DefaultAt(m, NamesOf(x)).Some? && Lookup(m, [], f, x) == Some(LeafVal(DefaultAt(m, NamesOf(x)).value))))
  {
    hide FitKids, EditFine, Lookup, CreateTargets, CheckFrom, DefaultAt, W.LeafPath, NamesOf;
    W.LeafPathFromRoot(m, x);
    TrimFrom(m, d, f, e, 0, x);
  }

  /** The check of deletes leaves the configuration alone, however defaults are handled; so
      does the check of creates unless defaults are trimmed. */
  lemma {:induction false} CheckKeepsConfiguration(m: Model, mode: Mode, op: Op, d: DefOp, f: seq<Node>,
      e: seq<Node>, i: nat)
    requires i <= |OpPaths(e, op)| && (op == CreateOp ==> !mode.Trim?)
    ensures CheckFrom(m, mode, op, d, f, e, i).1 == f
    decreases Size(e), |OpPaths(e, op)| - i
  {
    hide OpPaths, HierarchyOk, FindEquiv, HoldsDefault, RemoveAt, Carries;
    if i < |OpPaths(e, op)| {
      OpPathsSound(e, op, i);
      CarriesIsNode(e, OpPaths(e, op)[i], op);
      var (ok, f2, e2) := CheckNode(m, mode, op, d, f, e, OpPaths(e, op)[i]);
      if ok && e2 == e {
        CheckKeepsConfiguration(m, mode, op, d, f, e, i + 1);
      } else if ok && i <= |OpPaths(e2, op)| {
        CheckKeepsConfiguration(m, mode, op, d, f, e2, i);
      }
    }
  }

  lemma NoSiteBelowText(t: string, op: Op)
    ensures OpPaths([Text(t)], op) == [] || op == NotSet
  {
    NoPaths(op);
    assert [Text(t)][1..] == [];
  }

  /** An input on which a value is lost: the leaf holds v, and the edit creates it with its
      default w. */
  lemma TrimCheckTakesValue(m: Model, d: DefOp, a: string, v: string, w: string)
    requires KeysOf(m, a) == [] && KindOf(m, [a]) == Some(Leaf(Some(w))) && v != w
    ensures var f, e := [Element(a, map[], [Text(v)])], [Element(a, map[OPERATION := "create"], [Text(w)])];
      CheckFrom(m, Mode.Trim, CreateOp, d, f, e, 0) == (true, [], e) &&
      W.InEffect(m, f, [Id(a, [])]) == Some(LeafVal(v)) && W.InEffect(m, [], [Id(a, [])]) == Some(LeafVal(w))
  {
    hide KindOf, KeysOf, CheckFrom, CheckNode, FindEquiv, OpPaths, Carries;
    var f, e := [Element(a, map[], [Text(v)])], [Element(a, map[OPERATION := "create"], [Text(w)])];
    assert [] + [a] == [a] && f[1..] == [] && e[1..] == [] && NamesOf([]) == [];
    assert OpPaths(e, CreateOp) == [[0]] by {
      NoSiteBelowText(w, CreateOp);
      NoPaths(CreateOp);
      OpPathsSplit(e, CreateOp);
    }
    TakenNode(m, d, a, f, e, w);
    CheckedLast(m, d, f, e);
    EmptyLookup(m, [], [Id(a, [])]);
    assert [Id(a, [])][1..] == [] && NamesOf([Id(a, [])]) == [a];
  }

  lemma TakenNode(m: Model, d: DefOp, a: string, f: seq<Node>, e: seq<Node>, w: string)
    requires KeysOf(m, a) == [] && KindOf(m, [a]) == Some(Leaf(Some(w)))
    requires |f| == 1 && f[0].Element? && f[0].name == a && e == [Element(a, map[OPERATION := "create"], [Text(w)])]
    ensures CheckNode(m, Mode.Trim, CreateOp, d, f, e, [0]) == (true, [], e)
  {
    hide KindOf, KeysOf, FindEquiv;
    assert Chain(e, [0]) == e && Names(e) == [a];
    TakenFound(m, a, f, e);
    assert HierarchyOk(e, [0], d);
    assert HoldsDefault(m, e, [0]) by {
      OneTextContent(e[0], w);
    }
    assert RemoveAt(f, [0]) == [];
  }

  lemma TakenFound(m: Model, a: string, f: seq<Node>, e: seq<Node>)
    requires KeysOf(m, a) == [] && KindOf(m, [a]).Some? && KindOf(m, [a]).value.Leaf?
    requires |f| == 1 && f[0].Element? && f[0].name == a && |e| == 1 && e[0].Element? && e[0].name == a
    ensures FindEquiv(m, [], f, e) == Some([0])
  {
    hide KindOf, KeysOf;
    assert [] + [a] == [a] && e[1..] == [];
    assert FirstMatch(m, e[0], f, IsLeafList(m, [a])) == Some(0);
    assert FindEquiv(m, [a], f[0].kids, []) == Some([]) && [0] + [] == [0];
  }

  lemma OneTextContent(n: Node, w: string)
    requires n.Element? && n.kids == [Text(w)]
    ensures Content(n) == w
  {
    assert ContentOf([Text(w)]) == Content(Text(w)) + ContentOf([]);
    assert ContentOf([]) == "" && w + "" == w;
  }

  lemma CheckedLast(m: Model, d: DefOp, f: seq<Node>, e: seq<Node>)
    requires OpPaths(e, CreateOp) == [[0]] && IsNode(e, [0])
    requires CheckNode(m, Mode.Trim, CreateOp, d, f, e, [0]) == (true, [], e)
    ensures CheckFrom(m, Mode.Trim, CreateOp, d, f, e, 0) == (true, [], e)
  {
    hide CheckNode, OpPaths;
  }
}
