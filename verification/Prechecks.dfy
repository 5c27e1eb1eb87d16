/** The checks made before an edit is performed: what is deleted must be there, what is
    created must not, and operations must not contradict those above them. */
module Prechecks {
  import opened Xml
  import opened Schema
  import opened Instances
  import opened Equivalents
  import opened MergeMeaning
  import opened Operation
  import opened Targets
  import opened Deletion
  import opened Effects
  import opened Phases
  import opened EditSites
  import opened EditMerge
  import opened EditPhases

  /** How the server treats default values. */
  datatype Mode = ReportAll | Trim | ExplicitOnly

  /** The nodes with operation op in document order. */
  function OpPaths(kids: seq<Node>, op: Op): seq<Path> {
    if kids == [] then []
    else
      (if OwnOp(kids[0]) == op then [[0]] else [])
      + (if kids[0].Element? then Lowered(OpPaths(kids[0].kids, op)) else [])
      + Shifted(OpPaths(kids[1..], op))
  }

  function Lowered(ps: seq<Path>): (r: seq<Path>)
    ensures |r| == |ps| && forall i :: 0 <= i < |ps| ==> r[i] == [0] + ps[i]
  {
    if ps == [] then [] else [[0] + ps[0]] + Lowered(ps[1..])
  }

  function Shifted(ps: seq<Path>): (r: seq<Path>)
    ensures |r| == |ps| && forall i :: 0 <= i < |ps| ==> ps[i] != [] ==> r[i] == Shift(ps[i])
  {
    if ps == [] then [] else [if ps[0] == [] then [] else Shift(ps[0])] + Shifted(ps[1..])
  }

  predicate Carries(kids: seq<Node>, q: Path, op: Op) {
    IsNode(kids, q) && OwnOp(NodeAt(kids, q)) == op
  }

  lemma CarriesBelow(kids: seq<Node>, r: Path, op: Op)
    requires kids != [] && kids[0].Element?
    ensures r != [] ==> (Carries(kids, [0] + r, op) <==> Carries(kids[0].kids, r, op))
  {
    assert ([0] + r)[1..] == r;
  }

  lemma CarriesShift(kids: seq<Node>, r: Path, op: Op)
    requires kids != [] && r != []
    ensures Carries(kids, Shift(r), op) <==> Carries(kids[1..], r, op)
  {
    assert Shift(r)[1..] == r[1..];
    assert r[0] < |kids[1..]| ==> kids[r[0] + 1] == kids[1..][r[0]];
  }

  lemma CarriesHere(kids: seq<Node>, op: Op)
    requires kids != []
    ensures Carries(kids, [0], op) <==> OwnOp(kids[0]) == op
  {
  }

  lemma CarriesNode(kids: seq<Node>, q: Path, op: Op)
    requires Carries(kids, q, op)
    ensures q != [] && kids != [] && q[0] < |kids| && (|q| > 1 ==> kids[q[0]].Element?)
  {
  }

  /** The paths to a first node that carries the operation, to those below it, and to those
      after it. */
  function OwnPath(n: Node, op: Op): seq<Path> {
    if OwnOp(n) == op then [[0]] else []
  }

  function PathsBelow(n: Node, op: Op): seq<Path> {
    if n.Element? then OpPaths(n.kids, op) else []
  }

  lemma NoPaths(op: Op)
    ensures OpPaths([], op) == []
  {
  }

  lemma OwnPathIs(n: Node, op: Op)
    ensures OwnPath(n, op) == if OwnOp(n) == op then [[0]] else []
  {
  }

  lemma OpPathsSplit(kids: seq<Node>, op: Op)
    requires kids != []
    ensures OpPaths(kids, op) == OwnPath(kids[0], op) + Lowered(PathsBelow(kids[0], op)) +
      Shifted(OpPaths(kids[1..], op))
  {
    assert Lowered([]) == [];
  }

  /** The list is exact: it holds the nodes that carry the operation, and only them. */
  lemma {:induction false} OpPathsSound(kids: seq<Node>, op: Op, i: nat)
    requires i < |OpPaths(kids, op)|
    ensures Carries(kids, OpPaths(kids, op)[i], op)
    decreases kids
  {
    hide Carries, OpPaths, OwnPath;
    NoPaths(op);
    if kids != [] {
      OpPathsSplit(kids, op);
      var a, b, c := OwnPath(kids[0], op), PathsBelow(kids[0], op), OpPaths(kids[1..], op);
      if i < |a| {
        OwnPathIs(kids[0], op);
        CarriesHere(kids, op);
      } else if i < |a| + |b| {
        OpPathsSound(kids[0].kids, op, i - |a|);
        CarriesNode(kids[0].kids, b[i - |a|], op);
        CarriesBelow(kids, b[i - |a|], op);
      } else {
        var k := i - |a| - |b|;
        OpPathsSound(kids[1..], op, k);
        CarriesNode(kids[1..], c[k], op);
        CarriesShift(kids, c[k], op);
      }
    }
  }

  lemma {:induction false} OpPathsComplete(kids: seq<Node>, op: Op, q: Path)
    requires Carries(kids, q, op)
    ensures q in OpPaths(kids, op)
    decreases kids
  {
    hide Carries, OpPaths;
    CarriesNode(kids, q, op);
    OpPathsSplit(kids, op);
    if q == [0] {
      CarriesHere(kids, op);
      OwnPathIs(kids[0], op);
      assert OwnPath(kids[0], op)[0] == q;
    } else if q[0] == 0 {
      assert q == [0] + q[1..];
      CarriesBelow(kids, q[1..], op);
      OpPathsComplete(kids[0].kids, op, q[1..]);
      LoweredHas(PathsBelow(kids[0], op), q[1..]);
    } else {
      var r: Path := [q[0] - 1] + q[1..];
      assert q == Shift(r);
      CarriesShift(kids, r, op);
      OpPathsComplete(kids[1..], op, r);
      ShiftedHas(OpPaths(kids[1..], op), r);
    }
  }

  lemma LoweredHas(ps: seq<Path>, r: Path)
    requires r in ps
    ensures [0] + r in Lowered(ps)
  {
    var i :| 0 <= i < |ps| && ps[i] == r;
    assert Lowered(ps)[i] == [0] + r;
  }

  lemma ShiftedHas(ps: seq<Path>, r: Path)
    requires r in ps && r != []
    ensures Shift(r) in Shifted(ps)
  {
    var i :| 0 <= i < |ps| && ps[i] == r;
    assert Shifted(ps)[i] == Shift(r);
  }

  // ---- one node

  predicate Deletes(op: Op) {
    op.DeleteOp? || op.RemoveOp?
  }

  /** Below a node with operation above, a node with operation op makes sense. */
  predicate Agrees(op: Op, above: Op) {
    above != BadOp && !(Deletes(op) && Adds(above)) && !(Adds(op) && Deletes(above))
  }

  lemma {:induction false} UpperIsNode(kids: seq<Node>, q: Path, j: nat)
    requires IsNode(kids, q) && 0 < j <= |q|
    ensures IsNode(kids, q[..j])
    decreases q
  {
    if j > 1 {
      UpperIsNode(kids[q[0]].kids, q[1..], j - 1);
      assert q[..j][1..] == q[1..][..j - 1];
    }
  }

  /** The operation of the node j levels below the root on the way to q. */
  function OpAbove(kids: seq<Node>, q: Path, j: nat): Op
    requires IsNode(kids, q) && 0 < j <= |q|
  {
    UpperIsNode(kids, q, j);
    OwnOp(NodeAt(kids, q[..j]))
  }

  /** The operation of the node at q fits the default operation and those of its ancestors. */
  predicate HierarchyOk(kids: seq<Node>, q: Path, d: DefOp)
    requires IsNode(kids, q)
  {
    var op := OwnOp(NodeAt(kids, q));
    op == NotSet ||
    (op != BadOp && !(Deletes(op) && d.DefReplace?) &&
     (Deletes(op) || Adds(op) ==> forall j :: 0 < j < |q| ==> Agrees(op, OpAbove(kids, q, j))))
  }

  /** Goes up from the node at q to the root. */
  method CheckHierarchy(kids: seq<Node>, q: Path, d: DefOp) returns (ok: bool)
    requires IsNode(kids, q)
    ensures ok == HierarchyOk(kids, q, d)
  {
    hide NodeAt, OwnOp;
    var op := OwnOp(NodeAt(kids, q));
    if op == NotSet {
      return true;
    }
    if op == BadOp || (Deletes(op) && d.DefReplace?) {
      return false;
    }
    if Deletes(op) || Adds(op) {
      var j := |q| - 1;
      while j > 0
        invariant 0 <= j < |q|
        invariant forall k :: j < k < |q| ==> Agrees(op, OpAbove(kids, q, k))
      {
        if !Agrees(op, OpAbove(kids, q, j)) {
          return false;
        }
        j := j - 1;
      }
    }
    return true;
  }

  predicate HoldsDefault(m: Model, edit: seq<Node>, q: Path)
    requires IsNode(edit, q)
  {
    DefaultAt(m, Names(Chain(edit, q))) == Some(Content(NodeAt(edit, q)))
  }

  /** The documents after the check of the node at q, and whether it passes. A missing node
      with its default value need not be deleted when defaults are reported; an existing one
      is replaced by its default when defaults are trimmed. */
  function CheckNode(m: Model, mode: Mode, op: Op, d: DefOp, f: seq<Node>, e: seq<Node>, q: Path):
    (r: (bool, seq<Node>, seq<Node>))
    requires IsNode(e, q)
    ensures r.2 == e || Size(r.2) < Size(e)
  {
    var found := FindEquiv(m, [], f, Chain(e, q));
    if !HierarchyOk(e, q, d) then (false, f, e)
    else if op == DeleteOp && found.None? then
      if mode.ReportAll? && HoldsDefault(m, e, q) then (true, f, RemoveAt(e, q)) else (false, f, e)
    else if op == CreateOp && found.Some? then
      if mode.Trim? && HoldsDefault(m, e, q) then (true, RemoveAt(f, found.value), e) else (false, f, e)
    else (true, f, e)
  }

  /** The check of the nodes with operation op from the i-th on. A node that is taken out of
      the edit makes room for the next. */
  function CheckFrom(m: Model, mode: Mode, op: Op, d: DefOp, f: seq<Node>, e: seq<Node>, i: nat):
    (bool, seq<Node>, seq<Node>)
    requires i <= |OpPaths(e, op)|
    decreases Size(e), |OpPaths(e, op)| - i
  {
    if i == |OpPaths(e, op)| then (true, f, e)
    else
      OpPathsSound(e, op, i);
      var (ok, f2, e2) := CheckNode(m, mode, op, d, f, e, OpPaths(e, op)[i]);
      if !ok then (false, f2, e2)
      else if e2 == e then CheckFrom(m, mode, op, d, f2, e, i + 1)
      else if i <= |OpPaths(e2, op)| then CheckFrom(m, mode, op, d, f2, e2, i)
      else (true, f2, e2)
  }

  /** Checks one node and adjusts the documents where default values allow it. */
  method CheckSite(m: Model, mode: Mode, op: Op, d: DefOp, orig: Document, edit: Document, q: Path) returns (ok: bool)
    requires orig != edit && IsNode(edit.roots, q)
    modifies orig, edit
    ensures (ok, orig.roots, edit.roots) == CheckNode(m, mode, op, d, old(orig.roots), old(edit.roots), q)
  {
    hide FindEquiv, HierarchyOk, HoldsDefault, SetKids, KidsAt;
    ok := CheckHierarchy(edit.roots, q, d);
    if !ok {
      return;
    }
    var found := FindElementEquiv(m, orig.roots, edit.roots, q);
    if op == DeleteOp && found.None? {
      if mode.ReportAll? && HoldsDefault(m, edit.roots, q) {
        NodeInParent(edit.roots, q);
        edit.Unlink(Parent(q), Last(q));
      } else {
        ok := false;
      }
    } else if op == CreateOp && found.Some? {
      if mode.Trim? && HoldsDefault(m, edit.roots, q) {
        NodeInParent(orig.roots, found.value);
        orig.Unlink(Parent(found.value), Last(found.value));
      } else {
        ok := false;
      }
    }
  }

  /** Checks all nodes with an operation, in document order. */
  method CheckEditOps(m: Model, mode: Mode, op: Op, d: DefOp, orig: Document, edit: Document) returns (ok: bool)
    requires orig != edit
    modifies orig, edit
    ensures (ok, orig.roots, edit.roots) == CheckFrom(m, mode, op, d, old(orig.roots), old(edit.roots), 0)
  {
    hide CheckNode, OpPaths;
    ok := true;
    var i: nat := 0;
    while i < |OpPaths(edit.roots, op)|
      invariant i <= |OpPaths(edit.roots, op)| ==>
        CheckFrom(m, mode, op, d, old(orig.roots), old(edit.roots), 0) ==
          CheckFrom(m, mode, op, d, orig.roots, edit.roots, i)
      invariant i > |OpPaths(edit.roots, op)| ==>
        CheckFrom(m, mode, op, d, old(orig.roots), old(edit.roots), 0) == (true, orig.roots, edit.roots)
      decreases Size(edit.roots), |OpPaths(edit.roots, op)| - i
    {
      ghost var e := edit.roots;
      OpPathsSound(edit.roots, op, i);
      CarriesIsNode(edit.roots, OpPaths(edit.roots, op)[i], op);
      var before := edit.roots;
      ok := CheckSite(m, mode, op, d, orig, edit, OpPaths(edit.roots, op)[i]);
      if !ok {
        return;
      }
      if edit.roots == before {
        i := i + 1;
      }
    }
  }

  lemma CarriesIsNode(kids: seq<Node>, q: Path, op: Op)
    requires Carries(kids, q, op)
    ensures IsNode(kids, q) && OwnOp(NodeAt(kids, q)) == op
  {
  }

  // ---- what a passed check means

  /** The node at q passes by itself: the hierarchy is in order, a delete finds something,
      a create does not. */
  predicate Passes(m: Model, f: seq<Node>, e: seq<Node>, q: Path, op: Op, d: DefOp)
    requires IsNode(e, q)
  {
    HierarchyOk(e, q, d) && Answers(m, f, e, q, op)
  }

  predicate Answers(m: Model, f: seq<Node>, e: seq<Node>, q: Path, op: Op)
    requires IsNode(e, q)
  {
    (op == DeleteOp ==> FindEquiv(m, [], f, Chain(e, q)).Some?) &&
    (op == CreateOp ==> FindEquiv(m, [], f, Chain(e, q)).None?)
  }

  ghost predicate AllAnswer(m: Model, f: seq<Node>, e: seq<Node>, op: Op) {
    forall q :: Carries(e, q, op) ==> Answers(m, f, e, q, op)
  }

  ghost predicate AllPass(m: Model, f: seq<Node>, e: seq<Node>, op: Op, d: DefOp) {
    forall q :: Carries(e, q, op) ==> Passes(m, f, e, q, op, d)
  }

  lemma PassedAnswer(m: Model, f: seq<Node>, e: seq<Node>, op: Op, d: DefOp)
    requires AllPass(m, f, e, op, d)
    ensures AllAnswer(m, f, e, op)
  {
    hide Carries, Answers, HierarchyOk;
  }

  lemma ExplicitNode(m: Model, op: Op, d: DefOp, f: seq<Node>, e: seq<Node>, q: Path)
    requires IsNode(e, q)
    ensures CheckNode(m, ExplicitOnly, op, d, f, e, q) == (Passes(m, f, e, q, op, d), f, e)
  {
    hide FindEquiv, HierarchyOk, HoldsDefault, RemoveAt;
  }

  lemma {:induction false} ExplicitFrom(m: Model, op: Op, d: DefOp, f: seq<Node>, e: seq<Node>, i: nat)
    requires i <= |OpPaths(e, op)|
    ensures var (ok, f2, e2) := CheckFrom(m, ExplicitOnly, op, d, f, e, i);
      f2 == f && e2 == e &&
      (ok <==> forall k :: i <= k < |OpPaths(e, op)| ==>
        Carries(e, OpPaths(e, op)[k], op) && Passes(m, f, e, OpPaths(e, op)[k], op, d))
    decreases |OpPaths(e, op)| - i
  {
    hide CheckNode, Passes, Carries, OpPaths;
    if i < |OpPaths(e, op)| {
      OpPathsSound(e, op, i);
      CarriesIsNode(e, OpPaths(e, op)[i], op);
      ExplicitNode(m, op, d, f, e, OpPaths(e, op)[i]);
      ExplicitFrom(m, op, d, f, e, i + 1);
    }
  }

  /** When defaults are handled explicitly, the check changes neither document, and passes
      exactly if every node with the operation passes. */
  lemma ExplicitCheck(m: Model, op: Op, d: DefOp, f: seq<Node>, e: seq<Node>)
    ensures var (ok, f2, e2) := CheckFrom(m, ExplicitOnly, op, d, f, e, 0);
      f2 == f && e2 == e && (ok <==> AllPass(m, f, e, op, d))
  {
    hide Passes, OpPaths, CheckFrom, Carries;
    ExplicitFrom(m, op, d, f, e, 0);
    forall q | Carries(e, q, op)
      ensures q in OpPaths(e, op)
    {
      OpPathsComplete(e, op, q);
    }
    forall i | 0 <= i < |OpPaths(e, op)|
      ensures Carries(e, OpPaths(e, op)[i], op)
    {
      OpPathsSound(e, op, i);
    }
  }

  /** A passed check keeps deletes out of creates and replaces, and creates out of deletes
      and removes. */
  lemma NoContradiction(m: Model, f: seq<Node>, e: seq<Node>, d: DefOp, q: Path, j: nat)
    requires AllPass(m, f, e, DeleteOp, d) && AllPass(m, f, e, CreateOp, d)
    requires IsNode(e, q) && 0 < j < |q|
    ensures OwnOp(NodeAt(e, q)) == DeleteOp ==> !Adds(OpAbove(e, q, j)) && !d.DefReplace?
    ensures OwnOp(NodeAt(e, q)) == CreateOp ==> !Deletes(OpAbove(e, q, j))
  {
    hide NodeAt, FindEquiv;
    if OwnOp(NodeAt(e, q)) == DeleteOp {
      assert Carries(e, q, DeleteOp);
    }
    if OwnOp(NodeAt(e, q)) == CreateOp {
      assert Carries(e, q, CreateOp);
    }
  }

  // ---- checked edits and the phases

  /** Every target of a phase is the target of a node that carries the operation. */
  lemma {:induction false} SiteIsLocated(m: Model, at: seq<string>, up: seq<Id>, kids: seq<Node>, op: Op, k: nat)
      returns (q: Path)
    requires EditFine(m, at, kids) && Explicit(op) && k < |Sites(m, at, up, kids, op)|
    ensures Located(m, at, up, kids, op, q, Sites(m, at, up, kids, op)[k])
    decreases kids
  {
    hide IdOf, Addressed, Holder, IsKeyAt, Located;
    assert kids == [kids[0]] + kids[1..];
    FineSplit(m, at, kids[0], kids[1..]);
    var n, here, rest := kids[0], SitesOf(m, at, up, kids[0], op), Sites(m, at, up, kids[1..], op);
    if k >= |here| {
      var r := SiteIsLocated(m, at, up, kids[1..], op, k - |here|);
      LocatedIsNode(m, at, up, kids[1..], op, r, rest[k - |here|]);
      LocatedAfter(m, at, up, kids, op, r, rest[k - |here|]);
      q := Shift(r);
    } else if OwnOp(n) == op {
      LocatedHere(m, at, up, kids, op);
      q := [0];
    } else {
      FineBelow(m, at, n);
      var r := SiteIsLocated(m, at + [n.name], up + [IdOf(m, at, n)], n.kids, op, k);
      if FirstSite(n.kids, op).None? {
        NoSites(m, at + [n.name], up + [IdOf(m, at, n)], n.kids, op);
      }
      HasSiteThen(n.kids, op);
      LocatedBelow(m, at, up, kids, op, r, here[k]);
      q := [0] + r;
    }
  }

  lemma {:induction false} OpFreeCarriesNothing(kids: seq<Node>, q: Path)
    requires OpFree(kids) && IsNode(kids, q)
    ensures OwnOp(NodeAt(kids, q)) == NotSet
    decreases q
  {
    if |q| > 1 {
      OpFreeCarriesNothing(kids[q[0]].kids, q[1..]);
    }
  }

  /** Every node that carries an operation is named by passable ancestors. */
  lemma {:induction false} CarrierIsLocated(m: Model, at: seq<string>, up: seq<Id>, kids: seq<Node>, op: Op, q: Path)
      returns (sig: Sig)
    requires EditFine(m, at, kids) && Explicit(op) && Carries(kids, q, op)
    ensures Located(m, at, up, kids, op, q, sig)
    decreases kids
  {
    hide IdOf, Addressed, Holder, IsKeyAt, Located;
    assert kids == [kids[0]] + kids[1..];
    FineSplit(m, at, kids[0], kids[1..]);
    var n := kids[0];
    if q[0] > 0 {
      var r: Path := [q[0] - 1] + q[1..];
      assert q == Shift(r);
      CarriesShift(kids, r, op);
      sig := CarrierIsLocated(m, at, up, kids[1..], op, r);
      LocatedAfter(m, at, up, kids, op, r, sig);
    } else if |q| == 1 {
      assert q == [0];
      LocatedHere(m, at, up, kids, op);
      sig := Sig(op, up + [IdOf(m, at, n)], at, n);
    } else {
      assert q == [0] + q[1..];
      CarriesBelow(kids, q[1..], op);
      if IsSite(n) {
        OpFreeCarriesNothing(n.kids, q[1..]);
        assert false;
      }
      CarrierHasSite(n.kids, q[1..], op);
      sig := CarrierIsLocated(m, at + [n.name], up + [IdOf(m, at, n)], n.kids, op, q[1..]);
      LocatedBelow(m, at, up, kids, op, q[1..], sig);
    }
  }

  lemma {:induction false} CarrierHasSite(kids: seq<Node>, q: Path, op: Op)
    requires Carries(kids, q, op) && Explicit(op)
    ensures HasSite(kids)
    decreases q
  {
    if |q| > 1 {
      CarrierHasSite(kids[q[0]].kids, q[1..], op);
    }
  }

  lemma LocatedIsNode(m: Model, at: seq<string>, up: seq<Id>, kids: seq<Node>, op: Op, q: Path, sig: Sig)
    requires Located(m, at, up, kids, op, q, sig)
    ensures q != [] && IsNode(kids, q)
  {
  }

  /** What the checks say about the target of a node. */
  lemma CheckedTarget(m: Model, f: seq<Node>, e: seq<Node>, op: Op, q: Path, sig: Sig)
    requires WellKeyed(m) && FitKids(m, [], f) && Located(m, [], [], e, op, q, sig)
    requires OwnOp(NodeAt(e, q)) == op && Answers(m, f, e, q, op)
    ensures op == DeleteOp ==> Lookup(m, [], f, sig.target).Some?
    ensures op == CreateOp ==> Lookup(m, [], f, sig.target).None?
    ensures |sig.target| == |sig.at| + 1 && sig.op == op
  {
    hide FindEquiv, IdOf, IdsOf, FitKids, Addressed, IsKeyAt, Passable, Lookup;
    ChainSnoc(e, q);
    var chain, n := Chain(e, Parent(q)), NodeAt(e, q);
    assert [] + Names(chain) == Names(chain);
    var t := Target(m, chain, n);
    assert [] + t == t;
    TargetFound(m, f, Act(op, chain, n));
  }

  lemma {:induction false} LocatedCarries(m: Model, at: seq<string>, up: seq<Id>, kids: seq<Node>, op: Op, k: nat)
      returns (q: Path)
    requires EditFine(m, at, kids) && Explicit(op) && k < |Sites(m, at, up, kids, op)|
    ensures Carries(kids, q, op) && Located(m, at, up, kids, op, q, Sites(m, at, up, kids, op)[k])
  {
    hide EditFine, Located, IdOf;
    q := SiteIsLocated(m, at, up, kids, op, k);
    SiteNodeHasOp(m, at, up, kids, op, k);
    LocatedMeans(m, at, up, kids, op, q, Sites(m, at, up, kids, op)[k]);
  }

  lemma LocatedMeans(m: Model, at: seq<string>, up: seq<Id>, kids: seq<Node>, op: Op, q: Path, sig: Sig)
    requires Located(m, at, up, kids, op, q, sig)
    ensures IsNode(kids, q) && sig.node == NodeAt(kids, q) && sig.op == op
  {
  }

  lemma {:induction false} SiteNodeHasOp(m: Model, at: seq<string>, up: seq<Id>, kids: seq<Node>, op: Op, k: nat)
    requires k < |Sites(m, at, up, kids, op)|
    ensures OwnOp(Sites(m, at, up, kids, op)[k].node) == op
    decreases kids
  {
    hide IdOf;
    var n, here := kids[0], SitesOf(m, at, up, kids[0], op);
    if k >= |here| {
      SiteNodeHasOp(m, at, up, kids[1..], op, k - |here|);
    } else if OwnOp(n) != op {
      SiteNodeHasOp(m, at + [n.name], up + [IdOf(m, at, n)], n.kids, op, k);
    }
  }

  /** After a passed check every target of a delete is there and no target of a create is. */
  lemma CheckedTargets(m: Model, f: seq<Node>, e: seq<Node>, op: Op)
    requires WellKeyed(m) && FitKids(m, [], f) && EditFine(m, [], e) && Explicit(op) && AllAnswer(m, f, e, op)
    ensures forall k :: 0 <= k < |Sites(m, [], [], e, op)| ==>
      var s := Sites(m, [], [], e, op)[k];
      |s.target| == |s.at| + 1 && s.op == op &&
      (op == DeleteOp ==> Lookup(m, [], f, s.target).Some?) && (op == CreateOp ==> Lookup(m, [], f, s.target).None?)
  {
    hide EditFine, Located, Answers, Lookup, FitKids, Sites;
    forall k | 0 <= k < |Sites(m, [], [], e, op)|
      ensures var s := Sites(m, [], [], e, op)[k];
        |s.target| == |s.at| + 1 && s.op == op &&
        (op == DeleteOp ==> Lookup(m, [], f, s.target).Some?) && (op == CreateOp ==> Lookup(m, [], f, s.target).None?)
    {
      var q := LocatedCarries(m, [], [], e, op, k);
      CheckedTarget(m, f, e, op, q, Sites(m, [], [], e, op)[k]);
    }
  }

  /** With a passed check and disjoint targets the delete phase never finds its data
      missing. */
  lemma DeletePhaseSucceeds(m: Model, f: seq<Node>, e: seq<Node>, d: DefOp, trace: seq<Act>, left: seq<Sig>)
    requires Plain(m) && FitKids(m, [], f) && EditFine(m, [], e) && AllPass(m, f, e, DeleteOp, d)
    requires var s := Sites(m, [], [], e, DeleteOp); forall i, j :: 0 <= i < j < |s| ==> Apart(s[i], s[j])
    requires AllNamed(m, trace) && Sigs(m, trace) + left == Sites(m, [], [], e, DeleteOp)
    ensures Run(m, f, trace).0
  {
    hide EditFine, Passes, Lookup, FitKids, Sites, Run, Named, Apart, Sigs;
    var s := Sites(m, [], [], e, DeleteOp);
    PassedAnswer(m, f, e, DeleteOp, d);
    CheckedTargets(m, f, e, DeleteOp);
    forall i | 0 <= i < |s|
      ensures Possible(m, f, s[i])
    {
    }
    NoneBelow(s);
    assert Compatible(m, f, s);
    PrefixCompatible(m, f, Sigs(m, trace), left);
    RunOutcome(m, f, trace, [Id("", [])]);
  }

  /** The checks and the delete phase: if both checks pass, the deletes are performed. */
  method CheckedDeletes(m: Model, d: DefOp, orig: Document, edit: Document) returns (checked: bool, done: bool)
    requires orig != edit && Plain(m) && FitKids(m, [], orig.roots) && EditFine(m, [], edit.roots)
    requires var s := Sites(m, [], [], edit.roots, DeleteOp); forall i, j :: 0 <= i < j < |s| ==> Apart(s[i], s[j])
    modifies orig, edit
    ensures checked ==>
      AllPass(m, old(orig.roots), old(edit.roots), DeleteOp, d) &&
      AllPass(m, old(orig.roots), old(edit.roots), CreateOp, d)
    ensures AllPass(m, old(orig.roots), old(edit.roots), DeleteOp, d) ==>
      AllPass(m, old(orig.roots), old(edit.roots), CreateOp, d) ==> checked
    ensures !checked ==> orig.roots == old(orig.roots) && edit.roots == old(edit.roots)
    ensures checked ==> done
  {
    hide EditFine, FitKids, Sites, AllPass, Phased, Run, AllNamed, Sigs;
    ghost var f, e := orig.roots, edit.roots;
    done := false;
    ExplicitCheck(m, DeleteOp, d, f, e);
    ExplicitCheck(m, CreateOp, d, f, e);
    checked := CheckEditOps(m, ExplicitOnly, DeleteOp, d, orig, edit);
    if checked {
      checked := CheckEditOps(m, ExplicitOnly, CreateOp, d, orig, edit);
    }
    if checked {
      ghost var trace, left;
      done, trace, left := Phase(m, orig, edit, DeleteOp);
      DeletePhaseSucceeds(m, f, e, d, trace, left);
    }
  }
}
