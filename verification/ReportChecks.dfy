/** The check before deletes when all defaults are reported: which edits pass, and what is
    left of them. */
module ReportChecks {
  import opened Xml
  import opened Schema
  import opened Instances
  import opened Equivalents
  import opened Operation
  import opened Targets
  import opened Deletion
  import opened Creation
  import opened Effects
  import opened Phases
  import opened EditSites
  import opened EditMerge
  import opened Prechecks
  import opened Defaults
  import opened TrimChecks
  import opened OperationWords

  // ---- the nodes with an operation and their targets are listed alike

  lemma {:induction false} NoPathsInOpFree(kids: seq<Node>, op: Op)
    requires OpFree(kids) && op != NotSet
    ensures OpPaths(kids, op) == []
  {
    hide OpFree;
    if OpPaths(kids, op) != [] {
      OpPathsSound(kids, op, 0);
      OpFreeCarriesNothing(kids, OpPaths(kids, op)[0]);
    }
  }

  /** The paths and the targets of the first node, itself or below. */
  lemma HeadPaths(m: Model, at: seq<string>, up: seq<Id>, n: Node, op: Op)
    requires NodeFine(m, at, n) && Explicit(op)
    ensures n.Element? && OwnOp(n) == op ==>
      OwnPath(n, op) == [[0]] && PathsBelow(n, op) == [] &&
      SitesOf(m, at, up, n, op) == [Sig(op, up + [IdOf(m, at, n)], at, n)] &&
      Addressed(m, at, n) && !IsKeyAt(m, at, n.name) && (Adds(op) ==> AsksNoPlace(m, at + [n.name], n))
    ensures !(n.Element? && OwnOp(n) == op) ==> OwnPath(n, op) == []
    ensures n.Text? || (OwnOp(n) != op && IsSite(n)) ==> PathsBelow(n, op) == [] && SitesOf(m, at, up, n, op) == []
    ensures n.Element? && !IsSite(n) ==>
      EditFine(m, at + [n.name], n.kids) && PathsBelow(n, op) == OpPaths(n.kids, op) &&
      SitesOf(m, at, up, n, op) == Sites(m, at + [n.name], up + [IdOf(m, at, n)], n.kids, op)
    ensures n.Element? && !IsSite(n) && HasSite(n.kids) ==>
      Addressed(m, at, n) && Holder(m, at + [n.name]) && !IsKeyAt(m, at, n.name)
  {
    hide IdOf, Addressed, Holder, IsKeyAt, AsksNoPlace, EditFine, HasSite, OpPaths, OpFree;
    if n.Element? && IsSite(n) {
      NoPathsInOpFree(n.kids, op);
    }
  }

  lemma SitesHead(m: Model, at: seq<string>, up: seq<Id>, n: Node, rest: seq<Node>, op: Op)
    ensures Sites(m, at, up, [n] + rest, op) == SitesOf(m, at, up, n, op) + Sites(m, at, up, rest, op)
  {
    assert ([n] + rest)[1..] == rest;
  }

  /** The i-th path leads to the node with the i-th target. */
  lemma {:induction false} PathsAreSites(m: Model, at: seq<string>, up: seq<Id>, kids: seq<Node>, op: Op)
    requires EditFine(m, at, kids) && Explicit(op)
    ensures |OpPaths(kids, op)| == |Sites(m, at, up, kids, op)|
    ensures forall i :: 0 <= i < |OpPaths(kids, op)| ==>
      Located(m, at, up, kids, op, OpPaths(kids, op)[i], Sites(m, at, up, kids, op)[i])
    decreases kids
  {
    hide IdOf, Addressed, Holder, IsKeyAt, Located, OpPaths, Sites, SitesOf, NodeFine, EditFine, AsksNoPlace, OwnPath,
      PathsBelow, HasSite;
    if kids == [] {
      NoPaths(op);
      NoSitesAtAll(m, at, up, op);
    } else {
      assert kids == [kids[0]] + kids[1..];
      FineSplit(m, at, kids[0], kids[1..]);
      OpPathsSplit(kids, op);
      SitesHead(m, at, up, kids[0], kids[1..], op);
      HeadPaths(m, at, up, kids[0], op);
      PathsAreSites(m, at, up, kids[1..], op);
      var n := kids[0];
      if n.Element? && !IsSite(n) {
        PathsAreSites(m, at + [n.name], up + [IdOf(m, at, n)], n.kids, op);
      }
      forall i | 0 <= i < |OpPaths(kids, op)|
        ensures Located(m, at, up, kids, op, OpPaths(kids, op)[i], Sites(m, at, up, kids, op)[i])
      {
        OnePath(m, at, up, kids, op, i);
      }
    }
  }

  lemma NoSitesAtAll(m: Model, at: seq<string>, up: seq<Id>, op: Op)
    ensures Sites(m, at, up, [], op) == []
  {
  }

  lemma OnePath(m: Model, at: seq<string>, up: seq<Id>, kids: seq<Node>, op: Op, i: nat)
    requires kids != [] && NodeFine(m, at, kids[0]) && EditFine(m, at, kids[1..]) && Explicit(op)
    requires var a, b, c := OwnPath(kids[0], op), PathsBelow(kids[0], op), OpPaths(kids[1..], op);
      OpPaths(kids, op) == a + Lowered(b) + Shifted(c) && i < |OpPaths(kids, op)|
    requires Sites(m, at, up, kids, op) == SitesOf(m, at, up, kids[0], op) + Sites(m, at, up, kids[1..], op)
    requires |SitesOf(m, at, up, kids[0], op)| == |OwnPath(kids[0], op)| + |PathsBelow(kids[0], op)|
    requires |Sites(m, at, up, kids[1..], op)| == |OpPaths(kids[1..], op)|
    requires forall k :: 0 <= k < |OpPaths(kids[1..], op)| ==>
      Located(m, at, up, kids[1..], op, OpPaths(kids[1..], op)[k], Sites(m, at, up, kids[1..], op)[k])
    requires kids[0].Element? && !IsSite(kids[0]) ==>
      var n := kids[0];
      |Sites(m, at + [n.name], up + [IdOf(m, at, n)], n.kids, op)| == |OpPaths(n.kids, op)| &&
      forall k :: 0 <= k < |OpPaths(n.kids, op)| ==>
        Located(m, at + [n.name], up + [IdOf(m, at, n)], n.kids, op, OpPaths(n.kids, op)[k],
          Sites(m, at + [n.name], up + [IdOf(m, at, n)], n.kids, op)[k])
    ensures Located(m, at, up, kids, op, OpPaths(kids, op)[i], Sites(m, at, up, kids, op)[i])
  {
    hide IdOf, Addressed, Holder, IsKeyAt, Located, OpPaths, Sites, SitesOf, NodeFine, EditFine, AsksNoPlace, OwnPath,
      PathsBelow, HasSite;
    var n := kids[0];
    var a, b, c := OwnPath(n, op), PathsBelow(n, op), OpPaths(kids[1..], op);
    HeadPaths(m, at, up, n, op);
    if i < |a| {
      LocatedHere(m, at, up, kids, op);
    } else if i < |a| + |b| {
      var k := i - |a|;
      OpPathsSound(n.kids, op, k);
      CarrierHasSite(n.kids, b[k], op);
      LocatedBelow(m, at, up, kids, op, b[k], SitesOf(m, at, up, n, op)[k]);
    } else {
      var k := i - |a| - |b|;
      LocatedIsNode(m, at, up, kids[1..], op, c[k], Sites(m, at, up, kids[1..], op)[k]);
      LocatedAfter(m, at, up, kids, op, c[k], Sites(m, at, up, kids[1..], op)[k]);
    }
  }

  // ---- taking a node with an operation out

  /** The i-th target with the operation is gone, and nothing else: no other target, no key
      and nothing of the rest. */
  ghost predicate CutsAt(m: Model, at: seq<string>, up: seq<Id>, kids: seq<Node>, op: Op, i: nat, cut: seq<Node>) {
    i < |Sites(m, at, up, kids, op)| && EditFine(m, at, cut) && KeysKept(m, at, kids, cut) && Rest(cut) == Rest(kids) &&
    Sites(m, at, up, cut, op) == Without(Sites(m, at, up, kids, op), i) &&
    forall o: Op :: Explicit(o) && o != op ==> Sites(m, at, up, cut, o) == Sites(m, at, up, kids, o)
  }

  /** The i-th path is that of the first node, below it, or behind it. */
  lemma PathAt(kids: seq<Node>, op: Op, i: nat)
    requires kids != [] && i < |OpPaths(kids, op)|
    ensures var a, b, c := OwnPath(kids[0], op), PathsBelow(kids[0], op), OpPaths(kids[1..], op);
      var q := OpPaths(kids, op)[i];
      IsNode(kids, q) && |OpPaths(kids, op)| == |a| + |b| + |c| &&
      if i < |a| then q == [0] && OwnOp(kids[0]) == op
      else if i < |a| + |b| then
        kids[0].Element? && b == OpPaths(kids[0].kids, op) && IsNode(kids[0].kids, b[i - |a|]) && q == [0] + b[i - |a|]
      else IsNode(kids[1..], c[i - |a| - |b|]) && q == Shift(c[i - |a| - |b|])
  {
    hide OpPaths, OwnOp, IsNode, Shift, OwnPath, PathsBelow, Carries, Lowered, Shifted;
    OpPathsSplit(kids, op);
    OpPathsSound(kids, op, i);
    CarriesIsNode(kids, OpPaths(kids, op)[i], op);
    var a, b, c := OwnPath(kids[0], op), PathsBelow(kids[0], op), OpPaths(kids[1..], op);
    OwnIsFirst(kids[0], op);
    if i < |a| {
      assert OpPaths(kids, op)[i] == a[i];
    } else if i < |a| + |b| {
      var k := i - |a|;
      OpPathsSound(kids[0].kids, op, k);
      CarriesIsNode(kids[0].kids, b[k], op);
      assert OpPaths(kids, op)[i] == Lowered(b)[k];
    } else {
      var k := i - |a| - |b|;
      OpPathsSound(kids[1..], op, k);
      CarriesIsNode(kids[1..], c[k], op);
      NodePath(kids[1..], c[k]);
      assert OpPaths(kids, op)[i] == Shifted(c)[k];
    }
  }

  lemma OwnIsFirst(n: Node, op: Op)
    ensures OwnPath(n, op) == [] || (OwnPath(n, op) == [[0]] && OwnOp(n) == op)
    ensures PathsBelow(n, op) != [] ==> n.Element? && PathsBelow(n, op) == OpPaths(n.kids, op)
  {
  }

  lemma NodePath(kids: seq<Node>, q: Path)
    requires IsNode(kids, q)
    ensures q != []
  {
  }

  /** As many targets as paths at the first node and below. */
  lemma HeadCount(m: Model, at: seq<string>, up: seq<Id>, n: Node, op: Op)
    requires NodeFine(m, at, n) && Explicit(op) && (OwnOp(n) == op ==> n.Element?)
    ensures |SitesOf(m, at, up, n, op)| == |OwnPath(n, op)| + |PathsBelow(n, op)|
  {
    hide IdOf, Addressed, Holder, IsKeyAt, OpPaths, Sites, SitesOf, NodeFine, EditFine, AsksNoPlace, OwnPath,
      PathsBelow, HasSite;
    HeadPaths(m, at, up, n, op);
    if n.Element? && !IsSite(n) {
      PathsAreSites(m, at + [n.name], up + [IdOf(m, at, n)], n.kids, op);
    }
  }

  lemma {:induction false} CutAny(m: Model, at: seq<string>, up: seq<Id>, kids: seq<Node>, op: Op, i: nat)
    requires WellKeyed(m) && EditFine(m, at, kids) && Explicit(op) && i < |OpPaths(kids, op)|
    ensures IsNode(kids, OpPaths(kids, op)[i])
    ensures CutsAt(m, at, up, kids, op, i, RemoveAt(kids, OpPaths(kids, op)[i]))
    decreases kids
  {
    hide IdOf, Addressed, Holder, IsKeyAt, OpPaths, Sites, SitesOf, NodeFine, EditFine, AsksNoPlace, OwnPath,
      PathsBelow, HasSite, RemoveAt, CutsAt, Rest, IsNode, Shift;
    SomePaths(kids, op);
    assert kids == [kids[0]] + kids[1..];
    FineSplit(m, at, kids[0], kids[1..]);
    PathAt(kids, op, i);
    HeadPaths(m, at, up, kids[0], op);
    HeadCount(m, at, up, kids[0], op);
    var n := kids[0];
    var a, b := |OwnPath(n, op)|, |PathsBelow(n, op)|;
    if i < a {
      FirstGone(m, at, up, kids, op);
    } else if i < a + b {
      CutAny(m, at + [n.name], up + [IdOf(m, at, n)], n.kids, op, i - a);
      CutInside(m, at, up, kids, op, i - a, OpPaths(n.kids, op)[i - a]);
    } else {
      CutAny(m, at, up, kids[1..], op, i - a - b);
      CutBehind(m, at, up, kids, op, i - a - b, OpPaths(kids[1..], op)[i - a - b]);
    }
  }

  lemma SomePaths(kids: seq<Node>, op: Op)
    ensures OpPaths(kids, op) != [] ==> kids != []
  {
  }

  lemma CutInside(m: Model, at: seq<string>, up: seq<Id>, kids: seq<Node>, op: Op, k: nat, r: Path)
    requires WellKeyed(m) && kids != [] && NodeFine(m, at, kids[0]) && EditFine(m, at, kids[1..]) && Explicit(op)
    requires kids[0].Element? && !IsSite(kids[0]) && k < |OpPaths(kids[0].kids, op)|
    requires r == OpPaths(kids[0].kids, op)[k] && IsNode(kids[0].kids, r)
    requires CutsAt(m, at + [kids[0].name], up + [IdOf(m, at, kids[0])], kids[0].kids, op, k, RemoveAt(kids[0].kids, r))
    ensures IsNode(kids, [0] + r) && CutsAt(m, at, up, kids, op, k, RemoveAt(kids, [0] + r))
  {
    hide IdOf, OpPaths, NodeFine, EditFine, RemoveAt, CutsAt, HasSite, Carries;
    OpPathsSound(kids[0].kids, op, k);
    CarrierHasSite(kids[0].kids, r, op);
    RemoveHead(kids, r);
    BelowGone(m, at, up, kids, op, k, RemoveAt(kids[0].kids, r));
  }

  lemma CutBehind(m: Model, at: seq<string>, up: seq<Id>, kids: seq<Node>, op: Op, k: nat, r: Path)
    requires kids != [] && NodeFine(m, at, kids[0]) && Explicit(op) && IsNode(kids[1..], r)
    requires CutsAt(m, at, up, kids[1..], op, k, RemoveAt(kids[1..], r))
    ensures IsNode(kids, Shift(r))
    ensures CutsAt(m, at, up, kids, op, |SitesOf(m, at, up, kids[0], op)| + k, RemoveAt(kids, Shift(r)))
  {
    hide NodeFine, RemoveAt, CutsAt, SitesOf;
    RemoveTail(kids, r);
    LaterGone(m, at, up, kids, op, k, RemoveAt(kids[1..], r));
  }

  lemma RemoveHead(kids: seq<Node>, r: Path)
    requires kids != [] && kids[0].Element? && IsNode(kids[0].kids, r)
    ensures IsNode(kids, [0] + r)
    ensures RemoveAt(kids, [0] + r) == [kids[0].(kids := RemoveAt(kids[0].kids, r))] + kids[1..]
  {
    var q := [0] + r;
    assert q[1..] == r && Parent(q) == [0] + Parent(r) && Last(q) == Last(r) && Parent(q)[1..] == Parent(r);
    NodeInParent(kids[0].kids, r);
    NodeInParent(kids, q);
  }

  lemma FirstGone(m: Model, at: seq<string>, up: seq<Id>, kids: seq<Node>, op: Op)
    requires kids != [] && NodeFine(m, at, kids[0]) && EditFine(m, at, kids[1..]) && Explicit(op)
    requires kids[0].Element? && OwnOp(kids[0]) == op
    ensures CutsAt(m, at, up, kids, op, 0, RemoveAt(kids, [0]))
  {
    hide KeysKept, IdOf, EditFine, NodeFine, Sites, Rest;
    CutHere(m, at, up, kids, op);
    assert Parent([0]) == [] && RemoveAt(kids, [0]) == Without(kids, 0) == kids[1..];
    assert Without(Sites(m, at, up, kids, op), 0) == Sites(m, at, up, kids, op)[1..];
  }

  lemma BelowGone(m: Model, at: seq<string>, up: seq<Id>, kids: seq<Node>, op: Op, k: nat, cut: seq<Node>)
    requires WellKeyed(m) && kids != [] && NodeFine(m, at, kids[0]) && EditFine(m, at, kids[1..]) && Explicit(op)
    requires kids[0].Element? && !IsSite(kids[0]) && HasSite(kids[0].kids)
    requires CutsAt(m, at + [kids[0].name], up + [IdOf(m, at, kids[0])], kids[0].kids, op, k, cut)
    ensures CutsAt(m, at, up, kids, op, k, [kids[0].(kids := cut)] + kids[1..])
  {
    hide KeysKept, IdOf, Addressed, Holder, EditFine, HasSite, IsKeyAt, Sites, Rest;
    var n, rest := kids[0], kids[1..];
    var n2, here := n.(kids := cut), up + [IdOf(m, at, n)];
    StillAddressed(m, at, n, cut);
    assert NodeFine(m, at, n2);
    FineSplit(m, at, n2, rest);
    KeysKeptHead(m, at, kids, n2);
    var all := [n2] + rest;
    assert all[1..] == rest && all[0] == n2 && kids == [n] + rest;
    RestHead(n, rest);
    RestHead(n2, rest);
    forall o: Op | Explicit(o)
      ensures Sites(m, at, up, kids, o) == Sites(m, at + [n.name], here, n.kids, o) + Sites(m, at, up, rest, o)
      ensures Sites(m, at, up, all, o) == Sites(m, at + [n.name], here, cut, o) + Sites(m, at, up, rest, o)
    {
      SitesHead(m, at, up, n, rest, o);
      SitesHead(m, at, up, n2, rest, o);
    }
    WithoutHead(Sites(m, at + [n.name], here, n.kids, op), Sites(m, at, up, rest, op), k);
  }

  lemma RestHead(n: Node, rest: seq<Node>)
    ensures Rest([n] + rest) == RestOfNode(n) + Rest(rest)
  {
    assert ([n] + rest)[1..] == rest;
  }

  lemma WithoutHead<T>(a: seq<T>, b: seq<T>, k: nat)
    ensures k < |a| ==> Without(a + b, k) == Without(a, k) + b
    ensures k < |b| ==> Without(a + b, |a| + k) == a + Without(b, k)
  {
  }

  lemma LaterGone(m: Model, at: seq<string>, up: seq<Id>, kids: seq<Node>, op: Op, k: nat, cut: seq<Node>)
    requires kids != [] && NodeFine(m, at, kids[0]) && Explicit(op)
    requires CutsAt(m, at, up, kids[1..], op, k, cut)
    ensures CutsAt(m, at, up, kids, op, |SitesOf(m, at, up, kids[0], op)| + k, [kids[0]] + cut)
  {
    hide KeysKept, IdOf, Addressed, Holder, EditFine, NodeFine, Sites, SitesOf, Rest;
    var n := kids[0];
    assert kids == [n] + kids[1..];
    FineSplit(m, at, n, cut);
    KeysKeptTail(m, at, kids, cut);
    RestHead(n, kids[1..]);
    RestHead(n, cut);
    forall o: Op | Explicit(o)
      ensures Sites(m, at, up, kids, o) == SitesOf(m, at, up, n, o) + Sites(m, at, up, kids[1..], o)
      ensures Sites(m, at, up, [n] + cut, o) == SitesOf(m, at, up, n, o) + Sites(m, at, up, cut, o)
    {
      SitesHead(m, at, up, n, kids[1..], o);
      SitesHead(m, at, up, n, cut, o);
    }
    WithoutHead(SitesOf(m, at, up, n, op), Sites(m, at, up, kids[1..], op), k);
  }

  // ---- the whole check

  /** The target is there, or the edit node holds its default. */
  predicate Granted(m: Model, f: seq<Node>, s: Sig)
    requires s.target != []
  {
    Lookup(m, [], f, s.target).Some? || DefaultAt(m, NamesOf(s.target)) == Some(Content(s.node))
  }

  predicate AllGranted(m: Model, f: seq<Node>, sigs: seq<Sig>) {
    forall i :: 0 <= i < |sigs| ==> sigs[i].target != [] && Granted(m, f, sigs[i])
  }

  /** The targets that are there, in order. */
  function There(m: Model, f: seq<Node>, sigs: seq<Sig>): seq<Sig> {
    if sigs == [] then []
    else
      (if sigs[0].target != [] && Lookup(m, [], f, sigs[0].target).Some? then [sigs[0]] else [])
      + There(m, f, sigs[1..])
  }

  /** Above a node with an operation no other is. */
  lemma {:induction false} NoneAbove(m: Model, at: seq<string>, kids: seq<Node>, q: Path, j: nat)
    requires EditFine(m, at, kids) && IsNode(kids, q) && Explicit(OwnOp(NodeAt(kids, q))) && 0 < j < |q|
    ensures IsNode(kids, q[..j]) && OwnOp(NodeAt(kids, q[..j])) == NotSet
    decreases q
  {
    hide Addressed, Holder, IsKeyAt, AsksNoPlace;
    var n := kids[q[0]];
    assert NodeFine(m, at, n);
    if IsSite(n) {
      OpFreeCarriesNothing(n.kids, q[1..]);
    } else if j > 1 {
      NoneAbove(m, at + [n.name], n.kids, q[1..], j - 1);
      assert q[..j][1..] == q[1..][..j - 1];
    }
  }

  /** The check of the node with one target. */
  lemma OneDelete(m: Model, d: DefOp, f: seq<Node>, e: seq<Node>, q: Path, s: Sig)
    requires WellKeyed(m) && FitKids(m, [], f) && EditFine(m, [], e) && d != DefReplace
    requires Carries(e, q, DeleteOp) && Located(m, [], [], e, DeleteOp, q, s)
    ensures s.target != []
    ensures CheckNode(m, Mode.ReportAll, DeleteOp, d, f, e, q) ==
      (Granted(m, f, s), f, if Granted(m, f, s) && Lookup(m, [], f, s.target).None? then RemoveAt(e, q) else e)
  {
    hide FindEquiv, FitKids, EditFine, NodeAt, OwnOp, Chain, Lookup, DefaultAt, RemoveAt, Located, HierarchyOk,
      IdOf, Target;
    LocatedSig(m, e, DeleteOp, q, s);
    HierarchyExactly(e, q, d);
    WordsOf(NodeAt(e, q));
    forall j | 0 < j < |q|
      ensures IsNode(e, q[..j]) && SaysOnly(NodeAt(e, q[..j]), ["merge", "delete", "remove"])
    {
      NoneAbove(m, [], e, q, j);
      WordsOf(NodeAt(e, q[..j]));
    }
    LocatedTargeted(m, e, DeleteOp, q, s);
    ChainSnoc(e, q);
    TargetFound(m, f, Act(DeleteOp, Chain(e, Parent(q)), NodeAt(e, q)));
    TargetNames(m, e, q);
  }

  /** What the check from the i-th delete on leaves of the edit. */
  ghost predicate LeftOver(m: Model, f: seq<Node>, e: seq<Node>, i: nat, e2: seq<Node>) {
    var s := Sites(m, [], [], e, DeleteOp);
    i <= |s| && EditFine(m, [], e2) && Rest(e2) == Rest(e) &&
    Sites(m, [], [], e2, DeleteOp) == s[..i] + There(m, f, s[i..]) &&
    forall o: Op :: Explicit(o) && o != DeleteOp ==> Sites(m, [], [], e2, o) == Sites(m, [], [], e, o)
  }

  lemma {:induction false} ReportFrom(m: Model, d: DefOp, f: seq<Node>, e: seq<Node>, i: nat)
    requires WellKeyed(m) && FitKids(m, [], f) && EditFine(m, [], e) && d != DefReplace
    requires i <= |OpPaths(e, DeleteOp)|
    ensures i <= |Sites(m, [], [], e, DeleteOp)|
    ensures var (ok, f2, e2) := CheckFrom(m, Mode.ReportAll, DeleteOp, d, f, e, i);
      f2 == f && (ok <==> AllGranted(m, f, Sites(m, [], [], e, DeleteOp)[i..])) && (ok ==> LeftOver(m, f, e, i, e2))
    decreases |OpPaths(e, DeleteOp)| - i
  {
    hide FitKids, EditFine, OpPaths, Sites, Rest, CheckNode, Located, Carries, RemoveAt, Granted, There, AllGranted;
    PathsAreSites(m, [], [], e, DeleteOp);
    var s := Sites(m, [], [], e, DeleteOp);
    if i == |OpPaths(e, DeleteOp)| {
      NothingLeft(m, f, s);
    } else {
      OpPathsSound(e, DeleteOp, i);
      CarriesIsNode(e, OpPaths(e, DeleteOp)[i], DeleteOp);
      var q := OpPaths(e, DeleteOp)[i];
      OneDelete(m, d, f, e, q, s[i]);
      GrantedFrom(m, f, s, i);
      if Granted(m, f, s[i]) {
        if Lookup(m, [], f, s[i].target).Some? {
          ReportFrom(m, d, f, e, i + 1);
        } else {
          CutAny(m, [], [], e, DeleteOp, i);
          var e2 := RemoveAt(e, q);
          PathsAreSites(m, [], [], e2, DeleteOp);
          assert Without(s, i)[..i] == s[..i] && Without(s, i)[i..] == s[i + 1..];
          ReportFrom(m, d, f, e2, i);
        }
      }
    }
  }

  lemma NothingLeft(m: Model, f: seq<Node>, s: seq<Sig>)
    ensures AllGranted(m, f, s[|s|..]) && There(m, f, s[|s|..]) == [] && s[..|s|] + [] == s
  {
  }

  lemma GrantedFrom(m: Model, f: seq<Node>, s: seq<Sig>, i: nat)
    requires i < |s| && s[i].target != []
    ensures AllGranted(m, f, s[i..]) <==> Granted(m, f, s[i]) && AllGranted(m, f, s[i + 1..])
    ensures s[..i] + There(m, f, s[i..]) ==
      (if Lookup(m, [], f, s[i].target).Some? then s[..i + 1] else s[..i]) + There(m, f, s[i + 1..])
  {
    hide Granted, Lookup;
    assert s[i..][0] == s[i] && s[i..][1..] == s[i + 1..] && s[..i + 1] == s[..i] + [s[i]];
    assert forall k :: 0 < k < |s[i..]| ==> s[i..][k] == s[i + 1..][k - 1];
    var more := There(m, f, s[i + 1..]);
    assert s[..i] + ([s[i]] + more) == (s[..i] + [s[i]]) + more && [] + more == more;
    if AllGranted(m, f, s[i..]) {
      var t := s[i + 1..];
      forall k | 0 <= k < |t|
        ensures t[k].target != [] && Granted(m, f, t[k])
      {
        assert s[i..][k + 1] == t[k];
      }
    }
  }

  /** When all defaults are reported, an edit passes the check before deletes exactly if
      every target of a delete is there or its edit node holds the default. The check leaves
      in the edit the deletes whose target is there, in order, and everything else, and
      changes nothing in the configuration. */
  lemma ReportCheckExact(m: Model, d: DefOp, f: seq<Node>, e: seq<Node>)
    requires WellKeyed(m) && FitKids(m, [], f) && EditFine(m, [], e) && d != DefReplace
    ensures var (ok, f2, e2) := CheckFrom(m, Mode.ReportAll, DeleteOp, d, f, e, 0);
      var deletes := Sites(m, [], [], e, DeleteOp);
      f2 == f && (ok <==> AllGranted(m, f, deletes)) &&
      (ok ==>
        EditFine(m, [], e2) && Rest(e2) == Rest(e) && Sites(m, [], [], e2, DeleteOp) == There(m, f, deletes) &&
        forall o: Op :: Explicit(o) && o != DeleteOp ==> Sites(m, [], [], e2, o) == Sites(m, [], [], e, o))
  {
    hide FitKids, EditFine, OpPaths, Sites, CheckFrom, AllGranted, There, Rest;
    ReportFrom(m, d, f, e, 0);
    var s := Sites(m, [], [], e, DeleteOp);
    assert s[0..] == s && s[..0] == [] && [] + There(m, f, s) == There(m, f, s);
  }
}
