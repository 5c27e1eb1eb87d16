/** Performing the operations of an edit in place: the deletes, the removes, the replaces,
    the creates, and then the default merge of what is left of the edit. */
module EditPhases {
  import opened Xml
  import opened Schema
  import opened Instances
  import opened Equivalents
  import opened Merge
  import opened MergeMeaning
  import opened Choices
  import opened Operation
  import opened Creation
  import opened EditMerge
  import opened Targets
  import opened Deletion
  import opened Effects
  import opened Phases
  import opened EditSites
  import opened OperationAttributes
  import opened RootTexts

  /** Removes the edit node at q from the edit, and its equivalent from the configuration. */
  method EditRemove(m: Model, orig: Document, edit: Document, q: Path)
    requires orig != edit && IsNode(edit.roots, q)
    modifies orig, edit
    ensures edit.roots == RemoveAt(old(edit.roots), q)
    ensures var found := FindEquiv(m, [], old(orig.roots), Chain(old(edit.roots), q));
      orig.roots == if found.Some? then RemoveAt(old(orig.roots), found.value) else old(orig.roots)
  {
    hide FindEquiv;
    var found := FindElementEquiv(m, orig.roots, edit.roots, q);
    NodeInParent(edit.roots, q);
    edit.Unlink(Parent(q), Last(q));
    if found.Some? {
      NodeInParent(orig.roots, found.value);
      orig.Unlink(Parent(found.value), Last(found.value));
    }
  }

  /** Takes the equivalent of the edit node at q out, if there is one, and creates the node
      anew. */
  method EditReplace(m: Model, orig: Document, edit: Document, q: Path)
    requires orig != edit && IsNode(edit.roots, q)
    requires AsksNoPlace(m, Names(Chain(edit.roots, q)), NodeAt(edit.roots, q))
    modifies orig, edit
    ensures Parent(q) == [] || IsNode(old(edit.roots), Parent(q))
    ensures AllElements(Chain(old(edit.roots), Parent(q)))
    ensures edit.roots == RemoveAt(old(edit.roots), q)
    ensures var found := FindEquiv(m, [], old(orig.roots), Chain(old(edit.roots), q));
      orig.roots == CreateNode(m,
        if found.Some? then RemoveAt(old(orig.roots), found.value) else old(orig.roots),
        Chain(old(edit.roots), Parent(q)), NodeAt(old(edit.roots), q))
  {
    hide FindEquiv, CreateNode, SetKids, KidsAt;
    ChainSnoc(edit.roots, q);
    var found := FindElementEquiv(m, orig.roots, edit.roots, q);
    if found.Some? {
      NodeInParent(orig.roots, found.value);
      orig.Unlink(Parent(found.value), Last(found.value));
    }
    EditCreate(m, orig, edit, q);
  }

  /** Performs the explicit operation of the edit node at q, and takes the node out of the
      edit if that succeeds. */
  method PerformSite(m: Model, orig: Document, edit: Document, q: Path) returns (ok: bool)
    requires orig != edit && IsNode(edit.roots, q) && Explicit(OwnOp(NodeAt(edit.roots, q)))
    requires Adds(OwnOp(NodeAt(edit.roots, q))) ==>
      AsksNoPlace(m, Names(Chain(edit.roots, q)), NodeAt(edit.roots, q))
    modifies orig, edit
    ensures (ok, orig.roots) == Perform(m, old(orig.roots), SiteAct(old(edit.roots), q))
    ensures edit.roots == if ok then RemoveAt(old(edit.roots), q) else old(edit.roots)
  {
    hide FindEquiv, CreateNode, DeleteAll, SetKids, KidsAt, Names;
    ChainSnoc(edit.roots, q);
    NodeInParent(edit.roots, q);
    ok := true;
    var op := OwnOp(NodeAt(edit.roots, q));
    if op == DeleteOp {
      ok := DeleteEquivalents(m, orig, edit.roots, q);
      if ok {
        edit.Unlink(Parent(q), Last(q));
      }
    } else if op == RemoveOp {
      EditRemove(m, orig, edit, q);
    } else if op == ReplaceOp {
      EditReplace(m, orig, edit, q);
    } else {
      EditCreate(m, orig, edit, q);
    }
  }

  lemma {:induction false} RunSnoc(m: Model, f: seq<Node>, acts: seq<Act>, a: Act)
    requires AllNamed(m, acts) && Named(m, a)
    ensures AllNamed(m, acts + [a])
    ensures Run(m, f, acts).0 ==> Run(m, f, acts + [a]) == Perform(m, Run(m, f, acts).1, a)
    decreases acts
  {
    hide Named, Perform;
    var all := acts + [a];
    assert forall i :: 0 <= i < |all| ==> all[i] == if i < |acts| then acts[i] else a;
    if acts == [] {
      assert all == [a] && all[1..] == [];
      assert Named(m, all[0]);
    } else {
      assert Named(m, acts[0]);
      assert all[1..] == acts[1..] + [a] && all[0] == acts[0];
      NamedTail(m, acts);
      var g := Perform(m, f, acts[0]).1;
      RunSnoc(m, g, acts[1..], a);
    }
  }

  lemma NamedConcat(m: Model, a: seq<Act>, b: seq<Act>)
    requires AllNamed(m, a) && AllNamed(m, b)
    ensures AllNamed(m, a + b)
  {
    hide Named;
    forall i | 0 <= i < |a + b|
      ensures Named(m, (a + b)[i])
    {
      assert (a + b)[i] == if i < |a| then a[i] else b[i - |a|];
      assert i < |a| ==> Named(m, a[i]);
      assert i >= |a| ==> Named(m, b[i - |a|]);
    }
  }

  lemma SigsConcat(m: Model, a: seq<Act>, b: seq<Act>)
    requires AllNamed(m, a) && AllNamed(m, b)
    ensures AllNamed(m, a + b) && Sigs(m, a + b) == Sigs(m, a) + Sigs(m, b)
  {
    hide Named, SigOf;
    NamedConcat(m, a, b);
    var all := a + b;
    assert forall i :: 0 <= i < |all| ==> all[i] == if i < |a| then a[i] else b[i - |a|];
    var s := Sigs(m, all);
    forall i | 0 <= i < |all|
      ensures s[i] == (Sigs(m, a) + Sigs(m, b))[i]
    {
    }
  }

  /** A site as an operation to perform. */
  function SiteAct(kids: seq<Node>, q: Path): (a: Act)
    requires IsNode(kids, q)
    ensures AllElements(a.parents)
  {
    ChainSnoc(kids, q);
    Act(OwnOp(NodeAt(kids, q)), Chain(kids, Parent(q)), NodeAt(kids, q))
  }

  lemma FirstAct(m: Model, kids: seq<Node>, op: Op)
    requires WellKeyed(m) && EditFine(m, [], kids) && Explicit(op) && FirstSite(kids, op).Some?
    ensures var q := FirstSite(kids, op).value; var a := SiteAct(kids, q);
      Named(m, a) && Sites(m, [], [], kids, op) == [SigOf(m, a)] + Sites(m, [], [], RemoveAt(kids, q), op) &&
      CutsOne(m, [], [], kids, op, RemoveAt(kids, q))
    ensures var q := FirstSite(kids, op).value;
      Adds(op) ==> AsksNoPlace(m, Names(Chain(kids, q)), NodeAt(kids, q))
  {
    hide IdOf, IdsOf, Addressed, IsKeyAt, Sites, EditFine, KeysKept, RemoveAt, Passable, Rest;
    FirstIsLocated(m, [], [], kids, op);
    CutIsRemove(kids, op);
    CutSites(m, [], [], kids, op);
    var q := FirstSite(kids, op).value;
    var chain := Chain(kids, Parent(q));
    ChainSnoc(kids, q);
    NamesSnoc(chain, NodeAt(kids, q));
    assert [] + Names(chain) == Names(chain);
    var t := Target(m, chain, NodeAt(kids, q));
    assert [] + t == t;
    var s := Sites(m, [], [], kids, op);
    assert s == [s[0]] + s[1..];
  }

  /** Performs all operations of one kind, in document order, until one fails. */
  method Phase(m: Model, orig: Document, edit: Document, op: Op)
    returns (ok: bool, ghost trace: seq<Act>, ghost left: seq<Sig>)
    requires orig != edit && WellKeyed(m) && Explicit(op) && EditFine(m, [], edit.roots)
    modifies orig, edit
    ensures AllNamed(m, trace) && (ok, orig.roots) == Run(m, old(orig.roots), trace)
    ensures ok ==> Phased(m, old(edit.roots), op, trace, edit.roots)
    ensures Sigs(m, trace) + left == Sites(m, [], [], old(edit.roots), op)
  {
    hide Named, Perform, EditFine, CutsOne, Phased, Phasing, RemoveAt, SiteAct, FirstSite, Sites, AllNamed, SigOf;
    trace := [];
    var site := FirstSite(edit.roots, op);
    PhaseStart(m, orig.roots, edit.roots, op);
    while site.Some?
      invariant site == FirstSite(edit.roots, op) && EditFine(m, [], edit.roots)
      invariant AllNamed(m, trace) && Run(m, old(orig.roots), trace) == (true, orig.roots)
      invariant Phasing(m, old(edit.roots), op, trace, edit.roots)
      decreases Size(edit.roots)
    {
      FirstAct(m, edit.roots, op);
      ghost var e, a := edit.roots, SiteAct(edit.roots, site.value);
      RunSnoc(m, old(orig.roots), trace, a);
      ok := PerformSite(m, orig, edit, site.value);
      PhaseStep(m, old(edit.roots), op, trace, e, a, RemoveAt(e, site.value));
      trace, left := trace + [a], Sites(m, [], [], RemoveAt(e, site.value), op);
      if !ok {
        PhasingSum(m, old(edit.roots), op, trace, RemoveAt(e, site.value));
        return;
      }
      site := FirstSite(edit.roots, op);
    }
    left := Sites(m, [], [], edit.roots, op);
    PhasingSum(m, old(edit.roots), op, trace, edit.roots);
    PhaseEnd(m, old(edit.roots), op, trace, edit.roots);
    ok := true;
  }

  /** Where a phase is: what was performed and what is still to do are all the targets; the
      other phases and the rest of the edit are as they were. */
  ghost predicate Phasing(m: Model, e0: seq<Node>, op: Op, trace: seq<Act>, e: seq<Node>) {
    AllNamed(m, trace) && Sigs(m, trace) + Sites(m, [], [], e, op) == Sites(m, [], [], e0, op) &&
    Rest(e) == Rest(e0) && forall o: Op :: Explicit(o) && o != op ==> Sites(m, [], [], e, o) == Sites(m, [], [], e0, o)
  }

  /** What a phase has done. */
  ghost predicate Phased(m: Model, e0: seq<Node>, op: Op, trace: seq<Act>, e: seq<Node>) {
    AllNamed(m, trace) && Sigs(m, trace) == Sites(m, [], [], e0, op) && Sites(m, [], [], e, op) == [] &&
    EditFine(m, [], e) && Rest(e) == Rest(e0) &&
    forall o: Op :: Explicit(o) && o != op ==> Sites(m, [], [], e, o) == Sites(m, [], [], e0, o)
  }

  lemma PhasingSum(m: Model, e0: seq<Node>, op: Op, trace: seq<Act>, e: seq<Node>)
    requires Phasing(m, e0, op, trace, e)
    ensures AllNamed(m, trace) && Sigs(m, trace) + Sites(m, [], [], e, op) == Sites(m, [], [], e0, op)
  {
  }

  lemma PhaseStart(m: Model, f: seq<Node>, e: seq<Node>, op: Op)
    ensures Phasing(m, e, op, [], e) && AllNamed(m, []) && Run(m, f, []) == (true, f)
  {
    assert [] + Sites(m, [], [], e, op) == Sites(m, [], [], e, op);
  }

  lemma SigsSnoc(m: Model, trace: seq<Act>, a: Act)
    requires AllNamed(m, trace) && Named(m, a)
    ensures AllNamed(m, trace + [a]) && Sigs(m, trace + [a]) == Sigs(m, trace) + [SigOf(m, a)]
  {
    hide Named, SigOf;
    NamedMeans(m, a);
    assert Named(m, [a][0]);
    SigsConcat(m, trace, [a]);
    assert Sigs(m, [a]) == [SigOf(m, a)];
  }

  lemma PhaseStep(m: Model, e0: seq<Node>, op: Op, trace: seq<Act>, e: seq<Node>, a: Act, e1: seq<Node>)
    requires Phasing(m, e0, op, trace, e) && Named(m, a)
    requires Sites(m, [], [], e, op) == [SigOf(m, a)] + Sites(m, [], [], e1, op) && CutsOne(m, [], [], e, op, e1)
    ensures Phasing(m, e0, op, trace + [a], e1) && EditFine(m, [], e1)
  {
    hide Named, SigOf, Sites, EditFine, KeysKept, Rest, Sigs, AllNamed;
    NamedMeans(m, a);
    SigsSnoc(m, trace, a);
    assert Sigs(m, trace) + ([SigOf(m, a)] + Sites(m, [], [], e1, op)) ==
      (Sigs(m, trace) + [SigOf(m, a)]) + Sites(m, [], [], e1, op);
  }

  lemma PhaseEnd(m: Model, e0: seq<Node>, op: Op, trace: seq<Act>, e: seq<Node>)
    requires Phasing(m, e0, op, trace, e) && FirstSite(e, op).None? && EditFine(m, [], e)
    ensures Phased(m, e0, op, trace, e)
  {
    hide Named, EditFine, Rest;
    NoSites(m, [], [], e, op);
    assert Sigs(m, trace) + [] == Sigs(m, trace);
  }

  // ---- all phases

  /** The targets of an edit in the order of the phases. */
  function AllSites(m: Model, e: seq<Node>): seq<Sig> {
    Sites(m, [], [], e, DeleteOp) + Sites(m, [], [], e, RemoveOp) +
    Sites(m, [], [], e, ReplaceOp) + Sites(m, [], [], e, CreateOp)
  }

  lemma {:induction false} RunConcat(m: Model, f: seq<Node>, a: seq<Act>, b: seq<Act>)
    requires AllNamed(m, a) && AllNamed(m, b)
    ensures AllNamed(m, a + b)
    ensures Run(m, f, a + b) == if Run(m, f, a).0 then Run(m, Run(m, f, a).1, b) else Run(m, f, a)
    decreases a
  {
    hide Named, Perform, Sigs;
    NamedConcat(m, a, b);
    if a == [] {
      assert a + b == b;
    } else {
      assert Named(m, a[0]) && (a + b)[0] == a[0] && (a + b)[1..] == a[1..] + b;
      NamedTail(m, a);
      RunConcat(m, Perform(m, f, a[0]).1, a[1..], b);
    }
  }

  /** Performs all explicit operations, phase by phase; left is what a failure leaves to
      do. */
  method PerformAll(m: Model, orig: Document, edit: Document)
    returns (ok: bool, ghost trace: seq<Act>, ghost left: seq<Sig>)
    requires orig != edit && WellKeyed(m) && EditFine(m, [], edit.roots)
    modifies orig, edit
    ensures AllNamed(m, trace) && (ok, orig.roots) == Run(m, old(orig.roots), trace)
    ensures Sigs(m, trace) + left == AllSites(m, old(edit.roots))
    ensures ok ==> left == [] && edit.roots == Rest(old(edit.roots)) && OpFree(edit.roots)
  {
    hide Named, EditFine, Sites, Rest, OpFree, FirstSite, Run, Sigs, AllNamed;
    ghost var f, e := orig.roots, edit.roots;
    ghost var d, r := Sites(m, [], [], e, DeleteOp), Sites(m, [], [], e, RemoveOp);
    ghost var p, c := Sites(m, [], [], e, ReplaceOp), Sites(m, [], [], e, CreateOp);
    ghost var more: seq<Act>;
    ok, trace, left := Phase(m, orig, edit, DeleteOp);
    Regroup([], Sigs(m, trace), left, r, p, c);
    if !ok {
      left := left + r + p + c;
      return;
    }
    ok, more, left := Phase(m, orig, edit, RemoveOp);
    RunConcat(m, f, trace, more);
    SigsConcat(m, trace, more);
    Regroup(d, Sigs(m, more), left, p, c, []);
    trace := trace + more;
    if !ok {
      left := left + p + c;
      return;
    }
    ok, more, left := Phase(m, orig, edit, ReplaceOp);
    RunConcat(m, f, trace, more);
    SigsConcat(m, trace, more);
    Regroup(d + r, Sigs(m, more), left, c, [], []);
    trace := trace + more;
    if !ok {
      left := left + c;
      return;
    }
    ok, more, left := Phase(m, orig, edit, CreateOp);
    RunConcat(m, f, trace, more);
    SigsConcat(m, trace, more);
    Regroup(d + r + p, Sigs(m, more), left, [], [], []);
    trace := trace + more;
    if !ok {
      return;
    }
    AllDone(m, edit.roots);
  }

  lemma Regroup(a: seq<Sig>, t: seq<Sig>, left: seq<Sig>, x: seq<Sig>, y: seq<Sig>, z: seq<Sig>)
    ensures (a + t) + (left + x + y + z) == a + (t + left) + x + y + z
    ensures left + x + y + [] == left + x + y && left + x + [] == left + x && left + [] == left && [] + t == t
    ensures [] + (t + left) == t + left && a + (t + left) + [] == a + (t + left)
    ensures a + (t + left) + x + y + [] == a + (t + left) + x + y && a + (t + left) + x + [] == a + (t + left) + x
  {
  }

  lemma AllDone(m: Model, e: seq<Node>)
    requires EditFine(m, [], e)
    requires Sites(m, [], [], e, DeleteOp) == Sites(m, [], [], e, RemoveOp) == []
    requires Sites(m, [], [], e, ReplaceOp) == Sites(m, [], [], e, CreateOp) == []
    ensures e == Rest(e) && OpFree(e)
  {
    forall op | Explicit(op)
      ensures FirstSite(e, op).None?
    {
      if FirstSite(e, op).Some? {
        FirstIsLocated(m, [], [], e, op);
      }
    }
    NothingElse(m, [], e);
  }

  // ---- the whole edit

  lemma {:induction false} OneBranchWithoutChoices(m: Model, at: seq<string>, kids: seq<Node>)
    requires ChoiceFree(m.top)
    ensures OneBranch(m, at, kids)
    decreases kids
  {
    forall i | 0 <= i < |kids| && kids[i].Element?
      ensures BranchOf(m, at + [kids[i].name]).None? && OneBranch(m, at + [kids[i].name], kids[i].kids)
    {
      NoBranch(m, at + [kids[i].name]);
      OneBranchWithoutChoices(m, at + [kids[i].name], kids[i].kids);
    }
  }

  /** At x the new document has the rest of the edit over what the operations leave; texts of
      leaves at the top are joined. */
  ghost predicate Settles(m: Model, f: seq<Node>, sigs: seq<Sig>, r: seq<Node>, g: seq<Node>, x: seq<Id>)
    requires x != []
  {
    Whole(sigs) &&
    exists v :: Outcome(m, sigs, x, Lookup(m, [], f, x), v) &&
      Lookup(m, [], g, x) == Override(v, JoinedValue(m, x, v, Lookup(m, [], r, x)))
  }

  /** Performs an edit with default operation merge: every target is what its operation
      says, and the rest of the edit is merged. */
  method EditOperations(m: Model, orig: Document, edit: Document) returns (ok: bool)
    requires orig != edit && Plain(m) && FitKids(m, [], orig.roots) && EditFine(m, [], edit.roots)
    requires Compatible(m, orig.roots, AllSites(m, edit.roots))
    requires RestOf(m, Rest(edit.roots), AllSites(m, edit.roots))
    requires NoPlaces(m, [], Rest(edit.roots))
    modifies orig, edit
    ensures ok && edit.roots == [] && FitKids(m, [], orig.roots)
    ensures OpFree(old(orig.roots)) ==> OpFree(orig.roots)
    ensures forall x :: x != [] ==>
      Settles(m, old(orig.roots), AllSites(m, old(edit.roots)), Rest(old(edit.roots)), orig.roots, x)
  {
    hide Named, EditFine, Sites, Rest, OpFree, Run, Sigs, FitKids, MergeKids, Compatible, Lookup, Outcome, OneBranch,
      AllSites, Settles;
    ghost var f, e := orig.roots, edit.roots;
    PlainIsMergeable(m);
    ghost var trace, left;
    ok, trace, left := PerformAll(m, orig, edit);
    AllSucceed(m, f, e, trace, left, ok, orig.roots);
    assert Sigs(m, trace) + [] == Sigs(m, trace);
    ghost var g := orig.roots;
    RestFits(m, Rest(e), AllSites(m, e));
    OneBranchWithoutChoices(m, [], g);
    OneBranchWithoutChoices(m, [], Rest(e));
    PlacesNowhere(m, orig.roots, edit.roots);
    ghost var r := edit.roots;
    DefaultMerge(m, orig, edit);
    if OpFree(f) {
      AllSitesOpFree(m, e);
      EditOpFree(m, f, trace, r, AllSites(m, e));
    }
    forall x: seq<Id> | x != []
      ensures Settles(m, f, AllSites(m, e), Rest(e), orig.roots, x)
    {
      SettledAt(m, f, trace, Rest(e), x);
    }
  }

  lemma AllSitesOpFree(m: Model, e: seq<Node>)
    requires EditFine(m, [], e)
    ensures forall s :: s in AllSites(m, e) ==> s.node.Element? && OpFree(s.node.kids)
  {
    hide EditFine, Sites, OpFree;
    SitesOpFree(m, [], [], e, DeleteOp);
    SitesOpFree(m, [], [], e, RemoveOp);
    SitesOpFree(m, [], [], e, ReplaceOp);
    SitesOpFree(m, [], [], e, CreateOp);
  }

  lemma AllSucceed(m: Model, f: seq<Node>, e: seq<Node>, trace: seq<Act>, left: seq<Sig>, ok: bool, g: seq<Node>)
    requires Plain(m) && FitKids(m, [], f) && AllNamed(m, trace) && (ok, g) == Run(m, f, trace)
    requires Compatible(m, f, AllSites(m, e)) && Sigs(m, trace) + left == AllSites(m, e)
    ensures ok && FitKids(m, [], g) && Compatible(m, f, Sigs(m, trace))
  {
    hide FitKids, Run, Named, AllSites, Sigs, Compatible;
    PrefixCompatible(m, f, Sigs(m, trace), left);
    RunOutcome(m, f, trace, [Id("", [])]);
  }

  lemma PrefixCompatible(m: Model, f: seq<Node>, a: seq<Sig>, b: seq<Sig>)
    requires Compatible(m, f, a + b)
    ensures Compatible(m, f, a)
  {
    hide Possible, Apart, Below;
    var all := a + b;
    assert forall i :: 0 <= i < |a| ==> a[i] == all[i];
  }

  lemma SettledAt(m: Model, f: seq<Node>, trace: seq<Act>, r: seq<Node>, x: seq<Id>)
    requires Plain(m) && FitKids(m, [], f) && AllNamed(m, trace) && Compatible(m, f, Sigs(m, trace)) && x != []
    requires FitKids(m, [], r)
    ensures var g := Run(m, f, trace).1;
      Settles(m, f, Sigs(m, trace), r, MergeKids(m, [], g, JoinRoots(m, g, r)), x)
  {
    hide FitKids, Run, Named, Sigs, Compatible, Lookup, MergeKids, Outcome, JoinedValue;
    RunOutcome(m, f, trace, x);
    var g := Run(m, f, trace).1;
    JoinsFit(m, g, r);
    JoinsLookup(m, g, r, x);
    MergeRest(m, g, JoinRoots(m, g, r), x);
  }

  /** All targets of an edit in document order. */
  function InDocumentOrder(m: Model, at: seq<string>, up: seq<Id>, kids: seq<Node>): seq<Sig>
    decreases kids
  {
    if kids == [] then [] else InOrderOf(m, at, up, kids[0]) + InDocumentOrder(m, at, up, kids[1..])
  }

  function InOrderOf(m: Model, at: seq<string>, up: seq<Id>, n: Node): seq<Sig>
    decreases n
  {
    match n
    case Text(_) => []
    case Element(name, _, kids) =>
      if IsSite(n) then [Sig(OwnOp(n), up + [IdOf(m, at, n)], at, n)]
      else InDocumentOrder(m, at + [name], up + [IdOf(m, at, n)], kids)
  }

  lemma {:induction false} SameTargets(m: Model, at: seq<string>, up: seq<Id>, kids: seq<Node>)
    ensures multiset(InDocumentOrder(m, at, up, kids)) ==
      multiset(Sites(m, at, up, kids, DeleteOp)) + multiset(Sites(m, at, up, kids, RemoveOp)) +
      multiset(Sites(m, at, up, kids, ReplaceOp)) + multiset(Sites(m, at, up, kids, CreateOp))
    decreases kids
  {
    hide IdOf;
    if kids != [] {
      SameTargets(m, at, up, kids[1..]);
      SameTargetsOf(m, at, up, kids[0]);
    }
  }

  lemma {:induction false} SameTargetsOf(m: Model, at: seq<string>, up: seq<Id>, n: Node)
    ensures multiset(InOrderOf(m, at, up, n)) ==
      multiset(SitesOf(m, at, up, n, DeleteOp)) + multiset(SitesOf(m, at, up, n, RemoveOp)) +
      multiset(SitesOf(m, at, up, n, ReplaceOp)) + multiset(SitesOf(m, at, up, n, CreateOp))
    decreases n
  {
    hide IdOf;
    if n.Element? && !IsSite(n) {
      SameTargets(m, at + [n.name], up + [IdOf(m, at, n)], n.kids);
    }
  }

  /** Joining texts leaves the rest of an edit what it is. */
  lemma JoinedRest(m: Model, f: seq<Node>, r: seq<Node>, sigs: seq<Sig>)
    requires RestOf(m, r, sigs)
    ensures RestOf(m, JoinRoots(m, f, r), sigs)
  {
    hide FitKids, Lookup;
    JoinsFit(m, f, r);
    forall s | s in sigs
      ensures Lookup(m, [], JoinRoots(m, f, r), s.target).None?
      ensures |s.target| > 1 ==> Lookup(m, [], JoinRoots(m, f, r), s.target[..|s.target| - 1]).Some?
    {
      JoinsLookup(m, f, r, s.target);
      if |s.target| > 1 {
        JoinsLookup(m, f, r, s.target[..|s.target| - 1]);
      }
    }
  }

  /** The operations do not touch the leaves at the top that the rest of the edit names. */
  lemma JoinUntouched(m: Model, r: seq<Node>, sigs: seq<Sig>, x: seq<Id>, v0: Option<Val>, v: Option<Val>)
    requires RestOf(m, r, sigs) && Whole(sigs) && x != [] && Outcome(m, sigs, x, v0, v)
    ensures JoinedValue(m, x, v, Lookup(m, [], r, x)) == JoinedValue(m, x, v0, Lookup(m, [], r, x))
  {
    hide FitKids, Lookup;
    if |x| == 1 && Lookup(m, [], r, x).Some? {
      forall s | s in sigs
        ensures !Under(s.target, x)
      {
        assert |s.target| == 1 && Under(s.target, x) ==> s.target == x;
      }
    }
  }

  /** The fixed order of phases is immaterial: what the engine leaves at any instance path
      is what the same operations leave in document order, whether the rest of the edit is
      merged before or after them. */
  lemma DocumentOrderResult(m: Model, f: seq<Node>, e: seq<Node>, acts: seq<Act>, g: seq<Node>, x: seq<Id>)
    requires Plain(m) && FitKids(m, [], f) && AllNamed(m, acts) && x != []
    requires Compatible(m, f, AllSites(m, e)) && RestOf(m, Rest(e), AllSites(m, e))
    requires Sigs(m, acts) == InDocumentOrder(m, [], [], e)
    requires Settles(m, f, AllSites(m, e), Rest(e), g, x)
    ensures var r := Rest(e); var h := Run(m, f, acts).1;
      Lookup(m, [], g, x) == Lookup(m, [], MergeKids(m, [], h, JoinRoots(m, h, r)), x)
        == Lookup(m, [], Run(m, MergeKids(m, [], f, JoinRoots(m, f, r)), acts).1, x)
  {
    hide FitKids, Run, Named, Sigs, Compatible, Lookup, MergeKids, Outcome, Rest, Sites, InDocumentOrder, RestOf,
      JoinedValue;
    var r, sigs := Rest(e), Sigs(m, acts);
    SameTargets(m, [], [], e);
    CompatiblePermutes(m, f, AllSites(m, e), sigs);
    RestOfSame(m, r, AllSites(m, e), sigs);
    JoinedRest(m, f, r, sigs);
    MergeFirstOrLast(m, f, acts, JoinRoots(m, f, r), x);
    RestIsFit(m, r, sigs);
    JoinsLookup(m, f, r, x);
    SettledAt(m, f, acts, r, x);
    RunOutcome(m, f, acts, x);
    var h := Run(m, f, acts).1;
    JoinUntouched(m, r, sigs, x, Lookup(m, [], f, x), Lookup(m, [], h, x));
    JoinsFit(m, h, r);
    JoinsLookup(m, h, r, x);
    MergeRest(m, h, JoinRoots(m, h, r), x);
    var v :| Outcome(m, AllSites(m, e), x, Lookup(m, [], f, x), v) &&
      Lookup(m, [], g, x) == Override(v, JoinedValue(m, x, v, Lookup(m, [], r, x)));
    SameOutcome(m, AllSites(m, e), sigs, x, Lookup(m, [], f, x), v, Lookup(m, [], h, x));
  }

  lemma RestIsFit(m: Model, r: seq<Node>, sigs: seq<Sig>)
    requires RestOf(m, r, sigs)
    ensures FitKids(m, [], r)
  {
  }

  lemma RestOfSame(m: Model, r: seq<Node>, a: seq<Sig>, b: seq<Sig>)
    requires RestOf(m, r, a) && forall s :: s in a <==> s in b
    ensures RestOf(m, r, b)
  {
  }
}
