/** A whole edit-config: the checks, the compaction, and the operations. */
module Editing {
  import opened Xml
  import opened Schema
  import opened Matching
  import opened Equivalents
  import opened Merge
  import opened MergeMeaning
  import opened Instances
  import opened Operation
  import opened Compaction
  import opened Deletion
  import opened Creation
  import opened Targets
  import opened Effects
  import opened Phases
  import opened EditSites
  import opened EditMerge
  import opened EditPhases
  import opened Prechecks

  // ---- operation attributes do not matter for finding an equivalent

  lemma {:induction false} UnmarkedAt(f: seq<Node>)
    ensures |Unmarked(f)| == |f| && forall i :: 0 <= i < |f| ==> Unmarked(f)[i] == UnmarkedNode(f[i])
  {
    if f != [] {
      UnmarkedAt(f[1..]);
      assert forall i :: 0 < i < |f| ==> f[i] == f[1..][i - 1];
    }
  }

  lemma {:induction false} UnmarkedContent(f: seq<Node>)
    ensures ContentOf(Unmarked(f)) == ContentOf(f)
    decreases f
  {
    if f != [] {
      UnmarkedContent(f[1..]);
      if f[0].Element? {
        UnmarkedContent(f[0].kids);
      }
    }
  }

  lemma {:induction false} UnmarkedNamed(f: seq<Node>, name: string)
    ensures FirstNamed(Unmarked(f), name) == FirstNamed(f, name)
  {
    if f != [] {
      var rest := Unmarked(f[1..]);
      var all := [UnmarkedNode(f[0])] + rest;
      assert Unmarked(f) == all && all[1..] == rest && NameOf(all[0]) == NameOf(f[0]) by {
        hide FirstNamed;
      }
      UnmarkedNamed(f[1..], name);
      hide Unmarked, UnmarkedNode;
    }
  }

  lemma UnmarkedValue(m: Model, f: seq<Node>, name: string)
    ensures KidValue(m, Unmarked(f), name) == KidValue(m, f, name)
  {
    hide Unmarked;
    UnmarkedNamed(f, name);
    UnmarkedAt(f);
    match FirstNamed(f, name)
    case None =>
    case Some(i) => {
      if f[i].Element? {
        UnmarkedContent(f[i].kids);
      }
    }
  }

  lemma UnmarkedMatches(m: Model, e: Node, o: Node, leaf: bool)
    ensures Matches(m, UnmarkedNode(e), o, leaf) <==> Matches(m, e, o, leaf)
    ensures NameOf(UnmarkedNode(e)) == NameOf(e)
  {
    hide KidValue, Unmarked, KeysOf;
    if e.Element? {
      UnmarkedAt(e.kids);
      forall k: string
        ensures KidValue(m, Unmarked(e.kids), k) == KidValue(m, e.kids, k)
      {
        UnmarkedValue(m, e.kids, k);
      }
    }
  }

  lemma UnmarkedFirst(m: Model, e: Node, kids: seq<Node>, leaf: bool)
    ensures FirstMatch(m, UnmarkedNode(e), kids, leaf) == FirstMatch(m, e, kids, leaf)
  {
    hide Matches;
    forall o: Node
      ensures Matches(m, UnmarkedNode(e), o, leaf) <==> Matches(m, e, o, leaf)
    {
      UnmarkedMatches(m, e, o, leaf);
    }
    var a, b := FirstMatch(m, UnmarkedNode(e), kids, leaf), FirstMatch(m, e, kids, leaf);
    assert a.Some? ==> Matches(m, e, kids[a.value], leaf);
    assert b.Some? ==> Matches(m, UnmarkedNode(e), kids[b.value], leaf);
  }

  lemma {:induction false} UnmarkedFind(m: Model, at: seq<string>, f: seq<Node>, chain: seq<Node>)
    ensures FindEquiv(m, at, f, Unmarked(chain)) == FindEquiv(m, at, f, chain)
    decreases chain
  {
    hide FirstMatch, IsLeafList, UnmarkedNode;
    if chain != [] {
      var here := at + [NameOf(chain[0])];
      var i := FirstMatch(m, chain[0], f, IsLeafList(m, here));
      UnmarkedMatches(m, chain[0], chain[0], false);
      UnmarkedFirst(m, chain[0], f, IsLeafList(m, here));
      assert Unmarked(chain)[1..] == Unmarked(chain[1..]);
      if i.Some? {
        UnmarkedFind(m, here, KidsOf(f[i.value]), chain[1..]);
      }
    }
  }

  lemma {:induction false} UnmarkedChain(f: seq<Node>, q: Path)
    requires IsNode(f, q)
    ensures IsNode(Unmarked(f), q) && Chain(Unmarked(f), q) == Unmarked(Chain(f, q))
    decreases q
  {
    UnmarkedAt(f);
    var n := f[q[0]];
    if |q| == 1 {
      assert [n][1..] == [];
      assert Unmarked([n]) == [UnmarkedNode(n)] + Unmarked([]);
    } else {
      UnmarkedChain(n.kids, q[1..]);
      var rest := Chain(n.kids, q[1..]);
      assert ([n] + rest)[1..] == rest && ([n] + rest)[0] == n;
    }
  }

  // ---- nor for what an edit says

  lemma UnmarkedText(n: Node)
    requires n.Element?
    ensures UnmarkedNode(n).Element? && (TextFirst(UnmarkedNode(n)) <==> TextFirst(n))
    ensures TextFirst(n) ==> UnmarkedNode(n).kids[0] == n.kids[0]
    ensures HoldsText(UnmarkedNode(n)) <==> HoldsText(n)
  {
    UnmarkedAt(n.kids);
  }

  lemma {:induction false} UnmarkedValues(m: Model, f: seq<Node>, names: seq<string>)
    ensures KeyValues(m, Unmarked(f), names) == KeyValues(m, f, names)
  {
    hide KidValue;
    if names != [] {
      UnmarkedValue(m, f, names[0]);
      UnmarkedValues(m, f, names[1..]);
    }
  }

  lemma UnmarkedSame(m: Model, at: seq<string>, n: Node)
    requires n.Element?
    ensures UnmarkedNode(n).Element? && IdOf(m, at, UnmarkedNode(n)) == IdOf(m, at, n)
    ensures ValueOf(m, at, UnmarkedNode(n)) == ValueOf(m, at, n)
    ensures Addressed(m, at, UnmarkedNode(n)) <==> Addressed(m, at, n)
  {
    UnmarkedText(n);
    UnmarkedValues(m, n.kids, KeysOf(m, n.name));
    forall k: string
      ensures FirstNamed(Unmarked(n.kids), k) == FirstNamed(n.kids, k)
    {
      UnmarkedNamed(n.kids, k);
    }
    hide Unmarked, KeyValues, KeysOf, FirstNamed, IsLeafList;
  }

  lemma {:induction false} UnmarkedSeek(m: Model, at: seq<string>, f: seq<Node>, id: Id)
    ensures SeekId(m, at, Unmarked(f), id) == SeekId(m, at, f, id)
    decreases f
  {
    hide IdOf, ValueOf, Addressed;
    if f != [] {
      assert Unmarked(f)[1..] == Unmarked(f[1..]) && Unmarked(f)[0] == UnmarkedNode(f[0]);
      SeekHead(m, at, f, id);
      SeekHead(m, at, Unmarked(f), id);
      UnmarkedSeek(m, at, f[1..], id);
      if f[0].Element? {
        UnmarkedSame(m, at, f[0]);
      }
    }
  }

  lemma {:induction false} UnmarkedLookup(m: Model, at: seq<string>, f: seq<Node>, x: seq<Id>)
    requires x != []
    ensures Lookup(m, at, Unmarked(f), x) == Lookup(m, at, f, x)
    decreases x
  {
    hide SeekId, Unmarked, IdOf, ValueOf, Addressed;
    UnmarkedSeek(m, at, f, x[0]);
    var i := SeekId(m, at, f, x[0]);
    if i.Some? {
      var n := f[i.value];
      UnmarkedAt(f);
      UnmarkedSame(m, at, n);
      UnmarkedParts(n);
      if |x| > 1 {
        UnmarkedLookup(m, at + [n.name], n.kids, x[1..]);
      }
    }
  }

  lemma UnmarkedParts(n: Node)
    requires n.Element?
    ensures UnmarkedNode(n).Element? && UnmarkedNode(n).name == n.name && UnmarkedNode(n).kids == Unmarked(n.kids)
  {
  }

  lemma {:induction false} UnmarkedFits(m: Model, at: seq<string>, f: seq<Node>)
    ensures FitKids(m, at, Unmarked(f)) <==> FitKids(m, at, f)
    decreases f
  {
    hide FitNode, IdOf, Unmarked, UnmarkedNode, Addressed, ValueOf;
    UnmarkedAt(f);
    forall i | 0 <= i < |f|
      ensures FitNode(m, at, Unmarked(f)[i]) <==> FitNode(m, at, f[i])
      ensures f[i].Element? ==> Unmarked(f)[i].Element? && IdOf(m, at, Unmarked(f)[i]) == IdOf(m, at, f[i])
    {
      if f[i].Element? {
        UnmarkedSame(m, at, f[i]);
        UnmarkedFits(m, at + [f[i].name], f[i].kids);
        UnmarkedNodeFits(m, at, f[i]);
      } else {
        TextNeverFits(m, at, f[i]);
      }
    }
    SameFitness(m, at, f, Unmarked(f));
  }

  lemma TextNeverFits(m: Model, at: seq<string>, n: Node)
    requires n.Text?
    ensures UnmarkedNode(n) == n && !FitNode(m, at, n)
  {
  }

  lemma SameFitness(m: Model, at: seq<string>, f: seq<Node>, g: seq<Node>)
    requires |f| == |g| && forall i :: 0 <= i < |f| ==>
      (FitNode(m, at, g[i]) <==> FitNode(m, at, f[i])) &&
      (f[i].Element? ==> g[i].Element? && IdOf(m, at, g[i]) == IdOf(m, at, f[i]))
    ensures FitKids(m, at, g) <==> FitKids(m, at, f)
  {
    hide IdOf;
    if forall i :: 0 <= i < |f| ==> FitNode(m, at, f[i]) {
      forall i | 0 <= i < |f|
        ensures FitNode(m, at, g[i]) && f[i].Element? && IdOf(m, at, g[i]) == IdOf(m, at, f[i])
      {
        FitNodeAddressed(m, at, f[i]);
      }
    } else {
      var i :| 0 <= i < |f| && !FitNode(m, at, f[i]);
      assert !FitNode(m, at, g[i]);
    }
  }

  lemma UnmarkedNodeFits(m: Model, at: seq<string>, n: Node)
    requires n.Element? && (FitKids(m, at + [n.name], Unmarked(n.kids)) <==> FitKids(m, at + [n.name], n.kids))
    ensures FitNode(m, at, UnmarkedNode(n)) <==> FitNode(m, at, n)
  {
    hide FitKids, Addressed, ValueOf, IdOf, Unmarked;
    UnmarkedSame(m, at, n);
    UnmarkedText(n);
    UnmarkedParts(n);
  }

  /** An edit says the same after compaction. */
  lemma CompactedSays(m: Model, e: seq<Node>, inherited: Op, x: seq<Id>)
    requires x != []
    ensures var c := CompactKids(e, inherited).1;
      (FitKids(m, [], c) <==> FitKids(m, [], e)) && Lookup(m, [], c, x) == Lookup(m, [], e, x)
  {
    hide CompactKids, FitKids, Lookup, Unmarked;
    var c := CompactKids(e, inherited).1;
    CompactionTouchesOperationsOnly(e, inherited);
    UnmarkedFits(m, [], c);
    UnmarkedFits(m, [], e);
    UnmarkedLookup(m, [], c, x);
    UnmarkedLookup(m, [], e, x);
  }

  // ---- what the checks found stays found

  lemma {:induction false} CompactedCarries(e: seq<Node>, inherited: Op, q: Path, op: Op)
    requires CompactKids(e, inherited).0 && Carries(CompactKids(e, inherited).1, q, op) && op != NotSet
    ensures Carries(e, q, op)
    decreases q
  {
    hide CompactKids;
    CompactAt(e, inherited, q[0]);
    if |q| > 1 {
      CompactedCarries(e[q[0]].kids, InForce(e[q[0]], inherited), q[1..], op);
    }
  }

  lemma CompactedAnswers(m: Model, f: seq<Node>, e: seq<Node>, inherited: Op, op: Op)
    requires CompactKids(e, inherited).0 && AllAnswer(m, f, e, op) && op != NotSet
    ensures AllAnswer(m, f, CompactKids(e, inherited).1, op)
  {
    hide CompactKids, FindEquiv, Chain, Unmarked;
    var c := CompactKids(e, inherited).1;
    CompactionTouchesOperationsOnly(e, inherited);
    forall q | Carries(c, q, op)
      ensures Answers(m, f, c, q, op)
    {
      CompactedCarries(e, inherited, q, op);
      UnmarkedChain(c, q);
      UnmarkedChain(e, q);
      UnmarkedFind(m, [], f, Chain(c, q));
      UnmarkedFind(m, [], f, Chain(e, q));
      assert Answers(m, f, e, q, op);
    }
  }

  // ---- the whole

  /** Both checks pass and every operation is known. */
  ghost predicate Admitted(m: Model, f: seq<Node>, e: seq<Node>, d: DefOp) {
    AllPass(m, f, e, DeleteOp, d) && AllPass(m, f, e, CreateOp, d) && AllKnown(e)
  }

  /** The two checks and the compaction, where defaults are handled explicitly. */
  method CheckAndCompact(m: Model, d: DefOp, orig: Document, edit: Document) returns (ok: bool)
    requires orig != edit
    modifies orig, edit
    ensures ok <==> Admitted(m, old(orig.roots), old(edit.roots), d)
    ensures orig.roots == old(orig.roots)
    ensures ok ==> edit.roots == CompactKids(old(edit.roots), Cast(d)).1 && CompactKids(old(edit.roots), Cast(d)).0
  {
    hide AllPass, AllKnown, CompactKids, CheckFrom;
    ghost var f, e := orig.roots, edit.roots;
    ExplicitCheck(m, DeleteOp, d, f, e);
    ExplicitCheck(m, CreateOp, d, f, e);
    ok := CheckEditOps(m, ExplicitOnly, DeleteOp, d, orig, edit);
    if !ok {
      return;
    }
    ok := CheckEditOps(m, ExplicitOnly, CreateOp, d, orig, edit);
    if !ok {
      return;
    }
    CompactionFailsExactly(e, Cast(d));
    ok := CompactEditOperations(edit, d);
  }

  /** What is added is fit and can be reached. */
  ghost predicate Reachable(m: Model, f: seq<Node>, s: Sig) {
    |s.target| == |s.at| + 1 &&
    (Adds(s.op) ==> FitNode(m, s.at, StripOp(s.node)) && MissingBare(m, f, s) && Rooted(m, f, s))
  }

  /** The compacted edit has no nested and no overlapping operations, what it adds is fit
      and can be reached, and what is left of it is an ordinary edit. */
  ghost predicate Sensible(m: Model, f: seq<Node>, c: seq<Node>) {
    EditFine(m, [], c) && RestOf(m, Rest(c), AllSites(m, c)) && NoPlaces(m, [], Rest(c)) &&
    var s := AllSites(m, c);
    (forall i :: 0 <= i < |s| ==> Reachable(m, f, s[i])) && (f == [] ==> OneRoot(s)) &&
    forall i, j :: 0 <= i < j < |s| ==> Apart(s[i], s[j])
  }

  /** The targets of one operation can be handled once the checks have passed. */
  lemma OnePossible(m: Model, f: seq<Node>, c: seq<Node>, op: Op)
    requires WellKeyed(m) && FitKids(m, [], f) && EditFine(m, [], c) && Explicit(op) && AllAnswer(m, f, c, op)
    ensures forall s :: s in Sites(m, [], [], c, op) && Reachable(m, f, s) ==> Possible(m, f, s)
  {
    hide EditFine, Lookup, FitKids, Sites, FitNode, MissingBare, Rooted, AllAnswer;
    CheckedTargets(m, f, c, op);
    forall s | s in Sites(m, [], [], c, op) && Reachable(m, f, s)
      ensures Possible(m, f, s)
    {
      var k :| 0 <= k < |Sites(m, [], [], c, op)| && Sites(m, [], [], c, op)[k] == s;
    }
  }

  lemma NothingToAnswer(m: Model, f: seq<Node>, c: seq<Node>, op: Op)
    requires op != DeleteOp && op != CreateOp
    ensures AllAnswer(m, f, c, op)
  {
  }

  /** Once the checks have passed, all operations can be performed. */
  lemma CheckedIsCompatible(m: Model, f: seq<Node>, c: seq<Node>)
    requires WellKeyed(m) && FitKids(m, [], f) && Sensible(m, f, c)
    requires AllAnswer(m, f, c, DeleteOp) && AllAnswer(m, f, c, CreateOp)
    ensures Compatible(m, f, AllSites(m, c))
  {
    hide EditFine, FitKids, Sites, AllAnswer, Reachable, Possible, RestOf, Rest, Apart, OneRoot;
    NothingToAnswer(m, f, c, RemoveOp);
    NothingToAnswer(m, f, c, ReplaceOp);
    OnePossible(m, f, c, DeleteOp);
    OnePossible(m, f, c, RemoveOp);
    OnePossible(m, f, c, ReplaceOp);
    OnePossible(m, f, c, CreateOp);
    var s := AllSites(m, c);
    forall i | 0 <= i < |s|
      ensures Possible(m, f, s[i])
    {
      assert s[i] in s;
    }
  }

  /** edit-config with default operation merge, or none given, where defaults are handled
      explicitly: it succeeds exactly if the checks pass and all operations are known, and
      otherwise leaves the configuration as it was. When it succeeds, every target is what
      its operation says and the rest of the edit is merged. */
  method EditConfig(m: Model, d: DefOp, orig: Document, edit: Document) returns (ok: bool)
    requires d.DefMerge? || d.DefNotSet?
    requires orig != edit && Plain(m) && FitKids(m, [], orig.roots)
    requires Admitted(m, orig.roots, edit.roots, d) ==>
      Sensible(m, orig.roots, CompactKids(edit.roots, Cast(d)).1)
    modifies orig, edit
    ensures ok <==> Admitted(m, old(orig.roots), old(edit.roots), d)
    ensures !ok ==> orig.roots == old(orig.roots)
    ensures ok ==> edit.roots == [] && FitKids(m, [], orig.roots)
    ensures OpFree(old(orig.roots)) ==> OpFree(orig.roots)
    ensures ok ==>
      var c := CompactKids(old(edit.roots), Cast(d)).1;
      forall x :: x != [] ==> Settles(m, old(orig.roots), AllSites(m, c), Rest(c), orig.roots, x)
  {
    hide AllPass, AllKnown, AllAnswer, CompactKids, FitKids, Settles, EditFine, RestOf, AllSites, Rest, Compatible,
      Apart, OneRoot, Reachable;
    ghost var f, e := orig.roots, edit.roots;
    ok := CheckAndCompact(m, d, orig, edit);
    if !ok {
      return;
    }
    PassedAnswer(m, f, e, DeleteOp, d);
    PassedAnswer(m, f, e, CreateOp, d);
    CompactedAnswers(m, f, e, Cast(d), DeleteOp);
    CompactedAnswers(m, f, e, Cast(d), CreateOp);
    CheckedIsCompatible(m, f, edit.roots);
    ok := EditOperations(m, orig, edit);
  }

  // ---- such edits exist

  lemma {:induction false} OpFreeRepeatsNothing(kids: seq<Node>, inherited: Op)
    requires OpFree(kids)
    ensures NoRepeats(kids, inherited)
    decreases kids
  {
    forall i | 0 <= i < |kids| && kids[i].Element?
      ensures OwnOp(kids[i]) == NotSet && NoRepeats(kids[i].kids, inherited)
    {
      OpFreeRepeatsNothing(kids[i].kids, inherited);
    }
  }

  lemma RootTarget(m: Model, n: Node)
    requires FitNode(m, [], n) && OpFree(n.kids) && OwnOp(n) == CreateOp && AsksNoPlace(m, [NameOf(n)], n)
    ensures n.Element? && EditFine(m, [], [n]) && Rest([n]) == []
    ensures AllSites(m, [n]) == [Sig(CreateOp, [IdOf(m, [], n)], [], n)]
  {
    hide IdOf, FitNode, Addressed;
    FitNodeAddressed(m, [], n);
    AddressedIsElement(m, [], n);
    assert [] + [n.name] == [n.name];
    assert [n][1..] == [] && [] + [IdOf(m, [], n)] == [IdOf(m, [], n)];
    var sig := Sig(CreateOp, [IdOf(m, [], n)], [], n);
    forall op | Explicit(op)
      ensures Sites(m, [], [], [n], op) == if op == CreateOp then [sig] else []
    {
      assert Sites(m, [], [], [n], op) == SitesOf(m, [], [], n, op) + Sites(m, [], [], [], op);
    }
  }

  lemma RootPasses(m: Model, f: seq<Node>, n: Node, d: DefOp)
    requires FitKids(m, [], f) && Addressed(m, [], n) && OpFree(n.kids) && OwnOp(n) == CreateOp
    requires SeekId(m, [], f, IdOf(m, [], n)).None?
    ensures AllPass(m, f, [n], DeleteOp, d) && AllPass(m, f, [n], CreateOp, d)
  {
    hide FitKids, SeekId, FirstMatch, IdOf, Addressed, IsLeafList;
    MatchIsSeek(m, [], f, n);
    forall q, op | Carries([n], q, op) && op != NotSet
      ensures q == [0] && op == CreateOp
    {
      if |q| > 1 {
        OpFreeCarriesNothing(n.kids, q[1..]);
      }
    }
  }

  /** Creating a root that is not there yet is such an edit, and the operation succeeds. */
  lemma RootCreationAdmitted(m: Model, f: seq<Node>, n: Node, d: DefOp)
    requires WellKeyed(m) && FitKids(m, [], f) && FitNode(m, [], n) && OpFree(n.kids) && OwnOp(n) == CreateOp
    requires AsksNoPlace(m, [NameOf(n)], n)
    requires Lookup(m, [], f, [IdOf(m, [], n)]).None? && (d.DefMerge? || d.DefNotSet?)
    ensures Admitted(m, f, [n], d) && CompactKids([n], Cast(d)) == (true, [n]) && Sensible(m, f, [n])
  {
    hide FitKids, FitNode, SeekId, IdOf, Addressed, AllPass, AllKnown, CompactKids, EditFine, AllSites, Rest, NoRepeats;
    FitNodeAddressed(m, [], n);
    RootPasses(m, f, n, d);
    RootTarget(m, n);
    StripFits(m, n);
    assert NoRepeats([n], Cast(d)) by {
      OpFreeRepeatsNothing(n.kids, CreateOp);
      OneNoRepeats(n, Cast(d));
    }
    NoRepeatsIsCompact([n], Cast(d));
    CompactionFailsExactly([n], Cast(d));
    EmptyLookup(m, [], [IdOf(m, [], n)]);
    NothingFits(m);
  }

  lemma OneNoRepeats(n: Node, inherited: Op)
    requires n.Element? && OwnOp(n) == CreateOp != inherited && NoRepeats(n.kids, CreateOp)
    ensures NoRepeats([n], inherited)
  {
  }

  lemma NothingFits(m: Model)
    ensures FitKids(m, [], [])
  {
  }

  // ---- default operation replace

  /** The configuration after a root of the edit has replaced its equivalent. */
  function ReplaceRoot(m: Model, f: seq<Node>, n: Node): seq<Node> {
    Perform(m, f, Act(ReplaceOp, [], n)).1
  }

  function ReplaceRoots(m: Model, f: seq<Node>, e: seq<Node>): seq<Node>
    decreases e
  {
    if e == [] then f else ReplaceRoots(m, ReplaceRoot(m, f, e[0]), e[1..])
  }

  predicate RootsAskNoPlace(m: Model, e: seq<Node>) {
    forall i :: 0 <= i < |e| ==> AsksNoPlace(m, [NameOf(e[i])], e[i])
  }

  /** Compaction leaves insert attributes alone. */
  lemma CompactedAsksNoPlace(m: Model, e: seq<Node>, inherited: Op)
    requires RootsAskNoPlace(m, e)
    ensures RootsAskNoPlace(m, CompactKids(e, inherited).1)
  {
    hide CompactKids, UserOrdered, BranchOf;
    var c := CompactKids(e, inherited).1;
    CompactionTouchesOperationsOnly(e, inherited);
    UnmarkedAt(c);
    UnmarkedAt(e);
    forall i | 0 <= i < |c|
      ensures AsksNoPlace(m, [NameOf(c[i])], c[i])
    {
      assert AsksNoPlace(m, [NameOf(e[i])], e[i]);
      SameInsert(c[i], e[i]);
    }
  }

  lemma SameInsert(a: Node, b: Node)
    requires UnmarkedNode(a) == UnmarkedNode(b)
    ensures NameOf(a) == NameOf(b) && a.Element? == b.Element?
    ensures a.Element? ==> (INSERT in a.attrs <==> INSERT in b.attrs)
  {
    hide UnmarkedNode;
    KeepsInsert(a);
    KeepsInsert(b);
  }

  lemma KeepsInsert(a: Node)
    ensures NameOf(UnmarkedNode(a)) == NameOf(a) && UnmarkedNode(a).Element? == a.Element?
    ensures a.Element? ==> (INSERT in UnmarkedNode(a).attrs <==> INSERT in a.attrs)
  {
    hide Unmarked;
    assert INSERT[0] != OPERATION[0];
  }

  /** Replaces root by root until the edit is used up. */
  method DefaultReplace(m: Model, orig: Document, edit: Document)
    requires orig != edit && RootsAskNoPlace(m, edit.roots)
    modifies orig, edit
    ensures orig.roots == ReplaceRoots(m, old(orig.roots), old(edit.roots)) && edit.roots == []
  {
    hide ReplaceRoot, Perform;
    while edit.roots != []
      invariant RootsAskNoPlace(m, edit.roots)
      invariant ReplaceRoots(m, orig.roots, edit.roots) == ReplaceRoots(m, old(orig.roots), old(edit.roots))
      decreases |edit.roots|
    {
      FirstRoot(m, orig.roots, edit.roots);
      EditReplace(m, orig, edit, [0]);
    }
  }

  lemma FirstRoot(m: Model, f: seq<Node>, e: seq<Node>)
    requires e != []
    ensures RemoveAt(e, [0]) == e[1..] && Parent([0]) == [] && Chain(e, []) == [] && Chain(e, [0]) == [e[0]]
    ensures Names([e[0]]) == [NameOf(e[0])]
    ensures var found := FindEquiv(m, [], f, [e[0]]);
      ReplaceRoot(m, f, e[0]) == CreateNode(m, if found.Some? then RemoveAt(f, found.value) else f, [], e[0])
  {
    assert Without(e, 0) == e[1..];
    assert [] + [e[0]] == [e[0]] && [e[0]][1..] == [];
  }

  /** One root: below it the edit decides, everything else stays. */
  lemma RootReplaced(m: Model, f: seq<Node>, n: Node, x: seq<Id>)
    requires Plain(m) && FitKids(m, [], f) && FitNode(m, [], n) && x != []
    ensures n.Element? && FitKids(m, [], ReplaceRoot(m, f, n))
    ensures Lookup(m, [], ReplaceRoot(m, f, n), x) ==
      if x[0] == IdOf(m, [], n) then Lookup(m, [], [n], x) else Lookup(m, [], f, x)
  {
    hide FitKids, FitNode, Lookup, IdOf, Perform;
    FitNodeAddressed(m, [], n);
    var a := Act(ReplaceOp, [], n);
    var s := SigOf(m, a);
    StripFits(m, n);
    assert [] + [IdOf(m, [], n)] == [IdOf(m, [], n)];
    PerformEffect(m, f, a, x);
    assert x[0..] == x && x[..1] == [x[0]];
    StripLooks(m, n, x);
    assert !(Under(x, s.target) && !Under(s.target, x));
  }

  lemma StripFits(m: Model, n: Node)
    requires FitNode(m, [], n)
    ensures FitNode(m, [], StripOp(n))
  {
  }

  lemma StripLooks(m: Model, n: Node, x: seq<Id>)
    requires n.Element? && x != []
    ensures StripOp(n).Element? && Lookup(m, [], [StripOp(n)], x) == Lookup(m, [], [n], x)
  {
    LookupOne(m, [], n, x);
    LookupOne(m, [], StripOp(n), x);
  }

  /** Default operation replace: what the edit says about an instance below one of its
      roots, and what was there before for all others. */
  lemma {:induction false} DefaultReplaceMeans(m: Model, f: seq<Node>, e: seq<Node>, x: seq<Id>)
    requires Plain(m) && FitKids(m, [], f) && FitKids(m, [], e) && x != []
    ensures FitKids(m, [], ReplaceRoots(m, f, e))
    ensures Lookup(m, [], ReplaceRoots(m, f, e), x) ==
      if Lookup(m, [], e, x[..1]).Some? then Lookup(m, [], e, x) else Lookup(m, [], f, x)
    decreases e
  {
    hide FitKids, FitNode, Lookup, IdOf, ReplaceRoot;
    if e == [] {
      EmptyLookup(m, [], x[..1]);
    } else {
      var n, t := e[0], e[1..];
      assert e == [n] + t;
      TailFits(m, [], e);
      FitNodeAddressed(m, [], n);
      LookupCons(m, [], n, t, x);
      LookupCons(m, [], n, t, x[..1]);
      TopLookup(m, [n], x);
      TopLookup(m, t, x);
      OneRootFound(m, n);
      RootReplaced(m, f, n, x);
      DefaultReplaceMeans(m, ReplaceRoot(m, f, n), t, x);
    }
  }

  lemma TopLookup(m: Model, f: seq<Node>, x: seq<Id>)
    requires x != []
    ensures Lookup(m, [], f, x[..1]).Some? <==> SeekId(m, [], f, x[0]).Some?
  {
  }

  lemma OneRootFound(m: Model, n: Node)
    requires n.Element?
    ensures SeekId(m, [], [n], IdOf(m, [], n)).Some?
  {
  }

  /** edit-config with default operation replace, where defaults are handled explicitly: it
      succeeds exactly if the checks pass and all operations are known, and otherwise
      leaves the configuration as it was. When it succeeds, each root of the edit has
      replaced its equivalent. */
  method EditConfigReplacing(m: Model, orig: Document, edit: Document) returns (ok: bool)
    requires orig != edit && Plain(m) && FitKids(m, [], orig.roots) && FitKids(m, [], edit.roots)
    requires RootsAskNoPlace(m, edit.roots)
    modifies orig, edit
    ensures ok <==> Admitted(m, old(orig.roots), old(edit.roots), DefReplace)
    ensures !ok ==> orig.roots == old(orig.roots)
    ensures ok ==> edit.roots == [] && FitKids(m, [], orig.roots)
    ensures ok ==> orig.roots == ReplaceRoots(m, old(orig.roots), CompactKids(old(edit.roots), ReplaceOp).1)
    ensures ok ==> forall x :: x != [] ==>
      var e := old(edit.roots);
      Lookup(m, [], orig.roots, x) ==
        if Lookup(m, [], e, x[..1]).Some? then Lookup(m, [], e, x) else Lookup(m, [], old(orig.roots), x)
  {
    hide Admitted, CompactKids, FitKids, Lookup, ReplaceRoots;
    ghost var f, e := orig.roots, edit.roots;
    ok := CheckAndCompact(m, DefReplace, orig, edit);
    if !ok {
      return;
    }
    ghost var c := edit.roots;
    CompactedAsksNoPlace(m, e, ReplaceOp);
    DefaultReplace(m, orig, edit);
    CompactedSays(m, e, ReplaceOp, [Id("", [])]);
    DefaultReplaceMeans(m, f, c, [Id("", [])]);
    forall x: seq<Id> | x != []
      ensures Lookup(m, [], orig.roots, x) ==
        if Lookup(m, [], e, x[..1]).Some? then Lookup(m, [], e, x) else Lookup(m, [], f, x)
    {
      CompactedSays(m, e, ReplaceOp, x);
      CompactedSays(m, e, ReplaceOp, x[..1]);
      DefaultReplaceMeans(m, f, c, x);
    }
  }
}
