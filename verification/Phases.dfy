/** Explicit operations one after the other: what a run of them makes of the map, and why
    their order does not matter. */
module Phases {
  import opened Xml
  import opened Sequences
  import opened Schema
  import opened Instances
  import opened Equivalents
  import opened Merge
  import opened MergeMeaning
  import opened Operation
  import opened Creation
  import opened Targets
  import opened Deletion
  import opened Effects

  /** An operation by what it targets: the instance, the names of its ancestors, and the
      edit node. */
  datatype Sig = Sig(op: Op, target: seq<Id>, at: seq<string>, node: Node)

  /** What an operation does to the value v at the instance path x. */
  function Effect(m: Model, s: Sig, x: seq<Id>, v: Option<Val>): Option<Val>
    requires x != [] && |s.target| == |s.at| + 1
  {
    if Under(s.target, x) then
      if Adds(s.op) then Lookup(m, s.at, [StripOp(s.node)], x[|s.at|..]) else None
    else if Adds(s.op) && Under(x, s.target) && v.None? then Some(Val.Inner)
    else v
  }

  predicate Explicit(op: Op) {
    op.DeleteOp? || op.RemoveOp? || op.ReplaceOp? || op.CreateOp?
  }

  function SigOf(m: Model, a: Act): (s: Sig)
    requires AllElements(a.parents) && a.node.Element?
    ensures |s.target| == |s.at| + 1
  {
    Sig(a.op, Target(m, a.parents, a.node), Names(a.parents), a.node)
  }

  /** The instance j levels below the root on the way to t. */
  function Upto(t: seq<Id>, j: nat): seq<Id>
    requires j < |t|
  {
    t[..j + 1]
  }

  /** The instances above the target that are missing are containers. */
  ghost predicate MissingBare(m: Model, f: seq<Node>, s: Sig)
    requires |s.target| == |s.at| + 1
  {
    forall j :: 0 <= j < |s.at| && Lookup(m, [], f, Upto(s.target, j)).None? ==>
      FitNode(m, s.at[..j], Element(s.at[j], map[], []))
  }

  predicate Rooted(m: Model, f: seq<Node>, s: Sig)
    requires |s.target| == |s.at| + 1
  {
    s.at == [] || f == [] || Lookup(m, [], f, s.target[..1]).Some?
  }

  /** The operation can be performed on f: what is created is fit and can be reached, a
      delete has something to delete, a create does not find its target. */
  ghost predicate Possible(m: Model, f: seq<Node>, s: Sig) {
    Explicit(s.op) && |s.target| == |s.at| + 1 &&
    (Adds(s.op) ==> FitNode(m, s.at, StripOp(s.node)) && MissingBare(m, f, s) && Rooted(m, f, s)) &&
    (s.op.CreateOp? ==> Lookup(m, [], f, s.target).None?) &&
    (s.op.DeleteOp? ==> Lookup(m, [], f, s.target).Some?)
  }

  /** The ancestors and the node of an operation say what they stand for. */
  predicate Named(m: Model, a: Act) {
    AllElements(a.parents) && a.node.Element? && Targeted(m, a.parents, a.node)
  }

  lemma TargetParts(m: Model, a: Act)
    requires Named(m, a)
    ensures var s := SigOf(m, a); var ids := IdsOf(m, [], a.parents);
      |ids| == |s.at| == |a.parents| && s.target[..|ids|] == ids && |s.target| == |ids| + 1 &&
      forall j :: 0 <= j < |ids| ==> Upto(s.target, j) == Upto(ids, j)
  {
    hide IdsOf, IdOf, Targeted, Names;
    var s, ids := SigOf(m, a), IdsOf(m, [], a.parents);
    assert s.target == ids + [IdOf(m, Names(a.parents), a.node)];
    forall j | 0 <= j < |ids|
      ensures Upto(s.target, j) == Upto(ids, j)
    {
    }
  }

  lemma {:induction false} NamesAreNames(chain: seq<Node>)
    requires AllElements(chain)
    ensures forall j :: 0 <= j < |chain| ==> Names(chain)[j] == chain[j].name
    decreases chain
  {
    if chain != [] {
      NamesAreNames(chain[1..]);
      assert forall j :: 0 < j < |chain| ==>
        Names(chain)[j] == Names(chain[1..])[j - 1] && chain[j] == chain[1..][j - 1];
    }
  }

  lemma ReadyToAdd(m: Model, f: seq<Node>, a: Act)
    requires Named(m, a) && Possible(m, f, SigOf(m, a)) && Adds(a.op)
    ensures MissingAreContainers(m, f, a.parents) && RootThere(m, f, a.parents)
    ensures FitNode(m, Names(a.parents), StripOp(a.node))
  {
    hide IdsOf, IdOf, Targeted, FitNode, Lookup, Names, Target;
    TargetParts(m, a);
    NamesAreNames(a.parents);
    var s, ids := SigOf(m, a), IdsOf(m, [], a.parents);
    if s.at != [] {
      assert Upto(s.target, 0) == Upto(ids, 0);
    }
    forall j | 0 <= j < |a.parents| && Lookup(m, [], f, ids[..j + 1]).None?
      ensures FitNode(m, Names(a.parents)[..j], Bare(a.parents[j]))
    {
      assert Upto(s.target, j) == Upto(ids, j);
    }
  }

  /** The target is found exactly if its instance is there. */
  lemma TargetFound(m: Model, f: seq<Node>, a: Act)
    requires WellKeyed(m) && FitKids(m, [], f) && Named(m, a)
    ensures FindEquiv(m, [], f, a.parents + [a.node]).Some? <==>
      Lookup(m, [], f, Target(m, a.parents, a.node)).Some?
  {
    hide FitKids, FindEquiv, Passable, IdOf, IdsOf, Lookup, SeekId, FirstMatch, IsLeafList;
    var parents, e := a.parents, a.node;
    FindSnoc(m, [], f, parents, e);
    assert [] + Names(parents) == Names(parents);
    var up := FindEquiv(m, [], f, parents);
    if up.Some? {
      ParentFits(m, f, parents, up.value);
      LookupLast(m, f, parents, up.value, IdOf(m, Names(parents), e));
      MatchIsSeek(m, Names(parents), KidsAt(f, up.value), e);
    } else {
      if parents == [] {
        FindNothing(m, [], f);
      }
      FoundIsThere(m, [], f, parents);
      TargetParts(m, a);
      var t := Target(m, parents, e);
      if Lookup(m, [], f, t).Some? {
        LookupPrefix(m, [], f, t, |parents|);
      }
    }
  }

  lemma DeleteStep(m: Model, f: seq<Node>, a: Act, x: seq<Id>)
    requires Plain(m) && FitKids(m, [], f) && Named(m, a) && Possible(m, f, SigOf(m, a)) && x != []
    requires a.op.DeleteOp? || a.op.RemoveOp?
    ensures Perform(m, f, a).0 && FitKids(m, [], Perform(m, f, a).1)
    ensures Lookup(m, [], Perform(m, f, a).1, x) == Effect(m, SigOf(m, a), x, Lookup(m, [], f, x))
  {
    hide FitKids, FindEquiv, Target, Lookup, Named, Targeted, RemoveAt, DeleteAll, Under, MissingBare, Rooted,
      FitNode, Names;
    assert AllElements(a.parents) && a.node.Element? && Targeted(m, a.parents, a.node) by {
      NamedMeans(m, a);
    }
    TargetFound(m, f, a);
    if FindEquiv(m, [], f, a.parents + [a.node]).Some? {
      RemoveEffect(m, f, a.parents, a.node, x);
    } else if Under(Target(m, a.parents, a.node), x) {
      AbsentAbove(m, f, Target(m, a.parents, a.node), x);
    }
  }

  lemma NamedMeans(m: Model, a: Act)
    requires Named(m, a)
    ensures AllElements(a.parents) && a.node.Element? && Targeted(m, a.parents, a.node)
  {
  }

  lemma AbsentAbove(m: Model, f: seq<Node>, t: seq<Id>, x: seq<Id>)
    requires t != [] && Under(t, x) && Lookup(m, [], f, t).None?
    ensures Lookup(m, [], f, x).None?
  {
    hide Lookup;
    if Lookup(m, [], f, x).Some? {
      LookupPrefix(m, [], f, x, |t|);
    }
  }

  lemma CreateStep(m: Model, f: seq<Node>, a: Act, x: seq<Id>)
    requires Plain(m) && FitKids(m, [], f) && Named(m, a) && Possible(m, f, SigOf(m, a)) && x != []
    requires a.op.CreateOp?
    ensures Perform(m, f, a).0 && FitKids(m, [], Perform(m, f, a).1)
    ensures Lookup(m, [], Perform(m, f, a).1, x) == Effect(m, SigOf(m, a), x, Lookup(m, [], f, x))
  {
    hide FitKids, FindEquiv, Target, Lookup, Named, Targeted, CreateNode, Under, MissingBare, Rooted, FitNode, Names;
    NamedMeans(m, a);
    ReadyToAdd(m, f, a);
    CreateEffect(m, f, a.parents, a.node, x);
  }

  /** Taking the target out leaves everything above it as it was. */
  lemma StillReady(m: Model, f: seq<Node>, g: seq<Node>, s: Sig)
    requires |s.target| == |s.at| + 1 && MissingBare(m, f, s) && Rooted(m, f, s) && (f == [] ==> g == [])
    requires forall x :: x != [] ==>
      Lookup(m, [], g, x) == if Under(s.target, x) then None else Lookup(m, [], f, x)
    ensures MissingBare(m, g, s.(op := CreateOp)) && Rooted(m, g, s.(op := CreateOp))
  {
    hide Lookup;
    forall j | 0 <= j < |s.at| && Lookup(m, [], g, Upto(s.target, j)).None?
      ensures FitNode(m, s.at[..j], Element(s.at[j], map[], []))
    {
      assert !Under(s.target, Upto(s.target, j));
    }
    if s.at != [] {
      assert !Under(s.target, s.target[..1]);
    }
  }

  lemma NothingInEmpty(m: Model, chain: seq<Node>)
    requires chain != []
    ensures FindEquiv(m, [], [], chain).None?
  {
  }

  /** The document that the node of an operation that adds is created in. */
  function MadeRoom(m: Model, f: seq<Node>, a: Act): seq<Node> {
    var found := FindEquiv(m, [], f, a.parents + [a.node]);
    if a.op.ReplaceOp? && found.Some? then RemoveAt(f, found.value) else f
  }

  /** Taking out what is replaced leaves a document in which the node can be created. */
  lemma ReplaceIsCreate(m: Model, f: seq<Node>, a: Act)
    requires Plain(m) && FitKids(m, [], f) && Named(m, a) && Possible(m, f, SigOf(m, a)) && a.op.ReplaceOp?
    ensures var g, b := MadeRoom(m, f, a), a.(op := CreateOp);
      FitKids(m, [], g) && Named(m, b) && SigOf(m, b) == SigOf(m, a).(op := CreateOp) && Possible(m, g, SigOf(m, b))
    ensures forall y :: y != [] ==>
      Lookup(m, [], MadeRoom(m, f, a), y) ==
        if Under(SigOf(m, a).target, y) then None else Lookup(m, [], f, y)
  {
    hide FitKids, FindEquiv, Target, Lookup, Named, Targeted, RemoveAt, DeleteAll, Under, MissingBare,
      Rooted, FitNode, Names, MissingAreContainers, RootThere;
    NamedMeans(m, a);
    TargetFound(m, f, a);
    var found := FindEquiv(m, [], f, a.parents + [a.node]);
    var g, s := MadeRoom(m, f, a), SigOf(m, a);
    forall y: seq<Id> | y != []
      ensures Lookup(m, [], g, y) == if Under(s.target, y) then None else Lookup(m, [], f, y)
    {
      if found.Some? {
        RemoveEffect(m, f, a.parents, a.node, y);
      } else if Under(s.target, y) {
        AbsentAbove(m, f, s.target, y);
      }
    }
    if f == [] {
      NothingInEmpty(m, a.parents + [a.node]);
    }
    StillReady(m, f, g, s);
    UnderItself(s.target);
    ReadyToAddSame(m, f, a);
    if found.Some? {
      RemoveEffect(m, f, a.parents, a.node, s.target);
    }
  }

  lemma ReplaceStep(m: Model, f: seq<Node>, a: Act, x: seq<Id>)
    requires Plain(m) && FitKids(m, [], f) && Named(m, a) && Possible(m, f, SigOf(m, a)) && x != []
    requires a.op.ReplaceOp?
    ensures Perform(m, f, a).0 && FitKids(m, [], Perform(m, f, a).1)
    ensures Lookup(m, [], Perform(m, f, a).1, x) == Effect(m, SigOf(m, a), x, Lookup(m, [], f, x))
  {
    hide FitKids, FindEquiv, Target, Lookup, Named, Targeted, CreateNode, RemoveAt, DeleteAll, Under, MissingBare,
      Rooted, FitNode, Names, Possible;
    NamedMeans(m, a);
    ReplaceIsCreate(m, f, a);
    CreateStep(m, MadeRoom(m, f, a), a.(op := CreateOp), x);
    UnderExcludes(SigOf(m, a).target, x);
  }

  lemma ReadyToAddSame(m: Model, f: seq<Node>, a: Act)
    requires Named(m, a) && Possible(m, f, SigOf(m, a)) && Adds(a.op)
    ensures FitNode(m, Names(a.parents), StripOp(a.node)) && Named(m, a.(op := CreateOp))
    ensures SigOf(m, a.(op := CreateOp)) == SigOf(m, a).(op := CreateOp)
  {
  }

  lemma UnderExcludes(t: seq<Id>, x: seq<Id>)
    ensures Under(t, x) && Under(x, t) ==> x == t
  {
    if Under(t, x) && Under(x, t) {
      assert x == x[..|t|] && t == t[..|x|];
    }
  }

  /** Every possible operation succeeds, keeps the document fit and has its effect on the
      map. */
  lemma PerformEffect(m: Model, f: seq<Node>, a: Act, x: seq<Id>)
    requires Plain(m) && FitKids(m, [], f) && Named(m, a) && Possible(m, f, SigOf(m, a)) && x != []
    ensures Perform(m, f, a).0 && FitKids(m, [], Perform(m, f, a).1)
    ensures Lookup(m, [], Perform(m, f, a).1, x) == Effect(m, SigOf(m, a), x, Lookup(m, [], f, x))
  {
    hide FitKids, FindEquiv, Target, Lookup, Named, Targeted, Perform, Effect, MissingBare, Rooted, FitNode;
    if a.op.DeleteOp? || a.op.RemoveOp? {
      DeleteStep(m, f, a, x);
    } else if a.op.ReplaceOp? {
      ReplaceStep(m, f, a, x);
    } else {
      CreateStep(m, f, a, x);
    }
  }

  // ---- several operations

  predicate Apart(s: Sig, t: Sig) {
    !Under(s.target, t.target) && !Under(t.target, s.target)
  }

  predicate AllNamed(m: Model, acts: seq<Act>) {
    forall i :: 0 <= i < |acts| ==> Named(m, acts[i])
  }

  function Sigs(m: Model, acts: seq<Act>): (r: seq<Sig>)
    requires AllNamed(m, acts)
    ensures |r| == |acts| && forall i :: 0 <= i < |acts| ==> Named(m, acts[i]) && r[i] == SigOf(m, acts[i])
  {
    if acts == [] then []
    else
      NamedRest(m, acts);
      [SigOf(m, acts[0])] + Sigs(m, acts[1..])
  }

  lemma NamedRest(m: Model, acts: seq<Act>)
    requires AllNamed(m, acts) && acts != []
    ensures Named(m, acts[0]) && AllNamed(m, acts[1..])
  {
    hide Named;
  }

  /** No target lies in another, every operation is possible, and if something is created
      below a root in an empty document, everything created is below that root. */
  ghost predicate Compatible(m: Model, f: seq<Node>, sigs: seq<Sig>) {
    (forall i :: 0 <= i < |sigs| ==> Possible(m, f, sigs[i])) &&
    (forall i, j :: 0 <= i < j < |sigs| ==> Apart(sigs[i], sigs[j])) &&
    (f == [] ==> OneRoot(sigs))
  }

  predicate Below(s: Sig) {
    Adds(s.op) && |s.target| > 1
  }

  predicate OneRoot(sigs: seq<Sig>) {
    forall i, j :: 0 <= i < |sigs| && 0 <= j < |sigs| && Below(sigs[i]) && Adds(sigs[j].op) ==>
      Below(sigs[j]) && sigs[i].target[0] == sigs[j].target[0]
  }

  /** The document after a run of operations that stops at the first failure. */
  function Run(m: Model, f: seq<Node>, acts: seq<Act>): (bool, seq<Node>)
    requires AllNamed(m, acts)
    decreases |acts|
  {
    if acts == [] then (true, f)
    else
      assert Named(m, acts[0]);
      var (ok, g) := Perform(m, f, acts[0]);
      if !ok then (false, g) else Run(m, g, acts[1..])
  }

  /** v is what operations with these targets, in any order, leave at x, where there was v0:
      what the operation above x says, else what was there, or an ancestor that had to be
      created. */
  ghost predicate Outcome(m: Model, sigs: seq<Sig>, x: seq<Id>, v0: Option<Val>, v: Option<Val>)
    requires x != [] && forall i :: 0 <= i < |sigs| ==> |sigs[i].target| == |sigs[i].at| + 1
  {
    (forall s :: s in sigs && Under(s.target, x) ==> v == Effect(m, s, x, None)) &&
    ((forall s :: s in sigs ==> !Under(s.target, x)) ==>
      v == if v0.None? && exists s :: s in sigs && Adds(s.op) && Under(x, s.target) then Some(Val.Inner) else v0)
  }

  lemma UnderTrans(a: seq<Id>, b: seq<Id>, c: seq<Id>)
    ensures Under(a, b) && Under(b, c) ==> Under(a, c)
    ensures Under(a, c) && Under(b, c) ==> Under(a, b) || Under(b, a)
  {
    if Under(a, b) && Under(b, c) {
      assert c[..|a|] == c[..|b|][..|a|];
    }
    if Under(a, c) && Under(b, c) {
      if |a| <= |b| {
        assert c[..|b|][..|a|] == c[..|a|];
      } else {
        assert c[..|a|][..|b|] == c[..|b|];
      }
    }
  }

  lemma UpperIsUnder(t: seq<Id>, n: nat)
    requires n <= |t|
    ensures Under(t[..n], t)
  {
  }

  /** Every possible operation stays possible when one with a target apart from its own is
      performed. */
  lemma StaysPossible(m: Model, f: seq<Node>, g: seq<Node>, s: Sig, t: Sig)
    requires Possible(m, f, s) && Possible(m, f, t) && Apart(s, t)
    requires forall x :: x != [] ==> Lookup(m, [], g, x) == Effect(m, s, x, Lookup(m, [], f, x))
    requires Adds(t.op) ==> Rooted(m, g, t)
    ensures Possible(m, g, t)
  {
    hide Lookup, FitNode, Under, Rooted;
    if Adds(t.op) {
      forall j | 0 <= j < |t.at| && Lookup(m, [], g, Upto(t.target, j)).None?
        ensures FitNode(m, t.at[..j], Element(t.at[j], map[], []))
      {
        UpperIsUnder(t.target, j + 1);
        UnderTrans(s.target, Upto(t.target, j), t.target);
      }
    }
  }

  lemma RootStays(m: Model, f: seq<Node>, g: seq<Node>, s: Sig, t: Sig)
    requires Possible(m, f, s) && Possible(m, f, t) && Apart(s, t) && Adds(t.op)
    requires forall x :: x != [] ==> Lookup(m, [], g, x) == Effect(m, s, x, Lookup(m, [], f, x))
    requires f == [] ==> OneRoot([s, t]) && (s.op.RemoveOp? ==> g == [])
    ensures Rooted(m, g, t)
  {
    hide Lookup, FitNode, MissingBare;
    if t.at != [] {
      var r := t.target[..1];
      UpperIsUnder(t.target, 1);
      UnderTrans(s.target, r, t.target);
      if f == [] {
        EmptyLookup(m, [], s.target);
        if Adds(s.op) {
          assert OneRoot([s, t]) && [s, t][0] == s && [s, t][1] == t;
          assert s.target[..1] == r;
          EmptyLookup(m, [], r);
        }
      }
    }
  }

  lemma OneRootPair(sigs: seq<Sig>, j: nat)
    requires OneRoot(sigs) && 0 < j < |sigs|
    ensures OneRoot([sigs[0], sigs[j]])
  {
    var p := [sigs[0], sigs[j]];
    forall a, b | 0 <= a < 2 && 0 <= b < 2 && Below(p[a]) && Adds(p[b].op)
      ensures Below(p[b]) && p[a].target[0] == p[b].target[0]
    {
      assert p[a] == sigs[if a == 0 then 0 else j] && p[b] == sigs[if b == 0 then 0 else j];
    }
  }

  /** Performing one of several compatible operations leaves the others compatible. */
  lemma RestCompatible(m: Model, f: seq<Node>, g: seq<Node>, sigs: seq<Sig>)
    requires sigs != [] && Compatible(m, f, sigs)
    requires forall x :: x != [] ==> Lookup(m, [], g, x) == Effect(m, sigs[0], x, Lookup(m, [], f, x))
    requires f == [] && sigs[0].op.RemoveOp? ==> g == []
    ensures Compatible(m, g, sigs[1..])
  {
    hide Lookup, Possible, Effect, Apart, OneRoot;
    forall j | 0 <= j < |sigs[1..]|
      ensures Possible(m, g, sigs[1..][j])
    {
      assert sigs[1..][j] == sigs[j + 1] && Apart(sigs[0], sigs[j + 1]);
      if f == [] {
        OneRootPair(sigs, j + 1);
      }
      if Adds(sigs[j + 1].op) {
        RootStays(m, f, g, sigs[0], sigs[j + 1]);
      }
      StaysPossible(m, f, g, sigs[0], sigs[j + 1]);
    }
    forall i, j | 0 <= i < j < |sigs[1..]|
      ensures Apart(sigs[1..][i], sigs[1..][j])
    {
      assert sigs[1..][i] == sigs[i + 1] && sigs[1..][j] == sigs[j + 1];
    }
    if g == [] {
      if f == [] {
        OneRootTail(sigs);
      } else {
        NothingBelow(m, f, g, sigs);
      }
    }
  }

  /** If the last root is gone, nothing is to be created below a root. */
  lemma NothingBelow(m: Model, f: seq<Node>, g: seq<Node>, sigs: seq<Sig>)
    requires sigs != [] && Compatible(m, f, sigs) && f != [] && g == []
    requires forall x :: x != [] ==> Lookup(m, [], g, x) == Effect(m, sigs[0], x, Lookup(m, [], f, x))
    ensures OneRoot(sigs[1..])
  {
    hide Lookup, Effect, OneRoot;
    forall j | 0 <= j < |sigs[1..]|
      ensures !Below(sigs[1..][j])
    {
      var t := sigs[j + 1];
      assert Apart(sigs[0], t) && Possible(m, f, t);
      if Below(t) {
        RootSurvives(m, f, g, sigs[0], t);
      }
    }
    NoneBelow(sigs[1..]);
  }

  lemma NoneBelow(sigs: seq<Sig>)
    requires forall j :: 0 <= j < |sigs| ==> !Below(sigs[j])
    ensures OneRoot(sigs)
  {
  }

  lemma RootSurvives(m: Model, f: seq<Node>, g: seq<Node>, s: Sig, t: Sig)
    requires |s.target| == |s.at| + 1 && Possible(m, f, t) && Apart(s, t) && Below(t) && f != []
    requires forall x :: x != [] ==> Lookup(m, [], g, x) == Effect(m, s, x, Lookup(m, [], f, x))
    ensures g != []
  {
    hide Lookup, MissingBare, FitNode;
    var r := t.target[..1];
    UpperIsUnder(t.target, 1);
    UnderTrans(s.target, r, t.target);
    EmptyLookup(m, [], r);
  }

  lemma OneRootTail(sigs: seq<Sig>)
    requires OneRoot(sigs) && sigs != []
    ensures OneRoot(sigs[1..])
  {
    assert forall i :: 0 <= i < |sigs[1..]| ==> sigs[1..][i] == sigs[i + 1];
  }

  /** What the first operation and then the rest leave is what all of them leave. */
  lemma OutcomeCons(m: Model, s: Sig, rest: seq<Sig>, x: seq<Id>, v0: Option<Val>, v: Option<Val>)
    requires x != [] && |s.target| == |s.at| + 1 && Whole(rest)
    requires forall t :: t in rest ==> Apart(s, t)
    requires Outcome(m, rest, x, Effect(m, s, x, v0), v)
    ensures Outcome(m, [s] + rest, x, v0, v)
  {
    hide Lookup, Under;
    var all := [s] + rest;
    assert forall t :: t in all <==> t == s || t in rest;
    forall t | t in rest
      ensures Under(s.target, x) ==> !Under(t.target, x) && !Under(x, t.target)
    {
      UnderTrans(s.target, t.target, x);
      UnderTrans(s.target, x, t.target);
    }
  }

  predicate Whole(sigs: seq<Sig>) {
    forall i :: 0 <= i < |sigs| ==> |sigs[i].target| == |sigs[i].at| + 1
  }

  lemma RemoveFromNothing(m: Model, a: Act)
    requires Named(m, a) && a.op.RemoveOp?
    ensures Perform(m, [], a).1 == []
  {
    NothingInEmpty(m, a.parents + [a.node]);
  }

  /** Compatible operations all succeed, and at every instance path leave what all of them
      together leave. */
  lemma {:induction false} RunOutcome(m: Model, f: seq<Node>, acts: seq<Act>, x: seq<Id>)
    requires Plain(m) && FitKids(m, [], f) && AllNamed(m, acts) && Compatible(m, f, Sigs(m, acts)) && x != []
    ensures Run(m, f, acts).0 && FitKids(m, [], Run(m, f, acts).1) && Whole(Sigs(m, acts))
    ensures Outcome(m, Sigs(m, acts), x, Lookup(m, [], f, x), Lookup(m, [], Run(m, f, acts).1, x))
    decreases |acts|
  {
    hide Lookup, FitKids, Perform, Named, Effect, Outcome, Compatible;
    if acts == [] {
      OutcomeNone(m, x, Lookup(m, [], f, x));
    } else {
      var a, rest := acts[0], acts[1..];
      var sigs := Sigs(m, acts);
      NamedTail(m, acts);
      var g := Perform(m, f, a).1;
      CompatibleHead(m, f, sigs);
      forall y: seq<Id> | y != []
        ensures Lookup(m, [], g, y) == Effect(m, sigs[0], y, Lookup(m, [], f, y))
      {
        PerformEffect(m, f, a, y);
      }
      PerformEffect(m, f, a, x);
      if f == [] && a.op.RemoveOp? {
        RemoveFromNothing(m, a);
      }
      RestCompatible(m, f, g, sigs);
      RunOutcome(m, g, rest, x);
      OutcomeCons(m, sigs[0], sigs[1..], x, Lookup(m, [], f, x), Lookup(m, [], Run(m, g, rest).1, x));
      assert sigs == [sigs[0]] + sigs[1..];
    }
  }

  lemma OutcomeNone(m: Model, x: seq<Id>, v: Option<Val>)
    requires x != []
    ensures Outcome(m, [], x, v, v)
  {
  }

  lemma NamedTail(m: Model, acts: seq<Act>)
    requires AllNamed(m, acts) && acts != []
    ensures Named(m, acts[0]) && AllNamed(m, acts[1..])
    ensures AllElements(acts[0].parents) && acts[0].node.Element?
    ensures Sigs(m, acts)[0] == SigOf(m, acts[0]) && Sigs(m, acts)[1..] == Sigs(m, acts[1..])
  {
    assert Named(m, acts[0]);
    var rest := acts[1..];
    assert forall i :: 0 <= i < |rest| ==> rest[i] == acts[i + 1];
  }

  lemma CompatibleHead(m: Model, f: seq<Node>, sigs: seq<Sig>)
    requires sigs != [] && Compatible(m, f, sigs)
    ensures Possible(m, f, sigs[0]) && |sigs[0].target| == |sigs[0].at| + 1
    ensures forall t :: t in sigs[1..] ==> Apart(sigs[0], t)
    ensures Whole(sigs)
  {
    forall t | t in sigs[1..]
      ensures Apart(sigs[0], t)
    {
      var j :| 0 <= j < |sigs[1..]| && sigs[1..][j] == t;
      assert sigs[j + 1] == t;
    }
    forall i | 0 <= i < |sigs|
      ensures |sigs[i].target| == |sigs[i].at| + 1
    {
      assert Possible(m, f, sigs[i]);
    }
  }

  // ---- the order does not matter

  lemma SameOutcome(m: Model, s1: seq<Sig>, s2: seq<Sig>, x: seq<Id>, v0: Option<Val>, v1: Option<Val>, v2: Option<Val>)
    requires x != [] && Whole(s1) && Whole(s2) && forall s :: s in s1 <==> s in s2
    requires Outcome(m, s1, x, v0, v1) && Outcome(m, s2, x, v0, v2)
    ensures v1 == v2
  {
    hide Lookup, Under, Effect;
    if exists s :: s in s1 && Under(s.target, x) {
      var s :| s in s1 && Under(s.target, x);
    }
  }

  lemma ApartFromItself(s: Sig)
    ensures !Apart(s, s)
  {
    UnderItself(s.target);
  }

  /** Compatible operations are compatible in every order. */
  lemma CompatiblePermutes(m: Model, f: seq<Node>, s1: seq<Sig>, s2: seq<Sig>)
    requires Compatible(m, f, s1) && multiset(s1) == multiset(s2)
    ensures Compatible(m, f, s2) && forall s :: s in s1 <==> s in s2
  {
    hide Possible, Apart, Below;
    forall s
      ensures s in s1 <==> s in s2
    {
      assert s in multiset(s1) <==> s in multiset(s2);
    }
    forall i, j | 0 <= i < j < |s1|
      ensures s1[i] != s1[j]
    {
      assert Apart(s1[i], s1[j]);
      ApartFromItself(s1[i]);
    }
    DistinctPermutes(s1, s2);
    forall i, j | 0 <= i < j < |s2|
      ensures Apart(s2[i], s2[j])
    {
      assert s2[i] in s2 && s2[j] in s2;
      var a :| 0 <= a < |s1| && s1[a] == s2[i];
      var b :| 0 <= b < |s1| && s1[b] == s2[j];
      ApartSwaps(s2[i], s2[j]);
      assert a < b ==> Apart(s1[a], s1[b]);
      assert b < a ==> Apart(s1[b], s1[a]);
    }
    forall i | 0 <= i < |s2|
      ensures Possible(m, f, s2[i])
    {
      assert s2[i] in s2;
      var a :| 0 <= a < |s1| && s1[a] == s2[i];
    }
    if f == [] {
      OneRootPermutes(s1, s2);
    }
  }

  lemma ApartSwaps(s: Sig, t: Sig)
    ensures Apart(s, t) <==> Apart(t, s)
  {
  }

  lemma OneRootPermutes(s1: seq<Sig>, s2: seq<Sig>)
    requires OneRoot(s1) && forall s :: s in s1 <==> s in s2
    ensures OneRoot(s2)
  {
    forall i, j | 0 <= i < |s2| && 0 <= j < |s2| && Below(s2[i]) && Adds(s2[j].op)
      ensures Below(s2[j]) && s2[i].target[0] == s2[j].target[0]
    {
      assert s2[i] in s2 && s2[j] in s2;
      var a :| 0 <= a < |s1| && s1[a] == s2[i];
      var b :| 0 <= b < |s1| && s1[b] == s2[j];
    }
  }

  /** Two runs of the same compatible operations, in whatever order and found through
      whatever edit document, leave the same map. */
  lemma OrderImmaterial(m: Model, f: seq<Node>, a1: seq<Act>, a2: seq<Act>, x: seq<Id>)
    requires Plain(m) && FitKids(m, [], f) && AllNamed(m, a1) && AllNamed(m, a2) && x != []
    requires Compatible(m, f, Sigs(m, a1)) && multiset(Sigs(m, a1)) == multiset(Sigs(m, a2))
    ensures Run(m, f, a1).0 && Run(m, f, a2).0
    ensures Lookup(m, [], Run(m, f, a1).1, x) == Lookup(m, [], Run(m, f, a2).1, x)
  {
    hide Lookup, FitKids, Run, AllNamed, Compatible, Outcome;
    CompatiblePermutes(m, f, Sigs(m, a1), Sigs(m, a2));
    RunOutcome(m, f, a1, x);
    RunOutcome(m, f, a2, x);
    SameOutcome(m, Sigs(m, a1), Sigs(m, a2), x, Lookup(m, [], f, x),
      Lookup(m, [], Run(m, f, a1).1, x), Lookup(m, [], Run(m, f, a2).1, x));
  }

  function Only(acts: seq<Act>, op: Op): seq<Act> {
    if acts == [] then [] else (if acts[0].op == op then [acts[0]] else []) + Only(acts[1..], op)
  }

  /** The engine's order: all deletes, then removes, replaces and creates. */
  function InPhases(acts: seq<Act>): seq<Act> {
    Only(acts, DeleteOp) + Only(acts, RemoveOp) + Only(acts, ReplaceOp) + Only(acts, CreateOp)
  }

  lemma {:induction false} PhasesPermute(m: Model, acts: seq<Act>)
    requires forall i :: 0 <= i < |acts| ==> Explicit(acts[i].op)
    ensures multiset(InPhases(acts)) == multiset(acts)
    decreases acts
  {
    hide Only, InPhases;
    InPhasesSum(acts);
    if acts == [] {
      OnlyNone();
    } else {
      PhasesPermute(m, acts[1..]);
      OnlyHead(acts, DeleteOp);
      OnlyHead(acts, RemoveOp);
      OnlyHead(acts, ReplaceOp);
      OnlyHead(acts, CreateOp);
      assert acts == [acts[0]] + acts[1..];
      assert multiset([acts[0]]) == multiset{acts[0]};
      InPhasesSum(acts[1..]);
      var rest := acts[1..];
      AddAnywhere(multiset{acts[0]}, multiset(Only(rest, DeleteOp)), multiset(Only(rest, RemoveOp)),
        multiset(Only(rest, ReplaceOp)), multiset(Only(rest, CreateOp)));
    }
  }

  lemma OnlyNone()
    ensures forall op :: Only([], op) == []
  {
  }

  lemma InPhasesSum(acts: seq<Act>)
    ensures multiset(InPhases(acts)) ==
      multiset(Only(acts, DeleteOp)) + multiset(Only(acts, RemoveOp)) +
      multiset(Only(acts, ReplaceOp)) + multiset(Only(acts, CreateOp))
  {
  }

  lemma AddAnywhere<T>(a: multiset<T>, d: multiset<T>, r: multiset<T>, p: multiset<T>, c: multiset<T>)
    ensures (a + d) + r + p + c == a + (d + r + p + c) && d + (a + r) + p + c == a + (d + r + p + c)
    ensures d + r + (a + p) + c == a + (d + r + p + c) && d + r + p + (a + c) == a + (d + r + p + c)
    ensures multiset{} + d == d && multiset{} + r == r && multiset{} + p == p && multiset{} + c == c
  {
  }

  lemma OnlyHead(acts: seq<Act>, op: Op)
    requires acts != []
    ensures multiset(Only(acts, op)) ==
      (if acts[0].op == op then multiset{acts[0]} else multiset{}) + multiset(Only(acts[1..], op))
  {
  }

  lemma {:induction false} SigsPermute(m: Model, a1: seq<Act>, a2: seq<Act>)
    requires AllNamed(m, a1) && AllNamed(m, a2) && multiset(a1) == multiset(a2)
    ensures multiset(Sigs(m, a1)) == multiset(Sigs(m, a2))
    decreases a1
  {
    hide Named, Target, AllNamed, Sigs, SigOf;
    if a1 == [] {
      assert |multiset(a2)| == 0;
      assert a2 == [];
    } else {
      var b1, j, b2 := TakeFirst(a1, a2);
      SigsSplit(m, a1, 0);
      SigsSplit(m, a2, j);
      SigsPermute(m, b1, b2);
    }
  }

  /** The first operation of one order taken out of both. */
  lemma TakeFirst(a1: seq<Act>, a2: seq<Act>) returns (b1: seq<Act>, j: nat, b2: seq<Act>)
    requires a1 != [] && multiset(a1) == multiset(a2)
    ensures b1 == a1[..0] + a1[0 + 1..] && |b1| < |a1|
    ensures j < |a2| && a2[j] == a1[0] && b2 == a2[..j] + a2[j + 1..] && multiset(b1) == multiset(b2)
  {
    assert a1[0] in multiset(a2);
    j := IndexOf(a2, a1[0]);
    b1, b2 := a1[..0] + a1[0 + 1..], a2[..j] + a2[j + 1..];
    TakenOut(a1, 0);
    TakenOut(a2, j);
  }

  lemma SigsSplit(m: Model, acts: seq<Act>, j: nat)
    requires AllNamed(m, acts) && j < |acts|
    ensures AllNamed(m, acts[..j] + acts[j + 1..]) && Named(m, acts[j])
    ensures multiset(Sigs(m, acts)) == multiset(Sigs(m, acts[..j] + acts[j + 1..])) + multiset{SigOf(m, acts[j])}
  {
    hide Named, Target;
    var rest := acts[..j] + acts[j + 1..];
    forall i | 0 <= i < |rest|
      ensures rest[i] == acts[if i < j then i else i + 1] && Named(m, rest[i])
    {
      assert Named(m, acts[if i < j then i else i + 1]);
    }
    assert Named(m, acts[j]);
    var s := Sigs(m, acts);
    assert s == s[..j] + ([s[j]] + s[j + 1..]);
    var t := Sigs(m, rest);
    assert t == s[..j] + s[j + 1..];
  }

  /** The engine's fixed order of phases leaves the same map as document order. */
  lemma PhaseOrderImmaterial(m: Model, f: seq<Node>, acts: seq<Act>, x: seq<Id>)
    requires Plain(m) && FitKids(m, [], f) && AllNamed(m, acts) && Compatible(m, f, Sigs(m, acts)) && x != []
    ensures AllNamed(m, InPhases(acts)) && Run(m, f, acts).0 && Run(m, f, InPhases(acts)).0
    ensures Lookup(m, [], Run(m, f, InPhases(acts)).1, x) == Lookup(m, [], Run(m, f, acts).1, x)
  {
    hide Lookup, FitKids, Run, InPhases, Named;
    forall i | 0 <= i < |acts|
      ensures Explicit(acts[i].op)
    {
      assert Possible(m, f, Sigs(m, acts)[i]) && Named(m, acts[i]);
    }
    PhasesPermute(m, acts);
    forall i | 0 <= i < |InPhases(acts)|
      ensures Named(m, InPhases(acts)[i])
    {
      assert InPhases(acts)[i] in multiset(InPhases(acts));
      assert InPhases(acts)[i] in acts;
    }
    SigsPermute(m, acts, InPhases(acts));
    OrderImmaterial(m, f, acts, InPhases(acts), x);
  }

  // ---- the default merge can come at any point

  /** What is left of the edit once the targets are taken out: nothing at or below a target,
      but still the ancestors of each. */
  ghost predicate RestOf(m: Model, r: seq<Node>, sigs: seq<Sig>) {
    FitKids(m, [], r) &&
    forall s :: s in sigs ==>
      s.target != [] && Lookup(m, [], r, s.target).None? &&
      (|s.target| > 1 ==> Lookup(m, [], r, s.target[..|s.target| - 1]).Some?)
  }

  lemma NoKeysAtTop(m: Model, kids: seq<Node>, edits: seq<Node>)
    ensures KeysAgree(m, [], kids, edits)
  {
  }

  lemma MergeRest(m: Model, f: seq<Node>, r: seq<Node>, x: seq<Id>)
    requires Plain(m) && FitKids(m, [], f) && FitKids(m, [], r) && x != []
    ensures FitKids(m, [], MergeKids(m, [], f, r))
    ensures Lookup(m, [], MergeKids(m, [], f, r), x) == Override(Lookup(m, [], f, x), Lookup(m, [], r, x))
  {
    hide FitKids, Lookup, MergeKids, KeysAgree;
    PlainIsMergeable(m);
    NoKeysAtTop(m, f, r);
    MergeKidsFit(m, [], f, r);
    MergeOverrides(m, [], f, r, x);
  }

  /** Merging the rest of the edit keeps the operations possible. */
  lemma MergeKeepsPossible(m: Model, f: seq<Node>, r: seq<Node>, s: Sig)
    requires Plain(m) && FitKids(m, [], f) && Possible(m, f, s) && RestOf(m, r, [s])
    ensures Possible(m, MergeKids(m, [], f, r), s)
  {
    hide FitKids, FitNode, Lookup, MergeKids;
    assert s in [s];
    var h := MergeKids(m, [], f, r);
    MergeRest(m, f, r, s.target);
    forall j | 0 <= j < |s.at| && Lookup(m, [], h, Upto(s.target, j)).None?
      ensures Lookup(m, [], f, Upto(s.target, j)).None?
    {
      MergeRest(m, f, r, Upto(s.target, j));
    }
    if s.at != [] {
      var up := s.target[..|s.target| - 1];
      assert up[..1] == s.target[..1];
      LookupPrefix(m, [], r, up, 1);
      MergeRest(m, f, r, s.target[..1]);
    }
  }

  lemma MergeKeepsCompatible(m: Model, f: seq<Node>, r: seq<Node>, sigs: seq<Sig>)
    requires Plain(m) && FitKids(m, [], f) && Compatible(m, f, sigs) && RestOf(m, r, sigs)
    ensures Compatible(m, MergeKids(m, [], f, r), sigs)
  {
    hide FitKids, Lookup, MergeKids, Possible, Apart, OneRoot;
    forall i | 0 <= i < |sigs|
      ensures Possible(m, MergeKids(m, [], f, r), sigs[i])
    {
      assert sigs[i] in sigs;
      MergeKeepsPossible(m, f, r, sigs[i]);
    }
    if MergeKids(m, [], f, r) == [] {
      forall i | 0 <= i < |sigs|
        ensures !Below(sigs[i])
      {
        assert sigs[i] in sigs;
        if |sigs[i].target| > 1 {
          var up := sigs[i].target[..|sigs[i].target| - 1];
          MergeRest(m, f, r, up);
          EmptyLookup(m, [], up);
        }
      }
      NoneBelow(sigs);
    }
  }

  lemma OutcomeOverride(m: Model, sigs: seq<Sig>, r: seq<Node>, x: seq<Id>, v0: Option<Val>, v1: Option<Val>,
      v2: Option<Val>)
    requires x != [] && Whole(sigs) && RestOf(m, r, sigs)
    requires Outcome(m, sigs, x, v0, v1) && Outcome(m, sigs, x, Override(v0, Lookup(m, [], r, x)), v2)
    ensures v2 == Override(v1, Lookup(m, [], r, x))
  {
    hide Lookup, Under, Effect, FitKids;
    if exists s :: s in sigs && Under(s.target, x) {
      var s :| s in sigs && Under(s.target, x);
      AbsentAbove(m, r, s.target, x);
    } else if exists s :: s in sigs && Adds(s.op) && Under(x, s.target) {
      var s :| s in sigs && Adds(s.op) && Under(x, s.target);
      if Lookup(m, [], r, x).None? {
        ShorterAbove(x, s.target);
        AncestorThere(m, r, s.target, x);
      }
    }
  }

  lemma ShorterAbove(x: seq<Id>, t: seq<Id>)
    ensures Under(x, t) && !Under(t, x) ==> |x| < |t|
  {
    if Under(x, t) && |x| == |t| {
      assert t[..|x|] == t && x[..|t|] == x;
    }
  }

  lemma AncestorThere(m: Model, r: seq<Node>, t: seq<Id>, x: seq<Id>)
    requires x != [] && Under(x, t) && |x| < |t|
    requires |t| > 1 ==> Lookup(m, [], r, t[..|t| - 1]).Some?
    ensures Lookup(m, [], r, x).Some?
  {
    hide Lookup;
    assert t[..|t| - 1][..|x|] == x;
    LookupPrefix(m, [], r, t[..|t| - 1], |x|);
  }

  /** Merging the rest of the edit first or last gives the same map: the edit's values over
      what the operations leave. */
  lemma MergeFirstOrLast(m: Model, f: seq<Node>, acts: seq<Act>, r: seq<Node>, x: seq<Id>)
    requires Plain(m) && FitKids(m, [], f) && AllNamed(m, acts) && Compatible(m, f, Sigs(m, acts)) && x != []
    requires RestOf(m, r, Sigs(m, acts))
    ensures var first, last := Run(m, MergeKids(m, [], f, r), acts), Run(m, f, acts);
      first.0 && last.0 &&
      Lookup(m, [], first.1, x) == Lookup(m, [], MergeKids(m, [], last.1, r), x)
        == Override(Lookup(m, [], last.1, x), Lookup(m, [], r, x))
  {
    hide Lookup, FitKids, Run, AllNamed, Compatible, Outcome, MergeKids;
    assert FitKids(m, [], r) by {
      RestFits(m, r, Sigs(m, acts));
    }
    var h := MergeKids(m, [], f, r);
    MergeRest(m, f, r, x);
    MergeKeepsCompatible(m, f, r, Sigs(m, acts));
    RunOutcome(m, f, acts, x);
    RunOutcome(m, h, acts, x);
    MergeRest(m, Run(m, f, acts).1, r, x);
    OutcomeOverride(m, Sigs(m, acts), r, x, Lookup(m, [], f, x),
      Lookup(m, [], Run(m, f, acts).1, x), Lookup(m, [], Run(m, h, acts).1, x));
  }

  lemma RestFits(m: Model, r: seq<Node>, sigs: seq<Sig>)
    requires RestOf(m, r, sigs)
    ensures FitKids(m, [], r)
  {
  }
}
