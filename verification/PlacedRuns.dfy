/** Explicit operations on entries of user-ordered lists: where entries are put makes no
    difference to the map, in whatever order the operations are performed. */
module PlacedRuns {
  import opened Xml
  import opened Schema
  import opened Instances
  import opened Equivalents
  import opened MergeMeaning
  import opened Operation
  import opened Creation
  import opened Targets
  import opened Deletion
  import opened Effects
  import opened Phases
  import opened EditPhases
  import opened Reference
  import opened OrderEffects

  /** What is added goes where its insert attribute says. */
  predicate IsPlaced(m: Model, a: Act)
    requires a.node.Element?
  {
    Adds(a.op) && UserOrdered(m, Names(a.parents) + [a.node.name])
  }

  /** The document after one operation, and whether it succeeds; it fails if there is no
      place for an entry. */
  function PerformPlaced(m: Model, scope: Scope, f: seq<Node>, a: Act): (bool, seq<Node>)
    requires AllElements(a.parents)
  {
    if a.node.Element? && IsPlaced(m, a) then
      var (r, g) := CreateEntry(m, scope, MadeRoom(m, f, a), a.parents, a.node);
      (r.Placed?, g)
    else Perform(m, f, a)
  }

  /** Takes the equivalent of the edit node at q out, if there is one, and creates the node
      anew: an entry of a user-ordered list where its insert attribute says. */
  method EditReplaceAny(m: Model, scope: Scope, orig: Document, edit: Document, q: Path) returns (ok: bool)
    requires orig != edit && IsNode(edit.roots, q) && OwnOp(NodeAt(edit.roots, q)) == ReplaceOp
    modifies orig, edit
    ensures (ok, orig.roots) == PerformPlaced(m, scope, old(orig.roots), SiteAct(old(edit.roots), q))
    ensures edit.roots == if ok then RemoveAt(old(edit.roots), q) else old(edit.roots)
  {
    hide FindEquiv, CreateNode, CreateEntry, SetKids, KidsAt, UserOrdered, Names;
    ChainSnoc(edit.roots, q);
    var found := FindElementEquiv(m, orig.roots, edit.roots, q);
    if found.Some? {
      NodeInParent(orig.roots, found.value);
      orig.Unlink(Parent(found.value), Last(found.value));
    }
    ok := EditCreateAny(m, scope, orig, edit, q);
  }

  /** Performs the explicit operation of the edit node at q, and takes the node out of the
      edit if that succeeds. */
  method PerformAnySite(m: Model, scope: Scope, orig: Document, edit: Document, q: Path) returns (ok: bool)
    requires orig != edit && IsNode(edit.roots, q) && Explicit(OwnOp(NodeAt(edit.roots, q)))
    modifies orig, edit
    ensures (ok, orig.roots) == PerformPlaced(m, scope, old(orig.roots), SiteAct(old(edit.roots), q))
    ensures edit.roots == if ok then RemoveAt(old(edit.roots), q) else old(edit.roots)
  {
    hide FindEquiv, CreateNode, CreateEntry, DeleteAll, SetKids, KidsAt, UserOrdered, Names;
    ChainSnoc(edit.roots, q);
    var op := OwnOp(NodeAt(edit.roots, q));
    if op == ReplaceOp {
      ok := EditReplaceAny(m, scope, orig, edit, q);
    } else if op == CreateOp {
      ok := EditCreateAny(m, scope, orig, edit, q);
    } else {
      ok := PerformSite(m, orig, edit, q);
    }
  }

  /** An operation that finds a place keeps the document fit and has its effect on the map,
      wherever the place is. */
  lemma PlacedEffect(m: Model, scope: Scope, f: seq<Node>, a: Act, x: seq<Id>)
    requires Plain(m) && FitKids(m, [], f) && Named(m, a) && Possible(m, f, SigOf(m, a)) && x != []
    requires PerformPlaced(m, scope, f, a).0
    ensures FitKids(m, [], PerformPlaced(m, scope, f, a).1)
    ensures Lookup(m, [], PerformPlaced(m, scope, f, a).1, x) == Effect(m, SigOf(m, a), x, Lookup(m, [], f, x))
  {
    hide FitKids, FindEquiv, Target, Lookup, Named, Targeted, CreateNode, CreateEntry, RemoveAt, DeleteAll, Under,
      MissingBare, Rooted, FitNode, Names, Possible, Effect, UserOrdered, MissingAreContainers, RootThere;
    NamedMeans(m, a);
    PerformEffect(m, f, a, x);
    if IsPlaced(m, a) {
      PlaceReady(m, f, a);
      EntryEffect(m, scope, MadeRoom(m, f, a), a.parents, a.node, x);
    }
  }

  lemma PlaceReady(m: Model, f: seq<Node>, a: Act)
    requires Plain(m) && FitKids(m, [], f) && Named(m, a) && Possible(m, f, SigOf(m, a)) && Adds(a.op)
    ensures var g := MadeRoom(m, f, a);
      FitKids(m, [], g) && AllElements(a.parents) && a.node.Element? && Targeted(m, a.parents, a.node) &&
      FitNode(m, Names(a.parents), StripOp(a.node)) && MissingAreContainers(m, g, a.parents) &&
      RootThere(m, g, a.parents) && Lookup(m, [], g, Target(m, a.parents, a.node)).None? &&
      Perform(m, f, a).1 == CreateNode(m, g, a.parents, a.node)
  {
    hide FitKids, FindEquiv, Target, Lookup, Named, Targeted, CreateNode, RemoveAt, DeleteAll, Under, MissingBare,
      Rooted, FitNode, Names, MissingAreContainers, RootThere;
    NamedMeans(m, a);
    if a.op.ReplaceOp? {
      ReplaceIsCreate(m, f, a);
      ReadyToAdd(m, MadeRoom(m, f, a), a.(op := CreateOp));
    } else {
      ReadyToAdd(m, f, a);
    }
  }

  // ---- runs

  /** The document after a run of operations that stops at the first failure. */
  function RunPlaced(m: Model, scopes: seq<Scope>, f: seq<Node>, acts: seq<Act>): (bool, seq<Node>)
    requires AllNamed(m, acts) && |scopes| == |acts|
    decreases |acts|
  {
    if acts == [] then (true, f)
    else
      NamedRest(m, acts);
      NamedMeans(m, acts[0]);
      var (ok, g) := PerformPlaced(m, scopes[0], f, acts[0]);
      if !ok then (false, g) else RunPlaced(m, scopes[1..], g, acts[1..])
  }

  /** Compatible operations that all find a place leave at every instance path what all of
      them together leave. */
  lemma {:induction false} PlacedOutcome(m: Model, scopes: seq<Scope>, f: seq<Node>, acts: seq<Act>, x: seq<Id>)
    requires Plain(m) && FitKids(m, [], f) && AllNamed(m, acts) && Compatible(m, f, Sigs(m, acts)) && x != []
    requires |scopes| == |acts| && RunPlaced(m, scopes, f, acts).0
    ensures FitKids(m, [], RunPlaced(m, scopes, f, acts).1) && Whole(Sigs(m, acts))
    ensures Outcome(m, Sigs(m, acts), x, Lookup(m, [], f, x), Lookup(m, [], RunPlaced(m, scopes, f, acts).1, x))
    decreases |acts|
  {
    hide Lookup, FitKids, PerformPlaced, Named, Effect, Outcome, Compatible;
    if acts == [] {
      OutcomeNone(m, x, Lookup(m, [], f, x));
    } else {
      var a, rest, sigs := acts[0], acts[1..], Sigs(m, acts);
      NamedTail(m, acts);
      var g := PerformPlaced(m, scopes[0], f, a).1;
      CompatibleHead(m, f, sigs);
      forall y: seq<Id> | y != []
        ensures Lookup(m, [], g, y) == Effect(m, sigs[0], y, Lookup(m, [], f, y))
      {
        PlacedEffect(m, scopes[0], f, a, y);
      }
      PlacedEffect(m, scopes[0], f, a, x);
      if f == [] && a.op.RemoveOp? {
        RemoveFromNothing(m, a);
        NotPlaced(m, scopes[0], f, a);
      }
      RestCompatible(m, f, g, sigs);
      PlacedOutcome(m, scopes[1..], g, rest, x);
      OutcomeCons(m, sigs[0], sigs[1..], x, Lookup(m, [], f, x),
        Lookup(m, [], RunPlaced(m, scopes[1..], g, rest).1, x));
      assert sigs == [sigs[0]] + sigs[1..];
    }
  }

  lemma NotPlaced(m: Model, scope: Scope, f: seq<Node>, a: Act)
    requires AllElements(a.parents) && !Adds(a.op)
    ensures PerformPlaced(m, scope, f, a) == Perform(m, f, a)
  {
  }

  /** A run that finds all places leaves the same map as a run of the same operations, in
      any order, that ignores places. */
  lemma {:induction false} PlacesIgnored(m: Model, f: seq<Node>, s1: seq<Scope>, a1: seq<Act>, a2: seq<Act>,
      x: seq<Id>)
    requires Plain(m) && FitKids(m, [], f) && AllNamed(m, a1) && AllNamed(m, a2) && x != []
    requires |s1| == |a1| && RunPlaced(m, s1, f, a1).0
    requires Compatible(m, f, Sigs(m, a1)) && multiset(Sigs(m, a1)) == multiset(Sigs(m, a2))
    ensures Run(m, f, a2).0
    ensures Lookup(m, [], RunPlaced(m, s1, f, a1).1, x) == Lookup(m, [], Run(m, f, a2).1, x)
  {
    hide Lookup, FitKids, Run, RunPlaced, AllNamed, Compatible, Outcome;
    CompatiblePermutes(m, f, Sigs(m, a1), Sigs(m, a2));
    PlacedOutcome(m, s1, f, a1, x);
    RunOutcome(m, f, a2, x);
    SameOutcome(m, Sigs(m, a1), Sigs(m, a2), x, Lookup(m, [], f, x),
      Lookup(m, [], RunPlaced(m, s1, f, a1).1, x), Lookup(m, [], Run(m, f, a2).1, x));
  }

  /** Two runs of the same compatible operations that find all places, in whatever order and
      wherever the places are, leave the same map. */
  lemma {:induction false} PlacesImmaterial(m: Model, f: seq<Node>, s1: seq<Scope>, a1: seq<Act>, s2: seq<Scope>,
      a2: seq<Act>, x: seq<Id>)
    requires Plain(m) && FitKids(m, [], f) && AllNamed(m, a1) && AllNamed(m, a2) && x != []
    requires |s1| == |a1| && |s2| == |a2| && RunPlaced(m, s1, f, a1).0 && RunPlaced(m, s2, f, a2).0
    requires Compatible(m, f, Sigs(m, a1)) && multiset(Sigs(m, a1)) == multiset(Sigs(m, a2))
    ensures Lookup(m, [], RunPlaced(m, s1, f, a1).1, x) == Lookup(m, [], RunPlaced(m, s2, f, a2).1, x)
  {
    hide Lookup, FitKids, Run, RunPlaced, AllNamed, Compatible, Outcome, Sigs;
    CompatiblePermutes(m, f, Sigs(m, a1), Sigs(m, a2));
    PlacesIgnored(m, f, s1, a1, a2, x);
    PlacesIgnored(m, f, s2, a2, a2, x);
  }
}
