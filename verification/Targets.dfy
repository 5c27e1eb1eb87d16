/** Naming the target of an operation by instance: what a chain of edit nodes finds, and
    what an update of the child list found does to the document. */
module Targets {
  import opened Xml
  import opened Schema
  import opened Matching
  import opened Instances
  import opened Equivalents
  import opened Merge
  import opened MergeMeaning

  /** The instance path that a chain of elements names. */
  function IdsOf(m: Model, at: seq<string>, chain: seq<Node>): (r: seq<Id>)
    requires AllElements(chain)
    ensures |r| == |chain|
    decreases chain
  {
    if chain == [] then [] else [IdOf(m, at, chain[0])] + IdsOf(m, at + [chain[0].name], chain[1..])
  }

  /** Containers and list entries, which can have children. */
  predicate Holder(m: Model, names: seq<string>)
    requires names != []
  {
    KindOf(m, names).Some? && (KindOf(m, names).value.Container? || KindOf(m, names).value.List?)
  }

  /** Every node of the chain can have children and says which instance it stands for. */
  predicate Passable(m: Model, at: seq<string>, chain: seq<Node>)
    decreases chain
  {
    chain == [] ||
    (Addressed(m, at, chain[0]) && Holder(m, at + [chain[0].name]) && !IsKeyAt(m, at, chain[0].name) &&
     Passable(m, at + [chain[0].name], chain[1..]))
  }

  lemma {:induction false} PassableElements(m: Model, at: seq<string>, chain: seq<Node>)
    requires Passable(m, at, chain)
    ensures AllElements(chain)
    decreases chain
  {
    if chain != [] {
      PassableElements(m, at + [chain[0].name], chain[1..]);
      assert forall i :: 0 < i < |chain| ==> chain[i] == chain[1..][i - 1];
    }
  }

  /** One step down a passable chain in a fit document. */
  lemma PassableStep(m: Model, at: seq<string>, f: seq<Node>, chain: seq<Node>)
    requires FitKids(m, at, f) && Passable(m, at, chain) && chain != []
    ensures chain[0].Element? && AllElements(chain) && Passable(m, at + [chain[0].name], chain[1..])
    ensures Holder(m, at + [chain[0].name])
    ensures FirstMatch(m, chain[0], f, IsLeafList(m, at + [chain[0].name])) == SeekId(m, at, f, IdOf(m, at, chain[0]))
    ensures var i := SeekId(m, at, f, IdOf(m, at, chain[0]));
      i.Some? ==>
        f[i.value].Element? && f[i.value].name == chain[0].name && FitNode(m, at, f[i.value]) &&
        FitKids(m, at + [chain[0].name], f[i.value].kids) && !TextFirst(f[i.value])
  {
    hide IdOf;
    PassableElements(m, at, chain);
    MatchIsSeek(m, at, f, chain[0]);
    var i := SeekId(m, at, f, IdOf(m, at, chain[0]));
    if i.Some? {
      FitMember(m, at, f, i.value);
      SameNameOfId(m, at, f[i.value], chain[0]);
      TextIsLeaf(m, at, f[i.value]);
    }
  }

  /** The search, one step down. */
  lemma FindStep(m: Model, at: seq<string>, f: seq<Node>, chain: seq<Node>)
    requires FitKids(m, at, f) && Passable(m, at, chain) && chain != []
    ensures chain[0].Element? && AllElements(chain)
    ensures var i := SeekId(m, at, f, IdOf(m, at, chain[0]));
      var q := if i.Some? then FindEquiv(m, at + [chain[0].name], KidsOf(f[i.value]), chain[1..]) else None;
      FindEquiv(m, at, f, chain) == if q.None? then None else Some([i.value] + q.value)
    ensures FindEquiv(m, at, f, chain).Some? ==>
      var p := FindEquiv(m, at, f, chain).value;
      var i := SeekId(m, at, f, IdOf(m, at, chain[0]));
      p != [] && i == Some(p[0]) && FindEquiv(m, at + [chain[0].name], KidsOf(f[p[0]]), chain[1..]) == Some(p[1..])
  {
    hide IdOf, FitKids, FitNode, Addressed, Matches, FirstMatch, IsLeafList, SeekId, Passable;
    PassableStep(m, at, f, chain);
  }

  /** In a fit document the search finds the chain's last node exactly if its instance is
      there. */
  lemma {:induction false} FoundIsThere(m: Model, at: seq<string>, f: seq<Node>, chain: seq<Node>)
    requires FitKids(m, at, f) && Passable(m, at, chain) && chain != []
    ensures AllElements(chain)
    ensures FindEquiv(m, at, f, chain).Some? <==> Lookup(m, at, f, IdsOf(m, at, chain)).Some?
    ensures FindEquiv(m, at, f, chain).Some? ==>
      var p := FindEquiv(m, at, f, chain).value;
      IsList(f, p) && FitKids(m, at + Names(chain), KidsAt(f, p))
    decreases chain
  {
    hide IdOf, FitKids, FitNode, Addressed, FindEquiv, ValueOf, SeekId, Passable, Names;
    PassableStep(m, at, f, chain);
    FindStep(m, at, f, chain);
    var here := at + [chain[0].name];
    var i := SeekId(m, at, f, IdOf(m, at, chain[0]));
    NamesHead(at, chain);
    if i.Some? && |chain| > 1 {
      FoundIsThere(m, here, f[i.value].kids, chain[1..]);
    } else if i.Some? {
      FindNothing(m, here, f[i.value].kids);
      assert chain[1..] == [] && [i.value] + [] == [i.value] && [i.value][1..] == [];
      assert here + Names([]) == here by {
        NoNames();
      }
    }
  }

  lemma NoNames()
    ensures Names([]) == []
  {
  }

  lemma NamesHead(at: seq<string>, chain: seq<Node>)
    requires chain != []
    ensures at + Names(chain) == (at + [NameOf(chain[0])]) + Names(chain[1..])
  {
  }

  lemma FindNothing(m: Model, at: seq<string>, f: seq<Node>)
    ensures FindEquiv(m, at, f, []) == Some([])
  {
  }

  /** The keys of an element called like the last of names are as they were. */
  ghost predicate KeysKept(m: Model, names: seq<string>, kids: seq<Node>, ks: seq<Node>) {
    forall k :: IsKeyAt(m, names, k) ==> KidValue(m, ks, k) == KidValue(m, kids, k)
  }

  /** An element whose keys are kept is the same instance. */
  lemma KeptSame(m: Model, at: seq<string>, n: Node, ks: seq<Node>)
    requires WellKeyed(m) && FitNode(m, at, n) && Holder(m, at + [n.name])
    requires FitKids(m, at + [n.name], ks) && KeysKept(m, at + [n.name], n.kids, ks)
    ensures FitNode(m, at, n.(kids := ks)) && IdOf(m, at, n.(kids := ks)) == IdOf(m, at, n)
    ensures ValueOf(m, at, n.(kids := ks)) == ValueOf(m, at, n) == Val.Inner
  {
    hide FitKids, KeyValues;
    forall k | k in KeysOf(m, n.name)
      ensures KidValue(m, ks, k) == KidValue(m, n.kids, k) && FirstNamed(ks, k).Some?
    {
      KeyIsKeyAt(m, at, n.name, k);
    }
    SameKeyValues(m, ks, n.kids, KeysOf(m, n.name));
    FitIsElements(m, at + [n.name], ks);
    FitIsElements(m, at + [n.name], n.kids);
  }

  /** Updating the child list that a chain finds, keys kept, leaves the document fit and
      the chain finds the list again. */
  lemma {:induction false} SetBelow(m: Model, at: seq<string>, f: seq<Node>, chain: seq<Node>, p: Path, ks: seq<Node>)
    requires WellKeyed(m) && FitKids(m, at, f) && Passable(m, at, chain)
    requires FindEquiv(m, at, f, chain) == Some(p) && IsList(f, p)
    requires FitKids(m, at + Names(chain), ks) && (chain != [] ==> KeysKept(m, at + Names(chain), KidsAt(f, p), ks))
    ensures FitKids(m, at, SetKids(f, p, ks))
    ensures FindEquiv(m, at, SetKids(f, p, ks), chain) == Some(p)
    decreases chain
  {
    hide IdOf, FitKids, FitNode, Addressed, Matches, FirstMatch, IsLeafList, KeysKept, ValueOf, SeekId, IsKeyAt, Holder;
    if chain == [] {
      assert at + Names(chain) == at;
    } else {
      PassableStep(m, at, f, chain);
      var here := at + [chain[0].name];
      var n := f[p[0]];
      var g := SetKids(n.kids, p[1..], ks);
      assert here + Names(chain[1..]) == at + Names(chain);
      SetBelow(m, here, n.kids, chain[1..], p[1..], ks);
      SetKeeps(m, at, f, chain, p, ks);
      KeptSame(m, at, n, g);
      UpdateFits(m, at, f, p[0], n.(kids := g));
      PassableStep(m, at, SetKids(f, p, ks), chain);
      SeekUpdate(m, at, f, p[0], n.(kids := g), IdOf(m, at, chain[0]));
    }
  }

  /** Such an update keeps the keys of every node on the way. */
  lemma {:induction false} SetKeeps(m: Model, at: seq<string>, f: seq<Node>, chain: seq<Node>, p: Path, ks: seq<Node>)
    requires WellKeyed(m) && FitKids(m, at, f) && Passable(m, at, chain) && chain != []
    requires FindEquiv(m, at, f, chain) == Some(p) && IsList(f, p)
    requires KeysKept(m, at + Names(chain), KidsAt(f, p), ks)
    ensures KeysKept(m, at + [chain[0].name], f[p[0]].kids, SetKids(f[p[0]].kids, p[1..], ks))
  {
    hide IdOf, FitKids, FitNode, Addressed, Matches, FirstMatch, IsLeafList, ValueOf;
    PassableStep(m, at, f, chain);
    var here := at + [chain[0].name];
    if |chain| == 1 {
      assert chain[1..] == [] && p[1..] == [] && at + Names(chain) == here;
    } else {
      var n := f[p[0]];
      PassableStep(m, here, n.kids, chain[1..]);
      var c := SetKids(n.kids, p[1..], ks)[p[1]];
      assert p[1..][0] == p[1];
      forall k | IsKeyAt(m, here, k)
        ensures KidValue(m, n.kids[p[1] := c], k) == KidValue(m, n.kids, k)
      {
        KidValueUpdate(m, n.kids, p[1], c, k);
      }
    }
  }

  /** x lies below, or is, the instance at ids. */
  predicate Under(ids: seq<Id>, x: seq<Id>) {
    |ids| <= |x| && x[..|ids|] == ids
  }

  /** The effect of such an update on the map: below the instance the new child list
      decides, everywhere else nothing changes. */
  lemma {:induction false} SetLookup(m: Model, at: seq<string>, f: seq<Node>, chain: seq<Node>, p: Path, ks: seq<Node>,
      x: seq<Id>)
    requires WellKeyed(m) && FitKids(m, at, f) && Passable(m, at, chain)
    requires FindEquiv(m, at, f, chain) == Some(p) && IsList(f, p)
    requires FitKids(m, at + Names(chain), ks) && (chain != [] ==> KeysKept(m, at + Names(chain), KidsAt(f, p), ks))
    requires x != []
    ensures AllElements(chain)
    ensures Lookup(m, at, SetKids(f, p, ks), x) ==
      if |chain| < |x| && Under(IdsOf(m, at, chain), x) then Lookup(m, at + Names(chain), ks, x[|chain|..])
      else Lookup(m, at, f, x)
    decreases chain
  {
    hide IdOf, FitKids, FitNode, Addressed, FindEquiv, KeysKept, ValueOf, SeekId, Passable, Names, IdsOf, Lookup, Under;
    PassableElements(m, at, chain);
    if chain == [] {
      NoNames();
      FindNothing(m, at, f);
      NoIds(m, at, x);
      assert at + [] == at && x[0..] == x;
    } else {
      PassableStep(m, at, f, chain);
      FindStep(m, at, f, chain);
      var here := at + [chain[0].name];
      var n := f[p[0]];
      var g := SetKids(n.kids, p[1..], ks);
      var r := n.(kids := g);
      NamesHead(at, chain);
      SetBelow(m, here, n.kids, chain[1..], p[1..], ks);
      SetKeeps(m, at, f, chain, p, ks);
      KeptSame(m, at, n, g);
      UpdateStep(m, at, f, p[0], r, x);
      LookupOne(m, at, r, x);
      LookupOne(m, at, n, x);
      LookupAt(m, at, f, p[0], x);
      if x[0] != IdOf(m, at, chain[0]) {
        NotUnder(m, at, chain, x);
      } else {
        UnderTail(m, at, chain, x);
        if |x| > 1 {
          SetLookup(m, here, n.kids, chain[1..], p[1..], ks, x[1..]);
        }
      }
    }
  }

  lemma NoIds(m: Model, at: seq<string>, x: seq<Id>)
    ensures Under(IdsOf(m, at, []), x)
  {
  }

  /** The map below one child. */
  lemma LookupAt(m: Model, at: seq<string>, f: seq<Node>, i: nat, x: seq<Id>)
    requires FitKids(m, at, f) && i < |f| && x != []
    ensures f[i].Element?
    ensures x[0] == IdOf(m, at, f[i]) ==> Lookup(m, at, f, x) == Lookup(m, at, [f[i]], x)
  {
    hide IdOf, FitKids, ValueOf;
    SeekFinds(m, at, f, i);
    LookupOne(m, at, f[i], x);
  }

  lemma NotUnder(m: Model, at: seq<string>, chain: seq<Node>, x: seq<Id>)
    requires AllElements(chain) && chain != [] && x != [] && x[0] != IdOf(m, at, chain[0])
    ensures !Under(IdsOf(m, at, chain), x)
  {
    hide IdOf;
    assert |chain| <= |x| ==> x[..|chain|][0] == x[0];
  }

  lemma UnderTail(m: Model, at: seq<string>, chain: seq<Node>, x: seq<Id>)
    requires AllElements(chain) && chain != [] && x != [] && x[0] == IdOf(m, at, chain[0])
    ensures AllElements(chain[1..])
    ensures Under(IdsOf(m, at, chain), x) <==> Under(IdsOf(m, at + [chain[0].name], chain[1..]), x[1..])
    ensures |chain| < |x| ==> x[1..][|chain[1..]|..] == x[|chain|..]
  {
    hide IdOf, IdsOf;
    var tail := IdsOf(m, at + [chain[0].name], chain[1..]);
    IdsHead(m, at, chain);
    UnderCons(x[0], tail, x);
  }

  lemma IdsHead(m: Model, at: seq<string>, chain: seq<Node>)
    requires AllElements(chain) && chain != []
    ensures AllElements(chain[1..])
    ensures IdsOf(m, at, chain) == [IdOf(m, at, chain[0])] + IdsOf(m, at + [chain[0].name], chain[1..])
  {
  }

  lemma UnderCons(id: Id, tail: seq<Id>, x: seq<Id>)
    requires x != [] && x[0] == id
    ensures Under([id] + tail, x) <==> Under(tail, x[1..])
    ensures |tail| < |x| - 1 ==> x[1..][|tail|..] == x[|tail| + 1..]
  {
    var ids := [id] + tail;
    if |ids| <= |x| {
      assert x[..|ids|] == [id] + x[1..][..|tail|];
      if x[..|ids|] == ids {
        assert x[1..][..|tail|] == ids[1..] == tail;
      }
    }
  }

  /** A fit element with an element below it can have children. */
  lemma CanHaveKids(m: Model, at: seq<string>, n: Node, r: Path)
    requires FitNode(m, at, n) && IsNode(n.kids, r) && NodeAt(n.kids, r).Element?
    ensures Holder(m, at + [n.name]) && FitKids(m, at + [n.name], n.kids) && !IsKeyAt(m, at, n.name)
    ensures Addressed(m, at, n) && !TextFirst(n)
  {
    TextIsLeaf(m, at, n);
  }

  /** In a fit document every element is found by the chain that leads to it. */
  lemma {:induction false} FitPath(m: Model, at: seq<string>, f: seq<Node>, p: Path)
    requires FitKids(m, at, f) && IsNode(f, p) && NodeAt(f, p).Element?
    ensures Parent(p) == [] || IsNode(f, Parent(p))
    ensures var up := Chain(f, Parent(p));
      Passable(m, at, up) && FitNode(m, at + Names(up), NodeAt(f, p)) && Chain(f, p) == up + [NodeAt(f, p)]
    ensures FindEquiv(m, at, f, Chain(f, p)) == Some(p)
    decreases p
  {
    hide FitKids, FitNode, IdOf, Matches, Addressed, Holder, IsKeyAt, IsLeafList;
    ChainSnoc(f, p);
    FitMember(m, at, f, p[0]);
    FitNodeAddressed(m, at, f[p[0]]);
    MatchIsSeek(m, at, f, f[p[0]]);
    SeekFinds(m, at, f, p[0]);
    if |p| == 1 {
      assert Parent(p) == [] && at + [] == at && [f[p[0]]][1..] == [] && [p[0]] + [] == p;
    } else {
      var n := f[p[0]];
      CanHaveKids(m, at, n, p[1..]);
      FitPath(m, at + [n.name], n.kids, p[1..]);
      assert Parent(p)[1..] == Parent(p[1..]) && Parent(p)[0] == p[0];
      var up, below := Chain(f, Parent(p)), Chain(n.kids, Parent(p[1..]));
      assert up == [n] + below && up[1..] == below;
      NamesHead(at, up);
      assert Chain(f, p)[1..] == Chain(n.kids, p[1..]) && p == [p[0]] + p[1..];
    }
  }
}
