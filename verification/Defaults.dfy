/** Default values: filling them in, taking them out, and what each does to a child list. */
module Defaults {
  import opened Xml
  import opened Schema
  import opened Matching
  import opened Instances
  import opened Equivalents
  import opened Merge
  import opened MergeMeaning
  import opened Targets
  import opened Effects

  const TAG := "default"

  /** A leaf with a default value and the statements above it, top first. */
  datatype Default = Default(stmts: seq<Stmt>, value: string)

  predicate Named(n: Node, name: string) {
    n.Element? && n.name == name
  }

  predicate HasNamed(kids: seq<Node>, name: string) {
    exists i :: 0 <= i < |kids| && Named(kids[i], name)
  }

  /** Missing elements are created, except list entries and presence containers; at the top
      presence is not asked. */
  predicate MayCreate(top: bool, s: Stmt) {
    top || (!s.kind.List? && !(s.kind.Container? && s.kind.presence))
  }

  /** The children of an element after one default has been filled in below it. */
  function FillKids(tag: bool, top: bool, kids: seq<Node>, stmts: seq<Stmt>, v: string): seq<Node>
    requires stmts != []
    decreases |stmts|, 2, kids
  {
    if HasNamed(kids, stmts[0].name) then FillEach(tag, kids, stmts, v)
    else if MayCreate(top, stmts[0]) then
      var n := FillNode(tag, Element(stmts[0].name, map[], []), stmts, v);
      if n.kids == [] then kids else kids + [n]
    else kids
  }

  function FillEach(tag: bool, kids: seq<Node>, stmts: seq<Stmt>, v: string): (r: seq<Node>)
    requires stmts != []
    ensures |r| == |kids|
    ensures forall i :: 0 <= i < |kids| ==>
      r[i] == if Named(kids[i], stmts[0].name) then FillNode(tag, kids[i], stmts, v) else kids[i]
    decreases |stmts|, 1, kids
  {
    if kids == [] then []
    else
      [if Named(kids[0], stmts[0].name) then FillNode(tag, kids[0], stmts, v) else kids[0]]
      + FillEach(tag, kids[1..], stmts, v)
  }

  /** An empty leaf gets the default value; a leaf with the default value is tagged. */
  function FillNode(tag: bool, n: Node, stmts: seq<Stmt>, v: string): (r: Node)
    requires n.Element? && stmts != []
    ensures r.Element? && r.name == n.name
    decreases |stmts|, 0
  {
    if |stmts| == 1 then
      var r := if n.kids == [] && v != "" then n.(kids := [Text(v)]) else n;
      if tag && Content(r) == v then r.(attrs := r.attrs[TAG := "true"]) else r
    else n.(kids := FillKids(tag, false, n.kids, stmts[1..], v))
  }

  /** The first root called name. */
  function FirstRoot(f: seq<Node>, name: string): (r: Option<nat>)
    ensures r.Some? ==> r.value < |f| && Named(f[r.value], name)
    ensures forall j :: 0 <= j < (if r.Some? then r.value else |f|) ==> !Named(f[j], name)
  {
    if f == [] then None
    else if Named(f[0], name) then Some(0)
    else
      match FirstRoot(f[1..], name)
      case Some(i) => Some(i + 1)
      case None => None
  }

  /** A document after one default has been filled in: in the first root of the name, or in
      a new one. */
  function FillTop(tag: bool, f: seq<Node>, stmts: seq<Stmt>, v: string): seq<Node>
    requires stmts != []
  {
    match FirstRoot(f, stmts[0].name)
    case Some(i) => f[i := FillNode(tag, f[i], stmts, v)]
    case None => FillKids(tag, true, f, stmts, v)
  }

  /** The children of an element after one default has been trimmed below it. */
  function TrimKids(kids: seq<Node>, stmts: seq<Stmt>, v: string): seq<Node>
    requires stmts != []
    decreases |stmts|, kids
  {
    if kids == [] then []
    else
      (if !Named(kids[0], stmts[0].name) then [kids[0]]
       else if |stmts| == 1 then (if kids[0].kids != [] && Content(kids[0]) == v then [] else [kids[0]])
       else [kids[0].(kids := TrimKids(kids[0].kids, stmts[1..], v))])
      + TrimKids(kids[1..], stmts, v)
  }

  // ---- the schema side

  function StmtNames(stmts: seq<Stmt>): (r: seq<string>)
    ensures |r| == |stmts|
  {
    if stmts == [] then [] else [stmts[0].name] + StmtNames(stmts[1..])
  }

  /** The statements are what the model defines, one below the other, the last a leaf with
      this default; the leaf is no key, and elements that can be created have no keys. */
  predicate Proper(m: Model, at: seq<string>, stmts: seq<Stmt>, v: string)
    decreases |stmts|
  {
    stmts != [] &&
    var s, here := stmts[0], at + [stmts[0].name];
    KindOf(m, here) == Some(s.kind) && !IsKeyAt(m, at, s.name) &&
    (MayCreate(at == [], s) ==> KeysOf(m, s.name) == []) &&
    if |stmts| == 1 then s.kind == Leaf(Some(v)) && v != "" && KeysOf(m, s.name) == []
    else Holder(m, here) && (at == [] ==> s.kind.Container?) && Proper(m, here, stmts[1..], v)
  }

  /** A default is for one root at most. */
  lemma OneRoot(m: Model, f: seq<Node>, stmts: seq<Stmt>, v: string, i: nat, j: nat)
    requires FitKids(m, [], f) && Proper(m, [], stmts, v) && i < |f| && j < |f|
    requires Named(f[i], stmts[0].name) && Named(f[j], stmts[0].name)
    ensures i == j
  {
    assert [] + [stmts[0].name] == [stmts[0].name];
    assert IdOf(m, [], f[i]) == IdOf(m, [], f[j]);
  }

  /** The first root of the name is the only one. */
  lemma FillTopIsFill(tag: bool, m: Model, f: seq<Node>, stmts: seq<Stmt>, v: string)
    requires FitKids(m, [], f) && Proper(m, [], stmts, v)
    ensures FillTop(tag, f, stmts, v) == FillKids(tag, true, f, stmts, v)
  {
    hide FitKids, Proper, FillNode, Named;
    assert stmts != [] by {
      ProperNonempty(m, [], stmts, v);
    }
    var first := FirstRoot(f, stmts[0].name);
    if first.Some? {
      forall j | 0 <= j < |f| && Named(f[j], stmts[0].name)
        ensures j == first.value
      {
        OneRoot(m, f, stmts, v, first.value, j);
      }
      assert FillTop(tag, f, stmts, v) == FillEach(tag, f, stmts, v);
    }
  }

  lemma ProperNonempty(m: Model, at: seq<string>, stmts: seq<Stmt>, v: string)
    requires Proper(m, at, stmts, v)
    ensures stmts != []
  {
  }

  /** The names on an instance path. */
  function NamesOf(x: seq<Id>): (r: seq<string>)
    ensures |r| == |x|
  {
    if x == [] then [] else [x[0].name] + NamesOf(x[1..])
  }

  /** Instances that filling in never creates by itself: leaves, leaf-list and list entries,
      and presence containers below the top. */
  predicate Solid(m: Model, names: seq<string>)
    requires names != []
  {
    match KindOf(m, names)
    case Some(Container(presence)) => presence && |names| > 1
    case Some(_) => true
    case None => false
  }

  /** The list entries and presence containers on the way to x exist. */
  predicate Reach(m: Model, at: seq<string>, kids: seq<Node>, x: seq<Id>)
    decreases x
  {
    |x| <= 1 ||
    var i, here := SeekId(m, at, kids, x[0]), at + [x[0].name];
    (Solid(m, here) ==> i.Some?) && Reach(m, here, if i.Some? then KidsOf(kids[i.value]) else [], x[1..])
  }

  /** Each step of x has as many key values as its element has keys. */
  predicate Formed(m: Model, at: seq<string>, x: seq<Id>)
    decreases x
  {
    x == [] ||
    ((!IsLeafList(m, at + [x[0].name]) ==> |x[0].keys| == |KeysOf(m, x[0].name)|) &&
     Formed(m, at + [x[0].name], x[1..]))
  }

  // ---- filling in keeps documents fit

  /** A list of the same instances, each fit, is fit. */
  lemma SameIdsFit(m: Model, at: seq<string>, kids: seq<Node>, r: seq<Node>)
    requires FitKids(m, at, kids) && |r| == |kids|
    requires forall i :: 0 <= i < |kids| ==>
      kids[i].Element? && FitNode(m, at, r[i]) && IdOf(m, at, r[i]) == IdOf(m, at, kids[i])
    ensures FitKids(m, at, r)
  {
    hide FitNode, IdOf;
  }

  lemma {:induction false} SameOthersKept(m: Model, at: seq<string>, kids: seq<Node>, r: seq<Node>, name: string)
    requires |r| == |kids| && !IsKeyAt(m, at, name)
    requires forall i :: 0 <= i < |kids| ==> r[i] == kids[i] || (Named(kids[i], name) && Named(r[i], name))
    ensures KeysKept(m, at, kids, r)
    decreases kids
  {
    forall k | IsKeyAt(m, at, k)
      ensures KidValue(m, r, k) == KidValue(m, kids, k)
    {
      SameOther(m, kids, r, name, k);
    }
  }

  lemma {:induction false} SameOther(m: Model, kids: seq<Node>, r: seq<Node>, name: string, k: string)
    requires |r| == |kids| && k != name
    requires forall i :: 0 <= i < |kids| ==> r[i] == kids[i] || (Named(kids[i], name) && Named(r[i], name))
    ensures KidValue(m, r, k) == KidValue(m, kids, k)
    decreases kids
  {
    if kids != [] {
      assert r[0] == kids[0] || (Named(kids[0], name) && Named(r[0], name));
      SameOther(m, kids[1..], r[1..], name, k);
    }
  }

  lemma NewLeafFits(m: Model, at: seq<string>, n: Node, v: string, s: Stmt)
    requires n.Element? && n.kids == [Text(v)] && Proper(m, at, [s], v) && n.name == s.name
    ensures FitNode(m, at, n) && IdOf(m, at, n) == Id(s.name, []) && ValueOf(m, at, n) == LeafVal(v)
  {
    assert [s][0] == s && |[s]| == 1;
  }

  /** Filling in below a fit element leaves it the same fit instance. */
  lemma {:induction false} FillNodeFits(tag: bool, m: Model, at: seq<string>, n: Node, stmts: seq<Stmt>, v: string)
    requires WellKeyed(m) && FitNode(m, at, n) && Proper(m, at, stmts, v) && n.name == stmts[0].name
    ensures FitNode(m, at, FillNode(tag, n, stmts, v))
    ensures IdOf(m, at, FillNode(tag, n, stmts, v)) == IdOf(m, at, n)
    ensures ValueOf(m, at, FillNode(tag, n, stmts, v)) == ValueOf(m, at, n)
    decreases |stmts|, 0
  {
    if |stmts| == 1 {
      LeafStays(tag, m, at, n, stmts, v);
    } else {
      var here := at + [n.name];
      TextIsLeaf(m, at, n);
      FillFits(tag, m, here, n.kids, stmts[1..], v);
      KeptSame(m, at, n, FillKids(tag, false, n.kids, stmts[1..], v));
    }
  }

  lemma LeafStays(tag: bool, m: Model, at: seq<string>, n: Node, stmts: seq<Stmt>, v: string)
    requires FitNode(m, at, n) && Proper(m, at, stmts, v) && n.name == stmts[0].name && |stmts| == 1
    ensures var r := FillNode(tag, n, stmts, v);
      r.kids == n.kids && FitNode(m, at, r) && IdOf(m, at, r) == IdOf(m, at, n) &&
        ValueOf(m, at, r) == ValueOf(m, at, n)
  {
  }

  lemma ProperTail(m: Model, at: seq<string>, stmts: seq<Stmt>, v: string)
    requires Proper(m, at, stmts, v) && |stmts| > 1
    ensures Proper(m, at + [stmts[0].name], stmts[1..], v) && Holder(m, at + [stmts[0].name])
    ensures !IsKeyAt(m, at, stmts[0].name) && at + [stmts[0].name] != []
    ensures KindOf(m, at + [stmts[0].name]) == Some(stmts[0].kind)
  {
  }

  /** An element that is created is fit, if anything was filled in below it. */
  lemma {:induction false} FillFreshFits(tag: bool, m: Model, at: seq<string>, stmts: seq<Stmt>, v: string)
    requires WellKeyed(m) && Proper(m, at, stmts, v) && MayCreate(at == [], stmts[0])
    ensures var n := FillNode(tag, Element(stmts[0].name, map[], []), stmts, v);
      n.kids != [] ==> FitNode(m, at, n) && IdOf(m, at, n) == Id(stmts[0].name, [])
    decreases |stmts|, 0
  {
    var s := stmts[0];
    var n := FillNode(tag, Element(s.name, map[], []), stmts, v);
    if |stmts| == 1 {
      assert stmts == [s];
      NewLeafFits(m, at, n, v, s);
    } else {
      ProperTail(m, at, stmts, v);
      EmptyFits(m, at + [s.name]);
      FillFits(tag, m, at + [s.name], [], stmts[1..], v);
      NewContainerFits(m, at, n, s);
    }
  }

  lemma EmptyFits(m: Model, at: seq<string>)
    ensures FitKids(m, at, [])
  {
  }

  lemma NewContainerFits(m: Model, at: seq<string>, n: Node, s: Stmt)
    requires n.Element? && n.name == s.name && KeysOf(m, s.name) == [] && FitKids(m, at + [s.name], n.kids)
    requires KindOf(m, at + [s.name]) == Some(s.kind) && Holder(m, at + [s.name]) && !IsKeyAt(m, at, s.name)
    ensures FitNode(m, at, n) && IdOf(m, at, n) == Id(s.name, [])
  {
  }

  lemma NoSuchId(m: Model, at: seq<string>, kids: seq<Node>, name: string, id: Id)
    requires !HasNamed(kids, name) && id.name == name
    ensures SeekId(m, at, kids, id).None?
  {
    var i := SeekId(m, at, kids, id);
    assert i.Some? ==> Named(kids[i.value], name);
  }

  /** Filling in keeps a child list fit, and its keys. */
  lemma {:induction false} FillFits(tag: bool, m: Model, at: seq<string>, kids: seq<Node>, stmts: seq<Stmt>, v: string)
    requires WellKeyed(m) && FitKids(m, at, kids) && Proper(m, at, stmts, v)
    ensures FitKids(m, at, FillKids(tag, at == [], kids, stmts, v))
    ensures KeysKept(m, at, kids, FillKids(tag, at == [], kids, stmts, v))
    decreases |stmts|, 1
  {
    hide FitKids, FitNode, IdOf, KeysKept, FillNode, FillEach, ValueOf;
    var s := stmts[0];
    FitIsElements(m, at, kids);
    if HasNamed(kids, s.name) {
      var r := FillEach(tag, kids, stmts, v);
      forall i | 0 <= i < |kids|
        ensures FitNode(m, at, r[i]) && IdOf(m, at, r[i]) == IdOf(m, at, kids[i])
      {
        FitMember(m, at, kids, i);
        if Named(kids[i], s.name) {
          FillNodeFits(tag, m, at, kids[i], stmts, v);
        }
      }
      SameIdsFit(m, at, kids, r);
      SameOthersKept(m, at, kids, r, s.name);
    } else {
      KeptItself(m, at, kids);
      var n := FillNode(tag, Element(s.name, map[], []), stmts, v);
      if MayCreate(at == [], s) && n.kids != [] {
        FillFreshFits(tag, m, at, stmts, v);
        NoSuchId(m, at, kids, s.name, Id(s.name, []));
        AppendFits(m, at, kids, n);
        KeysKeptAppend(m, at, kids, n);
      }
    }
  }

  // ---- what filling in does to the map

  /** The value at x once a default has been filled in. */
  function Filled(m: Model, at: seq<string>, kids: seq<Node>, stmts: seq<Stmt>, v: string, x: seq<Id>): Option<Val>
    requires x != []
  {
    if NamesOf(x) == StmtNames(stmts) && Lookup(m, at, kids, x).None? && Reach(m, at, kids, x) then Some(LeafVal(v))
    else Lookup(m, at, kids, x)
  }

  /** A list of the same instances is searched alike, and its map is that of its members. */
  lemma LookupSameIds(m: Model, at: seq<string>, kids: seq<Node>, r: seq<Node>, x: seq<Id>)
    requires |r| == |kids| && x != []
    requires forall i :: 0 <= i < |kids| ==>
      kids[i].Element? && r[i].Element? && IdOf(m, at, r[i]) == IdOf(m, at, kids[i])
    ensures SeekId(m, at, r, x[0]) == SeekId(m, at, kids, x[0])
    ensures var i := SeekId(m, at, kids, x[0]);
      (i.None? ==> Lookup(m, at, r, x).None? && Lookup(m, at, kids, x).None?) &&
      (i.Some? ==> Lookup(m, at, r, x) == Lookup(m, at, [r[i.value]], x)) &&
      (i.Some? ==> Lookup(m, at, kids, x) == Lookup(m, at, [kids[i.value]], x))
  {
    hide IdOf, SeekId, ValueOf;
    SameIdsSeek(m, at, r, kids, x[0]);
    var i := SeekId(m, at, kids, x[0]);
    if i.Some? {
      LookupOne(m, at, r[i.value], x);
      LookupOne(m, at, kids[i.value], x);
    }
  }

  lemma NamesOfHead(at: seq<string>, x: seq<Id>)
    requires x != []
    ensures at + NamesOf(x) == (at + [x[0].name]) + NamesOf(x[1..])
    ensures NamesOf(x) == [x[0].name] + NamesOf(x[1..])
  {
  }

  lemma StmtNamesHead(stmts: seq<Stmt>)
    requires stmts != []
    ensures StmtNames(stmts) == [stmts[0].name] + StmtNames(stmts[1..])
  {
  }

  lemma SameNames(x: seq<Id>, stmts: seq<Stmt>)
    requires x != [] && stmts != []
    ensures NamesOf(x) == StmtNames(stmts) <==>
      x[0].name == stmts[0].name && NamesOf(x[1..]) == StmtNames(stmts[1..])
    ensures NamesOf(x) == StmtNames(stmts) ==> |x| == |stmts|
  {
    NamesOfHead([], x);
    StmtNamesHead(stmts);
    var a, b := NamesOf(x), StmtNames(stmts);
    assert a[0] == x[0].name && a[1..] == NamesOf(x[1..]) && b[0] == stmts[0].name && b[1..] == StmtNames(stmts[1..]);
  }

  /** The value below one element that has been filled in. */
  lemma {:induction false} FillNodeLookup(tag: bool, m: Model, at: seq<string>, n: Node, stmts: seq<Stmt>, v: string,
      x: seq<Id>)
    requires WellKeyed(m) && FitNode(m, at, n) && Proper(m, at, stmts, v) && n.name == stmts[0].name
    requires x != [] && Formed(m, at, x) && Solid(m, at + NamesOf(x))
    ensures Lookup(m, at, [FillNode(tag, n, stmts, v)], x) == Filled(m, at, [n], stmts, v, x)
    decreases |stmts|, 0
  {
    assert stmts != [];
    hide FitNode, IdOf, FillNode, ValueOf, Lookup, Reach, Solid, Formed, Proper;
    var r := FillNode(tag, n, stmts, v);
    FitNodeAddressed(m, at, n);
    FillNodeFits(tag, m, at, n, stmts, v);
    LookupOne(m, at, n, x);
    LookupOne(m, at, r, x);
    SameNames(x, stmts);
    if |x| > 1 && x[0] == IdOf(m, at, n) {
      OneReached(m, at, n, x);
      if |stmts| == 1 {
        ProperLeaf(m, at, stmts, v);
        LeafStays(tag, m, at, n, stmts, v);
      } else {
        ProperTail(m, at, stmts, v);
        HolderKids(m, at, n);
        FillNodeIs(tag, n, stmts, v);
        NamesOfHead(at, x);
        FormedTail(m, at, x);
        FillLookup(tag, m, at + [n.name], n.kids, stmts[1..], v, x[1..]);
      }
    }
  }

  lemma ProperLeaf(m: Model, at: seq<string>, stmts: seq<Stmt>, v: string)
    requires Proper(m, at, stmts, v) && |stmts| == 1
    ensures stmts == [stmts[0]] && v != "" && KeysOf(m, stmts[0].name) == []
    ensures KindOf(m, at + [stmts[0].name]) == Some(Leaf(Some(v))) && MayCreate(at == [], stmts[0])
  {
  }

  lemma FillNodeIs(tag: bool, n: Node, stmts: seq<Stmt>, v: string)
    requires n.Element? && |stmts| > 1
    ensures FillNode(tag, n, stmts, v).kids == FillKids(tag, false, n.kids, stmts[1..], v)
  {
  }

  lemma FormedTail(m: Model, at: seq<string>, x: seq<Id>)
    requires x != [] && Formed(m, at, x)
    ensures Formed(m, at + [x[0].name], x[1..])
    ensures KeysOf(m, x[0].name) == [] && !IsLeafList(m, at + [x[0].name]) ==> x[0] == Id(x[0].name, [])
  {
  }

  lemma HolderKids(m: Model, at: seq<string>, n: Node)
    requires FitNode(m, at, n) && Holder(m, at + [n.name])
    ensures FitKids(m, at + [n.name], n.kids)
  {
  }

  lemma OneReached(m: Model, at: seq<string>, n: Node, x: seq<Id>)
    requires n.Element? && |x| > 1 && x[0] == IdOf(m, at, n)
    ensures Reach(m, at, [n], x) <==> Reach(m, at + [n.name], n.kids, x[1..])
  {
    SeekHead(m, at, [n], x[0]);
  }

  lemma {:induction false} SeekIdName(m: Model, at: seq<string>, kids: seq<Node>, id: Id)
    ensures var i := SeekId(m, at, kids, id); i.Some? ==> kids[i.value].name == id.name
  {
  }

  /** Where all instances of a name are, one that is reached is among them. */
  lemma {:induction false} NamedIsThere(m: Model, at: seq<string>, kids: seq<Node>, stmts: seq<Stmt>, v: string,
      x: seq<Id>)
    requires FitKids(m, at, kids) && Proper(m, at, stmts, v) && HasNamed(kids, stmts[0].name)
    requires x != [] && Formed(m, at, x) && NamesOf(x) == StmtNames(stmts) && Reach(m, at, kids, x)
    ensures SeekId(m, at, kids, x[0]).Some?
  {
    hide FitKids, IdOf, SeekId;
    var s, here := stmts[0], at + [stmts[0].name];
    SameNames(x, stmts);
    if KeysOf(m, s.name) == [] {
      var i :| 0 <= i < |kids| && Named(kids[i], s.name);
      FitMember(m, at, kids, i);
      SeekFinds(m, at, kids, i);
      KeylessId(m, at, kids[i]);
      FormedTail(m, at, x);
    }
  }

  lemma KeylessId(m: Model, at: seq<string>, n: Node)
    requires n.Element? && KeysOf(m, n.name) == [] && !IsLeafList(m, at + [n.name])
    ensures IdOf(m, at, n) == Id(n.name, [])
  {
  }

  lemma ReachAt(m: Model, at: seq<string>, kids: seq<Node>, x: seq<Id>)
    requires x != [] && SeekId(m, at, kids, x[0]).Some?
    ensures Reach(m, at, kids, x) <==> Reach(m, at, [kids[SeekId(m, at, kids, x[0]).value]], x)
  {
    var n := kids[SeekId(m, at, kids, x[0]).value];
    SeekHead(m, at, [n], x[0]);
  }

  lemma EachLookup(tag: bool, m: Model, at: seq<string>, kids: seq<Node>, stmts: seq<Stmt>, v: string, x: seq<Id>)
    requires WellKeyed(m) && FitKids(m, at, kids) && Proper(m, at, stmts, v) && HasNamed(kids, stmts[0].name)
    requires x != [] && Formed(m, at, x) && Solid(m, at + NamesOf(x))
    requires forall i :: 0 <= i < |kids| && Named(kids[i], stmts[0].name) ==>
      Lookup(m, at, [FillNode(tag, kids[i], stmts, v)], x) == Filled(m, at, [kids[i]], stmts, v, x)
    ensures Lookup(m, at, FillEach(tag, kids, stmts, v), x) == Filled(m, at, kids, stmts, v, x)
  {
    assert stmts != [];
    hide FitKids, FitNode, IdOf, FillNode, FillEach, ValueOf, Lookup, Reach, Solid, Formed, Proper, SeekId, Filled;
    var r, s := FillEach(tag, kids, stmts, v), stmts[0];
    FitIsElements(m, at, kids);
    forall i | 0 <= i < |kids|
      ensures r[i].Element? && IdOf(m, at, r[i]) == IdOf(m, at, kids[i])
    {
      FitMember(m, at, kids, i);
      if Named(kids[i], s.name) {
        FillNodeFits(tag, m, at, kids[i], stmts, v);
      }
    }
    LookupSameIds(m, at, kids, r, x);
    EachCases(m, at, kids, r, stmts, v, x);
  }

  lemma {:induction false} EachCases(m: Model, at: seq<string>, kids: seq<Node>, r: seq<Node>, stmts: seq<Stmt>,
      v: string, x: seq<Id>)
    requires FitKids(m, at, kids) && Proper(m, at, stmts, v) && HasNamed(kids, stmts[0].name) && |r| == |kids|
    requires x != [] && Formed(m, at, x)
    requires var i := SeekId(m, at, kids, x[0]);
      if i.None? then Lookup(m, at, r, x).None? && Lookup(m, at, kids, x).None?
      else
        Lookup(m, at, kids, x) == Lookup(m, at, [kids[i.value]], x) &&
        (Named(kids[i.value], stmts[0].name) ==> Lookup(m, at, r, x) == Filled(m, at, [kids[i.value]], stmts, v, x)) &&
        (!Named(kids[i.value], stmts[0].name) ==> Lookup(m, at, r, x) == Lookup(m, at, kids, x))
    ensures Lookup(m, at, r, x) == Filled(m, at, kids, stmts, v, x)
  {
    assert stmts != [];
    hide FitKids, IdOf, Lookup, Reach, Formed, Proper, SeekId, NamesOf, StmtNames;
    SameNames(x, stmts);
    var i := SeekId(m, at, kids, x[0]);
    if i.None? {
      if NamesOf(x) == StmtNames(stmts) && Reach(m, at, kids, x) {
        NamedIsThere(m, at, kids, stmts, v, x);
      }
    } else {
      SeekIdName(m, at, kids, x[0]);
      ReachAt(m, at, kids, x);
    }
  }

  lemma AbsentReach(m: Model, at: seq<string>, kids: seq<Node>, x: seq<Id>)
    requires |x| > 1 && SeekId(m, at, kids, x[0]).None?
    ensures Reach(m, at, kids, x) <==> !Solid(m, at + [x[0].name]) && Reach(m, at + [x[0].name], [], x[1..])
  {
  }

  /** What a missing element that is created holds. */
  lemma FreshLookup(tag: bool, m: Model, at: seq<string>, kids: seq<Node>, stmts: seq<Stmt>, v: string, x: seq<Id>)
    requires WellKeyed(m) && FitKids(m, at, kids) && Proper(m, at, stmts, v) && !HasNamed(kids, stmts[0].name)
    requires MayCreate(at == [], stmts[0])
    requires x != [] && Formed(m, at, x) && Solid(m, at + NamesOf(x))
    requires |stmts| > 1 && |x| > 1 && x[0].name == stmts[0].name ==>
      Lookup(m, at + [x[0].name], FillKids(tag, false, [], stmts[1..], v), x[1..]) ==
        Filled(m, at + [x[0].name], [], stmts[1..], v, x[1..])
    ensures Lookup(m, at, FillKids(tag, at == [], kids, stmts, v), x) == Filled(m, at, kids, stmts, v, x)
  {
    hide FitKids, FitNode, IdOf, FillNode, FillEach, ValueOf, Lookup, Reach, Formed, SeekId, Holder;
    var s := stmts[0];
    var n := FillNode(tag, Element(s.name, map[], []), stmts, v);
    var id := Id(s.name, []);
    SameNames(x, stmts);
    FormedTail(m, at, x);
    NotLeafList(m, at, stmts, v);
    FillFreshFits(tag, m, at, stmts, v);
    NoSuchId(m, at, kids, s.name, id);
    AbsentBelow(m, at, kids, x);
    if n.kids != [] {
      AddStep(m, at, kids, n, x);
      LookupOne(m, at, n, x);
    }
    if x[0] == id {
      FreshBelow(tag, m, at, kids, stmts, v, x);
    }
  }

  lemma NotLeafList(m: Model, at: seq<string>, stmts: seq<Stmt>, v: string)
    requires Proper(m, at, stmts, v)
    ensures !IsLeafList(m, at + [stmts[0].name])
    ensures MayCreate(at == [], stmts[0]) ==> KeysOf(m, stmts[0].name) == []
  {
  }

  lemma FreshBelow(tag: bool, m: Model, at: seq<string>, kids: seq<Node>, stmts: seq<Stmt>, v: string, x: seq<Id>)
    requires WellKeyed(m) && Proper(m, at, stmts, v) && MayCreate(at == [], stmts[0])
    requires x != [] && x[0] == Id(stmts[0].name, []) && SeekId(m, at, kids, x[0]).None? && Solid(m, at + NamesOf(x))
    requires |stmts| > 1 && |x| > 1 ==>
      Lookup(m, at + [x[0].name], FillKids(tag, false, [], stmts[1..], v), x[1..]) ==
        Filled(m, at + [x[0].name], [], stmts[1..], v, x[1..])
    ensures var n := FillNode(tag, Element(stmts[0].name, map[], []), stmts, v);
      var filled := NamesOf(x) == StmtNames(stmts) && Reach(m, at, kids, x);
      (n.kids == [] ==> !filled) &&
      (n.kids != [] ==> Lookup(m, at, [n], x) == if filled then Some(LeafVal(v)) else None)
  {
    hide FitKids, FitNode, IdOf, FillEach, FillKids, FillNode, ValueOf, Reach, Lookup, SeekId, Filled, Formed;
    var s, here := stmts[0], at + [stmts[0].name];
    var n := FillNode(tag, Element(s.name, map[], []), stmts, v);
    SameNames(x, stmts);
    FillFreshFits(tag, m, at, stmts, v);
    NamesOfHead(at, x);
    LookupOne(m, at, n, x);
    if |stmts| == 1 {
      FreshLeaf(tag, m, at, stmts, v, x);
    } else if |x| == 1 {
      assert NamesOf(x[1..]) == [] && here + [] == here;
      FreshNotSolid(m, at, stmts, v);
    } else {
      FillNodeIs(tag, Element(s.name, map[], []), stmts, v);
      AbsentReach(m, at, kids, x);
      FreshNotSolid(m, at, stmts, v);
      FilledEmpty(m, here, stmts[1..], v, x[1..]);
      EmptyLookup(m, here, x[1..]);
    }
  }

  lemma FilledEmpty(m: Model, at: seq<string>, stmts: seq<Stmt>, v: string, x: seq<Id>)
    requires x != []
    ensures Filled(m, at, [], stmts, v, x) ==
      if NamesOf(x) == StmtNames(stmts) && Reach(m, at, [], x) then Some(LeafVal(v)) else None
  {
    EmptyLookup(m, at, x);
  }

  lemma FreshNotSolid(m: Model, at: seq<string>, stmts: seq<Stmt>, v: string)
    requires Proper(m, at, stmts, v) && MayCreate(at == [], stmts[0]) && |stmts| > 1
    ensures !Solid(m, at + [stmts[0].name])
  {
  }

  lemma FreshLeaf(tag: bool, m: Model, at: seq<string>, stmts: seq<Stmt>, v: string, x: seq<Id>)
    requires Proper(m, at, stmts, v) && |stmts| == 1 && x != [] && x[0] == Id(stmts[0].name, [])
    ensures var n := FillNode(tag, Element(stmts[0].name, map[], []), stmts, v);
      n.kids != [] && Lookup(m, at, [n], x) == if NamesOf(x) == StmtNames(stmts) then Some(LeafVal(v)) else None
    ensures NamesOf(x) == StmtNames(stmts) ==> forall kids :: Reach(m, at, kids, x)
  {
    hide IdOf, Lookup;
    var s := stmts[0];
    var n := FillNode(tag, Element(s.name, map[], []), stmts, v);
    assert stmts == [s];
    NewLeafFits(m, at, n, v, s);
    SameNames(x, stmts);
    LookupOne(m, at, n, x);
    if |x| > 1 {
      LookupText(m, at + [n.name], n, x[1..]);
      assert |NamesOf(x)| > 1;
    } else {
      assert NamesOf(x[1..]) == [] == StmtNames(stmts[1..]);
    }
  }

  /** Filling in one default adds its value where it is missing and can be reached, and
      changes no other leaf, list entry or presence container. */
  lemma {:induction false} FillLookup(tag: bool, m: Model, at: seq<string>, kids: seq<Node>, stmts: seq<Stmt>,
      v: string, x: seq<Id>)
    requires WellKeyed(m) && FitKids(m, at, kids) && Proper(m, at, stmts, v)
    requires x != [] && Formed(m, at, x) && Solid(m, at + NamesOf(x))
    ensures Lookup(m, at, FillKids(tag, at == [], kids, stmts, v), x) == Filled(m, at, kids, stmts, v, x)
    decreases |stmts|, 1
  {
    assert stmts != [];
    hide FitKids, FitNode, IdOf, FillNode, FillEach, ValueOf, Lookup, Reach, Solid, Formed, Proper, SeekId, Filled;
    var s := stmts[0];
    if HasNamed(kids, s.name) {
      forall i | 0 <= i < |kids| && Named(kids[i], s.name)
        ensures Lookup(m, at, [FillNode(tag, kids[i], stmts, v)], x) == Filled(m, at, [kids[i]], stmts, v, x)
      {
        FitMember(m, at, kids, i);
        FillNodeLookup(tag, m, at, kids[i], stmts, v, x);
      }
      EachLookup(tag, m, at, kids, stmts, v, x);
    } else if MayCreate(at == [], s) {
      if |stmts| > 1 && |x| > 1 && x[0].name == s.name {
        ProperTail(m, at, stmts, v);
        EmptyFits(m, at + [s.name]);
        FormedTail(m, at, x);
        NamesOfHead(at, x);
        FillLookup(tag, m, at + [s.name], [], stmts[1..], v, x[1..]);
      }
      FreshLookup(tag, m, at, kids, stmts, v, x);
    } else {
      NotCreated(m, at, kids, stmts, v, x);
    }
  }

  lemma {:induction false} NotCreated(m: Model, at: seq<string>, kids: seq<Node>, stmts: seq<Stmt>, v: string,
      x: seq<Id>)
    requires Proper(m, at, stmts, v) && !HasNamed(kids, stmts[0].name) && !MayCreate(at == [], stmts[0]) && x != []
    ensures Lookup(m, at, kids, x) == Filled(m, at, kids, stmts, v, x)
  {
    hide Lookup;
    SameNames(x, stmts);
    if NamesOf(x) == StmtNames(stmts) {
      NoSuchId(m, at, kids, stmts[0].name, x[0]);
    }
  }
}
