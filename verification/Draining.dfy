/** Which containers and list entries clearing takes out, in terms of the configuration that
    report-all and clearing start from. */
module Draining {
  import opened Xml
  import opened Schema
  import opened Matching
  import opened Instances
  import opened Merge
  import opened MergeMeaning
  import opened Defaults
  import opened WithDefaults
  import opened Clearing
  import opened ClearMeaning

  /** The default d is filled in below an empty element that is there with these names. */
  predicate Fills(d: Default, names: seq<string>) {
    |names| < |d.stmts| && Leads(names, StmtNames(d.stmts)) && d.value != "" && Creatable(d.stmts[|names|..])
  }

  predicate Fillable(ds: seq<Default>, names: seq<string>) {
    exists i :: 0 <= i < |ds| && Fills(ds[i], names)
  }

  /** A leaf that holds its default, an empty element that a default can be filled in below,
      or an element with nothing but such children. */
  predicate Drains(m: Model, ds: seq<Default>, at: seq<string>, n: Node)
    decreases n
  {
    n.Element? &&
    var here := at + [n.name];
    if TextFirst(n) then Listed(ds, here) && DefaultAt(m, here) == Some(Content(n))
    else if n.kids == [] then Fillable(ds, here)
    else forall i :: 0 <= i < |n.kids| ==> Drains(m, ds, here, n.kids[i])
  }

  /** The element at x drains. */
  predicate DrainsAt(m: Model, ds: seq<Default>, at: seq<string>, f: seq<Node>, x: seq<Id>)
    decreases x
  {
    x != [] &&
    match SeekId(m, at, f, x[0])
    case None => false
    case Some(i) =>
      if |x| == 1 then Drains(m, ds, at, f[i]) else DrainsAt(m, ds, at + [f[i].name], f[i].kids, x[1..])
  }

  // ---- which empty elements are filled

  /** The empty elements of a document that are not empty any more once ds have been filled
      in are those below which one of them can be. */
  predicate DueNode(ds: seq<Default>, at: seq<string>, n: Node, r: Node)
    decreases n, 1
  {
    n.Element? && r.Element? && !TextFirst(n) ==>
      if n.kids == [] then r.kids != [] <==> Fillable(ds, at + [n.name])
      else Due(ds, at + [n.name], n.kids, r.kids)
  }

  predicate Due(ds: seq<Default>, at: seq<string>, kids: seq<Node>, r: seq<Node>)
    decreases kids, 0
  {
    |kids| <= |r| && forall i :: 0 <= i < |kids| ==> DueNode(ds, at, kids[i], r[i])
  }

  lemma FillableMore(ds: seq<Default>, d: Default, names: seq<string>)
    ensures Fillable(ds + [d], names) <==> Fillable(ds, names) || Fills(d, names)
  {
    hide Fills;
    var all := ds + [d];
    assert all[|ds|] == d && forall i :: 0 <= i < |ds| ==> all[i] == ds[i];
  }

  lemma {:induction false} NothingDue(at: seq<string>, n: Node)
    ensures DueNode([], at, n, n)
    decreases n, 0
  {
    if n.Element? {
      NothingDueIn(at + [n.name], n.kids);
    }
  }

  lemma {:induction false} NothingDueIn(at: seq<string>, kids: seq<Node>)
    ensures Due([], at, kids, kids)
    decreases kids, 1
  {
    forall i | 0 <= i < |kids|
      ensures DueNode([], at, kids[i], kids[i])
    {
      NothingDue(at, kids[i]);
    }
  }

  /** A default that does not lead below a node changes nothing there. */
  lemma {:induction false} DueOff(ds: seq<Default>, d: Default, at: seq<string>, n: Node, r: Node)
    requires DueNode(ds, at, n, r) && (n.Element? ==> !Leads(at + [n.name], StmtNames(d.stmts)))
    ensures DueNode(ds + [d], at, n, r)
    decreases n
  {
    hide StmtNames, Creatable, Fillable;
    if n.Element? && r.Element? && !TextFirst(n) {
      var here := at + [n.name];
      FillableMore(ds, d, here);
      forall i | 0 <= i < |n.kids| && n.kids != []
        ensures DueNode(ds + [d], here, n.kids[i], r.kids[i])
      {
        if n.kids[i].Element? {
          LeadsUp(here, n.kids[i].name, StmtNames(d.stmts));
        }
        DueOff(ds, d, here, n.kids[i], r.kids[i]);
      }
    }
  }

  lemma FillsNoLess(top: bool, kids: seq<Node>, stmts: seq<Stmt>, v: string)
    requires stmts != []
    ensures |FillKids(true, top, kids, stmts, v)| >= |kids|
    ensures forall i :: 0 <= i < |kids| ==>
      FillKids(true, top, kids, stmts, v)[i] ==
        if Named(kids[i], stmts[0].name) then FillNode(true, kids[i], stmts, v) else kids[i]
  {
    hide FillNode;
  }

  lemma FillEmpty(stmts: seq<Stmt>, v: string)
    requires |stmts| > 1
    ensures FillKids(true, false, [], stmts[1..], v) != [] <==> v != "" && Creatable(stmts[1..])
  {
    hide FillKids, Creatable;
    NewIsFilled(true, stmts, v);
  }

  /** Where the default d stands when it is filled in below the names at. */
  predicate Standing(m: Model, d: Default, at: seq<string>) {
    |at| < |d.stmts| && Leads(at, StmtNames(d.stmts)) && d.value != "" && Proper(m, at, d.stmts[|at|..], d.value)
  }

  lemma StandingBelow(m: Model, d: Default, at: seq<string>)
    requires Standing(m, d, at) && |at| + 1 < |d.stmts|
    ensures var s := d.stmts[|at|..]; d.stmts[|at| + 1..] == s[1..] && Standing(m, d, at + [s[0].name])
  {
    hide StmtNames, Proper;
    var s := d.stmts[|at|..];
    ProperTail(m, at, s, d.value);
    StandingLeads(m, d, at, s[0].name);
  }

  lemma StandingLeads(m: Model, d: Default, at: seq<string>, name: string)
    requires |at| < |d.stmts| && Leads(at, StmtNames(d.stmts))
    ensures Leads(at + [name], StmtNames(d.stmts)) <==> name == d.stmts[|at|].name
  {
    hide StmtNames;
    NamesAreNames(d.stmts, |at|);
    var t := StmtNames(d.stmts);
    assert t[..|at| + 1] == at + [t[|at|]];
    if at + [name] == at + [t[|at|]] {
      assert (at + [name])[|at|] == (at + [t[|at|]])[|at|];
    }
  }

  lemma {:induction false} NamesAreNames(stmts: seq<Stmt>, i: nat)
    requires i < |stmts|
    ensures StmtNames(stmts)[i] == stmts[i].name
    decreases i
  {
    if i > 0 {
      NamesAreNames(stmts[1..], i - 1);
    }
  }

  /** One node that the default leads to. */
  lemma {:induction false} DueOn(m: Model, ds: seq<Default>, d: Default, at: seq<string>, n: Node, r: Node)
    requires FitNode(m, at, n) && GrownNode(n, r) && DueNode(ds, at, n, r) && Standing(m, d, at)
    requires n.Element? && r.Element? && n.name == d.stmts[|at|].name
    ensures DueNode(ds + [d], at, n, FillNode(true, r, d.stmts[|at|..], d.value))
    decreases n, 0
  {
    hide FitNode, FitKids, StmtNames, Proper, Fillable, FillKids, GrownKids, Due, Hollow, Creatable;
    var here, stmts := at + [n.name], d.stmts[|at|..];
    TextIsLeaf(m, at, n);
    if |stmts| == 1 {
      ProperDefault(m, at, stmts, d.value);
      ProperNotKeyed(m, at, stmts, d.value);
      EndLeaf(m, at, n);
    } else if !TextFirst(n) {
      NotTextFirst(n, r);
      StandingBelow(m, d, at);
      FillableMore(ds, d, here);
      FillEmpty(stmts, d.value);
      FillsNoLess(false, r.kids, stmts[1..], d.value);
      if n.kids != [] {
        DueStep(m, ds, d, here, n.kids, r.kids);
      }
    }
  }

  /** Filling in one default makes what it can fill due. */
  lemma {:induction false} DueStep(m: Model, ds: seq<Default>, d: Default, at: seq<string>, kids: seq<Node>,
      r: seq<Node>)
    requires FitKids(m, at, kids) && GrownKids(kids, r) && Due(ds, at, kids, r) && Standing(m, d, at)
    ensures Due(ds + [d], at, kids, FillKids(true, at == [], r, d.stmts[|at|..], d.value))
    decreases kids, 1
  {
    hide FitNode, FitKids, StmtNames, Proper, FillNode, FillKids, GrownNode, DueNode, Hollow, Standing;
    assert |at| < |d.stmts| && Leads(at, StmtNames(d.stmts)) by {
      StandingParts(m, d, at);
    }
    var stmts := d.stmts[|at|..];
    FillsNoLess(at == [], r, stmts, d.value);
    forall i | 0 <= i < |kids|
      ensures DueNode(ds + [d], at, kids[i], FillKids(true, at == [], r, stmts, d.value)[i])
    {
      FitMember(m, at, kids, i);
      GrownName(kids[i], r[i]);
      StandingLeads(m, d, at, kids[i].name);
      if Named(r[i], stmts[0].name) {
        DueOn(m, ds, d, at, kids[i], r[i]);
      } else {
        DueOff(ds, d, at, kids[i], r[i]);
      }
    }
  }

  lemma StandingParts(m: Model, d: Default, at: seq<string>)
    requires Standing(m, d, at)
    ensures |at| < |d.stmts| && Leads(at, StmtNames(d.stmts))
  {
  }

  lemma {:induction false} DueAll(m: Model, f: seq<Node>, r: seq<Node>, done: seq<Default>, ds: seq<Default>)
    requires WellKeyed(m) && FitKids(m, [], f) && FitKids(m, [], r) && ProperDefaults(m, ds)
    requires GrownKids(f, r) && Due(done, [], f, r)
    ensures Due(done + ds, [], f, FillAll(true, r, ds))
    decreases |ds|
  {
    hide FitKids, Proper, FillKids, FillTop, GrownKids, Due, ProperDefaults;
    if ds == [] {
      assert done + ds == done;
    } else {
      var d := ds[0];
      ProperRest(m, ds);
      ProperDefault(m, [], d.stmts, d.value);
      assert d.stmts[0..] == d.stmts;
      FillTopIsFill(true, m, r, d.stmts, d.value);
      FillFits(true, m, [], r, d.stmts, d.value);
      FillGrown(m, [], r, d.stmts, d.value);
      var g := FillTop(true, r, d.stmts, d.value);
      GrownKidsTrans(f, r, g);
      DueStep(m, done, d, [], f, r);
      DueAll(m, f, g, done + [d], ds[1..]);
      assert done + [d] + ds[1..] == done + ds;
    }
  }

  // ---- hollow afterwards

  /** A node drains exactly if it is hollow once all defaults have been filled in. */
  lemma {:induction false} HollowDrains(m: Model, ds: seq<Default>, at: seq<string>, n: Node, r: Node)
    requires FitNode(m, at, n) && FitNode(m, at, r) && GrownNode(n, r) && DueNode(ds, at, n, r)
    requires TagRight(m, at, r, NamesIn(ds)) && LeafNames(m, NamesIn(ds))
    ensures n.Element? && (Hollow(r) <==> Drains(m, ds, at, n))
    decreases n
  {
    hide FitKids, FitNode, TagsRight, LeafNames, Fillable, Listed, DefaultAt, NamesIn, Content, Hollow, GrownKids, Due;
    FitNodeAddressed(m, at, n);
    GrownName(n, r);
    TextIsLeaf(m, at, n);
    TextIsLeaf(m, at, r);
    HollowMeans(r);
    if TextFirst(n) {
      NamesInListed(ds, at + [n.name]);
      SameContent(n, r);
      if !IsTagged(r) {
        TextNotHollow(r);
      }
    } else {
      NotTextFirst(n, r);
      if IsTagged(r) {
        TaggedLeaf(m, at, r, NamesIn(ds));
      }
      KidsDrain(m, ds, at, n, r);
    }
  }

  lemma SameContent(n: Node, r: Node)
    requires n.Element? && r.Element? && r.kids == n.kids
    ensures Content(r) == Content(n)
  {
  }

  lemma {:induction false} KidsDrain(m: Model, ds: seq<Default>, at: seq<string>, n: Node, r: Node)
    requires n.Element? && r.Element? && r.name == n.name && !TextFirst(n)
    requires FitKids(m, at + [n.name], n.kids) && FitKids(m, at + [n.name], r.kids) && GrownKids(n.kids, r.kids)
    requires DueNode(ds, at, n, r) && TagsRight(m, at + [n.name], r.kids, NamesIn(ds)) && LeafNames(m, NamesIn(ds))
    ensures r.kids != [] && AllHollow(r.kids) <==> Drains(m, ds, at, n)
    decreases n, 0
  {
    hide FitKids, FitNode, TagsRight, TagRight, LeafNames, Fillable, Listed, DefaultAt, NamesIn, Content, Hollow,
      GrownNode;
    var here := at + [n.name];
    TagsAre(m, here, r.kids, NamesIn(ds));
    forall i | 0 <= i < |n.kids|
      ensures Hollow(r.kids[i]) <==> Drains(m, ds, here, n.kids[i])
    {
      FitMember(m, here, n.kids, i);
      FitMember(m, here, r.kids, i);
      assert n.kids != [] ==> DueNode(ds, here, n.kids[i], r.kids[i]);
      HollowDrains(m, ds, here, n.kids[i], r.kids[i]);
    }
  }

  lemma {:induction false} HollowAtDrains(m: Model, ds: seq<Default>, at: seq<string>, f: seq<Node>, g: seq<Node>,
      x: seq<Id>)
    requires WellKeyed(m) && FitKids(m, at, f) && FitKids(m, at, g) && GrownKids(f, g) && Due(ds, at, f, g)
    requires TagsRight(m, at, g, NamesIn(ds)) && LeafNames(m, NamesIn(ds)) && x != [] && Lookup(m, at, f, x).Some?
    ensures HollowAt(m, at, g, x) <==> DrainsAt(m, ds, at, f, x)
    decreases x
  {
    hide FitKids, FitNode, IdOf, ValueOf, TagsRight, TagRight, LeafNames, NamesIn, Hollow, GrownNode, Drains, DueNode;
    var i := SeekId(m, at, f, x[0]).value;
    var n, r := f[i], g[i];
    FitMember(m, at, f, i);
    FitMember(m, at, g, i);
    GrownId(m, at, n, r);
    SeekFinds(m, at, g, i);
    TagsAre(m, at, g, NamesIn(ds));
    assert DueNode(ds, at, n, r) && TagRight(m, at, r, NamesIn(ds));
    if |x| == 1 {
      HollowDrains(m, ds, at, n, r);
    } else {
      StepDown(m, ds, at, n, r, x[1..]);
      HollowAtDrains(m, ds, at + [n.name], n.kids, r.kids, x[1..]);
    }
  }

  lemma StepDown(m: Model, ds: seq<Default>, at: seq<string>, n: Node, r: Node, y: seq<Id>)
    requires FitNode(m, at, n) && FitNode(m, at, r) && GrownNode(n, r) && DueNode(ds, at, n, r) && n.Element?
    requires TagRight(m, at, r, NamesIn(ds)) && y != [] && Lookup(m, at + [n.name], n.kids, y).Some?
    ensures r.Element? && r.name == n.name && GrownKids(n.kids, r.kids) && Due(ds, at + [n.name], n.kids, r.kids)
    ensures FitKids(m, at + [n.name], n.kids) && FitKids(m, at + [n.name], r.kids)
    ensures TagsRight(m, at + [n.name], r.kids, NamesIn(ds))
  {
    hide FitKids, FitNode, TagsRight, NamesIn, Hollow, GrownKids, Fillable, Lookup;
    GrownName(n, r);
    TextIsLeaf(m, at, n);
    TextIsLeaf(m, at, r);
    if TextFirst(n) {
      LookupText(m, at + [n.name], n, y);
    } else {
      NotTextFirst(n, r);
      if n.kids == [] {
        EmptyLookup(m, at + [n.name], y);
      }
    }
  }

  // ---- clearing and trimming

  /** No container or list entry of f drains. */
  ghost predicate NoneDrains(m: Model, f: seq<Node>) {
    forall x :: x != [] && Lookup(m, [], f, x) == Some(Val.Inner) ==> !DrainsAt(m, DefaultsOf(m), [], f, x)
  }

  lemma DrainsIsHollow(m: Model, f: seq<Node>, x: seq<Id>)
    requires WellKeyed(m) && FitKids(m, [], f) && ProperDefaults(m, DefaultsOf(m)) && TagsRight(m, [], f, {})
    requires x != [] && Lookup(m, [], f, x).Some?
    ensures HollowAt(m, [], ReportTagged(m, f), x) <==> DrainsAt(m, DefaultsOf(m), [], f, x)
  {
    hide FitKids, Lookup, ProperDefaults, TagsRight, FillAll, DefaultsOf, HollowAt, DrainsAt, GrownKids, Due, LeafNames,
      NamesIn;
    var ds, g := DefaultsOf(m), ReportTagged(m, f);
    FillAllTags(m, f, ds, {});
    assert {} + NamesIn(ds) == NamesIn(ds);
    DefaultsAreLeafNames(m, ds);
    FillAllGrown(m, f, ds);
    GrownSameKids(f);
    NothingDueIn([], f);
    DueAll(m, f, f, [], ds);
    assert [] + ds == ds;
    HollowAtDrains(m, ds, [], f, g, x);
  }

  /** Report-all with tags and then clearing is trimming, on the whole map, if and only if
      every container and list entry has something below it that is neither a default nor
      empty and fillable. */
  lemma ClearIsTrimUnlessDrained(m: Model, f: seq<Node>)
    requires WellKeyed(m) && FitKids(m, [], f) && ProperDefaults(m, DefaultsOf(m)) && TagsRight(m, [], f, {})
    ensures SameMap(m, ClearAll(ReportTagged(m, f)), Trim(m, f)) <==> NoneDrains(m, f)
  {
    hide FitKids, Lookup, ProperDefaults, TagsRight, ReportTagged, Trim, DefaultsOf, ClearAll, HollowAt, DrainsAt,
      SameMap;
    ClearIsTrimExactly(m, f);
    forall x: seq<Id> | x != [] && Lookup(m, [], f, x) == Some(Val.Inner)
      ensures HollowAt(m, [], ReportTagged(m, f), x) <==> DrainsAt(m, DefaultsOf(m), [], f, x)
    {
      DrainsIsHollow(m, f, x);
    }
  }
}
