/** The with-defaults transformations of a whole document, and what they preserve. */
module WithDefaults {
  import opened Xml
  import opened Schema
  import opened Instances
  import opened Equivalents
  import opened MergeMeaning
  import opened Targets
  import opened Effects
  import opened Defaults
  import opened Trimming

  /** The defaults of leaves among some statements, in document order. */
  function DefaultsIn(above: seq<Stmt>, kids: seq<Stmt>): seq<Default>
    decreases kids
  {
    if kids == [] then []
    else
      OwnDefault(above, kids[0]) + DefaultsIn(above + [kids[0]], kids[0].kids) + DefaultsIn(above, kids[1..])
  }

  function Containers(top: seq<Stmt>): seq<Stmt> {
    if top == [] then []
    else (if top[0].kind.Container? then [top[0]] else []) + Containers(top[1..])
  }

  /** The defaults of a module: those inside its top-level containers. */
  function DefaultsOf(m: Model): seq<Default> {
    DefaultsIn([], Containers(m.top))
  }

  /** Every default belongs to a leaf that the model defines, not to a key, and is not
      empty. */
  ghost predicate ProperDefaults(m: Model, ds: seq<Default>) {
    forall i :: 0 <= i < |ds| ==> Proper(m, [], ds[i].stmts, ds[i].value)
  }

  function FillAll(tag: bool, f: seq<Node>, ds: seq<Default>): seq<Node>
    decreases |ds|
  {
    if ds == [] then f
    else if ds[0].stmts == [] then FillAll(tag, f, ds[1..])
    else FillAll(tag, FillTop(tag, f, ds[0].stmts, ds[0].value), ds[1..])
  }

  function TrimAll(f: seq<Node>, ds: seq<Default>): seq<Node>
    decreases |ds|
  {
    if ds == [] then f
    else if ds[0].stmts == [] then TrimAll(f, ds[1..])
    else TrimAll(TrimTop(f, ds[0].stmts, ds[0].value), ds[1..])
  }

  function ReportAll(m: Model, f: seq<Node>): seq<Node> {
    FillAll(false, f, DefaultsOf(m))
  }

  function ReportTagged(m: Model, f: seq<Node>): seq<Node> {
    FillAll(true, f, DefaultsOf(m))
  }

  function Trim(m: Model, f: seq<Node>): seq<Node> {
    TrimAll(f, DefaultsOf(m))
  }

  // ---- leaves and their defaults

  /** x is the instance path of a leaf: its ancestors can have children, and its steps have
      as many key values as there are keys. */
  predicate LeafPath(m: Model, at: seq<string>, x: seq<Id>)
    decreases x
  {
    x != [] && Formed(m, at, x) &&
    if |x| == 1 then KindOf(m, at + [x[0].name]).Some? && KindOf(m, at + [x[0].name]).value.Leaf?
    else Holder(m, at + [x[0].name]) && LeafPath(m, at + [x[0].name], x[1..])
  }

  /** One of the defaults is for these names. */
  predicate Listed(ds: seq<Default>, names: seq<string>) {
    exists i :: 0 <= i < |ds| && StmtNames(ds[i].stmts) == names
  }

  lemma {:induction false} LeafPathSolid(m: Model, at: seq<string>, x: seq<Id>)
    requires LeafPath(m, at, x)
    ensures Formed(m, at, x) && Solid(m, at + NamesOf(x))
    ensures KindOf(m, at + NamesOf(x)).Some? && KindOf(m, at + NamesOf(x)).value.Leaf?
    decreases x
  {
    NamesOfHead(at, x);
    if |x| == 1 {
      assert NamesOf(x[1..]) == [] && (at + [x[0].name]) + [] == at + [x[0].name];
    } else {
      LeafPathSolid(m, at + [x[0].name], x[1..]);
    }
  }

  /** The names of a proper default lead to a leaf with that default. */
  lemma {:induction false} ProperIsDefault(m: Model, at: seq<string>, stmts: seq<Stmt>, v: string)
    requires Proper(m, at, stmts, v)
    ensures stmts != [] && KindOf(m, at + StmtNames(stmts)) == Some(Leaf(Some(v)))
    decreases |stmts|
  {
    StmtNamesHead(stmts);
    var here := at + [stmts[0].name];
    assert at + StmtNames(stmts) == here + StmtNames(stmts[1..]);
    if |stmts| == 1 {
      assert stmts[1..] == [] && here + [] == here;
    } else {
      ProperIsDefault(m, here, stmts[1..], v);
    }
  }

  // ---- the map after filling in one default, seen at leaves

  function Upto(x: seq<Id>, j: nat): seq<Id>
    requires j <= |x|
  {
    x[..j]
  }

  ghost predicate Reached(m: Model, at: seq<string>, kids: seq<Node>, x: seq<Id>) {
    forall j :: 0 < j < |x| && Solid(m, at + NamesOf(Upto(x, j))) ==> Lookup(m, at, kids, Upto(x, j)).Some?
  }

  /** Reach, spelled out: every list entry and presence container on the way exists. */
  lemma {:induction false} ReachIs(m: Model, at: seq<string>, kids: seq<Node>, x: seq<Id>)
    ensures Reach(m, at, kids, x) <==> Reached(m, at, kids, x)
    decreases x
  {
    hide Solid, SeekId, ValueOf;
    if |x| > 1 {
      var i, here := SeekId(m, at, kids, x[0]), at + [x[0].name];
      var below := if i.Some? then KidsOf(kids[i.value]) else [];
      if i.Some? {
        SeekIdName(m, at, kids, x[0]);
      }
      ReachIs(m, here, below, x[1..]);
      assert Upto(x, 1) == [x[0]] && NamesOf([x[0]][1..]) == [];
      assert NamesOf([x[0]]) == [x[0].name];
      forall j | 1 < j < |x|
        ensures at + NamesOf(Upto(x, j)) == here + NamesOf(Upto(x[1..], j - 1))
        ensures Lookup(m, at, kids, Upto(x, j)) == Lookup(m, here, below, Upto(x[1..], j - 1))
      {
        assert Upto(x, j)[1..] == Upto(x[1..], j - 1) && Upto(x, j)[0] == x[0];
        NamesOfHead(at, Upto(x, j));
        if i.None? {
          EmptyLookup(m, here, Upto(x[1..], j - 1));
        }
      }
      ReachedStep(m, at, kids, x, here, below);
    }
  }

  lemma ReachedStep(m: Model, at: seq<string>, kids: seq<Node>, x: seq<Id>, here: seq<string>, below: seq<Node>)
    requires |x| > 1
    requires forall j :: 1 < j < |x| ==>
      at + NamesOf(Upto(x, j)) == here + NamesOf(Upto(x[1..], j - 1)) &&
      Lookup(m, at, kids, Upto(x, j)) == Lookup(m, here, below, Upto(x[1..], j - 1))
    ensures Reached(m, at, kids, x) <==>
      (Solid(m, at + NamesOf(Upto(x, 1))) ==> Lookup(m, at, kids, Upto(x, 1)).Some?) && Reached(m, here, below, x[1..])
  {
    hide Lookup, Solid, NamesOf;
    if Reached(m, at, kids, x) {
      forall j | 0 < j < |x[1..]| && Solid(m, here + NamesOf(Upto(x[1..], j)))
        ensures Lookup(m, here, below, Upto(x[1..], j)).Some?
      {
        assert at + NamesOf(Upto(x, j + 1)) == here + NamesOf(Upto(x[1..], j + 1 - 1));
      }
    }
  }

  /** What is above a leaf can have children. */
  lemma {:induction false} AboveLeaf(m: Model, at: seq<string>, x: seq<Id>, j: nat)
    requires LeafPath(m, at, x) && 0 < j < |x|
    ensures Formed(m, at, Upto(x, j)) && Holder(m, at + NamesOf(Upto(x, j))) && Upto(x, j) != []
    decreases x
  {
    var y := Upto(x, j);
    NamesOfHead(at, y);
    assert y[1..] == Upto(x[1..], j - 1) && y[0] == x[0];
    if j == 1 {
      assert NamesOf(y[1..]) == [] && (at + [x[0].name]) + [] == at + [x[0].name];
    } else {
      AboveLeaf(m, at + [x[0].name], x[1..], j - 1);
    }
  }

  lemma HolderIsNoLeaf(m: Model, names: seq<string>)
    requires names != [] && Holder(m, names)
    ensures KindOf(m, names).Some? && !KindOf(m, names).value.Leaf?
  {
  }

  /** Filling in one default does not change which leaves can be reached. */
  lemma FillKeepsReach(tag: bool, m: Model, f: seq<Node>, d: Default, x: seq<Id>)
    requires WellKeyed(m) && FitKids(m, [], f) && Proper(m, [], d.stmts, d.value) && LeafPath(m, [], x)
    ensures d.stmts != []
    ensures Reach(m, [], FillKids(tag, true, f, d.stmts, d.value), x) <==> Reach(m, [], f, x)
  {
    ProperIsDefault(m, [], d.stmts, d.value);
    hide Proper, Lookup, Reach, FillKids, Holder, Solid, LeafPath, Formed, FitKids, NamesOf;
    var g := FillKids(tag, true, f, d.stmts, d.value);
    ReachIs(m, [], f, x);
    ReachIs(m, [], g, x);
    forall j | 0 < j < |x| && Solid(m, [] + NamesOf(Upto(x, j)))
      ensures Lookup(m, [], g, Upto(x, j)) == Lookup(m, [], f, Upto(x, j))
    {
      AboveLeaf(m, [], x, j);
      FillLookup(tag, m, [], f, d.stmts, d.value, Upto(x, j));
      HolderIsNoLeaf(m, [] + NamesOf(Upto(x, j)));
      assert [] + StmtNames(d.stmts) == StmtNames(d.stmts) && [] + NamesOf(Upto(x, j)) == NamesOf(Upto(x, j));
    }
  }

  /** The value of the leaf at x once the defaults ds have been filled in. */
  function Reported(m: Model, f: seq<Node>, ds: seq<Default>, x: seq<Id>): Option<Val>
    requires x != []
  {
    if Listed(ds, NamesOf(x)) && Lookup(m, [], f, x).None? && Reach(m, [], f, x) && DefaultAt(m, NamesOf(x)).Some?
    then Some(LeafVal(DefaultAt(m, NamesOf(x)).value))
    else Lookup(m, [], f, x)
  }

  lemma ListedCons(ds: seq<Default>, names: seq<string>)
    requires ds != []
    ensures Listed(ds, names) <==> StmtNames(ds[0].stmts) == names || Listed(ds[1..], names)
  {
    if Listed(ds, names) {
      var i :| 0 <= i < |ds| && StmtNames(ds[i].stmts) == names;
      assert i > 0 ==> ds[1..][i - 1] == ds[i];
    }
    if Listed(ds[1..], names) {
      var i :| 0 <= i < |ds[1..]| && StmtNames(ds[1..][i].stmts) == names;
      assert ds[i + 1] == ds[1..][i];
    }
  }

  lemma ProperRest(m: Model, ds: seq<Default>)
    requires ProperDefaults(m, ds) && ds != []
    ensures Proper(m, [], ds[0].stmts, ds[0].value) && ds[0].stmts != [] && ProperDefaults(m, ds[1..])
    ensures DefaultAt(m, StmtNames(ds[0].stmts)) == Some(ds[0].value)
  {
    ProperIsDefault(m, [], ds[0].stmts, ds[0].value);
    assert [] + StmtNames(ds[0].stmts) == StmtNames(ds[0].stmts);
    assert forall i :: 0 <= i < |ds[1..]| ==> ds[1..][i] == ds[i + 1];
  }

  /** Filling in defaults gives every leaf that is missing and can be reached its default,
      changes no other leaf, and keeps the document fit. */
  lemma {:induction false} FillAllLookup(tag: bool, m: Model, f: seq<Node>, ds: seq<Default>, x: seq<Id>)
    requires WellKeyed(m) && FitKids(m, [], f) && ProperDefaults(m, ds) && LeafPath(m, [], x)
    ensures FitKids(m, [], FillAll(tag, f, ds))
    ensures Reach(m, [], FillAll(tag, f, ds), x) <==> Reach(m, [], f, x)
    ensures Lookup(m, [], FillAll(tag, f, ds), x) == Reported(m, f, ds, x)
    decreases |ds|
  {
    hide Proper, Lookup, Reach, FillKids, FillTop, Solid, LeafPath, Formed, FitKids, NamesOf, ProperDefaults,
      DefaultAt, Listed;
    assert x != [] by {
      LeafPathFromRoot(m, x);
    }
    if ds == [] {
      NotListed(NamesOf(x));
    } else {
      var d := ds[0];
      ProperRest(m, ds);
      var g := FillKids(tag, true, f, d.stmts, d.value);
      LeafPathFromRoot(m, x);
      FillTopIsFill(tag, m, f, d.stmts, d.value);
      FillFits(tag, m, [], f, d.stmts, d.value);
      FillLookup(tag, m, [], f, d.stmts, d.value, x);
      FillKeepsReach(tag, m, f, d, x);
      FillAllLookup(tag, m, g, ds[1..], x);
      ListedCons(ds, NamesOf(x));
    }
  }

  lemma NotListed(names: seq<string>)
    ensures !Listed([], names)
  {
  }

  lemma LeafPathFromRoot(m: Model, x: seq<Id>)
    requires LeafPath(m, [], x)
    ensures x != [] && Formed(m, [], x) && Solid(m, [] + NamesOf(x)) && [] + NamesOf(x) == NamesOf(x)
    ensures KindOf(m, NamesOf(x)).Some? && KindOf(m, NamesOf(x)).value.Leaf?
  {
    LeafPathSolid(m, [], x);
    assert [] + NamesOf(x) == NamesOf(x);
  }

  /** The value of the leaf at x once the defaults ds have been trimmed. */
  function Bared(m: Model, f: seq<Node>, ds: seq<Default>, x: seq<Id>): Option<Val>
    requires x != []
  {
    if Listed(ds, NamesOf(x)) && DefaultAt(m, NamesOf(x)).Some? &&
      Lookup(m, [], f, x) == Some(LeafVal(DefaultAt(m, NamesOf(x)).value)) then None
    else Lookup(m, [], f, x)
  }

  /** Trimming takes every leaf out that holds its default, and changes nothing else. */
  lemma {:induction false} TrimAllLookup(m: Model, f: seq<Node>, ds: seq<Default>, x: seq<Id>)
    requires WellKeyed(m) && FitKids(m, [], f) && ProperDefaults(m, ds) && x != []
    ensures FitKids(m, [], TrimAll(f, ds)) && Lookup(m, [], TrimAll(f, ds), x) == Bared(m, f, ds, x)
    decreases |ds|
  {
    hide Proper, Lookup, TrimKids, TrimTop, FitKids, NamesOf, ProperDefaults, DefaultAt, Listed;
    if ds == [] {
      NotListed(NamesOf(x));
    } else {
      var d := ds[0];
      ProperRest(m, ds);
      TrimTopIsTrim(m, f, d.stmts, d.value);
      TrimFits(m, [], f, d.stmts, d.value);
      TrimLookup(m, [], f, d.stmts, d.value, x);
      TrimAllLookup(m, TrimKids(f, d.stmts, d.value), ds[1..], x);
      ListedCons(ds, NamesOf(x));
    }
  }

  lemma TrimKeepsReach(m: Model, f: seq<Node>, ds: seq<Default>, x: seq<Id>)
    requires WellKeyed(m) && FitKids(m, [], f) && ProperDefaults(m, ds) && LeafPath(m, [], x)
    ensures Reach(m, [], TrimAll(f, ds), x) <==> Reach(m, [], f, x)
  {
    hide Proper, Lookup, Reach, TrimAll, Holder, Solid, LeafPath, Formed, FitKids, NamesOf, ProperDefaults, Listed,
      DefaultAt;
    var g := TrimAll(f, ds);
    ReachIs(m, [], f, x);
    ReachIs(m, [], g, x);
    forall j | 0 < j < |x| && Solid(m, [] + NamesOf(Upto(x, j)))
      ensures Lookup(m, [], g, Upto(x, j)) == Lookup(m, [], f, Upto(x, j))
    {
      AboveLeaf(m, [], x, j);
      TrimAllLookup(m, f, ds, Upto(x, j));
      assert [] + NamesOf(Upto(x, j)) == NamesOf(Upto(x, j));
      NoDefaultAbove(m, NamesOf(Upto(x, j)));
    }
  }

  lemma NoDefaultAbove(m: Model, names: seq<string>)
    requires names != [] && Holder(m, names)
    ensures DefaultAt(m, names).None?
  {
  }

  // ---- which leaves have a default

  /** No statements without a node of their own. */
  predicate Flat(kids: seq<Stmt>) {
    forall i :: 0 <= i < |kids| ==> !Transparent(kids[i].kind) && Flat(kids[i].kids)
  }

  lemma {:induction false} FlatFind(kids: seq<Stmt>, name: string)
    requires Flat(kids)
    ensures var p := FindStmt(kids, name);
      p.Some? ==> |p.value| == 1 && p.value[0] < |kids| && kids[p.value[0]].name == name
    decreases kids
  {
    if kids != [] {
      assert !Transparent(kids[0].kind);
      FlatFind(kids[1..], name);
    }
  }

  lemma {:induction false} ListedConcat(a: seq<Default>, b: seq<Default>, names: seq<string>)
    ensures Listed(a + b, names) <==> Listed(a, names) || Listed(b, names)
  {
    var all := a + b;
    if Listed(a, names) {
      var i :| 0 <= i < |a| && StmtNames(a[i].stmts) == names;
      assert all[i] == a[i];
    }
    if Listed(b, names) {
      var i :| 0 <= i < |b| && StmtNames(b[i].stmts) == names;
      assert all[|a| + i] == b[i];
    }
    if Listed(all, names) {
      var i :| 0 <= i < |all| && StmtNames(all[i].stmts) == names;
      assert all[i] == if i < |a| then a[i] else b[i - |a|];
    }
  }

  function OwnDefault(above: seq<Stmt>, st: Stmt): seq<Default> {
    match st.kind
    case Leaf(Some(v)) => [Default(above + [st], v)]
    case _ => []
  }

  /** A default of one of the statements, or below it, is among the defaults. */
  lemma {:induction false} ListedAt(above: seq<Stmt>, kids: seq<Stmt>, i: nat, names: seq<string>)
    requires i < |kids|
    requires Listed(OwnDefault(above, kids[i]), names) || Listed(DefaultsIn(above + [kids[i]], kids[i].kids), names)
    ensures Listed(DefaultsIn(above, kids), names)
    decreases i
  {
    hide Listed;
    var a, b, c := OwnDefault(above, kids[0]), DefaultsIn(above + [kids[0]], kids[0].kids),
      DefaultsIn(above, kids[1..]);
    assert DefaultsIn(above, kids) == a + b + c;
    ListedConcat(a + b, c, names);
    ListedConcat(a, b, names);
    if i > 0 {
      ListedAt(above, kids[1..], i - 1, names);
    }
  }

  lemma {:induction false} StmtNamesSnoc(stmts: seq<Stmt>, st: Stmt)
    ensures StmtNames(stmts + [st]) == StmtNames(stmts) + [st.name]
  {
    if stmts == [] {
      assert stmts + [st] == [st] && [st][1..] == [];
    } else {
      assert (stmts + [st])[1..] == stmts[1..] + [st];
      StmtNamesSnoc(stmts[1..], st);
    }
  }

  /** The default of every leaf that the statements define is among their defaults. */
  lemma {:induction false} FoundIsListed(above: seq<Stmt>, kids: seq<Stmt>, names: seq<string>)
    requires Flat(kids) && names != [] && FindModel(kids, names).Some?
    requires StmtAt(kids, FindModel(kids, names).value).kind.Leaf?
    requires StmtAt(kids, FindModel(kids, names).value).kind.default.Some?
    ensures Listed(DefaultsIn(above, kids), StmtNames(above) + names)
    decreases names
  {
    FlatFind(kids, names[0]);
    var i := FindStmt(kids, names[0]).value[0];
    var st := kids[i];
    StmtNamesSnoc(above, st);
    assert names == [st.name] + names[1..];
    assert StmtNames(above) + names == StmtNames(above + [st]) + names[1..];
    assert Flat(st.kids);
    var q := FindModel(st.kids, names[1..]).value;
    assert FindModel(kids, names).value == [i] + q;
    if names[1..] == [] {
      assert [i] + q == [i] && StmtNames(above + [st]) + [] == StmtNames(above + [st]);
      assert OwnDefault(above, st)[0].stmts == above + [st];
    } else {
      assert ([i] + q)[1..] == q;
      FoundIsListed(above + [st], st.kids, names[1..]);
    }
    ListedAt(above, kids, i, StmtNames(above) + names);
  }

  lemma {:induction false} ContainersFind(top: seq<Stmt>, i: nat) returns (k: nat)
    requires i < |top| && top[i].kind.Container?
    ensures k < |Containers(top)| && Containers(top)[k] == top[i]
    decreases top
  {
    if i == 0 {
      k := 0;
    } else {
      k := ContainersFind(top[1..], i - 1);
      if top[0].kind.Container? {
        k := k + 1;
      }
    }
  }

  /** Every default inside a top-level container is processed. */
  lemma DefaultIsListed(m: Model, names: seq<string>)
    requires Flat(m.top) && |names| > 1 && DefaultAt(m, names).Some?
    requires KindOf(m, [names[0]]).Some? && KindOf(m, [names[0]]).value.Container?
    ensures Listed(DefaultsOf(m), names)
  {
    FlatFind(m.top, names[0]);
    var i := FindStmt(m.top, names[0]).value[0];
    var st := m.top[i];
    var q := FindModel(st.kids, names[1..]).value;
    assert [names[0]][1..] == [] && FindModel(st.kids, []) == Some([]);
    assert [i] + [] == [i];
    assert st.kind.Container?;
    assert ([i] + q)[1..] == q && names == [names[0]] + names[1..];
    assert Flat(st.kids);
    FoundIsListed([st], st.kids, names[1..]);
    assert StmtNames([st]) == [st.name] + StmtNames([]) by {
      assert [st][1..] == [];
    }
    var k := ContainersFind(m.top, i);
    assert [] + [st] == [st];
    ListedAt([], Containers(m.top), k, names);
  }

  // ---- the effective configuration

  /** The value in effect at the leaf x: the explicit one, else the schema default. */
  function InEffect(m: Model, f: seq<Node>, x: seq<Id>): Option<Val>
    requires x != []
  {
    if Lookup(m, [], f, x).Some? then Lookup(m, [], f, x)
    else
      match DefaultAt(m, NamesOf(x))
      case Some(v) => Some(LeafVal(v))
      case None => None
  }

  /** Every list entry and every presence container on the way to x exists. */
  ghost predicate AncestorsExist(m: Model, f: seq<Node>, x: seq<Id>) {
    forall j :: 0 < j < |x| && Marks(m, NamesOf(Upto(x, j))) ==> Lookup(m, [], f, Upto(x, j)).Some?
  }

  predicate Marks(m: Model, names: seq<string>) {
    names != [] && KindOf(m, names).Some? &&
    (KindOf(m, names).value.List? || (KindOf(m, names).value.Container? && KindOf(m, names).value.presence))
  }

  lemma AncestorsReach(m: Model, f: seq<Node>, x: seq<Id>)
    requires LeafPath(m, [], x) && AncestorsExist(m, f, x)
    ensures Reach(m, [], f, x)
  {
    hide Lookup;
    ReachIs(m, [], f, x);
    forall j | 0 < j < |x| && Solid(m, [] + NamesOf(Upto(x, j)))
      ensures Lookup(m, [], f, Upto(x, j)).Some?
    {
      AboveLeaf(m, [], x, j);
      assert [] + NamesOf(Upto(x, j)) == NamesOf(Upto(x, j));
    }
  }

  /** Reporting all keeps the effective configuration, and shows it: afterwards the value in
      effect of every leaf in a top-level container is explicit. */
  lemma ReportAllKeepsEffect(m: Model, f: seq<Node>, x: seq<Id>)
    requires WellKeyed(m) && FitKids(m, [], f) && ProperDefaults(m, DefaultsOf(m)) && LeafPath(m, [], x)
    requires AncestorsExist(m, f, x)
    ensures InEffect(m, ReportAll(m, f), x) == InEffect(m, f, x) && FitKids(m, [], ReportAll(m, f))
    ensures Flat(m.top) && InContainer(m, x) ==>
      Lookup(m, [], ReportAll(m, f), x) == InEffect(m, f, x)
  {
    hide Lookup, FitKids, DefaultsOf, ProperDefaults, Proper, Listed, LeafPath, DefaultAt, Reach, FillAll;
    LeafPathFromRoot(m, x);
    AncestorsReach(m, f, x);
    FillAllLookup(false, m, f, DefaultsOf(m), x);
    if Flat(m.top) && InContainer(m, x) && DefaultAt(m, NamesOf(x)).Some? {
      TopIsHolder(m, x);
      DefaultIsListed(m, NamesOf(x));
    }
  }

  predicate InContainer(m: Model, x: seq<Id>) {
    |x| > 1 && KindOf(m, [x[0].name]).Some? && KindOf(m, [x[0].name]).value.Container?
  }

  lemma TopIsHolder(m: Model, x: seq<Id>)
    requires LeafPath(m, [], x) && |x| > 1
    ensures |NamesOf(x)| > 1 && NamesOf(x)[0] == x[0].name && KindOf(m, [x[0].name]).Some?
  {
    assert [] + [x[0].name] == [x[0].name];
  }

  /** Trimming keeps the effective configuration, and hides what is default: afterwards no
      leaf in a top-level container holds its default. */
  lemma TrimKeepsEffect(m: Model, f: seq<Node>, x: seq<Id>)
    requires WellKeyed(m) && FitKids(m, [], f) && ProperDefaults(m, DefaultsOf(m)) && LeafPath(m, [], x)
    ensures InEffect(m, Trim(m, f), x) == InEffect(m, f, x) && FitKids(m, [], Trim(m, f))
    ensures Flat(m.top) && InContainer(m, x) && DefaultAt(m, NamesOf(x)).Some? ==>
      Lookup(m, [], Trim(m, f), x) != Some(LeafVal(DefaultAt(m, NamesOf(x)).value))
  {
    hide Lookup, FitKids, DefaultsOf, ProperDefaults, Proper, Listed, LeafPath, DefaultAt, TrimAll;
    LeafPathFromRoot(m, x);
    TrimAllLookup(m, f, DefaultsOf(m), x);
    if Flat(m.top) && InContainer(m, x) && DefaultAt(m, NamesOf(x)).Some? {
      TopIsHolder(m, x);
      DefaultIsListed(m, NamesOf(x));
    }
  }

  // ---- how the transformations cancel

  lemma TrimAfterReportAll(m: Model, f: seq<Node>, x: seq<Id>)
    requires WellKeyed(m) && FitKids(m, [], f) && ProperDefaults(m, DefaultsOf(m)) && LeafPath(m, [], x)
    ensures Lookup(m, [], Trim(m, ReportAll(m, f)), x) == Lookup(m, [], Trim(m, f), x)
  {
    hide Lookup, FitKids, DefaultsOf, ProperDefaults, Proper, Listed, LeafPath, DefaultAt, Reach, FillAll, TrimAll;
    LeafPathFromRoot(m, x);
    FillAllLookup(false, m, f, DefaultsOf(m), x);
    TrimAllLookup(m, f, DefaultsOf(m), x);
    TrimAllLookup(m, ReportAll(m, f), DefaultsOf(m), x);
  }

  lemma ReportAllTwice(m: Model, f: seq<Node>, x: seq<Id>)
    requires WellKeyed(m) && FitKids(m, [], f) && ProperDefaults(m, DefaultsOf(m)) && LeafPath(m, [], x)
    ensures Lookup(m, [], ReportAll(m, ReportAll(m, f)), x) == Lookup(m, [], ReportAll(m, f), x)
  {
    hide Lookup, FitKids, DefaultsOf, ProperDefaults, Proper, Listed, LeafPath, DefaultAt, Reach, FillAll;
    LeafPathFromRoot(m, x);
    FillAllLookup(false, m, f, DefaultsOf(m), x);
    FillAllLookup(false, m, ReportAll(m, f), DefaultsOf(m), x);
  }

  lemma TrimTwice(m: Model, f: seq<Node>, x: seq<Id>)
    requires WellKeyed(m) && FitKids(m, [], f) && ProperDefaults(m, DefaultsOf(m)) && x != []
    ensures Lookup(m, [], Trim(m, Trim(m, f)), x) == Lookup(m, [], Trim(m, f), x)
  {
    hide Lookup, FitKids, DefaultsOf, ProperDefaults, Proper, Listed, DefaultAt, TrimAll;
    TrimAllLookup(m, f, DefaultsOf(m), x);
    TrimAllLookup(m, Trim(m, f), DefaultsOf(m), x);
  }

  /** What is above an instance exists. */
  lemma PresentIsReached(m: Model, f: seq<Node>, x: seq<Id>)
    requires x != [] && Lookup(m, [], f, x).Some?
    ensures Reach(m, [], f, x)
  {
    hide Lookup, Solid, Reach;
    ReachIs(m, [], f, x);
    forall j | 0 < j < |x| && Solid(m, [] + NamesOf(Upto(x, j)))
      ensures Lookup(m, [], f, Upto(x, j)).Some?
    {
      LookupPrefix(m, [], f, x, j);
    }
  }

  /** Trimming first loses nothing that reporting all would show. */
  lemma ReportAllAfterTrim(m: Model, f: seq<Node>, x: seq<Id>)
    requires WellKeyed(m) && FitKids(m, [], f) && ProperDefaults(m, DefaultsOf(m)) && LeafPath(m, [], x)
    ensures Lookup(m, [], ReportAll(m, Trim(m, f)), x) == Lookup(m, [], ReportAll(m, f), x)
  {
    hide Lookup, FitKids, DefaultsOf, ProperDefaults, Proper, Listed, LeafPath, DefaultAt, Reach, FillAll, TrimAll;
    LeafPathFromRoot(m, x);
    TrimAllLookup(m, f, DefaultsOf(m), x);
    TrimKeepsReach(m, f, DefaultsOf(m), x);
    FillAllLookup(false, m, f, DefaultsOf(m), x);
    FillAllLookup(false, m, Trim(m, f), DefaultsOf(m), x);
    if Lookup(m, [], f, x).Some? {
      PresentIsReached(m, f, x);
    }
  }

  // ---- which roots are created

  /** Elements for these statements, one below the other, are created where they are
      missing. */
  predicate Creatable(stmts: seq<Stmt>) {
    stmts == [] || (MayCreate(false, stmts[0]) && Creatable(stmts[1..]))
  }

  /** A new element gets a child exactly if everything down to the leaf can be created and
      the default is not empty. */
  lemma {:induction false} NewIsFilled(tag: bool, stmts: seq<Stmt>, v: string)
    requires stmts != []
    ensures FillNode(tag, Element(stmts[0].name, map[], []), stmts, v).kids != [] <==>
      v != "" && Creatable(stmts[1..])
    decreases |stmts|
  {
    if |stmts| > 1 {
      NewIsFilled(tag, stmts[1..], v);
      assert !HasNamed([], stmts[1].name);
    }
  }

  lemma FirstKeepsNames(f: seq<Node>, i: nat, n: Node, c: string)
    requires i < |f| && f[i].Element? && n.Element? && n.name == f[i].name
    ensures HasNamed(f[i := n], c) <==> HasNamed(f, c)
  {
    assert forall j :: 0 <= j < |f| ==> (Named(f[i := n][j], c) <==> Named(f[j], c));
  }

  /** One default creates its root if it is missing and everything below can be created. */
  lemma RootCreated(tag: bool, f: seq<Node>, stmts: seq<Stmt>, v: string, c: string)
    requires stmts != []
    ensures HasNamed(FillTop(tag, f, stmts, v), c) <==>
      HasNamed(f, c) || (stmts[0].name == c && v != "" && Creatable(stmts[1..]))
  {
    hide FillEach, FillNode, Creatable;
    NewIsFilled(tag, stmts, v);
    var first := FirstRoot(f, stmts[0].name);
    if first.Some? {
      FirstKeepsNames(f, first.value, FillNode(tag, f[first.value], stmts, v), c);
      return;
    }
    var n := FillNode(tag, Element(stmts[0].name, map[], []), stmts, v);
    assert forall i :: 0 <= i < |f + [n]| ==> (f + [n])[i] == if i < |f| then f[i] else n;
    assert (f + [n])[|f|] == n;
    if HasNamed(f, c) {
      var i :| 0 <= i < |f| && Named(f[i], c);
      assert Named((f + [n])[i], c);
    }
  }

  /** The default d creates a root called c. */
  predicate CreatesRoot(d: Default, c: string) {
    d.stmts != [] && d.stmts[0].name == c && d.value != "" && Creatable(d.stmts[1..])
  }

  /** Filling in defaults creates a missing root, presence container or not, if and only if
      below it is a default with neither list nor presence container on the way. */
  lemma {:induction false} RootsCreatedExactly(tag: bool, f: seq<Node>, ds: seq<Default>, c: string)
    ensures HasNamed(FillAll(tag, f, ds), c) <==>
      HasNamed(f, c) || exists i :: 0 <= i < |ds| && CreatesRoot(ds[i], c)
    decreases |ds|
  {
    hide HasNamed, CreatesRoot, FillTop;
    if ds != [] {
      var d := ds[0];
      if d.stmts != [] {
        RootCreated(tag, f, d.stmts, d.value, c);
        RootsCreatedExactly(tag, FillTop(tag, f, d.stmts, d.value), ds[1..], c);
      } else {
        RootsCreatedExactly(tag, f, ds[1..], c);
      }
      CreatesMeans(d, c);
      assert forall i :: 0 < i < |ds| ==> ds[i] == ds[1..][i - 1];
      assert forall i :: 0 <= i < |ds[1..]| ==> ds[1..][i] == ds[i + 1];
    }
  }

  lemma CreatesMeans(d: Default, c: string)
    ensures CreatesRoot(d, c) <==> d.stmts != [] && d.stmts[0].name == c && d.value != "" && Creatable(d.stmts[1..])
  {
  }

  /** Presence is not asked at the top: a missing root, a presence container too, stays
      absent when all defaults are reported if and only if no default of the module creates
      it. */
  lemma MissingRootStaysAbsent(m: Model, f: seq<Node>, c: string)
    requires !HasNamed(f, c)
    ensures !HasNamed(ReportAll(m, f), c) <==>
      forall i :: 0 <= i < |DefaultsOf(m)| ==> !CreatesRoot(DefaultsOf(m)[i], c)
  {
    hide HasNamed, CreatesRoot;
    RootsCreatedExactly(false, f, DefaultsOf(m), c);
  }

  /** An input: a presence container with a default in it, and nothing configured. */
  lemma TopPresenceIsCreated(m: Model, x: seq<Id>)
    requires WellKeyed(m) && ProperDefaults(m, DefaultsOf(m)) && LeafPath(m, [], x) && |x| == 2
    requires Flat(m.top) && InContainer(m, x) && KindOf(m, [x[0].name]).value.presence && DefaultAt(m, NamesOf(x)).Some?
    ensures Lookup(m, [], ReportAll(m, []), x) == Some(LeafVal(DefaultAt(m, NamesOf(x)).value))
    ensures !AncestorsExist(m, [], x)
  {
    hide Lookup, FitKids, DefaultsOf, ProperDefaults, Proper, Listed, LeafPath, DefaultAt, FillAll;
    LeafPathFromRoot(m, x);
    TopIsHolder(m, x);
    DefaultIsListed(m, NamesOf(x));
    EmptyFits(m, []);
    EmptyLookup(m, [], x);
    EmptyLookup(m, [], Upto(x, 1));
    assert NamesOf(Upto(x, 1)) == [x[0].name] by {
      assert Upto(x, 1) == [x[0]] && [x[0]][1..] == [];
    }
    assert [] + [x[0].name] == [x[0].name];
    assert Marks(m, NamesOf(Upto(x, 1)));
    FillAllLookup(false, m, [], DefaultsOf(m), x);
  }
}
