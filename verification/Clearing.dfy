/** Clearing: removing the leaves that were tagged as default, with ancestors they were the
    only content of. */
module Clearing {
  import opened Xml
  import opened Schema
  import opened Matching
  import opened Instances
  import opened Equivalents
  import opened Merge
  import opened MergeMeaning
  import opened Targets
  import opened Deletion
  import opened Effects
  import opened EditSites
  import opened Defaults
  import opened WithDefaults

  predicate IsTagged(n: Node) {
    n.Element? && TAG in n.attrs && n.attrs[TAG] == "true"
  }

  /** The first tagged node in document order. */
  function FirstTagged(kids: seq<Node>): (r: Option<Path>)
    ensures r.Some? ==> IsNode(kids, r.value) && IsTagged(NodeAt(kids, r.value))
  {
    if kids == [] then None
    else if IsTagged(kids[0]) then Some([0])
    else
      match if kids[0].Element? then FirstTagged(kids[0].kids) else None
      case Some(q) => Some([0] + q)
      case None =>
        match FirstTagged(kids[1..])
        case Some(q) => Some(Shift(q))
        case None => None
  }

  /** Goes up from the node at q as long as it is an only child, but not above the top. */
  function Climb(f: seq<Node>, q: Path): (p: Path)
    requires IsNode(f, q)
    ensures IsNode(f, p) && |p| <= |q| && q[..|p|] == p
    decreases |q|
  {
    if |q| == 1 then q
    else
      NodeInParent(f, q);
      if |KidsAt(f, Parent(q))| == 1 then
        var p := Climb(f, Parent(q));
        assert q[..|p|] == Parent(q)[..|p|];
        p
      else q
  }

  function ClearAll(f: seq<Node>): seq<Node>
    decreases Size(f)
  {
    match FirstTagged(f)
    case None => f
    case Some(q) => ClearAll(RemoveAt(f, Climb(f, q)))
  }

  /** Climbs in place. */
  method ClimbUp(f: seq<Node>, q: Path) returns (p: Path)
    requires IsNode(f, q)
    ensures p == Climb(f, q)
  {
    p := q;
    NodeInParent(f, p);
    while |p| > 1 && |KidsAt(f, Parent(p))| == 1
      invariant IsNode(f, p) && Climb(f, q) == Climb(f, p)
      invariant |p| > 1 ==> IsList(f, Parent(p))
    {
      NodeInParent(f, p);
      p := Parent(p);
      NodeInParent(f, p);
    }
  }

  /** Removes every tagged node with the ancestors it is the only content of. */
  method DefaultClear(doc: Document)
    modifies doc
    ensures doc.roots == ClearAll(old(doc.roots)) && FirstTagged(doc.roots).None?
  {
    var site := FirstTagged(doc.roots);
    while site.Some?
      invariant site == FirstTagged(doc.roots) && ClearAll(doc.roots) == ClearAll(old(doc.roots))
      decreases Size(doc.roots), site.Some?
    {
      var p := ClimbUp(doc.roots, site.value);
      NodeInParent(doc.roots, p);
      doc.Unlink(Parent(p), Last(p));
      site := FirstTagged(doc.roots);
    }
  }

  /** Only the tag value "true" counts: what carries another is never cleared. */
  lemma {:induction false} OnlyTrueIsCleared(f: seq<Node>)
    requires forall q :: IsNode(f, q) && NodeAt(f, q).Element? && "default" in NodeAt(f, q).attrs ==>
      NodeAt(f, q).attrs["default"] != "true"
    ensures ClearAll(f) == f
  {
    assert FirstTagged(f).None?;
  }

  // ---- which nodes are tagged

  /** An element is tagged exactly if defaults have been filled in for its names and it
      holds its default. */
  ghost predicate TagsRight(m: Model, at: seq<string>, kids: seq<Node>, done: set<seq<string>>)
    decreases kids
  {
    forall i :: 0 <= i < |kids| && kids[i].Element? ==>
      (IsTagged(kids[i]) <==>
        at + [kids[i].name] in done && DefaultAt(m, at + [kids[i].name]) == Some(Content(kids[i]))) &&
      TagsRight(m, at + [kids[i].name], kids[i].kids, done)
  }

  ghost predicate TagRight(m: Model, at: seq<string>, n: Node, done: set<seq<string>>) {
    n.Element? ==>
      (IsTagged(n) <==> at + [n.name] in done && DefaultAt(m, at + [n.name]) == Some(Content(n))) &&
      TagsRight(m, at + [n.name], n.kids, done)
  }

  lemma {:induction false} TagsAre(m: Model, at: seq<string>, kids: seq<Node>, done: set<seq<string>>)
    ensures TagsRight(m, at, kids, done) <==> forall i :: 0 <= i < |kids| ==> TagRight(m, at, kids[i], done)
  {
  }

  predicate Leads(names: seq<string>, target: seq<string>) {
    |names| <= |target| && target[..|names|] == names
  }

  /** Filling in for a target changes nothing where the target does not lie. */
  lemma {:induction false} OffTarget(m: Model, at: seq<string>, n: Node, done: set<seq<string>>, target: seq<string>)
    requires TagRight(m, at, n, done) && n.Element? && !Leads(at + [n.name], target)
    ensures TagRight(m, at, n, done + {target})
    decreases n
  {
    var here := at + [n.name];
    TagsAre(m, here, n.kids, done);
    TagsAre(m, here, n.kids, done + {target});
    forall i | 0 <= i < |n.kids|
      ensures TagRight(m, here, n.kids[i], done + {target})
    {
      if n.kids[i].Element? {
        LeadsUp(here, n.kids[i].name, target);
        OffTarget(m, here, n.kids[i], done, target);
      }
    }
    assert here != target;
  }

  lemma LeadsUp(names: seq<string>, name: string, target: seq<string>)
    ensures Leads(names + [name], target) ==> Leads(names, target)
    ensures Leads(names, names)
  {
    if Leads(names + [name], target) {
      assert target[..|names|] == target[..|names| + 1][..|names|];
    }
  }

  lemma LeadsOnly(at: seq<string>, name: string, stmts: seq<Stmt>)
    requires stmts != []
    ensures Leads(at + [name], at + StmtNames(stmts)) <==> name == stmts[0].name
    ensures at + StmtNames(stmts) == (at + [stmts[0].name]) + StmtNames(stmts[1..])
  {
    hide StmtNames;
    StmtNamesHead(stmts);
    LeadsHead(at, name, stmts[0].name, StmtNames(stmts[1..]));
  }

  lemma LeadsHead(at: seq<string>, name: string, first: string, rest: seq<string>)
    ensures Leads(at + [name], at + ([first] + rest)) <==> name == first
    ensures at + ([first] + rest) == (at + [first]) + rest
  {
    var target := at + ([first] + rest);
    assert target == (at + [first]) + rest;
    assert target[..|at| + 1] == at + [first];
    if at + [name] == at + [first] {
      assert (at + [name])[|at|] == (at + [first])[|at|];
    }
  }

  lemma {:induction false} TextHasNoTags(m: Model, at: seq<string>, kids: seq<Node>, done: set<seq<string>>)
    requires kids == [] || (|kids| == 1 && kids[0].Text?)
    ensures TagsRight(m, at, kids, done)
  {
  }

  lemma FreshTagRight(m: Model, at: seq<string>, stmts: seq<Stmt>, v: string, done: set<seq<string>>)
    requires Proper(m, at, stmts, v)
    ensures stmts != [] && TagRight(m, at, Element(stmts[0].name, map[], []), done)
  {
    ProperDefault(m, at, stmts, v);
    var n := Element(stmts[0].name, map[], []);
    TextHasNoTags(m, at + [n.name], n.kids, done);
    assert Content(n) == "" by {
      assert ContentOf([]) == "";
    }
  }

  lemma ProperDefault(m: Model, at: seq<string>, stmts: seq<Stmt>, v: string)
    requires Proper(m, at, stmts, v)
    ensures stmts != [] && v != ""
    ensures DefaultAt(m, at + [stmts[0].name]) == if |stmts| == 1 then Some(v) else None
    decreases |stmts|
  {
    if |stmts| > 1 {
      ProperDefault(m, at + [stmts[0].name], stmts[1..], v);
    }
  }

  /** Tags stay right below one element when a default is filled in and tagged. */
  lemma {:induction false} FillNodeTags(m: Model, at: seq<string>, n: Node, stmts: seq<Stmt>, v: string,
      done: set<seq<string>>)
    requires WellKeyed(m) && n.Element? && (FitNode(m, at, n) || n.kids == [])
    requires Proper(m, at, stmts, v) && n.name == stmts[0].name && TagRight(m, at, n, done)
    ensures TagRight(m, at, FillNode(true, n, stmts, v), done + {at + StmtNames(stmts)})
    decreases |stmts|, 0
  {
    assert stmts != [];
    hide FitNode, Proper, TagsRight, FillKids;
    var here := at + [n.name];
    LeadsOnly(at, n.name, stmts);
    ProperDefault(m, at, stmts, v);
    if |stmts| == 1 {
      LeafTags(m, at, n, stmts, v, done);
    } else {
      ProperTail(m, at, stmts, v);
      if n.kids == [] {
        EmptyFits(m, here);
      } else {
        HolderKids(m, at, n);
      }
      FillTags(m, here, n.kids, stmts[1..], v, done);
      assert here != at + StmtNames(stmts) by {
        assert |at + StmtNames(stmts)| > |here|;
      }
    }
  }

  lemma {:induction false} LeafTags(m: Model, at: seq<string>, n: Node, stmts: seq<Stmt>, v: string,
      done: set<seq<string>>)
    requires n.Element? && (FitNode(m, at, n) || n.kids == [])
    requires Proper(m, at, stmts, v) && n.name == stmts[0].name && |stmts| == 1 && TagRight(m, at, n, done)
    ensures TagRight(m, at, FillNode(true, n, stmts, v), done + {at + StmtNames(stmts)})
  {
    var r, here := FillNode(true, n, stmts, v), at + [n.name];
    ProperDefault(m, at, stmts, v);
    LeadsOnly(at, n.name, stmts);
    assert StmtNames(stmts[1..]) == [] && here + [] == here;
    assert r.kids == [] || (|r.kids| == 1 && r.kids[0].Text?);
    TextHasNoTags(m, here, r.kids, done + {at + StmtNames(stmts)});
    if n.kids == [] {
      TextContent(n.(kids := [Text(v)]));
    }
    assert Content(r) == if n.kids == [] then v else Content(n);
  }

  /** Tags stay right in a child list when a default is filled in and tagged. */
  lemma {:induction false} FillTags(m: Model, at: seq<string>, kids: seq<Node>, stmts: seq<Stmt>, v: string,
      done: set<seq<string>>)
    requires WellKeyed(m) && FitKids(m, at, kids) && Proper(m, at, stmts, v) && TagsRight(m, at, kids, done)
    ensures TagsRight(m, at, FillKids(true, at == [], kids, stmts, v), done + {at + StmtNames(stmts)})
    decreases |stmts|, 1
  {
    assert stmts != [];
    hide FitKids, FitNode, Proper, TagsRight, TagRight, FillNode, FillEach, Leads;
    var s, target := stmts[0], at + StmtNames(stmts);
    TagsAre(m, at, kids, done);
    FitIsElements(m, at, kids);
    forall i | 0 <= i < |kids| && !Named(kids[i], s.name)
      ensures TagRight(m, at, kids[i], done + {target})
    {
      LeadsOnly(at, kids[i].name, stmts);
      OffTarget(m, at, kids[i], done, target);
    }
    if HasNamed(kids, s.name) {
      var r := FillEach(true, kids, stmts, v);
      forall i | 0 <= i < |kids|
        ensures TagRight(m, at, r[i], done + {target})
      {
        if Named(kids[i], s.name) {
          FitMember(m, at, kids, i);
          FillNodeTags(m, at, kids[i], stmts, v, done);
        }
      }
      TagsAre(m, at, r, done + {target});
    } else {
      var n := FillNode(true, Element(s.name, map[], []), stmts, v);
      FreshTagRight(m, at, stmts, v, done);
      FillNodeTags(m, at, Element(s.name, map[], []), stmts, v, done);
      TagsAre(m, at, kids, done + {target});
      TagsAre(m, at, kids + [n], done + {target});
    }
  }

  /** The names of defaults. */
  function NamesIn(ds: seq<Default>): set<seq<string>> {
    if ds == [] then {} else {StmtNames(ds[0].stmts)} + NamesIn(ds[1..])
  }

  lemma {:induction false} NamesInListed(ds: seq<Default>, names: seq<string>)
    ensures names in NamesIn(ds) <==> Listed(ds, names)
  {
    if ds != [] {
      NamesInListed(ds[1..], names);
      ListedCons(ds, names);
    }
  }

  /** After reporting all with tags, exactly the leaves that hold their default are tagged. */
  lemma {:induction false} FillAllTags(m: Model, f: seq<Node>, ds: seq<Default>, done: set<seq<string>>)
    requires WellKeyed(m) && FitKids(m, [], f) && ProperDefaults(m, ds) && TagsRight(m, [], f, done)
    ensures TagsRight(m, [], FillAll(true, f, ds), done + NamesIn(ds)) && FitKids(m, [], FillAll(true, f, ds))
    decreases |ds|
  {
    hide FitKids, Proper, TagsRight, FillKids, FillTop, ProperDefaults;
    if ds == [] {
      assert done + {} == done;
    } else {
      var d := ds[0];
      ProperRest(m, ds);
      FillTopIsFill(true, m, f, d.stmts, d.value);
      FillFits(true, m, [], f, d.stmts, d.value);
      FillTags(m, [], f, d.stmts, d.value, done);
      assert [] + StmtNames(d.stmts) == StmtNames(d.stmts);
      FillAllTags(m, FillTop(true, f, d.stmts, d.value), ds[1..], done + {StmtNames(d.stmts)});
      assert done + {StmtNames(d.stmts)} + NamesIn(ds[1..]) == done + NamesIn(ds);
    }
  }

  // ---- what climbing removes

  lemma RemoveAtDown(f: seq<Node>, p: Path)
    requires IsNode(f, p) && |p| > 1
    ensures f[p[0]].Element? && IsNode(f[p[0]].kids, p[1..])
    ensures RemoveAt(f, p) == f[p[0] := f[p[0]].(kids := RemoveAt(f[p[0]].kids, p[1..]))]
  {
    NodeInParent(f, p);
    NodeInParent(f[p[0]].kids, p[1..]);
    assert Parent(p)[1..] == Parent(p[1..]) && Parent(p)[0] == p[0];
  }

  /** What has an element below it has no default of its own. */
  lemma HolderAbove(m: Model, at: seq<string>, n: Node, r: Path)
    requires FitNode(m, at, n) && IsNode(n.kids, r) && NodeAt(n.kids, r).Element?
    ensures Holder(m, at + [n.name]) && FitKids(m, at + [n.name], n.kids) && !IsKeyAt(m, at, n.name)
    ensures Addressed(m, at, n) && !TextFirst(n) && DefaultAt(m, at + [n.name]).None?
  {
    CanHaveKids(m, at, n, r);
  }

  /** From n down to the end of r every element is an only child. */
  predicate Single(n: Node, r: Path) {
    r == [] || (n.Element? && |n.kids| == 1 && r[0] == 0 && Single(n.kids[0], r[1..]))
  }

  function End(n: Node, r: Path): Node
    requires Single(n, r)
  {
    if r == [] then n else End(n.kids[0], r[1..])
  }

  function EndNames(n: Node, r: Path): seq<string>
    requires Single(n, r)
  {
    [NameOf(n)] + if r == [] then [] else EndNames(n.kids[0], r[1..])
  }

  lemma {:induction false} ClimbIsSingle(f: seq<Node>, q: Path)
    requires IsNode(f, q)
    ensures var p := Climb(f, q);
      Single(NodeAt(f, p), q[|p|..]) && End(NodeAt(f, p), q[|p|..]) == NodeAt(f, q)
    decreases |q|
  {
    NodeInParent(f, q);
    var p := Climb(f, q);
    if |q| > 1 && |KidsAt(f, Parent(q))| == 1 {
      ClimbIsSingle(f, Parent(q));
      NodeOwnsList(f, Parent(q));
      SingleDown(NodeAt(f, p), Parent(q)[|p|..]);
      assert q[|p|..] == Parent(q)[|p|..] + [0];
    } else {
      assert q[|p|..] == [];
    }
  }

  lemma {:induction false} SingleDown(n: Node, r: Path)
    requires Single(n, r) && End(n, r).Element? && |End(n, r).kids| == 1
    ensures Single(n, r + [0]) && End(n, r + [0]) == End(n, r).kids[0]
    decreases r
  {
    if r == [] {
      assert ([] + [0])[1..] == [];
    } else {
      assert (r + [0])[1..] == r[1..] + [0];
      SingleDown(n.kids[0], r[1..]);
    }
  }

  /** The only leaf below an only-child chain is its end. */
  lemma {:induction false} LeafBelow(m: Model, at: seq<string>, n: Node, r: Path, y: seq<Id>)
    requires n.Element? && FitNode(m, at, n) && Single(n, r)
    requires End(n, r).Element? && DefaultAt(m, at + EndNames(n, r)).Some?
    requires LeafPath(m, at, y) && y[0] == IdOf(m, at, n) && Lookup(m, at, [n], y).Some?
    requires !IsKeyAt(m, (at + EndNames(n, r))[..|at + EndNames(n, r)| - 1], End(n, r).name)
    ensures at + NamesOf(y) == at + EndNames(n, r) && Lookup(m, at, [n], y) == Some(LeafVal(Content(End(n, r))))
    decreases r
  {
    hide FitKids, FitNode, IdOf, Lookup, LeafPath, Formed, DefaultAt, IsKeyAt, EndNames, Single, End, NamesOf;
    IdNamed(m, at, n);
    LeafPathParts(m, at, y);
    LookupOne(m, at, n, y);
    if r == [] {
      EndHere(n);
      LeafHere(m, at, n, y);
    } else {
      EndStep(at, n, r);
      var here, c := at + [n.name], n.kids[0];
      NamesOfHead(at, y);
      HolderAbove(m, at, n, r);
      FitMember(m, here, n.kids, 0);
      LookupOne(m, here, c, y[1..]);
      LeafBelow(m, here, c, r[1..], y[1..]);
    }
  }

  lemma {:induction false} EndHere(n: Node)
    ensures Single(n, []) && End(n, []) == n && EndNames(n, []) == [NameOf(n)]
  {
  }

  lemma {:induction false} EndStep(at: seq<string>, n: Node, r: Path)
    requires Single(n, r) && r != []
    ensures n.Element? && |n.kids| == 1 && n.kids == [n.kids[0]] && Single(n.kids[0], r[1..])
    ensures End(n, r) == End(n.kids[0], r[1..])
    ensures at + EndNames(n, r) == (at + [n.name]) + EndNames(n.kids[0], r[1..])
    ensures IsNode(n.kids, r) && NodeAt(n.kids, r) == End(n, r)
  {
    SingleIsNode(n, r);
    assert at + ([n.name] + EndNames(n.kids[0], r[1..])) == (at + [n.name]) + EndNames(n.kids[0], r[1..]);
  }

  lemma LeafHere(m: Model, at: seq<string>, n: Node, y: seq<Id>)
    requires FitNode(m, at, n) && n.Element? && DefaultAt(m, at + EndNames(n, [])).Some?
    requires y != [] && y[0] == IdOf(m, at, n) && Lookup(m, at, [n], y).Some?
    requires !IsKeyAt(m, (at + EndNames(n, []))[..|at + EndNames(n, [])| - 1], n.name)
    ensures NamesOf(y) == EndNames(n, []) && Lookup(m, at, [n], y) == Some(LeafVal(Content(n)))
  {
    hide FitNode, IdOf, Lookup, DefaultAt, IsKeyAt;
    assert EndNames(n, []) == [n.name] && (at + [n.name])[..|at|] == at;
    EndLeaf(m, at, n);
    IdNamed(m, at, n);
    LookupOne(m, at, n, y);
    if |y| > 1 {
      LookupText(m, at + [n.name], n, y[1..]);
    }
    assert NamesOf(y[1..]) == [];
  }

  lemma {:induction false} LeafPathParts(m: Model, at: seq<string>, y: seq<Id>)
    requires LeafPath(m, at, y)
    ensures y != [] && (|y| > 1 ==> LeafPath(m, at + [y[0].name], y[1..]) && Holder(m, at + [y[0].name]))
    ensures |y| == 1 ==> !Holder(m, at + [y[0].name]) && NamesOf(y) == [y[0].name]
  {
    if |y| == 1 {
      assert NamesOf(y[1..]) == [];
    }
  }

  lemma IdNamed(m: Model, at: seq<string>, n: Node)
    requires n.Element?
    ensures IdOf(m, at, n).name == n.name
  {
  }

  lemma EndLeaf(m: Model, at: seq<string>, n: Node)
    requires FitNode(m, at, n) && DefaultAt(m, at + [n.name]).Some? && !IsKeyAt(m, at, n.name)
    ensures HoldsText(n) && ValueOf(m, at, n) == LeafVal(Content(n)) && !Holder(m, at + [n.name])
  {
    TextContent(n);
  }

  lemma {:induction false} SingleIsNode(n: Node, r: Path)
    requires Single(n, r) && r != []
    ensures n.Element? && IsNode(n.kids, r) && NodeAt(n.kids, r) == End(n, r)
    decreases r
  {
    if |r| > 1 {
      SingleIsNode(n.kids[0], r[1..]);
    } else {
      assert r[1..] == [];
    }
  }

  /** The names that defaults have been filled in for are those of leaves that are no keys. */
  ghost predicate LeafNames(m: Model, done: set<seq<string>>) {
    forall names :: names in done ==>
      names != [] && DefaultAt(m, names).Some? && !IsKeyAt(m, names[..|names| - 1], names[|names| - 1])
  }

  lemma {:induction false} EndTag(m: Model, at: seq<string>, n: Node, r: Path, done: set<seq<string>>)
    requires TagRight(m, at, n, done) && Single(n, r) && IsTagged(End(n, r))
    ensures at + EndNames(n, r) in done && DefaultAt(m, at + EndNames(n, r)) == Some(Content(End(n, r)))
    decreases r
  {
    var here := at + [NameOf(n)];
    if r == [] {
      assert at + EndNames(n, r) == here;
    } else {
      TagsAre(m, here, n.kids, done);
      EndTag(m, here, n.kids[0], r[1..], done);
      assert at + EndNames(n, r) == here + EndNames(n.kids[0], r[1..]);
    }
  }

  lemma {:induction false} TagAt(m: Model, at: seq<string>, f: seq<Node>, p: Path, done: set<seq<string>>)
    requires TagsRight(m, at, f, done) && IsNode(f, p)
    ensures Parent(p) == [] || IsNode(f, Parent(p))
    ensures TagRight(m, at + Names(Chain(f, Parent(p))), NodeAt(f, p), done)
    decreases p
  {
    hide TagRight;
    NodeInParent(f, p);
    TagsAre(m, at, f, done);
    if |p| == 1 {
      assert Parent(p) == [] && at + [] == at;
    } else {
      var n := f[p[0]];
      TagBelow(m, at, n, done);
      TagAt(m, at + [n.name], n.kids, p[1..], done);
      assert Parent(p)[1..] == Parent(p[1..]) && Parent(p)[0] == p[0];
      var up := Chain(f, Parent(p));
      assert up == [n] + Chain(n.kids, Parent(p[1..])) && up[1..] == Chain(n.kids, Parent(p[1..]));
      NamesHead(at, up);
    }
  }

  lemma TagBelow(m: Model, at: seq<string>, n: Node, done: set<seq<string>>)
    requires TagRight(m, at, n, done) && n.Element?
    ensures TagsRight(m, at + [n.name], n.kids, done)
  {
  }

  /** Removing an element leaves the tags of the others right. */
  lemma {:induction false} TagsRemove(m: Model, at: seq<string>, f: seq<Node>, p: Path, done: set<seq<string>>)
    requires FitKids(m, at, f) && IsNode(f, p) && NodeAt(f, p).Element? && TagsRight(m, at, f, done)
    ensures TagsRight(m, at, RemoveAt(f, p), done)
    decreases p
  {
    hide FitKids, FitNode, TagsRight, RemoveAt;
    var g := RemoveAt(f, p);
    TagsAre(m, at, f, done);
    TagsAre(m, at, g, done);
    if |p| == 1 {
      RemoveTop(f, p[0]);
      assert p == [p[0]];
      assert forall i :: 0 <= i < |g| ==> g[i] == f[if i < p[0] then i else i + 1];
    } else {
      RemoveAtDown(f, p);
      var n := f[p[0]];
      FitMember(m, at, f, p[0]);
      HolderAbove(m, at, n, p[1..]);
      TagsRemove(m, at + [n.name], n.kids, p[1..], done);
    }
  }

  lemma RemoveTop(f: seq<Node>, i: nat)
    requires i < |f|
    ensures RemoveAt(f, [i]) == Without(f, i)
  {
    assert Parent([i]) == [];
  }

  /** The element e at p, found by the chain up, is what clearing removes for the tagged
      leaf at the end of r below it. */
  ghost predicate Cleared(m: Model, f: seq<Node>, done: set<seq<string>>, p: Path, up: seq<Node>, e: Node, r: Path) {
    IsNode(f, p) && NodeAt(f, p) == e && e.Element? && Passable(m, [], up) && AllElements(up) && Targeted(m, up, e) &&
    FitNode(m, Names(up), e) && FindEquiv(m, [], f, up + [e]) == Some(p) && Single(e, r) && End(e, r).Element? &&
    EndIs(m, Names(up) + EndNames(e, r), End(e, r), done)
  }

  /** The leaf with these names is a tagged default. */
  ghost predicate EndIs(m: Model, names: seq<string>, leaf: Node, done: set<seq<string>>) {
    names in done && names != [] && DefaultAt(m, names) == Some(Content(leaf)) &&
    leaf.Element? && !IsKeyAt(m, names[..|names| - 1], leaf.name)
  }

  lemma ClearSite(m: Model, f: seq<Node>, q: Path, done: set<seq<string>>)
    requires FitKids(m, [], f) && TagsRight(m, [], f, done) && LeafNames(m, done)
    requires IsNode(f, q) && IsTagged(NodeAt(f, q))
    ensures var p := Climb(f, q);
      (Parent(p) == [] || IsNode(f, Parent(p))) &&
      Cleared(m, f, done, p, Chain(f, Parent(p)), NodeAt(f, p), q[|p|..])
  {
    hide FitKids, FitNode, TagsRight, FindEquiv, Climb, Targeted, TagRight, LeafNames, Passable, DefaultAt, IsKeyAt,
      Content, Names;
    var p := Climb(f, q);
    var r, e := q[|p|..], NodeAt(f, p);
    ClimbIsSingle(f, q);
    SingleTop(e, r);
    FitPath(m, [], f, p);
    TagAt(m, [], f, p, done);
    var up := Chain(f, Parent(p));
    assert [] + Names(up) == Names(up);
    EndTag(m, Names(up), e, r, done);
    NotKeyed(m, Names(up), e, r, done);
    TargetedOf(m, up, e, r, done);
  }

  /** One turn of clearing takes the tagged leaf it is at off the map, and no other leaf. */
  lemma ClearStep(m: Model, f: seq<Node>, q: Path, done: set<seq<string>>, x: seq<Id>)
    requires WellKeyed(m) && FitKids(m, [], f) && TagsRight(m, [], f, done) && LeafNames(m, done) && LeafPath(m, [], x)
    requires IsNode(f, q) && IsTagged(NodeAt(f, q))
    ensures var g := RemoveAt(f, Climb(f, q));
      FitKids(m, [], g) && TagsRight(m, [], g, done) && x != [] &&
      (Lookup(m, [], g, x) == Lookup(m, [], f, x) ||
        (Lookup(m, [], g, x).None? && NamesOf(x) in done &&
         Lookup(m, [], f, x) == Some(LeafVal(DefaultAt(m, NamesOf(x)).value))))
  {
    hide FitKids, FitNode, TagsRight, RemoveAt, LeafPath, Lookup, FindEquiv, Climb, Targeted, Target, LeafNames,
      Passable, Under, Single, End, EndNames, DefaultAt, IsKeyAt, Content, Names, NodeAt, IsNode, Chain;
    LeafPathFromRoot(m, x);
    var p := Climb(f, q);
    ClearSite(m, f, q, done);
    var up, e, r := Chain(f, Parent(p)), NodeAt(f, p), q[|p|..];
    TagsRemove(m, [], f, p, done);
    RemoveEffect(m, f, up, e, x);
    if Under(Target(m, up, e), x) && Lookup(m, [], f, x).Some? {
      LeafUnder(m, f, p, up, e, r, x);
    }
  }

  lemma {:induction false} SingleTop(e: Node, r: Path)
    requires Single(e, r) && End(e, r).Element?
    ensures e.Element?
  {
  }

  lemma NotKeyed(m: Model, at: seq<string>, e: Node, r: Path, done: set<seq<string>>)
    requires LeafNames(m, done) && Single(e, r) && at + EndNames(e, r) in done && End(e, r).Element?
    ensures var names := at + EndNames(e, r);
      names != [] && DefaultAt(m, names).Some? && !IsKeyAt(m, names[..|names| - 1], End(e, r).name)
  {
    EndNamesLast(e, r);
    var names := at + EndNames(e, r);
    assert names[|names| - 1] == EndNames(e, r)[|EndNames(e, r)| - 1];
  }

  lemma {:induction false} EndNamesLast(e: Node, r: Path)
    requires Single(e, r)
    ensures EndNames(e, r) != [] && EndNames(e, r)[|EndNames(e, r)| - 1] == NameOf(End(e, r))
    decreases r
  {
    if r != [] {
      EndNamesLast(e.kids[0], r[1..]);
    }
  }

  lemma TargetedOf(m: Model, up: seq<Node>, e: Node, r: Path, done: set<seq<string>>)
    requires Passable(m, [], up) && FitNode(m, Names(up), e) && Single(e, r) && End(e, r).Element?
    requires var names := Names(up) + EndNames(e, r);
      names != [] && DefaultAt(m, names).Some? && !IsKeyAt(m, names[..|names| - 1], End(e, r).name)
    ensures AllElements(up) && Targeted(m, up, e)
  {
    PassableElements(m, [], up);
    FitNodeAddressed(m, Names(up), e);
    if r == [] {
      assert (Names(up) + [e.name])[..|Names(up)|] == Names(up);
    } else {
      SingleIsNode(e, r);
      HolderAbove(m, Names(up), e, r);
    }
  }

  /** A leaf below what is removed is the tagged one. */
  lemma LeafUnder(m: Model, f: seq<Node>, p: Path, up: seq<Node>, e: Node, r: Path, x: seq<Id>)
    requires WellKeyed(m) && FitKids(m, [], f) && Passable(m, [], up) && AllElements(up) && e.Element?
    requires LeafPath(m, [], x)
    requires FindEquiv(m, [], f, up + [e]) == Some(p) && IsNode(f, p) && NodeAt(f, p) == e
    requires FitNode(m, Names(up), e) && Single(e, r) && End(e, r).Element?
    requires var names := Names(up) + EndNames(e, r);
      names != [] && DefaultAt(m, names) == Some(Content(End(e, r))) &&
        !IsKeyAt(m, names[..|names| - 1], End(e, r).name)
    requires Under(Target(m, up, e), x) && Lookup(m, [], f, x).Some?
    ensures NamesOf(x) == Names(up) + EndNames(e, r) && Lookup(m, [], f, x) == Some(LeafVal(Content(End(e, r))))
  {
    hide FitKids, FitNode, LeafPath, Lookup, FindEquiv, IdOf, IdsOf, Under, Passable, DefaultAt, IsKeyAt, Single, End,
      EndNames, Names, Content;
    FindSnoc(m, [], f, up, e);
    assert [] + Names(up) == Names(up);
    var l := FindEquiv(m, [], f, up).value;
    var i := Last(p);
    assert p == l + [i];
    NodeSnoc(f, l, i);
    ParentFits(m, f, up, l);
    TargetUnder(m, up, e, x);
    LookupThere(m, f, up, l, x);
    var y := x[|up|..];
    LookupAt(m, Names(up), KidsAt(f, l), i, y);
    LeafPathBelow(m, up, x);
    LeafBelow(m, Names(up), e, r, y);
  }

  /** The rest of a leaf's path below a chain of elements. */
  lemma {:induction false} LeafPathBelow(m: Model, up: seq<Node>, x: seq<Id>)
    requires AllElements(up) && LeafPath(m, [], x) && |up| < |x| && Under(IdsOf(m, [], up), x)
    ensures LeafPath(m, Names(up), x[|up|..]) && NamesOf(x) == Names(up) + NamesOf(x[|up|..])
  {
    LeafPathDown(m, [], up, x);
    assert [] + Names(up) == Names(up);
  }

  lemma {:induction false} LeafPathDown(m: Model, at: seq<string>, up: seq<Node>, x: seq<Id>)
    requires AllElements(up) && LeafPath(m, at, x) && |up| < |x| && Under(IdsOf(m, at, up), x)
    ensures LeafPath(m, at + Names(up), x[|up|..]) && NamesOf(x) == Names(up) + NamesOf(x[|up|..])
    decreases up
  {
    hide IdOf, LeafPath, IdsOf, Under, Names, NamesOf;
    if up == [] {
      NoNames();
      assert at + [] == at && x[0..] == x && [] + NamesOf(x) == NamesOf(x);
    } else {
      var n := up[0];
      FirstStep(m, at, up, x);
      IdNamed(m, at, n);
      UnderTail(m, at, up, x);
      LeafPathParts(m, at, x);
      LeafPathDown(m, at + [n.name], up[1..], x[1..]);
      NamesHead(at, up);
      NamesHead([], up);
      NamesOfHead([], x);
      assert [] + Names(up) == Names(up) && [] + [n.name] == [n.name];
      assert x[1..][|up[1..]|..] == x[|up|..];
      assert [n.name] + (Names(up[1..]) + NamesOf(x[|up|..])) == ([n.name] + Names(up[1..])) + NamesOf(x[|up|..]);
    }
  }

  lemma FirstStep(m: Model, at: seq<string>, up: seq<Node>, x: seq<Id>)
    requires AllElements(up) && up != [] && |up| < |x| && Under(IdsOf(m, at, up), x)
    ensures x[0] == IdOf(m, at, up[0])
  {
    hide IdOf;
    assert x[..|up|][0] == IdsOf(m, at, up)[0];
  }

  /** If a leaf still holds its default, something is tagged. */
  lemma {:induction false} SomethingTagged(m: Model, at: seq<string>, f: seq<Node>, done: set<seq<string>>, x: seq<Id>)
    requires FitKids(m, at, f) && TagsRight(m, at, f, done) && LeafPath(m, at, x)
    requires at + NamesOf(x) in done && DefaultAt(m, at + NamesOf(x)).Some?
    requires Lookup(m, at, f, x) == Some(LeafVal(DefaultAt(m, at + NamesOf(x)).value))
    requires !IsKeyAt(m, (at + NamesOf(x))[..|at + NamesOf(x)| - 1], (at + NamesOf(x))[|at + NamesOf(x)| - 1])
    ensures FirstTagged(f).Some?
    decreases x
  {
    hide FitKids, FitNode, IdOf, LeafPath, FirstTagged, Lookup;
    LeafPathParts(m, at, x);
    NamesOfHead(at, x);
    var i := SeekId(m, at, f, x[0]);
    SeekIdName(m, at, f, x[0]);
    LookupIsThere(m, at, f, x);
    var n := f[i.value];
    FitMember(m, at, f, i.value);
    TagsAre(m, at, f, done);
    LookupOne(m, at, n, x);
    if |x| == 1 {
      assert at + NamesOf(x) == at + [n.name] && (at + [n.name])[..|at|] == at;
      EndLeaf(m, at, n);
      TaggedFirst(f, i.value);
    } else {
      InnerOfLookup(m, at, n, x);
      SomethingTagged(m, at + [n.name], n.kids, done, x[1..]);
      TaggedBelow(f, i.value);
    }
  }

  lemma LookupIsThere(m: Model, at: seq<string>, f: seq<Node>, x: seq<Id>)
    requires x != [] && Lookup(m, at, f, x).Some?
    ensures var i := SeekId(m, at, f, x[0]);
      i.Some? && x[0] == IdOf(m, at, f[i.value]) && Lookup(m, at, f, x) == Lookup(m, at, [f[i.value]], x)
  {
    LookupOne(m, at, f[SeekId(m, at, f, x[0]).value], x);
  }

  lemma InnerOfLookup(m: Model, at: seq<string>, n: Node, x: seq<Id>)
    requires FitNode(m, at, n) && |x| > 1 && Holder(m, at + [n.name])
    ensures FitKids(m, at + [n.name], n.kids)
  {
  }

  lemma {:induction false} TaggedFirst(f: seq<Node>, i: nat)
    requires i < |f| && IsTagged(f[i])
    ensures FirstTagged(f).Some?
    decreases i
  {
    if i > 0 {
      TaggedFirst(f[1..], i - 1);
    }
  }

  lemma {:induction false} TaggedBelow(f: seq<Node>, i: nat)
    requires i < |f| && f[i].Element? && FirstTagged(f[i].kids).Some?
    ensures FirstTagged(f).Some?
    decreases i
  {
    if i > 0 {
      TaggedBelow(f[1..], i - 1);
    }
  }

  /** Where exactly the leaves with their defaults are tagged, clearing takes exactly these
      leaves off the map. */
  lemma {:induction false} ClearAllLookup(m: Model, f: seq<Node>, done: set<seq<string>>, x: seq<Id>)
    requires WellKeyed(m) && FitKids(m, [], f) && TagsRight(m, [], f, done) && LeafNames(m, done) && LeafPath(m, [], x)
    ensures x != []
    ensures Lookup(m, [], ClearAll(f), x) ==
      if NamesOf(x) in done && Lookup(m, [], f, x) == Some(LeafVal(DefaultAt(m, NamesOf(x)).value)) then None
      else Lookup(m, [], f, x)
    decreases Size(f)
  {
    hide FitKids, TagsRight, RemoveAt, LeafPath, Lookup, Climb, FirstTagged;
    LeafPathFromRoot(m, x);
    var site := FirstTagged(f);
    if site.None? {
      if NamesOf(x) in done && Lookup(m, [], f, x) == Some(LeafVal(DefaultAt(m, NamesOf(x)).value)) {
        SomethingTagged(m, [], f, done, x);
      }
    } else {
      ClearStep(m, f, site.value, done, x);
      ClearAllLookup(m, RemoveAt(f, Climb(f, site.value)), done, x);
    }
  }

  lemma {:induction false} ProperNotKey(m: Model, at: seq<string>, stmts: seq<Stmt>, v: string)
    requires Proper(m, at, stmts, v)
    ensures stmts != []
    ensures var names := at + StmtNames(stmts); !IsKeyAt(m, names[..|names| - 1], names[|names| - 1])
    decreases |stmts|
  {
    StmtNamesHead(stmts);
    var here, names := at + [stmts[0].name], at + StmtNames(stmts);
    assert names == here + StmtNames(stmts[1..]);
    if |stmts| == 1 {
      assert stmts[1..] == [] && names == here && here[..|at|] == at;
    } else {
      ProperNotKey(m, here, stmts[1..], v);
    }
  }

  lemma {:induction false} DefaultsAreLeafNames(m: Model, ds: seq<Default>)
    requires ProperDefaults(m, ds)
    ensures LeafNames(m, NamesIn(ds))
    decreases |ds|
  {
    hide Proper, ProperDefaults, LeafNames, StmtNames, DefaultAt, IsKeyAt;
    if ds == [] {
      NoLeafNames(m);
    } else {
      ProperRest(m, ds);
      DefaultsAreLeafNames(m, ds[1..]);
      ProperNotKey(m, [], ds[0].stmts, ds[0].value);
      assert [] + StmtNames(ds[0].stmts) == StmtNames(ds[0].stmts);
      OneMoreName(m, StmtNames(ds[0].stmts), NamesIn(ds[1..]));
    }
  }

  lemma NoLeafNames(m: Model)
    ensures LeafNames(m, {})
  {
  }

  lemma OneMoreName(m: Model, names: seq<string>, done: set<seq<string>>)
    requires LeafNames(m, done) && names != [] && DefaultAt(m, names).Some?
    requires !IsKeyAt(m, names[..|names| - 1], names[|names| - 1])
    ensures LeafNames(m, {names} + done)
  {
    hide DefaultAt, IsKeyAt;
  }

  /** Clearing after reporting all with tags is trimming, at every leaf; an untagged leaf is
      never removed. */
  lemma ClearAfterTagged(m: Model, f: seq<Node>, x: seq<Id>)
    requires WellKeyed(m) && FitKids(m, [], f) && ProperDefaults(m, DefaultsOf(m)) && LeafPath(m, [], x)
    requires TagsRight(m, [], f, {})
    ensures Lookup(m, [], ClearAll(ReportTagged(m, f)), x) == Lookup(m, [], Trim(m, f), x)
  {
    hide FitKids, Lookup, ProperDefaults, LeafPath, TagsRight, FillAll, TrimAll, DefaultsOf, DefaultAt, Listed, Reach;
    var ds := DefaultsOf(m);
    LeafPathFromRoot(m, x);
    FillAllTags(m, f, ds, {});
    assert {} + NamesIn(ds) == NamesIn(ds);
    DefaultsAreLeafNames(m, ds);
    FillAllLookup(true, m, f, ds, x);
    TrimAllLookup(m, f, ds, x);
    NamesInListed(ds, NamesOf(x));
    ClearAllLookup(m, ReportTagged(m, f), NamesIn(ds), x);
  }
}
