/** What clearing leaves of the whole document: it takes out more than trimming, since
    containers and list entries with nothing but defaults in them go as well. */
module ClearMeaning {
  import opened Xml
  import opened Schema
  import opened Matching
  import opened Instances
  import opened Merge
  import opened MergeMeaning
  import opened Targets
  import opened Deletion
  import opened Effects
  import opened Defaults
  import opened Trimming
  import opened WithDefaults
  import opened Clearing

  // ---- clearing without its loop

  /** A tagged node, or one with nothing but hollow nodes in it, and at least one. */
  predicate Hollow(n: Node)
    decreases n
  {
    IsTagged(n) || (n.Element? && n.kids != [] && forall i :: 0 <= i < |n.kids| ==> Hollow(n.kids[i]))
  }

  predicate AllHollow(kids: seq<Node>) {
    forall i :: 0 <= i < |kids| ==> Hollow(kids[i])
  }

  /** The list without its hollow nodes, here and below. */
  function Unhollow(kids: seq<Node>): seq<Node>
    decreases kids, 0
  {
    if kids == [] then [] else (if Hollow(kids[0]) then [] else [Inside(kids[0])]) + Unhollow(kids[1..])
  }

  function Inside(n: Node): Node
    decreases n, 1
  {
    match n
    case Text(_) => n
    case Element(_, _, kids) => n.(kids := Unhollow(kids))
  }

  lemma UnhollowOne(n: Node, t: seq<Node>)
    ensures Unhollow([n] + t) == (if Hollow(n) then [] else [Inside(n)]) + Unhollow(t)
  {
    assert ([n] + t)[1..] == t;
  }

  lemma {:induction false} UnhollowConcat(a: seq<Node>, b: seq<Node>)
    ensures Unhollow(a + b) == Unhollow(a) + Unhollow(b)
    decreases |a|
  {
    hide Hollow, Inside, Unhollow;
    if a == [] {
      assert a + b == b;
      UnhollowNone();
    } else {
      UnhollowConcat(a[1..], b);
      assert a + b == [a[0]] + (a[1..] + b) && a == [a[0]] + a[1..];
      UnhollowOne(a[0], a[1..] + b);
      UnhollowOne(a[0], a[1..]);
    }
  }

  lemma UnhollowNone()
    ensures Unhollow([]) == []
  {
  }

  /** Exchanging one node of a list for another with the same remains. */
  lemma UnhollowUpdate(f: seq<Node>, i: nat, n: Node)
    requires i < |f| && (Hollow(n) <==> Hollow(f[i])) && (!Hollow(n) ==> Inside(n) == Inside(f[i]))
    ensures Unhollow(f[i := n]) == Unhollow(f)
  {
    hide Hollow, Inside, Unhollow;
    assert f == f[..i] + ([f[i]] + f[i + 1..]) && f[i := n] == f[..i] + ([n] + f[i + 1..]);
    UnhollowConcat(f[..i], [f[i]] + f[i + 1..]);
    UnhollowConcat(f[..i], [n] + f[i + 1..]);
    UnhollowOne(f[i], f[i + 1..]);
    UnhollowOne(n, f[i + 1..]);
  }

  lemma UnhollowWithout(f: seq<Node>, i: nat)
    requires i < |f| && Hollow(f[i])
    ensures Unhollow(Without(f, i)) == Unhollow(f)
  {
    hide Hollow, Inside, Unhollow;
    assert f == f[..i] + ([f[i]] + f[i + 1..]);
    UnhollowConcat(f[..i], [f[i]] + f[i + 1..]);
    UnhollowConcat(f[..i], f[i + 1..]);
    UnhollowOne(f[i], f[i + 1..]);
  }

  lemma AllHollowWithout(f: seq<Node>, i: nat)
    requires i < |f| && Hollow(f[i])
    ensures AllHollow(Without(f, i)) <==> AllHollow(f)
  {
    hide Hollow;
    var w := Without(f, i);
    if AllHollow(w) {
      forall j | 0 <= j < |f|
        ensures Hollow(f[j])
      {
        if j != i {
          assert f[j] == w[if j < i then j else j - 1];
        }
      }
    }
    if AllHollow(f) {
      forall j | 0 <= j < |w|
        ensures Hollow(w[j])
      {
        assert w[j] == f[if j < i then j else j + 1];
      }
    }
  }

  lemma HollowMeans(n: Node)
    ensures Hollow(n) <==> IsTagged(n) || (n.Element? && n.kids != [] && AllHollow(n.kids))
    ensures n.Element? ==> Inside(n) == n.(kids := Unhollow(n.kids))
  {
  }

  /** Taking a hollow node out changes nothing of what is left in the end, unless it is the
      only child of an element. */
  lemma {:induction false} RemoveHollow(f: seq<Node>, p: Path)
    requires IsNode(f, p) && Hollow(NodeAt(f, p))
    requires |p| > 1 ==> IsList(f, Parent(p)) && |KidsAt(f, Parent(p))| > 1
    ensures Unhollow(RemoveAt(f, p)) == Unhollow(f)
    ensures AllHollow(RemoveAt(f, p)) <==> AllHollow(f)
    ensures |RemoveAt(f, p)| >= if |p| > 1 then |f| else |f| - 1
    decreases p
  {
    hide Hollow, Inside, Unhollow, RemoveAt, KidsAt;
    if |p| == 1 {
      assert p == [p[0]];
      RemoveTop(f, p[0]);
      UnhollowWithout(f, p[0]);
      AllHollowWithout(f, p[0]);
    } else {
      RemoveAtDown(f, p);
      var n := f[p[0]];
      ParentBelow(f, p);
      RemoveHollow(n.kids, p[1..]);
      var r := n.(kids := RemoveAt(n.kids, p[1..]));
      HollowMeans(n);
      HollowMeans(r);
      SiblingsStay(f, p);
      assert IsTagged(r) <==> IsTagged(n);
      UnhollowUpdate(f, p[0], r);
      assert forall j :: 0 <= j < |f| ==> f[p[0] := r][j] == if j == p[0] then r else f[j];
      assert AllHollow(f[p[0] := r]) ==> Hollow(f[p[0] := r][p[0]]);
    }
  }

  lemma ParentBelow(f: seq<Node>, p: Path)
    requires IsNode(f, p) && |p| > 1 && IsList(f, Parent(p)) && |KidsAt(f, Parent(p))| > 1
    ensures f[p[0]].Element? && IsNode(f[p[0]].kids, p[1..]) && NodeAt(f[p[0]].kids, p[1..]) == NodeAt(f, p)
    ensures |p[1..]| > 1 ==>
      IsList(f[p[0]].kids, Parent(p[1..])) && |KidsAt(f[p[0]].kids, Parent(p[1..]))| > 1
  {
    assert Parent(p)[1..] == Parent(p[1..]) && Parent(p)[0] == p[0];
  }

  lemma SiblingsStay(f: seq<Node>, p: Path)
    requires IsNode(f, p) && |p| > 1 && IsList(f, Parent(p)) && |KidsAt(f, Parent(p))| > 1
    requires f[p[0]].Element? && IsNode(f[p[0]].kids, p[1..])
    requires |RemoveAt(f[p[0]].kids, p[1..])| >= if |p[1..]| > 1 then |f[p[0]].kids| else |f[p[0]].kids| - 1
    ensures RemoveAt(f[p[0]].kids, p[1..]) != [] && f[p[0]].kids != []
  {
    hide RemoveAt;
    if |p| == 2 {
      assert Parent(p) == [p[0]] && [p[0]][1..] == [];
    }
  }

  /** The climb ends at a hollow node that has siblings, or at the top. */
  lemma {:induction false} ClimbHollow(f: seq<Node>, q: Path)
    requires IsNode(f, q) && Hollow(NodeAt(f, q))
    ensures var p := Climb(f, q);
      Hollow(NodeAt(f, p)) && (|p| > 1 ==> IsList(f, Parent(p)) && |KidsAt(f, Parent(p))| > 1)
    decreases |q|
  {
    hide Hollow, KidsAt, NodeAt, IsNode;
    NodeInParent(f, q);
    if |q| > 1 && |KidsAt(f, Parent(q))| == 1 {
      NodeOwnsList(f, Parent(q));
      HollowMeans(NodeAt(f, Parent(q)));
      assert NodeAt(f, Parent(q)).kids == [NodeAt(f, q)];
      ClimbHollow(f, Parent(q));
    }
  }

  lemma {:induction false} NoTagNotHollow(f: seq<Node>)
    requires FirstTagged(f).None?
    ensures forall i :: 0 <= i < |f| ==> !Hollow(f[i])
    ensures Unhollow(f) == f
    decreases f
  {
    if f != [] {
      NoTagNotHollow(f[1..]);
      if f[0].Element? {
        NoTagNotHollow(f[0].kids);
        assert f[0].kids != [] ==> !Hollow(f[0].kids[0]);
      }
      assert forall i :: 0 < i < |f| ==> f[i] == f[1..][i - 1];
      assert Inside(f[0]) == f[0];
      assert f == [f[0]] + f[1..];
    }
  }

  /** Clearing, with its climbs and in whatever order the tagged nodes come, takes out
      exactly the hollow nodes. */
  lemma {:induction false} ClearIsUnhollow(f: seq<Node>)
    ensures ClearAll(f) == Unhollow(f)
    decreases Size(f)
  {
    hide Hollow, Unhollow, Climb, RemoveAt, FirstTagged, NodeAt, IsNode, KidsAt;
    var site := FirstTagged(f);
    if site.None? {
      NoTagNotHollow(f);
    } else {
      var q := site.value;
      HollowMeans(NodeAt(f, q));
      ClimbHollow(f, q);
      RemoveHollow(f, Climb(f, q));
      ClearIsUnhollow(RemoveAt(f, Climb(f, q)));
    }
  }

  // ---- the map after clearing

  lemma TagsTail(m: Model, at: seq<string>, kids: seq<Node>, done: set<seq<string>>)
    requires TagsRight(m, at, kids, done) && kids != []
    ensures TagRight(m, at, kids[0], done) && TagsRight(m, at, kids[1..], done)
  {
    hide TagRight, TagsRight;
    TagsAre(m, at, kids, done);
    TagsAre(m, at, kids[1..], done);
  }

  /** What is tagged is a leaf that is no key, and holds the default of its names. */
  lemma TaggedLeaf(m: Model, at: seq<string>, n: Node, done: set<seq<string>>)
    requires FitNode(m, at, n) && TagRight(m, at, n, done) && LeafNames(m, done) && IsTagged(n)
    ensures !IsKeyAt(m, at, n.name) && HoldsText(n) && at + [n.name] in done
    ensures DefaultAt(m, at + [n.name]) == Some(Content(n)) && ValueOf(m, at, n) == LeafVal(Content(n))
  {
    hide IsKeyAt, DefaultAt, TagsRight, FitNode, ValueOf;
    var names := at + [n.name];
    assert names in done && names[..|names| - 1] == at && names[|names| - 1] == n.name;
    EndLeaf(m, at, n);
  }

  lemma HollowIsNoKey(m: Model, at: seq<string>, n: Node, done: set<seq<string>>)
    requires FitNode(m, at, n) && TagRight(m, at, n, done) && LeafNames(m, done) && Hollow(n)
    ensures n.Element? && !IsKeyAt(m, at, n.name)
  {
    hide TagRight, LeafNames, KindOf, IsKeyAt;
    FitNodeAddressed(m, at, n);
    if IsTagged(n) {
      TaggedLeaf(m, at, n, done);
    } else if HoldsText(n) {
      TextNotHollow(n);
    }
  }

  lemma TextNotHollow(n: Node)
    requires n.Element? && HoldsText(n) && !IsTagged(n)
    ensures !Hollow(n)
  {
    assert !Hollow(n.kids[0]);
  }

  /** What is left of a fit child is the same instance. */
  lemma {:induction false} InsideFits(m: Model, at: seq<string>, n: Node, done: set<seq<string>>)
    requires WellKeyed(m) && FitNode(m, at, n) && TagRight(m, at, n, done) && LeafNames(m, done)
    ensures n.Element? && Inside(n).Element? && Inside(n).name == n.name && FitNode(m, at, Inside(n))
    ensures IdOf(m, at, Inside(n)) == IdOf(m, at, n) && ValueOf(m, at, Inside(n)) == ValueOf(m, at, n)
    ensures IsKeyAt(m, at, n.name) ==> Inside(n) == n
    decreases n, 1
  {
    hide FitKids, LeafNames, IsKeyAt, Unhollow, IdOf, ValueOf, TagsRight;
    FitNodeAddressed(m, at, n);
    TextIsLeaf(m, at, n);
    HollowMeans(n);
    if HoldsText(n) {
      OneTextLeft(n.kids);
      assert Inside(n) == n;
    } else {
      assert Holder(m, at + [n.name]) && !IsKeyAt(m, at, n.name);
      UnhollowFits(m, at + [n.name], n.kids, done);
      KeptSame(m, at, n, Unhollow(n.kids));
    }
  }

  lemma OneTextLeft(kids: seq<Node>)
    requires |kids| == 1 && kids[0].Text?
    ensures Unhollow(kids) == kids
  {
    assert kids[1..] == [];
  }

  lemma HeadKept(m: Model, at: seq<string>, kids: seq<Node>, h: seq<Node>, t: seq<Node>)
    requires kids != [] && KeysKept(m, at, kids[1..], t) && kids[0].Element?
    requires h == [kids[0]] || (!IsKeyAt(m, at, kids[0].name) && (h == [] || (|h| == 1 && Named(h[0], kids[0].name))))
    ensures KeysKept(m, at, kids, h + t)
  {
    hide KidValue, IsKeyAt;
    forall k | IsKeyAt(m, at, k)
      ensures KidValue(m, h + t, k) == KidValue(m, kids, k)
    {
      if h == [kids[0]] {
        SameHeadValue(m, kids, t, k);
      } else {
        ConsValue(m, kids, h, t, kids[0].name, k);
      }
    }
  }

  lemma SameHeadValue(m: Model, kids: seq<Node>, t: seq<Node>, k: string)
    requires kids != [] && KidValue(m, t, k) == KidValue(m, kids[1..], k)
    ensures KidValue(m, [kids[0]] + t, k) == KidValue(m, kids, k)
  {
    assert ([kids[0]] + t)[1..] == t && ([kids[0]] + t)[0] == kids[0];
  }

  /** What is left of a fit list is fit, keeps its keys, and has no new instance. */
  lemma {:induction false} UnhollowFits(m: Model, at: seq<string>, kids: seq<Node>, done: set<seq<string>>)
    requires WellKeyed(m) && FitKids(m, at, kids) && TagsRight(m, at, kids, done) && LeafNames(m, done)
    ensures FitKids(m, at, Unhollow(kids)) && KeysKept(m, at, kids, Unhollow(kids))
    ensures forall id :: SeekId(m, at, kids, id).None? ==> SeekId(m, at, Unhollow(kids), id).None?
    decreases kids, 0
  {
    hide FitKids, FitNode, IdOf, KeysKept, ValueOf, SeekId, TagsRight, TagRight, LeafNames, Hollow, Inside, Unhollow,
      IsKeyAt;
    if kids == [] {
      UnhollowNone();
      KeptItself(m, at, kids);
    } else {
      var n, t := kids[0], Unhollow(kids[1..]);
      var h := if Hollow(n) then [] else [Inside(n)];
      assert kids == [n] + kids[1..];
      UnhollowOne(n, kids[1..]);
      TailFits(m, at, kids);
      TagsTail(m, at, kids, done);
      UnhollowFits(m, at, kids[1..], done);
      InsideFits(m, at, n, done);
      if Hollow(n) {
        HollowIsNoKey(m, at, n, done);
        assert h + t == t;
      } else {
        PrependFits(m, at, h[0], t);
      }
      HeadKept(m, at, kids, h, t);
      forall id | SeekId(m, at, kids, id).None?
        ensures SeekId(m, at, h + t, id).None?
      {
        SeekHead(m, at, kids, id);
        if h != [] {
          assert (h + t)[1..] == t && (h + t)[0] == h[0];
          SeekHead(m, at, h + t, id);
        }
      }
    }
  }

  /** The element at x, or one above it, is hollow. */
  predicate CutOff(m: Model, at: seq<string>, f: seq<Node>, x: seq<Id>)
    decreases x
  {
    x != [] &&
    match SeekId(m, at, f, x[0])
    case None => false
    case Some(i) => Hollow(f[i]) || (|x| > 1 && CutOff(m, at + [f[i].name], f[i].kids, x[1..]))
  }

  /** The element at x is hollow. */
  predicate HollowAt(m: Model, at: seq<string>, f: seq<Node>, x: seq<Id>)
    decreases x
  {
    x != [] &&
    match SeekId(m, at, f, x[0])
    case None => false
    case Some(i) => if |x| == 1 then Hollow(f[i]) else HollowAt(m, at + [f[i].name], f[i].kids, x[1..])
  }

  lemma CutOffCons(m: Model, at: seq<string>, n: Node, t: seq<Node>, x: seq<Id>)
    requires n.Element? && x != []
    ensures CutOff(m, at, [n] + t, x) <==>
      if x[0] == IdOf(m, at, n) then Hollow(n) || (|x| > 1 && CutOff(m, at + [n.name], n.kids, x[1..]))
      else CutOff(m, at, t, x)
  {
    hide IdOf, Hollow;
    assert ([n] + t)[1..] == t && ([n] + t)[0] == n;
    SeekHead(m, at, [n] + t, x[0]);
  }

  lemma NoneCutOff(m: Model, at: seq<string>, x: seq<Id>)
    ensures !CutOff(m, at, [], x)
  {
  }

  /** Clearing takes exactly what is hollow, with all below it, off the map. */
  lemma {:induction false} UnhollowLookup(m: Model, at: seq<string>, kids: seq<Node>, done: set<seq<string>>,
      x: seq<Id>)
    requires WellKeyed(m) && FitKids(m, at, kids) && TagsRight(m, at, kids, done) && LeafNames(m, done) && x != []
    ensures Lookup(m, at, Unhollow(kids), x) == if CutOff(m, at, kids, x) then None else Lookup(m, at, kids, x)
    decreases x, |kids|
  {
    hide FitKids, FitNode, IdOf, ValueOf, TagsRight, TagRight, LeafNames, Hollow, Inside, Unhollow, CutOff, Lookup;
    if kids == [] {
      UnhollowNone();
      NoneCutOff(m, at, x);
      EmptyLookup(m, at, x);
    } else {
      var n, t := kids[0], kids[1..];
      assert kids == [n] + t;
      UnhollowOne(n, t);
      TailFits(m, at, kids);
      TagsTail(m, at, kids, done);
      InsideFits(m, at, n, done);
      UnhollowLookup(m, at, t, done, x);
      CutOffCons(m, at, n, t, x);
      LookupCons(m, at, n, t, x);
      if Hollow(n) {
        assert [] + Unhollow(t) == Unhollow(t);
        AbsentBelow(m, at, t, x);
      } else {
        LookupCons(m, at, Inside(n), Unhollow(t), x);
        if x[0] == IdOf(m, at, n) {
          InsideLookup(m, at, n, done, x);
        }
      }
    }
  }

  lemma {:induction false} InsideLookup(m: Model, at: seq<string>, n: Node, done: set<seq<string>>, x: seq<Id>)
    requires WellKeyed(m) && FitNode(m, at, n) && TagRight(m, at, n, done) && LeafNames(m, done)
    requires n.Element? && Inside(n).Element? && x != [] && x[0] == IdOf(m, at, n)
    ensures Lookup(m, at, [Inside(n)], x) ==
      if |x| > 1 && CutOff(m, at + [n.name], n.kids, x[1..]) then None else Lookup(m, at, [n], x)
    decreases x, 0
  {
    hide FitKids, FitNode, IdOf, ValueOf, TagsRight, LeafNames, Hollow, Inside, Unhollow, CutOff, Lookup;
    InsideFits(m, at, n, done);
    LookupOne(m, at, n, x);
    LookupOne(m, at, Inside(n), x);
    if |x| > 1 {
      HollowMeans(n);
      TextIsLeaf(m, at, n);
      if HoldsText(n) {
        OneTextLeft(n.kids);
        LookupText(m, at + [n.name], n, x[1..]);
      } else {
        UnhollowLookup(m, at + [n.name], n.kids, done, x[1..]);
      }
    }
  }

  /** Below a hollow element that is there everything is hollow. */
  lemma HollowDown(m: Model, at: seq<string>, n: Node, done: set<seq<string>>, y: seq<Id>)
    requires FitNode(m, at, n) && TagRight(m, at, n, done) && LeafNames(m, done) && Hollow(n) && y != []
    requires n.Element? && Lookup(m, at + [n.name], n.kids, y).Some?
    ensures AllHollow(n.kids) && FitKids(m, at + [n.name], n.kids) && TagsRight(m, at + [n.name], n.kids, done)
  {
    hide FitKids, FitNode, TagsRight, LeafNames, Hollow, Lookup;
    HollowMeans(n);
    TextIsLeaf(m, at, n);
    if IsTagged(n) {
      TaggedLeaf(m, at, n, done);
    }
    if HoldsText(n) {
      LookupText(m, at + [n.name], n, y);
    }
  }

  lemma {:induction false} AllHollowBelow(m: Model, at: seq<string>, kids: seq<Node>, done: set<seq<string>>,
      x: seq<Id>)
    requires FitKids(m, at, kids) && TagsRight(m, at, kids, done) && LeafNames(m, done) && AllHollow(kids)
    requires x != [] && Lookup(m, at, kids, x).Some?
    ensures HollowAt(m, at, kids, x)
    decreases x
  {
    hide FitKids, FitNode, IdOf, ValueOf, TagsRight, TagRight, LeafNames, Hollow;
    var i := SeekId(m, at, kids, x[0]).value;
    if |x| > 1 {
      FitMember(m, at, kids, i);
      TagsAre(m, at, kids, done);
      HollowDown(m, at, kids[i], done, x[1..]);
      AllHollowBelow(m, at + [kids[i].name], kids[i].kids, done, x[1..]);
    }
  }

  /** An instance that is there is cut off exactly if it is hollow itself. */
  lemma {:induction false} CutOffIsHollow(m: Model, at: seq<string>, kids: seq<Node>, done: set<seq<string>>,
      x: seq<Id>)
    requires FitKids(m, at, kids) && TagsRight(m, at, kids, done) && LeafNames(m, done)
    requires x != [] && Lookup(m, at, kids, x).Some?
    ensures CutOff(m, at, kids, x) <==> HollowAt(m, at, kids, x)
    decreases x
  {
    hide FitKids, FitNode, IdOf, ValueOf, TagsRight, TagRight, LeafNames, Hollow;
    var i := SeekId(m, at, kids, x[0]).value;
    if |x| > 1 {
      FitMember(m, at, kids, i);
      TagsAre(m, at, kids, done);
      if Hollow(kids[i]) {
        HollowDown(m, at, kids[i], done, x[1..]);
        AllHollowBelow(m, at + [kids[i].name], kids[i].kids, done, x[1..]);
      } else {
        BelowFits(m, at, kids[i], done, x[1..]);
        CutOffIsHollow(m, at + [kids[i].name], kids[i].kids, done, x[1..]);
      }
    }
  }

  lemma BelowFits(m: Model, at: seq<string>, n: Node, done: set<seq<string>>, y: seq<Id>)
    requires FitNode(m, at, n) && TagRight(m, at, n, done) && n.Element? && y != []
    requires Lookup(m, at + [n.name], n.kids, y).Some?
    ensures FitKids(m, at + [n.name], n.kids) && TagsRight(m, at + [n.name], n.kids, done)
  {
    hide FitKids, FitNode, TagsRight, Lookup;
    TextIsLeaf(m, at, n);
    if HoldsText(n) {
      LookupText(m, at + [n.name], n, y);
    }
  }

  /** A leaf, or leaf-list entry, is hollow exactly if it holds the default of its names. */
  lemma {:induction false} HollowLeaf(m: Model, at: seq<string>, kids: seq<Node>, done: set<seq<string>>, x: seq<Id>)
    requires FitKids(m, at, kids) && TagsRight(m, at, kids, done) && LeafNames(m, done) && x != []
    requires Lookup(m, at, kids, x).Some? && Lookup(m, at, kids, x).value.LeafVal?
    ensures HollowAt(m, at, kids, x) <==>
      at + NamesOf(x) in done && DefaultAt(m, at + NamesOf(x)) == Some(Lookup(m, at, kids, x).value.text)
    decreases x
  {
    hide FitKids, FitNode, IdOf, ValueOf, TagsRight, TagRight, LeafNames, Hollow, DefaultAt, NamesOf;
    var i := SeekId(m, at, kids, x[0]).value;
    var n := kids[i];
    IdNamed(m, at, n);
    FitMember(m, at, kids, i);
    TagsAre(m, at, kids, done);
    NamesOfHead(at, x);
    if |x| > 1 {
      BelowFits(m, at, n, done, x[1..]);
      HollowLeaf(m, at + [n.name], n.kids, done, x[1..]);
    } else {
      NoNamesOf();
      assert at + NamesOf(x) == at + [n.name];
      HollowLeafHere(m, at, n, done);
    }
  }

  lemma NoNamesOf()
    ensures NamesOf([]) == []
  {
  }

  lemma HollowLeafHere(m: Model, at: seq<string>, n: Node, done: set<seq<string>>)
    requires FitNode(m, at, n) && TagRight(m, at, n, done) && LeafNames(m, done) && n.Element?
    requires ValueOf(m, at, n).LeafVal?
    ensures Hollow(n) <==> at + [n.name] in done && DefaultAt(m, at + [n.name]) == Some(ValueOf(m, at, n).text)
  {
    hide FitKids, FitNode, TagsRight, DefaultAt, IsKeyAt;
    TextIsLeaf(m, at, n);
    assert HoldsText(n) && !Hollow(n.kids[0]);
    var names := at + [n.name];
    if names in done {
      assert names[..|names| - 1] == at && names[|names| - 1] == n.name;
      EndLeaf(m, at, n);
    }
    if IsTagged(n) {
      TaggedLeaf(m, at, n, done);
    }
  }

  // ---- what filling in adds is hollow

  /** The element r is n with tags and hollow children added, here and below. */
  predicate GrownNode(n: Node, r: Node)
    decreases n, 1
  {
    match n
    case Text(_) => r == n
    case Element(name, _, kids) =>
      r.Element? && r.name == name && (IsTagged(n) ==> IsTagged(r)) &&
      if TextFirst(n) then r.kids == kids else GrownKids(kids, r.kids)
  }

  predicate GrownKids(kids: seq<Node>, r: seq<Node>)
    decreases kids, 0
  {
    |kids| <= |r| && (forall i :: 0 <= i < |kids| ==> GrownNode(kids[i], r[i])) &&
    forall i :: |kids| <= i < |r| ==> Hollow(r[i])
  }

  lemma {:induction false} GrownSame(n: Node)
    ensures GrownNode(n, n)
    decreases n, 0
  {
    if n.Element? {
      GrownSameKids(n.kids);
    }
  }

  lemma {:induction false} GrownSameKids(kids: seq<Node>)
    ensures GrownKids(kids, kids)
    decreases kids, 1
  {
    forall i | 0 <= i < |kids|
      ensures GrownNode(kids[i], kids[i])
    {
      GrownSame(kids[i]);
    }
  }

  lemma {:induction false} HollowGrows(n: Node, r: Node)
    requires Hollow(n) && GrownNode(n, r)
    ensures Hollow(r)
    decreases n
  {
    if !IsTagged(n) {
      assert Hollow(n.kids[0]);
      forall i | 0 <= i < |r.kids|
        ensures Hollow(r.kids[i])
      {
        if i < |n.kids| {
          HollowGrows(n.kids[i], r.kids[i]);
        }
      }
    }
  }

  lemma {:induction false} GrownTrans(n: Node, r: Node, s: Node)
    requires GrownNode(n, r) && GrownNode(r, s)
    ensures GrownNode(n, s)
    decreases n, 0
  {
    if n.Element? && !TextFirst(n) {
      if r.kids != [] && n.kids == [] {
        assert Hollow(r.kids[0]);
      } else if r.kids != [] {
        assert GrownNode(n.kids[0], r.kids[0]);
      }
      GrownKidsTrans(n.kids, r.kids, s.kids);
    }
  }

  lemma {:induction false} GrownKidsTrans(a: seq<Node>, b: seq<Node>, c: seq<Node>)
    requires GrownKids(a, b) && GrownKids(b, c)
    ensures GrownKids(a, c)
    decreases a, 1
  {
    hide Hollow, GrownNode;
    forall i | 0 <= i < |a|
      ensures GrownNode(a[i], c[i])
    {
      GrownTrans(a[i], b[i], c[i]);
    }
    forall i | |a| <= i < |c|
      ensures Hollow(c[i])
    {
      if i < |b| {
        HollowGrows(b[i], c[i]);
      }
    }
  }

  /** A new element is hollow, if anything was filled in. */
  lemma {:induction false} NewIsHollow(stmts: seq<Stmt>, v: string)
    requires stmts != [] && v != ""
    ensures var n := FillNode(true, Element(stmts[0].name, map[], []), stmts, v); n.kids != [] ==> Hollow(n)
    decreases |stmts|
  {
    var n := FillNode(true, Element(stmts[0].name, map[], []), stmts, v);
    if |stmts| == 1 {
      TextContent(Element(stmts[0].name, map[], [Text(v)]));
      assert IsTagged(n);
    } else {
      NewIsHollow(stmts[1..], v);
      assert !HasNamed([], stmts[1].name);
    }
  }

  lemma {:induction false} FillNodeGrown(m: Model, at: seq<string>, n: Node, stmts: seq<Stmt>, v: string)
    requires WellKeyed(m) && FitNode(m, at, n) && Proper(m, at, stmts, v) && n.Element? && n.name == stmts[0].name
    ensures GrownNode(n, FillNode(true, n, stmts, v))
    decreases |stmts|, 0
  {
    hide FitNode, FitKids, FillKids, Proper, GrownKids;
    assert stmts != [] by {
      ProperNonempty(m, at, stmts, v);
    }
    if |stmts| == 1 {
      ProperDefault(m, at, stmts, v);
      ProperNotKeyed(m, at, stmts, v);
      EndLeaf(m, at, n);
    } else {
      ProperTail(m, at, stmts, v);
      HolderKids(m, at, n);
      TextIsLeaf(m, at, n);
      FillGrown(m, at + [n.name], n.kids, stmts[1..], v);
    }
  }

  lemma ProperNotKeyed(m: Model, at: seq<string>, stmts: seq<Stmt>, v: string)
    requires Proper(m, at, stmts, v)
    ensures stmts != [] && !IsKeyAt(m, at, stmts[0].name)
  {
  }

  /** Filling in one default with tags adds tags and hollow nodes. */
  lemma {:induction false} FillGrown(m: Model, at: seq<string>, kids: seq<Node>, stmts: seq<Stmt>, v: string)
    requires WellKeyed(m) && FitKids(m, at, kids) && Proper(m, at, stmts, v)
    ensures stmts != [] && GrownKids(kids, FillKids(true, at == [], kids, stmts, v))
    decreases |stmts|, 1
  {
    ProperDefault(m, at, stmts, v);
    hide FitNode, FitKids, FillNode, Proper, GrownNode, Hollow;
    if HasNamed(kids, stmts[0].name) {
      var r := FillEach(true, kids, stmts, v);
      forall i | 0 <= i < |kids|
        ensures GrownNode(kids[i], r[i])
      {
        if Named(kids[i], stmts[0].name) {
          FitMember(m, at, kids, i);
          FillNodeGrown(m, at, kids[i], stmts, v);
        } else {
          GrownSame(kids[i]);
        }
      }
    } else {
      GrownSameKids(kids);
      NewIsHollow(stmts, v);
    }
  }

  lemma {:induction false} FillAllGrown(m: Model, f: seq<Node>, ds: seq<Default>)
    requires WellKeyed(m) && FitKids(m, [], f) && ProperDefaults(m, ds)
    ensures GrownKids(f, FillAll(true, f, ds))
    decreases |ds|
  {
    hide FitKids, Proper, FillKids, FillTop, GrownKids, ProperDefaults;
    if ds == [] {
      GrownSameKids(f);
    } else {
      var d := ds[0];
      ProperRest(m, ds);
      FillTopIsFill(true, m, f, d.stmts, d.value);
      FillFits(true, m, [], f, d.stmts, d.value);
      FillGrown(m, [], f, d.stmts, d.value);
      FillAllGrown(m, FillTop(true, f, d.stmts, d.value), ds[1..]);
      GrownKidsTrans(f, FillTop(true, f, d.stmts, d.value), FillAll(true, f, ds));
    }
  }

  // ---- instances of grown documents

  lemma {:induction false} GrownFirst(kids: seq<Node>, r: seq<Node>, k: string)
    requires GrownKids(kids, r) && FirstNamed(kids, k).Some?
    ensures FirstNamed(r, k) == FirstNamed(kids, k)
    decreases kids
  {
    hide GrownNode, Hollow;
    if kids != [] {
      GrownName(kids[0], r[0]);
      if NameOf(kids[0]) != k {
        GrownTail(kids, r);
        GrownFirst(kids[1..], r[1..], k);
      }
    }
  }

  lemma GrownName(n: Node, r: Node)
    requires GrownNode(n, r)
    ensures NameOf(r) == NameOf(n) && (n.Text? <==> r.Text?)
    ensures n.Element? && TextFirst(n) ==> r.kids == n.kids
  {
  }

  lemma GrownTail(kids: seq<Node>, r: seq<Node>)
    requires GrownKids(kids, r) && kids != []
    ensures r != [] && GrownKids(kids[1..], r[1..])
  {
    hide GrownNode, Hollow;
  }

  /** Growing keeps the instance. */
  lemma GrownId(m: Model, at: seq<string>, n: Node, r: Node)
    requires WellKeyed(m) && FitNode(m, at, n) && GrownNode(n, r) && n.Element?
    ensures r.Element? && r.name == n.name && IdOf(m, at, r) == IdOf(m, at, n)
    ensures ValueOf(m, at, r) == ValueOf(m, at, n)
    ensures !TextFirst(n) ==> GrownKids(n.kids, r.kids) && !TextFirst(r)
    ensures TextFirst(n) ==> r.kids == n.kids
  {
    hide FitNode, FitKids, Hollow, GrownKids, IsKeyAt, KindOf;
    TextIsLeaf(m, at, n);
    FitNodeAddressed(m, at, n);
    if !TextFirst(n) {
      NotTextFirst(n, r);
      forall k | k in KeysOf(m, n.name)
        ensures KidValue(m, r.kids, k) == KidValue(m, n.kids, k)
      {
        KeyIsKeyAt(m, at, n.name, k);
        GrownKey(m, at + [n.name], n.kids, r.kids, k);
      }
      assert KeyValues(m, r.kids, KeysOf(m, n.name)) == KeyValues(m, n.kids, KeysOf(m, n.name));
    }
  }

  lemma NotTextFirst(n: Node, r: Node)
    requires n.Element? && !TextFirst(n) && GrownNode(n, r)
    ensures r.Element? && !TextFirst(r) && GrownKids(n.kids, r.kids)
  {
    if r.kids != [] {
      assert n.kids == [] ==> Hollow(r.kids[0]);
      assert n.kids != [] ==> GrownNode(n.kids[0], r.kids[0]);
    }
  }

  lemma GrownKey(m: Model, at: seq<string>, kids: seq<Node>, r: seq<Node>, k: string)
    requires FitKids(m, at, kids) && GrownKids(kids, r) && IsKeyAt(m, at, k) && FirstNamed(kids, k).Some?
    ensures KidValue(m, r, k) == KidValue(m, kids, k)
  {
    hide FitKids, GrownNode, Hollow, IsKeyAt, KindOf;
    GrownFirst(kids, r, k);
    var c := FirstNamed(kids, k).value;
    FitMember(m, at, kids, c);
    assert GrownNode(kids[c], r[c]);
    GrownName(kids[c], r[c]);
    TextIsLeaf(m, at, kids[c]);
  }

  /** Growing keeps every value, and what it adds is cut off. */
  lemma {:induction false} GrownLookup(m: Model, at: seq<string>, f: seq<Node>, g: seq<Node>, x: seq<Id>)
    requires WellKeyed(m) && FitKids(m, at, f) && FitKids(m, at, g) && GrownKids(f, g) && x != []
    ensures Lookup(m, at, f, x).Some? ==> Lookup(m, at, g, x) == Lookup(m, at, f, x)
    ensures Lookup(m, at, f, x).None? && Lookup(m, at, g, x).Some? ==> CutOff(m, at, g, x)
    decreases x
  {
    hide FitKids, FitNode, IdOf, ValueOf, Hollow, GrownNode;
    forall i | 0 <= i < |f|
      ensures f[i].Element? && g[i].Element? && IdOf(m, at, g[i]) == IdOf(m, at, f[i])
    {
      FitMember(m, at, f, i);
      GrownId(m, at, f[i], g[i]);
    }
    var i, j := SeekId(m, at, f, x[0]), SeekId(m, at, g, x[0]);
    if i.Some? {
      SeekFinds(m, at, g, i.value);
    }
    if j.Some? && j.value < |f| {
      SeekFinds(m, at, f, j.value);
      GrownPair(m, at, f, g, j.value, x);
    }
  }

  lemma {:induction false} GrownPair(m: Model, at: seq<string>, f: seq<Node>, g: seq<Node>, i: nat, x: seq<Id>)
    requires WellKeyed(m) && FitKids(m, at, f) && FitKids(m, at, g) && GrownKids(f, g) && x != []
    requires i < |f| && f[i].Element? && g[i].Element?
    requires SeekId(m, at, f, x[0]) == SeekId(m, at, g, x[0]) == Some(i)
    ensures Lookup(m, at, f, x).Some? ==> Lookup(m, at, g, x) == Lookup(m, at, f, x)
    ensures Lookup(m, at, f, x).None? && Lookup(m, at, g, x).Some? ==> CutOff(m, at, g, x)
    decreases x, 0
  {
    hide FitKids, FitNode, IdOf, ValueOf, Hollow, GrownNode;
    var n, r := f[i], g[i];
    FitMember(m, at, f, i);
    FitMember(m, at, g, i);
    GrownId(m, at, n, r);
    if |x| > 1 && !TextFirst(n) {
      TextIsLeaf(m, at, n);
      TextIsLeaf(m, at, r);
      GrownLookup(m, at + [n.name], n.kids, r.kids, x[1..]);
    }
  }

  // ---- clearing and trimming

  /** Report-all with tags and then clearing leaves what trimming leaves, but for the
      containers and list entries that have nothing but defaults in them then: these go. */
  lemma ClearMeans(m: Model, f: seq<Node>, x: seq<Id>)
    requires WellKeyed(m) && FitKids(m, [], f) && ProperDefaults(m, DefaultsOf(m)) && TagsRight(m, [], f, {})
    requires x != []
    ensures Lookup(m, [], ClearAll(ReportTagged(m, f)), x) ==
      if Lookup(m, [], f, x) == Some(Val.Inner) && HollowAt(m, [], ReportTagged(m, f), x) then None
      else Lookup(m, [], Trim(m, f), x)
  {
    hide FitKids, Lookup, ProperDefaults, TagsRight, FillAll, TrimAll, DefaultsOf, DefaultAt, Listed, ClearAll,
      HollowAt, CutOff, GrownKids, LeafNames, NamesOf;
    var ds, g := DefaultsOf(m), ReportTagged(m, f);
    var done := NamesIn(ds);
    FillAllTags(m, f, ds, {});
    assert {} + done == done;
    DefaultsAreLeafNames(m, ds);
    FillAllGrown(m, f, ds);
    GrownLookup(m, [], f, g, x);
    ClearIsUnhollow(g);
    UnhollowLookup(m, [], g, done, x);
    TrimAllLookup(m, f, ds, x);
    NamesInListed(ds, NamesOf(x));
    if Lookup(m, [], f, x).Some? {
      CutOffIsHollow(m, [], g, done, x);
      if Lookup(m, [], f, x).value.LeafVal? {
        HollowLeaf(m, [], g, done, x);
        assert [] + NamesOf(x) == NamesOf(x);
      }
    }
  }

  ghost predicate SameMap(m: Model, f: seq<Node>, g: seq<Node>) {
    forall x :: x != [] ==> Lookup(m, [], f, x) == Lookup(m, [], g, x)
  }

  /** No container or list entry of f is hollow in g. */
  ghost predicate NoneHollowed(m: Model, f: seq<Node>, g: seq<Node>) {
    forall x :: x != [] && Lookup(m, [], f, x) == Some(Val.Inner) ==> !HollowAt(m, [], g, x)
  }

  /** Report-all with tags and then clearing is trimming, on the whole map, if and only if
      every container and list entry that was there keeps something that is not default. */
  lemma ClearIsTrimExactly(m: Model, f: seq<Node>)
    requires WellKeyed(m) && FitKids(m, [], f) && ProperDefaults(m, DefaultsOf(m)) && TagsRight(m, [], f, {})
    ensures SameMap(m, ClearAll(ReportTagged(m, f)), Trim(m, f)) <==> NoneHollowed(m, f, ReportTagged(m, f))
  {
    hide FitKids, Lookup, ProperDefaults, TagsRight, ReportTagged, Trim, DefaultsOf, ClearAll, HollowAt;
    var g := ReportTagged(m, f);
    if SameMap(m, ClearAll(g), Trim(m, f)) {
      forall x: seq<Id> | x != [] && Lookup(m, [], f, x) == Some(Val.Inner)
        ensures !HollowAt(m, [], g, x)
      {
        ClearMeans(m, f, x);
        InnerStays(m, f, x);
      }
    }
    if NoneHollowed(m, f, g) {
      forall x: seq<Id> | x != []
        ensures Lookup(m, [], ClearAll(g), x) == Lookup(m, [], Trim(m, f), x)
      {
        ClearMeans(m, f, x);
      }
    }
  }

  lemma InnerStays(m: Model, f: seq<Node>, x: seq<Id>)
    requires WellKeyed(m) && FitKids(m, [], f) && ProperDefaults(m, DefaultsOf(m)) && x != []
    ensures Lookup(m, [], f, x) == Some(Val.Inner) ==> Lookup(m, [], Trim(m, f), x) == Some(Val.Inner)
  {
    hide FitKids, Lookup, ProperDefaults, TrimAll, DefaultsOf, DefaultAt, Listed, NamesOf;
    TrimAllLookup(m, f, DefaultsOf(m), x);
  }

  /** An input: a container, with presence or without, that holds nothing but a leaf with its
      default. Trimming leaves the container, clearing does not. */
  lemma ClearTakesContainer(m: Model, presence: bool, a: string, l: string, w: string)
    requires m.top == [Stmt(Container(presence), a, [Stmt(Leaf(Some(w)), l, [])])] && w != ""
    ensures var f := [Element(a, map[], [Element(l, map[], [Text(w)])])];
      WellKeyed(m) && FitKids(m, [], f) && ProperDefaults(m, DefaultsOf(m)) && TagsRight(m, [], f, {}) &&
      Trim(m, f) == [Element(a, map[], [])] && ClearAll(ReportTagged(m, f)) == []
  {
    LeafModelFits(m, presence, a, l, w);
    hide FitKids, ProperDefaults, TagsRight, WellKeyed;
    var c := m.top[0];
    var stmts := [c, c.kids[0]];
    var leaf := Element(l, map[], [Text(w)]);
    var f, g := [Element(a, map[], [leaf])], [Element(a, map[], [Tagged(leaf)])];
    OneDefault(m, presence, a, l, w);
    LeafDone(leaf, stmts[1..], w);
    TopDone(Element(a, map[], [leaf]), stmts, w);
    hide DefaultsOf, FillTop, TrimTop;
    var ds := [Default(stmts, w)];
    assert DefaultsOf(m) == ds && ds[1..] == [];
    assert TrimAll(TrimTop(f, stmts, w), []) == TrimTop(f, stmts, w);
    assert FillAll(true, FillTop(true, f, stmts, w), []) == FillTop(true, f, stmts, w);
    assert Trim(m, f) == [Element(a, map[], [])] && ReportTagged(m, f) == g;
    ClearIsUnhollow(g);
    assert Hollow(Tagged(leaf)) && Hollow(g[0]) && g[1..] == [];
  }

  lemma LeafModelFits(m: Model, presence: bool, a: string, l: string, w: string)
    requires m.top == [Stmt(Container(presence), a, [Stmt(Leaf(Some(w)), l, [])])] && w != ""
    ensures var f := [Element(a, map[], [Element(l, map[], [Text(w)])])];
      WellKeyed(m) && FitKids(m, [], f) && ProperDefaults(m, DefaultsOf(m)) && TagsRight(m, [], f, {})
  {
    var leaf := Element(l, map[], [Text(w)]);
    var n, stmts := Element(a, map[], [leaf]), [m.top[0], m.top[0].kids[0]];
    DefinedLeaf(m, presence, a, l, w);
    OneDefault(m, presence, a, l, w);
    hide KindOf, KeyStmts, DefaultsOf, Proper, FitKids, TagsRight;
    LeafFits(m, presence, n, leaf);
    LeafIsProper(m, presence, stmts, w);
    TextHasNoTags(m, [a, l], leaf.kids, {});
    NotTagged(m, n, leaf);
    assert ProperDefaults(m, [Default(stmts, w)]);
  }

  lemma LeafFits(m: Model, presence: bool, n: Node, leaf: Node)
    requires n.Element? && leaf.Element? && n.kids == [leaf] && HoldsText(leaf) && KeyStmts(m.top) == []
    requires KindOf(m, [n.name]) == Some(Container(presence))
    requires KindOf(m, [n.name, leaf.name]).Some? && KindOf(m, [n.name, leaf.name]).value.Leaf?
    ensures FitKids(m, [], [n])
  {
    hide KindOf, KeyStmts;
    var here := [n.name];
    assert [] + here == here && here + [leaf.name] == [n.name, leaf.name];
    assert FitNode(m, here, leaf);
    assert FitKids(m, here, [leaf]);
    assert FitNode(m, [], n);
  }

  lemma LeafIsProper(m: Model, presence: bool, stmts: seq<Stmt>, w: string)
    requires |stmts| == 2 && KeyStmts(m.top) == [] && w != ""
    requires stmts[0].kind == Container(presence) && KindOf(m, [stmts[0].name]) == Some(stmts[0].kind)
    requires stmts[1].kind == Leaf(Some(w)) && KindOf(m, [stmts[0].name, stmts[1].name]) == Some(stmts[1].kind)
    ensures Proper(m, [], stmts, w)
  {
    hide KindOf, KeyStmts;
    var here := [stmts[0].name];
    assert [] + here == here && here + [stmts[1].name] == [stmts[0].name, stmts[1].name] && stmts[1..] == [stmts[1]];
    assert Proper(m, here, stmts[1..], w);
  }

  lemma NotTagged(m: Model, n: Node, leaf: Node)
    requires n.Element? && leaf.Element? && n.kids == [leaf] && n.attrs == map[] && leaf.attrs == map[]
    requires TagsRight(m, [n.name, leaf.name], leaf.kids, {})
    ensures TagsRight(m, [], [n], {})
  {
    hide DefaultAt;
    var here := [n.name];
    assert [] + here == here && here + [leaf.name] == [n.name, leaf.name];
    assert TagsRight(m, here, [leaf], {});
  }

  lemma DefinedLeaf(m: Model, presence: bool, a: string, l: string, w: string)
    requires m.top == [Stmt(Container(presence), a, [Stmt(Leaf(Some(w)), l, [])])]
    ensures KindOf(m, [a]) == Some(Container(presence)) && KindOf(m, [a, l]) == Some(Leaf(Some(w)))
    ensures KeyStmts(m.top) == []
  {
    var c, k := m.top[0], m.top[0].kids[0];
    assert [0] + [] == [0] && ([0] + [0])[1..] == [0];
    assert [a][1..] == [] && [a, l][1..] == [l] && [l][1..] == [];
    assert CompareStmt(c, a) == Some([]) && CompareStmt(k, l) == Some([]);
    assert FindModel(c.kids, []) == Some([]) && FindModel(k.kids, []) == Some([]);
    assert FindModel(c.kids, [l]) == Some([0]);
    assert FindModel(m.top, [a]) == Some([0]) && FindModel(m.top, [a, l]) == Some([0] + [0]);
    assert m.top[1..] == [] && c.kids[1..] == [];
    assert KeyStmts([]) == [] && KeyStmtsOf(k) == [] && KeyStmts(c.kids) == [] && KeyStmtsOf(c) == [];
  }

  function Tagged(leaf: Node): Node
    requires leaf.Element?
  {
    leaf.(attrs := leaf.attrs[TAG := "true"])
  }

  lemma LeafDone(leaf: Node, stmts: seq<Stmt>, w: string)
    requires |stmts| == 1 && leaf == Element(stmts[0].name, map[], [Text(w)]) && w != ""
    ensures TrimKids([leaf], stmts, w) == [] && FillKids(true, false, [leaf], stmts, w) == [Tagged(leaf)]
  {
    TextContent(leaf);
    hide Content;
    assert [leaf][1..] == [] && TrimKids([], stmts, w) == [] && Named([leaf][0], stmts[0].name);
    assert FillNode(true, leaf, stmts, w) == Tagged(leaf);
  }

  lemma TopDone(n: Node, stmts: seq<Stmt>, w: string)
    requires |stmts| == 2 && n.Element? && n.name == stmts[0].name
    ensures TrimTop([n], stmts, w) == [n.(kids := TrimKids(n.kids, stmts[1..], w))]
    ensures FillTop(true, [n], stmts, w) == [n.(kids := FillKids(true, false, n.kids, stmts[1..], w))]
  {
    hide TrimKids, FillKids;
    assert FirstRoot([n], stmts[0].name) == Some(0) && [n][..0] == [] && [n][1..] == [];
  }

  lemma OneDefault(m: Model, presence: bool, a: string, l: string, w: string)
    requires m.top == [Stmt(Container(presence), a, [Stmt(Leaf(Some(w)), l, [])])]
    ensures DefaultsOf(m) == [Default([m.top[0], m.top[0].kids[0]], w)]
  {
    var c := m.top[0];
    assert m.top[1..] == [] && c.kids[1..] == [] && [c][1..] == [];
    assert Containers(m.top) == [c];
    assert [] + [c] == [c] && [c] + [c.kids[0]] == [c, c.kids[0]];
    assert DefaultsIn([c, c.kids[0]], []) == [];
    assert DefaultsIn([c], c.kids) == [Default([c, c.kids[0]], w)];
    assert DefaultsIn([], [c]) == [Default([c, c.kids[0]], w)];
  }
}
