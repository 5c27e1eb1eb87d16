/** Trimming: taking out leaves that hold their default value. */
module Trimming {
  import opened Xml
  import opened Schema
  import opened Matching
  import opened Instances
  import opened Merge
  import opened MergeMeaning
  import opened Targets
  import opened Effects
  import opened Defaults

  /** What is left of one child. */
  function TrimOne(n: Node, stmts: seq<Stmt>, v: string): (r: seq<Node>)
    requires stmts != []
    ensures |r| <= 1
  {
    if !Named(n, stmts[0].name) then [n]
    else if |stmts| == 1 then (if n.kids != [] && Content(n) == v then [] else [n])
    else [n.(kids := TrimKids(n.kids, stmts[1..], v))]
  }

  lemma {:induction false} TrimHead(kids: seq<Node>, stmts: seq<Stmt>, v: string)
    requires stmts != []
    ensures TrimKids([], stmts, v) == []
    ensures kids != [] ==> TrimKids(kids, stmts, v) == TrimOne(kids[0], stmts, v) + TrimKids(kids[1..], stmts, v)
  {
  }

  /** A document after one default has been trimmed in the first root of its name. */
  function TrimTop(f: seq<Node>, stmts: seq<Stmt>, v: string): seq<Node>
    requires stmts != []
  {
    match FirstRoot(f, stmts[0].name)
    case Some(i) => f[..i] + TrimOne(f[i], stmts, v) + f[i + 1..]
    case None => f
  }

  lemma {:induction false} TrimNoneNamed(kids: seq<Node>, stmts: seq<Stmt>, v: string)
    requires stmts != [] && forall j :: 0 <= j < |kids| ==> !Named(kids[j], stmts[0].name)
    ensures TrimKids(kids, stmts, v) == kids
    decreases |kids|
  {
    if kids != [] {
      TrimNoneNamed(kids[1..], stmts, v);
    }
  }

  lemma {:induction false} TrimOneNamed(kids: seq<Node>, stmts: seq<Stmt>, v: string, i: nat)
    requires stmts != [] && i < |kids| && forall j :: 0 <= j < |kids| && j != i ==> !Named(kids[j], stmts[0].name)
    ensures TrimKids(kids, stmts, v) == kids[..i] + TrimOne(kids[i], stmts, v) + kids[i + 1..]
    decreases |kids|
  {
    hide TrimKids, TrimOne, Named;
    TrimHead(kids, stmts, v);
    var rest := kids[1..];
    if i == 0 {
      TrimNoneNamed(rest, stmts, v);
    } else {
      TrimOneNamed(rest, stmts, v, i - 1);
      TrimOther(kids[0], stmts, v);
      assert kids[..i] == [kids[0]] + rest[..i - 1] && rest[i..] == kids[i + 1..];
    }
  }

  lemma TrimOther(n: Node, stmts: seq<Stmt>, v: string)
    requires stmts != [] && !Named(n, stmts[0].name)
    ensures TrimOne(n, stmts, v) == [n]
  {
  }

  lemma TrimTopIsTrim(m: Model, f: seq<Node>, stmts: seq<Stmt>, v: string)
    requires FitKids(m, [], f) && Proper(m, [], stmts, v)
    ensures stmts != [] && TrimTop(f, stmts, v) == TrimKids(f, stmts, v)
  {
    ProperNonempty(m, [], stmts, v);
    hide FitKids, Proper, TrimKids, TrimOne, Named;
    var first := FirstRoot(f, stmts[0].name);
    if first.None? {
      TrimNoneNamed(f, stmts, v);
    } else {
      forall j | 0 <= j < |f| && Named(f[j], stmts[0].name)
        ensures j == first.value
      {
        OneRoot(m, f, stmts, v, first.value, j);
      }
      TrimOneNamed(f, stmts, v, first.value);
    }
  }

  /** A child that is trimmed below stays the same fit instance. */
  lemma {:induction false} TrimNodeFits(m: Model, at: seq<string>, n: Node, stmts: seq<Stmt>, v: string)
    requires WellKeyed(m) && FitNode(m, at, n) && Proper(m, at, stmts, v) && n.name == stmts[0].name && |stmts| > 1
    ensures var r := n.(kids := TrimKids(n.kids, stmts[1..], v));
      FitNode(m, at, r) && IdOf(m, at, r) == IdOf(m, at, n) && ValueOf(m, at, r) == ValueOf(m, at, n)
    ensures FitKids(m, at + [n.name], n.kids)
    decreases |stmts|, n
  {
    ProperTail(m, at, stmts, v);
    HolderKids(m, at, n);
    TrimFits(m, at + [n.name], n.kids, stmts[1..], v);
    KeptSame(m, at, n, TrimKids(n.kids, stmts[1..], v));
  }

  lemma {:induction false} ConsValue(m: Model, kids: seq<Node>, h: seq<Node>, t: seq<Node>, name: string, k: string)
    requires kids != [] && KidValue(m, t, k) == KidValue(m, kids[1..], k) && k != name
    requires h == [kids[0]] || (Named(kids[0], name) && (h == [] || (|h| == 1 && Named(h[0], name))))
    ensures KidValue(m, h + t, k) == KidValue(m, kids, k)
  {
    if h == [] {
      assert h + t == t;
    } else {
      assert (h + t)[1..] == t && (h + t)[0] == h[0];
    }
  }

  lemma {:induction false} ConsKept(m: Model, at: seq<string>, kids: seq<Node>, h: seq<Node>, t: seq<Node>,
      name: string)
    requires kids != [] && KeysKept(m, at, kids[1..], t) && !IsKeyAt(m, at, name)
    requires h == [kids[0]] || (Named(kids[0], name) && (h == [] || (|h| == 1 && Named(h[0], name))))
    ensures KeysKept(m, at, kids, h + t)
  {
    hide KidValue, IsKeyAt;
    forall k | IsKeyAt(m, at, k)
      ensures KidValue(m, h + t, k) == KidValue(m, kids, k)
    {
      assert KidValue(m, t, k) == KidValue(m, kids[1..], k);
      ConsValue(m, kids, h, t, name, k);
    }
  }

  /** Trimming keeps a child list fit, and its keys, and adds no instance. */
  lemma {:induction false} TrimFits(m: Model, at: seq<string>, kids: seq<Node>, stmts: seq<Stmt>, v: string)
    requires WellKeyed(m) && FitKids(m, at, kids) && Proper(m, at, stmts, v)
    ensures FitKids(m, at, TrimKids(kids, stmts, v)) && KeysKept(m, at, kids, TrimKids(kids, stmts, v))
    ensures forall id :: SeekId(m, at, kids, id).None? ==> SeekId(m, at, TrimKids(kids, stmts, v), id).None?
    decreases |stmts|, kids
  {
    assert stmts != [];
    hide FitKids, FitNode, IdOf, KeysKept, TrimKids, Proper, ValueOf, SeekId;
    TrimHead(kids, stmts, v);
    if kids == [] {
      KeptItself(m, at, kids);
    } else {
      var h, t := TrimOne(kids[0], stmts, v), TrimKids(kids[1..], stmts, v);
      TailFits(m, at, kids);
      TrimFits(m, at, kids[1..], stmts, v);
      FitNodeAddressed(m, at, kids[0]);
      if Named(kids[0], stmts[0].name) && |stmts| > 1 {
        TrimNodeFits(m, at, kids[0], stmts, v);
      }
      ProperHead(m, at, stmts, v);
      ConsKept(m, at, kids, h, t, stmts[0].name);
      if h == [] {
        assert h + t == t;
      } else {
        assert h == [h[0]];
        PrependFits(m, at, h[0], t);
      }
      forall id | SeekId(m, at, kids, id).None?
        ensures SeekId(m, at, h + t, id).None?
      {
        SeekHead(m, at, kids, id);
        if h != [] {
          assert (h + t)[1..] == t && (h + t)[0] == h[0];
          SeekHead(m, at, h + t, id);
        }
      }
    }
  }

  lemma ProperHead(m: Model, at: seq<string>, stmts: seq<Stmt>, v: string)
    requires Proper(m, at, stmts, v)
    ensures stmts != [] && !IsKeyAt(m, at, stmts[0].name)
    ensures |stmts| == 1 ==> KindOf(m, at + [stmts[0].name]) == Some(Leaf(Some(v)))
  {
  }

  /** The value at x once a default has been trimmed. */
  function Trimmed(m: Model, at: seq<string>, kids: seq<Node>, stmts: seq<Stmt>, v: string, x: seq<Id>): Option<Val>
    requires x != []
  {
    if NamesOf(x) == StmtNames(stmts) && Lookup(m, at, kids, x) == Some(LeafVal(v)) then None
    else Lookup(m, at, kids, x)
  }

  lemma {:induction false} LeafTrim(m: Model, at: seq<string>, n: Node, stmts: seq<Stmt>, v: string, x: seq<Id>)
    requires FitNode(m, at, n) && Proper(m, at, stmts, v) && n.name == stmts[0].name && |stmts| == 1
    requires x != [] && x[0] == IdOf(m, at, n)
    ensures (if n.kids != [] && Content(n) == v then None else Lookup(m, at, [n], x)) ==
      Trimmed(m, at, [n], stmts, v, x)
  {
    hide Lookup, IdOf;
    SameNames(x, stmts);
    IdHasName(m, at, n);
    TextContent(n);
    LookupOne(m, at, n, x);
    if |x| > 1 {
      LookupText(m, at + [n.name], n, x[1..]);
    } else {
      assert NamesOf(x[1..]) == [] == StmtNames(stmts[1..]);
    }
  }

  lemma {:induction false} TrimmedCons(m: Model, at: seq<string>, n: Node, rest: seq<Node>, stmts: seq<Stmt>,
      v: string, x: seq<Id>)
    requires n.Element? && x != []
    ensures Trimmed(m, at, [n] + rest, stmts, v, x) ==
      if x[0] == IdOf(m, at, n) then Trimmed(m, at, [n], stmts, v, x) else Trimmed(m, at, rest, stmts, v, x)
  {
    hide Lookup, IdOf;
    LookupCons(m, at, n, rest, x);
  }

  /** Trimming one default takes its value out where it is, and changes nothing else. */
  lemma {:induction false} TrimLookup(m: Model, at: seq<string>, kids: seq<Node>, stmts: seq<Stmt>, v: string,
      x: seq<Id>)
    requires WellKeyed(m) && FitKids(m, at, kids) && Proper(m, at, stmts, v) && x != []
    ensures Lookup(m, at, TrimKids(kids, stmts, v), x) == Trimmed(m, at, kids, stmts, v, x)
    decreases |stmts|, kids
  {
    assert stmts != [];
    hide FitKids, FitNode, IdOf, TrimKids, Proper, ValueOf, SeekId, Lookup, Trimmed, TrimOne, StmtNames, NamesOf;
    TrimHead(kids, stmts, v);
    if kids == [] {
      EmptyLookup(m, at, x);
      TrimmedAbsent(m, at, kids, stmts, v, x);
    } else {
      var n, rest := kids[0], kids[1..];
      TailFits(m, at, kids);
      FitNodeAddressed(m, at, n);
      TrimLookup(m, at, rest, stmts, v, x);
      assert kids == [n] + rest;
      TrimmedCons(m, at, n, rest, stmts, v, x);
      TrimOneIs(m, at, n, stmts, v);
      LookupLeft(m, at, n, TrimOne(n, stmts, v), TrimKids(rest, stmts, v), x);
      if x[0] == IdOf(m, at, n) {
        AbsentBelow(m, at, rest, x);
        TrimmedAbsent(m, at, rest, stmts, v, x);
        TrimNodeLookup(m, at, n, stmts, v, x);
      }
    }
  }

  /** The map of what is left of a child and of the rest. */
  lemma {:induction false} LookupLeft(m: Model, at: seq<string>, n: Node, h: seq<Node>, t: seq<Node>, x: seq<Id>)
    requires n.Element? && x != [] && |h| <= 1 && (h != [] ==> h[0].Element? && IdOf(m, at, h[0]) == IdOf(m, at, n))
    ensures Lookup(m, at, h + t, x) ==
      if x[0] == IdOf(m, at, n) && h != [] then Lookup(m, at, h, x) else Lookup(m, at, t, x)
  {
    hide IdOf, Lookup;
    if h == [] {
      assert h + t == t;
    } else {
      assert h == [h[0]];
      LookupCons(m, at, h[0], t, x);
    }
  }

  lemma TrimmedAbsent(m: Model, at: seq<string>, kids: seq<Node>, stmts: seq<Stmt>, v: string, x: seq<Id>)
    requires x != [] && Lookup(m, at, kids, x).None?
    ensures Trimmed(m, at, kids, stmts, v, x).None?
  {
  }

  /** What is left of a child is the same instance. */
  lemma {:induction false} TrimOneIs(m: Model, at: seq<string>, n: Node, stmts: seq<Stmt>, v: string)
    requires WellKeyed(m) && FitNode(m, at, n) && n.Element? && Proper(m, at, stmts, v)
    ensures stmts != []
    ensures var h := TrimOne(n, stmts, v); h != [] ==> h[0].Element? && IdOf(m, at, h[0]) == IdOf(m, at, n)
  {
    assert stmts != [];
    hide FitNode, IdOf, TrimKids, Proper;
    if Named(n, stmts[0].name) && |stmts| > 1 {
      TrimNodeFits(m, at, n, stmts, v);
    }
  }

  lemma {:induction false} TrimNodeLookup(m: Model, at: seq<string>, n: Node, stmts: seq<Stmt>, v: string, x: seq<Id>)
    requires WellKeyed(m) && FitNode(m, at, n) && Proper(m, at, stmts, v) && x != [] && x[0] == IdOf(m, at, n)
    requires n.Element?
    ensures var h := TrimOne(n, stmts, v);
      (if h == [] then None else Lookup(m, at, h, x)) == Trimmed(m, at, [n], stmts, v, x)
    decreases |stmts|, n
  {
    assert stmts != [];
    hide FitKids, FitNode, IdOf, TrimKids, Proper, ValueOf, SeekId, Lookup;
    SameNames(x, stmts);
    IdHasName(m, at, n);
    if Named(n, stmts[0].name) {
      if |stmts| == 1 {
        LeafTrim(m, at, n, stmts, v, x);
      } else {
        var r := n.(kids := TrimKids(n.kids, stmts[1..], v));
        TrimNodeFits(m, at, n, stmts, v);
        ProperTail(m, at, stmts, v);
        LookupOne(m, at, n, x);
        LookupOne(m, at, r, x);
        if |x| > 1 {
          TrimLookup(m, at + [n.name], n.kids, stmts[1..], v, x[1..]);
        }
      }
    }
  }

  lemma IdHasName(m: Model, at: seq<string>, n: Node)
    requires n.Element?
    ensures IdOf(m, at, n).name == n.name
  {
  }

  /** A default is filled in below the first root of its name only; what is created goes
      behind all other roots. */
  lemma OnlyFirstRootFilled(tag: bool, f: seq<Node>, stmts: seq<Stmt>, v: string, i: nat)
    requires stmts != [] && FirstRoot(f, stmts[0].name) != Some(i) && i < |f|
    ensures |FillTop(tag, f, stmts, v)| >= |f| && FillTop(tag, f, stmts, v)[i] == f[i]
  {
    hide FillNode;
    if FirstRoot(f, stmts[0].name).None? {
      assert forall j :: 0 <= j < |f| ==> !Named(f[j], stmts[0].name);
    }
  }

  lemma OnlyFirstRootTrimmed(f: seq<Node>, stmts: seq<Stmt>, v: string, i: nat)
    requires stmts != [] && FirstRoot(f, stmts[0].name) != Some(i) && i < |f|
    ensures f[i] in TrimTop(f, stmts, v)
  {
    hide TrimOne, FirstRoot;
    var r := FirstRoot(f, stmts[0].name);
    if r.Some? {
      var left := TrimOne(f[r.value], stmts, v);
      StaysBeside(f, r.value, left, i);
    }
  }

  lemma StaysBeside(f: seq<Node>, r: nat, left: seq<Node>, i: nat)
    requires r < |f| && i < |f| && i != r
    ensures f[i] in f[..r] + left + f[r + 1..]
  {
    var t := f[..r] + left + f[r + 1..];
    assert t[if i < r then i else r + |left| + (i - r - 1)] == f[i];
  }

  /** What is filled in goes into the children of the name, or, if there are none, into one
      new child behind all others; everything else stays where it was. */
  lemma FilledGoesBehind(tag: bool, top: bool, kids: seq<Node>, stmts: seq<Stmt>, v: string)
    requires stmts != []
    ensures var r := FillKids(tag, top, kids, stmts, v);
      |kids| <= |r| <= |kids| + 1 &&
      (forall i :: 0 <= i < |kids| && !(kids[i].Element? && kids[i].name == stmts[0].name) ==> r[i] == kids[i]) &&
      (|r| > |kids| ==>
        r[|kids|].Element? && r[|kids|].name == stmts[0].name && r[|kids|].kids != [] &&
        forall i :: 0 <= i < |kids| ==> !(kids[i].Element? && kids[i].name == stmts[0].name))
  {
    hide FillNode;
    assert (exists i :: 0 <= i < |kids| && kids[i].Element? && kids[i].name == stmts[0].name) <==>
      exists i :: 0 <= i < |kids| && Named(kids[i], stmts[0].name);
  }

  /** An empty default is not filled in, and a leaf without content is not trimmed. */
  lemma EmptyDefault(n: Node, st: Stmt)
    requires n.Element? && n.kids == []
    ensures FillNode(false, n, [st], "") == n && TrimOne(n, [st], "") == [n] && TrimKids([n], [st], "") == [n]
  {
    assert [n][1..] == [] && TrimKids([], [st], "") == [];
  }
}
