/** Filling in and trimming defaults in place, one default statement after the other. */
module DefaultsInPlace {
  import opened Xml
  import opened Schema
  import opened Defaults
  import opened Trimming
  import opened WithDefaults

  datatype Mode = All | AllTagged | Trimmed | ExplicitMode | NotSet

  /** Where FillEach stands: the first i children are done. */
  lemma FillTurn(tag: bool, kids: seq<Node>, cur: seq<Node>, i: nat, stmts: seq<Stmt>, v: string)
    requires stmts != [] && i < |kids| == |cur|
    requires cur[..i] == FillEach(tag, kids, stmts, v)[..i] && cur[i..] == kids[i..]
    ensures cur[i] == kids[i]
    ensures var n := if Named(kids[i], stmts[0].name) then FillNode(tag, kids[i], stmts, v) else kids[i];
      cur[i := n][..i + 1] == FillEach(tag, kids, stmts, v)[..i + 1] && cur[i := n][i + 1..] == kids[i + 1..]
  {
    hide FillEach, FillNode;
    assert cur[i] == cur[i..][0] == kids[i..][0];
    assert cur[i + 1..] == cur[i..][1..] == kids[i..][1..] == kids[i + 1..];
    var r := FillEach(tag, kids, stmts, v);
    var n := if Named(kids[i], stmts[0].name) then FillNode(tag, kids[i], stmts, v) else kids[i];
    assert r[..i + 1] == r[..i] + [n];
  }

  /** Fills in below, or at, the i-th node of the list at p. */
  method FillAt(doc: Document, p: Path, i: nat, tag: bool, stmts: seq<Stmt>, v: string)
    requires IsList(doc.roots, p) && i < |KidsAt(doc.roots, p)| && KidsAt(doc.roots, p)[i].Element? && stmts != []
    modifies doc
    ensures var kids := KidsAt(old(doc.roots), p);
      doc.roots == SetKids(old(doc.roots), p, kids[i := FillNode(tag, kids[i], stmts, v)])
    decreases |stmts|, 0
  {
    hide FillKids, SetKids, KidsAt, IsList;
    var f, kids := doc.roots, KidsAt(doc.roots, p);
    var n := kids[i];
    if |stmts| == 1 {
      var r := if n.kids == [] && v != "" then n.(kids := [Text(v)]) else n;
      if tag && Content(r) == v {
        r := r.(attrs := r.attrs[TAG := "true"]);
      }
      doc.Relink(p, kids[i := r]);
    } else {
      SetGet(f, p);
      assert kids[i := n] == kids && n.(kids := n.kids) == n;
      BelowUpdated(f, p, kids, i, n.kids, FillKids(tag, false, n.kids, stmts[1..], v));
      FillBelow(doc, p + [i], tag, stmts[1..], v);
    }
  }

  /** Fills in below the list at p: in every child of the name, or in a new one that is
      dropped again if nothing was filled in. */
  method FillBelow(doc: Document, p: Path, tag: bool, stmts: seq<Stmt>, v: string)
    requires IsList(doc.roots, p) && stmts != []
    modifies doc
    ensures doc.roots == SetKids(old(doc.roots), p, FillKids(tag, false, KidsAt(old(doc.roots), p), stmts, v))
    decreases |stmts|, 2
  {
    hide FillEach, FillNode, SetKids, KidsAt, IsList;
    var f, kids := doc.roots, KidsAt(doc.roots, p);
    ghost var cur := kids;
    SetGet(f, p);
    var found := false;
    var i: nat := 0;
    while i < |kids|
      invariant i <= |kids| == |cur| && IsList(f, p) && doc.roots == SetKids(f, p, cur)
      invariant cur[..i] == FillEach(tag, kids, stmts, v)[..i] && cur[i..] == kids[i..]
      invariant found <==> exists j :: 0 <= j < i && Named(kids[j], stmts[0].name)
    {
      FillTurn(tag, kids, cur, i, stmts, v);
      if Named(kids[i], stmts[0].name) {
        found := true;
        ghost var n := FillNode(tag, kids[i], stmts, v);
        SetThenGet(f, p, cur);
        SetThenSet(f, p, cur, cur[i := n]);
        FillAt(doc, p, i, tag, stmts, v);
        cur := cur[i := n];
      } else {
        assert cur[i := kids[i]] == cur;
      }
      i := i + 1;
    }
    assert cur[..i] == cur && FillEach(tag, kids, stmts, v)[..i] == FillEach(tag, kids, stmts, v);
    assert found <==> HasNamed(kids, stmts[0].name);
    if !found {
      NoneNamed(tag, kids, stmts, v);
      SetThenGet(f, p, kids);
      if MayCreate(false, stmts[0]) {
        FillNew(doc, p, tag, stmts, v);
        SetThenSet(f, p, kids, kids);
      }
    }
  }

  lemma NoneNamed(tag: bool, kids: seq<Node>, stmts: seq<Stmt>, v: string)
    requires stmts != [] && !HasNamed(kids, stmts[0].name)
    ensures FillEach(tag, kids, stmts, v) == kids
  {
    forall i | 0 <= i < |kids|
      ensures FillEach(tag, kids, stmts, v)[i] == kids[i]
    {
      assert !Named(kids[i], stmts[0].name);
    }
  }

  /** Appends an element, fills in below it, and drops it again if it stayed empty. */
  method FillNew(doc: Document, p: Path, tag: bool, stmts: seq<Stmt>, v: string)
    requires IsList(doc.roots, p) && stmts != []
    modifies doc
    ensures var kids := KidsAt(old(doc.roots), p); var n := FillNode(tag, Element(stmts[0].name, map[], []), stmts, v);
      doc.roots == SetKids(old(doc.roots), p, if n.kids == [] then kids else kids + [n])
    decreases |stmts|, 1
  {
    hide FillNode, SetKids, KidsAt, IsList;
    ghost var f := doc.roots;
    var kids := KidsAt(doc.roots, p);
    var bare := Element(stmts[0].name, map[], []);
    ghost var n := FillNode(tag, bare, stmts, v);
    var at := |kids|;
    doc.AddChild(p, bare);
    SetThenGet(f, p, kids + [bare]);
    SetThenSet(f, p, kids + [bare], kids + [n]);
    assert (kids + [bare])[at := n] == kids + [n];
    FillAt(doc, p, at, tag, stmts, v);
    SetThenGet(f, p, kids + [n]);
    if KidsAt(doc.roots, p)[at].kids == [] {
      assert Without(kids + [n], at) == kids;
      SetThenSet(f, p, kids + [n], kids);
      doc.Unlink(p, at);
    }
  }

  /** Where trimming a list stands: cur is done up to c, and the o-th child of the original
      list is next. */
  lemma TrimTurn(kids: seq<Node>, cur: seq<Node>, c: nat, o: nat, stmts: seq<Stmt>, v: string)
    requires stmts != [] && c <= |cur| && o < |kids| && cur[c..] == kids[o..]
    requires TrimKids(kids, stmts, v) == cur[..c] + TrimKids(kids[o..], stmts, v)
    ensures c < |cur| && cur[c] == kids[o]
    ensures var left := TrimOne(kids[o], stmts, v);
      var next, d := cur[..c] + left + cur[c + 1..], c + |left|;
      d <= |next| && next[d..] == kids[o + 1..] &&
        TrimKids(kids, stmts, v) == next[..d] + TrimKids(kids[o + 1..], stmts, v)
  {
    hide TrimOne, TrimKids;
    assert |cur[c..]| > 0;
    assert cur[c] == cur[c..][0] == kids[o..][0];
    assert cur[c + 1..] == cur[c..][1..] == kids[o..][1..] == kids[o + 1..];
    TrimHead(kids[o..], stmts, v);
    var left, rest := TrimOne(kids[o], stmts, v), TrimKids(kids[o + 1..], stmts, v);
    var next := cur[..c] + left + cur[c + 1..];
    assert next[..c + |left|] == cur[..c] + left;
    assert cur[..c] + (left + rest) == (cur[..c] + left) + rest;
  }

  lemma TrimSame(cur: seq<Node>, c: nat, n: Node)
    requires c < |cur|
    ensures cur[..c] + [n] + cur[c + 1..] == cur[c := n]
    ensures cur[..c] + [] + cur[c + 1..] == Without(cur, c)
    ensures cur[c := cur[c]] == cur
  {
  }

  /** Trims below the list at p. */
  method TrimBelow(doc: Document, p: Path, stmts: seq<Stmt>, v: string)
    requires IsList(doc.roots, p) && stmts != []
    modifies doc
    ensures doc.roots == SetKids(old(doc.roots), p, TrimKids(KidsAt(old(doc.roots), p), stmts, v))
    decreases |stmts|
  {
    hide TrimKids, SetKids, KidsAt, IsList;
    var f, kids := doc.roots, KidsAt(doc.roots, p);
    ghost var cur := kids;
    SetGet(f, p);
    var c: nat, o: nat := 0, 0;
    assert kids[0..] == kids && kids[..0] == [] && [] + TrimKids(kids, stmts, v) == TrimKids(kids, stmts, v);
    while o < |kids|
      invariant c <= |cur| && o <= |kids| && cur[c..] == kids[o..]
      invariant IsList(f, p) && doc.roots == SetKids(f, p, cur)
      invariant TrimKids(kids, stmts, v) == cur[..c] + TrimKids(kids[o..], stmts, v)
    {
      TrimTurn(kids, cur, c, o, stmts, v);
      SetThenGet(f, p, cur);
      ghost var left := TrimOne(kids[o], stmts, v);
      ghost var next := cur[..c] + left + cur[c + 1..];
      SetThenSet(f, p, cur, next);
      var n := kids[o];
      TrimSame(cur, c, if left == [] then n else left[0]);
      var gone := false;
      if Named(n, stmts[0].name) {
        if |stmts| > 1 {
          SetGet(SetKids(f, p, cur), p);
          BelowUpdated(f, p, cur, c, n.kids, TrimKids(n.kids, stmts[1..], v));
          assert cur[c := n.(kids := n.kids)] == cur;
          TrimBelow(doc, p + [c], stmts[1..], v);
        } else if n.kids != [] && Content(n) == v {
          doc.Unlink(p, c);
          gone := true;
        }
      }
      cur := next;
      if !gone {
        c := c + 1;
      }
      o := o + 1;
    }
    TrimHead([], stmts, v);
    assert kids[o..] == [] && cur[c..] == [];
    assert cur[..c] == cur && cur[..c] + [] == cur[..c];
  }

  /** The first root of a name; past the end if there is none. */
  method SeekRoot(doc: Document, name: string) returns (i: nat)
    ensures i == match FirstRoot(doc.roots, name) case Some(j) => j case None => |doc.roots|
  {
    i := 0;
    assert doc.roots[0..] == doc.roots;
    while i < |doc.roots|
      invariant i <= |doc.roots|
      invariant forall j :: 0 <= j < i ==> !Named(doc.roots[j], name)
    {
      if Named(doc.roots[i], name) {
        return;
      }
      i := i + 1;
    }
  }

  /** Fills in below the first root of the name, or below a new one, whatever it is. */
  method FillRoot(doc: Document, tag: bool, stmts: seq<Stmt>, v: string)
    requires stmts != []
    modifies doc
    ensures doc.roots == FillTop(tag, old(doc.roots), stmts, v)
  {
    hide FillNode;
    var i := SeekRoot(doc, stmts[0].name);
    if i < |doc.roots| {
      FillAt(doc, [], i, tag, stmts, v);
    } else {
      assert !HasNamed(doc.roots, stmts[0].name);
      FillNew(doc, [], tag, stmts, v);
    }
  }

  /** Trims in the first root of the name. */
  method TrimRoot(doc: Document, stmts: seq<Stmt>, v: string)
    requires stmts != []
    modifies doc
    ensures doc.roots == TrimTop(old(doc.roots), stmts, v)
  {
    hide TrimKids;
    var i := SeekRoot(doc, stmts[0].name);
    if i < |doc.roots| {
      var n := doc.roots[i];
      TrimSame(doc.roots, i, n.(kids := if |stmts| > 1 then TrimKids(n.kids, stmts[1..], v) else n.kids));
      TrimSame(doc.roots, i, n);
      if |stmts| > 1 {
        assert [i][1..] == [];
        TrimBelow(doc, [i], stmts[1..], v);
      } else if n.kids != [] && Content(n) == v {
        doc.Unlink([], i);
      }
    }
  }

  /** Applies a with-defaults mode to a whole document. */
  method DefaultValues(m: Model, mode: Mode, doc: Document)
    modifies doc
    ensures doc.roots ==
      match mode
      case All => ReportAll(m, old(doc.roots))
      case AllTagged => ReportTagged(m, old(doc.roots))
      case Trimmed => Trim(m, old(doc.roots))
      case _ => old(doc.roots)
  {
    hide FillTop, TrimTop, DefaultsOf;
    if mode == NotSet || mode == ExplicitMode {
      return;
    }
    var ds := DefaultsOf(m);
    assert ds[0..] == ds;
    var i := 0;
    while i < |ds|
      invariant 0 <= i <= |ds|
      invariant mode == All || mode == AllTagged ==>
        FillAll(mode == AllTagged, doc.roots, ds[i..]) == FillAll(mode == AllTagged, old(doc.roots), ds)
      invariant mode == Trimmed ==> TrimAll(doc.roots, ds[i..]) == TrimAll(old(doc.roots), ds)
    {
      assert ds[i..][0] == ds[i] && ds[i..][1..] == ds[i + 1..];
      if ds[i].stmts != [] {
        if mode == Trimmed {
          TrimRoot(doc, ds[i].stmts, ds[i].value);
        } else {
          FillRoot(doc, mode == AllTagged, ds[i].stmts, ds[i].value);
        }
      }
      i := i + 1;
    }
    assert ds[i..] == [];
  }
}
