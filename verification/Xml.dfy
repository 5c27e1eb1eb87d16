/** Configuration documents: ordered trees of elements and text, and the class whose
    tree the edit engine updates in place.

    A position is a path of child indices. A list path names a child list (the empty
    path names the list of root nodes), so a node is a list path plus an index. */
module Xml {

  datatype Option<+T> = None | Some(value: T)

  datatype Node =
    | Element(name: string, attrs: map<string, string>, kids: seq<Node>)
    | Text(content: string)

  type Path = seq<nat>

  /** True if p names a child list of the forest f. */
  predicate IsList(f: seq<Node>, p: Path) {
    p == [] || (p[0] < |f| && f[p[0]].Element? && IsList(f[p[0]].kids, p[1..]))
  }

  /** True if p names a node of the forest f. */
  predicate IsNode(f: seq<Node>, p: Path) {
    p != [] && p[0] < |f| && (|p| == 1 || (f[p[0]].Element? && IsNode(f[p[0]].kids, p[1..])))
  }

  function Parent(p: Path): Path
    requires p != []
  {
    p[..|p| - 1]
  }

  function Last(p: Path): nat
    requires p != []
  {
    p[|p| - 1]
  }

  /** The child list named by p. */
  function KidsAt(f: seq<Node>, p: Path): seq<Node>
    requires IsList(f, p)
  {
    if p == [] then f else KidsAt(f[p[0]].kids, p[1..])
  }

  function NodeAt(f: seq<Node>, p: Path): Node
    requires IsNode(f, p)
  {
    if |p| == 1 then f[p[0]] else NodeAt(f[p[0]].kids, p[1..])
  }

  /** The forest f with the child list named by p replaced. */
  function SetKids(f: seq<Node>, p: Path, ks: seq<Node>): seq<Node>
    requires IsList(f, p)
  {
    if p == [] then ks
    else f[p[0] := f[p[0]].(kids := SetKids(f[p[0]].kids, p[1..], ks))]
  }

  /** All text below a node, in document order. */
  function Content(n: Node): string {
    match n
    case Text(s) => s
    case Element(_, _, kids) => ContentOf(kids)
  }

  function ContentOf(f: seq<Node>): string {
    if f == [] then "" else Content(f[0]) + ContentOf(f[1..])
  }

  /** The text of a node is its own, or that of its children one after the other. */
  lemma {:induction false} ContentInOrder(f: seq<Node>, g: seq<Node>, name: string, attrs: map<string, string>,
      t: string)
    ensures ContentOf(f + g) == ContentOf(f) + ContentOf(g)
    ensures ContentOf([Text(t)]) == t && Content(Element(name, attrs, f)) == ContentOf(f)
    decreases f
  {
    assert [Text(t)][1..] == [] && Content(Text(t)) == t;
    if f == [] {
      assert f + g == g;
    } else {
      assert (f + g)[1..] == f[1..] + g;
      ContentInOrder(f[1..], g, name, attrs, t);
    }
  }

  /** The number of nodes of a forest. */
  function Size(f: seq<Node>): nat {
    if f == [] then 0 else NodeSize(f[0]) + Size(f[1..])
  }

  function NodeSize(n: Node): (s: nat)
    ensures s > 0
  {
    match n
    case Text(_) => 1
    case Element(_, _, kids) => 1 + Size(kids)
  }

  function Without<T>(s: seq<T>, i: nat): seq<T>
    requires i < |s|
  {
    s[..i] + s[i + 1..]
  }

  function InsertAt<T>(s: seq<T>, i: nat, x: T): seq<T>
    requires i <= |s|
  {
    s[..i] + [x] + s[i..]
  }

  /** Stepping into the i-th child of a list goes to that child's own list. */
  lemma {:induction false} ListSnoc(f: seq<Node>, p: Path, i: nat)
    requires IsList(f, p)
    ensures IsList(f, p + [i]) <==> i < |KidsAt(f, p)| && KidsAt(f, p)[i].Element?
    ensures IsList(f, p + [i]) ==> KidsAt(f, p + [i]) == KidsAt(f, p)[i].kids
    decreases p
  {
    if p == [] {
      assert ([] + [i])[1..] == [];
    } else {
      assert (p + [i])[1..] == p[1..] + [i];
      ListSnoc(f[p[0]].kids, p[1..], i);
    }
  }

  /** A node is a list path plus an index. */
  lemma {:induction false} NodeSnoc(f: seq<Node>, p: Path, i: nat)
    ensures IsNode(f, p + [i]) <==> IsList(f, p) && i < |KidsAt(f, p)|
    ensures IsNode(f, p + [i]) ==> NodeAt(f, p + [i]) == KidsAt(f, p)[i]
    decreases p
  {
    if p == [] {
      assert [] + [i] == [i];
    } else {
      assert (p + [i])[1..] == p[1..] + [i];
      if p[0] < |f| && f[p[0]].Element? {
        NodeSnoc(f[p[0]].kids, p[1..], i);
      }
    }
  }

  /** A node other than a text owns the child list of its own path. */
  lemma {:induction false} NodeOwnsList(f: seq<Node>, p: Path)
    requires p != []
    ensures IsList(f, p) <==> IsNode(f, p) && NodeAt(f, p).Element?
    ensures IsList(f, p) ==> KidsAt(f, p) == NodeAt(f, p).kids
    decreases p
  {
    if |p| > 1 && p[0] < |f| && f[p[0]].Element? {
      NodeOwnsList(f[p[0]].kids, p[1..]);
    }
  }

  /** Above every node there is a list, and the node is one of its members. */
  lemma NodeInParent(f: seq<Node>, p: Path)
    requires IsNode(f, p)
    ensures IsList(f, Parent(p)) && Last(p) < |KidsAt(f, Parent(p))|
    ensures NodeAt(f, p) == KidsAt(f, Parent(p))[Last(p)]
    ensures Parent(p) != [] ==> IsNode(f, Parent(p)) && NodeAt(f, Parent(p)).Element?
  {
    assert p == Parent(p) + [Last(p)];
    NodeSnoc(f, Parent(p), Last(p));
    if Parent(p) != [] {
      NodeOwnsList(f, Parent(p));
    }
  }

  /** Reading back, overwriting, and writing through a parent list. */
  lemma {:induction false} SetThenGet(f: seq<Node>, p: Path, ks: seq<Node>)
    requires IsList(f, p)
    ensures IsList(SetKids(f, p, ks), p) && KidsAt(SetKids(f, p, ks), p) == ks
    decreases p
  {
    if p != [] {
      SetThenGet(f[p[0]].kids, p[1..], ks);
    }
  }

  lemma {:induction false} SetThenSet(f: seq<Node>, p: Path, ks: seq<Node>, ls: seq<Node>)
    requires IsList(f, p)
    ensures IsList(SetKids(f, p, ks), p) && SetKids(SetKids(f, p, ks), p, ls) == SetKids(f, p, ls)
    decreases p
  {
    SetThenGet(f, p, ks);
    if p != [] {
      SetThenSet(f[p[0]].kids, p[1..], ks, ls);
    }
  }

  lemma {:induction false} SetGet(f: seq<Node>, p: Path)
    requires IsList(f, p)
    ensures SetKids(f, p, KidsAt(f, p)) == f
    decreases p
  {
    if p != [] {
      SetGet(f[p[0]].kids, p[1..]);
    }
  }

  lemma {:induction false} SetSnoc(f: seq<Node>, p: Path, i: nat, ks: seq<Node>)
    requires IsList(f, p) && i < |KidsAt(f, p)| && KidsAt(f, p)[i].Element?
    ensures IsList(f, p + [i])
    ensures SetKids(f, p + [i], ks) == SetKids(f, p, KidsAt(f, p)[i := KidsAt(f, p)[i].(kids := ks)])
    decreases p
  {
    ListSnoc(f, p, i);
    if p == [] {
      assert ([] + [i])[1..] == [];
    } else {
      assert (p + [i])[1..] == p[1..] + [i];
      SetSnoc(f[p[0]].kids, p[1..], i, ks);
    }
  }

  lemma {:induction false} SizeConcat(f: seq<Node>, g: seq<Node>)
    ensures Size(f + g) == Size(f) + Size(g)
  {
    if f == [] {
      assert f + g == g;
    } else {
      assert (f + g)[1..] == f[1..] + g;
      SizeConcat(f[1..], g);
    }
  }

  lemma SizeUpdate(f: seq<Node>, i: nat, n: Node)
    requires i < |f|
    ensures Size(f[i := n]) == Size(f) - NodeSize(f[i]) + NodeSize(n)
    ensures Size(f) >= NodeSize(f[i])
  {
    assert f == f[..i] + ([f[i]] + f[i + 1..]);
    assert f[i := n] == f[..i] + ([n] + f[i + 1..]);
    SizeConcat(f[..i], [f[i]] + f[i + 1..]);
    SizeConcat(f[..i], [n] + f[i + 1..]);
  }

  /** Replacing a child list changes the size by the difference of the lists. */
  lemma {:induction false} SizeSetKids(f: seq<Node>, p: Path, ks: seq<Node>)
    requires IsList(f, p)
    ensures Size(SetKids(f, p, ks)) == Size(f) - Size(KidsAt(f, p)) + Size(ks)
    decreases p
  {
    if p != [] {
      var n := f[p[0]];
      SizeSetKids(n.kids, p[1..], ks);
      SizeUpdate(f, p[0], n.(kids := SetKids(n.kids, p[1..], ks)));
    }
  }

  lemma SizeWithout(f: seq<Node>, i: nat)
    requires i < |f|
    ensures Size(Without(f, i)) == Size(f) - NodeSize(f[i])
  {
    hide Size, NodeSize;
    var t := [f[i]] + f[i + 1..];
    assert f == f[..i] + t;
    SizeConcat(f[..i], t);
    SizeConcat(f[..i], f[i + 1..]);
    SizeCons(f[i], f[i + 1..]);
  }

  lemma SizeCons(n: Node, f: seq<Node>)
    ensures Size([n] + f) == NodeSize(n) + Size(f)
  {
    assert ([n] + f)[1..] == f;
  }

  /** Writing through the child list of a node just written. */
  lemma BelowUpdated(f: seq<Node>, p: Path, ks: seq<Node>, i: nat, cur: seq<Node>, new_: seq<Node>)
    requires IsList(f, p) && i < |ks| && ks[i].Element?
    ensures var g := SetKids(f, p, ks[i := ks[i].(kids := cur)]);
      IsList(g, p + [i]) && KidsAt(g, p + [i]) == cur &&
      SetKids(g, p + [i], new_) == SetKids(f, p, ks[i := ks[i].(kids := new_)])
  {
    var ls := ks[i := ks[i].(kids := cur)];
    var g := SetKids(f, p, ls);
    SetThenGet(f, p, ls);
    ListSnoc(g, p, i);
    SetSnoc(g, p, i, new_);
    SetThenSet(f, p, ls, ks[i := ks[i].(kids := new_)]);
    assert ls[i := ls[i].(kids := new_)] == ks[i := ks[i].(kids := new_)];
  }

  lemma KidSmaller(n: Node, c: nat, k: Node)
    requires n.Element? && c < |n.kids| && k == n.kids[c]
    ensures NodeSize(k) < NodeSize(n)
  {
    SizeUpdate(n.kids, c, k);
  }

  /** A child list with a text appended: adjacent texts are one. */
  function JoinText(kids: seq<Node>, text: Node): seq<Node>
    requires text.Text?
  {
    if kids != [] && kids[|kids| - 1].Text?
    then kids[..|kids| - 1] + [Text(kids[|kids| - 1].content + text.content)]
    else kids + [text]
  }

  /** A document whose tree is edited in place. */
  class Document {
    var roots: seq<Node>

    constructor (roots: seq<Node>)
      ensures this.roots == roots
    {
      this.roots := roots;
    }

    /** Appends a node to a child list. */
    method AddChild(p: Path, n: Node)
      requires IsList(roots, p)
      modifies this
      ensures roots == SetKids(old(roots), p, KidsAt(old(roots), p) + [n])
    {
      roots := SetKids(roots, p, KidsAt(roots, p) + [n]);
    }

    /** Appends a text to a child list; it joins a text that stands last. */
    method AddText(p: Path, text: Node)
      requires IsList(roots, p) && text.Text?
      modifies this
      ensures roots == SetKids(old(roots), p, JoinText(KidsAt(old(roots), p), text))
    {
      var kids := KidsAt(roots, p);
      if kids != [] && kids[|kids| - 1].Text? {
        roots := SetKids(roots, p, kids[..|kids| - 1] + [Text(kids[|kids| - 1].content + text.content)]);
      } else {
        roots := SetKids(roots, p, kids + [text]);
      }
    }

    /** Inserts a node before the i-th of a child list. */
    method InsertKid(p: Path, i: nat, n: Node)
      requires IsList(roots, p) && i <= |KidsAt(roots, p)|
      modifies this
      ensures roots == SetKids(old(roots), p, InsertAt(KidsAt(old(roots), p), i, n))
    {
      roots := SetKids(roots, p, InsertAt(KidsAt(roots, p), i, n));
    }

    /** Unlinks and frees the i-th node of a child list. */
    method Unlink(p: Path, i: nat)
      requires IsList(roots, p) && i < |KidsAt(roots, p)|
      modifies this
      ensures roots == SetKids(old(roots), p, Without(KidsAt(old(roots), p), i))
      ensures Size(roots) < Size(old(roots))
    {
      SizeSetKids(roots, p, Without(KidsAt(roots, p), i));
      SizeWithout(KidsAt(roots, p), i);
      roots := SetKids(roots, p, Without(KidsAt(roots, p), i));
    }

    /** Relinks a child list. */
    method Relink(p: Path, ks: seq<Node>)
      requires IsList(roots, p)
      modifies this
      ensures roots == SetKids(old(roots), p, ks)
    {
      roots := SetKids(roots, p, ks);
    }
  }
}
