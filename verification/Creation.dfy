/** Creating a node in the configuration, with the parents it lacks. */
module Creation {
  import opened Xml
  import opened Schema
  import opened Matching
  import opened Equivalents
  import opened Merge
  import opened Operation

  /** A copy of an element without attributes and children. */
  function Bare(n: Node): Node {
    Element(NameOf(n), map[], [])
  }

  lemma FindIsList(m: Model, f: seq<Node>, chain: seq<Node>)
    requires AllElements(chain) && FindEquiv(m, [], f, chain).Some?
    ensures IsList(f, FindEquiv(m, [], f, chain).value)
  {
    FindSnoc(m, [], f, chain, Text(""));
  }

  /** The document after the missing nodes of a chain have been created, and the path of
      the last one. At the top a new root takes the place of the first root. */
  function CreateParents(m: Model, f: seq<Node>, chain: seq<Node>): (r: (seq<Node>, Path))
    requires AllElements(chain)
    ensures IsList(r.0, r.1)
    decreases |chain|
  {
    match FindEquiv(m, [], f, chain)
    case Some(p) => FindIsList(m, f, chain); (f, p)
    case None =>
      var up, bare := chain[..|chain| - 1], Bare(chain[|chain| - 1]);
      if |chain| == 1 then (if f == [] then [bare] else f[0 := bare], [0])
      else
        var (g, p) := CreateParents(m, f, up);
        var kids := KidsAt(g, p);
        SetThenGet(g, p, kids + [bare]);
        ListSnoc(SetKids(g, p, kids + [bare]), p, |kids|);
        (SetKids(g, p, kids + [bare]), p + [|kids|])
  }

  /** A child list with a node added: its branch of a choice is made the only one. */
  function AddNode(m: Model, at: seq<string>, kids: seq<Node>, n: Node): seq<Node> {
    (if n.Element? then ChoiceClean(m, at, kids, n.name) else kids) + [n]
  }

  /** The document after a node has been created below a chain of parents. */
  function CreateNode(m: Model, f: seq<Node>, parents: seq<Node>, n: Node): seq<Node>
    requires AllElements(parents)
  {
    var (g, p) := CreateParents(m, f, parents);
    SetKids(g, p, AddNode(m, Names(parents), KidsAt(g, p), StripOp(n)))
  }

  /** Finds the configuration node for the edit node at q, creating it and its parents
      where they are missing. */
  method EditCreateRecursively(m: Model, orig: Document, edit: seq<Node>, q: Path) returns (p: Path)
    requires IsNode(edit, q) && NodeAt(edit, q).Element?
    modifies orig
    ensures AllElements(Chain(edit, q)) && (orig.roots, p) == CreateParents(m, old(orig.roots), Chain(edit, q))
    ensures IsList(orig.roots, p)
    decreases |q|
  {
    ChainSnoc(edit, q);
    var chain := Chain(edit, q);
    assert chain[..|chain| - 1] == Chain(edit, Parent(q));
    var found := FindElementEquiv(m, orig.roots, edit, q);
    if found.Some? {
      FindIsList(m, orig.roots, chain);
      return found.value;
    }
    var bare := Bare(NodeAt(edit, q));
    if |q| == 1 {
      if orig.roots == [] {
        orig.roots := [bare];
      } else {
        orig.roots := orig.roots[0 := bare];
      }
      return [0];
    }
    NodeInParent(edit, q);
    var up := EditCreateRecursively(m, orig, edit, Parent(q));
    var kids := KidsAt(orig.roots, up);
    SetThenGet(orig.roots, up, kids + [bare]);
    ListSnoc(SetKids(orig.roots, up, kids + [bare]), up, |kids|);
    orig.AddChild(up, bare);
    return up + [|kids|];
  }

  /** Walks a child list and unlinks every child in another branch of the choice that a
      child called keep belongs to. */
  method EditChoiceClean(m: Model, at: seq<string>, orig: Document, p: Path, keep: string)
    requires IsList(orig.roots, p)
    modifies orig
    ensures orig.roots == SetKids(old(orig.roots), p, ChoiceClean(m, at, KidsAt(old(orig.roots), p), keep))
  {
    hide ChoiceClean, Rivals, SetKids;
    ghost var f := orig.roots;
    ghost var kids := KidsAt(f, p);
    SetGet(f, p);
    var i := 0;
    ghost var done := 0;
    assert kids[0..] == kids && kids[..0] == [];
    while i < |KidsAt(orig.roots, p)|
      invariant IsList(orig.roots, p) && 0 <= i <= |KidsAt(orig.roots, p)| && done <= |kids|
      invariant KidsAt(orig.roots, p)[i..] == kids[done..]
      invariant ChoiceClean(m, at, kids, keep) ==
        KidsAt(orig.roots, p)[..i] + ChoiceClean(m, at, kids[done..], keep)
      invariant orig.roots == SetKids(f, p, KidsAt(orig.roots, p))
      decreases |kids| - done
    {
      var now := KidsAt(orig.roots, p);
      CleanStep(m, at, kids, keep, done, now, i);
      if now[i].Element? && Rivals(m, at, keep, now[i].name) {
        SetThenSet(f, p, now, Without(now, i));
        SetThenGet(orig.roots, p, Without(now, i));
        orig.Unlink(p, i);
      } else {
        i := i + 1;
      }
      done := done + 1;
    }
    assert kids[done..] == [] && KidsAt(orig.roots, p)[..i] + [] == KidsAt(orig.roots, p);
    CleanNothing(m, at, keep);
  }

  lemma CleanNothing(m: Model, at: seq<string>, keep: string)
    ensures ChoiceClean(m, at, [], keep) == []
  {
  }

  lemma CleanStep(m: Model, at: seq<string>, kids: seq<Node>, keep: string, done: nat, now: seq<Node>, i: nat)
    requires i < |now| && done <= |kids| && now[i..] == kids[done..]
    ensures done < |kids| && now[i] == kids[done] && now[i + 1..] == kids[done + 1..]
    ensures Without(now, i)[..i] == now[..i] && Without(now, i)[i..] == kids[done + 1..]
    ensures now[..i] + ChoiceClean(m, at, kids[done..], keep) ==
      (if now[i].Element? && Rivals(m, at, keep, now[i].name) then Without(now, i)[..i] else now[..i + 1])
      + ChoiceClean(m, at, kids[done + 1..], keep)
  {
    assert now[i] == now[i..][0] == kids[done..][0];
    assert now[i + 1..] == now[i..][1..] == kids[done..][1..] == kids[done + 1..];
    var rest := ChoiceClean(m, at, kids[done + 1..], keep);
    assert now[..i] + ([now[i]] + rest) == now[..i + 1] + rest;
    assert [] + rest == rest;
  }

  /** An entry of a user-ordered list does not say where it goes: it goes last, as any
      other node does. Such a list is no part of a choice. */
  predicate AsksNoPlace(m: Model, names: seq<string>, n: Node)
    requires names != []
  {
    n.Element? && UserOrdered(m, names) ==> INSERT !in n.attrs && BranchOf(m, names).None?
  }

  /** Creates the edit node at q in the configuration and takes it out of the edit. */
  method EditCreate(m: Model, orig: Document, edit: Document, q: Path)
    requires orig != edit && IsNode(edit.roots, q)
    requires AsksNoPlace(m, Names(Chain(edit.roots, q)), NodeAt(edit.roots, q))
    modifies orig, edit
    ensures Parent(q) == [] || IsNode(old(edit.roots), Parent(q))
    ensures AllElements(Chain(old(edit.roots), Parent(q)))
    ensures orig.roots ==
      CreateNode(m, old(orig.roots), Chain(old(edit.roots), Parent(q)), NodeAt(old(edit.roots), q))
    ensures IsList(old(edit.roots), Parent(q)) && Last(q) < |KidsAt(old(edit.roots), Parent(q))|
    ensures edit.roots ==
      SetKids(old(edit.roots), Parent(q), Without(KidsAt(old(edit.roots), Parent(q)), Last(q)))
  {
    ChainSnoc(edit.roots, q);
    NodeInParent(edit.roots, q);
    var n := StripOp(NodeAt(edit.roots, q));
    var parents := Chain(edit.roots, Parent(q));
    var parent: Path := [];
    if |q| > 1 {
      parent := EditCreateRecursively(m, orig, edit.roots, Parent(q));
    }
    ghost var g := orig.roots;
    assert (g, parent) == CreateParents(m, old(orig.roots), parents);
    NamesSnoc(parents, NodeAt(edit.roots, q));
    if n.Element? && UserOrdered(m, Names(parents) + [n.name]) {
      NoBranchNoClean(m, Names(parents), KidsAt(g, parent), n.name);
    } else if n.Element? {
      EditChoiceClean(m, Names(parents), orig, parent, n.name);
      SetThenGet(g, parent, ChoiceClean(m, Names(parents), KidsAt(g, parent), n.name));
      SetThenSet(g, parent, ChoiceClean(m, Names(parents), KidsAt(g, parent), n.name),
        AddNode(m, Names(parents), KidsAt(g, parent), n));
    }
    orig.AddChild(parent, n);
    edit.Unlink(Parent(q), Last(q));
  }

  /** A missing ancestor is created without attributes and children: it replaces the first
      root, or goes behind what its parent, created or found, has. */
  lemma MissingIsBare(m: Model, f: seq<Node>, chain: seq<Node>)
    requires AllElements(chain) && FindEquiv(m, [], f, chain).None?
    ensures chain != []
    ensures var (g, p) := CreateParents(m, f, chain); var last := chain[|chain| - 1];
      IsNode(g, p) && NodeAt(g, p) == Element(last.name, map[], []) &&
      if |chain| == 1 then p == [0] && g == (if f == [] then [NodeAt(g, p)] else f[0 := NodeAt(g, p)])
      else
        var (up, q) := CreateParents(m, f, chain[..|chain| - 1]);
        p == q + [|KidsAt(up, q)|] && g == SetKids(up, q, KidsAt(up, q) + [NodeAt(g, p)])
  {
    hide FindEquiv, FirstMatch, SetKids, KidsAt, IsList, IsNode, NodeAt;
    NothingIsFound(m, f);
    var bare := Element(chain[|chain| - 1].name, map[], []);
    if |chain| == 1 {
      OneNode(bare, f);
    } else {
      var (up, q) := CreateParents(m, f, chain[..|chain| - 1]);
      var kids := KidsAt(up, q);
      SetThenGet(up, q, kids + [bare]);
      NodeSnoc(SetKids(up, q, kids + [bare]), q, |kids|);
    }
  }

  lemma NothingIsFound(m: Model, f: seq<Node>)
    ensures FindEquiv(m, [], f, []) == Some([])
  {
  }

  lemma OneNode(n: Node, f: seq<Node>)
    ensures IsNode([n], [0]) && NodeAt([n], [0]) == n
    ensures f != [] ==> IsNode(f[0 := n], [0]) && NodeAt(f[0 := n], [0]) == n
  {
  }

  /** The created node goes behind its siblings, without its operation and otherwise as in
      the edit; the siblings that are no rivals stay as they were. */
  lemma CreatedGoesLast(m: Model, f: seq<Node>, parents: seq<Node>, n: Node)
    requires AllElements(parents) && n.Element?
    ensures var (g, p) := CreateParents(m, f, parents); var h := CreateNode(m, f, parents, n);
      IsList(g, p) && IsList(h, p) && h == SetKids(g, p, KidsAt(h, p)) &&
      var before, after := KidsAt(g, p), KidsAt(h, p);
      after != [] && after[|after| - 1] == Element(n.name, n.attrs - {"operation"}, n.kids) &&
      (forall k :: k in before && k.Element? && !Rivals(m, Names(parents), n.name, k.name) ==>
        k in after[..|after| - 1]) &&
      ((forall k :: k in before && k.Element? ==> !Rivals(m, Names(parents), n.name, k.name)) ==>
        after[..|after| - 1] == before)
  {
    hide CreateParents, Rivals, SetKids, KidsAt, IsList;
    var (g, p) := CreateParents(m, f, parents);
    var clean := ChoiceClean(m, Names(parents), KidsAt(g, p), n.name);
    SetThenGet(g, p, clean + [StripOp(n)]);
    CleanKeepsOthers(m, Names(parents), KidsAt(g, p), n.name);
  }

  lemma {:induction false} CleanKeepsOthers(m: Model, at: seq<string>, kids: seq<Node>, keep: string)
    ensures forall k :: k in kids && !(k.Element? && Rivals(m, at, keep, k.name)) ==>
      k in ChoiceClean(m, at, kids, keep)
    ensures (forall k :: k in kids && k.Element? ==> !Rivals(m, at, keep, k.name)) ==>
      ChoiceClean(m, at, kids, keep) == kids
  {
    hide Rivals;
    if kids != [] {
      CleanKeepsOthers(m, at, kids[1..], keep);
      assert kids == [kids[0]] + kids[1..];
    }
  }
}
