/** Operation attributes stay out of the configuration. */
module OperationAttributes {
  import opened Xml
  import opened Schema
  import opened Instances
  import opened Equivalents
  import opened Merge
  import opened Operation
  import opened Deletion
  import opened Creation
  import opened Effects
  import opened Phases
  import opened EditSites
  import opened EditMerge
  import opened RootTexts

  lemma SubsetOpFree(kids: seq<Node>, ks: seq<Node>)
    requires OpFree(kids) && forall n :: n in ks ==> n in kids
    ensures OpFree(ks)
  {
    forall i | 0 <= i < |ks|
      ensures ks[i].Text? || (OPERATION !in ks[i].attrs && OpFree(ks[i].kids))
    {
      assert ks[i] in kids;
    }
  }

  lemma AppendOpFree(kids: seq<Node>, n: Node)
    requires OpFree(kids) && (n.Text? || (OPERATION !in n.attrs && OpFree(n.kids)))
    ensures OpFree(kids + [n])
  {
  }

  lemma {:induction false} KidsOpFree(f: seq<Node>, p: Path)
    requires OpFree(f) && IsList(f, p)
    ensures OpFree(KidsAt(f, p))
    decreases p
  {
    if p != [] {
      KidsOpFree(f[p[0]].kids, p[1..]);
    }
  }

  lemma {:induction false} SetOpFree(f: seq<Node>, p: Path, ks: seq<Node>)
    requires OpFree(f) && OpFree(ks) && IsList(f, p)
    ensures OpFree(SetKids(f, p, ks))
    decreases p
  {
    if p != [] {
      SetOpFree(f[p[0]].kids, p[1..], ks);
    }
  }

  lemma RemoveOpFree(f: seq<Node>, p: Path)
    requires OpFree(f) && IsNode(f, p)
    ensures OpFree(RemoveAt(f, p))
  {
    hide OpFree, SetKids, KidsAt, IsList;
    NodeInParent(f, p);
    KidsOpFree(f, Parent(p));
    SubsetOpFree(KidsAt(f, Parent(p)), Without(KidsAt(f, Parent(p)), Last(p)));
    SetOpFree(f, Parent(p), Without(KidsAt(f, Parent(p)), Last(p)));
  }

  lemma {:induction false} DeleteOpFree(m: Model, f: seq<Node>, chain: seq<Node>)
    requires OpFree(f) && chain != []
    ensures OpFree(DeleteAll(m, f, chain))
    decreases Size(f)
  {
    hide OpFree, FindEquiv, RemoveAt;
    var found := FindEquiv(m, [], f, chain);
    if found.Some? {
      RemoveOpFree(f, found.value);
      DeleteOpFree(m, RemoveAt(f, found.value), chain);
    }
  }

  lemma BareOpFree(n: Node)
    ensures Bare(n).Element? && OPERATION !in Bare(n).attrs && OpFree(Bare(n).kids) && OpFree([Bare(n)])
  {
  }

  lemma {:induction false} ParentsOpFree(m: Model, f: seq<Node>, chain: seq<Node>)
    requires OpFree(f) && AllElements(chain)
    ensures OpFree(CreateParents(m, f, chain).0)
    decreases |chain|
  {
    hide OpFree, FindEquiv, SetKids, KidsAt, IsList, Bare;
    if FindEquiv(m, [], f, chain).None? {
      FoundNothing(m, f, chain);
      var bare := Bare(chain[|chain| - 1]);
      BareOpFree(chain[|chain| - 1]);
      if |chain| == 1 {
        RootOpFree(f, bare);
      } else {
        var (g, p) := CreateParents(m, f, chain[..|chain| - 1]);
        ParentsOpFree(m, f, chain[..|chain| - 1]);
        KidsOpFree(g, p);
        AppendOpFree(KidsAt(g, p), bare);
        SetOpFree(g, p, KidsAt(g, p) + [bare]);
      }
    }
  }

  lemma FoundNothing(m: Model, f: seq<Node>, chain: seq<Node>)
    requires FindEquiv(m, [], f, chain).None?
    ensures chain != []
  {
  }

  lemma RootOpFree(f: seq<Node>, n: Node)
    requires OpFree(f) && OpFree([n])
    ensures f != [] ==> OpFree(f[0 := n])
  {
    assert [n][0] == n;
  }

  /** What is created carries no operation: its own is taken off. */
  lemma CreateOpFree(m: Model, f: seq<Node>, parents: seq<Node>, n: Node)
    requires OpFree(f) && AllElements(parents) && (n.Element? ==> OpFree(n.kids))
    ensures OpFree(CreateNode(m, f, parents, n))
  {
    hide OpFree, CreateParents, SetKids, KidsAt, IsList, ChoiceClean;
    var (g, p) := CreateParents(m, f, parents);
    ParentsOpFree(m, f, parents);
    KidsOpFree(g, p);
    var kids := KidsAt(g, p);
    var clean := if n.Element? then ChoiceClean(m, Names(parents), kids, n.name) else kids;
    SubsetOpFree(kids, clean);
    AppendOpFree(clean, StripOp(n));
    SetOpFree(g, p, clean + [StripOp(n)]);
  }

  lemma PerformOpFree(m: Model, f: seq<Node>, a: Act)
    requires OpFree(f) && AllElements(a.parents) && (a.node.Element? ==> OpFree(a.node.kids))
    ensures OpFree(Perform(m, f, a).1)
  {
    hide OpFree, FindEquiv, RemoveAt, DeleteAll, CreateNode;
    var chain := a.parents + [a.node];
    var found := FindEquiv(m, [], f, chain);
    if found.Some? {
      RemoveOpFree(f, found.value);
      CreateOpFree(m, RemoveAt(f, found.value), a.parents, a.node);
    }
    DeleteOpFree(m, f, chain);
    CreateOpFree(m, f, a.parents, a.node);
  }

  /** No run of operations brings an operation attribute into the configuration. */
  lemma {:induction false} RunOpFree(m: Model, f: seq<Node>, acts: seq<Act>)
    requires OpFree(f) && AllNamed(m, acts)
    requires forall i :: 0 <= i < |acts| ==> acts[i].node.Element? && OpFree(acts[i].node.kids)
    ensures OpFree(Run(m, f, acts).1)
    decreases |acts|
  {
    hide OpFree, Perform, Named;
    if acts != [] {
      NamedMeans(m, acts[0]);
      NamedRest(m, acts);
      PerformOpFree(m, f, acts[0]);
      RunOpFree(m, Perform(m, f, acts[0]).1, acts[1..]);
    }
  }

  lemma {:induction false} MergeOpFree(m: Model, at: seq<string>, kids: seq<Node>, edits: seq<Node>)
    requires OpFree(kids) && OpFree(edits)
    ensures OpFree(MergeKids(m, at, kids, edits))
    decreases edits, 2
  {
    hide OpFree, MergeKid;
    if edits != [] {
      OneOpFree(edits, 0);
      MergeKidOpFree(m, at, kids, edits[0]);
      SubsetOpFree(edits, edits[1..]);
      MergeOpFree(m, at, MergeKid(m, at, kids, edits[0]), edits[1..]);
    }
  }

  lemma OneOpFree(kids: seq<Node>, i: nat)
    requires OpFree(kids) && i < |kids|
    ensures kids[i].Text? || (OPERATION !in kids[i].attrs && OpFree(kids[i].kids))
  {
  }

  lemma {:induction false} MergeKidOpFree(m: Model, at: seq<string>, kids: seq<Node>, c: Node)
    requires OpFree(kids) && (c.Text? || (OPERATION !in c.attrs && OpFree(c.kids)))
    ensures OpFree(MergeKid(m, at, kids, c))
    decreases c, 1
  {
    hide OpFree, MergeKids, FirstMatch, ChoiceClean, IsLeafList, IsKeyAt;
    AppendOpFree(kids, c);
    match c
    case Text(_) => TextsOpFree(kids, c);
    case Element(name, _, _) =>
      var i := FirstMatch(m, c, kids, IsLeafList(m, at + [name]));
      var clean := ChoiceClean(m, at, kids, name);
      SubsetOpFree(kids, clean);
      AppendOpFree(clean, c);
      if i.Some? && kids[i.value].Element? {
        var o := kids[i.value];
        OneOpFree(kids, i.value);
        MergeOpFree(m, at + [o.name], o.kids, c.kids);
        UpdateOpFree(kids, i.value, MergeNode(m, at, o, c));
        var merged := kids[i.value := MergeNode(m, at, o, c)];
        SubsetOpFree(merged, ChoiceClean(m, at, merged, name));
      }
  }

  lemma UpdateOpFree(kids: seq<Node>, i: nat, n: Node)
    requires OpFree(kids) && i < |kids| && n.Element? && OPERATION !in n.attrs && OpFree(n.kids)
    ensures OpFree(kids[i := n])
  {
  }

  lemma TextsOpFree(kids: seq<Node>, t: Node)
    requires OpFree(kids) && t.Text?
    ensures OpFree(ReplaceTexts(kids, t))
  {
    hide ReplaceTexts;
  }

  lemma JoinsOpFree(m: Model, f: seq<Node>, es: seq<Node>)
    requires OpFree(es)
    ensures OpFree(JoinRoots(m, f, es))
  {
    hide OldText;
    forall i | 0 <= i < |es|
      ensures JoinRoots(m, f, es)[i].Text? ||
        (OPERATION !in JoinRoots(m, f, es)[i].attrs && OpFree(JoinRoots(m, f, es)[i].kids))
    {
      assert JoinRoots(m, f, es)[i] == JoinRoot(m, f, es[i]);
      OneOpFree(es, i);
      assert Clashes(m, f, es[i]) ==> es[i].Element?;
    }
  }

  /** Below the nodes that carry an operation no other is. */
  lemma {:induction false} SitesOpFree(m: Model, at: seq<string>, up: seq<Id>, kids: seq<Node>, op: Op)
    requires EditFine(m, at, kids) && Explicit(op)
    ensures forall s :: s in Sites(m, at, up, kids, op) ==> s.node.Element? && OpFree(s.node.kids)
    decreases kids
  {
    hide IdOf, Addressed, IsKeyAt, AsksNoPlace, OpFree;
    if kids != [] {
      assert kids == [kids[0]] + kids[1..];
      FineSplit(m, at, kids[0], kids[1..]);
      SitesOpFree(m, at, up, kids[1..], op);
      var n := kids[0];
      if n.Element? && !IsSite(n) {
        SitesOpFree(m, at + [n.name], up + [IdOf(m, at, n)], n.kids, op);
      }
    }
  }

  /** A performed edit leaves no operation attribute in the configuration: neither its
      operations nor the merge of the rest bring one in. */
  lemma EditOpFree(m: Model, f: seq<Node>, trace: seq<Act>, r: seq<Node>, sigs: seq<Sig>)
    requires OpFree(f) && AllNamed(m, trace) && OpFree(r)
    requires forall s :: s in sigs ==> s.node.Element? && OpFree(s.node.kids)
    requires forall s :: s in Sigs(m, trace) ==> s in sigs
    ensures var g := Run(m, f, trace).1;
      OpFree(g) && OpFree(MergeKids(m, [], g, JoinRoots(m, g, r)))
  {
    hide OpFree, Run, MergeKids, JoinRoots, Named;
    var g := Run(m, f, trace).1;
    forall i | 0 <= i < |trace|
      ensures trace[i].node.Element? && OpFree(trace[i].node.kids)
    {
      assert Sigs(m, trace)[i] in sigs && Sigs(m, trace)[i].node == trace[i].node;
    }
    RunOpFree(m, f, trace);
    JoinsOpFree(m, g, r);
    MergeOpFree(m, [], g, JoinRoots(m, g, r));
  }
}
