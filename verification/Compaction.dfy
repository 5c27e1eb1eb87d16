/** Compaction of an edit: operation attributes that repeat what a node inherits are
    dropped before the operations are performed. */
module Compaction {
  import opened Xml
  import opened Operation

  /** The operation in force at a node: its own, or else the inherited one. */
  function InForce(n: Node, inherited: Op): Op {
    if OwnOp(n) == NotSet then inherited else OwnOp(n)
  }

  function Dropped(n: Node, inherited: Op): Node {
    if OwnOp(n) == inherited then StripOp(n) else n
  }

  /** A node compacted below an inherited operation; false at the first unknown one. */
  function CompactNode(n: Node, inherited: Op): (bool, Node) {
    match n
    case Text(_) => (true, n)
    case Element(_, _, kids) =>
      if OwnOp(n) == BadOp then (false, n)
      else
        var (ok, ks) := CompactKids(kids, InForce(n, inherited));
        (ok, Dropped(n, inherited).(kids := ks))
  }

  function CompactKids(kids: seq<Node>, inherited: Op): (r: (bool, seq<Node>))
    ensures |r.1| == |kids|
  {
    if kids == [] then (true, [])
    else
      var (ok, n) := CompactNode(kids[0], inherited);
      if !ok then (false, [n] + kids[1..])
      else
        var (ok2, rest) := CompactKids(kids[1..], inherited);
        (ok2, [n] + rest)
  }

  /** The default operation is merge unless the request says otherwise, and each default
      operation stands for the operation of its name. */
  lemma DefaultsMean(f: seq<Node>, q: Path)
    requires IsNode(f, q) && forall p :: IsNode(f, p) ==> OwnOp(NodeAt(f, p)) == NotSet
    ensures Effective(f, q, Meaning(DefNotSet)) == MergeOp == Effective(f, q, Meaning(DefMerge))
    ensures Effective(f, q, Meaning(DefReplace)) == ReplaceOp && Effective(f, q, Meaning(DefNone)) == NoneOp
  {
    NothingInForce(f, q, MergeOp);
    NothingInForce(f, q, ReplaceOp);
    NothingInForce(f, q, NoneOp);
  }

  lemma {:induction false} NothingInForce(f: seq<Node>, q: Path, default: Op)
    requires IsNode(f, q) && forall p :: IsNode(f, p) ==> OwnOp(NodeAt(f, p)) == NotSet
    ensures Effective(f, q, default) == default
    decreases q
  {
    assert IsNode(f, [q[0]]) && NodeAt(f, [q[0]]) == f[q[0]];
    if |q| > 1 {
      var kids := f[q[0]].kids;
      forall p | IsNode(kids, p)
        ensures OwnOp(NodeAt(kids, p)) == NotSet
      {
        assert ([q[0]] + p)[1..] == p;
        assert IsNode(f, [q[0]] + p) && NodeAt(f, [q[0]] + p) == NodeAt(kids, p);
      }
      NothingInForce(kids, q[1..], default);
    }
  }

  // ---- in place

  lemma CompactHead(kids: seq<Node>, op: Op)
    requires kids != []
    ensures var (ok, n) := CompactNode(kids[0], op); var (ok2, rest) := CompactKids(kids[1..], op);
      CompactKids(kids, op) == if ok then (ok2, [n] + rest) else (false, [n] + kids[1..])
  {
  }

  /** One turn of the loop over children. */
  lemma CompactStep(kids: seq<Node>, op: Op, cur: seq<Node>, c: nat)
    requires |cur| == |kids| && c < |kids| && cur[c..] == kids[c..]
    requires CompactKids(kids, op) == (CompactKids(cur[c..], op).0, cur[..c] + CompactKids(cur[c..], op).1)
    ensures cur[c] == kids[c]
    ensures var (ok, n) := CompactNode(cur[c], op);
      var next := cur[c := n];
      next[c + 1..] == kids[c + 1..] &&
      CompactKids(kids, op) ==
        if ok then (CompactKids(next[c + 1..], op).0, next[..c + 1] + CompactKids(next[c + 1..], op).1)
        else (false, next)
  {
    hide CompactNode, CompactKids;
    var (ok, n) := CompactNode(cur[c], op);
    var next := cur[c := n];
    assert cur[c] == cur[c..][0] == kids[c..][0];
    assert cur[c..][1..] == cur[c + 1..] == kids[c..][1..] == kids[c + 1..] == next[c + 1..];
    assert next[..c + 1] == cur[..c] + [n];
    CompactHead(cur[c..], op);
    var rest := CompactKids(cur[c + 1..], op).1;
    assert cur[..c] + ([n] + rest) == (cur[..c] + [n]) + rest;
    assert cur[..c] + ([n] + cur[c + 1..]) == next;
  }

  lemma CompactNothing(op: Op)
    ensures CompactKids([], op) == (true, [])
  {
  }

  /** Compacts the i-th node of the list at p. */
  method CompactRecursively(doc: Document, p: Path, i: nat, inherited: Op) returns (ok: bool)
    requires IsList(doc.roots, p) && i < |KidsAt(doc.roots, p)|
    modifies doc
    ensures var (k, n) := CompactNode(KidsAt(old(doc.roots), p)[i], inherited);
      ok == k && doc.roots == SetKids(old(doc.roots), p, KidsAt(old(doc.roots), p)[i := n])
    decreases NodeSize(KidsAt(doc.roots, p)[i])
  {
    hide CompactKids, SetKids, KidsAt, IsList, NodeSize;
    var f := doc.roots;
    var kids := KidsAt(f, p);
    var n := kids[i];
    var op := OwnOp(n);
    assert SetKids(f, p, kids[i := n]) == f by {
      SetGet(f, p);
      assert kids[i := n] == kids;
    }
    if op == BadOp {
      return false;
    }
    if n.Text? {
      return true;
    }
    ghost var d := Dropped(n, inherited);
    if op == NotSet {
      assert n.attrs - {OPERATION} == n.attrs;
      op := inherited;
    } else if op == inherited {
      doc.Relink(p, kids[i := StripOp(n)]);
    }
    var c: nat := 0;
    ghost var cur, ks := n.kids, kids[i := d];
    assert n.kids[0..] == n.kids && n.kids[..0] == [] && d.(kids := cur) == d;
    assert [] + CompactKids(n.kids, op).1 == CompactKids(n.kids, op).1;
    assert ks[i := d] == ks;
    ok := true;
    while ok && c < |n.kids|
      invariant c <= |n.kids| == |cur|
      invariant IsList(f, p)
      invariant doc.roots == SetKids(f, p, ks[i := d.(kids := cur)])
      invariant ok ==> cur[c..] == n.kids[c..]
      invariant CompactKids(n.kids, op) ==
        if ok then (CompactKids(cur[c..], op).0, cur[..c] + CompactKids(cur[c..], op).1) else (false, cur)
    {
      CompactStep(n.kids, op, cur, c);
      ghost var k := CompactNode(cur[c], op).1;
      BelowUpdated(f, p, ks, i, cur, cur[c := k]);
      KidSmaller(n, c, cur[c]);
      ok := CompactRecursively(doc, p + [i], c, op);
      cur := cur[c := k];
      c := c + 1;
    }
    if ok {
      assert cur[c..] == [] && cur[..c] + [] == cur;
      CompactNothing(op);
    }
    assert ks[i := d.(kids := cur)] == kids[i := d.(kids := cur)];
  }

  /** Compacts a whole edit, root by root, starting from the default operation. */
  method CompactEditOperations(edit: Document, d: DefOp) returns (ok: bool)
    modifies edit
    ensures (ok, edit.roots) == CompactKids(old(edit.roots), Cast(d))
  {
    hide CompactKids;
    ghost var f := edit.roots;
    var op := Cast(d);
    var c: nat := 0;
    ok := true;
    assert f[0..] == f && f[..0] == [] && [] + CompactKids(f, op).1 == CompactKids(f, op).1;
    while ok && c < |edit.roots|
      invariant c <= |edit.roots| == |f|
      invariant ok ==> edit.roots[c..] == f[c..]
      invariant CompactKids(f, op) ==
        if ok
        then (CompactKids(edit.roots[c..], op).0, edit.roots[..c] + CompactKids(edit.roots[c..], op).1)
        else (false, edit.roots)
      decreases |f| - c
    {
      CompactStep(f, op, edit.roots, c);
      ghost var cur := edit.roots;
      if edit.roots[c].Element? {
        ok := CompactRecursively(edit, [], c, op);
      } else {
        assert cur[c := cur[c]] == cur;
      }
      c := c + 1;
    }
    if ok {
      assert edit.roots[c..] == [] && edit.roots[..c] + [] == edit.roots;
      CompactNothing(op);
    }
  }

  // ---- meaning

  /** The operation that applies to the node at q: the nearest one on the node or an
      ancestor, else the default. */
  function Effective(f: seq<Node>, q: Path, default: Op): Op
    requires IsNode(f, q)
    decreases q
  {
    var op := InForce(f[q[0]], default);
    if |q| == 1 then op else Effective(f[q[0]].kids, q[1..], op)
  }

  /** Compaction works node by node. */
  lemma {:induction false} CompactAt(f: seq<Node>, inherited: Op, i: nat)
    requires CompactKids(f, inherited).0 && i < |f|
    ensures CompactNode(f[i], inherited).0
    ensures CompactKids(f, inherited).1[i] == CompactNode(f[i], inherited).1
    decreases f
  {
    hide CompactNode;
    if i > 0 {
      CompactAt(f[1..], inherited, i - 1);
    }
  }

  /** Below an operation that stands for itself, or none yet, compaction changes the
      operation that applies to no node. */
  lemma {:induction false} EffectiveKept(f: seq<Node>, q: Path, inherited: Op, default: Op)
    requires inherited == NotSet || inherited == default
    requires CompactKids(f, inherited).0 && IsNode(f, q)
    ensures IsNode(CompactKids(f, inherited).1, q)
    ensures Effective(CompactKids(f, inherited).1, q, default) == Effective(f, q, default)
    decreases q
  {
    hide CompactKids;
    CompactAt(f, inherited, q[0]);
    if |q| > 1 {
      EffectiveKept(f[q[0]].kids, q[1..], InForce(f[q[0]], inherited), InForce(f[q[0]], default));
    }
  }

  /** Compaction preserves meaning unless the default operation is "none". */
  lemma CompactionKeepsMeaning(f: seq<Node>, d: DefOp, q: Path)
    requires d != DefNone && CompactKids(f, Cast(d)).0
    ensures IsNode(f, q) ==> IsNode(CompactKids(f, Cast(d)).1, q)
    ensures IsNode(f, q) ==>
      Effective(CompactKids(f, Cast(d)).1, q, Meaning(d)) == Effective(f, q, Meaning(d))
  {
    if IsNode(f, q) {
      EffectiveKept(f, q, Cast(d), Meaning(d));
    }
  }

  /** No explicit create without an operation above it. */
  predicate NoOutermostCreate(f: seq<Node>) {
    forall i :: 0 <= i < |f| ==>
      OwnOp(f[i]) != CreateOp && (f[i].Element? && OwnOp(f[i]) == NotSet ==> NoOutermostCreate(f[i].kids))
  }

  ghost predicate SameEffect(f: seq<Node>, g: seq<Node>, default: Op) {
    forall q :: IsNode(f, q) ==> IsNode(g, q) && Effective(g, q, default) == Effective(f, q, default)
  }

  lemma {:induction false} UnderNone(f: seq<Node>, q: Path)
    requires CompactKids(f, CreateOp).0 && NoOutermostCreate(f) && IsNode(f, q)
    ensures IsNode(CompactKids(f, CreateOp).1, q)
    ensures Effective(CompactKids(f, CreateOp).1, q, NoneOp) == Effective(f, q, NoneOp)
    decreases q
  {
    hide CompactKids;
    var n := f[q[0]];
    CompactAt(f, CreateOp, q[0]);
    if |q| > 1 {
      if OwnOp(n) == NotSet {
        UnderNone(n.kids, q[1..]);
      } else {
        EffectiveKept(n.kids, q[1..], OwnOp(n), OwnOp(n));
      }
    }
  }

  /** An outermost create loses its operation when the default is "none". */
  lemma {:induction false} OutermostCreateLost(f: seq<Node>) returns (q: Path)
    requires CompactKids(f, CreateOp).0 && !NoOutermostCreate(f)
    ensures IsNode(f, q) && Effective(f, q, NoneOp) == CreateOp
    ensures IsNode(CompactKids(f, CreateOp).1, q) ==> Effective(CompactKids(f, CreateOp).1, q, NoneOp) == NoneOp
    decreases f
  {
    hide CompactKids;
    var i :| 0 <= i < |f| &&
      !(OwnOp(f[i]) != CreateOp && (f[i].Element? && OwnOp(f[i]) == NotSet ==> NoOutermostCreate(f[i].kids)));
    CompactAt(f, CreateOp, i);
    if OwnOp(f[i]) == CreateOp {
      q := [i];
    } else {
      var r := OutermostCreateLost(f[i].kids);
      q := [i] + r;
      assert q[1..] == r;
    }
  }

  /** With default operation "none", compaction preserves meaning exactly when no create
      stands without an operation above it: "none" and "create" have the same number, so
      such a create looks inherited and is dropped. */
  lemma NoneDropsOutermostCreate(f: seq<Node>)
    requires CompactKids(f, Cast(DefNone)).0
    ensures SameEffect(f, CompactKids(f, Cast(DefNone)).1, Meaning(DefNone)) <==> NoOutermostCreate(f)
  {
    hide CompactKids;
    var g := CompactKids(f, CreateOp).1;
    if NoOutermostCreate(f) {
      forall q | IsNode(f, q)
        ensures IsNode(g, q) && Effective(g, q, NoneOp) == Effective(f, q, NoneOp)
      {
        UnderNone(f, q);
      }
    } else {
      var q := OutermostCreateLost(f);
    }
  }

  /** The shortest input: a root with operation create. */
  lemma CreateDroppedUnderNone(name: string)
    ensures var f := [Element(name, map[OPERATION := "create"], [])]; var g := CompactKids(f, Cast(DefNone)).1;
      Effective(f, [0], Meaning(DefNone)) == CreateOp &&
      CompactKids(f, Cast(DefNone)).0 && IsNode(g, [0]) && Effective(g, [0], Meaning(DefNone)) == NoneOp
  {
    var n := Element(name, map[OPERATION := "create"], []);
    assert CompactNode(n, CreateOp) == (true, StripOp(n));
    assert [n][1..] == [] && CompactKids([n], CreateOp) == (true, [StripOp(n)] + []);
  }

  /** No node repeats the operation it inherits. */
  predicate NoRepeats(f: seq<Node>, inherited: Op) {
    forall i :: 0 <= i < |f| && f[i].Element? ==>
      OwnOp(f[i]) != BadOp && (OwnOp(f[i]) == NotSet || OwnOp(f[i]) != inherited) &&
      NoRepeats(f[i].kids, InForce(f[i], inherited))
  }

  /** No node carries an operation that it would inherit anyway. */
  lemma {:induction false} CompactionLeavesNoRepeats(f: seq<Node>, inherited: Op)
    requires CompactKids(f, inherited).0
    ensures NoRepeats(CompactKids(f, inherited).1, inherited)
    decreases f
  {
    hide CompactKids;
    forall i | 0 <= i < |f| && CompactKids(f, inherited).1[i].Element?
      ensures var n := CompactKids(f, inherited).1[i];
        OwnOp(n) != BadOp && (OwnOp(n) == NotSet || OwnOp(n) != inherited) &&
        NoRepeats(n.kids, InForce(n, inherited))
    {
      CompactAt(f, inherited, i);
      CompactionLeavesNoRepeats(f[i].kids, InForce(f[i], inherited));
    }
  }

  lemma {:induction false} NoRepeatsIsCompact(f: seq<Node>, inherited: Op)
    requires NoRepeats(f, inherited)
    ensures CompactKids(f, inherited) == (true, f)
    decreases f
  {
    if f != [] {
      NoRepeatsIsCompact(f[1..], inherited);
      assert [f[0]] + f[1..] == f;
      if f[0].Element? {
        NoRepeatsIsCompact(f[0].kids, InForce(f[0], inherited));
        assert StripOp(f[0]) == f[0] || OwnOp(f[0]) != inherited;
      }
    }
  }

  /** Compacting again changes nothing. */
  lemma CompactionIsIdempotent(f: seq<Node>, inherited: Op)
    requires CompactKids(f, inherited).0
    ensures CompactKids(CompactKids(f, inherited).1, inherited) == (true, CompactKids(f, inherited).1)
  {
    CompactionLeavesNoRepeats(f, inherited);
    NoRepeatsIsCompact(CompactKids(f, inherited).1, inherited);
  }

  ghost predicate AllKnown(f: seq<Node>) {
    forall q :: IsNode(f, q) ==> OwnOp(NodeAt(f, q)) != BadOp
  }

  lemma {:induction false} KnownCompacts(f: seq<Node>, inherited: Op)
    requires AllKnown(f)
    ensures CompactKids(f, inherited).0
    decreases f
  {
    if f != [] {
      assert OwnOp(NodeAt(f, [0])) != BadOp;
      forall q | IsNode(f[1..], q)
        ensures OwnOp(NodeAt(f[1..], q)) != BadOp
      {
        var q2: Path := [q[0] + 1] + q[1..];
        assert q2[1..] == q[1..] && f[q2[0]] == f[1..][q[0]];
        assert IsNode(f, q2) && NodeAt(f, q2) == NodeAt(f[1..], q);
      }
      KnownCompacts(f[1..], inherited);
      if f[0].Element? {
        forall q | IsNode(f[0].kids, q)
          ensures OwnOp(NodeAt(f[0].kids, q)) != BadOp
        {
          var q2: Path := [0] + q;
          assert q2[1..] == q && IsNode(f, q2);
        }
        KnownCompacts(f[0].kids, InForce(f[0], inherited));
      }
    }
  }

  lemma {:induction false} CompactMeansKnown(f: seq<Node>, inherited: Op, q: Path)
    requires CompactKids(f, inherited).0 && IsNode(f, q)
    ensures OwnOp(NodeAt(f, q)) != BadOp
    decreases q
  {
    hide CompactKids;
    CompactAt(f, inherited, q[0]);
    if |q| > 1 {
      CompactMeansKnown(f[q[0]].kids, InForce(f[q[0]], inherited), q[1..]);
    }
  }

  /** Compaction fails exactly when some node has an unknown operation. */
  lemma CompactionFailsExactly(f: seq<Node>, inherited: Op)
    ensures CompactKids(f, inherited).0 <==> AllKnown(f)
  {
    hide CompactKids;
    if AllKnown(f) {
      KnownCompacts(f, inherited);
    }
    if CompactKids(f, inherited).0 {
      forall q | IsNode(f, q)
        ensures OwnOp(NodeAt(f, q)) != BadOp
      {
        CompactMeansKnown(f, inherited, q);
      }
    }
  }

  /** A forest with every operation attribute removed. */
  function Unmarked(f: seq<Node>): seq<Node> {
    if f == [] then [] else [UnmarkedNode(f[0])] + Unmarked(f[1..])
  }

  function UnmarkedNode(n: Node): Node {
    match n
    case Text(_) => n
    case Element(_, _, kids) => StripOp(n).(kids := Unmarked(kids))
  }

  /** Compaction touches nothing but operation attributes, even where it fails. */
  lemma {:induction false} CompactionTouchesOperationsOnly(f: seq<Node>, inherited: Op)
    ensures Unmarked(CompactKids(f, inherited).1) == Unmarked(f)
    decreases f
  {
    if f != [] {
      var (ok, n) := CompactNode(f[0], inherited);
      CompactionTouchesOperationsOnly(f[1..], inherited);
      if f[0].Element? {
        CompactionTouchesOperationsOnly(f[0].kids, InForce(f[0], inherited));
        assert UnmarkedNode(n) == UnmarkedNode(f[0]);
      }
      var rest := CompactKids(f[1..], inherited).1;
      assert ([n] + rest)[1..] == rest && ([n] + f[1..])[1..] == f[1..];
    }
  }
}
