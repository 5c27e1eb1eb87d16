/** Which children lie in different branches of one choice, in terms of the statements that
    define them. */
module Branches {
  import opened Xml
  import opened Schema
  import opened Equivalents
  import opened Instances
  import opened Merge
  import C = ChoiceCreation

  /** The statement at p lies below the choice at c, and below no other choice between. */
  predicate NearestChoice(kids: seq<Stmt>, c: Path, p: Path) {
    c != [] && |c| < |p| && p[..|c|] == c && IsStmt(kids, c) && StmtAt(kids, c).kind == Choice &&
    forall k :: |c| < k < |p| ==> IsStmt(kids, p[..k]) && StmtAt(kids, p[..k]).kind != Choice
  }

  /** The statements at p and q lie below the same choice, p in its i-th branch and q in its
      j-th. */
  predicate InBranches(kids: seq<Stmt>, c: Path, i: nat, j: nat, p: Path, q: Path) {
    NearestChoice(kids, c, p) && NearestChoice(kids, c, q) && p[|c|] == i && q[|c|] == j
  }

  /** The branch that a statement lies in is its part of the way behind the nearest choice. */
  lemma {:induction false} BranchExactly(kids: seq<Stmt>, p: Path)
    requires IsStmt(kids, p)
    ensures match BranchAbove(kids, p)
      case Some(b) => b != [] && |b| <= |p| && b == p[..|b|] && NearestChoice(kids, Parent(b), p)
      case None => forall c :: !NearestChoice(kids, c, p)
    decreases |p|
  {
    if |p| > 1 {
      UpIsStmt(kids, p);
      var up := Parent(p);
      if StmtAt(kids, up).kind.Choice? {
        assert p[..|p|] == p && p[..|up|] == up;
      } else {
        BranchExactly(kids, up);
        forall c
          ensures NearestChoice(kids, c, up) <==> NearestChoice(kids, c, p)
        {
          NearestUp(kids, c, p);
        }
        var b := BranchAbove(kids, up);
        assert b.Some? ==> up[..|b.value|] == p[..|b.value|];
      }
    }
  }

  lemma NearestUp(kids: seq<Stmt>, c: Path, p: Path)
    requires |p| > 1 && IsStmt(kids, Parent(p)) && StmtAt(kids, Parent(p)).kind != Choice
    ensures NearestChoice(kids, c, Parent(p)) <==> NearestChoice(kids, c, p)
  {
    var up := Parent(p);
    assert forall k :: 0 <= k < |p| ==> up[..k] == p[..k];
    assert p[..|up|] == up;
  }

  lemma OneNearest(kids: seq<Stmt>, c: Path, d: Path, p: Path)
    requires NearestChoice(kids, c, p) && NearestChoice(kids, d, p)
    ensures c == d
  {
    assert |c| == |d|;
  }

  /** Two children are rivals exactly if the statements that define them lie in different
      branches of one choice, with no further choice between it and them. */
  lemma RivalsExactly(m: Model, at: seq<string>, a: string, b: string, p: Path, q: Path)
    requires FindModel(m.top, at + [a]) == Some(p) && FindModel(m.top, at + [b]) == Some(q)
    ensures Rivals(m, at, a, b) <==> exists c, i, j :: i != j && InBranches(m.top, c, i, j, p, q)
  {
    hide NearestChoice;
    var top := m.top;
    BranchExactly(top, p);
    BranchExactly(top, q);
    var x, y := BranchAbove(top, p), BranchAbove(top, q);
    if Rivals(m, at, a, b) {
      var c := Parent(x.value);
      BranchSplit(p, x.value);
      BranchSplit(q, y.value);
      assert InBranches(top, c, Last(x.value), Last(y.value), p, q);
    }
    if exists c, i, j :: i != j && InBranches(top, c, i, j, p, q) {
      var c, i, j :| i != j && InBranches(top, c, i, j, p, q);
      OneNearest(top, c, Parent(x.value), p);
      OneNearest(top, c, Parent(y.value), q);
      BranchSplit(p, x.value);
      BranchSplit(q, y.value);
    }
  }

  lemma BranchSplit(p: Path, b: Path)
    requires b != [] && |b| <= |p| && b == p[..|b|]
    ensures b == Parent(b) + [Last(b)] && p[|Parent(b)|] == Last(b)
  {
  }

  /** What the model does not define is nobody's rival. */
  lemma UnknownHasNoRival(m: Model, at: seq<string>, a: string, b: string)
    requires FindModel(m.top, at + [a]).None?
    ensures !Rivals(m, at, a, b) && !Rivals(m, at, b, a)
  {
  }

  // ---- an input

  /** Below a container t there is a choice between a case with leaves x and y and a case
      with a leaf z. */
  predicate TwoCases(m: Model, t: string, x: string, y: string, z: string) {
    var cases := [Stmt(Case, "", [Stmt(Leaf(None), x, []), Stmt(Leaf(None), y, [])]),
                  Stmt(Case, "", [Stmt(Leaf(None), z, [])])];
    m.top == [Stmt(Container(false), t, [Stmt(Choice, "", cases)])] && x != y && x != z && y != z
  }

  lemma CasesFound(m: Model, t: string, x: string, y: string, z: string)
    requires TwoCases(m, t, x, y, z)
    ensures FindModel(m.top, [t, x]) == Some([0, 0, 0, 0]) && FindModel(m.top, [t, y]) == Some([0, 0, 0, 1])
    ensures FindModel(m.top, [t, z]) == Some([0, 0, 1, 0])
  {
    var c, ch := m.top[0], m.top[0].kids[0];
    var ca, cb := ch.kids[0], ch.kids[1];
    InCases(c, ch, ca, cb, x, y, z);
    hide FindStmt, StmtAt, IsStmt;
    C.TopFound(m, t);
    C.StmtOne(m.top, 0);
    C.FindOne(c.kids, [x]);
    C.FindOne(c.kids, [y]);
    C.FindOne(c.kids, [z]);
    C.FindDown(m.top, [t, x], [0, 0, 0]);
    C.FindDown(m.top, [t, y], [0, 0, 1]);
    C.FindDown(m.top, [t, z], [0, 1, 0]);
    assert [0] + [0, 0, 0] == [0, 0, 0, 0] && [0] + [0, 0, 1] == [0, 0, 0, 1] && [0] + [0, 1, 0] == [0, 0, 1, 0];
  }

  lemma InCases(c: Stmt, ch: Stmt, ca: Stmt, cb: Stmt, x: string, y: string, z: string)
    requires c.kids == [ch] && ch.kind.Choice? && ch.kids == [ca, cb] && x != y && x != z && y != z
    requires ca == Stmt(Case, "", [Stmt(Leaf(None), x, []), Stmt(Leaf(None), y, [])])
    requires cb == Stmt(Case, "", [Stmt(Leaf(None), z, [])])
    ensures FindStmt(c.kids, x) == Some([0, 0, 0]) && FindStmt(c.kids, y) == Some([0, 0, 1])
    ensures FindStmt(c.kids, z) == Some([0, 1, 0])
  {
    var a, b, d := ca.kids[0], ca.kids[1], cb.kids[0];
    assert ca.kids[1..] == [b] && [b][1..] == [] && cb.kids[1..] == [] && ch.kids[1..] == [cb];
    assert [0] + [] == [0] && [0][1..] == [] && [1] + [] == [1];
    assert forall n :: CompareStmt(a, n) == if n == x then Some([]) else None;
    assert forall n :: CompareStmt(b, n) == if n == y then Some([]) else None;
    assert forall n :: CompareStmt(d, n) == if n == z then Some([]) else None;
    assert FindStmt([b], y) == Some([0]) && FindStmt([b], z) == None && FindStmt([d], z) == Some([0]);
    assert FindStmt(ca.kids, x) == Some([0]) && FindStmt(ca.kids, y) == Some([1]) && FindStmt(ca.kids, z) == None;
    assert CompareStmt(ca, x) == Some([0]) && CompareStmt(ca, y) == Some([1]) && CompareStmt(ca, z) == None;
    assert cb.kids == [d] && CompareStmt(cb, z) == Some([0]);
    assert [0] + [0] == [0, 0] && [0] + [1] == [0, 1] && [1] + [0] == [1, 0] && [0, 0][1..] == [0];
    assert FindStmt([cb], z) == Some([0, 0]);
    assert FindStmt(ch.kids, x) == Some([0, 0]) && FindStmt(ch.kids, y) == Some([0, 1]);
    assert FindStmt(ch.kids, z) == Some([1, 0]);
    assert [0] + [0, 0] == [0, 0, 0] && [0] + [0, 1] == [0, 0, 1] && [0] + [1, 0] == [0, 1, 0];
  }

  lemma CasesNearest(m: Model, t: string, x: string, y: string, z: string)
    requires TwoCases(m, t, x, y, z)
    ensures NearestChoice(m.top, [0, 0], [0, 0, 0, 0]) && NearestChoice(m.top, [0, 0], [0, 0, 0, 1])
    ensures NearestChoice(m.top, [0, 0], [0, 0, 1, 0])
  {
    var c, ch := m.top[0], m.top[0].kids[0];
    var p, q, r: Path := [0, 0, 0, 0], [0, 0, 0, 1], [0, 0, 1, 0];
    assert p[..2] == [0, 0] == q[..2] == r[..2] && p[..3] == [0, 0, 0] == q[..3] && r[..3] == [0, 0, 1];
    assert IsStmt(m.top, [0, 0]) && StmtAt(m.top, [0, 0]) == ch by {
      Below(m.top, 0, 0);
    }
    assert IsStmt(m.top, [0, 0, 0]) && StmtAt(m.top, [0, 0, 0]) == ch.kids[0] by {
      Below(c.kids, 0, 0);
      C.StmtStep(m.top, 0, [0, 0]);
      assert [0] + [0, 0] == [0, 0, 0];
    }
    assert IsStmt(m.top, [0, 0, 1]) && StmtAt(m.top, [0, 0, 1]) == ch.kids[1] by {
      Below(c.kids, 0, 1);
      C.StmtStep(m.top, 0, [0, 1]);
      assert [0] + [0, 1] == [0, 0, 1];
    }
  }

  lemma Below(kids: seq<Stmt>, i: nat, j: nat)
    requires i < |kids| && j < |kids[i].kids|
    ensures IsStmt(kids, [i, j]) && StmtAt(kids, [i, j]) == kids[i].kids[j]
  {
    C.StmtOne(kids[i].kids, j);
    C.StmtStep(kids, i, [j]);
    assert [i] + [j] == [i, j];
  }

  lemma CasesKeyless(m: Model, t: string, x: string, y: string, z: string)
    requires TwoCases(m, t, x, y, z)
    ensures KeyStmts(m.top) == []
  {
    hide KeyStmts, KeyStmtsOf;
    var c, ch := m.top[0], m.top[0].kids[0];
    var ca, cb := ch.kids[0], ch.kids[1];
    Leaves(ca.kids);
    Leaves(cb.kids);
    NoList(ca);
    NoList(cb);
    NoList(ch);
    NoList(c);
    NoStmts([]);
    NoStmts([cb]);
    NoStmts(ch.kids);
    NoStmts(c.kids);
    NoStmts(m.top);
    assert ch.kids[1..] == [cb] && [cb][1..] == [] && c.kids[1..] == [] && m.top[1..] == [];
  }

  lemma NoList(st: Stmt)
    requires !st.kind.List?
    ensures KeyStmtsOf(st) == KeyStmts(st.kids)
  {
  }

  lemma NoStmts(kids: seq<Stmt>)
    ensures kids == [] ==> KeyStmts(kids) == []
    ensures kids != [] && KeyStmtsOf(kids[0]) == [] && KeyStmts(kids[1..]) == [] ==> KeyStmts(kids) == []
  {
  }

  lemma {:induction false} Leaves(kids: seq<Stmt>)
    requires forall i :: 0 <= i < |kids| ==> kids[i].kind.Leaf? && kids[i].kids == []
    ensures KeyStmts(kids) == []
    decreases kids
  {
    if kids != [] {
      Leaves(kids[1..]);
    }
  }

  lemma CaseRivals(m: Model, t: string, x: string, y: string, z: string)
    requires TwoCases(m, t, x, y, z)
    ensures !Rivals(m, [t], y, x) && Rivals(m, [t], x, z) && KeyStmts(m.top) == []
  {
    hide FindModel, Rivals;
    CasesFound(m, t, x, y, z);
    assert [t] + [x] == [t, x] && [t] + [y] == [t, y] && [t] + [z] == [t, z];
    RivalsExactly(m, [t], y, x, [0, 0, 0, 1], [0, 0, 0, 0]);
    RivalsExactly(m, [t], x, z, [0, 0, 0, 0], [0, 0, 1, 0]);
    CasesNearest(m, t, x, y, z);
    assert InBranches(m.top, [0, 0], 0, 1, [0, 0, 0, 0], [0, 0, 1, 0]);
    forall c, i, j | InBranches(m.top, c, i, j, [0, 0, 0, 1], [0, 0, 0, 0])
      ensures i == j
    {
      OneNearest(m.top, c, [0, 0], [0, 0, 0, 1]);
    }
    CasesKeyless(m, t, x, y, z);
  }

  /** Merging a leaf keeps the other leaf of its case and takes the leaf of the other case
      out. */
  lemma CaseIsOneBranch(m: Model, t: string, x: string, y: string, z: string, u: string, v: string)
    requires TwoCases(m, t, x, y, z)
    ensures var a, b, c := Element(x, map[], [Text(u)]), Element(y, map[], [Text(v)]), Element(z, map[], [Text(v)]);
      MergeKids(m, [t], [a], [b]) == [a, b] && MergeKids(m, [t], [c], [a]) == [a]
  {
    hide Rivals, IsLeafList;
    CaseRivals(m, t, x, y, z);
    MergeOne(m, t, Element(x, map[], [Text(u)]), Element(y, map[], [Text(v)]));
    MergeOne(m, t, Element(z, map[], [Text(v)]), Element(x, map[], [Text(u)]));
  }

  /** Merging one child with another name into one child. */
  lemma MergeOne(m: Model, t: string, o: Node, c: Node)
    requires o.Element? && c.Element? && o.name != c.name && KeyStmts(m.top) == []
    ensures MergeKids(m, [t], [o], [c]) == if Rivals(m, [t], c.name, o.name) then [c] else [o, c]
  {
    hide Rivals, IsLeafList, KeysOf;
    assert [o][1..] == [] && [c][1..] == [];
    assert !IsKeyAt(m, [t], c.name);
    assert FirstMatch(m, c, [o], IsLeafList(m, [t] + [c.name])).None?;
    assert ChoiceClean(m, [t], [o], c.name) == if Rivals(m, [t], c.name, o.name) then [] else [o];
    assert MergeKids(m, [t], [o], [c]) == MergeKids(m, [t], MergeKid(m, [t], [o], c), []);
    assert [] + [c] == [c] && [o] + [c] == [o, c];
  }
}
