/** What the lookups in the data model find, in terms of the positions of its statements. */
module ModelLookups {
  import opened Xml
  import opened Schema

  /** The statement at pos defines a data node called name at the level of kids: above it
      there are only choices, cases and augments. */
  predicate Defines(kids: seq<Stmt>, pos: Path, name: string) {
    IsStmt(kids, pos) && StmtAt(kids, pos).name == name && !IsGrouping(kids, pos) &&
    forall k :: 0 < k < |pos| ==> IsStmt(kids, pos[..k]) && IsGrouping(kids, pos[..k])
  }

  /** The statement at pos is a choice, a case or an augment. */
  predicate IsGrouping(kids: seq<Stmt>, pos: Path)
    requires IsStmt(kids, pos)
  {
    StmtAt(kids, pos).kind in {Choice, Case, Augment}
  }

  /** p comes before q in the document. */
  predicate Before(p: Path, q: Path) {
    q != [] && (p == [] || p[0] < q[0] || (p[0] == q[0] && Before(p[1..], q[1..])))
  }

  lemma DefinesHere(kids: seq<Stmt>, i: nat, name: string)
    requires i < |kids|
    ensures Defines(kids, [i], name) <==> kids[i].kind !in {Choice, Case, Augment} && kids[i].name == name
  {
  }

  lemma {:induction false} UpStmt(kids: seq<Stmt>, pos: Path, k: nat)
    requires IsStmt(kids, pos) && 0 < k <= |pos|
    ensures IsStmt(kids, pos[..k])
    decreases pos
  {
    if k > 1 {
      UpStmt(kids[pos[0]].kids, pos[1..], k - 1);
      assert pos[..k][1..] == pos[1..][..k - 1];
    }
  }

  lemma DefinesBelow(kids: seq<Stmt>, i: nat, r: Path, name: string)
    requires i < |kids| && r != []
    ensures Defines(kids, [i] + r, name) <==>
      kids[i].kind in {Choice, Case, Augment} && Defines(kids[i].kids, r, name)
  {
    var pos := [i] + r;
    assert pos[1..] == r;
    if Defines(kids, pos, name) {
      assert pos[..1] == [i] && IsGrouping(kids, pos[..1]);
      forall k | 0 < k < |r|
        ensures IsStmt(kids[i].kids, r[..k]) && IsGrouping(kids[i].kids, r[..k])
      {
        assert pos[..k + 1] == [i] + r[..k] && ([i] + r[..k])[1..] == r[..k];
        assert IsGrouping(kids, pos[..k + 1]);
      }
    }
    if kids[i].kind in {Choice, Case, Augment} && Defines(kids[i].kids, r, name) {
      forall k | 0 < k < |pos|
        ensures IsStmt(kids, pos[..k]) && IsGrouping(kids, pos[..k])
      {
        if k == 1 {
          assert pos[..1] == [i];
        } else {
          assert pos[..k] == [i] + r[..k - 1] && ([i] + r[..k - 1])[1..] == r[..k - 1];
          assert IsGrouping(kids[i].kids, r[..k - 1]);
        }
      }
    }
  }

  lemma DefinesShift(kids: seq<Stmt>, q: Path, name: string)
    requires kids != [] && q != []
    ensures Defines(kids, [q[0] + 1] + q[1..], name) <==> Defines(kids[1..], q, name)
  {
    var pos: Path := [q[0] + 1] + q[1..];
    if q[0] + 1 < |kids| {
      assert kids[1..][q[0]] == kids[q[0] + 1];
      if |q| == 1 {
        assert pos == [q[0] + 1] && q == [q[0]];
        DefinesHere(kids, q[0] + 1, name);
        DefinesHere(kids[1..], q[0], name);
      } else {
        assert q == [q[0]] + q[1..];
        DefinesBelow(kids, q[0] + 1, q[1..], name);
        DefinesBelow(kids[1..], q[0], q[1..], name);
      }
    }
  }

  ghost predicate FirstDefinition(kids: seq<Stmt>, pos: Path, name: string) {
    Defines(kids, pos, name) && forall q :: Defines(kids, q, name) ==> q == pos || Before(pos, q)
  }

  /** The first statement in the document that defines the name at this level is found, and
      nothing if and only if there is none. */
  lemma {:induction false} FindStmtExactly(kids: seq<Stmt>, name: string)
    ensures match FindStmt(kids, name)
      case Some(pos) => FirstDefinition(kids, pos, name)
      case None => forall q :: !Defines(kids, q, name)
    decreases kids
  {
    hide Defines;
    if kids == [] {
      NothingDefined(name);
    } else {
      var st, rest := kids[0], FindStmt(kids[1..], name);
      FindStmtExactly(kids[1..], name);
      if st.kind in {Choice, Case, Augment} {
        FindStmtExactly(st.kids, name);
        if FindStmt(st.kids, name).Some? {
          FirstBelow(kids, FindStmt(st.kids, name).value, name);
        }
      } else if st.name == name {
        FirstHere(kids, name);
        assert [0] + [] == [0];
      }
      if CompareStmt(st, name).None? {
        forall q | Defines(kids, q, name)
          ensures rest.Some?
        {
          SplitDefinition(kids, q, name);
        }
        if rest.Some? {
          FirstAfter(kids, rest.value, name);
        }
      }
    }
  }

  lemma FirstHere(kids: seq<Stmt>, name: string)
    requires kids != [] && kids[0].kind !in {Choice, Case, Augment} && kids[0].name == name
    ensures FirstDefinition(kids, [0], name)
  {
    hide Defines;
    DefinesHere(kids, 0, name);
    forall q | Defines(kids, q, name)
      ensures q == [0] || Before([0], q)
    {
      SplitDefinition(kids, q, name);
    }
  }

  lemma FirstBelow(kids: seq<Stmt>, p: Path, name: string)
    requires kids != [] && kids[0].kind in {Choice, Case, Augment} && FirstDefinition(kids[0].kids, p, name)
    ensures FirstDefinition(kids, [0] + p, name)
  {
    hide Defines;
    var pos := [0] + p;
    assert pos[1..] == p;
    assert p != [] by {
      DefinedIsNode(kids[0].kids, p, name);
    }
    DefinesBelow(kids, 0, p, name);
    forall q | Defines(kids, q, name)
      ensures q == pos || Before(pos, q)
    {
      SplitDefinition(kids, q, name);
      assert q == [q[0]] + q[1..];
    }
  }

  lemma FirstAfter(kids: seq<Stmt>, p: Path, name: string)
    requires kids != [] && FirstDefinition(kids[1..], p, name) && CompareStmt(kids[0], name).None?
    requires kids[0].kind in {Choice, Case, Augment} ==> forall q :: !Defines(kids[0].kids, q, name)
    ensures p != [] && FirstDefinition(kids, [p[0] + 1] + p[1..], name)
  {
    hide Defines;
    assert p != [] by {
      DefinedIsNode(kids[1..], p, name);
    }
    var pos: Path := [p[0] + 1] + p[1..];
    assert pos[1..] == p[1..];
    DefinesShift(kids, p, name);
    forall q | Defines(kids, q, name)
      ensures q == pos || Before(pos, q)
    {
      SplitDefinition(kids, q, name);
      var r: Path := [q[0] - 1] + q[1..];
      assert r[1..] == q[1..] && q == [q[0]] + q[1..];
      assert r == p ==> q == pos;
    }
  }

  lemma DefinedIsNode(kids: seq<Stmt>, p: Path, name: string)
    requires Defines(kids, p, name)
    ensures p != [] && IsStmt(kids, p) && !IsGrouping(kids, p)
  {
  }

  lemma NothingDefined(name: string)
    ensures forall q :: !Defines([], q, name)
  {
  }

  lemma SplitDefinition(kids: seq<Stmt>, q: Path, name: string)
    requires kids != [] && Defines(kids, q, name)
    ensures q != []
    ensures q[0] == 0 && |q| == 1 ==> kids[0].kind !in {Choice, Case, Augment} && kids[0].name == name
    ensures q[0] == 0 && |q| > 1 ==> kids[0].kind in {Choice, Case, Augment} && Defines(kids[0].kids, q[1..], name)
    ensures q[0] > 0 ==> Defines(kids[1..], [q[0] - 1] + q[1..], name)
  {
    assert q == [q[0]] + q[1..];
    if q[0] > 0 {
      var r: Path := [q[0] - 1] + q[1..];
      assert r[1..] == q[1..];
      DefinesShift(kids, r, name);
    } else if |q| == 1 {
      DefinesHere(kids, 0, name);
    } else {
      DefinesBelow(kids, 0, q[1..], name);
    }
  }

  /** The names of the data nodes that the statements on the way to pos define. */
  function NamesAlong(kids: seq<Stmt>, pos: Path): seq<string>
    requires pos == [] || IsStmt(kids, pos)
    decreases pos
  {
    if pos == [] then []
    else
      var st := kids[pos[0]];
      (if st.kind in {Choice, Case, Augment} then [] else [st.name]) + NamesAlong(st.kids, pos[1..])
  }

  lemma {:induction false} DefinedNames(kids: seq<Stmt>, pos: Path, name: string)
    requires Defines(kids, pos, name)
    ensures NamesAlong(kids, pos) == [name]
    decreases pos
  {
    if |pos| > 1 {
      assert pos == [pos[0]] + pos[1..];
      DefinesBelow(kids, pos[0], pos[1..], name);
      DefinedNames(kids[pos[0]].kids, pos[1..], name);
    }
  }

  lemma {:induction false} NamesAlongConcat(kids: seq<Stmt>, p: Path, q: Path)
    requires IsStmt(kids, p) && (q == [] || IsStmt(StmtAt(kids, p).kids, q))
    ensures p + q == [] || IsStmt(kids, p + q)
    ensures NamesAlong(kids, p + q) == NamesAlong(kids, p) + NamesAlong(StmtAt(kids, p).kids, q)
    decreases p
  {
    hide IsStmt, NamesAlong;
    ExtendIsStmt(kids, p, q);
    AlongStep(kids, p);
    AlongStep(kids, p + q);
    assert (p + q)[1..] == p[1..] + q && (p + q)[0] == p[0];
    if |p| == 1 {
      assert p[1..] + q == q;
      NothingAlong(kids[p[0]].kids);
    } else {
      NamesAlongConcat(kids[p[0]].kids, p[1..], q);
    }
  }

  lemma AlongStep(kids: seq<Stmt>, pos: Path)
    requires IsStmt(kids, pos)
    ensures pos != [] && pos[0] < |kids| && (|pos| > 1 ==> IsStmt(kids[pos[0]].kids, pos[1..]))
    ensures pos[1..] == [] || IsStmt(kids[pos[0]].kids, pos[1..])
    ensures var st := kids[pos[0]];
      NamesAlong(kids, pos) ==
        (if st.kind in {Choice, Case, Augment} then [] else [st.name]) + NamesAlong(st.kids, pos[1..])
  {
  }

  lemma NothingAlong(kids: seq<Stmt>)
    ensures NamesAlong(kids, []) == []
  {
  }

  lemma {:induction false} ConcatStmt(kids: seq<Stmt>, p: Path, q: Path)
    requires IsStmt(kids, p) && (q == [] || IsStmt(StmtAt(kids, p).kids, q))
    ensures IsStmt(kids, p + q)
    ensures StmtAt(kids, p + q) == if q == [] then StmtAt(kids, p) else StmtAt(StmtAt(kids, p).kids, q)
    decreases p
  {
    ExtendIsStmt(kids, p, q);
    assert (p + q)[1..] == p[1..] + q;
    if |p| == 1 {
      assert p[1..] + q == q;
    } else {
      ConcatStmt(kids[p[0]].kids, p[1..], q);
    }
  }

  /** The statement found for a chain of names: the data nodes on the way to it have those
      names, and it defines the last of them. */
  lemma {:induction false} FindModelNames(kids: seq<Stmt>, names: seq<string>)
    requires FindModel(kids, names).Some?
    ensures var pos := FindModel(kids, names).value;
      (pos == [] <==> names == []) && (pos != [] ==> IsStmt(kids, pos) && !IsGrouping(kids, pos)) &&
      NamesAlong(kids, pos) == names
    decreases names
  {
    hide Defines;
    if names != [] {
      var p := FindStmt(kids, names[0]).value;
      FindStmtExactly(kids, names[0]);
      DefinedNames(kids, p, names[0]);
      var q := FindModel(StmtAt(kids, p).kids, names[1..]).value;
      FindModelNames(StmtAt(kids, p).kids, names[1..]);
      NamesAlongConcat(kids, p, q);
      DefinedIsNode(kids, p, names[0]);
      ConcatStmt(kids, p, q);
      assert [names[0]] + names[1..] == names;
    }
  }

  lemma FindSingle(kids: seq<Stmt>, names: seq<string>)
    requires |names| == 1
    ensures FindModel(kids, names) == FindStmt(kids, names[0])
  {
    hide FindStmt;
    var p := FindStmt(kids, names[0]);
    assert names[1..] == [] && (p.Some? ==> p.value + [] == p.value);
  }

  /** What the kind of the statement found says. */
  lemma KindsDecide(m: Model, names: seq<string>, pos: Path)
    requires names != [] && FindModel(m.top, names) == Some(pos)
    ensures IsStmt(m.top, pos)
    ensures match StmtAt(m.top, pos).kind
      case Container(_) => !IsLeafList(m, names) && !UserOrdered(m, names) && DefaultAt(m, names) == None
      case List(_, byUser) => !IsLeafList(m, names) && UserOrdered(m, names) == byUser && DefaultAt(m, names) == None
      case Leaf(default) => !IsLeafList(m, names) && !UserOrdered(m, names) && DefaultAt(m, names) == default
      case LeafList(byUser) => IsLeafList(m, names) && UserOrdered(m, names) == byUser && DefaultAt(m, names) == None
      case Choice => false
      case Case => false
      case Augment => false
  {
    FindModelNames(m.top, names);
  }

  // ---- keys

  /** The statement at pos is a list with these keys. */
  predicate KeyedAt(kids: seq<Stmt>, pos: Path, name: string, keys: seq<string>) {
    IsStmt(kids, pos) && StmtAt(kids, pos).name == name && keys != [] &&
    match StmtAt(kids, pos).kind
    case List(ks, _) => ks == keys
    case _ => false
  }

  ghost predicate KeyedList(kids: seq<Stmt>, name: string, keys: seq<string>) {
    exists pos :: KeyedAt(kids, pos, name, keys)
  }

  lemma KeyedBelow(kids: seq<Stmt>, i: nat, r: Path, name: string, keys: seq<string>)
    requires i < |kids|
    ensures r != [] ==> (KeyedAt(kids, [i] + r, name, keys) <==> KeyedAt(kids[i].kids, r, name, keys))
    ensures KeyedAt(kids, [i], name, keys) <==>
      kids[i].name == name && keys != [] && kids[i].kind.List? && kids[i].kind.keys == keys
  {
    assert ([i] + r)[1..] == r;
  }

  lemma KeyedShift(kids: seq<Stmt>, r: Path, name: string, keys: seq<string>)
    requires kids != [] && r != []
    ensures KeyedAt(kids, [r[0] + 1] + r[1..], name, keys) <==> KeyedAt(kids[1..], r, name, keys)
  {
    var pos: Path := [r[0] + 1] + r[1..];
    assert pos[1..] == r[1..];
    if r[0] + 1 < |kids| {
      assert kids[1..][r[0]] == kids[r[0] + 1];
    }
  }

  /** A keyed list is the first statement, below it, or among or below the others. */
  lemma KeyedSplit(kids: seq<Stmt>, name: string, keys: seq<string>)
    requires kids != []
    ensures KeyedList(kids, name, keys) <==>
      KeyedAt(kids, [0], name, keys) || KeyedList(kids[0].kids, name, keys) || KeyedList(kids[1..], name, keys)
  {
    hide KeyedAt;
    if KeyedList(kids[0].kids, name, keys) {
      var r :| KeyedAt(kids[0].kids, r, name, keys);
      KeyedIsStmt(kids[0].kids, r, name, keys);
      KeyedBelow(kids, 0, r, name, keys);
    }
    if KeyedList(kids[1..], name, keys) {
      var r :| KeyedAt(kids[1..], r, name, keys);
      KeyedIsStmt(kids[1..], r, name, keys);
      KeyedShift(kids, r, name, keys);
    }
    if KeyedList(kids, name, keys) {
      var pos :| KeyedAt(kids, pos, name, keys);
      KeyedFirst(kids, pos, name, keys);
    }
  }

  lemma KeyedFirst(kids: seq<Stmt>, pos: Path, name: string, keys: seq<string>)
    requires kids != [] && KeyedAt(kids, pos, name, keys)
    ensures KeyedAt(kids, [0], name, keys) || KeyedList(kids[0].kids, name, keys) || KeyedList(kids[1..], name, keys)
  {
    hide KeyedAt;
    KeyedIsStmt(kids, pos, name, keys);
    assert pos == [pos[0]] + pos[1..];
    if pos[0] > 0 {
      var r: Path := [pos[0] - 1] + pos[1..];
      assert r[1..] == pos[1..];
      KeyedShift(kids, r, name, keys);
    } else if |pos| == 1 {
      assert pos == [0];
    } else {
      KeyedBelow(kids, 0, pos[1..], name, keys);
    }
  }

  /** The key statements are those of all keyed lists, wherever they are. */
  lemma {:induction false} KeyStmtsExactly(kids: seq<Stmt>, name: string, keys: seq<string>)
    ensures KeyStmt(name, keys) in KeyStmts(kids) <==> KeyedList(kids, name, keys)
    decreases kids
  {
    hide KeyedAt, KeyedList;
    if kids == [] {
      NothingKeyed(name, keys);
    } else {
      KeyStmtsExactly(kids[0].kids, name, keys);
      KeyStmtsExactly(kids[1..], name, keys);
      KeyedBelow(kids, 0, [], name, keys);
      KeyedSplit(kids, name, keys);
    }
  }

  lemma NothingKeyed(name: string, keys: seq<string>)
    ensures !KeyedList([], name, keys)
  {
  }

  lemma KeyedIsStmt(kids: seq<Stmt>, pos: Path, name: string, keys: seq<string>)
    requires KeyedAt(kids, pos, name, keys)
    ensures pos != [] && IsStmt(kids, pos)
  {
  }

  /** Where keyed lists do not share names, the keys of a name are those of the list that
      has it, in the order of its key statement, and a name without such a list has none. */
  lemma KeysExactly(m: Model, name: string, keys: seq<string>)
    requires WellKeyed(m) && keys != []
    ensures KeysOf(m, name) == keys <==> KeyedList(m.top, name, keys)
  {
    hide KeyedList;
    var ks := KeyStmts(m.top);
    KeyStmtsExactly(m.top, name, keys);
    if KeyStmt(name, keys) in ks {
      var i :| 0 <= i < |ks| && ks[i] == KeyStmt(name, keys);
      KeysInMember(ks, i);
    }
    if KeysOf(m, name) == keys {
      KeysInIs(ks, name);
    }
  }

  lemma {:induction false} KeysInIs(ks: seq<KeyStmt>, name: string)
    ensures KeysIn(ks, name) != [] ==> KeyStmt(name, KeysIn(ks, name)) in ks
    decreases ks
  {
    if ks != [] && ks[0].list != name {
      KeysInIs(ks[1..], name);
    }
  }

  /** Where lists share a name, the first key statement decides. */
  lemma {:induction false} FirstKeyStatement(ks: seq<KeyStmt>, i: nat, name: string)
    requires i <= |ks| && (i < |ks| ==> ks[i].list == name) && forall j :: 0 <= j < i ==> ks[j].list != name
    ensures KeysIn(ks, name) == if i < |ks| then ks[i].names else []
    decreases ks
  {
    if i > 0 {
      FirstKeyStatement(ks[1..], i - 1, name);
    }
  }
}
