/** Models whose defaults the with-defaults transformations handle: what they may list is
    what the model defines. */
module DefaultListing {
  import opened Xml
  import opened Schema
  import opened Instances
  import opened Defaults
  import opened WithDefaults
  import C = ChoiceCreation
  import L = ModelLookups

  /** The statements of a level have different names, define data nodes, and have no default
      that is empty or belongs to a key. */
  predicate Orderly(m: Model, at: seq<string>, kids: seq<Stmt>)
    decreases kids, 1
  {
    (forall i, j :: 0 <= i < j < |kids| ==> kids[i].name != kids[j].name) &&
    forall i :: 0 <= i < |kids| ==> OrderlyStmt(m, at, kids[i])
  }

  predicate OrderlyStmt(m: Model, at: seq<string>, st: Stmt)
    decreases st, 0
  {
    match st.kind
    case Container(presence) =>
      !IsKeyAt(m, at, st.name) && (at == [] || !presence ==> KeysOf(m, st.name) == []) &&
      Orderly(m, at + [st.name], st.kids)
    case List(_, _) => !IsKeyAt(m, at, st.name) && Orderly(m, at + [st.name], st.kids)
    case Leaf(default) =>
      st.kids == [] &&
      (default.Some? ==> default != Some("") && !IsKeyAt(m, at, st.name) && KeysOf(m, st.name) == [])
    case LeafList(_) => st.kids == []
    case _ => false
  }

  /** The statements below those that the chain of names leads to. */
  predicate Level(m: Model, at: seq<string>, kids: seq<Stmt>) {
    if at == [] then kids == m.top
    else FindModel(m.top, at).Some? && StmtAt(m.top, FindModel(m.top, at).value).kids == kids
  }

  lemma {:induction false} FindMember(kids: seq<Stmt>, i: nat)
    requires i < |kids| && forall j :: 0 <= j <= i ==> !Transparent(kids[j].kind)
    requires forall j :: 0 <= j < i ==> kids[j].name != kids[i].name
    ensures FindStmt(kids, kids[i].name) == Some([i])
    decreases kids
  {
    assert [0] + [] == [0];
    if i > 0 {
      FindMember(kids[1..], i - 1);
      assert kids[1..][i - 1] == kids[i] && CompareStmt(kids[0], kids[i].name).None?;
      assert [i - 1][1..] == [] && [i] + [] == [i];
    }
  }

  lemma {:induction false} FindOneMore(kids: seq<Stmt>, names: seq<string>, name: string)
    requires FindModel(kids, names).Some? && names != []
    requires FindStmt(StmtAt(kids, FindModel(kids, names).value).kids, name).Some?
    ensures FindModel(kids, names + [name]) ==
      Some(FindModel(kids, names).value + FindStmt(StmtAt(kids, FindModel(kids, names).value).kids, name).value)
    decreases names
  {
    hide FindStmt, StmtAt, IsStmt;
    var p := FindStmt(kids, names[0]).value;
    var below := StmtAt(kids, p).kids;
    var all := names + [name];
    assert all[1..] == names[1..] + [name] && all[0] == names[0];
    if |names| == 1 {
      assert names == [names[0]] && all[1..] == [name];
      L.FindSingle(kids, names);
      L.FindSingle(below, [name]);
    } else {
      var q := FindModel(below, names[1..]).value;
      FindModelIsStmt(below, names[1..]);
      L.ConcatStmt(kids, p, q);
      FindOneMore(below, names[1..], name);
      var r := FindStmt(StmtAt(below, q).kids, name).value;
      assert p + (q + r) == (p + q) + r;
    }
  }

  lemma FindModelIsStmt(kids: seq<Stmt>, names: seq<string>)
    requires FindModel(kids, names).Some? && names != []
    ensures IsStmt(kids, FindModel(kids, names).value)
  {
  }

  lemma OrderlyIsPlain(m: Model, at: seq<string>, kids: seq<Stmt>)
    requires Orderly(m, at, kids)
    ensures forall j :: 0 <= j < |kids| ==> !Transparent(kids[j].kind)
  {
    forall j | 0 <= j < |kids|
      ensures !Transparent(kids[j].kind)
    {
      assert OrderlyStmt(m, at, kids[j]);
    }
  }

  /** A statement of a level is what the model defines for its name there. */
  lemma LevelDown(m: Model, at: seq<string>, kids: seq<Stmt>, i: nat)
    requires Level(m, at, kids) && Orderly(m, at, kids) && i < |kids|
    ensures KindOf(m, at + [kids[i].name]) == Some(kids[i].kind) && Level(m, at + [kids[i].name], kids[i].kids)
  {
    hide FindStmt, IsStmt, FindModel, OrderlyStmt;
    var name := kids[i].name;
    OrderlyIsPlain(m, at, kids);
    FindMember(kids, i);
    C.StmtOne(kids, i);
    if at == [] {
      assert [] + [name] == [name];
      L.FindSingle(m.top, [name]);
    } else {
      var pos := FindModel(m.top, at).value;
      FindModelIsStmt(m.top, at);
      FindOneMore(m.top, at, name);
      L.ConcatStmt(m.top, pos, [i]);
    }
  }

  /** The statement chain continues above, and is proper from there on. */
  ghost predicate Continues(m: Model, above: seq<Stmt>, d: Default) {
    |above| < |d.stmts| && d.stmts[..|above|] == above && (above == [] ==> d.stmts[0].kind.Container?) &&
    Proper(m, StmtNames(above), d.stmts[|above|..], d.value)
  }

  lemma {:induction false} ListedContinue(m: Model, above: seq<Stmt>, kids: seq<Stmt>, all: seq<Stmt>, k: nat)
    requires Level(m, StmtNames(above), all) && Orderly(m, StmtNames(above), all)
    requires forall st :: st in kids ==> st in all && (above == [] ==> st.kind.Container?)
    requires k < |DefaultsIn(above, kids)|
    ensures Continues(m, above, DefaultsIn(above, kids)[k])
    decreases kids
  {
    hide Level, Orderly, OrderlyStmt, Proper, KeysOf, KindOf, DefaultsIn, OwnDefault, StmtNames, Continues;
    DefaultsInStep(above, kids);
    var st := kids[0];
    var a, b, c := OwnDefault(above, st), DefaultsIn(above + [st], st.kids), DefaultsIn(above, kids[1..]);
    var i :| 0 <= i < |all| && all[i] == st;
    if k >= |a| + |b| {
      ListedContinue(m, above, kids[1..], all, k - |a| - |b|);
    } else {
      LevelDown(m, StmtNames(above), all, i);
      assert OrderlyStmt(m, StmtNames(above), st) by {
        OrderlyMember(m, StmtNames(above), all, i);
      }
      if k < |a| {
        OwnIsLeaf(above, st);
        OwnContinues(m, above, st, a[k]);
      } else {
        BelowContinues(m, above, st, k - |a|);
      }
    }
  }

  lemma DefaultsInStep(above: seq<Stmt>, kids: seq<Stmt>)
    ensures kids == [] ==> DefaultsIn(above, kids) == []
    ensures kids != [] ==>
      DefaultsIn(above, kids) ==
        OwnDefault(above, kids[0]) + DefaultsIn(above + [kids[0]], kids[0].kids) + DefaultsIn(above, kids[1..])
  {
  }

  lemma OwnIsLeaf(above: seq<Stmt>, st: Stmt)
    ensures OwnDefault(above, st) != [] ==> st.kind.Leaf? && |OwnDefault(above, st)| == 1
  {
  }

  lemma OwnContinues(m: Model, above: seq<Stmt>, st: Stmt, d: Default)
    requires OwnDefault(above, st) == [d] && OrderlyStmt(m, StmtNames(above), st) && above != []
    requires KindOf(m, StmtNames(above) + [st.name]) == Some(st.kind)
    ensures Continues(m, above, d)
  {
    hide KindOf, KeysOf, IsKeyAt;
    assert d.stmts[|above|..] == [st];
  }

  lemma {:induction false} BelowContinues(m: Model, above: seq<Stmt>, st: Stmt, k: nat)
    requires OrderlyStmt(m, StmtNames(above), st) && (above == [] ==> st.kind.Container?)
    requires KindOf(m, StmtNames(above) + [st.name]) == Some(st.kind)
    requires Level(m, StmtNames(above) + [st.name], st.kids)
    requires k < |DefaultsIn(above + [st], st.kids)|
    ensures Continues(m, above, DefaultsIn(above + [st], st.kids)[k])
    decreases st
  {
    hide Level, KindOf, KeysOf, IsKeyAt, Orderly, Proper;
    var d := DefaultsIn(above + [st], st.kids)[k];
    StmtNamesSnoc(above, st);
    ListedContinue(m, above + [st], st.kids, st.kids, k);
    assert d.stmts[..|above|] == (above + [st])[..|above|] == above;
    assert d.stmts[|above|..] == [st] + d.stmts[|above| + 1..] && d.stmts[|above|..][1..] == d.stmts[|above| + 1..];
    OneMoreProper(m, above, st, d);
  }

  lemma OneMoreProper(m: Model, above: seq<Stmt>, st: Stmt, d: Default)
    requires OrderlyStmt(m, StmtNames(above), st) && (above == [] ==> st.kind.Container?)
    requires (st.kind.Container? || st.kind.List?) && KindOf(m, StmtNames(above) + [st.name]) == Some(st.kind)
    requires |above| < |d.stmts| && d.stmts[|above|] == st && |d.stmts| > |above| + 1
    requires Proper(m, StmtNames(above) + [st.name], d.stmts[|above| + 1..], d.value)
    ensures Proper(m, StmtNames(above), d.stmts[|above|..], d.value)
  {
    hide KindOf, KeysOf, IsKeyAt, Orderly;
    var s := d.stmts[|above|..];
    assert s[0] == st && s[1..] == d.stmts[|above| + 1..];
  }

  lemma OrderlyMember(m: Model, at: seq<string>, kids: seq<Stmt>, i: nat)
    requires Orderly(m, at, kids) && i < |kids|
    ensures OrderlyStmt(m, at, kids[i])
  {
  }

  lemma {:induction false} ContainersOnly(top: seq<Stmt>)
    ensures forall st :: st in Containers(top) <==> st in top && st.kind.Container?
  {
    if top != [] {
      ContainersOnly(top[1..]);
      assert top == [top[0]] + top[1..];
    }
  }

  /** In an orderly model everything that is listed is a default of the model, inside a
      top-level container: the hypothesis of the with-defaults theorems holds. */
  lemma OrderlyIsProper(m: Model)
    requires Orderly(m, [], m.top)
    ensures ProperDefaults(m, DefaultsOf(m))
    ensures forall names :: names != [] && Listed(DefaultsOf(m), names) ==>
      DefaultAt(m, names).Some? && |names| > 1 && KindOf(m, [names[0]]).Some? &&
      KindOf(m, [names[0]]).value.Container?
  {
    hide Orderly, Proper, KindOf, DefaultsIn, Containers, DefaultAt, StmtNames;
    var ds := DefaultsOf(m);
    forall i | 0 <= i < |ds|
      ensures ds[i].stmts != [] && Proper(m, [], ds[i].stmts, ds[i].value)
    {
      ListedIsTop(m, i);
    }
    forall names | names != [] && Listed(ds, names)
      ensures DefaultAt(m, names).Some? && |names| > 1 && KindOf(m, [names[0]]).Some?
      ensures KindOf(m, [names[0]]).value.Container?
    {
      var i :| 0 <= i < |ds| && StmtNames(ds[i].stmts) == names;
      ListedIsTop(m, i);
    }
  }

  lemma ListedIsTop(m: Model, i: nat)
    requires Orderly(m, [], m.top) && i < |DefaultsOf(m)|
    ensures var d := DefaultsOf(m)[i]; var names := StmtNames(d.stmts);
      d.stmts != [] && Proper(m, [], d.stmts, d.value) && |names| > 1 && DefaultAt(m, names).Some? &&
      KindOf(m, [names[0]]).Some? && KindOf(m, [names[0]]).value.Container?
  {
    hide Orderly, Proper, KindOf, DefaultsIn, Containers;
    var d := DefaultsOf(m)[i];
    ContainersOnly(m.top);
    assert StmtNames([]) == [];
    ListedContinue(m, [], Containers(m.top), m.top, i);
    var stmts := d.stmts;
    assert stmts[0..] == stmts && [] + [stmts[0].name] == [stmts[0].name];
    assert [] + StmtNames(stmts) == StmtNames(stmts);
    ProperIsDefault(m, [], stmts, d.value);
    ProperTop(m, stmts, d.value);
  }

  lemma ProperTop(m: Model, stmts: seq<Stmt>, v: string)
    requires Proper(m, [], stmts, v) && stmts[0].kind.Container?
    ensures |stmts| > 1 && KindOf(m, [stmts[0].name]) == Some(stmts[0].kind)
  {
    hide KindOf, KeysOf;
    assert [] + [stmts[0].name] == [stmts[0].name];
  }
}
