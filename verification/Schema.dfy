/** The configuration data model: the data-defining statements of one YIN module, and
    the lookups the engine makes in it. */
module Schema {
  import opened Xml

  datatype Kind =
    | Container(presence: bool)
    | List(keys: seq<string>, byUser: bool)
    | Leaf(default: Option<string>)
    | LeafList(byUser: bool)
    | Choice
    | Case
    | Augment

  datatype Stmt = Stmt(kind: Kind, name: string, kids: seq<Stmt>)

  /** A module: its top-level statements, and the whitespace normalisation that the
      engine applies before it compares values (any function). */
  datatype Model = Model(top: seq<Stmt>, norm: string -> string)

  /** Statements with no node of their own in configuration data. */
  predicate Transparent(k: Kind) {
    k.Choice? || k.Case? || k.Augment?
  }

  /** The position of the first statement below kids that defines a data node called
      name at this level, looking through choices, cases and augments. */
  function FindStmt(kids: seq<Stmt>, name: string): (r: Option<Path>)
    ensures r.Some? ==> IsStmt(kids, r.value)
  {
    if kids == [] then None
    else
      match CompareStmt(kids[0], name)
      case Some(rel) => Some([0] + rel)
      case None =>
        match FindStmt(kids[1..], name)
        case Some(p) => Some([p[0] + 1] + p[1..])
        case None => None
  }

  function CompareStmt(st: Stmt, name: string): (r: Option<Path>)
    ensures r.Some? && r.value != [] ==> IsStmt(st.kids, r.value)
  {
    if Transparent(st.kind) then FindStmt(st.kids, name)
    else if st.name == name then Some([])
    else None
  }

  predicate IsStmt(kids: seq<Stmt>, pos: Path) {
    pos != [] && pos[0] < |kids| && (|pos| == 1 || IsStmt(kids[pos[0]].kids, pos[1..]))
  }

  function StmtAt(kids: seq<Stmt>, pos: Path): Stmt
    requires IsStmt(kids, pos)
  {
    if |pos| == 1 then kids[pos[0]] else StmtAt(kids[pos[0]].kids, pos[1..])
  }

  /** The position of the statement for a data node with the given chain of names,
      root first. */
  function FindModel(kids: seq<Stmt>, names: seq<string>): (r: Option<Path>)
    ensures r.Some? && names != [] ==> IsStmt(kids, r.value)
    decreases names
  {
    if names == [] then Some([])
    else
      match FindStmt(kids, names[0])
      case None => None
      case Some(p) =>
        match FindModel(StmtAt(kids, p).kids, names[1..])
        case None => None
        case Some(q) => ExtendIsStmt(kids, p, q); Some(p + q)
  }

  lemma {:induction false} ExtendIsStmt(kids: seq<Stmt>, p: Path, q: Path)
    requires IsStmt(kids, p) && (q == [] || IsStmt(StmtAt(kids, p).kids, q))
    ensures IsStmt(kids, p + q)
    decreases p
  {
    if q == [] {
      assert p + q == p;
    } else if |p| == 1 {
      assert (p + q)[1..] == q;
    } else {
      assert (p + q)[1..] == p[1..] + q;
      ExtendIsStmt(kids[p[0]].kids, p[1..], q);
    }
  }

  /** The kind of data node with this chain of names, if the model defines one. */
  function KindOf(m: Model, names: seq<string>): Option<Kind>
    requires names != []
  {
    match FindModel(m.top, names)
    case None => None
    case Some(pos) => Some(StmtAt(m.top, pos).kind)
  }

  /** The schema default of the leaf with this chain of names. */
  function DefaultAt(m: Model, names: seq<string>): Option<string>
    requires names != []
  {
    match KindOf(m, names)
    case Some(Leaf(d)) => d
    case _ => None
  }

  predicate IsLeafList(m: Model, names: seq<string>)
    requires names != []
  {
    KindOf(m, names).Some? && KindOf(m, names).value.LeafList?
  }

  predicate UserOrdered(m: Model, names: seq<string>)
    requires names != []
  {
    match KindOf(m, names)
    case Some(List(_, byUser)) => byUser
    case Some(LeafList(byUser)) => byUser
    case _ => false
  }

  /** The nearest branch of a choice that the statement at pos lies in: the closest
      statement on the way up whose own parent is a choice. */
  function BranchAbove(kids: seq<Stmt>, pos: Path): Option<Path>
    requires pos == [] || IsStmt(kids, pos)
    decreases |pos|
  {
    if |pos| <= 1 then None
    else
      UpIsStmt(kids, pos);
      if StmtAt(kids, Parent(pos)).kind.Choice? then Some(pos)
      else BranchAbove(kids, Parent(pos))
  }

  lemma {:induction false} UpIsStmt(kids: seq<Stmt>, pos: Path)
    requires IsStmt(kids, pos) && |pos| > 1
    ensures IsStmt(kids, Parent(pos))
    decreases pos
  {
    if |pos| > 2 {
      UpIsStmt(kids[pos[0]].kids, pos[1..]);
      assert Parent(pos)[1..] == Parent(pos[1..]);
    }
  }

  function BranchOf(m: Model, names: seq<string>): Option<Path> {
    match FindModel(m.top, names)
    case None => None
    case Some(pos) => if names == [] then None else BranchAbove(m.top, pos)
  }

  /** A key statement: the list it belongs to and the key names, in order. */
  datatype KeyStmt = KeyStmt(list: string, names: seq<string>)

  /** All key statements of the module, in document order. */
  function KeyStmts(kids: seq<Stmt>): seq<KeyStmt> {
    if kids == [] then [] else KeyStmtsOf(kids[0]) + KeyStmts(kids[1..])
  }

  function KeyStmtsOf(st: Stmt): seq<KeyStmt> {
    (if st.kind.List? && st.kind.keys != [] then [KeyStmt(st.name, st.kind.keys)] else [])
    + KeyStmts(st.kids)
  }

  /** The keys by which elements called name are told apart: the first key statement
      whose list has that name decides. */
  function KeysOf(m: Model, name: string): seq<string> {
    KeysIn(KeyStmts(m.top), name)
  }

  function KeysIn(ks: seq<KeyStmt>, name: string): seq<string> {
    if ks == [] then [] else if ks[0].list == name then ks[0].names else KeysIn(ks[1..], name)
  }

  /** True if some list called parent has child among its keys. */
  predicate IsKey(m: Model, parent: string, child: string) {
    exists i :: 0 <= i < |KeyStmts(m.top)| &&
      KeyStmts(m.top)[i].list == parent && child in KeyStmts(m.top)[i].names
  }

  /** No two keyed lists of the module share a name. */
  ghost predicate WellKeyed(m: Model) {
    forall i, j :: 0 <= i < j < |KeyStmts(m.top)| ==>
      KeyStmts(m.top)[i].list != KeyStmts(m.top)[j].list
  }

  lemma {:induction false} KeysInMember(ks: seq<KeyStmt>, i: nat)
    requires i < |ks|
    requires forall a, b :: 0 <= a < b < |ks| ==> ks[a].list != ks[b].list
    ensures KeysIn(ks, ks[i].list) == ks[i].names
    decreases ks
  {
    if i > 0 {
      KeysInMember(ks[1..], i - 1);
    }
  }

  lemma {:induction false} KeysInWitness(ks: seq<KeyStmt>, name: string, k: string)
    requires k in KeysIn(ks, name)
    ensures exists i :: 0 <= i < |ks| && ks[i].list == name && k in ks[i].names
    decreases ks
  {
    if ks[0].list != name {
      KeysInWitness(ks[1..], name, k);
      var i :| 0 <= i < |ks[1..]| && ks[1..][i].list == name && k in ks[1..][i].names;
      assert ks[i + 1] == ks[1..][i];
    }
  }

  /** Two different readings of "key" agree when list names are not shared: the keys
      that identify an element are exactly the children skipped as keys. */
  lemma KeyReadingsAgree(m: Model, parent: string, child: string)
    requires WellKeyed(m)
    ensures IsKey(m, parent, child) <==> child in KeysOf(m, parent)
  {
    var ks := KeyStmts(m.top);
    if IsKey(m, parent, child) {
      var i :| 0 <= i < |ks| && ks[i].list == parent && child in ks[i].names;
      KeysInMember(ks, i);
    }
    if child in KeysOf(m, parent) {
      KeysInWitness(ks, parent, child);
    }
  }

  /** No choice anywhere below. */
  predicate ChoiceFree(kids: seq<Stmt>) {
    forall i :: 0 <= i < |kids| ==> !kids[i].kind.Choice? && ChoiceFree(kids[i].kids)
  }

  lemma {:induction false} ChoiceFreeAt(kids: seq<Stmt>, pos: Path)
    requires ChoiceFree(kids) && IsStmt(kids, pos)
    ensures !StmtAt(kids, pos).kind.Choice?
    decreases pos
  {
    if |pos| > 1 {
      ChoiceFreeAt(kids[pos[0]].kids, pos[1..]);
    }
  }

  lemma {:induction false} ChoiceFreeBranch(kids: seq<Stmt>, pos: Path)
    requires ChoiceFree(kids) && (pos == [] || IsStmt(kids, pos))
    ensures BranchAbove(kids, pos).None?
    decreases |pos|
  {
    if |pos| > 1 {
      UpIsStmt(kids, pos);
      ChoiceFreeAt(kids, Parent(pos));
      ChoiceFreeBranch(kids, Parent(pos));
    }
  }
}
