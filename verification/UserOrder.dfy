/** User-ordered lists: where the insert attribute puts a new or a moved entry. */
module UserOrder {
  import opened Xml
  import opened Schema
  import opened Matching
  import opened Operation
  import opened Reference

  function Drop(n: Node, attr: string): Node
    requires n.Element?
  {
    n.(attrs := n.attrs - {attr})
  }

  /** The sibling list after an insertion, or why there is none. */
  datatype Outcome = Placed(kids: seq<Node>) | UnknownInsert | MissingInstance | Refused(why: Fault) | NotOrdered

  /** The elements named at are entries of a user-ordered list. */
  predicate InList(m: Model, at: seq<string>) {
    at != [] && UserOrdered(m, at)
  }

  predicate InstanceOf(n: Node, name: string) {
    n.Element? && n.name == name
  }

  function FirstInstance(kids: seq<Node>, name: string): (r: nat)
    ensures r <= |kids| && (r < |kids| ==> InstanceOf(kids[r], name))
    ensures forall j :: 0 <= j < r ==> !InstanceOf(kids[j], name)
  {
    if kids == [] || InstanceOf(kids[0], name) then 0 else 1 + FirstInstance(kids[1..], name)
  }

  /** Where "first" is: before the first instance inside a user-ordered list entry, whose
      keys come first, and before all children elsewhere. */
  function FirstPlace(kids: seq<Node>, name: string, inList: bool): (r: nat)
    ensures r <= |kids|
  {
    if inList then FirstInstance(kids, name) else 0
  }

  function Refer(m: Model, scope: Scope, kids: seq<Node>, n: Node, leaf: bool): (r: Ref)
    requires n.Element?
    ensures r.Found? ==> r.i < |kids|
  {
    if leaf then RefLeafList(m, kids, n) else RefList(m, scope, kids, n)
  }

  /** A new entry is placed among kids; inList says that the parent is itself an entry of a
      user-ordered list, leaf that the entry belongs to a leaf-list. */
  function CreateListed(m: Model, scope: Scope, kids: seq<Node>, n: Node, inList: bool, leaf: bool): Outcome
    requires n.Element?
  {
    var x := Drop(n, INSERT);
    if INSERT !in n.attrs || n.attrs[INSERT] == "last" then Placed(kids + [x])
    else if n.attrs[INSERT] == "first" then Placed(InsertAt(kids, FirstPlace(kids, n.name, inList), x))
    else if n.attrs[INSERT] != "before" && n.attrs[INSERT] != "after" then UnknownInsert
    else
      match Refer(m, scope, kids, x, leaf)
      case Fails(f) => Refused(f)
      case NoInstance => MissingInstance
      case Found(r) =>
        if Matches(m, x, kids[r], leaf) then Placed(kids)
        else
          var y := Drop(if leaf then Drop(x, VALUE) else x, KEY);
          Placed(InsertAt(kids, if n.attrs[INSERT] == "before" then r else r + 1, y))
  }

  /** Where an entry goes among its siblings, once it is taken out. */
  datatype Place = Stay | To(at: nat) | Unknown | Nowhere | NoPlace(why: Fault)

  function MovePlace(m: Model, scope: Scope, now: seq<Node>, i: nat, n: Node, inList: bool, leaf: bool): (r: Place)
    requires n.Element? && INSERT in n.attrs && i < |now| && now[i].Element?
    ensures r.To? ==> r.at < |now|
  {
    if n.attrs[INSERT] == "last" then (if i == |now| - 1 then Stay else To(|now| - 1))
    else if n.attrs[INSERT] == "first" then
      (if i == 0 then Stay else To(FirstPlace(Without(now, i), now[i].name, inList)))
    else if n.attrs[INSERT] != "before" && n.attrs[INSERT] != "after" then Unknown
    else
      match Refer(m, scope, now, n, leaf)
      case Fails(f) => NoPlace(f)
      case NoInstance => Nowhere
      case Found(r) =>
        MatchesItself(m, now[i], leaf);
        if Matches(m, now[i], now[r], leaf) then Stay
        else To((if r < i then r else r - 1) + if n.attrs[INSERT] == "before" then 0 else 1)
  }

  /** An existing entry, the i-th of kids, is moved as the edit node n asks. */
  function MoveListed(m: Model, scope: Scope, kids: seq<Node>, i: nat, n: Node, inList: bool, leaf: bool): Outcome
    requires n.Element? && i < |kids| && kids[i].Element?
  {
    if INSERT !in n.attrs then Placed(kids)
    else
      var x := Drop(kids[i], INSERT);
      match MovePlace(m, scope, kids[i := x], i, n, inList, leaf)
      case Stay => Placed(kids[i := x])
      case To(at) => Placed(InsertAt(Without(kids, i), at, x))
      case Unknown => UnknownInsert
      case Nowhere => MissingInstance
      case NoPlace(f) => Refused(f)
  }

  // ---- in place

  method SeekInstance(kids: seq<Node>, name: string) returns (i: nat)
    ensures i == FirstInstance(kids, name)
  {
    i := 0;
    while i < |kids| && !InstanceOf(kids[i], name)
      invariant 0 <= i <= |kids|
      invariant forall j :: 0 <= j < i ==> !InstanceOf(kids[j], name)
    {
      i := i + 1;
    }
  }

  method GetRef(m: Model, scope: Scope, kids: seq<Node>, n: Node, leaf: bool) returns (r: Ref)
    requires n.Element?
    ensures r == Refer(m, scope, kids, n, leaf)
  {
    if leaf {
      r := GetRefLeafList(m, kids, n);
    } else {
      r := GetRefList(m, scope, kids, n);
    }
  }

  /** Creates an entry of a user-ordered list below the list at p, whose parents are named
      at; on failure the document stays as it was. */
  method EditCreateLists(m: Model, scope: Scope, at: seq<string>, orig: Document, p: Path, n: Node)
    returns (r: Outcome)
    requires IsList(orig.roots, p) && n.Element?
    modifies orig
    ensures r.NotOrdered? <==> !UserOrdered(m, at + [n.name])
    ensures !r.NotOrdered? ==>
      r == CreateListed(m, scope, KidsAt(old(orig.roots), p), n, InList(m, at), IsLeafList(m, at + [n.name]))
    ensures orig.roots == if r.Placed? then SetKids(old(orig.roots), p, r.kids) else old(orig.roots)
  {
    hide Refer, SetKids, FirstInstance, IsList, Matches, UserOrdered, IsLeafList;
    if !UserOrdered(m, at + [n.name]) {
      return NotOrdered;
    }
    var leaf := IsLeafList(m, at + [n.name]);
    var kids := KidsAt(orig.roots, p);
    var x := Drop(n, INSERT);
    SetGet(orig.roots, p);
    if INSERT !in n.attrs || n.attrs[INSERT] == "last" {
      orig.AddChild(p, x);
      return Placed(kids + [x]);
    }
    if n.attrs[INSERT] == "first" {
      var first: nat := 0;
      if InList(m, at) {
        first := SeekInstance(kids, n.name);
      }
      orig.InsertKid(p, first, x);
      return Placed(InsertAt(kids, first, x));
    }
    if n.attrs[INSERT] != "before" && n.attrs[INSERT] != "after" {
      return UnknownInsert;
    }
    var ref := GetRef(m, scope, kids, x, leaf);
    if ref.Fails? {
      return Refused(ref.why);
    }
    if ref.NoInstance? {
      return MissingInstance;
    }
    var same := MatchingElements(m, x, kids[ref.i], leaf);
    if same {
      return Placed(kids);
    }
    var y := Drop(if leaf then Drop(x, VALUE) else x, KEY);
    var place := if n.attrs[INSERT] == "before" then ref.i else ref.i + 1;
    orig.InsertKid(p, place, y);
    return Placed(InsertAt(kids, place, y));
  }

  /** Unlinks the i-th node and links x where it stood among the others. */
  method Rehang(orig: Document, p: Path, i: nat, at: nat, x: Node)
    requires IsList(orig.roots, p) && i < |KidsAt(orig.roots, p)| && at < |KidsAt(orig.roots, p)|
    modifies orig
    ensures orig.roots == SetKids(old(orig.roots), p, InsertAt(Without(KidsAt(old(orig.roots), p), i), at, x))
  {
    ghost var f, kids := orig.roots, KidsAt(orig.roots, p);
    orig.Unlink(p, i);
    SetThenGet(f, p, Without(kids, i));
    orig.InsertKid(p, at, x);
    SetThenSet(f, p, Without(kids, i), InsertAt(Without(kids, i), at, x));
  }

  // ---- what insertion conserves

  /** x stands at pos, and the others are exactly rest, in order. */
  predicate Stands(kids: seq<Node>, pos: nat, x: Node, rest: seq<Node>) {
    pos < |kids| && kids[pos] == x && Without(kids, pos) == rest
  }

  lemma InsertedStands(rest: seq<Node>, at: nat, x: Node)
    requires at <= |rest|
    ensures Stands(InsertAt(rest, at, x), at, x, rest)
    ensures |InsertAt(rest, at, x)| == |rest| + 1
    ensures multiset(InsertAt(rest, at, x)) == multiset(rest) + multiset{x}
    ensures at > 0 ==> InsertAt(rest, at, x)[at - 1] == rest[at - 1]
    ensures at < |rest| ==> InsertAt(rest, at, x)[at + 1] == rest[at]
    ensures forall j :: 0 <= j < at ==> InsertAt(rest, at, x)[j] == rest[j]
  {
    assert rest == rest[..at] + rest[at..];
    assert Without(InsertAt(rest, at, x), at) == rest;
  }

  /** The entry called name stands where an insert value asks; now is the sibling list in
      which the reference was resolved. */
  predicate AsAsked(insert: string, ref: Ref, now: seq<Node>, name: string, inList: bool, after: seq<Node>, pos: nat) {
    match insert
    case "last" => pos == |after| - 1
    case "first" =>
      if inList then forall j :: 0 <= j < pos < |after| ==> !InstanceOf(after[j], name) else pos == 0
    case "before" => ref.Found? && ref.i < |now| && pos + 1 < |after| && after[pos + 1] == now[ref.i]
    case "after" => ref.Found? && ref.i < |now| && 0 < pos <= |after| && after[pos - 1] == now[ref.i]
    case _ => false
  }

  /** The entry refers to itself. */
  predicate RefersToItself(m: Model, insert: string, ref: Ref, now: seq<Node>, x: Node, leaf: bool) {
    insert in ["before", "after"] && ref.Found? && ref.i < |now| && Matches(m, x, now[ref.i], leaf)
  }

  /** A copy of n but for the attributes that said where it goes. */
  predicate CopyOf(y: Node, n: Node) {
    n.Element? && y.Element? && y.name == n.name && y.kids == n.kids && INSERT !in y.attrs &&
    y.attrs - {INSERT, KEY, VALUE} == n.attrs - {INSERT, KEY, VALUE}
  }

  /** The insert value of an entry to create; without one it goes last. */
  function InsertOf(n: Node): string
    requires n.Element?
  {
    if INSERT in n.attrs then n.attrs[INSERT] else "last"
  }

  /** A created entry is one more sibling, placed as asked, last if nothing is asked;
      nothing is created only when it refers to itself. */
  lemma CreateConserves(m: Model, scope: Scope, kids: seq<Node>, n: Node, inList: bool, leaf: bool)
    requires n.Element? && CreateListed(m, scope, kids, n, inList, leaf).Placed?
    ensures var after, x := CreateListed(m, scope, kids, n, inList, leaf).kids, Drop(n, INSERT);
      var ref := Refer(m, scope, kids, x, leaf);
      if RefersToItself(m, InsertOf(n), ref, kids, x, leaf) then after == kids
      else exists pos, y ::
        Stands(after, pos, y, kids) && CopyOf(y, n) && multiset(after) == multiset(kids) + multiset{y} &&
        AsAsked(InsertOf(n), ref, kids, n.name, inList, after, pos)
  {
    hide Refer, Matches, FirstInstance, InsertAt, Stands, CreateListed, AsAsked, CopyOf;
    var x := Drop(n, INSERT);
    var ref := Refer(m, scope, kids, x, leaf);
    if RefersToItself(m, InsertOf(n), ref, kids, x, leaf) {
      SelfNotCreated(m, scope, kids, n, inList, leaf);
    } else {
      var at := CreatedAt(m, scope, kids, n, inList, leaf);
      InsertedStands(kids, at, EntryCopy(n, leaf));
      CreatedAsAsked(m, scope, kids, n, inList, leaf, at);
      assert Stands(CreateListed(m, scope, kids, n, inList, leaf).kids, at, EntryCopy(n, leaf), kids);
    }
  }

  /** The copy of an entry that is created. */
  function EntryCopy(n: Node, leaf: bool): (y: Node)
    requires n.Element?
    ensures CopyOf(y, n)
  {
    var x := Drop(n, INSERT);
    if InsertOf(n) in ["before", "after"] then Drop(if leaf then Drop(x, VALUE) else x, KEY) else x
  }

  lemma SelfNotCreated(m: Model, scope: Scope, kids: seq<Node>, n: Node, inList: bool, leaf: bool)
    requires n.Element? && CreateListed(m, scope, kids, n, inList, leaf).Placed?
    requires var x := Drop(n, INSERT); RefersToItself(m, InsertOf(n), Refer(m, scope, kids, x, leaf), kids, x, leaf)
    ensures CreateListed(m, scope, kids, n, inList, leaf).kids == kids
  {
    hide Refer, Matches, FirstInstance, InsertAt;
  }

  /** Where the copy is put. */
  lemma CreatedAt(m: Model, scope: Scope, kids: seq<Node>, n: Node, inList: bool, leaf: bool) returns (at: nat)
    requires n.Element? && CreateListed(m, scope, kids, n, inList, leaf).Placed?
    requires var x := Drop(n, INSERT); !RefersToItself(m, InsertOf(n), Refer(m, scope, kids, x, leaf), kids, x, leaf)
    ensures at <= |kids|
    ensures CreateListed(m, scope, kids, n, inList, leaf) == Placed(InsertAt(kids, at, EntryCopy(n, leaf)))
    ensures var ref := Refer(m, scope, kids, Drop(n, INSERT), leaf);
      match InsertOf(n)
      case "last" => at == |kids|
      case "first" => at == FirstPlace(kids, n.name, inList)
      case "before" => ref.Found? && at == ref.i
      case "after" => ref.Found? && at == ref.i + 1
      case _ => false
  {
    hide Refer, Matches, FirstInstance, InsertAt;
    InsertedLast(kids, EntryCopy(n, leaf));
    var ref := Refer(m, scope, kids, Drop(n, INSERT), leaf);
    at := match InsertOf(n)
      case "last" => |kids|
      case "first" => FirstPlace(kids, n.name, inList)
      case "before" => ref.i
      case _ => ref.i + 1;
  }

  lemma CreatedAsAsked(m: Model, scope: Scope, kids: seq<Node>, n: Node, inList: bool, leaf: bool, at: nat)
    requires n.Element? && at <= |kids|
    requires var ref := Refer(m, scope, kids, Drop(n, INSERT), leaf);
      match InsertOf(n)
      case "last" => at == |kids|
      case "first" => at == FirstPlace(kids, n.name, inList)
      case "before" => ref.Found? && at == ref.i
      case "after" => ref.Found? && at == ref.i + 1
      case _ => false
    ensures AsAsked(InsertOf(n), Refer(m, scope, kids, Drop(n, INSERT), leaf), kids, n.name, inList,
      InsertAt(kids, at, EntryCopy(n, leaf)), at)
  {
    hide Refer, EntryCopy, FirstInstance;
  }

  lemma InsertedLast(kids: seq<Node>, x: Node)
    ensures InsertAt(kids, |kids|, x) == kids + [x]
  {
  }

  /** When a new entry is not placed: exactly if the insert value is none of the four, or
      the reference that before and after need is not found or in error. */
  lemma CreateOutcome(m: Model, scope: Scope, kids: seq<Node>, n: Node, inList: bool, leaf: bool)
    requires n.Element?
    ensures var insert := if "insert" in n.attrs then n.attrs["insert"] else "last";
      var ref := Refer(m, scope, kids, n.(attrs := n.attrs - {"insert"}), leaf);
      match CreateListed(m, scope, kids, n, inList, leaf)
      case Placed(_) => insert in ["first", "last"] || (insert in ["before", "after"] && ref.Found?)
      case UnknownInsert => insert !in ["first", "last", "before", "after"]
      case MissingInstance => insert in ["before", "after"] && ref == NoInstance
      case Refused(why) => insert in ["before", "after"] && ref == Fails(why)
      case NotOrdered => false
  {
    hide Refer, Matches;
  }

  /** An entry that is to go first stands before all of its name inside an entry of a
      user-ordered list, behind what stands before the first of them, and before all
      siblings everywhere else. */
  lemma FirstGoesFirst(m: Model, scope: Scope, at: seq<string>, kids: seq<Node>, n: Node, leaf: bool)
    requires n.Element? && "insert" in n.attrs && n.attrs["insert"] == "first"
    ensures var r, x := CreateListed(m, scope, kids, n, InList(m, at), leaf), n.(attrs := n.attrs - {"insert"});
      r.Placed? && exists pos: nat ::
        Stands(r.kids, pos, x, kids) &&
        if at != [] && UserOrdered(m, at)
        then (forall j :: 0 <= j < pos && kids[j].Element? ==> kids[j].name != n.name) &&
          (pos < |kids| ==> kids[pos].Element? && kids[pos].name == n.name)
        else pos == 0
  {
    hide Refer, Matches, UserOrdered, InsertAt, Stands;
    var pos := FirstPlace(kids, n.name, InList(m, at));
    InsertedStands(kids, pos, Drop(n, INSERT));
  }

  /** What said where the entry goes is not configured with it: neither the insert value
      nor, once it has been used, the reference. */
  lemma PlacedDropsReference(m: Model, scope: Scope, kids: seq<Node>, n: Node, inList: bool, leaf: bool, y: Node)
    requires n.Element? && CreateListed(m, scope, kids, n, inList, leaf).Placed?
    requires y in CreateListed(m, scope, kids, n, inList, leaf).kids && y !in kids
    ensures y.Element? && "insert" !in y.attrs
    ensures InsertOf(n) in ["before", "after"] ==> "key" !in y.attrs && (leaf ==> "value" !in y.attrs)
  {
    hide Refer, Matches, FirstInstance;
  }

  /** An input: x is inserted before the third of three entries of a leaf-list. */
  lemma InsertBeforeThird(m: Model, scope: Scope, l: string, a: string, b: string, c: string, x: string)
    requires m.norm(c) !in [m.norm(a), m.norm(b), m.norm(x)]
    ensures var entry := (v: string) => Element(l, map[], [Text(v)]);
      var n := Element(l, map["insert" := "before", "value" := m.norm(c)], [Text(x)]);
      CreateListed(m, scope, [entry(a), entry(b), entry(c)], n, false, true) ==
        Placed([entry(a), entry(b), entry(x), entry(c)])
  {
    var ka, kb, kc := Element(l, map[], [Text(a)]), Element(l, map[], [Text(b)]), Element(l, map[], [Text(c)]);
    var kids := [ka, kb, kc];
    var n := Element(l, map["insert" := "before", "value" := m.norm(c)], [Text(x)]);
    var y := Drop(n, INSERT);
    assert VALUE[0] != INSERT[0] && KEY[0] != INSERT[0] && y.attrs == map["value" := m.norm(c)];
    ReferenceByValue(m, kids, y);
    var v := m.norm(c);
    assert !HasTextValue(m, ka, l, v) && !HasTextValue(m, kb, l, v) && HasTextValue(m, kc, l, v);
    assert kids[2] == kc && RefLeafList(m, kids, y) == Found(2);
    assert Drop(Drop(y, VALUE), KEY) == Element(l, map[], [Text(x)]);
    assert InsertAt(kids, 2, Element(l, map[], [Text(x)])) == [ka, kb, Element(l, map[], [Text(x)]), kc];
  }

  lemma MovedAsAsked(m: Model, scope: Scope, now: seq<Node>, i: nat, n: Node, inList: bool, leaf: bool)
    requires n.Element? && INSERT in n.attrs && i < |now| && InstanceOf(now[i], n.name)
    requires MovePlace(m, scope, now, i, n, inList, leaf).To?
    ensures var at := MovePlace(m, scope, now, i, n, inList, leaf).at;
      at <= |Without(now, i)| &&
      AsAsked(n.attrs[INSERT], Refer(m, scope, now, n, leaf), now, n.name, inList,
        InsertAt(Without(now, i), at, now[i]), at)
  {
    hide Refer, Matches, FirstInstance, InsertAt, Without;
    var at, rest := MovePlace(m, scope, now, i, n, inList, leaf).at, Without(now, i);
    TakenOut(now, i, now[i]);
    InsertedStands(rest, at, now[i]);
    if n.attrs[INSERT] == "before" || n.attrs[INSERT] == "after" {
      var r := Refer(m, scope, now, n, leaf).i;
      MatchesItself(m, now[i], leaf);
      assert rest[if r < i then r else r - 1] == now[r];
    }
  }

  /** A moved entry: the siblings are a permutation of what they were, the others keep
      their order, and the entry stands where it was asked to. It stays where it was when
      it stands there already or refers to itself. */
  lemma MoveConserves(m: Model, scope: Scope, kids: seq<Node>, i: nat, n: Node, inList: bool, leaf: bool)
    requires n.Element? && i < |kids| && InstanceOf(kids[i], n.name)
    requires INSERT in n.attrs && MoveListed(m, scope, kids, i, n, inList, leaf).Placed?
    ensures var after, x := MoveListed(m, scope, kids, i, n, inList, leaf).kids, Drop(kids[i], INSERT);
      var now := kids[i := x];
      var ref := Refer(m, scope, now, n, leaf);
      multiset(after) == multiset(now) &&
      if RefersToItself(m, n.attrs[INSERT], ref, now, x, leaf) then after == now
      else exists pos ::
        Stands(after, pos, x, Without(kids, i)) &&
        AsAsked(n.attrs[INSERT], ref, now, n.name, inList, after, pos)
  {
    hide Refer, Matches, FirstInstance, InsertAt, Stands, Without;
    var x, rest := Drop(kids[i], INSERT), Without(kids, i);
    var now := kids[i := x];
    TakenOut(kids, i, x);
    InsertedStands(rest, i, x);
    match MovePlace(m, scope, now, i, n, inList, leaf)
    case To(at) =>
      hide MovePlace, AsAsked;
      InsertedStands(rest, at, x);
      MovedAsAsked(m, scope, now, i, n, inList, leaf);
    case Stay =>
      assert RefersToItself(m, n.attrs[INSERT], Refer(m, scope, now, n, leaf), now, x, leaf) ||
        AsAsked(n.attrs[INSERT], Refer(m, scope, now, n, leaf), now, n.name, inList, now, i);
  }

  /** When an entry is not moved: exactly if the insert value is none of the four, or the
      reference that before and after need is not found or in error. */
  lemma MoveOutcome(m: Model, scope: Scope, kids: seq<Node>, i: nat, n: Node, inList: bool, leaf: bool)
    requires n.Element? && i < |kids| && kids[i].Element?
    ensures var now := kids[i := kids[i].(attrs := kids[i].attrs - {"insert"})];
      var ref := Refer(m, scope, now, n, leaf);
      match MoveListed(m, scope, kids, i, n, inList, leaf)
      case Placed(_) =>
        "insert" !in n.attrs || n.attrs["insert"] in ["first", "last"] ||
        (n.attrs["insert"] in ["before", "after"] && ref.Found?)
      case UnknownInsert => "insert" in n.attrs && n.attrs["insert"] !in ["first", "last", "before", "after"]
      case MissingInstance =>
        "insert" in n.attrs && n.attrs["insert"] in ["before", "after"] && ref == NoInstance
      case Refused(why) => "insert" in n.attrs && n.attrs["insert"] in ["before", "after"] && ref == Fails(why)
      case NotOrdered => false
  {
    hide Refer, Matches;
  }

  lemma TakenOut(kids: seq<Node>, i: nat, x: Node)
    requires i < |kids|
    ensures |Without(kids, i)| == |kids| - 1 && Without(kids[i := x], i) == Without(kids, i)
    ensures kids[i := x] == InsertAt(Without(kids, i), i, x)
    ensures forall j :: 0 <= j < |kids| - 1 ==> Without(kids, i)[j] == kids[if j < i then j else j + 1]
  {
  }

  lemma PlaceMeans(m: Model, scope: Scope, now: seq<Node>, i: nat, n: Node, inList: bool, leaf: bool)
    requires n.Element? && INSERT in n.attrs && i < |now| && InstanceOf(now[i], n.name)
    ensures var ref := Refer(m, scope, now, n, leaf); var insert := n.attrs[INSERT];
      match MovePlace(m, scope, now, i, n, inList, leaf)
      case To(at) =>
        at <= |Without(now, i)| && AsAsked(insert, ref, now, n.name, inList, InsertAt(Without(now, i), at, now[i]), at)
      case Stay => AsAsked(insert, ref, now, n.name, inList, now, i) ||
        RefersToItself(m, insert, ref, now, now[i], leaf)
      case Unknown => insert !in ["first", "last", "before", "after"]
      case Nowhere => insert in ["before", "after"] && ref.NoInstance?
      case NoPlace(why) => insert in ["before", "after"] && ref == Fails(why)
  {
    hide Refer, Matches, FirstInstance, InsertAt, Without;
    MatchesItself(m, now[i], leaf);
    if MovePlace(m, scope, now, i, n, inList, leaf).To? {
      MovedAsAsked(m, scope, now, i, n, inList, leaf);
    }
  }

  // ---- moving in place

  /** Decides where the i-th entry goes: a place where it stands as asked, or its own if it
      stands as asked already or refers to itself; there is none exactly if the insert value
      is unknown or the reference is not found. */
  method SeekPlace(m: Model, scope: Scope, now: seq<Node>, i: nat, n: Node, inList: bool, leaf: bool)
    returns (r: Place)
    requires n.Element? && INSERT in n.attrs && i < |now| && InstanceOf(now[i], n.name)
    ensures r == MovePlace(m, scope, now, i, n, inList, leaf)
    ensures var ref := Refer(m, scope, now, n, leaf); var insert := n.attrs[INSERT];
      match r
      case To(at) =>
        at <= |Without(now, i)| && AsAsked(insert, ref, now, n.name, inList, InsertAt(Without(now, i), at, now[i]), at)
      case Stay => AsAsked(insert, ref, now, n.name, inList, now, i) ||
        RefersToItself(m, insert, ref, now, now[i], leaf)
      case Unknown => insert !in ["first", "last", "before", "after"]
      case Nowhere => insert in ["before", "after"] && ref.NoInstance?
      case NoPlace(why) => insert in ["before", "after"] && ref == Fails(why)
  {
    PlaceMeans(m, scope, now, i, n, inList, leaf);
    hide Refer, Matches, FirstInstance, AsAsked;
    if n.attrs[INSERT] == "last" {
      return if i == |now| - 1 then Stay else To(|now| - 1);
    }
    if n.attrs[INSERT] == "first" {
      if i == 0 {
        return Stay;
      }
      var at: nat := 0;
      if inList {
        at := SeekInstance(Without(now, i), now[i].name);
      }
      return To(at);
    }
    if n.attrs[INSERT] != "before" && n.attrs[INSERT] != "after" {
      return Unknown;
    }
    var ref := GetRef(m, scope, now, n, leaf);
    if ref.Fails? {
      return NoPlace(ref.why);
    }
    if ref.NoInstance? {
      return Nowhere;
    }
    MatchesItself(m, now[i], leaf);
    var same := MatchingElements(m, now[i], now[ref.i], leaf);
    if same {
      return Stay;
    }
    var at := if ref.i < i then ref.i else ref.i - 1;
    return To(if n.attrs[INSERT] == "before" then at else at + 1);
  }

  /** Moves the i-th entry of the list at p, whose parents are named at, if the list is
      user-ordered. On failure only its insert attribute is gone. */
  method EditMergeLists(m: Model, scope: Scope, at: seq<string>, orig: Document, p: Path, i: nat, n: Node)
    returns (r: Outcome)
    requires IsList(orig.roots, p) && n.Element?
    requires i < |KidsAt(orig.roots, p)| && InstanceOf(KidsAt(orig.roots, p)[i], n.name)
    modifies orig
    ensures r.NotOrdered? <==> !UserOrdered(m, at + [n.name])
    ensures !r.NotOrdered? ==>
      r == MoveListed(m, scope, KidsAt(old(orig.roots), p), i, n, InList(m, at), IsLeafList(m, at + [n.name]))
    ensures var kids := KidsAt(old(orig.roots), p);
      orig.roots == if r.NotOrdered? then old(orig.roots) else
        SetKids(old(orig.roots), p, if r.Placed? then r.kids else kids[i := Drop(kids[i], INSERT)])
  {
    hide MovePlace, SetKids, IsList, KidsAt, UserOrdered, IsLeafList, Refer, AsAsked, RefersToItself;
    if !UserOrdered(m, at + [n.name]) {
      return NotOrdered;
    }
    var inList, leaf := InList(m, at), IsLeafList(m, at + [n.name]);
    ghost var f := orig.roots;
    var kids := KidsAt(orig.roots, p);
    if INSERT !in n.attrs {
      SetGet(f, p);
      return Placed(kids);
    }
    var x := Drop(kids[i], INSERT);
    var now := kids[i := x];
    orig.Relink(p, now);
    SetThenGet(f, p, now);
    var place := SeekPlace(m, scope, now, i, n, inList, leaf);
    match place
    case Stay => return Placed(now);
    case To(to) =>
      assert Without(now, i) == Without(kids, i);
      SetThenSet(f, p, now, InsertAt(Without(kids, i), to, x));
      Rehang(orig, p, i, to, x);
      return Placed(InsertAt(Without(kids, i), to, x));
    case Unknown => return UnknownInsert;
    case Nowhere => return MissingInstance;
    case NoPlace(f) => return Refused(f);
  }
}
