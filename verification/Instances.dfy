/** What configuration data means: every element is an instance, told apart from its
    siblings by its name and key values, and a document is a map from instance paths to
    values. */
module Instances {
  import opened Xml
  import opened Schema
  import opened Matching

  /** The identity of an element among its siblings. */
  datatype Id = Id(name: string, keys: seq<Option<string>>)

  /** The key values of an element, one per key name. */
  function KeyValues(m: Model, kids: seq<Node>, names: seq<string>): (r: seq<Option<string>>)
    ensures |r| == |names|
    ensures forall i :: 0 <= i < |names| ==> r[i] == KidValue(m, kids, names[i])
  {
    if names == [] then [] else [KidValue(m, kids, names[0])] + KeyValues(m, kids, names[1..])
  }

  /** The identity of a child of an element whose chain of names is at. A leaf-list
      entry is identified by its value, any other element by its keys. */
  function IdOf(m: Model, at: seq<string>, n: Node): Id
    requires n.Element?
  {
    if IsLeafList(m, at + [n.name]) && TextFirst(n) then Id(n.name, [Some(m.norm(n.kids[0].content))])
    else Id(n.name, KeyValues(m, n.kids, KeysOf(m, n.name)))
  }

  /** An element that says which instance it stands for: it carries all its keys, and a
      leaf-list entry carries its value. */
  predicate Addressed(m: Model, at: seq<string>, n: Node) {
    n.Element? &&
    (forall k :: k in KeysOf(m, n.name) ==> FirstNamed(n.kids, k).Some?) &&
    (IsLeafList(m, at + [n.name]) ==> TextFirst(n))
  }

  /** On elements that say which instance they stand for, matching is having the same
      identity. */
  lemma MatchIsSameId(m: Model, at: seq<string>, e: Node, o: Node)
    requires Addressed(m, at, e) && Addressed(m, at, o)
    ensures Matches(m, e, o, IsLeafList(m, at + [e.name])) <==> IdOf(m, at, e) == IdOf(m, at, o)
  {
    if e.name == o.name && !IsLeafList(m, at + [e.name]) {
      var names := KeysOf(m, e.name);
      var ve, vo := KeyValues(m, e.kids, names), KeyValues(m, o.kids, names);
      if KeysMatch(m, e, o) {
        forall i | 0 <= i < |names|
          ensures ve[i] == vo[i]
        {
          assert names[i] in names;
        }
        assert ve == vo;
      }
      if ve == vo {
        forall k | k in names
          ensures KidValue(m, o.kids, k) == KidValue(m, e.kids, k)
        {
          var i :| 0 <= i < |names| && names[i] == k;
          assert ve[i] == vo[i];
        }
      }
    }
  }

  /** Matching is an equivalence on elements that say which instance they stand for. */
  lemma MatchingIsEquivalence(m: Model, at: seq<string>, a: Node, b: Node, c: Node)
    requires Addressed(m, at, a) && Addressed(m, at, b) && Addressed(m, at, c)
    ensures Matches(m, a, a, IsLeafList(m, at + [a.name]))
    ensures Matches(m, a, b, IsLeafList(m, at + [a.name])) ==> Matches(m, b, a, IsLeafList(m, at + [b.name]))
    ensures Matches(m, a, b, IsLeafList(m, at + [a.name])) && Matches(m, b, c, IsLeafList(m, at + [b.name]))
      ==> Matches(m, a, c, IsLeafList(m, at + [a.name]))
  {
    MatchIsSameId(m, at, a, a);
    MatchIsSameId(m, at, a, b);
    MatchIsSameId(m, at, b, a);
    MatchIsSameId(m, at, b, c);
    MatchIsSameId(m, at, a, c);
  }

  /** A child list that obeys the model: every element is defined, leaves hold one text,
      keys are leaves, and no two siblings are the same instance. */
  predicate FitKids(m: Model, at: seq<string>, kids: seq<Node>)
    decreases kids, 0
  {
    (forall i :: 0 <= i < |kids| ==> FitNode(m, at, kids[i])) &&
    (forall i, j :: 0 <= i < j < |kids| ==> IdOf(m, at, kids[i]) != IdOf(m, at, kids[j]))
  }

  predicate FitNode(m: Model, at: seq<string>, n: Node)
    decreases n, 1
  {
    Addressed(m, at, n) &&
    (IsKeyAt(m, at, n.name) ==> KindOf(m, at + [n.name]).Some? && KindOf(m, at + [n.name]).value.Leaf?) &&
    match KindOf(m, at + [n.name])
    case Some(Leaf(_)) => HoldsText(n) && KeysOf(m, n.name) == []
    case Some(LeafList(_)) => HoldsText(n)
    case Some(Container(_)) => FitKids(m, at + [n.name], n.kids)
    case Some(List(_, _)) => FitKids(m, at + [n.name], n.kids)
    case _ => false
  }

  predicate HoldsText(n: Node)
    requires n.Element?
  {
    |n.kids| == 1 && n.kids[0].Text?
  }

  /** The value of an instance: containers and list entries are inner instances; keys and
      leaf-list entries count up to whitespace, other leaves exactly. */
  datatype Val = Inner | LeafVal(text: string)

  predicate IsKeyAt(m: Model, at: seq<string>, name: string) {
    at != [] && IsKey(m, at[|at| - 1], name)
  }

  function ValueOf(m: Model, at: seq<string>, n: Node): Val
    requires n.Element?
  {
    if !TextFirst(n) then Inner
    else if IsLeafList(m, at + [n.name]) || IsKeyAt(m, at, n.name) then LeafVal(m.norm(n.kids[0].content))
    else LeafVal(n.kids[0].content)
  }

  /** The first sibling with a given identity. */
  function SeekId(m: Model, at: seq<string>, kids: seq<Node>, id: Id): (r: Option<nat>)
    ensures r.Some? ==> r.value < |kids| && kids[r.value].Element? && IdOf(m, at, kids[r.value]) == id
    ensures forall j :: 0 <= j < (if r.Some? then r.value else |kids|) ==>
      kids[j].Text? || IdOf(m, at, kids[j]) != id
  {
    if kids == [] then None
    else if kids[0].Element? && IdOf(m, at, kids[0]) == id then Some(0)
    else
      match SeekId(m, at, kids[1..], id)
      case Some(i) => Some(i + 1)
      case None => None
  }

  /** The document as a map from instance paths to values. */
  function Lookup(m: Model, at: seq<string>, kids: seq<Node>, p: seq<Id>): Option<Val>
    requires p != []
    decreases p
  {
    match SeekId(m, at, kids, p[0])
    case None => None
    case Some(i) =>
      if |p| == 1 then Some(ValueOf(m, at, kids[i]))
      else Lookup(m, at + [kids[i].name], kids[i].kids, p[1..])
  }

  /** In a fit list an instance is found where it is. */
  lemma SeekFinds(m: Model, at: seq<string>, kids: seq<Node>, j: nat)
    requires FitKids(m, at, kids) && j < |kids|
    ensures kids[j].Element? && SeekId(m, at, kids, IdOf(m, at, kids[j])) == Some(j)
  {
    hide IdOf;
    assert FitNode(m, at, kids[j]);
    var i := SeekId(m, at, kids, IdOf(m, at, kids[j])).value;
  }

  /** One step of the search. */
  lemma SeekHead(m: Model, at: seq<string>, kids: seq<Node>, id: Id)
    requires kids != []
    ensures SeekId(m, at, kids, id) ==
      if kids[0].Element? && IdOf(m, at, kids[0]) == id then Some(0)
      else Bump(SeekId(m, at, kids[1..], id), 1)
  {
  }

  function Bump(i: Option<nat>, n: nat): Option<nat> {
    if i.Some? then Some(i.value + n) else None
  }

  lemma {:induction false} SeekAppend(m: Model, at: seq<string>, kids: seq<Node>, more: seq<Node>, id: Id)
    ensures SeekId(m, at, kids + more, id) ==
      if SeekId(m, at, kids, id).Some? then SeekId(m, at, kids, id)
      else Bump(SeekId(m, at, more, id), |kids|)
  {
    hide IdOf, SeekId;
    if kids == [] {
      assert kids + more == more;
      SeekEmpty(m, at, id);
    } else {
      var all := kids + more;
      assert all[0] == kids[0] && all[1..] == kids[1..] + more;
      SeekHead(m, at, all, id);
      SeekHead(m, at, kids, id);
      SeekAppend(m, at, kids[1..], more, id);
    }
  }

  lemma SeekEmpty(m: Model, at: seq<string>, id: Id)
    ensures SeekId(m, at, [], id).None?
  {
  }

  /** Changing an element without changing its identity changes no search. */
  lemma {:induction false} SeekUpdate(m: Model, at: seq<string>, kids: seq<Node>, i: nat, n: Node, id: Id)
    requires i < |kids| && kids[i].Element? && n.Element? && IdOf(m, at, n) == IdOf(m, at, kids[i])
    ensures SeekId(m, at, kids[i := n], id) == SeekId(m, at, kids, id)
  {
    hide IdOf;
    if i > 0 {
      assert kids[i := n][1..] == kids[1..][i - 1 := n];
      SeekUpdate(m, at, kids[1..], i - 1, n, id);
    }
  }

  lemma FitMember(m: Model, at: seq<string>, kids: seq<Node>, i: nat)
    requires FitKids(m, at, kids) && i < |kids|
    ensures FitNode(m, at, kids[i]) && Addressed(m, at, kids[i])
  {
  }

  lemma FitNodeAddressed(m: Model, at: seq<string>, n: Node)
    requires FitNode(m, at, n)
    ensures Addressed(m, at, n)
  {
  }
}
