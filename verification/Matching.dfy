/** Deciding whether an edit node and a configuration node are the same instance, and
    finding the configuration node that an edit node stands for. */
module Matching {
  import opened Xml
  import opened Schema

  /** Text nodes are called "text" by the XML library. */
  function NameOf(n: Node): string {
    match n
    case Text(_) => "text"
    case Element(name, _, _) => name
  }

  /** The first node called name. */
  function FirstNamed(kids: seq<Node>, name: string): (r: Option<nat>)
    ensures r.Some? ==> r.value < |kids| && NameOf(kids[r.value]) == name
    ensures forall j :: 0 <= j < (if r.Some? then r.value else |kids|) ==> NameOf(kids[j]) != name
  {
    if kids == [] then None
    else if NameOf(kids[0]) == name then Some(0)
    else
      match FirstNamed(kids[1..], name)
      case Some(i) => Some(i + 1)
      case None => None
  }

  /** A key called "text" is looked up among the texts as well. */
  lemma TextIsNamed(kids: seq<Node>)
    requires kids != [] && kids[0].Text?
    ensures FirstNamed(kids, "text") == Some(0)
  {
  }

  /** The normalised content of the first child called name. */
  function KidValue(m: Model, kids: seq<Node>, name: string): Option<string> {
    match FirstNamed(kids, name)
    case Some(i) => Some(m.norm(Content(kids[i])))
    case None => None
  }

  /** The key children present among kids, in the order of the key names. */
  function KeyKids(kids: seq<Node>, names: seq<string>): seq<nat> {
    if names == [] then []
    else
      match FirstNamed(kids, names[0])
      case Some(i) => [i] + KeyKids(kids, names[1..])
      case None => KeyKids(kids, names[1..])
  }

  /** Every key that e carries has the same value in o. */
  predicate KeysMatch(m: Model, e: Node, o: Node)
    requires e.Element? && o.Element?
  {
    forall k :: k in KeysOf(m, e.name) && KidValue(m, e.kids, k).Some? ==>
      KidValue(m, o.kids, k) == KidValue(m, e.kids, k)
  }

  predicate TextFirst(n: Node)
    requires n.Element?
  {
    n.kids != [] && n.kids[0].Text?
  }

  /** True if the configuration node o is an instance the edit node e can stand for.
      With leaf set, elements that start with text are told apart by that text. */
  predicate Matches(m: Model, e: Node, o: Node, leaf: bool) {
    match (e, o)
    case (Text(s), Text(t)) => m.norm(s) == m.norm(t)
    case (Element(n1, _, _), Element(n2, _, _)) =>
      n1 == n2 &&
      if leaf && TextFirst(e) && TextFirst(o)
      then m.norm(e.kids[0].content) == m.norm(o.kids[0].content)
      else KeysMatch(m, e, o)
    case _ => false
  }

  lemma MatchesItself(m: Model, x: Node, leaf: bool)
    ensures Matches(m, x, x, leaf)
  {
  }

  /** Walks the siblings to the first one called name; past the end if there is none. */
  method SeekNamed(kids: seq<Node>, name: string) returns (c: nat)
    ensures FirstNamed(kids, name) == if c < |kids| then Some(c) else None
  {
    c := 0;
    while c < |kids| && NameOf(kids[c]) != name
      invariant 0 <= c <= |kids|
      invariant forall d :: 0 <= d < c ==> NameOf(kids[d]) != name
    {
      c := c + 1;
    }
  }

  /** Finds the key statement that applies to elements called name. */
  method SeekKeyStmt(stmts: seq<KeyStmt>, name: string) returns (names: seq<string>)
    ensures names == KeysIn(stmts, name)
  {
    var j := 0;
    while j < |stmts|
      invariant 0 <= j <= |stmts|
      invariant KeysIn(stmts, name) == KeysIn(stmts[j..], name)
    {
      if stmts[j].list == name {
        return stmts[j].names;
      }
      j := j + 1;
    }
    return [];
  }

  /** Collects the key children of an element. With all set, a missing key is a failure. */
  method GetKeys(m: Model, node: Node, all: bool) returns (ok: bool, result: seq<nat>)
    requires node.Element?
    ensures ok <==> all ==> forall k :: k in KeysOf(m, node.name) ==> FirstNamed(node.kids, k).Some?
    ensures result == if ok then KeyKids(node.kids, KeysOf(m, node.name)) else []
  {
    hide FirstNamed, KeysIn, KeyStmts, NameOf, KeyKids;
    var tokens := SeekKeyStmt(KeyStmts(m.top), node.name);
    result := [];
    var i := 0;
    while i < |tokens|
      invariant 0 <= i <= |tokens|
      invariant KeyKids(node.kids, tokens) == result + KeyKids(node.kids, tokens[i..])
      invariant all ==> forall j :: 0 <= j < i ==> FirstNamed(node.kids, tokens[j]).Some?
    {
      KeyKidsFrom(node.kids, tokens, i);
      var c := SeekNamed(node.kids, tokens[i]);
      if c < |node.kids| {
        result := result + [c];
      } else if all {
        return false, [];
      }
      i := i + 1;
    }
    assert tokens[i..] == [] && result + [] == result;
    NoKeyKids(node.kids);
    return true, result;
  }

  lemma NoKeyKids(kids: seq<Node>)
    ensures KeyKids(kids, []) == []
  {
  }

  lemma KeyKidsFrom(kids: seq<Node>, names: seq<string>, i: nat)
    requires i < |names|
    ensures KeyKids(kids, names[i..]) ==
      (if FirstNamed(kids, names[i]).Some? then [FirstNamed(kids, names[i]).value] else []) +
      KeyKids(kids, names[i + 1..])
  {
    assert names[i..][1..] == names[i + 1..];
  }

  /** KeyKids lists exactly the first children that carry one of the names. */
  lemma {:induction false} KeyKidsAre(kids: seq<Node>, names: seq<string>)
    ensures forall c: nat :: c in KeyKids(kids, names) <==> IsKeyKid(kids, names, c)
  {
    if names != [] {
      KeyKidsAre(kids, names[1..]);
      forall c: nat
        ensures c in KeyKids(kids, names) <==> IsKeyKid(kids, names, c)
      {
        assert names == [names[0]] + names[1..];
      }
    }
  }

  /** If every key is there, the key children are listed in the order of the key names. */
  lemma {:induction false} KeyKidsInOrder(kids: seq<Node>, names: seq<string>)
    requires forall i :: 0 <= i < |names| ==> FirstNamed(kids, names[i]).Some?
    ensures |KeyKids(kids, names)| == |names|
    ensures forall i :: 0 <= i < |names| ==> KeyKids(kids, names)[i] == FirstNamed(kids, names[i]).value
    decreases names
  {
    hide FirstNamed;
    if names != [] {
      KeyKidsInOrder(kids, names[1..]);
    }
  }

  predicate IsKeyKid(kids: seq<Node>, names: seq<string>, c: nat) {
    c < |kids| && NameOf(kids[c]) in names && FirstNamed(kids, NameOf(kids[c])) == Some(c)
  }

  /** The c-th child of e has a namesake in o with the same value. */
  predicate KidAgrees(m: Model, e: Node, o: Node, c: nat)
    requires e.Element? && o.Element?
  {
    c < |e.kids| && KidValue(m, o.kids, NameOf(e.kids[c])) == Some(m.norm(Content(e.kids[c])))
  }

  /** Comparing the listed key children decides KeysMatch. */
  lemma KeyKidsDecide(m: Model, e: Node, o: Node)
    requires e.Element? && o.Element?
    ensures KeysMatch(m, e, o) <==>
      forall c: nat :: c in KeyKids(e.kids, KeysOf(m, e.name)) ==> KidAgrees(m, e, o, c)
  {
    var names := KeysOf(m, e.name);
    KeyKidsAre(e.kids, names);
    if forall c: nat :: c in KeyKids(e.kids, names) ==> KidAgrees(m, e, o, c) {
      forall k | k in names && KidValue(m, e.kids, k).Some?
        ensures KidValue(m, o.kids, k) == KidValue(m, e.kids, k)
      {
        assert IsKeyKid(e.kids, names, FirstNamed(e.kids, k).value);
      }
    }
    if KeysMatch(m, e, o) {
      forall c: nat | IsKeyKid(e.kids, names, c)
        ensures KidAgrees(m, e, o, c)
      {
        assert KidValue(m, e.kids, NameOf(e.kids[c])).Some?;
      }
    }
  }

  /** Looks for one key child of the edit node among the children of the other node. */
  method SameKey(m: Model, keynode: Node, kids: seq<Node>) returns (r: bool)
    ensures r <==> KidValue(m, kids, NameOf(keynode)) == Some(m.norm(Content(keynode)))
  {
    var c := SeekNamed(kids, NameOf(keynode));
    return c < |kids| && m.norm(Content(kids[c])) == m.norm(Content(keynode));
  }

  /** Compares two elements by the keys of the first. */
  method MatchingKeys(m: Model, e: Node, o: Node) returns (r: bool)
    requires e.Element? && o.Element?
    ensures r <==> KeysMatch(m, e, o)
  {
    hide KeysMatch, KeyKids, KidAgrees;
    var ok, keys := GetKeys(m, e, false);
    KeyKidsDecide(m, e, o);
    var i := 0;
    while i < |keys|
      invariant 0 <= i <= |keys|
      invariant forall a :: 0 <= a < i ==> KidAgrees(m, e, o, keys[a])
    {
      KeyKidInRange(m, e, o, keys[i]);
      var same := SameKey(m, e.kids[keys[i]], o.kids);
      if !same {
        return false;
      }
      i := i + 1;
    }
    return true;
  }

  lemma KeyKidInRange(m: Model, e: Node, o: Node, c: nat)
    requires e.Element? && o.Element? && c in KeyKids(e.kids, KeysOf(m, e.name))
    ensures c < |e.kids|
    ensures KidAgrees(m, e, o, c) <==>
      KidValue(m, o.kids, NameOf(e.kids[c])) == Some(m.norm(Content(e.kids[c])))
  {
    KeyKidsAre(e.kids, KeysOf(m, e.name));
  }

  /** Compares an edit node with a configuration node. */
  method MatchingElements(m: Model, e: Node, o: Node, leaf: bool) returns (r: bool)
    ensures r <==> Matches(m, e, o, leaf)
  {
    if e.Text? && o.Text? {
      return m.norm(e.content) == m.norm(o.content);
    }
    if !e.Element? || !o.Element? || e.name != o.name {
      return false;
    }
    if leaf && TextFirst(e) && TextFirst(o) {
      return m.norm(e.kids[0].content) == m.norm(o.kids[0].content);
    }
    r := MatchingKeys(m, e, o);
  }
}
