/** Finding the sibling that an insert attribute refers to. */
module Reference {
  import opened Xml
  import opened Schema
  import opened Matching
  import opened KeyPredicate

  const KEY := "key"
  const VALUE := "value"

  /** The namespaces an edit node sees: its own module's, and what prefixes stand for. */
  datatype Scope = Scope(uri: string, prefixes: map<Option<string>, string>)

  datatype Fault =
    | MissingAttribute
    | BadKey
    | BadPrefix
    | Mixed
    | NotUnique
    | Endless

  datatype Ref = Found(i: nat) | NoInstance | Fails(why: Fault)

  /** A leaf-list entry is referred to by its value. */
  function RefLeafList(m: Model, kids: seq<Node>, n: Node): (r: Ref)
    requires n.Element?
    ensures r.Found? ==> r.i < |kids|
  {
    if VALUE !in n.attrs then Fails(MissingAttribute)
    else
      match FirstEntry(m, kids, n.name, n.attrs[VALUE])
      case Some(i) => Found(i)
      case None => NoInstance
  }

  predicate IsEntry(m: Model, k: Node, name: string, value: string) {
    k.Element? && k.name == name && TextFirst(k) && m.norm(k.kids[0].content) == value
  }

  function FirstEntry(m: Model, kids: seq<Node>, name: string, value: string): (r: Option<nat>)
    ensures r.Some? ==> r.value < |kids| && IsEntry(m, kids[r.value], name, value)
    ensures forall j :: 0 <= j < (if r.Some? then r.value else |kids|) ==> !IsEntry(m, kids[j], name, value)
  {
    if kids == [] then None
    else if IsEntry(m, kids[0], name, value) then Some(0)
    else
      match FirstEntry(m, kids[1..], name, value)
      case Some(i) => Some(i + 1)
      case None => None
  }

  method GetRefLeafList(m: Model, kids: seq<Node>, n: Node) returns (r: Ref)
    requires n.Element?
    ensures r == RefLeafList(m, kids, n)
  {
    if VALUE !in n.attrs {
      return Fails(MissingAttribute);
    }
    var i := 0;
    while i < |kids|
      invariant 0 <= i <= |kids|
      invariant forall j :: 0 <= j < i ==> !IsEntry(m, kids[j], n.name, n.attrs[VALUE])
    {
      if IsEntry(m, kids[i], n.name, n.attrs[VALUE]) {
        return Found(i);
      }
      i := i + 1;
    }
    return NoInstance;
  }

  /** An element called name whose first child is a text with this normalised content. */
  predicate HasTextValue(m: Model, k: Node, name: string, value: string) {
    match k
    case Text(_) => false
    case Element(n, _, kids) => n == name && kids != [] && kids[0].Text? && m.norm(kids[0].content) == value
  }

  /** The reference by value is the first sibling of that name whose first child is a text
      with the value as its normalised content; there is none if and only if no sibling is
      like that. */
  lemma ReferenceByValue(m: Model, kids: seq<Node>, n: Node)
    requires n.Element? && "value" in n.attrs
    ensures var value := n.attrs["value"];
      match RefLeafList(m, kids, n)
      case Found(i) =>
        kids[i].Element? && kids[i].name == n.name && kids[i].kids != [] && kids[i].kids[0].Text? &&
        m.norm(kids[i].kids[0].content) == value && forall j :: 0 <= j < i ==> !HasTextValue(m, kids[j], n.name, value)
      case NoInstance => forall j :: 0 <= j < |kids| ==> !HasTextValue(m, kids[j], n.name, value)
      case Fails(_) => false
  {
    var found := FirstEntry(m, kids, n.name, n.attrs["value"]);
    forall j | 0 <= j < |kids| && !IsEntry(m, kids[j], n.name, n.attrs["value"])
      ensures !HasTextValue(m, kids[j], n.name, n.attrs["value"])
    {
    }
  }

  /** A predicate with its prefix resolved. */
  datatype Key = Key(p: Predicate, uri: string)

  function PrefixOf(p: Predicate): Option<string> {
    if p.Expr? then p.prefix else None
  }

  datatype Keys = Keys(keys: seq<Key>) | Bad(why: Fault)

  /** The resolved predicates of a reference, up to the first one that is in error. */
  function Resolve(ps: seq<Parse>, prefixes: map<Option<string>, string>): Keys {
    if ps == [] then Keys([])
    else if ps[0].Invalid? then Bad(BadKey)
    else if ps[0].Unterminated? then Bad(Endless)
    else if PrefixOf(ps[0].p) !in prefixes then Bad(BadPrefix)
    else
      match Resolve(ps[1..], prefixes)
      case Keys(ks) => Keys([Key(ps[0].p, prefixes[PrefixOf(ps[0].p)])] + ks)
      case Bad(f) => Bad(f)
  }

  /** The element has a child with the name and value that the predicate asks for. */
  predicate Satisfies(m: Model, kids: seq<Node>, k: Key, uri: string) {
    k.p.Expr? && k.uri == uri && exists j :: 0 <= j < |kids| && IsEntry(m, kids[j], k.p.name, k.p.value)
  }

  datatype Verdict = Holds | HoldsNot | Confused

  /** The predicates are tried in order; a position among them is an error once reached. */
  function Check(m: Model, kids: seq<Node>, ks: seq<Key>, uri: string): Verdict {
    if ks == [] then Holds
    else if ks[0].p.Position? then Confused
    else if Satisfies(m, kids, ks[0], uri) then Check(m, kids, ks[1..], uri)
    else HoldsNot
  }

  /** The siblings from the i-th on, when found already satisfies all predicates. */
  function Pick(m: Model, kids: seq<Node>, i: nat, name: string, ks: seq<Key>, uri: string,
      found: Option<nat>): (r: Ref)
    requires i <= |kids| && (found.Some? ==> found.value < |kids|)
    ensures r.Found? ==> r.i < |kids|
    decreases |kids| - i
  {
    if i == |kids| then (if found.Some? then Found(found.value) else NoInstance)
    else if kids[i].Text? || kids[i].name != name then Pick(m, kids, i + 1, name, ks, uri, found)
    else
      match Check(m, kids[i].kids, ks, uri)
      case Confused => Fails(Mixed)
      case HoldsNot => Pick(m, kids, i + 1, name, ks, uri, found)
      case Holds => if found.Some? then Fails(NotUnique) else Pick(m, kids, i + 1, name, ks, uri, Some(i))
  }

  /** The sibling at a position among its namesakes, counted from 1. */
  function AtPosition(kids: seq<Node>, i: nat, name: string, n: int, j: int): (r: Ref)
    requires i <= |kids|
    ensures r.Found? ==> r.i < |kids|
    decreases |kids| - i
  {
    if i == |kids| then NoInstance
    else if kids[i].Text? || kids[i].name != name then AtPosition(kids, i + 1, name, n, j)
    else if n == j then Found(i)
    else AtPosition(kids, i + 1, name, n, j + 1)
  }

  /** A list entry is referred to by key predicates or by position. */
  function RefList(m: Model, scope: Scope, kids: seq<Node>, n: Node): (r: Ref)
    requires n.Element?
    ensures r.Found? ==> r.i < |kids|
  {
    if KEY !in n.attrs then Fails(MissingAttribute)
    else if Count(n.attrs[KEY], '[') == 0 then Fails(BadKey)
    else
      match Resolve(ParseAll(n.attrs[KEY]), scope.prefixes)
      case Bad(f) => Fails(f)
      case Keys(ks) =>
        if ks != [] && ks[0].p.Position? && ks[0].p.n > 0 then AtPosition(kids, 0, n.name, ks[0].p.n, 1)
        else Pick(m, kids, 0, n.name, ks, scope.uri, None)
  }

  /** What a key predicate asks of an entry: a child of the module's namespace with that
      name, whose first child is a text with that normalised content. */
  lemma SatisfiesExactly(m: Model, kids: seq<Node>, prefix: Option<string>, name: string, value: string, at: string,
      uri: string)
    ensures Satisfies(m, kids, Key(Expr(prefix, name, value), at), uri) <==>
      at == uri && exists j :: 0 <= j < |kids| && HasTextValue(m, kids[j], name, value)
  {
    forall j | 0 <= j < |kids|
      ensures IsEntry(m, kids[j], name, value) <==> HasTextValue(m, kids[j], name, value)
    {
    }
    hide IsEntry, HasTextValue;
  }

  /** Looks for a child with the name and value of a predicate. */
  method SeekKey(m: Model, kids: seq<Node>, k: Key, uri: string) returns (r: bool)
    requires k.p.Expr?
    ensures r <==> Satisfies(m, kids, k, uri)
  {
    var j := 0;
    while j < |kids|
      invariant 0 <= j <= |kids|
      invariant k.uri == uri ==> forall i :: 0 <= i < j ==> !IsEntry(m, kids[i], k.p.name, k.p.value)
    {
      if k.uri == uri && IsEntry(m, kids[j], k.p.name, k.p.value) {
        return true;
      }
      j := j + 1;
    }
    return false;
  }

  method CheckKeys(m: Model, kids: seq<Node>, ks: seq<Key>, uri: string) returns (v: Verdict)
    ensures v == Check(m, kids, ks, uri)
  {
    var i := 0;
    while i < |ks|
      invariant 0 <= i <= |ks|
      invariant Check(m, kids, ks, uri) == Check(m, kids, ks[i..], uri)
    {
      if ks[i].p.Position? {
        return Confused;
      }
      var r := SeekKey(m, kids, ks[i], uri);
      if !r {
        return HoldsNot;
      }
      i := i + 1;
    }
    return Holds;
  }

  /** Splits the reference into pieces and reads them one after the other. */
  method ReadKeys(ref: string, prefixes: map<Option<string>, string>) returns (r: Keys)
    ensures r == Resolve(ParseAll(ref), prefixes)
  {
    hide ParsePredicate, ParseEach, Resolve, PrefixOf, Count;
    var tokens := Tokens(ref);
    if Count(ref, '[') < |tokens| {
      tokens := tokens[..Count(ref, '[')];
    }
    var ks, i := [], 0;
    NothingToRead(tokens, prefixes);
    while i < |tokens|
      invariant 0 <= i <= |tokens|
      invariant Resolve(ParseEach(tokens), prefixes) ==
        match Resolve(ParseEach(tokens[i..]), prefixes)
        case Keys(more) => Keys(ks + more)
        case Bad(f) => Bad(f)
    {
      var p := ParseInstancePredicate(tokens[i]);
      ReadStep(tokens, i, prefixes);
      ghost var more := Resolve(ParseEach(tokens[i + 1..]), prefixes);
      assert more.Keys? && !p.Invalid? && !p.Unterminated? && PrefixOf(p.p) in prefixes ==>
        (ks + [Key(p.p, prefixes[PrefixOf(p.p)])]) + more.keys ==
          ks + ([Key(p.p, prefixes[PrefixOf(p.p)])] + more.keys);
      if p.Invalid? {
        return Bad(BadKey);
      }
      if p.Unterminated? {
        return Bad(Endless);
      }
      if PrefixOf(p.p) !in prefixes {
        return Bad(BadPrefix);
      }
      ks := ks + [Key(p.p, prefixes[PrefixOf(p.p)])];
      i := i + 1;
    }
    assert ks + [] == ks;
    return Keys(ks);
  }

  lemma ReadStep(tokens: seq<string>, i: nat, prefixes: map<Option<string>, string>)
    requires i < |tokens|
    ensures var p := ParsePredicate(tokens[i]);
      Resolve(ParseEach(tokens[i..]), prefixes) ==
        if p.Invalid? then Bad(BadKey)
        else if p.Unterminated? then Bad(Endless)
        else if PrefixOf(p.p) !in prefixes then Bad(BadPrefix)
        else
          match Resolve(ParseEach(tokens[i + 1..]), prefixes)
          case Keys(ks) => Keys([Key(p.p, prefixes[PrefixOf(p.p)])] + ks)
          case Bad(f) => Bad(f)
  {
    hide ParsePredicate;
    assert tokens[i..][1..] == tokens[i + 1..];
    assert ParseEach(tokens[i..])[1..] == ParseEach(tokens[i + 1..]);
  }

  lemma NothingToRead(tokens: seq<string>, prefixes: map<Option<string>, string>)
    ensures tokens[0..] == tokens && Resolve(ParseEach(tokens[|tokens|..]), prefixes) == Keys([])
    ensures forall ks: seq<Key> :: [] + ks == ks
  {
  }

  method GetRefList(m: Model, scope: Scope, kids: seq<Node>, n: Node) returns (r: Ref)
    requires n.Element?
    ensures r == RefList(m, scope, kids, n)
  {
    hide Count, Resolve, ParseAll, Check;
    if KEY !in n.attrs {
      return Fails(MissingAttribute);
    }
    if Count(n.attrs[KEY], '[') == 0 {
      return Fails(BadKey);
    }
    var read := ReadKeys(n.attrs[KEY], scope.prefixes);
    if read.Bad? {
      return Fails(read.why);
    }
    var ks := read.keys;
    if ks != [] && ks[0].p.Position? && ks[0].p.n > 0 {
      r := ByPosition(kids, n.name, ks[0].p.n);
    } else {
      r := ByKeys(m, kids, n.name, ks, scope.uri);
    }
  }

  method ByPosition(kids: seq<Node>, name: string, n: int) returns (r: Ref)
    ensures r == AtPosition(kids, 0, name, n, 1)
  {
    var i, j := 0, 1;
    while i < |kids|
      invariant 0 <= i <= |kids|
      invariant AtPosition(kids, 0, name, n, 1) == AtPosition(kids, i, name, n, j)
    {
      if kids[i].Element? && kids[i].name == name {
        if n == j {
          return Found(i);
        }
        j := j + 1;
      }
      i := i + 1;
    }
    return NoInstance;
  }

  method ByKeys(m: Model, kids: seq<Node>, name: string, ks: seq<Key>, uri: string) returns (r: Ref)
    ensures r == Pick(m, kids, 0, name, ks, uri, None)
  {
    hide Check;
    var i := 0;
    var found: Option<nat> := None;
    while i < |kids|
      invariant 0 <= i <= |kids| && (found.Some? ==> found.value < |kids|)
      invariant Pick(m, kids, 0, name, ks, uri, None) == Pick(m, kids, i, name, ks, uri, found)
    {
      if kids[i].Element? && kids[i].name == name {
        var v := CheckKeys(m, kids[i].kids, ks, uri);
        if v.Confused? {
          return Fails(Mixed);
        }
        if v.Holds? {
          if found.Some? {
            return Fails(NotUnique);
          }
          found := Some(i);
        }
      }
      i := i + 1;
    }
    return if found.Some? then Found(found.value) else NoInstance;
  }

  // ---- what a reference by position means

  predicate Namesake(n: Node, name: string) {
    n.Element? && n.name == name
  }

  /** How many of the first i siblings are called name. */
  function Namesakes(kids: seq<Node>, i: nat, name: string): nat
    requires i <= |kids|
  {
    if i == 0 then 0 else Namesakes(kids, i - 1, name) + if Namesake(kids[i - 1], name) then 1 else 0
  }

  /** The sibling at x is the n-th of its name. */
  predicate IsNth(kids: seq<Node>, x: nat, name: string, n: int) {
    x < |kids| && Namesake(kids[x], name) && Namesakes(kids, x, name) + 1 == n
  }

  lemma {:induction false} NamesakesGrow(kids: seq<Node>, i: nat, k: nat, name: string)
    requires i <= k <= |kids|
    ensures Namesakes(kids, i, name) <= Namesakes(kids, k, name)
    decreases k
  {
    if i < k {
      NamesakesGrow(kids, i, k - 1, name);
    }
  }

  lemma {:induction false} PositionMeans(kids: seq<Node>, i: nat, name: string, n: int, j: int)
    requires i <= |kids| && j == Namesakes(kids, i, name) + 1 && n >= j
    ensures match AtPosition(kids, i, name, n, j)
      case Found(x) => IsNth(kids, x, name, n)
      case NoInstance => Namesakes(kids, |kids|, name) < n
      case Fails(_) => false
    decreases |kids| - i
  {
    if i < |kids| {
      if kids[i].Text? || kids[i].name != name {
        PositionMeans(kids, i + 1, name, n, j);
      } else if n != j {
        PositionMeans(kids, i + 1, name, n, j + 1);
      }
    }
  }

  lemma OneNth(kids: seq<Node>, x: nat, y: nat, name: string, n: int)
    requires IsNth(kids, x, name, n) && IsNth(kids, y, name, n)
    ensures x == y
  {
    if x < y {
      NamesakesGrow(kids, x + 1, y, name);
    } else if y < x {
      NamesakesGrow(kids, y + 1, x, name);
    }
  }

  /** A reference by the position n finds exactly the n-th namesake of the edit node, and
      nothing if and only if there are fewer. */
  lemma ReferenceByPosition(m: Model, scope: Scope, kids: seq<Node>, n: Node, ks: seq<Key>)
    requires n.Element? && KEY in n.attrs && Count(n.attrs[KEY], '[') > 0
    requires Resolve(ParseAll(n.attrs[KEY]), scope.prefixes) == Keys(ks)
    requires ks != [] && ks[0].p.Position? && ks[0].p.n > 0
    ensures forall x: nat :: RefList(m, scope, kids, n) == Found(x) <==> IsNth(kids, x, n.name, ks[0].p.n)
    ensures RefList(m, scope, kids, n) == NoInstance <==> Namesakes(kids, |kids|, n.name) < ks[0].p.n
  {
    hide Count, ParseAll, Resolve, AtPosition;
    PositionMeans(kids, 0, n.name, ks[0].p.n, 1);
    forall x: nat | IsNth(kids, x, n.name, ks[0].p.n)
      ensures RefList(m, scope, kids, n) == Found(x)
    {
      NamesakesGrow(kids, x + 1, |kids|, n.name);
      var r := AtPosition(kids, 0, n.name, ks[0].p.n, 1);
      OneNth(kids, x, r.i, n.name, ks[0].p.n);
    }
    if RefList(m, scope, kids, n).Found? {
      NamesakesGrow(kids, RefList(m, scope, kids, n).i + 1, |kids|, n.name);
    }
  }

  // ---- what a reference by keys means

  /** A namesake of the edit node that satisfies every predicate. */
  predicate Referred(m: Model, kids: seq<Node>, i: nat, name: string, ks: seq<Key>, uri: string) {
    i < |kids| && kids[i].Element? && kids[i].name == name &&
    forall k :: 0 <= k < |ks| ==> Satisfies(m, kids[i].kids, ks[k], uri)
  }

  ghost predicate Several(m: Model, kids: seq<Node>, name: string, ks: seq<Key>, uri: string) {
    exists j, k :: j < k && Referred(m, kids, j, name, ks, uri) && Referred(m, kids, k, name, ks, uri)
  }

  lemma {:induction false} CheckMeans(m: Model, kids: seq<Node>, ks: seq<Key>, uri: string)
    requires forall k :: 0 <= k < |ks| ==> ks[k].p.Expr?
    ensures !Check(m, kids, ks, uri).Confused?
    ensures Check(m, kids, ks, uri).Holds? <==> forall k :: 0 <= k < |ks| ==> Satisfies(m, kids, ks[k], uri)
    decreases ks
  {
    hide Satisfies;
    if ks != [] {
      CheckMeans(m, kids, ks[1..], uri);
      assert forall k :: 0 < k < |ks| ==> ks[k] == ks[1..][k - 1];
    }
  }

  lemma {:induction false} PickMeans(m: Model, kids: seq<Node>, i: nat, name: string, ks: seq<Key>, uri: string,
      found: Option<nat>)
    requires i <= |kids| && forall k :: 0 <= k < |ks| ==> ks[k].p.Expr?
    requires found.Some? ==> found.value < i && Referred(m, kids, found.value, name, ks, uri)
    requires forall j :: 0 <= j < i && Referred(m, kids, j, name, ks, uri) ==> found == Some(j)
    ensures var r := Pick(m, kids, i, name, ks, uri, found);
      match r
      case Found(x) => Referred(m, kids, x, name, ks, uri) && forall j :: Referred(m, kids, j, name, ks, uri) ==> j == x
      case NoInstance => forall j :: !Referred(m, kids, j, name, ks, uri)
      case Fails(f) => f == NotUnique && Several(m, kids, name, ks, uri)
    decreases |kids| - i
  {
    hide Check, Satisfies;
    if i < |kids| {
      if kids[i].Element? && kids[i].name == name {
        CheckMeans(m, kids[i].kids, ks, uri);
        if Check(m, kids[i].kids, ks, uri).Holds? {
          if found.None? {
            PickMeans(m, kids, i + 1, name, ks, uri, Some(i));
          } else {
            assert Referred(m, kids, found.value, name, ks, uri) && Referred(m, kids, i, name, ks, uri);
          }
        } else {
          PickMeans(m, kids, i + 1, name, ks, uri, found);
        }
      } else {
        PickMeans(m, kids, i + 1, name, ks, uri, found);
      }
    }
  }

  /** The resolved predicates of a printed reference. */
  function KeysFor(ps: seq<Predicate>, prefixes: map<Option<string>, string>): (r: seq<Key>)
    requires forall i :: 0 <= i < |ps| ==> PrefixOf(ps[i]) in prefixes
    ensures |r| == |ps|
    ensures forall i :: 0 <= i < |ps| ==> r[i] == Key(ps[i], prefixes[PrefixOf(ps[i])])
  {
    if ps == [] then [] else [Key(ps[0], prefixes[PrefixOf(ps[0])])] + KeysFor(ps[1..], prefixes)
  }

  lemma {:induction false} ResolvePrinted(ps: seq<Predicate>, parsed: seq<Parse>, prefixes: map<Option<string>, string>)
    requires |parsed| == |ps| && forall i :: 0 <= i < |ps| ==> parsed[i] == Parsed(ps[i])
    requires forall i :: 0 <= i < |ps| ==> PrefixOf(ps[i]) in prefixes
    ensures Resolve(parsed, prefixes) == Keys(KeysFor(ps, prefixes))
    decreases ps
  {
    if ps != [] {
      ResolvePrinted(ps[1..], parsed[1..], prefixes);
    }
  }

  /** A printed reference with resolvable prefixes finds a sibling exactly when it is the
      only namesake that satisfies all predicates, and reports when there are several. */
  lemma ReferenceIsUnique(m: Model, scope: Scope, kids: seq<Node>, n: Node, ps: seq<Predicate>)
    requires n.Element? && ps != [] && AllPrintable(ps)
    requires forall i :: 0 <= i < |ps| ==> PrefixOf(ps[i]) in scope.prefixes
    requires KEY in n.attrs && n.attrs[KEY] == PrintAll(ps)
    ensures var ks := KeysFor(ps, scope.prefixes);
      match RefList(m, scope, kids, n)
      case Found(x) =>
        Referred(m, kids, x, n.name, ks, scope.uri) &&
        forall j :: Referred(m, kids, j, n.name, ks, scope.uri) ==> j == x
      case NoInstance => forall j :: !Referred(m, kids, j, n.name, ks, scope.uri)
      case Fails(f) => f == NotUnique && Several(m, kids, n.name, ks, scope.uri)
  {
    hide Count, ParseAll, Resolve, Pick, PrintAll, Referred;
    ParseInvertsPrint(ps);
    PrintedTokens(ps);
    ResolvePrinted(ps, ParseAll(PrintAll(ps)), scope.prefixes);
    PickMeans(m, kids, 0, n.name, KeysFor(ps, scope.prefixes), scope.uri, None);
  }

  // ---- references in error

  /** A reference without its attribute, or without an opening bracket, is in error, and so
      is the first piece that cannot be read or whose prefix is not known. */
  lemma ReferenceInError(m: Model, scope: Scope, kids: seq<Node>, n: Node)
    requires n.Element?
    ensures "value" !in n.attrs ==> RefLeafList(m, kids, n) == Fails(MissingAttribute)
    ensures "key" !in n.attrs ==> RefList(m, scope, kids, n) == Fails(MissingAttribute)
    ensures "key" in n.attrs && '[' !in n.attrs["key"] ==> RefList(m, scope, kids, n) == Fails(BadKey)
    ensures "key" in n.attrs && '[' in n.attrs["key"] ==>
      var pieces := ParseAll(n.attrs["key"]);
      (forall i: nat :: FirstFault(pieces, scope.prefixes, i) ==>
        RefList(m, scope, kids, n) == Fails(FaultOf(pieces[i], scope.prefixes))) &&
      ((forall i :: 0 <= i < |pieces| ==> Readable(pieces[i], scope.prefixes)) ==>
        RefList(m, scope, kids, n) !in {Fails(MissingAttribute), Fails(BadKey), Fails(BadPrefix), Fails(Endless)})
  {
    hide ParseAll, AtPosition, Resolve;
    if "key" in n.attrs {
      CountMeans(n.attrs["key"], '[');
      var pieces := ParseAll(n.attrs["key"]);
      ResolveFails(pieces, scope.prefixes);
      match Resolve(pieces, scope.prefixes)
      case Bad(_) =>
      case Keys(ks) =>
        PickFails(m, kids, 0, n.name, ks, scope.uri, None);
        if ks != [] && ks[0].p.Position? {
          PositionFails(kids, 0, n.name, ks[0].p.n, 1);
        }
    }
  }

  predicate Readable(p: Parse, prefixes: map<Option<string>, string>) {
    match p
    case Parsed(Expr(prefix, _, _)) => prefix in prefixes
    case Parsed(Position(_)) => None in prefixes
    case _ => false
  }

  function FaultOf(p: Parse, prefixes: map<Option<string>, string>): Fault {
    match p
    case Invalid => BadKey
    case Unterminated => Endless
    case Parsed(_) => BadPrefix
  }

  /** The i-th piece is the first that is in error. */
  predicate FirstFault(pieces: seq<Parse>, prefixes: map<Option<string>, string>, i: nat) {
    i < |pieces| && !Readable(pieces[i], prefixes) && forall j :: 0 <= j < i ==> Readable(pieces[j], prefixes)
  }

  lemma {:induction false} CountMeans(s: string, c: char)
    ensures Count(s, c) == 0 <==> c !in s
  {
    if s != "" {
      CountMeans(s[1..], c);
      assert s == [s[0]] + s[1..];
    }
  }

  lemma {:induction false} ResolveFails(pieces: seq<Parse>, prefixes: map<Option<string>, string>)
    ensures forall i: nat :: FirstFault(pieces, prefixes, i) ==>
      Resolve(pieces, prefixes) == Bad(FaultOf(pieces[i], prefixes))
    ensures (forall i :: 0 <= i < |pieces| ==> Readable(pieces[i], prefixes)) ==> Resolve(pieces, prefixes).Keys?
    decreases pieces
  {
    if pieces != [] {
      ResolveFails(pieces[1..], prefixes);
      assert forall i :: 0 < i < |pieces| ==> pieces[i] == pieces[1..][i - 1];
      forall i: nat | FirstFault(pieces, prefixes, i)
        ensures Resolve(pieces, prefixes) == Bad(FaultOf(pieces[i], prefixes))
      {
        if i > 0 {
          assert FirstFault(pieces[1..], prefixes, i - 1) && pieces[1..][i - 1] == pieces[i];
        }
      }
    }
  }

  lemma {:induction false} PickFails(m: Model, kids: seq<Node>, i: nat, name: string, ks: seq<Key>, uri: string,
      found: Option<nat>)
    requires i <= |kids| && (found.Some? ==> found.value < |kids|)
    ensures var r := Pick(m, kids, i, name, ks, uri, found); r.Fails? ==> r.why in {Mixed, NotUnique}
    decreases |kids| - i
  {
    hide Check;
    if i < |kids| {
      PickFails(m, kids, i + 1, name, ks, uri, found);
      PickFails(m, kids, i + 1, name, ks, uri, Some(i));
    }
  }

  lemma {:induction false} PositionFails(kids: seq<Node>, i: nat, name: string, n: int, j: int)
    requires i <= |kids|
    ensures !AtPosition(kids, i, name, n, j).Fails?
    decreases |kids| - i
  {
    if i < |kids| {
      PositionFails(kids, i + 1, name, n, j);
      PositionFails(kids, i + 1, name, n, j + 1);
    }
  }

  /** A position behind key predicates is an error as soon as an entry satisfies those ahead
      of it; otherwise nothing is found. */
  lemma PositionAmongKeys(m: Model, scope: Scope, kids: seq<Node>, n: Node, ks: seq<Key>, p: nat)
    requires n.Element? && "key" in n.attrs && '[' in n.attrs["key"]
    requires Resolve(ParseAll(n.attrs["key"]), scope.prefixes) == Keys(ks)
    requires p < |ks| && ks[p].p.Position? && (forall j :: 0 <= j < p ==> ks[j].p.Expr?) && (p == 0 ==> ks[0].p.n <= 0)
    ensures RefList(m, scope, kids, n) ==
      if exists i :: Referred(m, kids, i, n.name, ks[..p], scope.uri) then Fails(Mixed) else NoInstance
  {
    hide ParseAll, Resolve, Count, Referred;
    CountMeans(n.attrs["key"], '[');
    PickConfused(m, kids, 0, n.name, ks, scope.uri, p);
  }

  lemma {:induction false} CheckConfused(m: Model, kids: seq<Node>, ks: seq<Key>, uri: string, p: nat)
    requires p < |ks| && ks[p].p.Position? && forall j :: 0 <= j < p ==> ks[j].p.Expr?
    ensures Check(m, kids, ks, uri) ==
      if forall k :: 0 <= k < p ==> Satisfies(m, kids, ks[k], uri) then Confused else HoldsNot
    decreases p
  {
    hide Satisfies;
    if p > 0 {
      CheckConfused(m, kids, ks[1..], uri, p - 1);
      assert forall k :: 0 < k < p ==> ks[k] == ks[1..][k - 1];
    }
  }

  lemma {:induction false} PickConfused(m: Model, kids: seq<Node>, i: nat, name: string, ks: seq<Key>, uri: string,
      p: nat)
    requires i <= |kids| && p < |ks| && ks[p].p.Position? && forall j :: 0 <= j < p ==> ks[j].p.Expr?
    ensures Pick(m, kids, i, name, ks, uri, None) ==
      if exists x :: i <= x && Referred(m, kids, x, name, ks[..p], uri) then Fails(Mixed) else NoInstance
    decreases |kids| - i
  {
    hide Check, Satisfies;
    if i < |kids| {
      PickConfused(m, kids, i + 1, name, ks, uri, p);
      if kids[i].Element? {
        CheckConfused(m, kids[i].kids, ks, uri, p);
      }
      assert Referred(m, kids, i, name, ks[..p], uri) <==>
        kids[i].Element? && kids[i].name == name && Check(m, kids[i].kids, ks, uri).Confused?;
    }
  }
}
