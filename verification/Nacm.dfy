/** Access control: deciding one access by the rules, and pruning what may not be read. */
module Nacm {
  import opened Xml

  datatype Access = Create | Read | Update | Delete | Exec

  datatype RuleKind = AnyKind | DataRule(path: Option<string>) | OtherKind

  datatype Rule = Rule(module_: string, access: set<Access>, kind: RuleKind, deny: bool)

  /** What evaluating a rule's path says about a node; NoContext stands for a failure to set
      the evaluation up. */
  datatype PathResult = Selects | Misses | CannotEvaluate | NoContext

  /** The rules in force, and what is known about the nodes of the document at hand, which
      are named by their positions in it: whether the configured module defines them, what
      the paths of rules select, and what the module denies by default. */
  datatype Policy = Policy(
    lists: seq<seq<Rule>>, denyRead: bool, denyWrite: bool,
    name: string, defines: Path -> bool, path: (string, Path) -> PathResult,
    denyAll: Path -> bool, denyWriting: Path -> bool)

  datatype Decision = Permit | Deny | Failed

  const WRITES := {Create, Delete, Update}

  /** True if the scan of the rules ends at r. A rule whose path cannot be evaluated counts
      as matching. */
  predicate RuleMatches(pol: Policy, r: Rule, node: Path, access: set<Access>) {
    (r.module_ == "*" || r.module_ == pol.name) && r.access * access != {} &&
    match r.kind
    case AnyKind => true
    case DataRule(Some(p)) => pol.path(p, node) != Misses
    case _ => false
  }

  function FirstRule(pol: Policy, rules: seq<Rule>, node: Path, access: set<Access>): Option<Rule> {
    if rules == [] then None
    else if RuleMatches(pol, rules[0], node, access) then Some(rules[0])
    else FirstRule(pol, rules[1..], node, access)
  }

  function Concat(lists: seq<seq<Rule>>): seq<Rule> {
    if lists == [] then [] else lists[0] + Concat(lists[1..])
  }

  function Verdict(deny: bool): Decision {
    if deny then Deny else Permit
  }

  /** What the rule at which the scan ends decides. */
  function Ruling(pol: Policy, r: Rule, node: Path): Decision {
    if r.kind.DataRule? && r.kind.path.Some? && pol.path(r.kind.path.value, node) == NoContext then Failed
    else Verdict(r.deny)
  }

  function Default(pol: Policy, access: set<Access>): Decision {
    if Read in access then Verdict(pol.denyRead)
    else if access * WRITES != {} then Verdict(pol.denyWrite)
    else Deny
  }

  /** The decision on an access to a node. */
  function Decide(nacm: Option<Policy>, node: Path, element: bool, access: set<Access>): Decision {
    if access == {} then Failed
    else if nacm.None? || !element then Permit
    else
      var pol := nacm.value;
      if !pol.defines(node) then Default(pol, access)
      else
        match FirstRule(pol, Concat(pol.lists), node, access)
        case Some(r) => Ruling(pol, r, node)
        case None =>
          if pol.denyAll(node) || (access * WRITES != {} && pol.denyWriting(node)) then Deny
          else Default(pol, access)
  }

  /** The counter of denied accesses. */
  class Stats {
    var denied: nat
    constructor ()
      ensures denied == 0
    {
      denied := 0;
    }
  }

  lemma {:induction false} FirstRuleConcat(pol: Policy, a: seq<Rule>, b: seq<Rule>, node: Path, access: set<Access>)
    ensures FirstRule(pol, a + b, node, access) ==
      if FirstRule(pol, a, node, access).Some? then FirstRule(pol, a, node, access)
      else FirstRule(pol, b, node, access)
  {
    if a == [] {
      assert a + b == b;
    } else {
      assert (a + b)[1..] == a[1..] + b;
      FirstRuleConcat(pol, a[1..], b, node, access);
    }
  }

  /** Scans the rule lists, list by list and rule by rule. */
  method ScanRules(pol: Policy, node: Path, access: set<Access>) returns (r: Option<Rule>)
    ensures r == FirstRule(pol, Concat(pol.lists), node, access)
  {
    hide RuleMatches;
    var i := 0;
    while i < |pol.lists|
      invariant 0 <= i <= |pol.lists|
      invariant FirstRule(pol, Concat(pol.lists), node, access) ==
        FirstRule(pol, Concat(pol.lists[i..]), node, access)
    {
      var rules := pol.lists[i];
      assert pol.lists[i..][1..] == pol.lists[i + 1..];
      FirstRuleConcat(pol, rules, Concat(pol.lists[i + 1..]), node, access);
      var j := 0;
      while j < |rules|
        invariant 0 <= j <= |rules|
        invariant FirstRule(pol, rules, node, access) == FirstRule(pol, rules[j..], node, access)
      {
        if RuleMatches(pol, rules[j], node, access) {
          return Some(rules[j]);
        }
        j := j + 1;
      }
      i := i + 1;
    }
    return None;
  }

  /** Decides, and counts a denial where statistics are kept. */
  method CheckData(nacm: Option<Policy>, node: Path, element: bool, access: set<Access>, stats: Stats?)
    returns (d: Decision)
    modifies stats
    ensures d == Decide(nacm, node, element, access)
    ensures stats != null ==> stats.denied == old(stats.denied) + if d.Deny? then 1 else 0
  {
    hide FirstRule, Concat;
    if access == {} {
      return Failed;
    }
    if nacm.None? || !element {
      return Permit;
    }
    var pol := nacm.value;
    d := Default(pol, access);
    if pol.defines(node) {
      var r := ScanRules(pol, node, access);
      if r.Some? {
        d := Ruling(pol, r.value, node);
      } else if pol.denyAll(node) {
        d := Deny;
      } else if access * WRITES != {} && pol.denyWriting(node) {
        d := Deny;
      }
    }
    if d.Deny? && stats != null {
      stats.denied := stats.denied + 1;
    }
  }

  /** The k-th of the concatenated rules is the first to match. */
  predicate IsFirst(pol: Policy, rules: seq<Rule>, k: nat, node: Path, access: set<Access>) {
    k < |rules| && RuleMatches(pol, rules[k], node, access) &&
    forall j :: 0 <= j < k ==> !RuleMatches(pol, rules[j], node, access)
  }

  lemma {:induction false} FirstRuleIs(pol: Policy, rules: seq<Rule>, node: Path, access: set<Access>)
    ensures match FirstRule(pol, rules, node, access)
      case Some(r) => exists k: nat :: IsFirst(pol, rules, k, node, access) && rules[k] == r
      case None => forall j :: 0 <= j < |rules| ==> !RuleMatches(pol, rules[j], node, access)
    decreases rules
  {
    hide RuleMatches;
    if rules != [] {
      if RuleMatches(pol, rules[0], node, access) {
        assert IsFirst(pol, rules, 0, node, access);
      } else {
        FirstRuleIs(pol, rules[1..], node, access);
        if FirstRule(pol, rules[1..], node, access).Some? {
          var k: nat :| IsFirst(pol, rules[1..], k, node, access) &&
            rules[1..][k] == FirstRule(pol, rules[1..], node, access).value;
          assert forall j :: 0 < j <= k ==> rules[j] == rules[1..][j - 1];
          assert IsFirst(pol, rules, k + 1, node, access);
        }
        assert forall j :: 0 < j < |rules| ==> rules[j] == rules[1..][j - 1];
      }
    }
  }

  /** A rule decides exactly if it is the first of all lists to match; what the rules leave
      open the default denials and then the default actions decide. */
  lemma FirstMatchDecides(pol: Policy, node: Path, access: set<Access>)
    requires access != {} && pol.defines(node)
    ensures var rules := Concat(pol.lists); var d := Decide(Some(pol), node, true, access);
      (forall k: nat :: IsFirst(pol, rules, k, node, access) ==> d == Ruling(pol, rules[k], node)) &&
      ((forall j :: 0 <= j < |rules| ==> !RuleMatches(pol, rules[j], node, access)) ==>
        (d == Permit <==>
          !pol.denyAll(node) && (access * WRITES != {} ==> !pol.denyWriting(node)) && Default(pol, access) == Permit))
  {
    hide RuleMatches, FirstRule, Concat;
    var rules := Concat(pol.lists);
    FirstRuleIs(pol, rules, node, access);
    forall k: nat | IsFirst(pol, rules, k, node, access)
      ensures Decide(Some(pol), node, true, access) == Ruling(pol, rules[k], node)
    {
      var r := FirstRule(pol, rules, node, access);
      var l: nat :| IsFirst(pol, rules, l, node, access) && rules[l] == r.value;
      assert k <= l && l <= k;
    }
  }

  /** An access to nothing fails; without access control, and on what is no element, every
      other access is permitted. */
  lemma DecidedWithoutRules(nacm: Option<Policy>, node: Path, element: bool, access: set<Access>)
    ensures access == {} ==> Decide(nacm, node, element, access) == Failed
    ensures access != {} && (nacm == None || !element) ==> Decide(nacm, node, element, access) == Permit
  {
  }

  /** The j-th rule of the i-th list comes before the l-th of the k-th. */
  predicate Earlier(i: nat, j: nat, k: nat, l: nat) {
    i < k || (i == k && j < l)
  }

  /** A rule applies if it is for every module or the one at hand, has one of the accesses,
      and either names no type or is a data rule whose path does not miss the node. */
  predicate Applies(pol: Policy, i: nat, j: nat, node: Path, access: set<Access>) {
    i < |pol.lists| && j < |pol.lists[i]| &&
    var r := pol.lists[i][j];
    (r.module_ == "*" || r.module_ == pol.name) && (exists a :: a in r.access && a in access) &&
    (r.kind == AnyKind || (r.kind.DataRule? && r.kind.path.Some? && pol.path(r.kind.path.value, node) != Misses))
  }

  lemma AppliesIsMatch(pol: Policy, i: nat, j: nat, node: Path, access: set<Access>)
    requires i < |pol.lists| && j < |pol.lists[i]|
    ensures Applies(pol, i, j, node, access) <==> RuleMatches(pol, pol.lists[i][j], node, access)
  {
    var r := pol.lists[i][j];
    if exists a :: a in r.access && a in access {
      var a :| a in r.access && a in access;
      assert a in r.access * access;
    }
  }

  lemma {:induction false} FirstInList(pol: Policy, rules: seq<Rule>, k: nat, node: Path, access: set<Access>)
    requires IsFirst(pol, rules, k, node, access)
    ensures FirstRule(pol, rules, node, access) == Some(rules[k])
    decreases rules
  {
    hide RuleMatches;
    if k > 0 {
      assert IsFirst(pol, rules[1..], k - 1, node, access);
      FirstInList(pol, rules[1..], k - 1, node, access);
    }
  }

  lemma {:induction false} NoneInList(pol: Policy, rules: seq<Rule>, node: Path, access: set<Access>)
    requires forall j :: 0 <= j < |rules| ==> !RuleMatches(pol, rules[j], node, access)
    ensures FirstRule(pol, rules, node, access) == None
    decreases rules
  {
    hide RuleMatches;
    if rules != [] {
      NoneInList(pol, rules[1..], node, access);
    }
  }

  /** The first rule of the first list with one that matches is the first of all. */
  lemma {:induction false} FirstInLists(pol: Policy, lists: seq<seq<Rule>>, i: nat, j: nat, node: Path,
      access: set<Access>)
    requires i < |lists| && IsFirst(pol, lists[i], j, node, access)
    requires forall k, l :: 0 <= k < i && 0 <= l < |lists[k]| ==> !RuleMatches(pol, lists[k][l], node, access)
    ensures FirstRule(pol, Concat(lists), node, access) == Some(lists[i][j])
    decreases i
  {
    hide RuleMatches, IsFirst, FirstRule;
    FirstRuleConcat(pol, lists[0], Concat(lists[1..]), node, access);
    if i == 0 {
      FirstInList(pol, lists[0], j, node, access);
    } else {
      NoneInList(pol, lists[0], node, access);
      assert forall k :: 0 <= k < |lists| - 1 ==> lists[1..][k] == lists[k + 1];
      FirstInLists(pol, lists[1..], i - 1, j, node, access);
    }
  }

  lemma {:induction false} NoneInLists(pol: Policy, lists: seq<seq<Rule>>, node: Path, access: set<Access>)
    requires forall k, l :: 0 <= k < |lists| && 0 <= l < |lists[k]| ==> !RuleMatches(pol, lists[k][l], node, access)
    ensures FirstRule(pol, Concat(lists), node, access) == None
    decreases lists
  {
    hide RuleMatches;
    if lists != [] {
      FirstRuleConcat(pol, lists[0], Concat(lists[1..]), node, access);
      NoneInList(pol, lists[0], node, access);
      NoneInLists(pol, lists[1..], node, access);
    }
  }

  /** The j-th rule of the i-th list decides if it applies and none before it does: it
      denies exactly if its deny flag is set, unless its path cannot be set up, which makes
      the decision fail. */
  lemma FirstRuleDecides(pol: Policy, i: nat, j: nat, node: Path, access: set<Access>)
    requires pol.defines(node) && Applies(pol, i, j, node, access)
    requires forall k, l :: Earlier(k, l, i, j) ==> !Applies(pol, k, l, node, access)
    ensures var r := pol.lists[i][j];
      Decide(Some(pol), node, true, access) ==
        if r.kind != AnyKind && r.kind.path.Some? && pol.path(r.kind.path.value, node) == NoContext then Failed
        else if r.deny then Deny
        else Permit
  {
    hide FirstRule, RuleMatches;
    AppliesIsMatch(pol, i, j, node, access);
    forall k, l | 0 <= k < |pol.lists| && 0 <= l < |pol.lists[k]| && Earlier(k, l, i, j)
      ensures !RuleMatches(pol, pol.lists[k][l], node, access)
    {
      AppliesIsMatch(pol, k, l, node, access);
    }
    FirstInLists(pol, pol.lists, i, j, node, access);
  }

  /** What no rule decides: what the model denies is denied, else reading is denied exactly
      if that is the default for reading, and creating, updating and deleting exactly if
      that is the default for writing. */
  lemma NoRuleDecides(pol: Policy, node: Path, access: set<Access>)
    requires access != {} && (pol.defines(node) ==> forall k, l :: !Applies(pol, k, l, node, access))
    ensures var d := Decide(Some(pol), node, true, access);
      var writes := access * {Create, Update, Delete} != {};
      d == if pol.defines(node) && (pol.denyAll(node) || (pol.denyWriting(node) && writes)) then Deny
           else if Read in access then (if pol.denyRead then Deny else Permit)
           else if access == {Exec} || pol.denyWrite then Deny
           else Permit
  {
    hide FirstRule, RuleMatches;
    if pol.defines(node) {
      forall k, l | 0 <= k < |pol.lists| && 0 <= l < |pol.lists[k]|
        ensures !RuleMatches(pol, pol.lists[k][l], node, access)
      {
        AppliesIsMatch(pol, k, l, node, access);
      }
      NoneInLists(pol, pol.lists, node, access);
    }
    var a :| a in access;
    if Read !in access && access * WRITES == {} {
      forall b | b in access
        ensures b == Exec
      {
        assert b !in access * WRITES;
      }
      assert access == {Exec};
    } else if access == {Exec} {
      assert access * WRITES == {};
    }
  }

  // ---- reading

  predicate MayRead(nacm: Option<Policy>, node: Path) {
    Decide(nacm, node, true, {Read}) != Deny
  }

  /** What is left of a child list whose first node was at position at + [k]. */
  function Prune(nacm: Option<Policy>, f: seq<Node>, at: Path, k: nat): seq<Node> {
    if f == [] then [] else PruneNode(nacm, f[0], at + [k]) + Prune(nacm, f[1..], at, k + 1)
  }

  function PruneNode(nacm: Option<Policy>, n: Node, node: Path): seq<Node> {
    match n
    case Text(_) => [n]
    case Element(_, _, kids) => if MayRead(nacm, node) then [n.(kids := Prune(nacm, kids, node, 0))] else []
  }

  /** How many denials pruning meets. */
  function Denials(nacm: Option<Policy>, f: seq<Node>, at: Path, k: nat): nat {
    if f == [] then 0 else DenialsAt(nacm, f[0], at + [k]) + Denials(nacm, f[1..], at, k + 1)
  }

  function DenialsAt(nacm: Option<Policy>, n: Node, node: Path): nat {
    match n
    case Text(_) => 0
    case Element(_, _, kids) => if MayRead(nacm, node) then Denials(nacm, kids, node, 0) else 1
  }

  /** What pruning removes: an element that a rule denies which is the first to apply to
      reading it, or, where no rule applies, one that the model denies, or, where the model
      does not, every element if that is the default. Text is never removed by itself. */
  lemma RemovedExactly(pol: Policy, n: Node, node: Path)
    ensures PruneNode(Some(pol), n, node) == [] <==>
      n.Element? &&
      if pol.defines(node) && exists i, j :: Applies(pol, i, j, node, {Read})
      then exists i, j :: DeniedBy(pol, i, j, node)
      else pol.denyRead || (pol.defines(node) && pol.denyAll(node))
  {
    hide Applies, FirstRule, RuleMatches;
    if pol.defines(node) && exists i, j :: Applies(pol, i, j, node, {Read}) {
      var i, j := FirstToApply(pol, node, {Read});
      FirstRuleDecides(pol, i, j, node, {Read});
      forall k, l | DeniedBy(pol, k, l, node)
        ensures k == i && l == j
      {
        assert !Earlier(k, l, i, j) && !Earlier(i, j, k, l);
      }
      assert DeniedBy(pol, i, j, node) <==> Decide(Some(pol), node, true, {Read}) == Deny;
    } else {
      NoRuleDecides(pol, node, {Read});
    }
  }

  /** The j-th rule of the i-th list is the first to apply to reading the node, and denies. */
  ghost predicate DeniedBy(pol: Policy, i: nat, j: nat, node: Path) {
    Applies(pol, i, j, node, {Read}) && (forall k, l :: Earlier(k, l, i, j) ==> !Applies(pol, k, l, node, {Read})) &&
    var r := pol.lists[i][j];
    r.deny && !(r.kind != AnyKind && r.kind.path.Some? && pol.path(r.kind.path.value, node) == NoContext)
  }

  /** Of the rules that apply there is a first. */
  lemma FirstToApply(pol: Policy, node: Path, access: set<Access>) returns (i: nat, j: nat)
    requires exists k, l :: Applies(pol, k, l, node, access)
    ensures Applies(pol, i, j, node, access)
    ensures forall k, l :: Earlier(k, l, i, j) ==> !Applies(pol, k, l, node, access)
  {
    hide Applies;
    var k, l :| Applies(pol, k, l, node, access);
    i, j := FirstUpTo(pol, node, access, k, l);
  }

  lemma {:induction false} FirstUpTo(pol: Policy, node: Path, access: set<Access>, k: nat, l: nat)
      returns (i: nat, j: nat)
    requires Applies(pol, k, l, node, access)
    ensures Applies(pol, i, j, node, access)
    ensures forall a, b :: Earlier(a, b, i, j) ==> !Applies(pol, a, b, node, access)
    decreases k, l
  {
    hide Applies;
    if exists a, b :: Earlier(a, b, k, l) && Applies(pol, a, b, node, access) {
      var a, b :| Earlier(a, b, k, l) && Applies(pol, a, b, node, access);
      i, j := FirstUpTo(pol, node, access, a, b);
    } else {
      i, j := k, l;
    }
  }

  /** What one turn of the loop over a child list leaves: cur is the list before the turn,
      done up to c, and the o-th of the original list f is next. */
  lemma PruneStep(nacm: Option<Policy>, f: seq<Node>, at: Path, cur: seq<Node>, c: nat, o: nat)
    requires c <= |cur| && o < |f| && cur[c..] == f[o..]
    requires Prune(nacm, f, at, 0) == cur[..c] + Prune(nacm, f[o..], at, o)
    ensures c < |cur| && cur[c] == f[o]
    ensures Denials(nacm, f[o..], at, o) == DenialsAt(nacm, f[o], at + [o]) + Denials(nacm, f[o + 1..], at, o + 1)
    ensures var left := PruneNode(nacm, f[o], at + [o]);
      var next, d := cur[..c] + left + cur[c + 1..], c + |left|;
      d <= |next| && next[d..] == f[o + 1..] &&
      Prune(nacm, f, at, 0) == next[..d] + Prune(nacm, f[o + 1..], at, o + 1) &&
      |left| <= 1 && (f[o].Text? ==> left == [f[o]] && next == cur && DenialsAt(nacm, f[o], at + [o]) == 0)
  {
    hide Prune, PruneNode, Denials, DenialsAt;
    CursorNext(f, cur, c, o);
    PruneFirst(nacm, f[o..], at, o);
    assert f[o..][0] == f[o] && f[o..][1..] == f[o + 1..];
    var left, rest := PruneNode(nacm, f[o], at + [o]), Prune(nacm, f[o + 1..], at, o + 1);
    var next := cur[..c] + left + cur[c + 1..];
    assert next[..c + |left|] == cur[..c] + left;
    assert cur[..c] + (left + rest) == (cur[..c] + left) + rest;
    AtMostOne(nacm, f[o], at + [o]);
    if f[o].Text? {
      AboutText(nacm, f[o], at + [o]);
      assert next == cur;
    }
  }

  /** The next nodes of a list that is done up to c and of the original list are the same. */
  lemma CursorNext(f: seq<Node>, cur: seq<Node>, c: nat, o: nat)
    requires c <= |cur| && o < |f| && cur[c..] == f[o..]
    ensures c < |cur| && cur[c] == f[o] && cur[c + 1..] == f[o + 1..]
  {
    assert |cur[c..]| > 0;
    assert cur[c] == cur[c..][0] == f[o..][0];
    assert cur[c + 1..] == cur[c..][1..] == f[o..][1..] == f[o + 1..];
  }

  lemma PruneFirst(nacm: Option<Policy>, f: seq<Node>, at: Path, k: nat)
    requires f != []
    ensures Prune(nacm, f, at, k) == PruneNode(nacm, f[0], at + [k]) + Prune(nacm, f[1..], at, k + 1)
    ensures Denials(nacm, f, at, k) == DenialsAt(nacm, f[0], at + [k]) + Denials(nacm, f[1..], at, k + 1)
  {
  }

  lemma PruneNothing(nacm: Option<Policy>, at: Path, k: nat)
    ensures Prune(nacm, [], at, k) == [] && Denials(nacm, [], at, k) == 0
  {
  }

  lemma AboutNode(nacm: Option<Policy>, n: Node, node: Path)
    requires n.Element?
    ensures PruneNode(nacm, n, node) == if MayRead(nacm, node) then [n.(kids := Prune(nacm, n.kids, node, 0))] else []
    ensures DenialsAt(nacm, n, node) == if MayRead(nacm, node) then Denials(nacm, n.kids, node, 0) else 1
  {
  }

  /** Prunes the i-th element of the list at p, which was at position node when pruning
      began, with everything below it; gone says that it was unlinked. */
  method ReadRecursion(nacm: Option<Policy>, doc: Document, p: Path, i: nat, node: Path, stats: Stats)
    returns (gone: bool)
    requires IsList(doc.roots, p) && i < |KidsAt(doc.roots, p)| && KidsAt(doc.roots, p)[i].Element?
    modifies doc, stats
    ensures var kids := KidsAt(old(doc.roots), p);
      doc.roots == SetKids(old(doc.roots), p, kids[..i] + PruneNode(nacm, kids[i], node) + kids[i + 1..]) &&
      gone == (PruneNode(nacm, kids[i], node) == []) &&
      stats.denied == old(stats.denied) + DenialsAt(nacm, kids[i], node)
    decreases NodeSize(KidsAt(doc.roots, p)[i])
  {
    hide Prune, PruneNode, Denials, DenialsAt, SetKids, KidsAt, IsList, NodeSize, Decide;
    var f := doc.roots;
    var kids := KidsAt(f, p);
    var n := kids[i];
    ghost var before := stats.denied;
    AboutNode(nacm, n, node);
    var d := CheckData(nacm, node, true, {Read}, stats);
    if d.Deny? {
      doc.Unlink(p, i);
      assert kids[..i] + [] + kids[i + 1..] == Without(kids, i);
      return true;
    }
    SetGet(f, p);
    var c: nat, o: nat := 0, 0;
    ghost var cur := n.kids;
    assert kids[i := n.(kids := cur)] == kids && n.kids[0..] == n.kids && n.kids[..0] == [];
    assert [] + Prune(nacm, n.kids, node, 0) == Prune(nacm, n.kids, node, 0);
    while o < |n.kids|
      invariant c <= |cur| && o <= |n.kids| && cur[c..] == n.kids[o..]
      invariant IsList(f, p)
      invariant doc.roots == SetKids(f, p, kids[i := n.(kids := cur)])
      invariant Prune(nacm, n.kids, node, 0) == cur[..c] + Prune(nacm, n.kids[o..], node, o)
      invariant before + Denials(nacm, n.kids, node, 0) == stats.denied + Denials(nacm, n.kids[o..], node, o)
    {
      PruneStep(nacm, n.kids, node, cur, c, o);
      ghost var next := cur[..c] + PruneNode(nacm, cur[c], node + [o]) + cur[c + 1..];
      var gone := false;
      if n.kids[o].Element? {
        KidSmaller(n, o, n.kids[o]);
        BelowUpdated(f, p, kids, i, cur, next);
        gone := ReadRecursion(nacm, doc, p + [i], c, node + [o], stats);
      }
      cur := next;
      if !gone {
        c := c + 1;
      }
      o := o + 1;
    }
    PruneNothing(nacm, node, o);
    assert n.kids[o..] == [] && cur[..c] + [] == cur && cur[c..] == [];
    assert kids[..i] + [n.(kids := cur)] + kids[i + 1..] == kids[i := n.(kids := cur)];
    return false;
  }

  lemma AtMostOne(nacm: Option<Policy>, n: Node, node: Path)
    ensures |PruneNode(nacm, n, node)| <= 1
  {
  }

  lemma AboutText(nacm: Option<Policy>, n: Node, node: Path)
    requires n.Text?
    ensures PruneNode(nacm, n, node) == [n] && DenialsAt(nacm, n, node) == 0
  {
  }

  /** Prunes a whole document. */
  method CheckDataRead(nacm: Option<Policy>, doc: Document, stats: Stats)
    modifies doc, stats
    ensures doc.roots == Prune(nacm, old(doc.roots), [], 0)
    ensures stats.denied == old(stats.denied) + Denials(nacm, old(doc.roots), [], 0)
  {
    hide Prune, PruneNode, Denials, DenialsAt, Decide;
    var f := doc.roots;
    ghost var before := stats.denied;
    if nacm.None? {
      NothingDenied(f, [], 0);
      return;
    }
    var c: nat, o: nat := 0, 0;
    assert f[0..] == f && f[..0] == [] && [] + Prune(nacm, f, [], 0) == Prune(nacm, f, [], 0);
    while o < |f|
      invariant c <= |doc.roots| && o <= |f| && doc.roots[c..] == f[o..]
      invariant Prune(nacm, f, [], 0) == doc.roots[..c] + Prune(nacm, f[o..], [], o)
      invariant before + Denials(nacm, f, [], 0) == stats.denied + Denials(nacm, f[o..], [], o)
    {
      ghost var cur := doc.roots;
      PruneStep(nacm, f, [], cur, c, o);
      assert [] + [o] == [o];
      var gone := false;
      if f[o].Element? {
        gone := ReadRecursion(nacm, doc, [], c, [o], stats);
      }
      if !gone {
        c := c + 1;
      }
      o := o + 1;
    }
    PruneNothing(nacm, [], o);
    assert f[o..] == [] && doc.roots[..c] + [] == doc.roots[..c] && doc.roots[c..] == [];
  }

  lemma {:induction false} NothingDenied(f: seq<Node>, at: Path, k: nat)
    ensures Prune(None, f, at, k) == f && Denials(None, f, at, k) == 0
    decreases f
  {
    if f != [] {
      NothingDenied(f[1..], at, k + 1);
      if f[0].Element? {
        NothingDenied(f[0].kids, at + [k], 0);
        assert f[0].(kids := f[0].kids) == f[0];
      }
      assert [f[0]] + f[1..] == f;
    }
  }

  // ---- pruning is exact

  /** A node in the outline of a document: how deep it is, where it is, and what it is
      apart from its children. */
  datatype Entry = Entry(depth: nat, at: Path, what: Node)

  function Bare(n: Node): Node {
    match n
    case Text(_) => n
    case Element(name, attrs, _) => Element(name, attrs, [])
  }

  /** The nodes in document order. */
  function Outline(f: seq<Node>, at: Path, k: nat): seq<Entry> {
    if f == [] then [] else OutlineOf(f[0], at + [k]) + Outline(f[1..], at, k + 1)
  }

  function OutlineOf(n: Node, node: Path): seq<Entry> {
    [Entry(|node|, node, Bare(n))] + match n case Text(_) => [] case Element(_, _, kids) => Outline(kids, node, 0)
  }

  /** An outline without positions; with the depths it still determines the document. */
  function Shape(es: seq<Entry>): seq<(nat, Node)> {
    if es == [] then [] else [(es[0].depth, es[0].what)] + Shape(es[1..])
  }

  /** Every ancestor, and the node itself if it is an element, may be read; ancestors up to
      depth base are taken as read. */
  predicate Readable(nacm: Option<Policy>, e: Entry, base: nat) {
    forall j :: base < j <= |e.at| && (j < |e.at| || e.what.Element?) ==> MayRead(nacm, e.at[..j])
  }

  /** The topmost denied elements: the roots of what is removed. */
  predicate RemovedRoot(nacm: Option<Policy>, e: Entry, base: nat) {
    e.what.Element? && base < |e.at| && !MayRead(nacm, e.at) &&
    forall j :: base < j < |e.at| ==> MayRead(nacm, e.at[..j])
  }

  function AllReadable(nacm: Option<Policy>, es: seq<Entry>, base: nat): seq<Entry> {
    if es == [] then []
    else (if Readable(nacm, es[0], base) then [es[0]] else []) + AllReadable(nacm, es[1..], base)
  }

  function CountRemoved(nacm: Option<Policy>, es: seq<Entry>, base: nat): nat {
    if es == [] then 0
    else (if RemovedRoot(nacm, es[0], base) then 1 else 0) + CountRemoved(nacm, es[1..], base)
  }

  predicate Below(es: seq<Entry>, node: Path) {
    forall i :: 0 <= i < |es| ==> |node| < |es[i].at| && es[i].at[..|node|] == node
  }

  lemma {:induction false} OutlineBelow(f: seq<Node>, at: Path, k: nat)
    ensures Below(Outline(f, at, k), at)
    decreases f
  {
    if f != [] {
      OutlineBelow(f[1..], at, k + 1);
      if f[0].Element? {
        OutlineBelow(f[0].kids, at + [k], 0);
        forall e | e in Outline(f[0].kids, at + [k], 0)
          ensures |at| < |e.at| && e.at[..|at|] == at
        {
          assert e.at[..|at|] == e.at[..|at| + 1][..|at|];
        }
      }
    }
  }

  lemma {:induction false} ReadableConcat(nacm: Option<Policy>, es: seq<Entry>, fs: seq<Entry>, base: nat)
    ensures AllReadable(nacm, es + fs, base) == AllReadable(nacm, es, base) + AllReadable(nacm, fs, base)
    decreases es
  {
    hide Readable, RemovedRoot;
    if es == [] {
      assert es + fs == fs && [] + AllReadable(nacm, fs, base) == AllReadable(nacm, fs, base);
    } else {
      var all := es + fs;
      assert all[1..] == es[1..] + fs && all[0] == es[0];
      ReadableConcat(nacm, es[1..], fs, base);
      ReadableFirst(nacm, all, base);
      ReadableFirst(nacm, es, base);
    }
  }

  lemma ReadableFirst(nacm: Option<Policy>, es: seq<Entry>, base: nat)
    requires es != []
    ensures AllReadable(nacm, es, base) ==
      (if Readable(nacm, es[0], base) then [es[0]] else []) + AllReadable(nacm, es[1..], base)
  {
  }

  lemma {:induction false} RemovedConcat(nacm: Option<Policy>, es: seq<Entry>, fs: seq<Entry>, base: nat)
    ensures CountRemoved(nacm, es + fs, base) == CountRemoved(nacm, es, base) + CountRemoved(nacm, fs, base)
    decreases es
  {
    hide Readable, RemovedRoot;
    if es == [] {
      assert es + fs == fs;
    } else {
      assert (es + fs)[1..] == es[1..] + fs && (es + fs)[0] == es[0];
      RemovedConcat(nacm, es[1..], fs, base);
    }
  }

  lemma {:induction false} ShapeConcat(es: seq<Entry>, fs: seq<Entry>)
    ensures Shape(es + fs) == Shape(es) + Shape(fs)
    decreases es
  {
    if es == [] {
      assert es + fs == fs;
    } else {
      assert (es + fs)[1..] == es[1..] + fs && (es + fs)[0] == es[0];
      ShapeConcat(es[1..], fs);
    }
  }

  lemma BelowNode(nacm: Option<Policy>, e: Entry, node: Path)
    requires node != [] && |node| < |e.at| && e.at[..|node|] == node
    ensures Readable(nacm, e, |node| - 1) <==> MayRead(nacm, node) && Readable(nacm, e, |node|)
    ensures RemovedRoot(nacm, e, |node| - 1) <==> MayRead(nacm, node) && RemovedRoot(nacm, e, |node|)
  {
    hide MayRead;
  }

  /** Below a node everything depends on the node first. */
  lemma {:induction false} AllBelowNode(nacm: Option<Policy>, es: seq<Entry>, node: Path)
    requires node != [] && Below(es, node)
    ensures AllReadable(nacm, es, |node| - 1) == if MayRead(nacm, node) then AllReadable(nacm, es, |node|) else []
    ensures CountRemoved(nacm, es, |node| - 1) == if MayRead(nacm, node) then CountRemoved(nacm, es, |node|) else 0
    decreases es
  {
    hide Readable, RemovedRoot, MayRead;
    if es != [] {
      BelowNode(nacm, es[0], node);
      AllBelowNode(nacm, es[1..], node);
    }
  }

  lemma AtNode(nacm: Option<Policy>, n: Node, node: Path)
    requires node != []
    ensures var e := Entry(|node|, node, Bare(n));
      (Readable(nacm, e, |node| - 1) <==> n.Element? ==> MayRead(nacm, node)) &&
      (RemovedRoot(nacm, e, |node| - 1) <==> n.Element? && !MayRead(nacm, node))
  {
    hide MayRead;
    assert node[..|node|] == node;
  }

  /** Pruning keeps, in order, exactly the nodes whose every ancestor, and which
      themselves, may be read, and denies once for every root of what it removes. */
  lemma {:induction false} PruneExact(nacm: Option<Policy>, f: seq<Node>, at: Path, k: nat, at2: Path, k2: nat)
    requires |at2| == |at|
    ensures Shape(Outline(Prune(nacm, f, at, k), at2, k2)) == Shape(AllReadable(nacm, Outline(f, at, k), |at|))
    ensures Denials(nacm, f, at, k) == CountRemoved(nacm, Outline(f, at, k), |at|)
    decreases f
  {
    hide MayRead, Readable, RemovedRoot, OutlineOf, PruneNode, DenialsAt;
    if f != [] {
      var node, left, rest := at + [k], PruneNode(nacm, f[0], at + [k]), Prune(nacm, f[1..], at, k + 1);
      AtMostOne(nacm, f[0], node);
      var k3 := k2 + |left|;
      PruneExact(nacm, f[1..], at, k + 1, at2, k3);
      PruneNodeExact(nacm, f[0], at, k, at2, k2);
      OutlineConcat(left, rest, at2, k2);
      var es, fs := OutlineOf(f[0], node), Outline(f[1..], at, k + 1);
      ReadableConcat(nacm, es, fs, |at|);
      RemovedConcat(nacm, es, fs, |at|);
      ShapeConcat(Outline(left, at2, k2), Outline(rest, at2, k3));
      ShapeConcat(AllReadable(nacm, es, |at|), AllReadable(nacm, fs, |at|));
    }
  }

  lemma OutlineConcat(left: seq<Node>, rest: seq<Node>, at: Path, k: nat)
    requires |left| <= 1
    ensures Outline(left + rest, at, k) == Outline(left, at, k) + Outline(rest, at, k + |left|)
  {
    if left == [] {
      assert left + rest == rest;
    } else {
      assert left == [left[0]] && (left + rest)[1..] == rest && left[1..] == [];
    }
  }

  lemma {:induction false} PruneNodeExact(nacm: Option<Policy>, n: Node, at: Path, k: nat, at2: Path, k2: nat)
    requires |at2| == |at|
    ensures var node := at + [k];
      Shape(Outline(PruneNode(nacm, n, node), at2, k2)) == Shape(AllReadable(nacm, OutlineOf(n, node), |at|)) &&
      DenialsAt(nacm, n, node) == CountRemoved(nacm, OutlineOf(n, node), |at|)
    decreases n
  {
    hide MayRead, Readable, RemovedRoot, Prune, Denials;
    var node, node2 := at + [k], at2 + [k2];
    var head := Entry(|node|, node, Bare(n));
    AtNode(nacm, n, node);
    if n.Text? {
      assert OutlineOf(n, node) == [head];
    } else {
      var below := Outline(n.kids, node, 0);
      assert OutlineOf(n, node) == [head] + below && (([head] + below)[1..]) == below;
      OutlineBelow(n.kids, node, 0);
      AllBelowNode(nacm, below, node);
      if MayRead(nacm, node) {
        PruneExact(nacm, n.kids, node, 0, node2, 0);
        OneOutline(n.(kids := Prune(nacm, n.kids, node, 0)), at2, k2);
        var kept := AllReadable(nacm, below, |node|);
        assert ([head] + kept)[1..] == kept;
      }
    }
  }

  lemma OneOutline(n: Node, at: Path, k: nat)
    requires n.Element?
    ensures Shape(Outline([n], at, k)) == [(|at| + 1, Bare(n))] + Shape(Outline(n.kids, at + [k], 0))
  {
    var e, below := Entry(|at + [k]|, at + [k], Bare(n)), Outline(n.kids, at + [k], 0);
    assert [n][1..] == [] && OutlineOf(n, at + [k]) + [] == [e] + below;
    assert ([e] + below)[1..] == below;
  }
}
