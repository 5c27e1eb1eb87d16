/** Consolidating configured paths: references to other paths are substituted until none is
    left. A path is a sequence of characters and references. */
module PathSubstitution {
  datatype Tok = Lit(c: char) | Ref(name: string)

  type Paths = map<string, seq<Tok>>

  function Subst(t: seq<Tok>, name: string, put: seq<Tok>): seq<Tok> {
    if t == [] then [] else (if t[0] == Ref(name) then put else [t[0]]) + Subst(t[1..], name, put)
  }

  /** A path that the build left as a placeholder. */
  predicate Unset(t: seq<Tok>) {
    t != [] && t[0] == Lit('@') && t[|t| - 1] == Lit('@')
  }

  function Cleared(paths: Paths): Paths {
    map k | k in paths :: ClearedPath(paths[k])
  }

  function ClearedPath(t: seq<Tok>): seq<Tok> {
    if Unset(t) then [] else t
  }

  /** One path after the substitution of every pattern in turn. */
  function SubstAll(r: Paths, t: seq<Tok>, pats: seq<string>): seq<Tok>
    requires forall k :: k in pats ==> k in r
    decreases |pats|
  {
    if pats == [] then t else SubstAll(r, Subst(t, pats[0], r[pats[0]]), pats[1..])
  }

  /** Some pattern was found in the path when its turn came. */
  predicate Hits(r: Paths, t: seq<Tok>, pats: seq<string>)
    requires forall k :: k in pats ==> k in r
    decreases |pats|
  {
    pats != [] && (Ref(pats[0]) in t || Hits(r, Subst(t, pats[0], r[pats[0]]), pats[1..]))
  }

  /** One round over the given names; later names see the new values of earlier ones. */
  function Round(r: Paths, names: seq<string>, order: seq<string>): (res: (Paths, bool))
    requires (forall k :: k in order ==> k in r) && (forall k :: k in names ==> k in r)
    ensures res.0.Keys == r.Keys
  {
    if names == [] then (r, false)
    else
      var n := names[0];
      var (r2, changed) := Round(r[n := SubstAll(r, r[n], order)], names[1..], order);
      (r2, changed || Hits(r, r[n], order))
  }

  /** Every occurrence is substituted, and nothing else. */
  lemma {:induction false} SubstExactly(s: seq<Tok>, t: seq<Tok>, name: string, put: seq<Tok>)
    ensures Ref(name) !in s ==> Subst(s, name, put) == s
    ensures Subst(s + [Ref(name)] + t, name, put) == Subst(s, name, put) + put + Subst(t, name, put)
    decreases |s|
  {
    var all := s + [Ref(name)] + t;
    if s == [] {
      assert all[0] == Ref(name) && all[1..] == t;
    } else {
      assert all[0] == s[0] && all[1..] == s[1..] + [Ref(name)] + t;
      SubstExactly(s[1..], t, name, put);
      assert s == [s[0]] + s[1..];
    }
  }

  lemma SubstOne(name: string, t: Tok, put: seq<Tok>)
    ensures Subst([t], name, put) == if t == Ref(name) then put else [t]
  {
    assert [t][1..] == [] && Subst([], name, put) == [] && put + [] == put;
  }

  /** An input: in one round a path visited later already sees the new value of an earlier
      one. */
  lemma LaterSeeNew(a: string, b: string, c: string)
    requires a != b && b != c && a != c
    ensures var r: Paths := map[a := [Lit('x')], b := [Ref(a)], c := [Ref(b)]];
      Round(r, [b, c], [a, b]) == (map[a := [Lit('x')], b := [Lit('x')], c := [Lit('x')]], true)
  {
    hide Subst;
    var r: Paths := map[a := [Lit('x')], b := [Ref(a)], c := [Ref(b)]];
    var x, pats := [Lit('x')], [a, b];
    assert pats[1..] == [b] && [b][1..] == [] && [b, c][1..] == [c] && [c][1..] == [];
    SubstOne(a, Ref(a), x);
    SubstOne(b, Lit('x'), r[b]);
    assert SubstAll(r, [Ref(a)], pats) == SubstAll(r, x, [b]) == SubstAll(r, x, []) == x;
    assert Hits(r, [Ref(a)], pats);
    var r1 := r[b := x];
    SubstOne(a, Ref(b), x);
    SubstOne(b, Ref(b), x);
    assert SubstAll(r1, [Ref(b)], pats) == SubstAll(r1, [Ref(b)], [b]) == SubstAll(r1, x, []) == x;
    var r2 := r1[c := x];
    assert Round(r2, [], pats) == (r2, false);
    assert r2 == map[a := x, b := x, c := x];
    assert Round(r1, [c], pats).0 == r2 && Round(r, [b, c], pats) == (r2, true);
  }

  // ---- the loops

  method SubstitutePath(r: Paths, t: seq<Tok>, order: seq<string>) returns (path: seq<Tok>, hit: bool)
    requires forall k :: k in order ==> k in r
    ensures path == SubstAll(r, t, order) && hit == Hits(r, t, order)
  {
    path, hit := t, false;
    var j := 0;
    while j < |order|
      invariant 0 <= j <= |order|
      invariant SubstAll(r, t, order) == SubstAll(r, path, order[j..])
      invariant Hits(r, t, order) == (hit || Hits(r, path, order[j..]))
    {
      if Ref(order[j]) in path {
        hit := true;
      }
      path := Subst(path, order[j], r[order[j]]);
      j := j + 1;
    }
  }

  method OneRound(paths: Paths, order: seq<string>) returns (r: Paths, changed: bool)
    requires forall k :: k in order ==> k in paths
    ensures (r, changed) == Round(paths, order, order)
  {
    hide SubstAll, Hits;
    r, changed := paths, false;
    var i := 0;
    assert order[0..] == order;
    while i < |order|
      invariant 0 <= i <= |order| && r.Keys == paths.Keys
      invariant Round(paths, order, order) ==
        var (r2, c) := Round(r, order[i..], order); (r2, changed || c)
    {
      var path, hit := SubstitutePath(r, r[order[i]], order);
      assert order[i..][1..] == order[i + 1..] && order[i..][0] == order[i];
      r := r[order[i] := path];
      changed := changed || hit;
      i := i + 1;
    }
  }

  method ClearUnset(paths: Paths, order: seq<string>) returns (r: Paths)
    requires forall k :: k in order <==> k in paths
    ensures r == Cleared(paths)
  {
    hide Unset;
    r := paths;
    var i := 0;
    while i < |order|
      invariant 0 <= i <= |order| && r.Keys == paths.Keys
      invariant forall k :: k in r ==> r[k] == paths[k] || r[k] == ClearedPath(paths[k])
      invariant forall j :: 0 <= j < i ==> r[order[j]] == ClearedPath(paths[order[j]])
    {
      StaysCleared(paths[order[i]]);
      r := r[order[i] := ClearedPath(r[order[i]])];
      i := i + 1;
    }
    assert forall k :: k in r ==> k in order;
  }

  /** What clearing does: a path that begins and ends with the placeholder mark becomes
      empty, and every other path stays. */
  lemma ClearedExactly(paths: Paths, k: string)
    requires k in paths
    ensures Cleared(paths).Keys == paths.Keys
    ensures var t := paths[k];
      Cleared(paths)[k] == if |t| > 0 && t[0] == Lit('@') && t[|t| - 1] == Lit('@') then [] else t
  {
  }

  lemma StaysCleared(t: seq<Tok>)
    ensures ClearedPath(ClearedPath(t)) == ClearedPath(t)
  {
  }

  /** Consolidates the paths, which are visited in the given order. Once unset paths are
      cleared, no path may refer to itself, directly or through others. */
  method ConsolidatePaths(paths: Paths, order: seq<string>) returns (r: Paths)
    requires forall k :: k in order <==> k in paths
    requires NoCircle(Cleared(paths))
    ensures r.Keys == paths.Keys && IsFull(r, Cleared(paths)) && Settled(r)
  {
    hide Round, Total, Ranked, IsFull, Dominates, NoCircle;
    r := ClearUnset(paths, order);
    ghost var rank := RankOf(r);
    ghost var full, v := Expansion(r, rank), Weights(r, rank);
    ExpansionIsFull(r, rank);
    WeightsDominate(r, rank);
    var changed := true;
    while changed
      invariant r.Keys == paths.Keys == full.Keys == v.Keys && IsFull(full, r) && Dominates(v, r)
      invariant !changed ==> Settled(r)
      decreases changed, Total(v, r, order)
    {
      ghost var before := r;
      RoundKeeps(r, order, order, full, v);
      r, changed := OneRound(r, order);
      if !changed {
        QuietRound(before, order);
      }
    }
    SettledIsFull(full, r);
  }

  // ---- what the result is

  /** No reference to a known path is left. */
  predicate Settled(r: Paths) {
    forall k, i :: k in r && 0 <= i < |r[k]| && r[k][i].Ref? ==> r[k][i].name !in r
  }

  /** A path with every known reference replaced by what full says. */
  function Expand(full: Paths, t: seq<Tok>): seq<Tok> {
    if t == [] then []
    else (if t[0].Ref? && t[0].name in full then full[t[0].name] else [t[0]]) + Expand(full, t[1..])
  }

  /** full gives the full expansion of every path. */
  ghost predicate IsFull(full: Paths, paths: Paths) {
    full.Keys == paths.Keys && forall k :: k in paths ==> full[k] == Expand(full, paths[k])
  }

  predicate Ranked(t: seq<Tok>, rank: map<string, nat>, n: nat) {
    forall i :: 0 <= i < |t| && t[i].Ref? && t[i].name in rank ==> rank[t[i].name] < n
  }

  ghost predicate Acyclic(paths: Paths, rank: map<string, nat>) {
    rank.Keys == paths.Keys && forall k :: k in paths ==> Ranked(paths[k], rank, rank[k])
  }

  /** The full expansion, by recursion along references. */
  ghost function ExpandDeep(paths: Paths, rank: map<string, nat>, t: seq<Tok>, n: nat): seq<Tok>
    requires Acyclic(paths, rank) && Ranked(t, rank, n)
    decreases n, |t|
  {
    if t == [] then []
    else
      (if t[0].Ref? && t[0].name in paths then ExpandDeep(paths, rank, paths[t[0].name], rank[t[0].name]) else [t[0]])
      + ExpandDeep(paths, rank, t[1..], n)
  }

  ghost function Expansion(paths: Paths, rank: map<string, nat>): Paths
    requires Acyclic(paths, rank)
  {
    map k | k in paths :: ExpandDeep(paths, rank, paths[k], rank[k])
  }

  lemma {:induction false} DeepIsExpand(paths: Paths, rank: map<string, nat>, t: seq<Tok>, n: nat)
    requires Acyclic(paths, rank) && Ranked(t, rank, n)
    ensures ExpandDeep(paths, rank, t, n) == Expand(Expansion(paths, rank), t)
    decreases |t|
  {
    if t != [] {
      DeepIsExpand(paths, rank, t[1..], n);
    }
  }

  lemma ExpansionIsFull(paths: Paths, rank: map<string, nat>)
    requires Acyclic(paths, rank)
    ensures IsFull(Expansion(paths, rank), paths)
  {
    forall k | k in paths
      ensures Expansion(paths, rank)[k] == Expand(Expansion(paths, rank), paths[k])
    {
      DeepIsExpand(paths, rank, paths[k], rank[k]);
    }
  }

  lemma {:induction false} ExpandSame(f: Paths, g: Paths, t: seq<Tok>)
    requires f.Keys == g.Keys
    requires forall i :: 0 <= i < |t| && t[i].Ref? && t[i].name in f ==> f[t[i].name] == g[t[i].name]
    ensures Expand(f, t) == Expand(g, t)
    decreases |t|
  {
    if t != [] {
      ExpandSame(f, g, t[1..]);
    }
  }

  /** Without cycles there is only one full expansion: the result is the same for every
      order of iteration. */
  lemma ExpansionIsUnique(paths: Paths, rank: map<string, nat>, f: Paths, g: Paths)
    requires Acyclic(paths, rank) && IsFull(f, paths) && IsFull(g, paths)
    ensures f == g
  {
    forall k | k in paths
      ensures f[k] == g[k]
    {
      UniqueAt(paths, rank, f, g, k);
    }
  }

  lemma {:induction false} UniqueAt(paths: Paths, rank: map<string, nat>, f: Paths, g: Paths, k: string)
    requires Acyclic(paths, rank) && IsFull(f, paths) && IsFull(g, paths) && k in paths
    ensures f[k] == g[k]
    decreases rank[k]
  {
    forall i | 0 <= i < |paths[k]| && paths[k][i].Ref? && paths[k][i].name in f
      ensures f[paths[k][i].name] == g[paths[k][i].name]
    {
      UniqueAt(paths, rank, f, g, paths[k][i].name);
    }
    ExpandSame(f, g, paths[k]);
  }

  lemma {:induction false} ExpandSettled(full: Paths, t: seq<Tok>)
    requires forall i :: 0 <= i < |t| && t[i].Ref? ==> t[i].name !in full
    ensures Expand(full, t) == t
    decreases |t|
  {
    if t != [] {
      ExpandSettled(full, t[1..]);
    }
  }

  lemma SettledIsFull(full: Paths, r: Paths)
    requires IsFull(full, r) && Settled(r)
    ensures full == r
  {
    forall k | k in r
      ensures full[k] == r[k]
    {
      ExpandSettled(full, r[k]);
    }
  }

  lemma {:induction false} ExpandConcat(full: Paths, s: seq<Tok>, t: seq<Tok>)
    ensures Expand(full, s + t) == Expand(full, s) + Expand(full, t)
    decreases |s|
  {
    if s == [] {
      assert s + t == t;
    } else {
      assert (s + t)[1..] == s[1..] + t;
      ExpandConcat(full, s[1..], t);
    }
  }

  lemma {:induction false} ExpandSubst(full: Paths, t: seq<Tok>, k: string, put: seq<Tok>)
    requires k in full && full[k] == Expand(full, put)
    ensures Expand(full, Subst(t, k, put)) == Expand(full, t)
    decreases |t|
  {
    if t != [] {
      ExpandSubst(full, t[1..], k, put);
      var head := if t[0] == Ref(k) then put else [t[0]];
      ExpandConcat(full, head, Subst(t[1..], k, put));
      if t[0] != Ref(k) {
        assert head[1..] == [];
      }
    }
  }

  // ---- termination

  /** How many substitutions a path can still take part in, when v bounds that for each
      known path. */
  function Weight(v: map<string, nat>, t: seq<Tok>): nat {
    if t == [] then 0
    else (if t[0].Ref? && t[0].name in v then 1 + v[t[0].name] else 0) + Weight(v, t[1..])
  }

  ghost predicate Dominates(v: map<string, nat>, r: Paths) {
    v.Keys == r.Keys && forall k :: k in r ==> Weight(v, r[k]) <= v[k]
  }

  ghost function WeighDeep(paths: Paths, rank: map<string, nat>, t: seq<Tok>, n: nat): nat
    requires Acyclic(paths, rank) && Ranked(t, rank, n)
    decreases n, |t|
  {
    if t == [] then 0
    else
      (if t[0].Ref? && t[0].name in paths then 1 + WeighDeep(paths, rank, paths[t[0].name], rank[t[0].name]) else 0)
      + WeighDeep(paths, rank, t[1..], n)
  }

  ghost function Weights(paths: Paths, rank: map<string, nat>): map<string, nat>
    requires Acyclic(paths, rank)
  {
    map k | k in paths :: WeighDeep(paths, rank, paths[k], rank[k])
  }

  lemma {:induction false} DeepIsWeight(paths: Paths, rank: map<string, nat>, t: seq<Tok>, n: nat)
    requires Acyclic(paths, rank) && Ranked(t, rank, n)
    ensures WeighDeep(paths, rank, t, n) == Weight(Weights(paths, rank), t)
    decreases |t|
  {
    if t != [] {
      DeepIsWeight(paths, rank, t[1..], n);
    }
  }

  lemma WeightsDominate(paths: Paths, rank: map<string, nat>)
    requires Acyclic(paths, rank)
    ensures Dominates(Weights(paths, rank), paths)
  {
    forall k | k in paths
      ensures Weight(Weights(paths, rank), paths[k]) <= Weights(paths, rank)[k]
    {
      DeepIsWeight(paths, rank, paths[k], rank[k]);
    }
  }

  lemma {:induction false} WeightConcat(v: map<string, nat>, s: seq<Tok>, t: seq<Tok>)
    ensures Weight(v, s + t) == Weight(v, s) + Weight(v, t)
    decreases |s|
  {
    if s == [] {
      assert s + t == t;
    } else {
      assert (s + t)[1..] == s[1..] + t;
      WeightConcat(v, s[1..], t);
    }
  }

  lemma {:induction false} WeightSubst(v: map<string, nat>, t: seq<Tok>, k: string, put: seq<Tok>)
    requires k in v && Weight(v, put) <= v[k]
    ensures Weight(v, Subst(t, k, put)) <= Weight(v, t)
    ensures Ref(k) in t ==> Weight(v, Subst(t, k, put)) < Weight(v, t)
    decreases |t|
  {
    if t != [] {
      WeightSubst(v, t[1..], k, put);
      var head := if t[0] == Ref(k) then put else [t[0]];
      WeightConcat(v, head, Subst(t[1..], k, put));
      assert Ref(k) in t ==> t[0] == Ref(k) || Ref(k) in t[1..];
      if t[0] != Ref(k) {
        assert head[1..] == [];
      }
    }
  }

  /** Substituting everything into one path keeps its expansion, and lowers its weight if
      anything was found in it. */
  lemma {:induction false} SubstAllKeeps(r: Paths, t: seq<Tok>, pats: seq<string>, full: Paths, v: map<string, nat>)
    requires forall k :: k in pats ==> k in r
    requires IsFull(full, r) && Dominates(v, r)
    ensures Expand(full, SubstAll(r, t, pats)) == Expand(full, t)
    ensures Weight(v, SubstAll(r, t, pats)) <= Weight(v, t)
    ensures Hits(r, t, pats) ==> Weight(v, SubstAll(r, t, pats)) < Weight(v, t)
    decreases |pats|
  {
    hide Expand, Weight, Subst;
    if pats != [] {
      var k := pats[0];
      ExpandSubst(full, t, k, r[k]);
      WeightSubst(v, t, k, r[k]);
      SubstAllKeeps(r, Subst(t, k, r[k]), pats[1..], full, v);
    }
  }

  function Total(v: map<string, nat>, r: Paths, names: seq<string>): nat
    requires forall k :: k in names ==> k in r
  {
    if names == [] then 0 else Weight(v, r[names[0]]) + Total(v, r, names[1..])
  }

  lemma {:induction false} TotalUpdate(v: map<string, nat>, r: Paths, names: seq<string>, n: string, t: seq<Tok>)
    requires (forall k :: k in names ==> k in r) && n in r && Weight(v, t) <= Weight(v, r[n])
    ensures Total(v, r[n := t], names) <= Total(v, r, names)
    ensures n in names && Weight(v, t) < Weight(v, r[n]) ==> Total(v, r[n := t], names) < Total(v, r, names)
    decreases |names|
  {
    hide Weight;
    if names != [] {
      TotalUpdate(v, r, names[1..], n, t);
      assert n in names ==> n == names[0] || n in names[1..];
    }
  }

  /** A round keeps the full expansion of every path, and strictly lowers the total weight
      if it changes anything. */
  lemma {:induction false} RoundKeeps(r: Paths, names: seq<string>, order: seq<string>, full: Paths,
      v: map<string, nat>)
    requires (forall k :: k in order ==> k in r) && (forall k :: k in names ==> k in order)
    requires IsFull(full, r) && Dominates(v, r)
    ensures IsFull(full, Round(r, names, order).0) && Dominates(v, Round(r, names, order).0)
    ensures Total(v, Round(r, names, order).0, order) <= Total(v, r, order)
    ensures Round(r, names, order).1 ==> Total(v, Round(r, names, order).0, order) < Total(v, r, order)
    decreases |names|
  {
    hide Expand, Weight, SubstAll, Hits, Total;
    if names != [] {
      var n := names[0];
      var t := SubstAll(r, r[n], order);
      SubstAllKeeps(r, r[n], order, full, v);
      TotalUpdate(v, r, order, n, t);
      RoundKeeps(r[n := t], names[1..], order, full, v);
    }
  }

  lemma {:induction false} SubstAbsent(t: seq<Tok>, k: string, put: seq<Tok>)
    requires Ref(k) !in t
    ensures Subst(t, k, put) == t
    decreases |t|
  {
    if t != [] {
      SubstAbsent(t[1..], k, put);
    }
  }

  lemma {:induction false} NoHits(r: Paths, t: seq<Tok>, pats: seq<string>)
    requires (forall k :: k in pats ==> k in r) && !Hits(r, t, pats)
    ensures SubstAll(r, t, pats) == t && forall k :: k in pats ==> Ref(k) !in t
    decreases |pats|
  {
    if pats != [] {
      SubstAbsent(t, pats[0], r[pats[0]]);
      NoHits(r, t, pats[1..]);
      assert forall k :: k in pats ==> k == pats[0] || k in pats[1..];
    }
  }

  lemma {:induction false} QuietNames(r: Paths, names: seq<string>, order: seq<string>)
    requires (forall k :: k in order ==> k in r) && (forall k :: k in names ==> k in r)
    requires !Round(r, names, order).1
    ensures Round(r, names, order).0 == r
    ensures forall n, k :: n in names && k in order ==> Ref(k) !in r[n]
    decreases |names|
  {
    hide SubstAll, Hits;
    if names != [] {
      NoHits(r, r[names[0]], order);
      assert r[names[0] := r[names[0]]] == r;
      QuietNames(r, names[1..], order);
      assert forall k :: k in names ==> k == names[0] || k in names[1..];
    }
  }

  /** After a round without change no known reference is left. */
  lemma QuietRound(r: Paths, order: seq<string>)
    requires (forall k :: k in order <==> k in r) && !Round(r, order, order).1
    ensures Round(r, order, order).0 == r && Settled(r)
  {
    QuietNames(r, order, order);
    forall k, i | k in r && 0 <= i < |r[k]| && r[k][i].Ref?
      ensures r[k][i].name !in r
    {
      assert Ref(r[k][i].name) in r[k];
    }
  }

  // ---- cycles

  /** Every path of the set refers to one of the set. */
  predicate Circular(r: Paths, c: set<string>) {
    c != {} && forall k :: k in c ==> k in r && Touches(r[k], c)
  }

  predicate Touches(t: seq<Tok>, c: set<string>) {
    exists i :: 0 <= i < |t| && t[i].Ref? && t[i].name in c
  }

  lemma {:induction false} SubstTouches(t: seq<Tok>, k: string, put: seq<Tok>, c: set<string>)
    requires Touches(t, c) && (k in c ==> Touches(put, c))
    ensures Touches(Subst(t, k, put), c)
    decreases |t|
  {
    var i :| 0 <= i < |t| && t[i].Ref? && t[i].name in c;
    var head, rest := if t[0] == Ref(k) then put else [t[0]], Subst(t[1..], k, put);
    if i == 0 {
      var j :| 0 <= j < |head| && head[j].Ref? && head[j].name in c;
      assert (head + rest)[j] == head[j];
    } else {
      assert t[1..][i - 1] == t[i];
      SubstTouches(t[1..], k, put, c);
      var j :| 0 <= j < |rest| && rest[j].Ref? && rest[j].name in c;
      assert (head + rest)[|head| + j] == rest[j];
    }
  }

  lemma {:induction false} SubstAllTouches(r: Paths, t: seq<Tok>, pats: seq<string>, c: set<string>)
    requires (forall k :: k in pats ==> k in r) && Circular(r, c) && Touches(t, c)
    ensures Touches(SubstAll(r, t, pats), c)
    decreases |pats|
  {
    hide Touches, Subst;
    if pats != [] {
      SubstTouches(t, pats[0], r[pats[0]], c);
      SubstAllTouches(r, Subst(t, pats[0], r[pats[0]]), pats[1..], c);
    }
  }

  lemma {:induction false} RoundKeepsCycle(r: Paths, names: seq<string>, order: seq<string>, c: set<string>)
    requires (forall k :: k in order ==> k in r) && (forall k :: k in names ==> k in r) && Circular(r, c)
    ensures Circular(Round(r, names, order).0, c)
    decreases |names|
  {
    hide Touches, SubstAll, Hits;
    if names != [] {
      if names[0] in c {
        SubstAllTouches(r, r[names[0]], order, c);
      }
      RoundKeepsCycle(r[names[0] := SubstAll(r, r[names[0]], order)], names[1..], order, c);
    }
  }

  ghost predicate Covers(order: seq<string>, r: Paths) {
    forall k :: k in order <==> k in r
  }

  function WholeRound(r: Paths, order: seq<string>): (res: (Paths, bool))
    requires Covers(order, r)
    ensures Covers(order, res.0)
  {
    Round(r, order, order)
  }

  function Rounds(r: Paths, order: seq<string>, n: nat): (res: Paths)
    requires Covers(order, r)
    ensures Covers(order, res)
  {
    if n == 0 then r else WholeRound(Rounds(r, order, n - 1), order).0
  }

  lemma TouchesMeans(r: Paths, k: string, c: set<string>)
    requires k in r && Touches(r[k], c) && forall j :: j in c ==> j in r
    ensures !Settled(r)
  {
  }

  /** A round over paths that refer to each other in a circle changes something, and leaves
      a circle. */
  lemma CycleIsLoud(r: Paths, order: seq<string>, c: set<string>)
    requires Covers(order, r) && Circular(r, c)
    ensures WholeRound(r, order).1 && Circular(WholeRound(r, order).0, c)
  {
    hide Touches, Round, Settled;
    RoundKeepsCycle(r, order, order, c);
    var k :| k in c;
    TouchesMeans(r, k, c);
    if !Round(r, order, order).1 {
      QuietRound(r, order);
    }
  }

  /** Paths that refer to each other in a circle are substituted for ever. */
  lemma {:induction false} CyclesNeverSettle(r: Paths, order: seq<string>, c: set<string>, n: nat)
    requires Covers(order, r) && Circular(r, c)
    ensures Circular(Rounds(r, order, n), c) && WholeRound(Rounds(r, order, n), order).1
    decreases n
  {
    hide WholeRound, Circular, Covers;
    if n > 0 {
      CyclesNeverSettle(r, order, c, n - 1);
      CycleIsLoud(Rounds(r, order, n - 1), order, c);
    }
    CycleIsLoud(Rounds(r, order, n), order, c);
  }

  // ---- one or the other

  /** No set of paths is circular. */
  ghost predicate NoCircle(r: Paths) {
    forall c :: !Circular(r, c)
  }

  /** All paths but those left are ranked below n, each above those it refers to. */
  ghost predicate PartRank(r: Paths, done: map<string, nat>, left: set<string>, n: nat) {
    (forall k :: k in r <==> k in done || k in left) && (forall k :: k in left ==> k !in done) &&
    forall k :: k in done ==> done[k] < n && RefersBelow(r, done, k)
  }

  ghost predicate RefersBelow(r: Paths, done: map<string, nat>, k: string)
    requires k in r && k in done
  {
    forall i :: 0 <= i < |r[k]| && r[k][i].Ref? && r[k][i].name in r ==>
      r[k][i].name in done && done[r[k][i].name] < done[k]
  }

  lemma OneMoreRanked(r: Paths, done: map<string, nat>, left: set<string>, n: nat, k: string)
    requires PartRank(r, done, left, n) && k in left && !Touches(r[k], left)
    ensures PartRank(r, done[k := n], left - {k}, n + 1)
  {
    var more := done[k := n];
    forall j | j in more
      ensures more[j] < n + 1 && RefersBelow(r, more, j)
    {
      if j != k {
        assert RefersBelow(r, done, j);
      }
    }
  }

  /** Without circles some path refers to ranked paths only, until all are ranked. */
  lemma {:induction false} RankRest(r: Paths, done: map<string, nat>, left: set<string>, n: nat)
      returns (rank: map<string, nat>)
    requires NoCircle(r) && PartRank(r, done, left, n)
    ensures Acyclic(r, rank)
    decreases |left|
  {
    if left == {} {
      AllRanked(r, done, n);
      rank := done;
    } else {
      assert !Circular(r, left);
      var k :| k in left && !Touches(r[k], left);
      hide PartRank, Touches, NoCircle, Acyclic;
      OneMoreRanked(r, done, left, n, k);
      rank := RankRest(r, done[k := n], left - {k}, n + 1);
    }
  }

  lemma AllRanked(r: Paths, done: map<string, nat>, n: nat)
    requires PartRank(r, done, {}, n)
    ensures Acyclic(r, done)
  {
    forall k | k in r
      ensures Ranked(r[k], done, done[k])
    {
      assert RefersBelow(r, done, k);
    }
  }

  lemma RankOf(r: Paths) returns (rank: map<string, nat>)
    requires NoCircle(r)
    ensures Acyclic(r, rank)
  {
    rank := RankRest(r, map[], r.Keys, 0);
  }

  lemma {:induction false} RoundsShift(r: Paths, order: seq<string>, n: nat)
    requires Covers(order, r)
    ensures Rounds(WholeRound(r, order).0, order, n) == Rounds(r, order, n + 1)
    decreases n
  {
    hide WholeRound, Covers;
    if n == 0 {
      assert Rounds(r, order, 0) == r;
    } else {
      RoundsShift(r, order, n - 1);
    }
  }

  ghost predicate Quiet(r: Paths, order: seq<string>, n: nat)
    requires Covers(order, r)
  {
    !WholeRound(Rounds(r, order, n), order).1
  }

  lemma {:induction false} QuietComes(r: Paths, order: seq<string>, full: Paths, v: map<string, nat>) returns (n: nat)
    requires Covers(order, r) && IsFull(full, r) && Dominates(v, r)
    ensures Quiet(r, order, n)
    decreases Total(v, r, order)
  {
    hide Round, IsFull, Dominates, Total;
    if WholeRound(r, order).1 {
      RoundKeeps(r, order, order, full, v);
      n := QuietComes(WholeRound(r, order).0, order, full, v);
      RoundsShift(r, order, n);
      n := n + 1;
    } else {
      n := 0;
    }
  }

  /** Some round changes nothing if and only if no set of paths is circular. */
  lemma SettlesExactly(r: Paths, order: seq<string>)
    requires Covers(order, r)
    ensures (exists n :: Quiet(r, order, n)) <==> NoCircle(r)
  {
    hide WholeRound, Circular, Rounds, Expansion, Weights, Acyclic, Covers;
    if NoCircle(r) {
      var rank := RankOf(r);
      ExpansionIsFull(r, rank);
      WeightsDominate(r, rank);
      var n := QuietComes(r, order, Expansion(r, rank), Weights(r, rank));
    } else {
      var c :| Circular(r, c);
      forall n: nat
        ensures !Quiet(r, order, n)
      {
        CyclesNeverSettle(r, order, c, n);
      }
    }
  }

  /** The shortest input on which no round is quiet: a path that refers to itself. */
  lemma SelfReferenceNeverSettles(k: string, n: nat)
    ensures var r: Paths := map[k := [Ref(k)]];
      Circular(r, {k}) && Covers([k], r) && !Quiet(r, [k], n)
  {
    var r: Paths := map[k := [Ref(k)]];
    assert r[k][0].Ref? && r[k][0].name in {k};
    CyclesNeverSettle(r, [k], {k}, n);
  }
}
