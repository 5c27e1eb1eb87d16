/** The startup, candidate and running datastores of the SSH daemon's configuration, and
    the single rollback point they share. */
module Datastore {
  import opened Xml
  import opened Matching

  datatype Kind = Running | Startup | Candidate | ConfigText | Invalid

  /** What a document holds; no document at all is None. */
  type Content = Option<seq<Node>>

  /** Documents are written out and read back unchanged, except that a document without
      root node, once written out, cannot be read back. */
  function Reread(text: seq<Node>): Content {
    if text == [] then None else Some(text)
  }

  const ROOT := "sshd_config_options"

  predicate GoodConfig(config: Content) {
    config.Some? && (config.value == [] || NameOf(config.value[0]) == ROOT)
  }

  /** The contents of everything: the datastores, the rollback document and whose it is,
      and how often running is read locally before it is read from sysrepo. */
  datatype View = View(
    run: Content, startup: Content, cand: Content, back: Content, kind: Option<Kind>, local: nat)

  predicate Store(k: Kind) {
    k.Running? || k.Startup? || k.Candidate?
  }

  function Of(v: View, k: Kind): Content
    requires Store(k)
  {
    match k
    case Running => v.run
    case Startup => v.startup
    case Candidate => v.cand
  }

  function With(v: View, k: Kind, c: Content): View
    requires Store(k)
  {
    match k
    case Running => v.(run := c)
    case Startup => v.(startup := c)
    case Candidate => v.(cand := c)
  }

  /** The text of running: the local copy while it is to be used, else what sysrepo answers
      (None if it does not). */
  function RunningText(v: View, sysrepo: Content): Content {
    if v.local > 0 then v.run else sysrepo
  }

  function AfterRead(v: View): View {
    v.(local := if v.local > 0 then v.local - 1 else 0)
  }

  /** What an operation on k works on and remembers for rollback. */
  function Base(v: View, k: Kind, sysrepo: Content): Content
    requires Store(k)
  {
    if k.Running? then (if RunningText(v, sysrepo).Some? then Reread(RunningText(v, sysrepo).value) else None)
    else Of(v, k)
  }

  /** edit-config. The edit engine leaves the content after behind, also when it fails; it
      always fails when there is no document. */
  function Edit(v: View, k: Kind, config: Content, sysrepo: Content, after: seq<Node>, good: bool): (bool, View) {
    if !GoodConfig(config) || !Store(k) then (false, v)
    else
      var w := if k.Running? then AfterRead(v) else v;
      if k.Running? && RunningText(v, sysrepo).None? then (false, w)
      else
        var u := w.(back := Base(v, k, sysrepo), kind := Some(k));
        if Base(v, k, sysrepo).None? then (false, u)
        else if k.Running? then (good, if good then u.(run := Some(after), local := 2) else u)
        else (good, With(u, k, Some(after)))
  }

  /** What copy-config copies: a copy of a datastore, or the text of a configuration. The
      text is None if there is none, Some(None) if it cannot be read. */
  function Source(v: View, k: Kind, config: Option<Content>, sysrepo: Content): (Option<Content>, View) {
    match k
    case Running =>
      (if RunningText(v, sysrepo).None? then None else Some(Reread(RunningText(v, sysrepo).value)), AfterRead(v))
    case Startup => (Some(v.startup), v)
    case Candidate => (Some(v.cand), v)
    case ConfigText => (if config.None? || config.value.None? then None else config, v)
    case Invalid => (None, v)
  }

  /** A source put in place of the target's contents. While rolling back, the rollback
      document is left alone. */
  function CopyOver(v: View, k: Kind, src: Content, sysrepo: Content, rollbacking: bool): (bool, View) {
    if k.Running? then
      var u := AfterRead(v);
      if RunningText(v, sysrepo).None? then (false, u)
      else
        var dst := Reread(RunningText(v, sysrepo).value);
        var x := if rollbacking then u
                 else u.(back := if dst.None? then Some([]) else dst, kind := Some(k));
        (true, x.(run := src, local := 1))
    else if !Store(k) then (false, v)
    else
      var u := if rollbacking then v else v.(back := Of(v, k), kind := Some(k));
      (true, With(u, k, src))
  }

  /** copy-config. */
  function Copy(v: View, k: Kind, from: Kind, config: Option<Content>, s1: Content, s2: Content, rollbacking: bool):
    (bool, View)
  {
    var (src, w) := Source(v, from, config, s1);
    if src.None? then (false, w) else CopyOver(w, k, src.value, s2, rollbacking)
  }

  function Delete(v: View, k: Kind): (bool, View) {
    if k.Startup? || k.Candidate? then (true, With(v.(back := Of(v, k), kind := Some(k)), k, None))
    else (false, v)
  }

  /** Rollback copies the written-out rollback document back. No document is written out as
      the empty text, which is read as a document without root. */
  function Rollback(v: View, sysrepo: Content): (bool, View) {
    if v.kind.None? then (false, v)
    else
      var config: Content := if v.back.None? then Some([]) else Reread(v.back.value);
      Copy(v, v.kind.value, ConfigText, Some(config), None, sysrepo, true)
  }

  // ---- the documents themselves

  class Datastores {
    var run: Document?
    var startup: Document?
    var cand: Document?
    var back: Document?
    var kind: Option<Kind>
    var local: nat
    var rollbacking: bool

    /** The documents that are allocated and not freed. */
    ghost var live: set<Document>

    /** No two of the four references are to one document, and none is to a freed one. */
    ghost predicate Valid()
      reads this
    {
      (run != null ==> run in live && run != startup && run != cand && run != back) &&
      (startup != null ==> startup in live && startup != cand && startup != back) &&
      (cand != null ==> cand in live && cand != back) &&
      (back != null ==> back in live) &&
      (kind.Some? ==> Store(kind.value))
    }

    /** A document that no reference is to yet. */
    ghost predicate Unshared(d: Document?)
      reads this
    {
      d != null ==> d in live && d != run && d != startup && d != cand && d != back
    }

    function Held(d: Document?): Content
      reads d
    {
      if d == null then None else Some(d.roots)
    }

    ghost function Now(): View
      requires Valid()
      reads this, live
    {
      View(Held(run), Held(startup), Held(cand), Held(back), kind, local)
    }

    constructor (running: seq<Node>, initial: seq<Node>)
      ensures Valid() && fresh(live) && !rollbacking
      ensures Now() == View(None, Some(initial), Some(running), None, None, 0)
    {
      var c := new Document(running);
      var s := new Document(initial);
      run, startup, cand, back := null, s, c, null;
      kind, local, rollbacking := None, 0, false;
      live := {c, s};
    }

    method FreeDoc(d: Document?)
      requires d != null ==> d in live
      modifies this`live
      ensures live == old(live) - (if d == null then {} else {d})
    {
      live := live - if d == null then {} else {d};
    }

    /** A new document, or none for no content. */
    method NewDoc(c: Content) returns (d: Document?)
      modifies this`live
      ensures Held(d) == c && (d != null ==> fresh(d))
      ensures live == old(live) + if d == null then {} else {d}
    {
      if c.None? {
        return null;
      }
      d := new Document(c.value);
      live := live + {d};
    }

    method StoreRollback(doc: Document?, k: Kind)
      requires back != null ==> back in live
      modifies this`back, this`kind, this`live
      ensures back == doc && kind == Some(k)
      ensures live == old(live) - if old(back) == null then {} else {old(back)}
    {
      if back != null {
        FreeDoc(back);
      }
      back := doc;
      kind := Some(k);
    }

    /** The text of running; reading the local copy uses up one local reading. */
    method GetRunning(sysrepo: Content) returns (text: Content)
      requires Valid()
      modifies this`local
      ensures Valid() && text == RunningText(old(Now()), sysrepo) && Now() == AfterRead(old(Now()))
    {
      if local > 0 {
        text := Held(run);
        local := local - 1;
      } else {
        text := sysrepo;
      }
    }

    method DeleteConfig(k: Kind) returns (ok: bool)
      requires Valid()
      modifies this
      ensures Valid() && live <= old(live) && rollbacking == old(rollbacking)
      ensures (ok, Now()) == Delete(old(Now()), k)
    {
      match k
      case Startup =>
        StoreRollback(startup, Startup);
        startup := null;
        ok := true;
      case Candidate =>
        StoreRollback(cand, Candidate);
        cand := null;
        ok := true;
      case _ =>
        ok := false;
    }

    /** The document that an edit works on: the datastore's own, or for running a new one
        read from its text. */
    method OpenTarget(k: Kind, sysrepo: Content) returns (ok: bool, base: Document?)
      requires Valid() && Store(k)
      modifies this`local, this`live
      ensures Valid() && Now() == if k.Running? then AfterRead(old(Now())) else old(Now())
      ensures ok <==> (k.Running? ==> RunningText(old(Now()), sysrepo).Some?)
      ensures Held(base) == if ok then Base(old(Now()), k, sysrepo) else None
      ensures base == if k.Startup? then startup else if k.Candidate? then cand else base
      ensures k.Running? && base != null ==> fresh(base)
      ensures live == old(live) + if base == null then {} else {base}
    {
      base := null;
      match k {
        case Running =>
          var text := GetRunning(sysrepo);
          if text.None? {
            return false, null;
          }
          base := NewDoc(Reread(text.value));
        case Startup => base := startup;
        case _ => base := cand;
      }
      return true, base;
    }

    /** edit-config; the engine leaves after in the document it works on, and says whether
        the edit was good. */
    method EditConfig(k: Kind, config: Content, sysrepo: Content, after: seq<Node>, good: bool) returns (ok: bool)
      requires Valid()
      modifies this, live
      ensures Valid() && fresh(live - old(live)) && rollbacking == old(rollbacking)
      ensures (ok, Now()) == Edit(old(Now()), k, config, sysrepo, after, good)
    {
      hide GoodConfig, RunningText, Base;
      if !GoodConfig(config) || !Store(k) {
        return false;
      }
      var found, base := OpenTarget(k, sysrepo);
      if !found {
        return false;
      }
      SaveCopy(base, k);
      if base == null {
        return false;
      }
      ok := Perform(k, base, after, good);
    }

    /** Remembers a copy of a document for rollback. */
    method SaveCopy(base: Document?, k: Kind)
      requires Valid() && Store(k) && (base != null ==> base in live && base != back)
      modifies this`back, this`kind, this`live
      ensures Valid() && fresh(live - old(live)) && (base != null ==> base in live && base != back)
      ensures Now() == old(Now()).(back := old(Held(base)), kind := Some(k))
    {
      var copy := NewDoc(Held(base));
      StoreRollback(copy, k);
    }

    /** Runs the edit engine on a document and, for running, takes the result over. */
    method Perform(k: Kind, base: Document, after: seq<Node>, good: bool) returns (ok: bool)
      requires Valid() && Store(k) && base in live && base != back
      requires if k.Running? then base != startup && base != cand && base != run
               else base == if k.Startup? then startup else cand
      modifies this, base
      ensures Valid() && live <= old(live) && rollbacking == old(rollbacking)
      ensures ok == good
      ensures Now() == if k.Running? then (if good then old(Now()).(run := Some(after), local := 2) else old(Now()))
                       else With(old(Now()), k, Some(after))
    {
      base.roots := after;
      if !good {
        return false;
      }
      if k.Running? {
        FreeDoc(run);
        run := base;
        local := 2;
      }
      return true;
    }

    /** A document with what is to be copied. */
    method OpenSource(from: Kind, config: Option<Content>, sysrepo: Content) returns (ok: bool, src: Document?)
      requires Valid()
      modifies this`local, this`live
      ensures Valid() && Now() == Source(old(Now()), from, config, sysrepo).1
      ensures Source(old(Now()), from, config, sysrepo).0 == if ok then Some(Held(src)) else None
      ensures Unshared(src) && fresh(live - old(live))
    {
      hide Reread, RunningText;
      src := null;
      match from {
        case Running =>
          var text := GetRunning(sysrepo);
          if text.None? {
            return false, null;
          }
          src := NewDoc(Reread(text.value));
        case Startup => src := NewDoc(Held(startup));
        case Candidate => src := NewDoc(Held(cand));
        case ConfigText =>
          if config.None? || config.value.None? {
            return false, null;
          }
          src := NewDoc(config.value);
        case _ => return false, null;
      }
      return true, src;
    }

    /** Remembers the old document of a datastore, or frees it while rolling back. */
    method Retire(d: Document?, k: Kind)
      requires back != null ==> back in live
      requires d != null ==> d in live && d != back
      modifies this`back, this`kind, this`live
      ensures if rollbacking then back == old(back) && kind == old(kind) else back == d && kind == Some(k)
      ensures live == old(live) - var gone := if rollbacking then d else old(back); if gone == null then {} else {gone}
    {
      if !rollbacking {
        StoreRollback(d, k);
      } else {
        FreeDoc(d);
      }
    }

    method CopyConfig(k: Kind, from: Kind, config: Option<Content>, s1: Content, s2: Content) returns (ok: bool)
      requires Valid()
      modifies this
      ensures Valid() && fresh(live - old(live)) && rollbacking == old(rollbacking)
      ensures (ok, Now()) == Copy(old(Now()), k, from, config, s1, s2, rollbacking)
    {
      hide Source, RunningText, Valid, Unshared, Now, CopyOver;
      var found, src := OpenSource(from, config, s1);
      if !found {
        return false;
      }
      ok := CopyTo(k, src, s2);
    }

    method CopyTo(k: Kind, src: Document?, sysrepo: Content) returns (ok: bool)
      requires Valid()
      requires Unshared(src)
      modifies this
      ensures Valid() && fresh(live - old(live)) && rollbacking == old(rollbacking)
      ensures (ok, Now()) == CopyOver(old(Now()), k, old(Held(src)), sysrepo, rollbacking)
    {
      hide RunningText, Valid, Unshared, Now, AfterRead, With, Of, Reread;
      if k.Running? {
        ok := CopyToRunning(src, sysrepo);
      } else if Store(k) {
        CopyToLocal(k, src);
        ok := true;
      } else {
        ok := false;
      }
    }

    method CopyToLocal(k: Kind, src: Document?)
      requires Valid() && (k.Startup? || k.Candidate?)
      requires Unshared(src)
      modifies this
      ensures Valid() && live <= old(live) && rollbacking == old(rollbacking)
      ensures var v := old(Now());
        Now() == With(if rollbacking then v else v.(back := Of(v, k), kind := Some(k)), k, old(Held(src)))
    {
      if k.Startup? {
        Retire(startup, k);
        startup := src;
      } else {
        Retire(cand, k);
        cand := src;
      }
    }

    method CopyToRunning(src: Document?, sysrepo: Content) returns (ok: bool)
      requires Valid()
      requires Unshared(src)
      modifies this
      ensures Valid() && fresh(live - old(live)) && rollbacking == old(rollbacking)
      ensures ok <==> RunningText(old(Now()), sysrepo).Some?
      ensures var w := AfterRead(old(Now()));
        Now() == if !ok then w else
          var dst := Reread(RunningText(old(Now()), sysrepo).value);
          var x := if rollbacking then w else w.(back := if dst.None? then Some([]) else dst, kind := Some(Running));
          x.(run := old(Held(src)), local := 1)
    {
      hide RunningText, AfterRead, Now, Valid;
      var text := GetRunning(sysrepo);
      if text.None? {
        return false;
      }
      var dst := Envelope(src, Reread(text.value));
      ReplaceRunning(src, dst);
      return true;
    }

    /** A document for the old contents of running; without contents, one without root. */
    method Envelope(src: Document?, c: Content) returns (dst: Document)
      requires Valid() && Unshared(src)
      modifies this`live
      ensures Valid() && Unshared(src) && Unshared(dst) && src != dst && fresh(live - old(live))
      ensures Now() == old(Now()) && dst.roots == if c.None? then [] else c.value
    {
      dst := new Document(if c.None? then [] else c.value);
      live := live + {dst};
    }

    method ReplaceRunning(src: Document?, dst: Document)
      requires Valid() && Unshared(dst) && src != dst
      requires Unshared(src)
      modifies this
      ensures Valid() && live <= old(live) && rollbacking == old(rollbacking)
      ensures var v := old(Now());
        var x := if rollbacking then v else v.(back := old(Held(dst)), kind := Some(Running));
        Now() == x.(run := old(Held(src)), local := 1)
    {
      hide Valid, Unshared, Now;
      RememberRunning(src, dst);
      PutRunning(src);
    }

    /** Remembers dst as what running held, or frees it while rolling back. */
    method RememberRunning(src: Document?, dst: Document)
      requires Valid() && Unshared(dst) && src != dst
      requires Unshared(src)
      modifies this`back, this`kind, this`live
      ensures Valid() && Unshared(src) && live <= old(live)
      ensures Now() == if rollbacking then old(Now()) else old(Now()).(back := old(Held(dst)), kind := Some(Running))
    {
      Retire(dst, Running);
    }

    /** Frees the running document and puts another in its place. */
    method PutRunning(src: Document?)
      requires Valid() && Unshared(src)
      modifies this`run, this`local, this`live
      ensures Valid() && live <= old(live) && Now() == old(Now()).(run := old(Held(src)), local := 1)
    {
      FreeDoc(run);
      run := src;
      local := 1;
    }

    method RollBack(sysrepo: Content) returns (ok: bool)
      requires Valid() && !rollbacking
      modifies this
      ensures Valid() && fresh(live - old(live)) && !rollbacking
      ensures (ok, Now()) == Rollback(old(Now()), sysrepo)
    {
      if kind.None? {
        return false;
      }
      var config: Content := Some([]);
      if back != null {
        config := Reread(back.roots);
      }
      rollbacking := true;
      ok := CopyConfig(kind.value, ConfigText, Some(config), None, sysrepo);
      rollbacking := false;
    }
  }

  // ---- what rollback undoes

  /** One operation, with what sysrepo and the edit engine answer. */
  datatype Request =
    | EditRequest(k: Kind, config: Content, sysrepo: Content, after: seq<Node>, good: bool)
    | CopyRequest(k: Kind, from: Kind, text: Option<Content>, s1: Content, s2: Content)
    | DeleteRequest(k: Kind)

  function Serve(v: View, r: Request): (bool, View) {
    match r
    case EditRequest(k, config, sysrepo, after, good) => Edit(v, k, config, sysrepo, after, good)
    case CopyRequest(k, from, config, s1, s2) => Copy(v, k, from, config, s1, s2, false)
    case DeleteRequest(k) => Delete(v, k)
  }

  /** The request gets as far as storing a rollback point: an edit does unless its text is
      bad, also when it fails later. */
  predicate Stores(v: View, r: Request) {
    match r
    case EditRequest(k, config, sysrepo, _, _) =>
      GoodConfig(config) && Store(k) && (k.Running? ==> RunningText(v, sysrepo).Some?)
    case CopyRequest(k, from, config, s1, s2) =>
      var (src, w) := Source(v, from, config, s1);
      src.Some? && Store(k) && (k.Running? ==> RunningText(w, s2).Some?)
    case DeleteRequest(k) => k.Startup? || k.Candidate?
  }

  function Serves(v: View, rs: seq<Request>): View {
    if rs == [] then v else Serve(Serves(v, rs[..|rs| - 1]), rs[|rs| - 1]).1
  }

  /** The last request of a run that stored a rollback point, as an index. */
  function LastStore(v: View, rs: seq<Request>): (i: Option<nat>)
    ensures i.Some? ==> i.value < |rs| && Stores(Serves(v, rs[..i.value]), rs[i.value])
  {
    if rs == [] then None
    else if Stores(Serves(v, rs[..|rs| - 1]), rs[|rs| - 1]) then Some(|rs| - 1)
    else
      var i := LastStore(v, rs[..|rs| - 1]);
      assert i.Some? ==> rs[..|rs| - 1][..i.value] == rs[..i.value];
      i
  }

  /** A request on startup or candidate touches no other datastore. */
  lemma OthersStay(v: View, r: Request)
    requires r.k.Startup? || r.k.Candidate?
    ensures var w := Serve(v, r).1;
      w.run == v.run && (r.k.Startup? ==> w.cand == v.cand) && (r.k.Candidate? ==> w.startup == v.startup)
  {
  }

  /** Storing remembers the contents from just before the request; a request that does not
      store changes no datastore and no rollback point. */
  lemma StoreRemembers(v: View, r: Request)
    requires r.k.Startup? || r.k.Candidate?
    ensures var w := Serve(v, r).1;
      if Stores(v, r) then w.kind == Some(r.k) && w.back == Of(v, r.k)
      else w.back == v.back && w.kind == v.kind && w.startup == v.startup && w.cand == v.cand && w.run == v.run
  {
  }

  predicate OnLocal(rs: seq<Request>) {
    forall i :: 0 <= i < |rs| ==> rs[i].k.Startup? || rs[i].k.Candidate?
  }

  /** After any run the rollback point holds what its datastore held just before the last
      request that stored one. */
  lemma {:induction false} BackIsLastStore(v: View, rs: seq<Request>)
    requires OnLocal(rs)
    ensures match LastStore(v, rs)
      case None => Serves(v, rs).back == v.back && Serves(v, rs).kind == v.kind
      case Some(i) =>
        Serves(v, rs).kind == Some(rs[i].k) && Serves(v, rs).back == Of(Serves(v, rs[..i]), rs[i].k)
    decreases |rs|
  {
    hide Serve, Stores;
    if rs != [] {
      var prev := rs[..|rs| - 1];
      BackIsLastStore(v, prev);
      StoreRemembers(Serves(v, prev), rs[|rs| - 1]);
      var i := LastStore(v, prev);
      if i.Some? {
        assert prev[..i.value] == rs[..i.value];
      }
    }
  }

  /** After any run of edits (failing or not), copies and deletes on startup and candidate:
      rollback gives the datastore of the last request that stored a rollback point the
      contents it had just before that request, and leaves the others alone, exactly if
      those contents were not empty. */
  lemma RollbackUndoes(v: View, rs: seq<Request>, sysrepo: Content)
    requires OnLocal(rs) && LastStore(v, rs).Some?
    ensures var i := LastStore(v, rs).value;
      var before, now := Of(Serves(v, rs[..i]), rs[i].k), Serves(v, rs);
      Rollback(now, sysrepo) == (true, With(now, rs[i].k, before)) <==> before.Some? && before.value != []
  {
    hide Serves, LastStore;
    BackIsLastStore(v, rs);
  }

  /** What happens to empty contents: a deleted datastore comes back as a document without
      root, and a document without root cannot be rolled back to at all. */
  lemma RollbackOfNothing(v: View, sysrepo: Content)
    requires v.kind == Some(Startup) || v.kind == Some(Candidate)
    ensures v.back == None ==> Rollback(v, sysrepo) == (true, With(v, v.kind.value, Some([])))
    ensures v.back == Some([]) ==> Rollback(v, sysrepo) == (false, v)
  {
  }

  /** Rolling back twice is rolling back once. */
  lemma RollbackTwice(v: View, s1: Content, s2: Content)
    requires v.kind == Some(Startup) || v.kind == Some(Candidate)
    ensures Rollback(Rollback(v, s1).1, s2) == Rollback(v, s1)
  {
  }

  // ---- what requests leave in the datastores

  /** What a source holds; None if there is nothing that could be copied. */
  function Offered(v: View, from: Kind, text: Option<Content>, sysrepo: Content): Option<Content> {
    match from
    case Startup => Some(v.startup)
    case Candidate => Some(v.cand)
    case Running =>
      var read := if v.local > 0 then v.run else sysrepo;
      if read == None then None else if read == Some([]) then Some(None) else Some(read)
    case ConfigText => if text == None || text == Some(None) then None else text
    case Invalid => None
  }

  /** copy-config leaves in startup or candidate what the source holds, and fails without a
      change to any datastore if there is nothing to copy. */
  lemma CopyTakesOver(v: View, k: Kind, from: Kind, text: Option<Content>, s1: Content, s2: Content)
    requires k.Startup? || k.Candidate?
    ensures var (ok, w) := Copy(v, k, from, text, s1, s2, false); var offered := Offered(v, from, text, s1);
      (ok <==> offered.Some?) && w.run == v.run &&
      w.startup == (if k.Startup? && ok then offered.value else v.startup) &&
      w.cand == (if k.Candidate? && ok then offered.value else v.cand)
  {
  }

  /** copy-config to running leaves there what the source holds, for the next reading. It
      fails if there is nothing to copy or running cannot be read. */
  lemma CopyTakesOverRunning(v: View, from: Kind, text: Option<Content>, s1: Content, s2: Content)
    ensures var (ok, w) := Copy(v, Running, from, text, s1, s2, false); var offered := Offered(v, from, text, s1);
      var left := if from.Running? && v.local > 0 then v.local - 1 else v.local;
      (ok <==> offered.Some? && (left > 0 ==> v.run.Some?) && (left == 0 ==> s2.Some?)) &&
      w.run == (if ok then offered.value else v.run) && (ok ==> w.local == 1) &&
      w.startup == v.startup && w.cand == v.cand
  {
  }

  /** delete-config leaves nothing in startup or candidate, and refuses everything else. */
  lemma DeleteLeavesNothing(v: View, k: Kind)
    ensures var (ok, w) := Delete(v, k);
      (ok <==> k.Startup? || k.Candidate?) && (!ok ==> w == v) &&
      w.startup == (if k.Startup? then None else v.startup) && w.cand == (if k.Candidate? then None else v.cand) &&
      w.run == v.run
  {
  }

  /** edit-config succeeds exactly if the text is good, there is a document to edit and the
      engine succeeds; startup and candidate hold what the engine left, also when it
      failed, and running holds it when it succeeded, for the next two readings. */
  lemma EditTakesOver(v: View, k: Kind, config: Content, sysrepo: Content, after: seq<Node>, good: bool)
    requires k.Startup? || k.Candidate? || k.Running?
    ensures var (ok, w) := Edit(v, k, config, sysrepo, after, good);
      var valid := config.Some? && (config.value == [] || NameOf(config.value[0]) == "sshd_config_options");
      var there := match k
        case Startup => v.startup.Some?
        case Candidate => v.cand.Some?
        case _ => var read := if v.local > 0 then v.run else sysrepo; read != None && read != Some([]);
      (ok <==> valid && there && good) &&
      w.startup == (if k.Startup? && valid && there then Some(after) else v.startup) &&
      w.cand == (if k.Candidate? && valid && there then Some(after) else v.cand) &&
      w.run == (if k.Running? && ok then Some(after) else v.run) && (k.Running? && ok ==> w.local == 2)
  {
  }

  /** Running is read from the local copy as often as it was to be read from it, then from
      sysrepo again. */
  lemma ReadTwiceThenAsk(v: View, sysrepo: Content)
    requires v.local == 2
    ensures RunningText(v, sysrepo) == v.run && RunningText(AfterRead(v), sysrepo) == v.run
    ensures RunningText(AfterRead(AfterRead(v)), sysrepo) == sysrepo && AfterRead(v).run == v.run
  {
  }

  /** Before running is edited or copied to, what it held is remembered: as it could be read,
      or, when it is copied to and could not be read, as a document without root. */
  lemma RunningIsRemembered(v: View, config: Content, from: Kind, text: Option<Content>, s1: Content, s2: Content,
      after: seq<Node>, good: bool)
    ensures var read := if v.local > 0 then v.run else s1;
      var w := Edit(v, Running, config, s1, after, good).1;
      config.Some? && GoodConfig(config) && read != None ==>
        w.kind == Some(Running) && w.back == if read == Some([]) then None else read
    ensures var left := if from.Running? && v.local > 0 then v.local - 1 else v.local;
      var read := if left > 0 then v.run else s2;
      var (ok, w) := Copy(v, Running, from, text, s1, s2, false);
      ok ==> w.kind == Some(Running) && w.back == read && read != None
  {
  }

  /** Rolling running back gives it what was remembered, if that has a root and running can
      be read, and leaves the rollback point alone. */
  lemma RunningIsRolledBack(v: View, sysrepo: Content)
    requires v.kind == Some(Running) && v.back.Some? && v.back.value != []
    ensures var (ok, w) := Rollback(v, sysrepo);
      (ok <==> (if v.local > 0 then v.run else sysrepo).Some?) && w.back == v.back && w.kind == v.kind &&
      w.run == (if ok then v.back else v.run) && w.startup == v.startup && w.cand == v.cand
  {
  }
}
