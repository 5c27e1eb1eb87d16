/** Marked clients are removed: what the data thread does with the clients it walks over. */
module Removal {
  import opened Xml
  import opened Sequences
  import opened Reclamation

  /** The state after further turns. */
  function Steps(max: nat, s: State, ts: seq<Event>): State
    decreases |ts|
  {
    if ts == [] then s else Steps(max, Step(max, s, ts[0]), ts[1..])
  }

  lemma {:induction false} RunThenSteps(max: nat, es: seq<Event>, ts: seq<Event>)
    ensures Run(max, es + ts) == Steps(max, Run(max, es), ts)
    decreases |ts|
  {
    hide Step;
    if ts == [] {
      assert es + ts == es;
    } else {
      assert (es + [ts[0]])[..|es|] == es;
      RunThenSteps(max, es + [ts[0]], ts[1..]);
      assert (es + [ts[0]]) + ts[1..] == es + ts;
    }
  }

  lemma OneTurn(max: nat, s: State, ts: seq<Event>)
    requires ts != [] && ts[0].DataTurn?
    ensures Steps(max, s, ts) == Steps(max, DataStep(s, ts[0]), ts[1..])
  {
  }

  lemma NoTurns(max: nat, s: State, ts: seq<Event>)
    requires ts == []
    ensures Steps(max, s, ts) == s
  {
  }

  /** Nobody but the data thread holds the lock on the list. */
  predicate OthersAway(s: State) {
    !AccReads(s.acc) && !AccWrites(s.acc) && s.rpc.RIdle?
  }

  /** Turns of the data thread alone, in which it gets the locks it waits for in time. */
  predicate Undisturbed(ts: seq<Event>) {
    forall i :: 0 <= i < |ts| ==> ts[i].DataTurn? && !ts[i].timeout
  }

  /** A client that is marked, or a TLS client when the server is to quit, is taken out of
      the list and released, once, in six turns, if no other thread holds the lock. */
  lemma MarkedIsRemoved(max: nat, es: seq<Event>, ts: seq<Event>, k: Peer)
    requires var s := Run(max, es); s.data == DIn(k) && OthersAway(s)
    requires |ts| == 6 && Undisturbed(ts)
    requires k in Run(max, es).mem.marked || (k.kind == Tls && ts[0].quit)
    ensures var s, t := Run(max, es), Run(max, es + ts);
      t.data == DReread && t.acc == s.acc && t.rpc == s.rpc &&
      k in s.mem.list && k !in t.mem.list && k in t.mem.detached && t.mem.frees[k] == 1 &&
      (forall c :: c != k ==> (c in t.mem.list <==> c in s.mem.list) && t.mem.frees[c] == s.mem.frees[c])
  {
    hide Run, Steps, AccWell, RpcWell, LocksHeld, Detached, Distinct, Cut, Release;
    var s := Run(max, es);
    RunKeeps(max, es);
    var s1 := s.(mem := Mark(s.mem, k), data := DWait(k));
    var s2 := s1.(data := DWrite(k));
    OneTurn(max, s, ts);
    OneTurn(max, s1, ts[1..]);
    assert ts[1..][1..] == ts[2..];
    FromWrite(max, s2, ts[2..], k);
    RunThenSteps(max, es, ts);
    CutMeans(Mark(s.mem, k), k);
  }

  /** The last four turns. */
  lemma FromWrite(max: nat, s: State, ts: seq<Event>, c: Peer)
    requires s.data == DWrite(c) && |ts| == 4 && forall i :: 0 <= i < 4 ==> ts[i].DataTurn?
    ensures Steps(max, s, ts) == s.(mem := Release(Cut(s.mem, c), c), data := DReread)
  {
    hide Steps, Cut, Release;
    var s1 := s.(mem := Cut(s.mem, c), data := DCut(c));
    OneTurn(max, s, ts);
    OneTurn(max, s1, ts[1..]);
    OneTurn(max, s1.(data := DOut(c)), ts[2..]);
    OneTurn(max, s1.(data := DFree(c)), ts[3..]);
    assert ts[1..][1..] == ts[2..] && ts[2..][1..] == ts[3..];
    NoTurns(max, s.(mem := Release(Cut(s.mem, c), c), data := DReread), ts[3..][1..]);
  }

  lemma CutMeans(h: Memory, c: Peer)
    requires Histories(h) && c in h.list
    ensures var g := Release(Cut(h, c), c);
      c !in g.list && c in g.detached && g.frees[c] == 1 &&
      forall k :: k != c ==> (k in g.list <==> k in h.list) && g.frees[k] == h.frees[k]
  {
    DetachedIsExact(h.list, c);
  }

  /** If the write lock cannot be had in time, the client stays listed and is not released,
      and the thread goes on behind it once it has the read lock back. */
  lemma TimeoutKeeps(max: nat, es: seq<Event>, ts: seq<Event>, k: Peer)
    requires var s := Run(max, es); s.data == DIn(k) && k in s.mem.marked && OthersAway(s)
    requires |ts| == 4 && (forall i :: 0 <= i < 4 ==> ts[i].DataTurn?) && ts[1].timeout
    ensures var s, t := Run(max, es), Run(max, es + ts);
      t == s.(data := DAt(NextOf(s.mem.list, k))) && k in t.mem.list && t.mem.frees[k] == 0
  {
    var s := Run(max, es);
    RunKeeps(max, es);
    var s1 := s.(mem := Mark(s.mem, k), data := DWait(k));
    var s2 := s1.(data := DBack(k));
    var s3 := s2.(data := DResume(k));
    var s4 := s3.(data := DAt(NextOf(s.mem.list, k)));
    hide Run, Steps;
    RunThenSteps(max, es, ts);
    OneTurn(max, s, ts);
    OneTurn(max, s1, ts[1..]);
    OneTurn(max, s2, ts[2..]);
    OneTurn(max, s3, ts[3..]);
    assert ts[1..][1..] == ts[2..] && ts[2..][1..] == ts[3..];
    NoTurns(max, s4, ts[3..][1..]);
    assert s.mem.marked + {k} == s.mem.marked;
  }

  /** A client that is not marked, and is not asked to quit, is passed: it is marked if its
      session ends, and nothing else changes. */
  lemma UnmarkedIsPassed(max: nat, s: State, e: Event, k: Peer)
    requires s.data == DIn(k) && k !in s.mem.marked && e.DataTurn? && !(k.kind == Tls && e.quit)
    ensures var t := Step(max, s, e);
      t.data == DAt(NextOf(s.mem.list, k)) && t.acc == s.acc && t.rpc == s.rpc &&
      t.mem == s.mem.(marked := if e.mark then s.mem.marked + {k} else s.mem.marked)
  {
  }

  /** After a removal the thread gets the read lock back, gives it up and starts again. */
  lemma StartsAgain(max: nat, s: State, e1: Event, e2: Event)
    requires s.data == DReread && CanRead(s) && e1.DataTurn? && e2.DataTurn?
    ensures Steps(max, s, [e1, e2]) == s.(data := DIdle)
  {
    var ts := [e1, e2];
    assert ts[1..] == [e2] && [e2][1..] == [];
    assert Step(max, s, e1) == s.(data := DLeave) && Step(max, s.(data := DLeave), e2) == s.(data := DIdle);
    assert Steps(max, s, ts) == Steps(max, s.(data := DLeave), [e2]) == Steps(max, s.(data := DIdle), []);
  }

  // ---- every marked client is reclaimed

  const TURN := DataTurn(false, false, false)

  function Turns(n: nat): seq<Event> {
    seq(n, i => TURN)
  }

  /** How many turns at most until the data thread is at c or takes another client out. */
  function Distance(list: seq<Peer>, c: Peer, d: Reaper): nat {
    var l, round := |list|, 2 * |list| + 10;
    match d
    case DAt(None) => round + 2
    case DAt(Some(k)) => 2 * (l - IndexOf(list, k)) + 2 + if IndexOf(list, k) <= IndexOf(list, c) then 0 else round
    case DIn(k) => 2 * (l - IndexOf(list, k)) + 1 + if IndexOf(list, k) <= IndexOf(list, c) then 0 else round
    case DWait(_) => 1
    case DWrite(_) => 0
    case DBack(_) => 2 * round
    case DResume(_) => 2 * round - 1
    case DCut(_) => round + 5
    case DOut(_) => round + 4
    case DFree(_) => round + 3
    case DReread => round + 2
    case DLeave => round + 1
    case DIdle => round
  }

  lemma NextIs(list: seq<Peer>, k: Peer)
    requires Distinct(list) && k in list
    ensures match NextOf(list, k)
      case None => IndexOf(list, k) + 1 == |list|
      case Some(j) => j in list && IndexOf(list, j) == IndexOf(list, k) + 1
  {
    PassedNext(list, k, Ssh);
  }

  /** Alone, the data thread comes closer to a marked client with every turn, or takes
      another client out, until it takes that client out. */
  lemma ComesCloser(s: State, c: Peer)
    requires Inv(s) && c in s.mem.list && c in s.mem.marked && s.acc.AIdle? && s.rpc.RIdle? && !(s.data == DWrite(c))
    ensures var t := DataStep(s, TURN);
      t.acc.AIdle? && t.rpc.RIdle? && c in t.mem.list && c in t.mem.marked &&
      (|t.mem.list| < |s.mem.list| ||
       (|t.mem.list| == |s.mem.list| && Distance(t.mem.list, c, t.data) < Distance(s.mem.list, c, s.data)))
  {
    hide AccWell, RpcWell, LocksHeld, IndexOf, NextOf, Detached, Distance, DataStep, Distinct;
    OnlyCuts(s);
    match s.data
    case DWrite(k) => TakesAnother(s.mem, k, c);
    case _ => WalksOn(s, c);
  }

  lemma TakesAnother(h: Memory, k: Peer, c: Peer)
    requires Histories(h) && k in h.list && c in h.list && k != c
    ensures c in Cut(h, k).list && Cut(h, k).marked == h.marked && |Cut(h, k).list| < |h.list|
  {
    DetachedIsExact(h.list, k);
  }

  lemma OnlyCuts(s: State)
    ensures s.data.DWrite? ==> DataStep(s, TURN) == s.(mem := Cut(s.mem, s.data.cur), data := DCut(s.data.cur))
  {
  }

  lemma WalksOn(s: State, c: Peer)
    requires Distinct(s.mem.list) && DataWell(s.mem, s.data) && c in s.mem.list && c in s.mem.marked
    requires s.acc.AIdle? && s.rpc.RIdle? && !s.data.DWrite?
    ensures var t := DataStep(s, TURN);
      t.acc.AIdle? && t.rpc.RIdle? && c in t.mem.marked && t.mem.list == s.mem.list &&
      Distance(s.mem.list, c, t.data) < Distance(s.mem.list, c, s.data)
  {
    hide Distinct, IndexOf, NextOf, Distance, First;
    match s.data
    case DIn(k) => PassedCloser(s.mem.list, k, c);
    case DResume(k) => PassedCloser(s.mem.list, k, c);
    case _ => OtherTurns(s.mem.list, c, s.data);
  }

  /** The turns that take the thread nowhere else in the list. */
  lemma OtherTurns(list: seq<Peer>, c: Peer, d: Reaper)
    requires c in list
    ensures match d
      case DIdle => Distance(list, c, DAt(First(list))) < Distance(list, c, d)
      case DAt(None) => Distance(list, c, DIdle) < Distance(list, c, d)
      case DAt(Some(k)) => Distance(list, c, DIn(k)) < Distance(list, c, d)
      case DWait(k) => Distance(list, c, DWrite(k)) < Distance(list, c, d)
      case DBack(k) => Distance(list, c, DResume(k)) < Distance(list, c, d)
      case DCut(k) => Distance(list, c, DOut(k)) < Distance(list, c, d)
      case DOut(k) => Distance(list, c, DFree(k)) < Distance(list, c, d)
      case DFree(k) => Distance(list, c, DReread) < Distance(list, c, d)
      case DReread => Distance(list, c, DLeave) < Distance(list, c, d)
      case DLeave => Distance(list, c, DIdle) < Distance(list, c, d)
      case _ => true
  {
    hide IndexOf, First;
    FirstIs(list, c);
  }

  /** Going on behind a client is closer than being at it, unless it is c; and closer than
      being at c is behind the time-out. */
  lemma PassedCloser(list: seq<Peer>, k: Peer, c: Peer)
    requires Distinct(list) && k in list && c in list
    ensures k != c ==> Distance(list, c, DAt(NextOf(list, k))) < Distance(list, c, DIn(k))
    ensures Distance(list, c, DAt(NextOf(list, k))) < Distance(list, c, DResume(k))
    ensures Distance(list, c, DWait(k)) < Distance(list, c, DIn(k))
  {
    hide Distinct, IndexOf, NextOf;
    NextIs(list, k);
  }

  lemma FirstIs(list: seq<Peer>, c: Peer)
    requires c in list
    ensures First(list).Some? && First(list).value in list && IndexOf(list, First(list).value) == 0
  {
  }

  /** Once a client is marked, the data thread takes it out and releases it, once, if it
      keeps running and the other threads leave the list alone. */
  lemma {:induction false} MarkedIsReclaimed(max: nat, es: seq<Event>, c: Peer) returns (n: nat)
    requires var s := Run(max, es); s.acc.AIdle? && s.rpc.RIdle? && c in s.mem.list && c in s.mem.marked
    ensures var t := Run(max, es + Turns(n)); c !in t.mem.list && c in t.mem.detached && t.mem.frees[c] == 1
    decreases |Run(max, es).mem.list|, Distance(Run(max, es).mem.list, c, Run(max, es).data)
  {
    hide Run, Inv, Distance, DataStep;
    var s := Run(max, es);
    RunKeeps(max, es);
    if s.data == DWrite(c) {
      n := 4;
      CutAndReleased(max, es, c);
    } else {
      ComesCloser(s, c);
      RunThenSteps(max, es, [TURN]);
      OneTurn(max, s, [TURN]);
      NoTurns(max, DataStep(s, TURN), [TURN][1..]);
      var more := MarkedIsReclaimed(max, es + [TURN], c);
      n := more + 1;
      assert (es + [TURN]) + Turns(more) == es + Turns(n);
    }
  }

  lemma CutAndReleased(max: nat, es: seq<Event>, c: Peer)
    requires Run(max, es).data == DWrite(c)
    ensures var t := Run(max, es + Turns(4)); c !in t.mem.list && c in t.mem.detached && t.mem.frees[c] == 1
  {
    hide Run, Steps, AccWell, RpcWell, LocksHeld, Detached, Distinct, Cut, Release;
    var s := Run(max, es);
    RunKeeps(max, es);
    FromWrite(max, s, Turns(4), c);
    RunThenSteps(max, es, Turns(4));
    CutMeans(s.mem, c);
  }

  // ---- serving and killing

  /** The RPC thread serves a client it comes to exactly if it is not marked and nobody has
      its mutex, and passes it otherwise. */
  lemma MarkedIsNotServed(max: nat, s: State, e: Event, k: Peer)
    requires s.rpc == RAt(Some(k)) && e.RpcTurn?
    ensures var t := Step(max, s, e);
      t.mem == s.mem && t.acc == s.acc && t.data == s.data &&
      (t.rpc == RIn(k) <==> k !in s.mem.marked && !AccLocks(s.acc, k) && !DataLocks(s.data, k)) &&
      (t.rpc == RIn(k) || t.rpc == RAt(NextOf(s.mem.list, k)))
  {
  }

  /** A kill request marks a listed TLS client with the session asked for, and never the
      client that asks; it waits for the mutex of an SSH client to look at its sessions. A
      session that closes marks its own client. Nothing else that the RPC thread does
      changes the memory. */
  lemma KillMarksVictim(max: nat, es: seq<Event>, e: Event)
    requires e.RpcTurn?
    ensures var s := Run(max, es); var t := Step(max, s, e);
      match s.rpc
      case RKill(k, Tls, _, Some(j)) =>
        if j.kind == Tls && j != k && e.found
        then t == s.(mem := s.mem.(marked := s.mem.marked + {j}), rpc := RIn(k)) && j in s.mem.list
        else t == s.(rpc := s.rpc.(other := NextOf(s.mem.list, j)))
      case RKill(k, Ssh, last, Some(j)) =>
        if j.kind == Tls || j == k then t == s.(rpc := s.rpc.(other := NextOf(s.mem.list, j)))
        else if AccLocks(s.acc, j) || DataLocks(s.data, j) then t == s
        else t == s.(rpc := RKillIn(k, Ssh, last, j))
      case RIn(k) =>
        if !e.kill && e.found && k.kind == Tls
        then t == s.(mem := s.mem.(marked := s.mem.marked + {k}), rpc := RAt(NextOf(s.mem.list, k)))
        else t.mem == s.mem
      case _ => t.mem == s.mem
  {
    hide Run, Histories, NextOf, AccWell, DataWell;
    RunKeeps(max, es);
  }

  /** The data thread looks at a client it comes to exactly if nobody has its mutex, and
      passes it otherwise; a session that ends marks its client if that is listed. */
  lemma BusyIsPassed(max: nat, s: State, e: Event, k: Peer)
    requires s.data == DAt(Some(k)) && e.DataTurn?
    ensures Step(max, s, e) ==
      s.(data := if AccLocks(s.acc, k) || RpcLocks(s.rpc, k) then DAt(NextOf(s.mem.list, k)) else DIn(k))
    ensures forall c ::
      Step(max, s, SessionTurn(c)) ==
        if c in s.mem.list then s.(mem := s.mem.(marked := s.mem.marked + {c})) else s
  {
  }

  /** A turn of the RPC thread in which no session is found, with or without a request to
      kill one. */
  function Asking(kill: bool): Event {
    RpcTurn(kill, false)
  }

  function Askings(n: nat, kill: bool): seq<Event> {
    seq(n, i => Asking(kill))
  }

  lemma OneAsk(max: nat, s: State, n: nat, kill: bool)
    ensures Steps(max, s, Askings(n + 1, kill)) == Steps(max, RpcStep(s, Asking(kill)), Askings(n, kill))
  {
    assert Askings(n + 1, kill)[1..] == Askings(n, kill);
  }

  lemma NoAsk(max: nat, s: State, kill: bool)
    ensures Steps(max, s, Askings(0, kill)) == s
  {
  }

  /** Nobody but the RPC thread is at the list or has a mutex. */
  predicate RpcAlone(s: State) {
    s.acc == AIdle && s.data == DIdle && Distinct(s.mem.list)
  }

  function Walk(list: seq<Peer>, i: nat): Option<Peer> {
    if i < |list| then Some(list[i]) else None
  }

  lemma WalkOn(list: seq<Peer>, i: nat)
    requires Distinct(list) && i < |list|
    ensures NextOf(list, list[i]) == Walk(list, i + 1)
  {
    NextIs(list, list[i]);
    assert IndexOf(list, list[i]) == i;
  }

  /** The search for a victim goes over the whole list. */
  lemma {:induction false} KillWalks(max: nat, s: State, k: Peer, want: Kind, last: bool, i: nat, j: nat)
      returns (n: nat)
    requires RpcAlone(s) && i <= j <= |s.mem.list| && s.rpc == RKill(k, want, last, Walk(s.mem.list, i))
    ensures Steps(max, s, Askings(n, true)) == s.(rpc := RKill(k, want, last, Walk(s.mem.list, j)))
    decreases j - i
  {
    hide Steps, NextOf, Distinct;
    var list := s.mem.list;
    if i == j {
      n := 0;
      NoAsk(max, s, true);
    } else {
      WalkOn(list, i);
      var v := list[i];
      var t := s.(rpc := RKill(k, want, last, Walk(list, i + 1)));
      var more := KillWalks(max, t, k, want, last, i + 1, j);
      if v.kind == want && v != k && v.kind == Ssh {
        n := more + 2;
        OneAsk(max, s, more + 1, true);
        OneAsk(max, s.(rpc := RKillIn(k, want, last, v)), more, true);
      } else {
        n := more + 1;
        OneAsk(max, s, more, true);
      }
    }
  }

  lemma {:induction false} StepsAdd(max: nat, s: State, ts: seq<Event>, us: seq<Event>)
    ensures Steps(max, s, ts + us) == Steps(max, Steps(max, s, ts), us)
    decreases |ts|
  {
    hide Step;
    if ts == [] {
      assert ts + us == us;
    } else {
      assert (ts + us)[1..] == ts[1..] + us;
      StepsAdd(max, Step(max, s, ts[0]), ts[1..], us);
    }
  }

  lemma AskingsAdd(max: nat, s: State, a: nat, b: nat, kill: bool)
    ensures Steps(max, s, Askings(a + b, kill)) == Steps(max, Steps(max, s, Askings(a, kill)), Askings(b, kill))
  {
    StepsAdd(max, s, Askings(a, kill), Askings(b, kill));
    assert Askings(a, kill) + Askings(b, kill) == Askings(a + b, kill);
  }

  /** A request to kill a session comes to every other client, of either transport: there
      it marks a TLS client whose session is the one asked for (`KillMarksVictim`). */
  lemma KillReaches(max: nat, es: seq<Event>, k: Peer, j: nat) returns (n: nat)
    requires var s := Run(max, es); RpcAlone(s) && s.rpc == RIn(k) && j < |s.mem.list| && s.mem.list[j] != k
    ensures var s, t := Run(max, es), Run(max, es + Askings(n, true));
      t == s.(rpc := t.rpc) && t.rpc.RKill? && t.rpc.cur == k &&
      t.rpc.want == s.mem.list[j].kind && t.rpc.other == Some(s.mem.list[j])
  {
    hide Run, Steps, Distinct, Askings, Walk;
    var s := Run(max, es);
    var list, v := s.mem.list, s.mem.list[j];
    FirstOfWalk(list, j);
    var s1 := s.(rpc := RKill(k, Other(k.kind), false, Walk(list, 0)));
    var there := s.(rpc := RKill(k, v.kind, v.kind == k.kind, Walk(list, j)));
    if v.kind != k.kind {
      var a := KillWalks(max, s1, k, v.kind, false, 0, j);
      n := a + 1;
      OneAsk(max, s, a, true);
    } else {
      var a := KillWalks(max, s1, k, Other(k.kind), false, 0, |list|);
      var s2 := s.(rpc := RKill(k, Other(k.kind), false, None));
      var s3 := s.(rpc := RKill(k, k.kind, true, Walk(list, 0)));
      var b := KillWalks(max, s3, k, k.kind, true, 0, j);
      n := a + (b + 1) + 1;
      OneAsk(max, s, a + (b + 1), true);
      AskingsAdd(max, s1, a, b + 1, true);
      OneAsk(max, s2, b, true);
    }
    RunThenSteps(max, es, Askings(n, true));
  }

  lemma FirstOfWalk(list: seq<Peer>, j: nat)
    requires j < |list|
    ensures First(list) == Walk(list, 0) && Walk(list, |list|) == None && Walk(list, j) == Some(list[j])
  {
  }

  lemma {:induction false} ServeWalks(max: nat, s: State, i: nat, j: nat) returns (n: nat)
    requires RpcAlone(s) && i <= j <= |s.mem.list| && s.rpc == RAt(Walk(s.mem.list, i))
    ensures Steps(max, s, Askings(n, false)) == s.(rpc := RAt(Walk(s.mem.list, j)))
    decreases j - i
  {
    hide Steps, NextOf, Distinct;
    var list := s.mem.list;
    if i == j {
      n := 0;
      NoAsk(max, s, false);
    } else {
      WalkOn(list, i);
      var t := s.(rpc := RAt(Walk(list, i + 1)));
      var more := ServeWalks(max, t, i + 1, j);
      if list[i] in s.mem.marked {
        n := more + 1;
        OneAsk(max, s, more, false);
      } else {
        n := more + 2;
        OneAsk(max, s, more + 1, false);
        OneAsk(max, s.(rpc := RIn(list[i])), more, false);
      }
    }
  }

  /** Every listed client that is not marked is served when the RPC thread goes over the
      list with nobody else about. */
  lemma EveryClientIsServed(max: nat, es: seq<Event>, j: nat) returns (n: nat)
    requires var s := Run(max, es);
      RpcAlone(s) && s.rpc == RIdle && j < |s.mem.list| && s.mem.list[j] !in s.mem.marked
    ensures var s := Run(max, es); Run(max, es + Askings(n, false)) == s.(rpc := RIn(s.mem.list[j]))
  {
    hide Run, Steps, Distinct, Askings, Walk;
    var s := Run(max, es);
    var list := s.mem.list;
    FirstOfWalk(list, j);
    var s1, s2 := s.(rpc := RAt(Walk(list, 0))), s.(rpc := RAt(Walk(list, j)));
    var a := ServeWalks(max, s1, 0, j);
    n := a + 1 + 1;
    OneAsk(max, s, a + 1, false);
    AskingsAdd(max, s1, a, 1, false);
    OneAsk(max, s2, 0, false);
    NoAsk(max, s.(rpc := RIn(list[j])), false);
    RunThenSteps(max, es, Askings(n, false));
  }

  // ---- accepting

  /** A turn of the accept thread, with so many channels at the client it looks at. */
  function Counting(channels: nat): Event {
    AcceptorTurn(Tls, true, channels)
  }

  function Countings(n: nat, channels: nat): seq<Event> {
    seq(n, i => Counting(channels))
  }

  /** An SSH client counts once for each of its channels, and at least once. */
  function Share(channels: nat): nat {
    if channels == 0 then 1 else channels
  }

  predicate Alone(s: State) {
    s.rpc == RIdle && s.data == DIdle && Distinct(s.mem.list)
  }

  lemma OneCount(max: nat, s: State, n: nat, channels: nat)
    ensures Steps(max, s, Countings(n + 1, channels)) ==
      Steps(max, AcceptorStep(max, s, Counting(channels)), Countings(n, channels))
  {
    assert Countings(n + 1, channels)[1..] == Countings(n, channels);
  }

  lemma CountFrom(list: seq<Peer>, i: nat, k: Kind)
    requires i < |list|
    ensures CountKind(list[i..], k) == (if list[i].kind == k then 1 else 0) + CountKind(list[i + 1..], k)
  {
    assert list[i..] == [list[i]] + list[i + 1..];
    CountConcat([list[i]], list[i + 1..], k);
    assert [list[i]][..0] == [];
  }

  lemma {:induction false} SshCounted(max: nat, s: State, c: Peer, i: nat, m: nat, channels: nat) returns (n: nat)
    requires Alone(s) && i <= |s.mem.list| && s.acc == ASsh(c, Walk(s.mem.list, i), m)
    ensures Steps(max, s, Countings(n, channels)) ==
      s.(acc := AMid(c, m + Share(channels) * CountKind(s.mem.list[i..], Ssh)))
    decreases |s.mem.list| - i
  {
    hide Steps, CountKind, NextOf, Distinct;
    var list := s.mem.list;
    if i == |list| {
      n := 1;
      OneCount(max, s, 0, channels);
      NoTurns(max, AcceptorStep(max, s, Counting(channels)), Countings(0, channels));
      assert list[i..] == [] && CountKind([], Ssh) == 0 by {
        NoneCounted();
      }
    } else {
      var k := list[i];
      WalkOn(list, i);
      CountFrom(list, i, Ssh);
      if k.kind == Tls {
        var t := s.(acc := ASsh(c, Walk(list, i + 1), m));
        var more := SshCounted(max, t, c, i + 1, m, channels);
        n := more + 1;
        OneCount(max, s, more, channels);
      } else {
        var t := s.(acc := ASshIn(c, k, m));
        var u := s.(acc := ASsh(c, Walk(list, i + 1), m + Share(channels)));
        var more := SshCounted(max, u, c, i + 1, m + Share(channels), channels);
        n := more + 2;
        OneCount(max, s, more + 1, channels);
        OneCount(max, t, more, channels);
        OneMoreShare(Share(channels), CountKind(list[i + 1..], Ssh));
      }
    }
  }

  lemma NoneCounted()
    ensures CountKind([], Ssh) == CountKind([], Tls) == 0
  {
  }

  lemma OneMoreShare(a: nat, b: nat)
    ensures a * (1 + b) == a + a * b
  {
  }

  lemma {:induction false} TlsCounted(max: nat, s: State, c: Peer, i: nat, m: nat, channels: nat) returns (n: nat)
    requires Alone(s) && i <= |s.mem.list| && s.acc == ATls(c, Walk(s.mem.list, i), m)
    ensures Steps(max, s, Countings(n, channels)) == s.(acc := ADecide(c, m + CountKind(s.mem.list[i..], Tls)))
    decreases |s.mem.list| - i
  {
    hide Steps, CountKind, NextOf, Distinct;
    var list := s.mem.list;
    if i == |list| {
      n := 1;
      OneCount(max, s, 0, channels);
      NoTurns(max, AcceptorStep(max, s, Counting(channels)), Countings(0, channels));
      assert list[i..] == [] && CountKind([], Tls) == 0 by {
        NoneCounted();
      }
    } else {
      WalkOn(list, i);
      CountFrom(list, i, Tls);
      var m2 := if list[i].kind == Tls then m + 1 else m;
      var t := s.(acc := ATls(c, Walk(list, i + 1), m2));
      var more := TlsCounted(max, t, c, i + 1, m2, channels);
      n := more + 1;
      OneCount(max, s, more, channels);
    }
  }

  lemma CountingsAdd(max: nat, s: State, a: nat, b: nat, channels: nat)
    ensures Steps(max, s, Countings(a + b, channels)) ==
      Steps(max, Steps(max, s, Countings(a, channels)), Countings(b, channels))
  {
    StepsAdd(max, s, Countings(a, channels), Countings(b, channels));
    assert Countings(a, channels) + Countings(b, channels) == Countings(a + b, channels);
  }

  /** The turns between the walks. */
  lemma BetweenWalks(max: nat, s: State, e: Event, c: Peer, m: nat)
    requires s.rpc == RIdle && s.data == DIdle && e.AcceptorTurn?
    ensures s.acc == ACheck(c) ==> AcceptorStep(max, s, e) == s.(acc := ASsh(c, Walk(s.mem.list, 0), 0))
    ensures s.acc == AMid(c, m) ==> AcceptorStep(max, s, e) == s.(acc := ATls(c, Walk(s.mem.list, 0), m))
  {
  }

  lemma DecideTurn(max: nat, s: State, e: Event, c: Peer, m: nat)
    requires s.acc == ADecide(c, m) && e.AcceptorTurn?
    ensures var t := AcceptorStep(max, s, e);
      t.mem.list == s.mem.list && (m >= max ==> t.acc == AIdle && t.mem.frees[c] > 0) &&
      (m < max ==> t == s.(acc := AMake(c)))
  {
  }

  lemma CountedToDecide(max: nat, s: State, c: Peer, channels: nat) returns (n: nat)
    requires Alone(s) && s.acc == ACheck(c)
    ensures Steps(max, s, Countings(n, channels)) ==
      s.(acc := ADecide(c, Share(channels) * CountKind(s.mem.list, Ssh) + CountKind(s.mem.list, Tls)))
  {
    hide Steps, CountKind, Distinct, AcceptorStep, Countings, Walk;
    var list := s.mem.list;
    assert list[0..] == list;
    var m := Share(channels) * CountKind(list, Ssh);
    var s1 := s.(acc := ASsh(c, Walk(list, 0), 0));
    var a := SshCounted(max, s1, c, 0, 0, channels);
    var s2 := s.(acc := AMid(c, m));
    var s3 := s.(acc := ATls(c, Walk(list, 0), m));
    var b := TlsCounted(max, s3, c, 0, m, channels);
    BetweenWalks(max, s, Counting(channels), c, 0);
    BetweenWalks(max, s2, Counting(channels), c, m);
    n := a + (b + 1) + 1;
    OneCount(max, s, a + (b + 1), channels);
    CountingsAdd(max, s1, a, b + 1, channels);
    OneCount(max, s2, b, channels);
  }

  /** With nobody else about, a new connection is dropped exactly if the TLS clients and
      the channels of the SSH clients together have reached the limit, and otherwise set
      up. */
  lemma ConnectionCounted(max: nat, es: seq<Event>, c: Peer, channels: nat) returns (n: nat)
    requires var s := Run(max, es); s.acc == ACheck(c) && s.rpc == RIdle && s.data == DIdle
    ensures var s := Run(max, es); var t := Run(max, es + Countings(n, channels));
      var full := Share(channels) * CountKind(s.mem.list, Ssh) + CountKind(s.mem.list, Tls) >= max;
      t.mem.list == s.mem.list &&
      (full ==> t.acc == AIdle && t.mem.frees[c] > 0) && (!full ==> t == s.(acc := AMake(c)))
  {
    hide Run, Steps, CountKind, Distinct, AcceptorStep, Countings, AccWell, RpcWell, DataWell, LocksHeld;
    var s := Run(max, es);
    RunKeeps(max, es);
    var a := CountedToDecide(max, s, c, channels);
    var m := Share(channels) * CountKind(s.mem.list, Ssh) + CountKind(s.mem.list, Tls);
    var t := s.(acc := ADecide(c, m));
    n := a + 1;
    CountingsAdd(max, s, a, 1, channels);
    OneCount(max, t, 0, channels);
    NoTurns(max, AcceptorStep(max, t, Counting(channels)), Countings(0, channels)) by {
      NoCountings(channels);
    }
    DecideTurn(max, t, Counting(channels), c, m);
    RunThenSteps(max, es, Countings(n, channels));
  }

  lemma NoCountings(channels: nat)
    ensures Countings(0, channels) == []
  {
  }

  /** A client that is set up goes behind all others once nobody else has the lock. */
  lemma SetUpIsListed(max: nat, es: seq<Event>, c: Peer)
    requires var s := Run(max, es); s.acc == AMake(c) && s.rpc == RIdle && !DataReads(s.data) && !DataWrites(s.data)
    ensures var s, t := Run(max, es), Run(max, es + Countings(4, 0));
      t.mem.list == s.mem.list + [c] && t.acc == AIdle && t.mem.frees == s.mem.frees && c !in s.mem.list
  {
    var s := Run(max, es);
    RunKeeps(max, es);
    var s1 := s.(acc := AWait(c));
    var s2 := s.(acc := AWrite(c));
    var s3 := s.(mem := Append(s.mem, c), acc := ADone);
    hide Run, Steps;
    RunThenSteps(max, es, Countings(4, 0));
    OneCount(max, s, 3, 0);
    OneCount(max, s1, 2, 0);
    OneCount(max, s2, 1, 0);
    OneCount(max, s3, 0, 0);
    NoTurns(max, s3.(acc := AIdle), Countings(0, 0));
  }

  /** A client whose setup fails never gets into the list; an SSH client is released once,
      a TLS client twice. */
  lemma FailedSetup(max: nat, es: seq<Event>, e: Event, c: Peer)
    requires Run(max, es).acc == AMake(c) && e.AcceptorTurn? && !e.ok
    ensures var t := Step(max, Run(max, es), e);
      t.acc == AIdle && c !in t.mem.list && t.mem.frees[c] == if c.kind == Ssh then 1 else 2
  {
    hide Run, Distinct, LocksHeld;
    RunKeeps(max, es);
  }
}
