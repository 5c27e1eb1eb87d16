/** The accept, RPC and data threads sharing the client list under a read-write lock and
    the mutexes of SSH clients, as atomic steps in any interleaving. */
module Reclamation {
  import opened Xml
  import opened Sequences

  datatype Kind = Ssh | Tls

  /** A client structure. Each accepted connection gets a new one. */
  datatype Peer = Peer(id: nat, kind: Kind)

  /** Where the accept thread is: counting sessions against the limit, setting the new
      client up, and appending it. */
  datatype Acceptor =
    | AIdle
    | ACheck(c: Peer)
    | ASsh(c: Peer, at: Option<Peer>, n: nat)
    | ASshIn(c: Peer, cur: Peer, n: nat)
    | AMid(c: Peer, n: nat)
    | ATls(c: Peer, at: Option<Peer>, n: nat)
    | ADecide(c: Peer, n: nat)
    | AMake(c: Peer)
    | AWait(c: Peer)
    | AWrite(c: Peer)
    | ADone

  /** Where the RPC thread is: walking the list, serving a client, and looking for a
      session to kill, first among clients of the other transport. */
  datatype Server =
    | RIdle
    | RAt(at: Option<Peer>)
    | RIn(cur: Peer)
    | RKill(cur: Peer, want: Kind, last: bool, other: Option<Peer>)
    | RKillIn(cur: Peer, want: Kind, last: bool, victim: Peer)

  /** Where the data thread is. To remove a client it gives the read lock up and waits for
      the write lock; if that times out it goes on from the client it was at. */
  datatype Reaper =
    | DIdle
    | DAt(at: Option<Peer>)
    | DIn(cur: Peer)
    | DWait(cur: Peer)
    | DBack(cur: Peer)
    | DResume(cur: Peer)
    | DWrite(cur: Peer)
    | DCut(cur: Peer)
    | DOut(cur: Peer)
    | DFree(cur: Peer)
    | DReread
    | DLeave

  /** The shared list and the marks for removal. What has happened to a client is
      remembered: appended, detached, refused, and how often it was released. */
  datatype Memory = Memory(
    list: seq<Peer>, marked: set<Peer>,
    shared: set<Peer>, detached: set<Peer>, refused: set<Peer>, frees: multiset<Peer>,
    next: nat)

  datatype State = State(mem: Memory, acc: Acceptor, rpc: Server, data: Reaper)

  /** One turn of a thread, with what the outside world decides. A session thread may
      mark any listed client. */
  datatype Event =
    | AcceptorTurn(kind: Kind, ok: bool, channels: nat)
    | RpcTurn(kill: bool, found: bool)
    | DataTurn(mark: bool, quit: bool, timeout: bool)
    | SessionTurn(c: Peer)

  const START := State(Memory([], {}, {}, {}, {}, multiset{}, 0), AIdle, RIdle, DIdle)

  function First(list: seq<Peer>): Option<Peer> {
    if list == [] then None else Some(list[0])
  }

  function NextOf(list: seq<Peer>, c: Peer): (r: Option<Peer>)
    ensures r.Some? ==> r.value in list
  {
    var i := IndexOf(list, c);
    if i + 1 < |list| then Some(list[i + 1]) else None
  }

  // ---- locks: held from the step that takes them to the step that gives them up

  predicate AccReads(a: Acceptor) { a.ASsh? || a.ASshIn? || a.ATls? }
  predicate AccWrites(a: Acceptor) { a.AWrite? || a.ADone? }
  predicate RpcReads(r: Server) { !r.RIdle? }
  predicate DataReads(d: Reaper) { d.DAt? || d.DIn? || d.DResume? || d.DLeave? }
  predicate DataWrites(d: Reaper) { d.DWrite? || d.DCut? }

  predicate AccLocks(a: Acceptor, c: Peer) { a.ASshIn? && a.cur == c }
  predicate RpcLocks(r: Server, c: Peer) {
    c.kind.Ssh? && ((!r.RIdle? && !r.RAt? && r.cur == c) || (r.RKillIn? && r.victim == c))
  }
  predicate DataLocks(d: Reaper, c: Peer) {
    c.kind.Ssh? && (d.DIn? || d.DWait? || d.DBack? || d.DResume? || d.DWrite? || d.DCut? || d.DOut?) && d.cur == c
  }

  predicate CanRead(s: State) {
    !AccWrites(s.acc) && !DataWrites(s.data)
  }

  // ---- what a step does to memory

  function Fresh(h: Memory): Memory { h.(next := h.next + 1) }
  function Mark(h: Memory, c: Peer): Memory { h.(marked := h.marked + {c}) }
  function Append(h: Memory, c: Peer): Memory { h.(list := h.list + [c], shared := h.shared + {c}) }
  function Cut(h: Memory, c: Peer): Memory { h.(list := Detached(h.list, c), detached := h.detached + {c}) }
  function Release(h: Memory, c: Peer): Memory { h.(frees := h.frees + multiset{c}) }

  /** Dropping a client that the accept thread could not use releases it twice. */
  function Refuse(h: Memory, c: Peer): Memory {
    h.(refused := h.refused + {c}, frees := h.frees + multiset{c, c})
  }

  // ---- steps; a thread that must wait stays where it is

  function AcceptorStep(max: nat, s: State, e: Event): State
    requires e.AcceptorTurn?
  {
    match s.acc
    case AIdle =>
      var c := Peer(s.mem.next, e.kind);
      s.(mem := Fresh(s.mem), acc := if max > 0 then ACheck(c) else AMake(c))
    case ACheck(c) => if CanRead(s) then s.(acc := ASsh(c, First(s.mem.list), 0)) else s
    case ASsh(c, None, n) => s.(acc := AMid(c, n))
    case ASsh(c, Some(k), n) =>
      if k.kind.Tls? then s.(acc := ASsh(c, NextOf(s.mem.list, k), n))
      else if RpcLocks(s.rpc, k) || DataLocks(s.data, k) then s
      else s.(acc := ASshIn(c, k, n))
    case ASshIn(c, k, n) =>
      s.(acc := ASsh(c, NextOf(s.mem.list, k), n + if e.channels == 0 then 1 else e.channels))
    case AMid(c, n) => if CanRead(s) then s.(acc := ATls(c, First(s.mem.list), n)) else s
    case ATls(c, None, n) => s.(acc := ADecide(c, n))
    case ATls(c, Some(k), n) =>
      s.(acc := ATls(c, NextOf(s.mem.list, k), if k.kind.Tls? then n + 1 else n))
    case ADecide(c, n) =>
      if n >= max then s.(mem := Refuse(Mark(s.mem, c), c), acc := AIdle) else s.(acc := AMake(c))
    case AMake(c) =>
      if e.ok then s.(acc := AWait(c))
      else if c.kind.Ssh? then s.(mem := Release(Mark(s.mem, c), c), acc := AIdle)
      else s.(mem := Refuse(s.mem, c), acc := AIdle)
    case AWait(c) =>
      if RpcReads(s.rpc) || DataReads(s.data) || DataWrites(s.data) then s else s.(acc := AWrite(c))
    case AWrite(c) => s.(mem := Append(s.mem, c), acc := ADone)
    case ADone => s.(acc := AIdle)
  }

  function Other(k: Kind): Kind {
    if k.Ssh? then Tls else Ssh
  }

  function RpcStep(s: State, e: Event): State
    requires e.RpcTurn?
  {
    match s.rpc
    case RIdle => if CanRead(s) then s.(rpc := RAt(First(s.mem.list))) else s
    case RAt(None) => s.(rpc := RIdle)
    case RAt(Some(k)) =>
      if k in s.mem.marked || AccLocks(s.acc, k) || DataLocks(s.data, k) then s.(rpc := RAt(NextOf(s.mem.list, k)))
      else s.(rpc := RIn(k))
    case RIn(k) =>
      if e.kill then s.(rpc := RKill(k, Other(k.kind), false, First(s.mem.list)))
      else if e.found && k.kind.Tls? then s.(mem := Mark(s.mem, k), rpc := RAt(NextOf(s.mem.list, k)))
      else s.(rpc := RAt(NextOf(s.mem.list, k)))
    case RKill(k, want, last, None) =>
      s.(rpc := if last then RIn(k) else RKill(k, Other(want), true, First(s.mem.list)))
    case RKill(k, want, last, Some(j)) =>
      if j.kind != want || j == k then s.(rpc := RKill(k, want, last, NextOf(s.mem.list, j)))
      else if j.kind.Ssh? then
        if AccLocks(s.acc, j) || DataLocks(s.data, j) then s else s.(rpc := RKillIn(k, want, last, j))
      else if e.found then s.(mem := Mark(s.mem, j), rpc := RIn(k))
      else s.(rpc := RKill(k, want, last, NextOf(s.mem.list, j)))
    case RKillIn(k, want, last, j) =>
      s.(rpc := if e.found then RIn(k) else RKill(k, want, last, NextOf(s.mem.list, j)))
  }

  function DataStep(s: State, e: Event): State
    requires e.DataTurn?
  {
    match s.data
    case DIdle => if CanRead(s) then s.(data := DAt(First(s.mem.list))) else s
    case DAt(None) => s.(data := DIdle)
    case DAt(Some(k)) =>
      if AccLocks(s.acc, k) || RpcLocks(s.rpc, k) then s.(data := DAt(NextOf(s.mem.list, k))) else s.(data := DIn(k))
    case DIn(k) =>
      if k in s.mem.marked || (k.kind.Tls? && e.quit) then s.(mem := Mark(s.mem, k), data := DWait(k))
      else if e.mark then s.(mem := Mark(s.mem, k), data := DAt(NextOf(s.mem.list, k)))
      else s.(data := DAt(NextOf(s.mem.list, k)))
    case DWait(k) =>
      if e.timeout then s.(data := DBack(k))
      else if AccReads(s.acc) || AccWrites(s.acc) || RpcReads(s.rpc) then s
      else s.(data := DWrite(k))
    case DBack(k) => if CanRead(s) then s.(data := DResume(k)) else s
    case DResume(k) => s.(data := DAt(NextOf(s.mem.list, k)))
    case DWrite(k) => s.(mem := Cut(s.mem, k), data := DCut(k))
    case DCut(k) => s.(data := DOut(k))
    case DOut(k) => s.(data := DFree(k))
    case DFree(k) => s.(mem := Release(s.mem, k), data := DReread)
    case DReread => if CanRead(s) then s.(data := DLeave) else s
    case DLeave => s.(data := DIdle)
  }

  function Step(max: nat, s: State, e: Event): State {
    match e
    case AcceptorTurn(_, _, _) => AcceptorStep(max, s, e)
    case RpcTurn(_, _) => RpcStep(s, e)
    case DataTurn(_, _, _) => DataStep(s, e)
    case SessionTurn(c) => if c in s.mem.list then s.(mem := Mark(s.mem, c)) else s
  }

  /** The state after a schedule, for a session limit (0 for none). */
  function Run(max: nat, es: seq<Event>): State {
    if es == [] then START else Step(max, Run(max, es[..|es| - 1]), es[|es| - 1])
  }

  // ---- invariants

  /** The list holds each client once, and only clients that were appended and not taken
      out. A client that was appended is released only after it was marked and taken out.
      No client is released more than twice, and twice exactly if it was refused. */
  ghost predicate Histories(h: Memory) {
    Distinct(h.list) &&
    (forall c :: c in h.list <==> c in h.shared && c !in h.detached) &&
    (forall c :: c in h.shared ==> c.id < h.next && c !in h.refused) &&
    (forall c :: c in h.refused ==> c.id < h.next) &&
    (forall c :: c in h.detached ==> c in h.shared && c in h.marked) &&
    (forall c :: h.frees[c] > 0 ==> c.id < h.next && (c in h.shared ==> c in h.detached)) &&
    (forall c :: h.frees[c] <= 2 && (h.frees[c] == 2 <==> c in h.refused))
  }

  predicate Listed(h: Memory, at: Option<Peer>) {
    at.Some? ==> at.value in h.list
  }

  /** A client being set up is known to the accept thread alone. */
  predicate Pending(h: Memory, c: Peer) {
    c.id < h.next && c !in h.shared && c !in h.refused && h.frees[c] == 0
  }

  predicate AccWell(h: Memory, a: Acceptor) {
    match a
    case ASsh(c, at, _) => Pending(h, c) && Listed(h, at)
    case ASshIn(c, k, _) => Pending(h, c) && k in h.list && k.kind.Ssh?
    case ATls(c, at, _) => Pending(h, c) && Listed(h, at)
    case AIdle => true
    case ADone => true
    case _ => Pending(h, a.c)
  }

  predicate RpcWell(h: Memory, r: Server) {
    match r
    case RIdle => true
    case RAt(at) => Listed(h, at)
    case RIn(k) => k in h.list
    case RKill(k, _, _, other) => k in h.list && Listed(h, other)
    case RKillIn(k, want, _, j) => k in h.list && j in h.list && want == j.kind && j != k
  }

  predicate DataWell(h: Memory, d: Reaper) {
    match d
    case DIdle => true
    case DReread => true
    case DLeave => true
    case DAt(at) => Listed(h, at)
    case DIn(k) => k in h.list
    case DCut(k) => Gone(h, k)
    case DOut(k) => Gone(h, k)
    case DFree(k) => Gone(h, k)
    case _ => d.cur in h.list && d.cur in h.marked
  }

  predicate Gone(h: Memory, k: Peer) {
    k in h.detached && h.frees[k] == 0
  }

  ghost predicate LocksHeld(s: State) {
    (AccWrites(s.acc) ==> !RpcReads(s.rpc) && !DataReads(s.data) && !DataWrites(s.data)) &&
    (DataWrites(s.data) ==> !AccReads(s.acc) && !RpcReads(s.rpc)) &&
    forall c :: !(AccLocks(s.acc, c) && RpcLocks(s.rpc, c)) && !(AccLocks(s.acc, c) && DataLocks(s.data, c)) &&
      !(RpcLocks(s.rpc, c) && DataLocks(s.data, c))
  }

  ghost predicate Inv(s: State) {
    Histories(s.mem) && AccWell(s.mem, s.acc) && RpcWell(s.mem, s.rpc) && DataWell(s.mem, s.data) && LocksHeld(s)
  }

  lemma FreshKeeps(h: Memory, kind: Kind, r: Server, d: Reaper)
    requires Histories(h) && RpcWell(h, r) && DataWell(h, d)
    ensures Histories(Fresh(h)) && RpcWell(Fresh(h), r) && DataWell(Fresh(h), d)
    ensures Pending(Fresh(h), Peer(h.next, kind))
  {
  }

  lemma MarkKeeps(h: Memory, c: Peer, a: Acceptor, r: Server, d: Reaper)
    requires Histories(h)
    ensures Histories(Mark(h, c))
    ensures AccWell(h, a) ==> AccWell(Mark(h, c), a)
    ensures RpcWell(h, r) ==> RpcWell(Mark(h, c), r)
    ensures DataWell(h, d) ==> DataWell(Mark(h, c), d)
    ensures forall e :: Pending(h, e) ==> Pending(Mark(h, c), e)
  {
    hide Distinct;
  }

  lemma RefuseKeeps(h: Memory, c: Peer, r: Server, d: Reaper)
    requires Histories(h) && Pending(h, c) && RpcWell(h, r) && DataWell(h, d)
    ensures Histories(Refuse(h, c)) && RpcWell(Refuse(h, c), r) && DataWell(Refuse(h, c), d)
  {
    hide Distinct;
  }

  lemma DiscardKeeps(h: Memory, c: Peer, r: Server, d: Reaper)
    requires Histories(h) && Pending(h, c) && RpcWell(h, r) && DataWell(h, d)
    ensures Histories(Release(h, c)) && RpcWell(Release(h, c), r) && DataWell(Release(h, c), d)
  {
    hide Distinct;
  }

  lemma AppendKeeps(h: Memory, c: Peer, r: Server, d: Reaper)
    requires Histories(h) && Pending(h, c) && RpcWell(h, r) && DataWell(h, d)
    ensures Histories(Append(h, c)) && RpcWell(Append(h, c), r) && DataWell(Append(h, c), d)
  {
    assert forall x :: x in h.list + [c] <==> x in h.list || x == c;
  }

  /** Taking a client out is safe because the write lock keeps all other cursors off the
      list. */
  lemma CutKeeps(h: Memory, k: Peer, a: Acceptor)
    requires Histories(h) && k in h.list && k in h.marked
    requires AccWell(h, a) && !AccReads(a)
    ensures Histories(Cut(h, k)) && AccWell(Cut(h, k), a) && Gone(Cut(h, k), k)
  {
    hide Distinct, Detached;
    DetachedIsExact(h.list, k);
  }

  lemma ReleaseKeeps(h: Memory, k: Peer, a: Acceptor, r: Server)
    requires Histories(h) && Gone(h, k) && AccWell(h, a) && RpcWell(h, r)
    ensures Histories(Release(h, k)) && AccWell(Release(h, k), a) && RpcWell(Release(h, k), r)
  {
    hide Distinct;
  }

  lemma AcceptorKeeps(max: nat, s: State, e: Event)
    requires Inv(s) && e.AcceptorTurn?
    ensures var t := AcceptorStep(max, s, e);
      Histories(t.mem) && AccWell(t.mem, t.acc) && RpcWell(t.mem, t.rpc) && DataWell(t.mem, t.data)
  {
    hide Histories, RpcWell, DataWell, LocksHeld, Fresh, Mark, Refuse, Release, Append, NextOf, IndexOf, Pending;
    var h, r, d := s.mem, s.rpc, s.data;
    match s.acc
    case AIdle => FreshKeeps(h, e.kind, r, d);
    case ADecide(c, _) =>
      MarkKeeps(h, c, s.acc, r, d);
      RefuseKeeps(Mark(h, c), c, r, d);
    case AMake(c) =>
      MarkKeeps(h, c, s.acc, r, d);
      DiscardKeeps(Mark(h, c), c, r, d);
      RefuseKeeps(h, c, r, d);
    case AWrite(c) => AppendKeeps(h, c, r, d);
    case _ =>
  }

  lemma AcceptorLocks(max: nat, s: State, e: Event)
    requires LocksHeld(s) && e.AcceptorTurn?
    ensures LocksHeld(AcceptorStep(max, s, e))
  {
    hide NextOf, IndexOf;
  }

  lemma RpcKeeps(s: State, e: Event)
    requires Inv(s) && e.RpcTurn?
    ensures var t := RpcStep(s, e);
      Histories(t.mem) && AccWell(t.mem, t.acc) && RpcWell(t.mem, t.rpc) && DataWell(t.mem, t.data)
  {
    hide Histories, AccWell, DataWell, LocksHeld, NextOf, IndexOf;
    match s.rpc
    case RIn(k) => MarkKeeps(s.mem, k, s.acc, s.rpc, s.data);
    case RKill(_, _, _, Some(j)) => MarkKeeps(s.mem, j, s.acc, s.rpc, s.data);
    case _ =>
  }

  lemma RpcLocksKept(s: State, e: Event)
    requires LocksHeld(s) && e.RpcTurn?
    ensures LocksHeld(RpcStep(s, e))
  {
    hide NextOf, IndexOf;
  }

  lemma DataKeeps(s: State, e: Event)
    requires Inv(s) && e.DataTurn?
    ensures var t := DataStep(s, e);
      Histories(t.mem) && AccWell(t.mem, t.acc) && RpcWell(t.mem, t.rpc) && DataWell(t.mem, t.data)
  {
    hide Histories, AccWell, NextOf, IndexOf, Cut, Release;
    match s.data
    case DIn(k) => MarkKeeps(s.mem, k, s.acc, s.rpc, s.data);
    case DWrite(k) => CutKeeps(s.mem, k, s.acc);
    case DFree(k) => ReleaseKeeps(s.mem, k, s.acc, s.rpc);
    case _ =>
  }

  lemma DataLocksKept(s: State, e: Event)
    requires LocksHeld(s) && e.DataTurn?
    ensures LocksHeld(DataStep(s, e))
  {
    hide NextOf, IndexOf;
  }

  lemma StepKeeps(max: nat, s: State, e: Event)
    requires Inv(s)
    ensures Inv(Step(max, s, e))
  {
    hide Histories, AccWell, RpcWell, DataWell, LocksHeld, AcceptorStep, RpcStep, DataStep, Mark;
    match e
    case AcceptorTurn(_, _, _) =>
      AcceptorKeeps(max, s, e);
      AcceptorLocks(max, s, e);
    case RpcTurn(_, _) =>
      RpcKeeps(s, e);
      RpcLocksKept(s, e);
    case DataTurn(_, _, _) =>
      DataKeeps(s, e);
      DataLocksKept(s, e);
    case SessionTurn(c) =>
      MarkKeeps(s.mem, c, s.acc, s.rpc, s.data);
      OnlyMemory(s, Mark(s.mem, c));
  }

  lemma OnlyMemory(s: State, h: Memory)
    requires LocksHeld(s)
    ensures LocksHeld(s.(mem := h))
  {
  }

  lemma {:induction false} RunKeeps(max: nat, es: seq<Event>)
    ensures Inv(Run(max, es))
    decreases |es|
  {
    hide Step;
    if es != [] {
      RunKeeps(max, es[..|es| - 1]);
      StepKeeps(max, Run(max, es[..|es| - 1]), es[|es| - 1]);
    }
  }

  // ---- reclamation

  /** Some thread that holds the global lock points at c. */
  predicate Reached(s: State, c: Peer) {
    ((s.acc.ASsh? || s.acc.ATls?) && s.acc.at == Some(c)) || (s.acc.ASshIn? && s.acc.cur == c) ||
    (s.rpc.RAt? && s.rpc.at == Some(c)) || (!s.rpc.RIdle? && !s.rpc.RAt? && s.rpc.cur == c) ||
    (s.rpc.RKill? && s.rpc.other == Some(c)) || (s.rpc.RKillIn? && s.rpc.victim == c) ||
    (s.data.DAt? && s.data.at == Some(c)) ||
    ((s.data.DIn? || s.data.DResume? || s.data.DWrite? || s.data.DCut?) && s.data.cur == c)
  }

  /** In every interleaving: no thread that holds the global lock points at a released
      client; a client that was in the list is released at most once, only after it was
      marked and detached; the list never holds a client twice or a released one. */
  lemma ReclamationIsSafe(max: nat, es: seq<Event>)
    ensures var s := Run(max, es); var h := s.mem;
      (forall c :: Reached(s, c) ==> h.frees[c] == 0) &&
      (forall c :: c in h.shared ==> h.frees[c] <= 1) &&
      (forall c :: c in h.shared && h.frees[c] == 1 ==> c in h.marked && c in h.detached && c !in h.list) &&
      Distinct(h.list) && (forall c :: c in h.list ==> h.frees[c] == 0)
  {
    hide Run, Distinct, LocksHeld;
    RunKeeps(max, es);
  }

  /** The list changes, and a client is detached, only in a step of the one thread that
      holds the write lock while nobody holds the read lock. */
  lemma ListChangesAlone(max: nat, es: seq<Event>, e: Event)
    ensures var s := Run(max, es); var t := Step(max, s, e);
      t.mem.list != s.mem.list || t.mem.detached != s.mem.detached ==>
        AccWrites(s.acc) != DataWrites(s.data) &&
        !AccReads(s.acc) && !RpcReads(s.rpc) && !DataReads(s.data)
  {
    hide Run, Histories, AccWell, RpcWell, DataWell, NextOf, Detached, AccLocks, RpcLocks, DataLocks;
    RunKeeps(max, es);
  }

  /** When a client is released, nobody holds its mutex and nobody waits for it. */
  lemma ReleasedUnlocked(max: nat, es: seq<Event>)
    ensures var s := Run(max, es);
      s.data.DFree? ==>
        !Reached(s, s.data.cur) && !AccLocks(s.acc, s.data.cur) &&
        !RpcLocks(s.rpc, s.data.cur) && !DataLocks(s.data, s.data.cur)
  {
    hide Run, Distinct, LocksHeld;
    RunKeeps(max, es);
  }

  /** A step releases a client a second time exactly when the accept thread drops a client
      over the session limit or one whose TLS setup failed. */
  lemma SecondReleaseExactly(max: nat, es: seq<Event>, e: Event)
    ensures var s := Run(max, es); var t := Step(max, s, e);
      (exists c :: t.mem.frees[c] > 1 >= s.mem.frees[c]) <==>
      e.AcceptorTurn? &&
      ((s.acc.ADecide? && s.acc.n >= max) || (s.acc.AMake? && s.acc.c.kind.Tls? && !e.ok))
  {
    hide Run, Distinct, RpcWell, LocksHeld, NextOf, Detached, AccLocks, RpcLocks, DataLocks;
    RunKeeps(max, es);
    RunKeeps(max, es + [e]);
    assert (es + [e])[..|es|] == es;
    var s, t := Run(max, es), Step(max, Run(max, es), e);
    if e.AcceptorTurn? && ((s.acc.ADecide? && s.acc.n >= max) || (s.acc.AMake? && s.acc.c.kind.Tls? && !e.ok)) {
      assert t.mem.frees[s.acc.c] > 1 >= s.mem.frees[s.acc.c];
    }
  }

  /** Such a step exists: a TLS connection whose setup fails. */
  lemma SecondReleaseHappens()
    ensures exists es :: Run(0, es).mem.frees[Peer(0, Tls)] == 2
  {
    var e0, e1 := AcceptorTurn(Tls, true, 0), AcceptorTurn(Tls, false, 0);
    var es := [e0, e1];
    assert es[..1] == [e0] && [e0][..0] == [];
    assert Run(0, [e0]) == Step(0, Run(0, []), e0) == START.(mem := Fresh(START.mem), acc := AMake(Peer(0, Tls)));
    assert Run(0, es) == Step(0, Run(0, [e0]), e1);
  }

  /** n turns of the accept thread alone, each with a TLS connection at hand. */
  function Accepts(n: nat): seq<Event> {
    seq(n, i => AcceptorTurn(Tls, true, 0))
  }

  lemma AcceptsOneMore(n: nat)
    ensures Run(1, Accepts(n + 1)) == Step(1, Run(1, Accepts(n)), AcceptorTurn(Tls, true, 0))
  {
    var es := Accepts(n + 1);
    assert es[..|es| - 1] == Accepts(n) && es[|es| - 1] == AcceptorTurn(Tls, true, 0);
  }

  lemma FirstIsCounted()
    ensures Run(1, Accepts(5)) == START.(mem := Fresh(START.mem), acc := ADecide(Peer(0, Tls), 0))
  {
    var c, h := Peer(0, Tls), Fresh(START.mem);
    hide Run, RpcStep, DataStep;
    assert Run(1, Accepts(0)) == START by {
      NoTurns();
    }
    AcceptsOneMore(0);
    assert Run(1, Accepts(1)) == START.(mem := h, acc := ACheck(c));
    AcceptsOneMore(1);
    assert Run(1, Accepts(2)) == START.(mem := h, acc := ASsh(c, None, 0));
    AcceptsOneMore(2);
    assert Run(1, Accepts(3)) == START.(mem := h, acc := AMid(c, 0));
    AcceptsOneMore(3);
    assert Run(1, Accepts(4)) == START.(mem := h, acc := ATls(c, None, 0));
    AcceptsOneMore(4);
    assert Run(1, Accepts(5)) == START.(mem := h, acc := ADecide(c, 0));
  }

  /** The first connection is counted, set up and appended. */
  lemma FirstIsListed()
    ensures var c := Peer(0, Tls);
      Run(1, Accepts(10)) == State(Memory([c], {}, {c}, {}, {}, multiset{}, 1), AIdle, RIdle, DIdle)
  {
    var c, h := Peer(0, Tls), Fresh(START.mem);
    hide Run, RpcStep, DataStep;
    FirstIsCounted();
    AcceptsOneMore(5);
    assert Run(1, Accepts(6)) == START.(mem := h, acc := AMake(c));
    AcceptsOneMore(6);
    assert Run(1, Accepts(7)) == START.(mem := h, acc := AWait(c));
    AcceptsOneMore(7);
    assert Run(1, Accepts(8)) == START.(mem := h, acc := AWrite(c));
    AcceptsOneMore(8);
    assert Run(1, Accepts(9)) == START.(mem := Append(h, c), acc := ADone);
    AcceptsOneMore(9);
    assert Run(1, Accepts(10)) == START.(mem := Append(h, c), acc := AIdle);
  }

  lemma NoTurns()
    ensures Run(1, Accepts(0)) == START
  {
  }

  lemma SecondCounted()
    ensures var c, d := Peer(0, Tls), Peer(1, Tls);
      Run(1, Accepts(14)) == State(Memory([c], {}, {c}, {}, {}, multiset{}, 2), AMid(d, 0), RIdle, DIdle)
  {
    var c, d := Peer(0, Tls), Peer(1, Tls);
    hide Run, RpcStep, DataStep;
    FirstIsListed();
    var h := Fresh(Run(1, Accepts(10)).mem);
    AcceptsOneMore(10);
    assert Run(1, Accepts(11)) == State(h, ACheck(d), RIdle, DIdle);
    AcceptsOneMore(11);
    assert Run(1, Accepts(12)) == State(h, ASsh(d, Some(c), 0), RIdle, DIdle);
    AcceptsOneMore(12);
    assert Run(1, Accepts(13)) == State(h, ASsh(d, None, 0), RIdle, DIdle);
    AcceptsOneMore(13);
  }

  /** The other way to release a client twice: a second connection when the limit is one. */
  lemma SecondReleaseOverLimit()
    ensures Run(1, Accepts(18)).mem.frees[Peer(1, Tls)] == 2
  {
    var c, d := Peer(0, Tls), Peer(1, Tls);
    hide Run, RpcStep, DataStep;
    SecondCounted();
    var h := Run(1, Accepts(14)).mem;
    AcceptsOneMore(14);
    assert Run(1, Accepts(15)) == State(h, ATls(d, Some(c), 0), RIdle, DIdle);
    AcceptsOneMore(15);
    assert Run(1, Accepts(16)) == State(h, ATls(d, None, 1), RIdle, DIdle);
    AcceptsOneMore(16);
    assert Run(1, Accepts(17)) == State(h, ADecide(d, 1), RIdle, DIdle);
    AcceptsOneMore(17);
  }

  // ---- the session limit

  function CountKind(list: seq<Peer>, k: Kind): nat {
    if list == [] then 0 else CountKind(list[..|list| - 1], k) + (if list[|list| - 1].kind == k then 1 else 0)
  }

  lemma {:induction false} CountConcat(a: seq<Peer>, b: seq<Peer>, k: Kind)
    ensures CountKind(a + b, k) == CountKind(a, k) + CountKind(b, k)
    decreases |b|
  {
    if b == [] {
      assert a + b == a;
    } else {
      assert (a + b)[..|a + b| - 1] == a + b[..|b| - 1];
      CountConcat(a, b[..|b| - 1], k);
    }
  }

  lemma {:induction false} CountBoth(list: seq<Peer>)
    ensures CountKind(list, Ssh) + CountKind(list, Tls) == |list|
    decreases |list|
  {
    if list != [] {
      CountBoth(list[..|list| - 1]);
    }
  }

  lemma CountDetached(list: seq<Peer>, c: Peer, k: Kind)
    ensures CountKind(Detached(list, c), k) <= CountKind(list, k)
  {
    var i := IndexOf(list, c);
    if i < |list| {
      assert list == list[..i] + ([list[i]] + list[i + 1..]);
      CountConcat(list[..i], [list[i]] + list[i + 1..], k);
      CountConcat([list[i]], list[i + 1..], k);
      CountConcat(list[..i], list[i + 1..], k);
    }
  }

  /** Where a walk stands: how many clients it has passed. */
  function Passed(list: seq<Peer>, at: Option<Peer>): (i: nat)
    ensures i <= |list|
  {
    if at.None? then |list| else IndexOf(list, at.value)
  }

  lemma PassedNext(list: seq<Peer>, c: Peer, k: Kind)
    requires Distinct(list) && c in list
    ensures Passed(list, NextOf(list, c)) == IndexOf(list, c) + 1
    ensures CountKind(list[..IndexOf(list, c) + 1], k) ==
      CountKind(list[..IndexOf(list, c)], k) + if c.kind == k then 1 else 0
  {
    var i := IndexOf(list, c);
    assert list[..i + 1][..i] == list[..i];
    if i + 1 < |list| {
      var j := IndexOf(list, list[i + 1]);
    }
  }

  lemma PassedFirst(list: seq<Peer>, k: Kind)
    ensures Passed(list, First(list)) == 0 && CountKind(list[..0], k) == 0
    ensures list[..|list|] == list
  {
  }

  /** What the accept thread has counted covers the clients it has passed, also those
      counted in an earlier section: since then clients can only have left. */
  predicate Counted(max: nat, list: seq<Peer>, a: Acceptor) {
    |list| <= max &&
    match a
    case ASsh(_, at, n) => n >= CountKind(list[..Passed(list, at)], Ssh)
    case ASshIn(_, k, n) => n >= CountKind(list[..IndexOf(list, k)], Ssh)
    case AMid(_, n) => n >= CountKind(list, Ssh)
    case ATls(_, at, n) => n >= CountKind(list, Ssh) + CountKind(list[..Passed(list, at)], Tls)
    case ADecide(_, n) => n >= |list|
    case AMake(_) => |list| < max
    case AWait(_) => |list| < max
    case AWrite(_) => |list| < max
    case _ => true
  }

  lemma AcceptorCounts(max: nat, s: State, e: Event)
    requires max > 0 && Inv(s) && Counted(max, s.mem.list, s.acc) && e.AcceptorTurn?
    ensures Counted(max, AcceptorStep(max, s, e).mem.list, AcceptorStep(max, s, e).acc)
  {
    hide RpcWell, DataWell, LocksHeld, NextOf, First, IndexOf, CountKind, Passed, RpcLocks, DataLocks, Distinct;
    var list := s.mem.list;
    match s.acc
    case ACheck(_) => PassedFirst(list, Ssh);
    case ASsh(_, None, _) => PassedAll(list);
    case ASsh(_, Some(k), _) =>
      PassedNext(list, k, Ssh);
      PassedAt(list, k);
    case ASshIn(_, k, _) => PassedNext(list, k, Ssh);
    case AMid(_, _) => PassedFirst(list, Tls);
    case ATls(_, None, _) =>
      PassedAll(list);
      CountBoth(list);
    case ATls(_, Some(k), _) =>
      PassedNext(list, k, Tls);
      PassedAt(list, k);
    case _ =>
  }

  lemma PassedAll(list: seq<Peer>)
    ensures list[..Passed(list, None)] == list
  {
  }

  lemma PassedAt(list: seq<Peer>, k: Peer)
    ensures Passed(list, Some(k)) == IndexOf(list, k)
  {
  }

  lemma CutCounts(max: nat, list: seq<Peer>, c: Peer, a: Acceptor)
    requires Counted(max, list, a) && !AccReads(a)
    ensures Counted(max, Detached(list, c), a)
  {
    hide CountKind;
    CountDetached(list, c, Ssh);
  }

  /** With a positive limit the list never holds more clients than the limit. The counts
      are taken under two read locks and the client is appended under a later write lock,
      but only this thread appends, and every client counts at least once. */
  lemma {:induction false} SessionsStayBounded(max: nat, es: seq<Event>)
    requires max > 0
    ensures |Run(max, es).mem.list| <= max
    ensures Counted(max, Run(max, es).mem.list, Run(max, es).acc)
    decreases |es|
  {
    hide Counted, Inv, Detached, NextOf, IndexOf, AcceptorStep;
    if es == [] {
      EmptyCounts(max);
    } else {
      var s, e := Run(max, es[..|es| - 1]), es[|es| - 1];
      SessionsStayBounded(max, es[..|es| - 1]);
      RunKeeps(max, es[..|es| - 1]);
      if e.AcceptorTurn? {
        AcceptorCounts(max, s, e);
      }
      if e.DataTurn? && s.data.DWrite? {
        WriterAlone(s);
        CutCounts(max, s.mem.list, s.data.cur, s.acc);
      }
      BoundedByCount(max, Run(max, es).mem.list, Run(max, es).acc);
    }
  }

  lemma EmptyCounts(max: nat)
    ensures Counted(max, [], AIdle)
  {
  }

  lemma WriterAlone(s: State)
    requires Inv(s) && s.data.DWrite?
    ensures !AccReads(s.acc)
  {
  }

  lemma BoundedByCount(max: nat, list: seq<Peer>, a: Acceptor)
    requires Counted(max, list, a)
    ensures |list| <= max
  {
  }
}
