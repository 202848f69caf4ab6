/** The life of NAT entries under every interleaving of SYN arrivals, the expiry sweep, the accept
    loop and the connection tasks. Each step is one operation on one of the shared maps, with the load or
    store of an entry's state made under its lock; map operations on a key are atomic under the lock of
    its shard. */
module TcpNat {
  import opened Options
  import CidrSet

  type Ip = CidrSet.Ip

  datatype SocketAddr = SocketAddr(ip: Ip, port: nat)

  type Id = nat

  datatype EntryState = SynReceived | ConnectingDst | Connected | ClosingSrc | ClosingDst | Closed

  /** The part of an entry that never changes. */
  datatype Entry = Entry(src: SocketAddr, realDst: SocketAddr, mappedDst: SocketAddr, startTime: nat)

  /** The accept loop between two of its steps. */
  datatype Acceptor =
    | Waiting
    | Got(id: Id)
    | Removed(id: Id)
    | Stored(id: Id)
    | Addressed(id: Id)
    | Inserted(id: Id)

  /** A connection task between two of its steps. */
  datatype Task = Connecting | Copying | ShuttingSrc | ShuttingDst | Lingering | Unlinked | Finished

  datatype State = State(entries: map<Id, Entry>, states: map<Id, EntryState>, syn: map<SocketAddr, Id>,
                         conn: set<Id>, addrConn: map<SocketAddr, Id>, acceptor: Acceptor,
                         tasks: map<Id, Task>, clock: nat, accepted: seq<Id>, syns: seq<Id>)

  const INIT := State(map[], map[], map[], {}, map[], Waiting, map[], 0, [], [])

  const SYN_TIMEOUT := 30

  datatype Action =
    | Tick(clock: nat)
    | Syn(id: Id, src: SocketAddr, mappedDst: SocketAddr, realIp: Ip)
    | Sweep(src: SocketAddr)
    | Accept(src: SocketAddr)
    | AcceptRemove
    | AcceptStore
    | AcceptAddr
    | AcceptInsert
    | AcceptSpawn
    | ConnectFails(id: Id)
    | ConnectWorks(id: Id)
    | CopyEnds(id: Id)
    | SrcShut(id: Id)
    | DstShut(id: Id)
    | RemoveConn(id: Id)
    | RemoveAddr(id: Id)
    | ReplyConn(dst: SocketAddr)
    | ReplySyn(dst: SocketAddr)

  predicate TaskAt(s: State, id: Id, at: Task) {
    id in s.tasks && s.tasks[id] == at
  }

  /** A new entry draws an identifier no entry has had; everything else may happen whenever its task
      is there. */
  predicate Enabled(s: State, a: Action) {
    match a
    case Tick(clock) => s.clock <= clock
    case Syn(id, _, _, _) => id !in s.entries
    case Sweep(_) => true
    case Accept(_) => s.acceptor.Waiting?
    case AcceptRemove => s.acceptor.Got?
    case AcceptStore => s.acceptor.Removed?
    case AcceptAddr => s.acceptor.Stored?
    case AcceptInsert => s.acceptor.Addressed?
    case AcceptSpawn => s.acceptor.Inserted?
    case ConnectFails(id) => TaskAt(s, id, Connecting)
    case ConnectWorks(id) => TaskAt(s, id, Connecting)
    case CopyEnds(id) => TaskAt(s, id, Copying)
    case SrcShut(id) => TaskAt(s, id, ShuttingSrc)
    case DstShut(id) => TaskAt(s, id, ShuttingDst)
    case RemoveConn(id) => TaskAt(s, id, Lingering)
    case RemoveAddr(id) => TaskAt(s, id, Unlinked)
    case ReplyConn(_) => true
    case ReplySyn(_) => true
  }

  /** The entry a reply to an address is rewritten with. */
  function Lookup(s: State, dst: SocketAddr): Option<Id> {
    if dst in s.addrConn then Some(s.addrConn[dst])
    else if dst in s.syn then Some(s.syn[dst]) else None
  }

  /** The assertions and unchecked map reads of the code, at the step that makes them. */
  predicate AssertionHolds(s: State, a: Action) {
    match a
    case Accept(src) => src in s.syn ==> s.syn[src] in s.states && s.states[s.syn[src]] == SynReceived
    case AcceptRemove => s.acceptor.Got? ==> s.acceptor.id in s.entries
    case AcceptAddr => s.acceptor.Stored? ==> s.acceptor.id in s.entries
    case AcceptInsert => s.acceptor.Addressed? ==> s.acceptor.id !in s.conn
    case ConnectWorks(id) => id in s.states && s.states[id] == ConnectingDst
    case RemoveAddr(id) => id in s.entries
    case ReplyConn(dst) =>
      dst in s.addrConn ==> s.addrConn[dst] in s.entries && s.entries[s.addrConn[dst]].src == dst
    case ReplySyn(dst) => dst in s.syn ==> s.syn[dst] in s.entries && s.entries[s.syn[dst]].src == dst
    case Sweep(src) => src in s.syn ==> s.syn[src] in s.entries
    case _ => true
  }

  function Apply(s: State, a: Action): State
    requires Enabled(s, a) && AssertionHolds(s, a)
  {
    match a
    case Tick(clock) => s.(clock := clock)
    case Syn(id, src, mappedDst, realIp) =>
      s.(entries := s.entries[id := Entry(src, SocketAddr(realIp, mappedDst.port), mappedDst, s.clock)],
         states := s.states[id := SynReceived], syn := s.syn[src := id], syns := s.syns + [id])
    case Sweep(src) =>
      if src in s.syn && s.clock - s.entries[s.syn[src]].startTime > SYN_TIMEOUT
      then s.(states := s.states[s.syn[src] := Closed], syn := s.syn - {src})
      else s
    case Accept(src) => if src in s.syn then s.(acceptor := Got(s.syn[src])) else s
    case AcceptRemove =>
      var id := s.acceptor.id;
      var src := s.entries[id].src;
      s.(acceptor := Removed(id), syn := if src in s.syn && s.syn[src] == id then s.syn - {src} else s.syn)
    case AcceptStore =>
      s.(acceptor := Stored(s.acceptor.id), states := s.states[s.acceptor.id := ConnectingDst])
    case AcceptAddr =>
      var id := s.acceptor.id;
      s.(acceptor := Addressed(id), addrConn := s.addrConn[s.entries[id].src := id],
         accepted := s.accepted + [id])
    case AcceptInsert => s.(acceptor := Inserted(s.acceptor.id), conn := s.conn + {s.acceptor.id})
    case AcceptSpawn => s.(acceptor := Waiting, tasks := s.tasks[s.acceptor.id := Connecting])
    case ConnectFails(id) => s.(states := s.states[id := Closed], tasks := s.tasks[id := Lingering])
    case ConnectWorks(id) => s.(states := s.states[id := Connected], tasks := s.tasks[id := Copying])
    case CopyEnds(id) => s.(states := s.states[id := ClosingSrc], tasks := s.tasks[id := ShuttingSrc])
    case SrcShut(id) => s.(states := s.states[id := ClosingDst], tasks := s.tasks[id := ShuttingDst])
    case DstShut(id) => s.(states := s.states[id := Closed], tasks := s.tasks[id := Lingering])
    case RemoveConn(id) => s.(conn := s.conn - {id}, tasks := s.tasks[id := Unlinked])
    case RemoveAddr(id) =>
      var src := s.entries[id].src;
      s.(addrConn := if src in s.addrConn && s.addrConn[src] == id then s.addrConn - {src} else s.addrConn,
         tasks := s.tasks[id := Finished])
    case ReplyConn(_) => s
    case ReplySyn(_) => s
  }

  // --- The invariant ---

  /** The accept loop holds this entry and it has left the SYN map for good. */
  predicate InHand(s: State, id: Id) {
    !s.acceptor.Waiting? && !s.acceptor.Got? && s.acceptor.id == id
  }

  ghost predicate SynInv(s: State) {
    forall src <- s.syn :: SynAt(s, src)
  }

  /** The entry waiting under a source is of that source, untouched, and nobody else's. */
  ghost predicate SynAt(s: State, src: SocketAddr)
    requires src in s.syn
  {
    var id := s.syn[src];
    && id in s.entries && s.entries[id].src == src
    && id in s.states && s.states[id] == SynReceived
    && id !in s.tasks && !InHand(s, id)
  }

  ghost predicate AcceptorInv(s: State) {
    !s.acceptor.Waiting? ==>
      var id := s.acceptor.id;
      && id in s.entries && id in s.states && id !in s.tasks
      && (!s.acceptor.Got? && !s.acceptor.Removed? ==> s.states[id] == ConnectingDst)
  }

  ghost predicate TaskInv(s: State) {
    forall id <- s.tasks ::
      && id in s.entries && id in s.states
      && (s.tasks[id].Connecting? ==> s.states[id] == ConnectingDst)
  }

  /** The connection map holds exactly the connections between their insertion and their removal. */
  ghost predicate ConnInv(s: State) {
    forall id :: id in s.conn <==>
      s.acceptor == Inserted(id)
      || (id in s.tasks && !s.tasks[id].Unlinked? && !s.tasks[id].Finished?)
  }

  /** The connection with this source that was accepted last. */
  function LastFrom(s: State, accepted: seq<Id>, src: SocketAddr): Option<Id> {
    if accepted == [] then None
    else
      var id := accepted[|accepted| - 1];
      if id in s.entries && s.entries[id].src == src then Some(id)
      else LastFrom(s, accepted[..|accepted| - 1], src)
  }

  ghost predicate AcceptedInv(s: State) {
    && (forall id <- s.accepted :: id in s.entries && (id in s.tasks || InHand(s, id)))
    && (!s.acceptor.Waiting? ==>
          (s.acceptor.id in s.accepted <==> s.acceptor.Addressed? || s.acceptor.Inserted?))
    && (forall id <- s.tasks :: id in s.accepted)
  }

  /** The address map holds, for each source, the connection accepted last, until that connection has
      removed itself. */
  ghost predicate AddrInv(s: State) {
    AcceptedInv(s) && forall src :: AddrAt(s, src)
  }

  ghost predicate AddrAt(s: State, src: SocketAddr) {
    match LastFrom(s, s.accepted, src)
    case None => src !in s.addrConn
    case Some(id) => if TaskAt(s, id, Finished) then src !in s.addrConn
                     else src in s.addrConn && s.addrConn[src] == id
  }

  /** The entry has come in and nobody has taken it on or closed it. */
  predicate StillWaiting(s: State, id: Id) {
    id in s.states && s.states[id] == SynReceived && id !in s.tasks && !InHand(s, id)
  }

  /** The SYN map holds, for each source, the latest SYN, as long as that one is waiting. */
  ghost predicate SynLatest(s: State, src: SocketAddr) {
    match LastFrom(s, s.syns, src)
    case None => src !in s.syn
    case Some(id) => if StillWaiting(s, id) then src in s.syn && s.syn[src] == id else src !in s.syn
  }

  /** Both ports of an entry are the port the peer named; every entry has come in by a SYN. */
  ghost predicate EntryInv(s: State) {
    && (forall id <- s.entries :: s.entries[id].realDst.port == s.entries[id].mappedDst.port)
    && (forall id <- s.entries :: id in s.syns)
    && (forall id <- s.syns :: id in s.entries)
  }

  ghost predicate SynsInv(s: State) {
    forall src :: SynLatest(s, src)
  }

  ghost predicate Inv(s: State) {
    SynInv(s) && AcceptorInv(s) && TaskInv(s) && ConnInv(s) && AddrInv(s) && EntryInv(s) && SynsInv(s)
  }

  lemma {:induction false} LastFromMember(s: State, accepted: seq<Id>, src: SocketAddr)
    ensures var last := LastFrom(s, accepted, src);
            last.Some? ==> last.value in accepted && last.value in s.entries
                           && s.entries[last.value].src == src
  {
    if accepted != [] {
      LastFromMember(s, accepted[..|accepted| - 1], src);
    }
  }

  /** New entries do not change who was accepted last. */
  lemma {:induction false} LastFromStable(s: State, s': State, accepted: seq<Id>, src: SocketAddr)
    requires forall id <- accepted :: id in s.entries && id in s'.entries && s'.entries[id] == s.entries[id]
    ensures LastFrom(s', accepted, src) == LastFrom(s, accepted, src)
  {
    if accepted != [] {
      LastFromStable(s, s', accepted[..|accepted| - 1], src);
    }
  }

  /** No assertion fires in a good state. */
  lemma AssertionsHold(s: State, a: Action)
    requires Inv(s) && Enabled(s, a)
    ensures AssertionHolds(s, a)
  {
    if a.ReplyConn? && a.dst in s.addrConn {
      assert AddrAt(s, a.dst);
      LastFromMember(s, s.accepted, a.dst);
    }
  }

  lemma SynKept(s: State, a: Action)
    requires Inv(s) && Enabled(s, a) && AssertionHolds(s, a)
    ensures SynInv(Apply(s, a))
  {
    forall src | src in Apply(s, a).syn ensures SynAt(Apply(s, a), src) {
      SynAtKept(s, a, src);
    }
  }

  lemma SynAtKept(s: State, a: Action, src: SocketAddr)
    requires SynInv(s) && AcceptorInv(s) && TaskInv(s) && Enabled(s, a) && AssertionHolds(s, a)
    requires src in Apply(s, a).syn
    ensures SynAt(Apply(s, a), src)
  {
    assert src in s.syn ==> SynAt(s, src);
    assert a.Sweep? && a.src in s.syn ==> SynAt(s, a.src);
  }

  lemma AcceptorKept(s: State, a: Action)
    requires SynInv(s) && AcceptorInv(s)
    requires Enabled(s, a) && AssertionHolds(s, a)
    ensures AcceptorInv(Apply(s, a))
  {
  }

  lemma TasksKept(s: State, a: Action)
    requires SynInv(s) && AcceptorInv(s) && TaskInv(s)
    requires Enabled(s, a) && AssertionHolds(s, a)
    ensures TaskInv(Apply(s, a))
  {
  }

  lemma ConnKept(s: State, a: Action)
    requires AcceptorInv(s) && ConnInv(s) && Enabled(s, a) && AssertionHolds(s, a)
    ensures ConnInv(Apply(s, a))
  {
  }

  lemma AcceptedKept(s: State, a: Action)
    requires SynInv(s) && AcceptorInv(s) && AcceptedInv(s)
    requires Enabled(s, a) && AssertionHolds(s, a)
    ensures AcceptedInv(Apply(s, a))
  {
  }

  /** Entries of accepted connections stay as they are. */
  ghost predicate EntriesKept(s: State, s': State) {
    forall id <- s.accepted :: id in s.entries && id in s'.entries && s'.entries[id] == s.entries[id]
  }

  lemma AddrAtUnmoved(s: State, s': State, src: SocketAddr)
    requires AddrAt(s, src) && EntriesKept(s, s')
    requires s'.accepted == s.accepted && s'.addrConn == s.addrConn
    requires forall id <- s.accepted :: TaskAt(s', id, Finished) == TaskAt(s, id, Finished)
    ensures AddrAt(s', src)
  {
    LastFromStable(s, s', s.accepted, src);
    LastFromMember(s, s.accepted, src);
  }

  lemma AddrAtAccepted(s: State, src: SocketAddr)
    requires Inv(s) && s.acceptor.Stored?
    ensures AddrAt(Apply(s, AcceptAddr), src)
  {
    var s' := Apply(s, AcceptAddr);
    assert AddrAt(s, src);
    LastFromStable(s, s', s.accepted, src);
    assert s'.accepted[..|s'.accepted| - 1] == s.accepted;
  }

  lemma AddrAtRemoved(s: State, id: Id, src: SocketAddr)
    requires Inv(s) && TaskAt(s, id, Unlinked)
    ensures AddrAt(Apply(s, RemoveAddr(id)), src)
  {
    assert AddrAt(s, src);
    LastFromStable(s, Apply(s, RemoveAddr(id)), s.accepted, src);
    LastFromMember(s, s.accepted, src);
  }

  lemma OthersUnmoved(s: State, a: Action)
    requires SynInv(s) && AcceptorInv(s) && AcceptedInv(s)
    requires Enabled(s, a) && AssertionHolds(s, a) && !a.AcceptAddr? && !a.RemoveAddr?
    ensures var s' := Apply(s, a);
            && EntriesKept(s, s') && s'.accepted == s.accepted && s'.addrConn == s.addrConn
            && forall id <- s.accepted :: TaskAt(s', id, Finished) == TaskAt(s, id, Finished)
  {
  }

  lemma AddrAtKept(s: State, a: Action, src: SocketAddr)
    requires Inv(s) && Enabled(s, a) && AssertionHolds(s, a)
    ensures AddrAt(Apply(s, a), src)
  {
    assert AddrAt(s, src);
    if a.AcceptAddr? {
      AddrAtAccepted(s, src);
    } else if a.RemoveAddr? {
      AddrAtRemoved(s, a.id, src);
    } else {
      OthersUnmoved(s, a);
      AddrAtUnmoved(s, Apply(s, a), src);
    }
  }

  lemma AddrKept(s: State, a: Action)
    requires Inv(s) && Enabled(s, a) && AssertionHolds(s, a)
    ensures AddrInv(Apply(s, a))
  {
    AcceptedKept(s, a);
    forall src ensures AddrAt(Apply(s, a), src) {
      AddrAtKept(s, a, src);
    }
  }

  lemma EntriesGood(s: State, a: Action)
    requires EntryInv(s)
    requires Enabled(s, a) && AssertionHolds(s, a)
    ensures EntryInv(Apply(s, a))
  {
  }

  lemma LatestAfterSyn(s: State, a: Action, src: SocketAddr)
    requires Inv(s) && Enabled(s, a) && a.Syn?
    ensures SynLatest(Apply(s, a), src)
  {
    var s' := Apply(s, a);
    assert SynLatest(s, src);
    assert s'.syns[..|s'.syns| - 1] == s.syns;
    LastFromStable(s, s', s.syns, src);
    LastFromMember(s, s.syns, src);
  }

  /** Only a sweep and the accept loop take entries out of the SYN map, and what they take stops
      waiting. */
  lemma LatestAfterRemoval(s: State, a: Action, src: SocketAddr)
    requires SynInv(s) && AcceptorInv(s) && EntryInv(s) && SynLatest(s, src)
    requires Enabled(s, a) && AssertionHolds(s, a) && (a.Sweep? || a.AcceptRemove?)
    ensures SynLatest(Apply(s, a), src)
  {
    LastFromStable(s, Apply(s, a), s.syns, src);
    LastFromMember(s, s.syns, src);
    assert a.Sweep? && a.src in s.syn ==> SynAt(s, a.src);
    assert src in s.syn ==> SynAt(s, src);
  }

  lemma WaitingUnmoved(s: State, a: Action, id: Id)
    requires AcceptorInv(s) && TaskInv(s) && Enabled(s, a) && AssertionHolds(s, a)
    requires !a.Syn? && !a.Sweep? && !a.AcceptRemove?
    ensures Apply(s, a).syn == s.syn && Apply(s, a).syns == s.syns && Apply(s, a).entries == s.entries
    ensures StillWaiting(Apply(s, a), id) == StillWaiting(s, id)
  {
  }

  lemma LatestAfterOthers(s: State, a: Action, src: SocketAddr)
    requires AcceptorInv(s) && TaskInv(s) && EntryInv(s) && SynLatest(s, src)
    requires Enabled(s, a) && AssertionHolds(s, a) && !a.Syn? && !a.Sweep? && !a.AcceptRemove?
    ensures SynLatest(Apply(s, a), src)
  {
    WaitingUnmoved(s, a, 0);
    LastFromStable(s, Apply(s, a), s.syns, src);
    if LastFrom(s, s.syns, src).Some? {
      WaitingUnmoved(s, a, LastFrom(s, s.syns, src).value);
    }
  }

  lemma SynsKept(s: State, a: Action)
    requires Inv(s) && Enabled(s, a) && AssertionHolds(s, a)
    ensures SynsInv(Apply(s, a))
  {
    forall src ensures SynLatest(Apply(s, a), src) {
      assert SynLatest(s, src);
      if a.Syn? {
        LatestAfterSyn(s, a, src);
      } else if a.Sweep? || a.AcceptRemove? {
        LatestAfterRemoval(s, a, src);
      } else {
        LatestAfterOthers(s, a, src);
      }
    }
  }

  lemma StepKeepsInv(s: State, a: Action)
    requires Inv(s) && Enabled(s, a)
    ensures AssertionHolds(s, a) && Inv(Apply(s, a))
  {
    AssertionsHold(s, a);
    SynKept(s, a);
    AcceptorKept(s, a);
    TasksKept(s, a);
    ConnKept(s, a);
    AddrKept(s, a);
    EntriesGood(s, a);
    SynsKept(s, a);
  }

  // --- Runs ---

  /** Enabled actions one after the other; a failed assertion would put no condition on what follows. */
  ghost predicate IsRun(states: seq<State>, actions: seq<Action>) {
    && |states| == |actions| + 1
    && states[0] == INIT
    && forall i :: 0 <= i < |actions| ==>
         && Enabled(states[i], actions[i])
         && (AssertionHolds(states[i], actions[i]) ==> states[i + 1] == Apply(states[i], actions[i]))
  }

  lemma {:induction false} RunKeepsInv(states: seq<State>, actions: seq<Action>, n: nat)
    requires IsRun(states, actions) && n < |states|
    ensures Inv(states[n])
  {
    if n > 0 {
      RunKeepsInv(states, actions, n - 1);
      StepKeepsInv(states[n - 1], actions[n - 1]);
    }
  }

  /** Whatever the interleaving, no assertion of the proxy ever fires. */
  lemma AssertionsUnreachable(states: seq<State>, actions: seq<Action>, n: nat)
    requires IsRun(states, actions) && n < |actions|
    ensures AssertionHolds(states[n], actions[n])
  {
    RunKeepsInv(states, actions, n);
    AssertionsHold(states[n], actions[n]);
  }

  /** At every moment of every run a source is mapped to the connection accepted last from it, unless
      that one has finished; the mapped connection is in the connection map except between the two
      inserts of the accept loop and between the two removals of its own task. */
  lemma LatestConnection(states: seq<State>, actions: seq<Action>, n: nat, src: SocketAddr)
    requires IsRun(states, actions) && n < |states|
    ensures var s := states[n];
            var last := LastFrom(s, s.accepted, src);
            && (src in s.addrConn <==> last.Some? && !TaskAt(s, last.value, Finished))
            && (src in s.addrConn ==>
                  && s.addrConn[src] == last.value
                  && (|| last.value in s.conn
                      || s.acceptor == Addressed(last.value)
                      || TaskAt(s, last.value, Unlinked)))
  {
    RunKeepsInv(states, actions, n);
    assert AddrAt(states[n], src);
    LastFromMember(states[n], states[n].accepted, src);
  }

  /** At every moment of every run a source waits in the SYN map if and only if its latest SYN has
      neither expired nor been taken on, and then with that one. */
  lemma LatestSyn(states: seq<State>, actions: seq<Action>, n: nat, src: SocketAddr)
    requires IsRun(states, actions) && n < |states|
    ensures var s := states[n];
            var last := LastFrom(s, s.syns, src);
            && (src in s.syn <==> last.Some? && StillWaiting(s, last.value))
            && (src in s.syn ==> s.syn[src] == last.value)
  {
    RunKeepsInv(states, actions, n);
    assert SynLatest(states[n], src);
  }

  /** The connection a source is served by: the one accepted last while it lives, else the latest SYN
      while it waits. */
  function Serving(s: State, src: SocketAddr): Option<Id> {
    var conn, waiting := LastFrom(s, s.accepted, src), LastFrom(s, s.syns, src);
    if conn.Some? && !TaskAt(s, conn.value, Finished) then conn
    else if waiting.Some? && StillWaiting(s, waiting.value) then waiting else None
  }

  lemma LookupServes(s: State, src: SocketAddr)
    requires Inv(s)
    ensures Lookup(s, src) == Serving(s, src)
  {
    assert AddrAt(s, src) && SynLatest(s, src);
  }

  /** The SYN of step j makes this entry: it remembers its source, the address named by the peer, the
      address behind it with the same port, and when it came in. */
  ghost predicate MadeBy(states: seq<State>, actions: seq<Action>, j: nat, id: Id, e: Entry)
    requires j < |actions| <= |states|
  {
    && actions[j] == Syn(id, e.src, e.mappedDst, e.realDst.ip)
    && e.realDst.port == e.mappedDst.port
    && e.startTime == states[j].clock
  }

  /** By which SYN an entry came in. */
  ghost predicate MadeBefore(states: seq<State>, actions: seq<Action>, n: nat, id: Id, e: Entry)
    requires n <= |actions| <= |states|
  {
    exists j: nat :: j < n && MadeBy(states, actions, j, id, e)
  }

  /** In every state of every run an entry is exactly what the SYN that opened it said. */
  lemma {:induction false} EntryHistory(states: seq<State>, actions: seq<Action>, n: nat, id: Id, e: Entry)
    requires IsRun(states, actions) && n < |states|
    ensures MadeBefore(states, actions, n, id, e) <==> id in states[n].entries && states[n].entries[id] == e
  {
    if n > 0 {
      EntryHistory(states, actions, n - 1, id, e);
      AssertionsUnreachable(states, actions, n - 1);
      if MadeBefore(states, actions, n - 1, id, e) {
        var j: nat :| j < n - 1 && MadeBy(states, actions, j, id, e);
        assert j < n && MadeBy(states, actions, j, id, e);
      } else if id in states[n].entries && states[n].entries[id] == e {
        assert MadeBy(states, actions, n - 1, id, e);
      }
    }
  }

  /** A SYN from a source to a destination opened this entry. */
  ghost predicate OpenedTo(actions: seq<Action>, n: nat, id: Id, src: SocketAddr, dst: SocketAddr)
    requires n <= |actions|
  {
    exists j :: 0 <= j < n && actions[j].Syn? && actions[j].id == id && actions[j].src == src
                && actions[j].mappedDst == dst
  }

  lemma OpenedToHistory(states: seq<State>, actions: seq<Action>, n: nat, id: Id, src: SocketAddr,
                        dst: SocketAddr)
    requires IsRun(states, actions) && n < |states|
    ensures OpenedTo(actions, n, id, src, dst)
       <==> id in states[n].entries && states[n].entries[id].src == src && states[n].entries[id].mappedDst == dst
  {
    if OpenedTo(actions, n, id, src, dst) {
      var j :| 0 <= j < n && actions[j].Syn? && actions[j].id == id && actions[j].src == src
               && actions[j].mappedDst == dst;
      var e := Entry(src, SocketAddr(actions[j].realIp, dst.port), dst, states[j].clock);
      assert MadeBy(states, actions, j, id, e);
      EntryHistory(states, actions, n, id, e);
    }
    if id in states[n].entries {
      EntryHistory(states, actions, n, id, states[n].entries[id]);
    }
  }

  /** A sweep takes a waiting source out of the SYN map if and only if its SYN came more than thirty
      seconds ago, and closes its entry. */
  lemma SynExpires(states: seq<State>, actions: seq<Action>, n: nat, j: nat)
    requires IsRun(states, actions) && j < n < |actions| && actions[j].Syn?
    requires var src := actions[j].src;
             actions[n] == Sweep(src) && src in states[n].syn && states[n].syn[src] == actions[j].id
    ensures var src, id := actions[j].src, actions[j].id;
            && (src !in states[n + 1].syn <==> states[n].clock - states[j].clock > 30)
            && id in states[n + 1].states
            && states[n + 1].states[id] == if src in states[n + 1].syn then SynReceived else Closed
  {
    var a := actions[j];
    var e := Entry(a.src, SocketAddr(a.realIp, a.mappedDst.port), a.mappedDst, states[j].clock);
    assert MadeBy(states, actions, j, a.id, e);
    EntryHistory(states, actions, n, a.id, e);
    AssertionsUnreachable(states, actions, n);
    RunKeepsInv(states, actions, n);
    assert SynAt(states[n], a.src);
  }

  /** A waiting source leaves the SYN map only so, or when the accept loop takes its entry on. */
  lemma SynLeaves(states: seq<State>, actions: seq<Action>, n: nat, src: SocketAddr)
    requires IsRun(states, actions) && n < |actions|
    requires src in states[n].syn && src !in states[n + 1].syn
    ensures actions[n] == Sweep(src) || (actions[n].AcceptRemove? && states[n].acceptor == Got(states[n].syn[src]))
  {
    AssertionsUnreachable(states, actions, n);
  }

  // --- What the state of an entry tells ---

  /** The state that goes with each part of a connection task. */
  function StateOfTask(t: Task): EntryState {
    match t
    case Connecting => ConnectingDst
    case Copying => Connected
    case ShuttingSrc => ClosingSrc
    case ShuttingDst => ClosingDst
    case Lingering => Closed
    case Unlinked => Closed
    case Finished => Closed
  }

  /** This step sweeps the entry. */
  predicate Sweeps(s: State, a: Action, id: Id) {
    && a.Sweep? && a.src in s.syn && s.syn[a.src] == id
    && id in s.entries && s.clock - s.entries[id].startTime > 30
  }

  /** An entry was swept out of the SYN map. */
  ghost predicate Swept(states: seq<State>, actions: seq<Action>, n: nat, id: Id)
    requires n <= |actions| <= |states|
  {
    exists j: nat :: j < n && Sweeps(states[j], actions[j], id)
  }

  /** The accept loop has stored that it takes the entry on. */
  predicate TakenOn(s: State, id: Id) {
    s.acceptor == Stored(id) || s.acceptor == Addressed(id) || s.acceptor == Inserted(id)
  }

  function Shown(s: State, id: Id, swept: bool): EntryState {
    if id in s.tasks then StateOfTask(s.tasks[id])
    else if TakenOn(s, id) then ConnectingDst
    else if swept then Closed else SynReceived
  }

  /** Through every run the state shown for an entry is that of its task once it has one, connecting from
      when the accept loop has taken it on, and before that closed if and only if it was swept. */
  lemma {:induction false} EntryStates(states: seq<State>, actions: seq<Action>, n: nat, id: Id)
    requires IsRun(states, actions) && n < |states| && id in states[n].entries
    ensures id in states[n].states
    ensures states[n].states[id] == Shown(states[n], id, Swept(states, actions, n, id))
  {
    if n > 0 {
      RunKeepsInv(states, actions, n - 1);
      AssertionsUnreachable(states, actions, n - 1);
      if id in states[n - 1].entries {
        EntryStates(states, actions, n - 1, id);
        SweptSnoc(states, actions, n, id);
        ShownStep(states[n - 1], actions[n - 1], id, Swept(states, actions, n - 1, id));
      } else {
        NeverSwept(states, actions, n, id);
      }
    }
  }

  lemma SweptSnoc(states: seq<State>, actions: seq<Action>, n: nat, id: Id)
    requires 0 < n <= |actions| <= |states|
    ensures Swept(states, actions, n, id)
       <==> Swept(states, actions, n - 1, id) || Sweeps(states[n - 1], actions[n - 1], id)
  {
    if Swept(states, actions, n - 1, id) {
      var j: nat :| j < n - 1 && Sweeps(states[j], actions[j], id);
      assert j < n && Sweeps(states[j], actions[j], id);
    }
  }

  /** An entry just opened has not been swept. */
  lemma NeverSwept(states: seq<State>, actions: seq<Action>, n: nat, id: Id)
    requires IsRun(states, actions) && 0 < n < |states|
    requires id !in states[n - 1].entries && id in states[n].entries
    ensures !Swept(states, actions, n, id)
  {
    AssertionsUnreachable(states, actions, n - 1);
    forall j: nat | j < n ensures !Sweeps(states[j], actions[j], id) {
      if id in states[j].entries {
        EntriesStay(states, actions, j, n - 1, id);
      }
    }
  }

  lemma {:induction false} EntriesStay(states: seq<State>, actions: seq<Action>, m: nat, n: nat, id: Id)
    requires IsRun(states, actions) && m <= n < |states| && id in states[m].entries
    ensures id in states[n].entries
  {
    if m < n {
      EntriesStay(states, actions, m, n - 1, id);
      AssertionsUnreachable(states, actions, n - 1);
    }
  }

  lemma ShownStep(s: State, a: Action, id: Id, swept: bool)
    requires SynInv(s) && AcceptorInv(s) && Enabled(s, a) && AssertionHolds(s, a)
    requires id in s.entries && id in s.states && s.states[id] == Shown(s, id, swept)
    ensures id in Apply(s, a).states
    ensures Apply(s, a).states[id] == Shown(Apply(s, a), id, swept || Sweeps(s, a, id))
  {
    if a.Sweep? {
      assert a.src in s.syn ==> SynAt(s, a.src);
    } else if OfAcceptor(a) {
      ShownAccepting(s, a, id, swept);
    } else {
      ShownOthers(s, a, id, swept);
    }
  }

  predicate OfAcceptor(a: Action) {
    a.Accept? || a.AcceptRemove? || a.AcceptStore? || a.AcceptAddr? || a.AcceptInsert? || a.AcceptSpawn?
  }

  lemma ShownAccepting(s: State, a: Action, id: Id, swept: bool)
    requires AcceptorInv(s) && Enabled(s, a) && AssertionHolds(s, a) && OfAcceptor(a)
    requires id in s.entries && id in s.states && s.states[id] == Shown(s, id, swept)
    ensures id in Apply(s, a).states && Apply(s, a).states[id] == Shown(Apply(s, a), id, swept)
  {
  }

  lemma ShownOthers(s: State, a: Action, id: Id, swept: bool)
    requires Enabled(s, a) && AssertionHolds(s, a) && !OfAcceptor(a) && !a.Sweep?
    requires id in s.entries && id in s.states && s.states[id] == Shown(s, id, swept)
    ensures id in Apply(s, a).states && Apply(s, a).states[id] == Shown(Apply(s, a), id, swept)
  {
  }

  /** Closing a connection takes only its own mapping away. */
  lemma OnlyOwnMappingRemoved(states: seq<State>, actions: seq<Action>, n: nat, src: SocketAddr)
    requires IsRun(states, actions) && n < |actions|
    requires src in states[n].addrConn && src !in states[n + 1].addrConn
    ensures actions[n] == RemoveAddr(states[n].addrConn[src])
  {
    AssertionsUnreachable(states, actions, n);
  }
}
