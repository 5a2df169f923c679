/** Reachable states in which the layer does less than one might expect: each is shown for every
    configuration that allows it. */
module Limits {
  import opened Types
  import opened SocketTable
  import opened Handlers
  import opened Machine
  import opened Counting
  import opened HandleLife
  import opened PicoSockets
  import opened EventDelivery
  import S = ScanSpec

  // ---------------------------------------------------------------- how to get there

  /** A configuration in which the first client may have a socket. */
  predicate HasClient(n: nat, maxClients: nat, quotas: seq<int>, recordSize: nat)
  {
    n > 0 && recordSize > 0 && 0 < |quotas| <= maxClients && quotas[0] > 0
  }

  /** The first client holds this socket in slot 0, and its next report starts there. */
  predicate HeldFirst(t: Stack, impl: int)
  {
    && t.lifecycle == Running
    && |t.sockets| > 0 && HandleOf(t.sockets, impl) == 0
    && t.sockets[0].status == InUse && t.sockets[0].impl == impl
    && t.sockets[0].clientId == MIN_BADGE_ID && t.sockets[0].socketType == Stream
    && ClientIndex(t.clients, MIN_BADGE_ID) == 0 && t.clients[0].head == 0
  }

  lemma StartRunning(n: nat, maxClients: nat, quotas: seq<int>, ports: map<int, Dataport>, recordSize: nat) returns (m: System)
    requires HasClient(n, maxClients, quotas, recordSize)
    ensures m.t == BootStack(n, maxClients, quotas, ports, recordSize).(lifecycle := Running) && m.scan.Idle?
    ensures Reachable(m)
  {
    BootReachable(n, maxClients, quotas, ports, recordSize);
    var boot := System(BootStack(n, maxClients, quotas, ports, recordSize), Idle);
    ReachableNext(boot, SLifecycle(Running));
    m := Next(boot, SLifecycle(Running));
  }

  /** The first client opens a stream socket. */
  lemma FirstSocket(n: nat, maxClients: nat, quotas: seq<int>, ports: map<int, Dataport>, recordSize: nat, impl: int)
    returns (m: System)
    requires HasClient(n, maxClients, quotas, recordSize) && impl != 0
    ensures Reachable(m) && m.scan.Idle? && HeldFirst(m.t, impl) && m.t.ports == ports && m.t.recordSize == recordSize
    ensures m.t.sockets[0].eventMask == {} && |m.t.sockets| == n
    ensures forall i :: 0 < i < n ==> m.t.sockets[i] == EMPTY_SLOT
    ensures m.t.clients[0].currentSocketsInUse == 1 && m.t.clients[0].socketQuota == quotas[0] && m.t.clients[0].inUse
    ensures m.t.ledger == EMPTY_LEDGER.(obtained := multiset{impl})
  {
    var m0 := StartRunning(n, maxClients, quotas, ports, recordSize);
    ReachableInv(m0);
    IndexOfUnique(m0.t.clients, (c: Client) => c.clientId == MIN_BADGE_ID && c.inUse, 0);
    var s := SCreate(MIN_BADGE_ID, true, true, Stream, impl, Success);
    assert m0.t.sockets[0].status == Free;
    CreateOutcome(m0.t, MIN_BADGE_ID, Stream, impl, Success);
    OpenMakes(m0.t, MIN_BADGE_ID, Stream, impl, Success);
    ReachableNext(m0, s);
    m := Next(m0, s);
    ClientIndexSame(m0.t.clients, m.t.clients, MIN_BADGE_ID);
  }

  /** picoTCP reports events for it. */
  lemma ReportOnFirst(m: System, impl: int, evs: set<PicoEvent>, tcp: TcpState) returns (m': System)
    requires Reachable(m) && HeldFirst(m.t, impl) && impl != 0
    ensures m' == Next(m, SEvent(impl, evs, false, tcp, Success)) && Reachable(m') && m'.scan == m.scan
    ensures HeldFirst(m'.t, impl) && SamePorts(m.t, m'.t)
    ensures m'.t.sockets == m.t.sockets[0 := Raise(m.t.sockets[0], evs, false, Success)]
    ensures m'.t.clients == NeedNotify(m.t.clients, 0)
    ensures PicoFin !in evs ==> m'.t.ledger == m.t.ledger
  {
    var s := SEvent(impl, evs, false, tcp, Success);
    ReachableNext(m, s);
    m' := Next(m, s);
    ClientIndexSame(m.t.clients, m'.t.clients, MIN_BADGE_ID);
    IndexOfUnique(m'.t.sockets, (x: Slot) => x.impl == impl, 0);
  }

  /** It calls connect. */
  lemma ConnectCall(m: System, impl: int) returns (m': System)
    requires Reachable(m) && m.scan.Idle? && HeldFirst(m.t, impl) && impl != 0 && m.t.sockets[0].eventMask == {}
    ensures Reachable(m') && m'.scan.Idle? && HeldFirst(m'.t, impl) && m'.t.ledger == m.t.ledger
    ensures m'.t.sockets[0].eventMask == {}
  {
    var connect := SPlainIo(OpConnect, MIN_BADGE_ID, 0, 0, true, true, PicoResult(0, Success));
    ReachableNext(m, connect);
    m' := Next(m, connect);
    PlainIoMoves(m.t, OpConnect, MIN_BADGE_ID, PicoResult(0, Success), impl);
  }

  lemma PlainIoMoves(t: Stack, op: Op, caller: int, res: PicoResult, impl: int)
    requires HeldFirst(t, impl)
    ensures var u := PlainIo(t, op, caller, 0, 0, true, true, res).0;
            HeldFirst(u, impl) && u.ledger == t.ledger && u.sockets[0].eventMask == t.sockets[0].eventMask
  {
    var u := PlainIo(t, op, caller, 0, 0, true, true, res).0;
    IndexOfUnique(u.sockets, (x: Slot) => x.impl == impl, 0);
  }

  /** It connects, and picoTCP reports the connection. */
  lemma ConnectFirst(m: System, impl: int) returns (m': System)
    requires Reachable(m) && m.scan.Idle? && HeldFirst(m.t, impl) && impl != 0 && m.t.sockets[0].eventMask == {}
    ensures Reachable(m') && m'.scan.Idle? && HeldFirst(m'.t, impl) && m'.t.ledger == m.t.ledger
    ensures m'.t.sockets[0].connected && m'.t.sockets[0].eventMask == {EvConnEst}
  {
    var m1 := ConnectCall(m, impl);
    m' := ReportOnFirst(m1, impl, {PicoConn}, OtherState);
  }

  /** picoTCP finishes it. */
  lemma FinFirst(m: System, impl: int) returns (m': System)
    requires Reachable(m) && HeldFirst(m.t, impl) && impl != 0 && IsLive(m.t.sockets[0])
    ensures Reachable(m') && m'.scan == m.scan && HeldFirst(m'.t, impl) && EvFin in m'.t.sockets[0].eventMask
    ensures m'.t.sockets == m.t.sockets[0 := m'.t.sockets[0]] && m'.t.clients == NeedNotify(m.t.clients, 0)
    ensures m'.t.ledger == m.t.ledger.(finished := m.t.ledger.finished + multiset{impl})
  {
    m' := ReportOnFirst(m, impl, {PicoFin}, OtherState);
    FinLedger(m, impl);
  }

  lemma FinLedger(m: System, impl: int)
    requires Reachable(m) && HeldFirst(m.t, impl) && impl != 0 && IsLive(m.t.sockets[0])
    ensures Callback(m.t, impl, {PicoFin}, false, OtherState, Success).ledger
         == m.t.ledger.(finished := m.t.ledger.finished + multiset{impl})
  {
    ReachableInv(m);
    EventLedger(m.t, impl, {PicoFin}, false, OtherState, Success);
  }

  /** It closes the socket, which is still live. */
  lemma CloseFirst(m: System, impl: int) returns (m': System)
    requires Reachable(m) && m.scan.Idle? && HeldFirst(m.t, impl) && impl != 0 && IsLive(m.t.sockets[0])
    ensures Reachable(m') && m'.scan.Idle? && Fresh(m'.t, impl)
    ensures m'.t.ledger == m.t.ledger.(closed := m.t.ledger.closed + multiset{impl})
  {
    var res := PicoResult(0, Success);
    ReachableInv(m);
    CloseOutcome(m.t, MIN_BADGE_ID, 0, res);
    ReachableNext(m, SClose(MIN_BADGE_ID, 0, res));
    m' := Next(m, SClose(MIN_BADGE_ID, 0, res));
  }

  // ---------------------------------------------------------------- a report beyond the dataport

  /** Whenever the first client's dataport is shorter than a record, a state can be reached in which a
      call with room for one record writes beyond the dataport. */
  lemma ShortDataportIsOverrun(n: nat, maxClients: nat, quotas: seq<int>, ports: map<int, Dataport>, recordSize: nat)
    returns (m: System)
    requires HasClient(n, maxClients, quotas, recordSize) && PortIn(ports, MIN_BADGE_ID).size < recordSize
    ensures Reachable(m) && m.scan.Idle? && ScanError(m.t, MIN_BADGE_ID, recordSize, true) == Success
    ensures S.Callable(m.t, MIN_BADGE_ID) && PortOf(m.t, MIN_BADGE_ID) == PortIn(ports, MIN_BADGE_ID)
    ensures |S.Reported(m.t, MIN_BADGE_ID, recordSize)| * recordSize > PortOf(m.t, MIN_BADGE_ID).size
  {
    var m0 := FirstSocket(n, maxClients, quotas, ports, recordSize, 1);
    m := ReportOnFirst(m0, 1, {PicoRd}, OtherState);
    assert EvRead in m.t.sockets[0].eventMask;
    S.CallFitsIff(m.t, MIN_BADGE_ID, recordSize);
  }

  // ---------------------------------------------------------------- an address closed twice

  /** The peer closes a connection, the client closes the socket, and picoTCP, still shutting it down,
      reports CLOSE_WAIT once more: the address is handed to pico_socket_close a second time. */
  lemma ClosedConnectionIsClosedAgain(n: nat, maxClients: nat, quotas: seq<int>, ports: map<int, Dataport>, recordSize: nat, impl: int)
    returns (m: System, s: Step)
    requires HasClient(n, maxClients, quotas, recordSize) && impl != 0
    ensures Reachable(m) && Enabled(m, s) && ClosesAgain(m, s, impl)
    ensures GivenBack(Next(m, s).t, impl) == 2 && Next(m, s).t.ledger.obtained == multiset{impl}
  {
    var m0 := FirstSocket(n, maxClients, quotas, ports, recordSize, impl);
    var m1 := ConnectFirst(m0, impl);
    var m2 := ReportOnFirst(m1, impl, {PicoClose}, CloseWait);
    m := CloseFirst(m2, impl);
    s := SEvent(impl, {PicoClose}, false, CloseWait, Success);
    AgainAtCloseWait(m, s);
  }

  lemma AgainAtCloseWait(m: System, s: Step)
    requires Reachable(m) && s.SEvent? && s.impl != 0 && s.tcp == CloseWait && Fresh(m.t, s.impl)
    requires GivenBack(m.t, s.impl) > 0
    ensures ClosesAgain(m, s, s.impl)
    ensures GivenBack(Next(m, s).t, s.impl) == GivenBack(m.t, s.impl) + 1
    ensures Next(m, s).t.ledger.obtained == m.t.ledger.obtained
  {
    ReachableInv(m);
    ClosesAgainIff(m, s, s.impl);
    EventLedger(m.t, s.impl, s.evs, s.listening, s.tcp, s.err);
  }

  /** A connection that was never accepted is handed to pico_socket_close at each report of CLOSE_WAIT. */
  lemma PendingConnectionIsClosedAgain(n: nat, maxClients: nat, quotas: seq<int>, ports: map<int, Dataport>, recordSize: nat,
                                       listener: int, p: int)
    returns (m: System, s: Step)
    requires HasClient(n, maxClients, quotas, recordSize) && listener != 0 && p != 0 && p != listener
    ensures Reachable(m) && HeldFirst(m.t, listener) && Enabled(m, s) && ClosesAgain(m, s, p)
    ensures GivenBack(Next(m, s).t, p) == 2 && p !in Next(m, s).t.ledger.obtained
  {
    var m0 := FirstSocket(n, maxClients, quotas, ports, recordSize, listener);
    ReachableInv(m0);
    HandleOfInUse(m0.t, p);
    s := SEvent(p, {PicoClose}, false, CloseWait, Success);
    ReachableNext(m0, s);
    m := Next(m0, s);
    AgainAtCloseWait(m, s);
  }

  // ---------------------------------------------------------------- an address used again after FIN

  /** What picoTCP's promise not to hand out an address that a slot in use still holds is needed for: from a
      reachable state in which slot 0 has seen FIN, create at the same address and FIN for the new
      socket. picoTCP handed out two sockets and finished two, but only the first is booked, and the
      next call on the new handle is admitted. */
  lemma SecondFinIsMissed(n: nat, maxClients: nat, quotas: seq<int>, ports: map<int, Dataport>, recordSize: nat, impl: int)
    returns (m: System)
    requires HasClient(n, maxClients, quotas, recordSize) && n >= 2 && quotas[0] >= 2 && impl != 0
    ensures Reachable(m) && m.scan.Idle? && m.t.ledger.finished[impl] == 1 && NotLive(m.t, impl) && !Fresh(m.t, impl)
    ensures var (u, r) := Create(m.t, MIN_BADGE_ID, true, true, Stream, impl, Success);
            var w := Callback(u, impl, {PicoFin}, false, OtherState, Success);
            && r == Reply(Success, 1) && w.ledger.obtained[impl] == 2 && w.ledger.finished[impl] == 1
            && EntryError(w, OpListen, MIN_BADGE_ID, r.value, 0, true, true) == Success
  {
    var m0 := FirstSocket(n, maxClients, quotas, ports, recordSize, impl);
    m := FinFirst(m0, impl);
    ReachableInv(m);
    SecondFin(m.t, impl);
  }

  lemma SecondFin(t: Stack, impl: int)
    requires Inv(t) && HeldFirst(t, impl) && impl != 0 && EvFin in t.sockets[0].eventMask && BelowQuota(t, 0)
    requires |t.sockets| >= 2 && forall i :: 0 < i < |t.sockets| ==> t.sockets[i] == EMPTY_SLOT
    requires t.ledger.obtained[impl] == 1 && t.ledger.finished[impl] == 1
    ensures var (u, r) := Create(t, MIN_BADGE_ID, true, true, Stream, impl, Success);
            var w := Callback(u, impl, {PicoFin}, false, OtherState, Success);
            && r == Reply(Success, 1) && w.ledger.obtained[impl] == 2 && w.ledger.finished[impl] == 1
            && EntryError(w, OpListen, MIN_BADGE_ID, r.value, 0, true, true) == Success
  {
    IndexOfUnique(t.sockets, (x: Slot) => x.status == Free, 1);
    assert t.sockets[1].status == Free;
    assert HeldBefore(t.sockets, 1, impl);
    ReusedAddress(t, MIN_BADGE_ID, Stream, impl, Success);
    OpenMakes(t, MIN_BADGE_ID, Stream, impl, Success);
    HeardListens(t, Create(t, MIN_BADGE_ID, true, true, Stream, impl, Success).0, impl);
  }

  // The new handle in slot 1 hears nothing and may still be called.
  lemma HeardListens(t: Stack, u: Stack, impl: int)
    requires |u.sockets| >= 2 && Hears(u, 1, impl, true) && u.lifecycle == Running
    requires IsLive(u.sockets[1]) && u.sockets[1].impl != 0 && u.sockets[1].clientId == MIN_BADGE_ID
    requires u.sockets[1].socketType == Stream
    requires u.ledger == Obtain(t, impl).ledger
    ensures var w := Callback(u, impl, {PicoFin}, false, OtherState, Success);
            && w.ledger.obtained[impl] == t.ledger.obtained[impl] + 1 && w.ledger.finished == t.ledger.finished
            && EntryError(w, OpListen, MIN_BADGE_ID, 1, 0, true, true) == Success
  {
  }

  // ---------------------------------------------------------------- a READ that nobody hears of

  /** A read finds the queue empty and releases the mutex, data come and READ is raised, and the read clears
      it: the client is not told of these data until more come. */
  lemma ReadIsLost(n: nat, maxClients: nat, quotas: seq<int>, ports: map<int, Dataport>, recordSize: nat, impl: int)
    returns (m: System)
    requires HasClient(n, maxClients, quotas, recordSize) && impl != 0
    ensures Reachable(m) && Enabled(m, SClearRead) && Raised(m, 0, EvRead)
    ensures !Raised(Next(m, SClearRead), 0, EvRead)
  {
    var m0 := FirstSocket(n, maxClients, quotas, ports, recordSize, impl);
    var m1 := ConnectFirst(m0, impl);
    var read := SRead(MIN_BADGE_ID, 0, 1, true, PicoResult(0, Success));
    AdmittedIff(m1, OpRead, MIN_BADGE_ID, 0, 1, true, true);
    ReachableNext(m1, read);
    var m2 := Next(m1, read);
    assert m2.t.sockets == m1.t.sockets[0 := m1.t.sockets[0].(currentError := Success)];
    IndexOfUnique(m2.t.sockets, (x: Slot) => x.impl == impl, 0);
    m := ReportOnFirst(m2, impl, {PicoRd}, OtherState);
  }
}
