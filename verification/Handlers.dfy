/** The RPC handlers, the picoTCP event callback and the tick's notify pass, each as one change of the
    shared state, and the proof that each keeps the invariant. */
module Handlers {
  import opened Types
  import opened SocketTable

  // ---------------------------------------------------------------- guards

  datatype Op = OpClose | OpConnect | OpBind | OpListen | OpAccept | OpWrite | OpRead | OpSendTo | OpRecvFrom

  // The socket type a handler insists on; NoType when it takes any.
  function RequiredType(op: Op): SocketType
  {
    match op
    case OpClose | OpBind => NoType
    case OpSendTo | OpRecvFrom => Dgram
    case _ => Stream
  }

  predicate NeedsConnected(op: Op) { op == OpWrite || op == OpRead }

  // Close and listen have no pointer arguments to check.
  predicate ChecksArguments(op: Op) { op != OpClose && op != OpListen }

  predicate TakesAddress(op: Op) { op == OpConnect || op == OpBind || op == OpSendTo }

  predicate CarriesData(op: Op) { op == OpWrite || op == OpRead || op == OpSendTo || op == OpRecvFrom }

  function LifecycleError(l: Lifecycle): OsError
  {
    if l == Running then Success else if l == FatalError then Aborted else NotInitialized
  }

  /** The checks of the RPC front end, in the order the source makes them. */
  function Guard(t: Stack, op: Op, caller: int, h: int, argsOk: bool): OsError
  {
    if LifecycleError(t.lifecycle) != Success then LifecycleError(t.lifecycle)
    else if !(0 <= h < |t.sockets|) then InvalidHandle
    else
      var x := t.sockets[h];
      if RequiredType(op) != NoType && x.socketType != RequiredType(op) then NetworkProto
      else if NeedsConnected(op) && !x.connected then ConnNone
      else if x.clientId != caller then InvalidHandle
      else if ChecksArguments(op) && !argsOk then InvalidParameter
      else Success
  }

  /** The checks at the start of every picoTCP wrapper but close. */
  function Admit(x: Slot): OsError
  {
    if EvFin in x.eventMask then ConnectionClosed else if x.impl == 0 then InvalidHandle else Success
  }

  // The length a handler works with: once the guard has passed, what carries data is clamped.
  function EntryLen(t: Stack, op: Op, caller: int, h: int, len: nat, argsOk: bool): nat
  {
    if CarriesData(op) && Guard(t, op, caller, h, argsOk) == Success then Clamp(t, caller, len) else len
  }

  /** Everything a handler other than close checks before it calls picoTCP, for a length of n. */
  function EntryError(t: Stack, op: Op, caller: int, h: int, n: nat, argsOk: bool, addrOk: bool): OsError
  {
    var g := Guard(t, op, caller, h, argsOk);
    if g != Success then g
    else if Admit(t.sockets[h]) != Success then Admit(t.sockets[h])
    else if CarriesData(op) && n > t.sockets[h].buf.size then InvalidParameter
    else if TakesAddress(op) && !addrOk then InvalidParameter
    else Success
  }

  /** Records that the picoTCP socket of slot h is handed to picoTCP. */
  function Pass(t: Stack, h: int): Stack
    requires 0 <= h < |t.sockets|
  {
    t.(staleUse := t.staleUse || !IsLive(t.sockets[h]))
  }

  function SetSlot(t: Stack, h: int, x: Slot): Stack
    requires 0 <= h < |t.sockets|
  {
    t.(sockets := t.sockets[h := x])
  }

  // A requested length, reduced to the size of the caller's dataport.
  function Clamp(t: Stack, caller: int, len: nat): nat
  {
    if len > PortOf(t, caller).size then PortOf(t, caller).size else len
  }

  function Obtain(t: Stack, impl: int): Stack
  {
    t.(ledger := t.ledger.(obtained := t.ledger.obtained + multiset{impl}))
  }

  function HandBack(t: Stack, impl: int): Stack
  {
    t.(ledger := t.ledger.(closed := t.ledger.closed + multiset{impl}))
  }

  // ---------------------------------------------------------------- create, close

  /** Create once the guards have passed; impl is what picoTCP's open returned. */
  function Open(t: Stack, caller: int, ty: SocketType, impl: int, err: OsError): (Stack, Reply)
  {
    if impl == 0 then (t, Reply(err, -1))
    else
      var (u, h) := Reserve(Obtain(t, impl), impl, caller);
      if h == -1 then (HandBack(u, impl), Reply(InsufficientSpace, -1))
      else (SetSlot(u, h, u.sockets[h].(socketType := ty, buf := PortOf(t, caller), currentError := err)), Reply(Success, h))
  }

  function Create(t: Stack, caller: int, argsOk: bool, domainOk: bool, ty: SocketType, impl: int, err: OsError): (Stack, Reply)
  {
    if LifecycleError(t.lifecycle) != Success then (t, Reply(LifecycleError(t.lifecycle), -1))
    else if !argsOk then (t, Reply(InvalidParameter, -1))
    else if !domainOk || (ty != Stream && ty != Dgram) then (t, Reply(ProtoNoSupport, -1))
    else Open(t, caller, ty, impl, err)
  }

  function Close(t: Stack, caller: int, h: int, res: PicoResult): (Stack, Reply)
  {
    var e := Guard(t, OpClose, caller, h, true);
    if e != Success then (t, Reply(e, 0))
    else
      var x := t.sockets[h];
      if EvFin in x.eventMask then (Release(t, h, caller), Reply(Success, 0))
      else if x.impl == 0 then (t, Reply(InvalidHandle, 0))
      else
        var u := SetSlot(HandBack(Pass(t, h), x.impl), h,
                         x.(currentError := res.err, eventMask := x.eventMask - {EvClose}));
        (Release(u, h, caller), Reply(if res.ret < 0 then res.err else Success, 0))
  }

  // ---------------------------------------------------------------- connect, bind, listen, write, sendto

  // The length out-parameter after a call: only handlers that carry data write it.
  function LengthAfter(op: Op, n: nat, res: PicoResult): int
  {
    if !CarriesData(op) then n else if res.ret < 0 then 0 else res.ret
  }

  /** The five handlers that make one picoTCP call and keep only its error code. */
  function PlainIo(t: Stack, op: Op, caller: int, h: int, len: nat, argsOk: bool, addrOk: bool, res: PicoResult): (Stack, Reply)
  {
    var n := EntryLen(t, op, caller, h, len, argsOk);
    var e := EntryError(t, op, caller, h, n, argsOk, addrOk);
    if e != Success then (t, Reply(e, n))
    else (SetSlot(Pass(t, h), h, t.sockets[h].(currentError := res.err)),
          Reply(if res.ret < 0 then res.err else Success, LengthAfter(op, n, res)))
  }

  // ---------------------------------------------------------------- accept

  // One connection request less; the accept event goes with the last one.
  function OneAccepted(x: Slot, err: OsError): Slot
  {
    var p := if x.pendingConnections > 0 then x.pendingConnections - 1 else x.pendingConnections;
    x.(currentError := err, pendingConnections := p,
       eventMask := if p == 0 then x.eventMask - {EvConnAcpt} else x.eventMask)
  }

  /** What accept does with a connection that picoTCP gave it for the listener in slot h. */
  function Keep(t: Stack, caller: int, h: int, impl: int): (Stack, Reply)
    requires 0 <= h < |t.sockets|
  {
    var (u, k) := Reserve(Obtain(t, impl), impl, t.sockets[h].clientId);
    if k == -1 then (HandBack(u, impl), Reply(InsufficientSpace, -1))
    else
      var w := SetParent(u, k, h);
      // The early return that would leave the thread-safety mutex locked.
      if w.sockets[k].clientId != caller then (w.(tsLocked := true), Reply(InvalidHandle, k))
      else (SetSlot(w, k, w.sockets[k].(socketType := Stream, connected := true, buf := w.sockets[h].buf)), Reply(Success, k))
  }

  function Accept(t: Stack, caller: int, h: int, argsOk: bool, impl: int, err: OsError): (Stack, Reply)
  {
    var e := EntryError(t, OpAccept, caller, h, 0, argsOk, true);
    if e != Success then (t, Reply(e, -1))
    else
      var u := SetSlot(Pass(t, h), h, OneAccepted(t.sockets[h], err));
      if impl == 0 then (u, Reply(err, -1)) else Keep(u, caller, h, impl)
  }

  // ---------------------------------------------------------------- read, recvfrom

  function DropRead(x: Slot, err: OsError, drained: bool): Slot
  {
    x.(currentError := err, eventMask := if drained then x.eventMask - {EvRead} else x.eventMask)
  }

  function Receive(t: Stack, op: Op, caller: int, h: int, len: nat, argsOk: bool, res: PicoResult, drained: bool, empty: bool): (Stack, Reply)
  {
    var n := EntryLen(t, op, caller, h, len, argsOk);
    var e := EntryError(t, op, caller, h, n, argsOk, true);
    if e != Success then (t, Reply(e, n))
    else (SetSlot(Pass(t, h), h, DropRead(t.sockets[h], res.err, drained)),
          if res.ret < 0 then Reply(res.err, 0) else Reply(if empty then TryAgain else Success, res.ret))
  }

  /** The part of a read or recvfrom that comes after the mutex is released: READ goes. */
  function ClearRead(t: Stack, h: int): Stack
    requires 0 <= h < |t.sockets|
  {
    SetSlot(t, h, t.sockets[h].(eventMask := t.sockets[h].eventMask - {EvRead}))
  }

  predicate MayReceive(t: Stack, op: Op, caller: int, h: int, len: nat, argsOk: bool)
  {
    EntryError(t, op, caller, h, EntryLen(t, op, caller, h, len, argsOk), argsOk, true) == Success
  }

  /** Read and recvfrom in their two parts, with nothing in between. */
  lemma ReceiveInTwoParts(t: Stack, op: Op, caller: int, h: int, len: nat, argsOk: bool, res: PicoResult, drained: bool, empty: bool)
    ensures var u := Receive(t, op, caller, h, len, argsOk, res, false, empty).0;
            && |u.sockets| == |t.sockets|
            && Receive(t, op, caller, h, len, argsOk, res, drained, empty).0
            == if MayReceive(t, op, caller, h, len, argsOk) && drained then ClearRead(u, h) else u
  {
    if MayReceive(t, op, caller, h, len, argsOk) {
      var x := DropRead(t.sockets[h], res.err, false);
      assert t.sockets[h := x][h := DropRead(t.sockets[h], res.err, true)] == t.sockets[h := DropRead(t.sockets[h], res.err, true)];
    }
  }

  // A read that returns less than asked for has emptied the queue.
  predicate ReadDrains(t: Stack, caller: int, len: nat, res: PicoResult)
  {
    res.ret <= 0 || Clamp(t, caller, len) > res.ret
  }

  // A datagram queue is empty when nothing came and the source address was not filled in.
  predicate RecvFromDrains(res: PicoResult, srcAddr: int, srcPort: int)
  {
    res.ret < 0 || (res.ret == 0 && srcAddr == 0 && srcPort == 0)
  }

  function ReadRpc(t: Stack, caller: int, h: int, len: nat, argsOk: bool, res: PicoResult): (Stack, Reply)
  {
    Receive(t, OpRead, caller, h, len, argsOk, res, ReadDrains(t, caller, len, res), res.ret == 0)
  }

  function RecvFromRpc(t: Stack, caller: int, h: int, len: nat, argsOk: bool, res: PicoResult, srcAddr: int, srcPort: int): (Stack, Reply)
  {
    var drained := RecvFromDrains(res, srcAddr, srcPort);
    Receive(t, OpRecvFrom, caller, h, len, argsOk, res, drained, drained)
  }

  // ---------------------------------------------------------------- the callback

  /** Whether one picoTCP event report sets this event: a connection means a request on a listening
      socket and an established connection on any other, a refused connection also means FIN. */
  predicate Raises(ev: Event, evs: set<PicoEvent>, listening: bool, err: OsError)
  {
    || (ev == EvConnAcpt && PicoConn in evs && listening)
    || (ev == EvConnEst && PicoConn in evs && !listening)
    || (ev == EvRead && PicoRd in evs)
    || (ev == EvWrite && PicoWr in evs)
    || (ev == EvClose && PicoClose in evs)
    || (ev == EvFin && (PicoFin in evs || (PicoErr in evs && err == ConnRefused)))
    || (ev == EvError && PicoErr in evs)
  }

  function RaisedBy(evs: set<PicoEvent>, listening: bool, err: OsError): set<Event>
  {
    set ev: Event | Raises(ev, evs, listening, err)
  }

  function Raise(x: Slot, evs: set<PicoEvent>, listening: bool, err: OsError): Slot
  {
    x.(eventMask := x.eventMask + RaisedBy(evs, listening, err),
       pendingConnections := x.pendingConnections + if PicoConn in evs && listening then 1 else 0,
       connected := x.connected || (PicoConn in evs && !listening),
       currentError := if PicoErr in evs then err else x.currentError)
  }

  function NeedNotify(cs: seq<Client>, ci: int): seq<Client>
    requires 0 <= ci < |cs|
  {
    cs[ci := cs[ci].(needsToBeNotified := true)]
  }

  /** Slot h becomes y; if FIN made it lose its picoTCP socket, the ledger says so. */
  function Landed(t: Stack, h: int, y: Slot): Stack
    requires 0 <= h < |t.sockets|
  {
    var newlyDead := if IsLive(t.sockets[h]) && !IsLive(y) then multiset{y.impl} else multiset{};
    SetSlot(t.(ledger := t.ledger.(finished := t.ledger.finished + newlyDead)), h, y)
  }

  function Callback(t: Stack, impl: int, evs: set<PicoEvent>, listening: bool, tcp: TcpState, err: OsError): Stack
  {
    var h := HandleOf(t.sockets, impl);
    if h < 0 then
      if tcp == CloseWait then t.(ledger := t.ledger.(orphans := t.ledger.orphans + multiset{impl})) else t
    else
      var x := t.sockets[h];
      var u := Landed(t, h, Raise(x, evs, listening, err));
      var ci := ClientIndex(u.clients, x.clientId);
      if ci < 0 then u.(nullDeref := true) else u.(clients := NeedNotify(u.clients, ci))
  }

  // ---------------------------------------------------------------- the tick's notify pass

  predicate HasPending(ss: seq<Slot>, id: int)
  {
    exists j :: 0 <= j < |ss| && ss[j].status == InUse && ss[j].eventMask != {} && ss[j].clientId == id
  }

  /** Whether the notify pass signals (or tries to signal) this client. */
  predicate Due(t: Stack, c: Client)
  {
    c.inUse && (c.needsToBeNotified || HasPending(t.sockets, c.clientId))
  }

  function Unflag(c: Client): Client
  {
    if c.inUse then c.(needsToBeNotified := false) else c
  }

  function Tick(t: Stack): Stack
  {
    t.(clients := seq(|t.clients|, i requires 0 <= i < |t.clients| => Unflag(t.clients[i])))
  }

  // ---------------------------------------------------------------- what a handler leaves alone

  // Only the counter of client `caller` moved.
  predicate ClientsFrame(cs: seq<Client>, us: seq<Client>, caller: int)
  {
    && |us| == |cs|
    && forall i :: 0 <= i < |cs| ==>
      || us[i] == cs[i]
      || (cs[i].inUse && cs[i].clientId == caller && us[i] == cs[i].(currentSocketsInUse := us[i].currentSocketsInUse))
  }

  // Only slots that `caller` owned, or free slots that it took, moved.
  predicate SlotFrame(x: Slot, y: Slot, caller: int)
  {
    y == x || (x.clientId == caller && (y.clientId == caller || y.clientId == -1))
           || (x.status == Free && y.clientId == caller)
  }

  predicate SlotsFrame(ss: seq<Slot>, us: seq<Slot>, caller: int)
  {
    |us| == |ss| && forall i :: 0 <= i < |ss| ==> SlotFrame(ss[i], us[i], caller)
  }

  /** From t to u only what belongs to client `caller` moved: slots it owned, free slots that it
      took, and its own counter. */
  predicate CallerOnly(t: Stack, u: Stack, caller: int)
  {
    ClientsFrame(t.clients, u.clients, caller) && SlotsFrame(t.sockets, u.sockets, caller)
  }

  lemma CountUpFrame(cs: seq<Client>, id: int, delta: int)
    requires ClientIndex(cs, id) >= 0
    ensures ClientsFrame(cs, CountUp(cs, ClientIndex(cs, id), delta), id)
  {
  }

  // The slot in which a socket opened for `caller` is kept.
  function OpenedSlot(x: Slot, caller: int, ty: SocketType, impl: int, err: OsError, buf: Dataport): Slot
  {
    x.(status := InUse, impl := impl, parentHandle := -1, currentError := err, clientId := caller,
       pendingConnections := 0, socketType := ty, connected := false, buf := buf)
  }

  // Open, field by field, on any table.
  lemma OpenMakes(t: Stack, caller: int, ty: SocketType, impl: int, err: OsError)
    requires impl != 0
    ensures var (u, r) := Open(t, caller, ty, impl, err);
            var k := Reserve(t, impl, caller).1;
            if k == -1 then u == HandBack(Obtain(t, impl), impl) && r == Reply(InsufficientSpace, -1)
            else
              && ClientIndex(t.clients, caller) >= 0 && t.sockets[k].status == Free && r == Reply(Success, k)
              && u == Obtain(t, impl).(sockets := t.sockets[k := OpenedSlot(t.sockets[k], caller, ty, impl, err, PortOf(t, caller))],
                                       clients := CountUp(t.clients, ClientIndex(t.clients, caller), 1))
  {
    var k := Reserve(t, impl, caller).1;
    assert Reserve(Obtain(t, impl), impl, caller).1 == k;
    if k != -1 {
      var u := Open(t, caller, ty, impl, err).0;
      assert u.sockets == t.sockets[k := u.sockets[k]];
    }
  }

  // Taking a free slot for `caller` and counting it.
  lemma TakeFrame(t: Stack, u: Stack, caller: int, k: int, x: Slot)
    requires 0 <= k < |t.sockets| && t.sockets[k].status == Free && x.clientId == caller
    requires u.sockets == t.sockets[k := x] && ClientIndex(t.clients, caller) >= 0
    requires u.clients == CountUp(t.clients, ClientIndex(t.clients, caller), 1)
    ensures CallerOnly(t, u, caller)
  {
    CountUpFrame(t.clients, caller, 1);
  }

  lemma OpenFrame(t: Stack, caller: int, ty: SocketType, impl: int, err: OsError)
    ensures CallerOnly(t, Open(t, caller, ty, impl, err).0, caller)
  {
    if impl != 0 {
      OpenMakes(t, caller, ty, impl, err);
      var k := Reserve(t, impl, caller).1;
      if k != -1 {
        TakeFrame(t, Open(t, caller, ty, impl, err).0, caller, k, OpenedSlot(t.sockets[k], caller, ty, impl, err, PortOf(t, caller)));
      }
    }
  }

  lemma CreateFrame(t: Stack, caller: int, argsOk: bool, domainOk: bool, ty: SocketType, impl: int, err: OsError)
    ensures CallerOnly(t, Create(t, caller, argsOk, domainOk, ty, impl, err).0, caller)
  {
    OpenFrame(t, caller, ty, impl, err);
  }

  // What close does to the tables, in every case.
  lemma CloseShape(t: Stack, caller: int, h: int, res: PicoResult)
    requires 0 <= h < |t.sockets|
    ensures var (u, r) := Close(t, caller, h, res);
            var x := t.sockets[h];
            var g := Guard(t, OpClose, caller, h, true);
            var ci := ClientIndex(t.clients, caller);
            if g != Success then u == t && r == Reply(g, 0)
            else if EvFin !in x.eventMask && x.impl == 0 then u == t && r == Reply(InvalidHandle, 0)
            else
              && r == Reply(if EvFin !in x.eventMask && res.ret < 0 then res.err else Success, 0)
              && u.lifecycle == t.lifecycle && u.recordSize == t.recordSize && u.ports == t.ports
              && (ci >= 0 ==> u.sockets == t.sockets[h := Cleared(x)] && u.clients == CountUp(t.clients, ci, -1))
              && (ci < 0 ==> u.clients == t.clients && u.sockets == t.sockets[h :=
                    if EvFin in x.eventMask then x else x.(currentError := res.err, eventMask := x.eventMask - {EvClose})])
  {
    var x := t.sockets[h];
    if Guard(t, OpClose, caller, h, true) == Success && EvFin !in x.eventMask && x.impl != 0 {
      var y := x.(currentError := res.err, eventMask := x.eventMask - {EvClose});
      assert Cleared(y) == Cleared(x);
      assert t.sockets[h := y][h := Cleared(y)] == t.sockets[h := Cleared(x)];
    }
  }

  lemma CloseFrame(t: Stack, caller: int, h: int, res: PicoResult)
    ensures CallerOnly(t, Close(t, caller, h, res).0, caller)
  {
    if 0 <= h < |t.sockets| {
      CloseShape(t, caller, h, res);
      if ClientIndex(t.clients, caller) >= 0 {
        CountUpFrame(t.clients, caller, -1);
      }
    }
  }

  lemma PlainIoFrame(t: Stack, op: Op, caller: int, h: int, len: nat, argsOk: bool, addrOk: bool, res: PicoResult)
    ensures CallerOnly(t, PlainIo(t, op, caller, h, len, argsOk, addrOk, res).0, caller)
  {
  }

  lemma ReceiveFrame(t: Stack, op: Op, caller: int, h: int, len: nat, argsOk: bool, res: PicoResult, drained: bool, empty: bool)
    ensures CallerOnly(t, Receive(t, op, caller, h, len, argsOk, res, drained, empty).0, caller)
  {
  }

  // The slot in which a connection accepted for the listener in slot h is kept.
  function KeptSlot(x: Slot, caller: int, h: int, impl: int, buf: Dataport): Slot
  {
    x.(status := InUse, impl := impl, parentHandle := h, currentError := Success, clientId := caller,
       pendingConnections := 0, socketType := Stream, connected := true, buf := buf)
  }

  // Keep, field by field, on any table.
  lemma KeepMakes(t: Stack, caller: int, h: int, impl: int)
    requires 0 <= h < |t.sockets| && t.sockets[h].clientId == caller
    ensures var (w, r) := Keep(t, caller, h, impl);
            var k := Reserve(t, impl, caller).1;
            if k == -1 then w == HandBack(Obtain(t, impl), impl) && r == Reply(InsufficientSpace, -1)
            else
              && ClientIndex(t.clients, caller) >= 0 && t.sockets[k].status == Free && r == Reply(Success, k)
              && w == Obtain(t, impl).(sockets := t.sockets[k := KeptSlot(t.sockets[k], caller, h, impl, t.sockets[h].buf)],
                                       clients := CountUp(t.clients, ClientIndex(t.clients, caller), 1))
  {
    var k := Reserve(t, impl, caller).1;
    assert Reserve(Obtain(t, impl), impl, caller).1 == k;
    if k != -1 {
      var w := Keep(t, caller, h, impl).0;
      assert w.sockets == t.sockets[k := w.sockets[k]];
    }
  }

  lemma AcceptIsKeep(t: Stack, caller: int, h: int, argsOk: bool, impl: int, err: OsError)
    requires EntryError(t, OpAccept, caller, h, 0, argsOk, true) == Success
    ensures var u := SetSlot(Pass(t, h), h, OneAccepted(t.sockets[h], err));
            && u.sockets[h].clientId == caller && u.clients == t.clients && |u.sockets| == |t.sockets|
            && u.sockets[h].status == t.sockets[h].status && u.sockets[h].buf == t.sockets[h].buf
            && Accept(t, caller, h, argsOk, impl, err) == if impl == 0 then (u, Reply(err, -1)) else Keep(u, caller, h, impl)
  {
  }

  lemma KeepFrame(t: Stack, caller: int, h: int, impl: int)
    requires 0 <= h < |t.sockets| && t.sockets[h].clientId == caller
    ensures CallerOnly(t, Keep(t, caller, h, impl).0, caller)
  {
    KeepMakes(t, caller, h, impl);
    var k := Reserve(t, impl, caller).1;
    if k != -1 {
      TakeFrame(t, Keep(t, caller, h, impl).0, caller, k, KeptSlot(t.sockets[k], caller, h, impl, t.sockets[h].buf));
    }
  }

  lemma AcceptFrame(t: Stack, caller: int, h: int, argsOk: bool, impl: int, err: OsError)
    ensures CallerOnly(t, Accept(t, caller, h, argsOk, impl, err).0, caller)
  {
    if EntryError(t, OpAccept, caller, h, 0, argsOk, true) == Success {
      AcceptIsKeep(t, caller, h, argsOk, impl, err);
      var u := SetSlot(Pass(t, h), h, OneAccepted(t.sockets[h], err));
      KeepFrame(u, caller, h, impl);
      var w := Accept(t, caller, h, argsOk, impl, err).0;
      assert forall i :: 0 <= i < |t.sockets| && i != h ==> u.sockets[i] == t.sockets[i];
      assert SlotsFrame(t.sockets, w.sockets, caller);
    }
  }

  // ---------------------------------------------------------------- each step keeps the invariant

  /** A picoTCP socket nobody keeps: obtained and handed back. */
  lemma ObtainHandBack(t: Stack, impl: int)
    requires Inv(t)
    ensures Inv(HandBack(Obtain(t, impl), impl))
  {
    var u := HandBack(Obtain(t, impl), impl);
    SlotsOkSameClients(t, u);
    forall i | 0 <= i < |u.clients| ensures ClientOk(u, u.clients[i]) {
      assert ClientOk(t, t.clients[i]);
    }
  }

  lemma CreateKeepsInv(t: Stack, caller: int, argsOk: bool, domainOk: bool, ty: SocketType, impl: int, err: OsError)
    requires Inv(t) && (impl != 0 ==> Fresh(t, impl))
    ensures Inv(Create(t, caller, argsOk, domainOk, ty, impl, err).0)
  {
    if Create(t, caller, argsOk, domainOk, ty, impl, err).0 != t {
      OpenMakes(t, caller, ty, impl, err);
      var k := Reserve(t, impl, caller).1;
      if k == -1 {
        ObtainHandBack(t, impl);
      } else {
        assert SlotOk(t, t.sockets[k]);
        InstallKeepsInv(t, k, OpenedSlot(t.sockets[k], caller, ty, impl, err, PortOf(t, caller)));
      }
    }
  }

  /** A slot that a client may operate on: registered owner, in use. */
  lemma GuardedSlot(t: Stack, op: Op, caller: int, h: int, argsOk: bool)
    requires Inv(t) && Guard(t, op, caller, h, argsOk) == Success
    ensures var x := t.sockets[h];
            (x.status == InUse && x.impl != 0 && ClientIndex(t.clients, caller) >= 0 && x.buf == PortOf(t, caller))
            || (x.status == Free && x.impl == 0 && x.eventMask == {})
  {
    assert SlotOk(t, t.sockets[h]);
  }

  lemma CloseKeepsInv(t: Stack, caller: int, h: int, res: PicoResult)
    requires Inv(t)
    ensures Inv(Close(t, caller, h, res).0)
  {
    if Guard(t, OpClose, caller, h, true) == Success {
      GuardedSlot(t, OpClose, caller, h, true);
      var x := t.sockets[h];
      if x.status == InUse {
        ReleaseKeepsInv(t, h);
        var u := Close(t, caller, h, res).0;
        var v := Release(t.(ledger := t.ledger.(closed := t.ledger.closed + LiveOf(x))), h, caller);
        assert u.sockets == v.sockets;
        assert u.ledger.closed == v.ledger.closed;
        assert u == v;
      }
    }
  }

  /** Handing a live slot's socket to picoTCP and updating the slot. */
  lemma PassKeepsInv(t: Stack, h: int, x: Slot)
    requires Inv(t) && 0 <= h < |t.sockets| && IsLive(t.sockets[h]) && IsLive(x)
    requires x.clientId == t.sockets[h].clientId && x.impl == t.sockets[h].impl && SlotOk(t, x)
    ensures Inv(SetSlot(Pass(t, h), h, x))
  {
    TouchSlot(t, h, x);
    assert Pass(t, h) == t;
  }

  lemma PlainIoKeepsInv(t: Stack, op: Op, caller: int, h: int, len: nat, argsOk: bool, addrOk: bool, res: PicoResult)
    requires Inv(t)
    ensures Inv(PlainIo(t, op, caller, h, len, argsOk, addrOk, res).0)
  {
    if PlainIo(t, op, caller, h, len, argsOk, addrOk, res).0 != t {
      assert SlotOk(t, t.sockets[h]);
      PassKeepsInv(t, h, t.sockets[h].(currentError := res.err));
    }
  }

  lemma ReceiveKeepsInv(t: Stack, op: Op, caller: int, h: int, len: nat, argsOk: bool, res: PicoResult, drained: bool, empty: bool)
    requires Inv(t)
    ensures Inv(Receive(t, op, caller, h, len, argsOk, res, drained, empty).0)
  {
    if Receive(t, op, caller, h, len, argsOk, res, drained, empty).0 != t {
      assert SlotOk(t, t.sockets[h]);
      PassKeepsInv(t, h, DropRead(t.sockets[h], res.err, drained));
    }
  }

  lemma KeepKeepsInv(t: Stack, caller: int, h: int, impl: int)
    requires Inv(t) && impl != 0 && Fresh(t, impl) && 0 <= h < |t.sockets| && t.sockets[h].clientId == caller
    requires t.sockets[h].status == InUse
    ensures Inv(Keep(t, caller, h, impl).0)
  {
    KeepMakes(t, caller, h, impl);
    var (v, k) := Reserve(t, impl, caller);
    if k == -1 {
      ObtainHandBack(t, impl);
    } else {
      assert SlotOk(t, t.sockets[h]) && SlotOk(t, t.sockets[k]);
      InstallKeepsInv(t, k, KeptSlot(t.sockets[k], caller, h, impl, t.sockets[h].buf));
    }
  }

  lemma AcceptKeepsInv(t: Stack, caller: int, h: int, argsOk: bool, impl: int, err: OsError)
    requires Inv(t) && (impl != 0 ==> Fresh(t, impl))
    ensures Inv(Accept(t, caller, h, argsOk, impl, err).0)
  {
    if EntryError(t, OpAccept, caller, h, 0, argsOk, true) == Success {
      assert SlotOk(t, t.sockets[h]);
      PassKeepsInv(t, h, OneAccepted(t.sockets[h], err));
      AcceptIsKeep(t, caller, h, argsOk, impl, err);
      if impl != 0 {
        KeepKeepsInv(SetSlot(Pass(t, h), h, OneAccepted(t.sockets[h], err)), caller, h, impl);
      }
    }
  }

  lemma HandleOfInUse(t: Stack, impl: int)
    requires Inv(t) && impl != 0
    ensures var h := HandleOf(t.sockets, impl); h >= 0 ==> t.sockets[h].status == InUse
  {
    var h := HandleOf(t.sockets, impl);
    if h >= 0 {
      assert SlotOk(t, t.sockets[h]);
    }
  }

  lemma LandedKeepsInv(t: Stack, h: int, y: Slot)
    requires Inv(t) && 0 <= h < |t.sockets| && t.sockets[h].status == y.status == InUse
    requires IsLive(y) ==> IsLive(t.sockets[h])
    requires y.clientId == t.sockets[h].clientId && y.impl == t.sockets[h].impl && SlotOk(t, y)
    ensures Inv(Landed(t, h, y))
  {
    var u := Landed(t, h, y);
    SlotsOkUpdate(t, u, h, y);
    GatherSame(t.sockets, OwnerOf, h, y);
    GatherUpdate(t.sockets, LiveOf, h, y);
    var newlyDead := if IsLive(t.sockets[h]) && !IsLive(y) then multiset{y.impl} else multiset{};
    assert LiveOf(t.sockets[h]) == LiveOf(y) + newlyDead;
    Cancel(Live(u.sockets) + newlyDead, Live(t.sockets), LiveOf(y)) by {
      assert Live(u.sockets) + newlyDead + LiveOf(y) == Live(u.sockets) + LiveOf(t.sockets[h]);
    }
    assert u.ledger.obtained == t.ledger.closed + t.ledger.finished + (Live(u.sockets) + newlyDead);
    forall i | 0 <= i < |u.clients| ensures ClientOk(u, u.clients[i]) {
      assert ClientOk(t, t.clients[i]);
    }
  }

  lemma RaiseKeepsSlotOk(t: Stack, x: Slot, evs: set<PicoEvent>, listening: bool, err: OsError)
    requires x.status == InUse && SlotOk(t, x)
    ensures SlotOk(t, Raise(x, evs, listening, err))
  {
  }

  lemma NotifyKeepsInv(t: Stack, ci: int)
    requires Inv(t) && 0 <= ci < |t.clients|
    ensures Inv(t.(clients := NeedNotify(t.clients, ci)))
  {
    forall i | 0 <= i < |t.clients| && t.clients[i].inUse
      ensures 0 <= t.clients[i].head < |t.sockets| && 0 <= t.clients[i].tail < |t.sockets|
    {
      assert ClientOk(t, t.clients[i]);
    }
    TouchClients(t, t.(clients := NeedNotify(t.clients, ci)));
  }

  lemma CallbackKeepsInv(t: Stack, impl: int, evs: set<PicoEvent>, listening: bool, tcp: TcpState, err: OsError)
    requires Inv(t) && impl != 0
    ensures Inv(Callback(t, impl, evs, listening, tcp, err))
  {
    var h := HandleOf(t.sockets, impl);
    if h >= 0 {
      HandleOfInUse(t, impl);
      var x := t.sockets[h];
      assert SlotOk(t, x);
      RaiseKeepsSlotOk(t, x, evs, listening, err);
      var u := Landed(t, h, Raise(x, evs, listening, err));
      LandedKeepsInv(t, h, Raise(x, evs, listening, err));
      NotifyKeepsInv(u, ClientIndex(t.clients, x.clientId));
    } else if tcp == CloseWait {
      var u := Callback(t, impl, evs, listening, tcp, err);
      SlotsOkSameClients(t, u);
      forall i | 0 <= i < |u.clients| ensures ClientOk(u, u.clients[i]) {
        assert ClientOk(t, t.clients[i]);
      }
    }
  }

  lemma TickKeepsInv(t: Stack)
    requires Inv(t)
    ensures Inv(Tick(t))
  {
    forall i | 0 <= i < |t.clients| && t.clients[i].inUse
      ensures 0 <= t.clients[i].head < |t.sockets| && 0 <= t.clients[i].tail < |t.sockets|
    {
      assert ClientOk(t, t.clients[i]);
    }
    TouchClients(t, Tick(t));
  }
}
