/** The layer as the program it is: a socket table and a client table that the handlers, the event
    callback and the tick update in place. Every method is tied to its function on tables. */
module NetworkStack {
  import opened Types
  import opened SocketTable
  import H = Handlers
  import opened Machine
  import opened Counting
  import opened ScanSpec
  import E = EventDelivery
  import L = HandleLife

  class Instance {
    const sockets: array<Slot>
    const clients: array<Client>
    const ports: map<int, Dataport>
    const recordSize: nat
    var lifecycle: Lifecycle
    // The thread-safety mutex.
    var tsLocked: bool
    ghost var ledger: Ledger
    ghost var staleUse: bool

    constructor (sockets: array<Slot>, clients: array<Client>, ports: map<int, Dataport>, recordSize: nat)
      ensures this.sockets == sockets && this.clients == clients
      ensures Table() == Stack(Initialized, sockets[..], clients[..], ports, recordSize, EMPTY_LEDGER, false, false, false)
    {
      this.sockets := sockets;
      this.clients := clients;
      this.ports := ports;
      this.recordSize := recordSize;
      this.lifecycle := Initialized;
      this.tsLocked := false;
      this.ledger := EMPTY_LEDGER;
      this.staleUse := false;
    }

    /** The state as a value. A NULL client pointer cannot be followed here, so that monitor is off. */
    ghost function Table(): Stack
      reads this, sockets, clients
    {
      Stack(lifecycle, sockets[..], clients[..], ports, recordSize, ledger, tsLocked, staleUse, false)
    }

    /** No scan in progress, and the invariant of all reachable states. */
    ghost predicate Valid()
      reads this, sockets, clients
    {
      SysInv(System(Table(), Idle))
    }

    /** The tables are sound, whatever the RPC thread is in the middle of. */
    ghost predicate Sound()
      reads this, sockets, clients
    {
      Inv(Table())
    }

    /** The same with the thread-safety mutex held: the control thread holds it for all of a tick. */
    ghost predicate SoundLocked()
      reads this, sockets, clients
    {
      tsLocked && Inv(Table().(tsLocked := false))
    }

    // -------------------------------------------------------------- start

    /** Checks the configuration, fills the client table, and hands both tables to the new instance. */
    static method Initialize(connected: nat, badges: seq<int>, quotas: seq<int>, maxClients: nat, n: nat,
                             ports: map<int, Dataport>, recordSize: nat, nicOk: bool)
      returns (err: OsError, stack: Instance?)
      requires |badges| == connected && n > 0 && recordSize > 0
      ensures err == OutOfBounds <==>
              connected > maxClients || |quotas| < connected
              || exists i :: 0 <= i < connected && !(MIN_BADGE_ID <= badges[i] < MIN_BADGE_ID + connected)
      ensures err != OutOfBounds ==> err == if nicOk then Success else GenericError
      ensures err == Success <==> stack != null
      ensures stack != null ==>
              && fresh(stack) && fresh(stack.sockets) && fresh(stack.clients) && stack.Valid()
              && connected <= |quotas| && connected <= maxClients
              && stack.Table() == BootStack(n, maxClients, quotas[..connected], ports, recordSize)
              && stack.sockets.Length == n && stack.clients.Length == maxClients
              && (forall h :: 0 <= h < n ==>
                    stack.sockets[h] == Slot(Free, 0, {}, Success, 0, false, 0, NoType, Dataport(0, 0), 0))
              && (forall i :: 0 <= i < connected ==>
                    stack.clients[i] == Client(false, 0, 101 + i, true, quotas[i], 0, 0, true))
              && (forall i :: connected <= i < maxClients ==> !stack.clients[i].inUse)
    {
      if maxClients < connected || |quotas| < connected {
        return OutOfBounds, null;
      }
      var sockets := new Slot[n](_ => EMPTY_SLOT);
      var clients := new Client[maxClients](_ => EMPTY_CLIENT);
      for i := 0 to connected
        invariant forall j :: 0 <= j < i ==> MIN_BADGE_ID <= badges[j] < MIN_BADGE_ID + connected
        invariant forall j :: 0 <= j < maxClients ==>
                    clients[j] == if j < i then Client(false, 0, MIN_BADGE_ID + j, true, quotas[j], 0, 0, true) else EMPTY_CLIENT
        invariant forall j :: 0 <= j < n ==> sockets[j] == EMPTY_SLOT
      {
        if badges[i] < MIN_BADGE_ID || badges[i] >= MIN_BADGE_ID + connected {
          return OutOfBounds, null;
        }
        clients[i] := Client(false, 0, MIN_BADGE_ID + i, true, quotas[i], 0, 0, true);
      }
      if !nicOk {
        return GenericError, null;
      }
      err := Success;
      stack := new Instance(sockets, clients, ports, recordSize);
      InitialTables(sockets[..], clients[..], n, maxClients, quotas[..connected], ports, recordSize);
      BootInv(n, maxClients, quotas[..connected], ports, recordSize);
    }

    // -------------------------------------------------------------- mutex and lookups

    method Lock()
      requires !tsLocked
      modifies this`tsLocked
      ensures tsLocked
    {
      tsLocked := true;
    }

    method Unlock()
      requires tsLocked
      modifies this`tsLocked
      ensures !tsLocked
    {
      tsLocked := false;
    }

    method GetHandle(impl: int) returns (handle: int)
      ensures handle == HandleOf(sockets[..], impl)
    {
      handle := -1;
      for i := 0 to sockets.Length
        invariant handle == -1
        invariant forall j :: 0 <= j < i ==> sockets[j].impl != impl
      {
        if sockets[i].impl == impl {
          handle := i;
          break;
        }
      }
      IndexOfUnique(sockets[..], (x: Slot) => x.impl == impl, handle);
    }

    method GetClientIndex(id: int) returns (ci: int)
      ensures ci == ClientIndex(clients[..], id)
    {
      if id < 0 {
        return -1;
      }
      ci := -1;
      for i := 0 to clients.Length
        invariant ci == -1
        invariant forall j :: 0 <= j < i ==> !(clients[j].clientId == id && clients[j].inUse)
      {
        if id == clients[i].clientId && clients[i].inUse {
          ci := i;
          break;
        }
      }
      IndexOfUnique(clients[..], (c: Client) => c.clientId == id && c.inUse, ci);
    }

    // -------------------------------------------------------------- reserve, free, parent

    method ReserveHandle(impl: int, id: int) returns (handle: int)
      modifies sockets, clients
      ensures (Table(), handle) == Reserve(old(Table()), impl, id)
    {
      var ci := GetClientIndex(id);
      if ci < 0 {
        return -1;
      }
      if clients[ci].currentSocketsInUse >= clients[ci].socketQuota {
        return -1;
      }
      handle := -1;
      for i := 0 to sockets.Length
        invariant handle == -1
        invariant sockets[..] == old(sockets[..]) && clients[..] == old(clients[..])
        invariant forall j :: 0 <= j < i ==> sockets[j].status != Free
      {
        if sockets[i].status == Free {
          IndexOfUnique(sockets[..], (x: Slot) => x.status == Free, i);
          sockets[i] := sockets[i].(status := InUse, impl := impl, parentHandle := -1, currentError := Success,
                                    clientId := id, pendingConnections := 0, socketType := NoType, connected := false);
          handle := i;
          break;
        }
      }
      if handle == -1 {
        IndexOfUnique(sockets[..], (x: Slot) => x.status == Free, -1);
      } else {
        clients[ci] := clients[ci].(currentSocketsInUse := clients[ci].currentSocketsInUse + 1);
      }
    }

    method FreeHandle(handle: int, id: int)
      modifies sockets, clients
      ensures Table() == Release(old(Table()), handle, id)
    {
      if handle < 0 || handle >= sockets.Length {
        return;
      }
      var ci := GetClientIndex(id);
      if ci < 0 {
        return;
      }
      if sockets[handle].clientId != id {
        return;
      }
      clients[ci] := clients[ci].(currentSocketsInUse := clients[ci].currentSocketsInUse - 1);
      sockets[handle] := sockets[handle].(status := Free, impl := 0, parentHandle := -1, clientId := -1,
                                          pendingConnections := 0, eventMask := {}, currentError := Success,
                                          socketType := NoType, connected := false);
    }

    method SetParentHandle(handle: int, parent: int)
      modifies sockets
      ensures Table() == SetParent(old(Table()), handle, parent)
    {
      if handle < 0 || handle >= sockets.Length || parent < 0 || parent >= sockets.Length {
        return;
      }
      sockets[handle] := sockets[handle].(parentHandle := parent, clientId := sockets[parent].clientId);
    }

    // -------------------------------------------------------------- guards

    /** The checks of the RPC front end. */
    method CheckCall(op: H.Op, caller: int, h: int, argsOk: bool) returns (e: OsError)
      ensures e == H.Guard(Table(), op, caller, h, argsOk)
    {
      if lifecycle != Running {
        return if lifecycle == FatalError then Aborted else NotInitialized;
      }
      if h < 0 || h >= sockets.Length {
        return InvalidHandle;
      }
      var x := sockets[h];
      if H.RequiredType(op) != NoType && x.socketType != H.RequiredType(op) {
        return NetworkProto;
      }
      if H.NeedsConnected(op) && !x.connected {
        return ConnNone;
      }
      if x.clientId != caller {
        return InvalidHandle;
      }
      if H.ChecksArguments(op) && !argsOk {
        return InvalidParameter;
      }
      return Success;
    }

    /** All checks of a handler before it calls picoTCP, and the length it works with. */
    method Enter(op: H.Op, caller: int, h: int, len: nat, argsOk: bool, addrOk: bool) returns (e: OsError, n: nat)
      ensures n == H.EntryLen(Table(), op, caller, h, len, argsOk)
      ensures e == H.EntryError(Table(), op, caller, h, n, argsOk, addrOk)
      ensures e == Success ==> 0 <= h < sockets.Length && sockets[h].clientId == caller
    {
      n := len;
      e := CheckCall(op, caller, h, argsOk);
      if e != Success {
        return;
      }
      if H.CarriesData(op) && n > PortIn(ports, caller).size {
        n := PortIn(ports, caller).size;
      }
      if EvFin in sockets[h].eventMask {
        return ConnectionClosed, n;
      }
      if sockets[h].impl == 0 {
        return InvalidHandle, n;
      }
      if H.CarriesData(op) && n > sockets[h].buf.size {
        return InvalidParameter, n;
      }
      if H.TakesAddress(op) && !addrOk {
        return InvalidParameter, n;
      }
    }

    // Hands the picoTCP socket of slot h to picoTCP.
    ghost method PassToPico(h: int)
      requires 0 <= h < sockets.Length
      modifies this`staleUse
      ensures Table() == H.Pass(old(Table()), h)
    {
      staleUse := staleUse || !IsLive(sockets[h]);
    }

    // -------------------------------------------------------------- handlers

    // Create once the guards have passed.
    method PicoCreate(caller: int, ty: SocketType, impl: int, err: OsError) returns (r: Reply)
      requires !tsLocked
      modifies this`tsLocked, this`ledger, sockets, clients
      ensures (Table(), r) == H.Open(old(Table()), caller, ty, impl, err)
    {
      if impl != 0 {
        H.OpenMakes(Table(), caller, ty, impl, err);
      }
      Lock();
      if impl == 0 {
        Unlock();
        return Reply(err, -1);
      }
      ledger := ledger.(obtained := ledger.obtained + multiset{impl});
      var handle := ReserveHandle(impl, caller);
      if handle == -1 {
        ledger := ledger.(closed := ledger.closed + multiset{impl});
        Unlock();
        return Reply(InsufficientSpace, -1);
      }
      sockets[handle] := sockets[handle].(socketType := ty, buf := PortIn(ports, caller), currentError := err);
      Unlock();
      assert sockets[..] == old(sockets[..])[handle := sockets[handle]];
      return Reply(Success, handle);
    }

    method SocketCreate(caller: int, argsOk: bool, domainOk: bool, ty: SocketType, impl: int, err: OsError) returns (r: Reply)
      requires Valid() && (impl != 0 ==> Fresh(Table(), impl))
      modifies this, sockets, clients
      ensures (Table(), r) == H.Create(old(Table()), caller, argsOk, domainOk, ty, impl, err)
      ensures Valid() && !tsLocked
    {
      if lifecycle != Running {
        return Reply(if lifecycle == FatalError then Aborted else NotInitialized, -1);
      }
      if !argsOk {
        return Reply(InvalidParameter, -1);
      }
      if !domainOk || (ty != Stream && ty != Dgram) {
        return Reply(ProtoNoSupport, -1);
      }
      StepKeepsInv(System(Table(), Idle), SCreate(caller, argsOk, domainOk, ty, impl, err));
      r := PicoCreate(caller, ty, impl, err);
    }

    method SocketClose(caller: int, h: int, res: PicoResult) returns (r: Reply)
      requires Valid()
      modifies this, sockets, clients
      ensures (Table(), r) == H.Close(old(Table()), caller, h, res)
      ensures Valid() && !tsLocked
    {
      StepKeepsInv(System(Table(), Idle), SClose(caller, h, res));
      var e := CheckCall(H.OpClose, caller, h, true);
      if e != Success {
        return Reply(e, 0);
      }
      var impl := sockets[h].impl;
      if EvFin !in sockets[h].eventMask {
        if impl == 0 {
          return Reply(InvalidHandle, 0);
        }
        Lock();
        PassToPico(h);
        ledger := ledger.(closed := ledger.closed + multiset{impl});
        sockets[h] := sockets[h].(currentError := res.err, eventMask := sockets[h].eventMask - {EvClose});
        Unlock();
        if res.ret < 0 {
          FreeHandle(h, caller);
          return Reply(res.err, 0);
        }
      }
      FreeHandle(h, caller);
      return Reply(Success, 0);
    }

    /** Connect, bind, listen, write and sendto. */
    method SocketPlainIo(op: H.Op, caller: int, h: int, len: nat, argsOk: bool, addrOk: bool, res: PicoResult) returns (r: Reply)
      requires Valid()
      requires Enabled(System(Table(), Idle), SPlainIo(op, caller, h, len, argsOk, addrOk, res))
      modifies this, sockets
      ensures (Table(), r) == H.PlainIo(old(Table()), op, caller, h, len, argsOk, addrOk, res)
      ensures old(L.MayCall(Table(), op, caller, h, argsOk, addrOk)) ==>
                && r.err == (if res.ret >= 0 then Success else res.err)
                && sockets[h] == old(sockets[h]).(currentError := res.err)
      ensures !old(L.MayCall(Table(), op, caller, h, argsOk, addrOk)) ==> r.err != Success && Table() == old(Table())
      ensures Valid() && !tsLocked
    {
      PlainIoCases(Table(), op, caller, h, len, argsOk, addrOk, res);
      var e, n := Enter(op, caller, h, len, argsOk, addrOk);
      if e != Success {
        return Reply(e, n);
      }
      Lock();
      PassToPico(h);
      sockets[h] := sockets[h].(currentError := res.err);
      Unlock();
      if res.ret < 0 {
        r := Reply(res.err, if H.CarriesData(op) then 0 else n);
      } else {
        r := Reply(Success, if H.CarriesData(op) then res.ret else n);
      }
    }

    /** The listener's slot when accept took a connection off its backlog. */
    method CountAccept(h: int, err: OsError)
      requires 0 <= h < sockets.Length
      modifies sockets
      ensures Table() == H.SetSlot(old(Table()), h, H.OneAccepted(old(sockets[h]), err))
      ensures sockets[h].currentError == err
      ensures sockets[h].pendingConnections
           == old(sockets[h].pendingConnections) - if old(sockets[h].pendingConnections) > 0 then 1 else 0
      ensures forall ev :: ev in sockets[h].eventMask <==>
                ev in old(sockets[h].eventMask) && !(ev == EvConnAcpt && sockets[h].pendingConnections == 0)
    {
      sockets[h] := sockets[h].(currentError := err);
      if sockets[h].pendingConnections > 0 {
        sockets[h] := sockets[h].(pendingConnections := sockets[h].pendingConnections - 1);
      }
      if sockets[h].pendingConnections == 0 {
        sockets[h] := sockets[h].(eventMask := sockets[h].eventMask - {EvConnAcpt});
      }
      assert sockets[..] == old(sockets[..])[h := H.OneAccepted(old(sockets[h]), err)];
    }

    // What accept does with a new connection.
    method KeepConnection(caller: int, h: int, impl: int) returns (r: Reply)
      requires tsLocked && 0 <= h < sockets.Length && sockets[h].clientId == caller
      modifies this, sockets, clients
      ensures Table().(tsLocked := true) == H.Keep(old(Table()), caller, h, impl).0
      ensures r == H.Keep(old(Table()), caller, h, impl).1 && !tsLocked
    {
      H.KeepMakes(Table(), caller, h, impl);
      ledger := ledger.(obtained := ledger.obtained + multiset{impl});
      var accepted := ReserveHandle(impl, sockets[h].clientId);
      if accepted == -1 {
        ledger := ledger.(closed := ledger.closed + multiset{impl});
        Unlock();
        return Reply(InsufficientSpace, -1);
      }
      SetParentHandle(accepted, h);
      if sockets[accepted].clientId != caller {
        // The source returns here with the mutex locked; the owner check cannot fail.
        assert false;
      }
      sockets[accepted] := sockets[accepted].(socketType := Stream, connected := true, buf := sockets[h].buf);
      Unlock();
      return Reply(Success, accepted);
    }

    // Accept once the guards have passed.
    method PicoAccept(caller: int, h: int, argsOk: bool, impl: int, err: OsError) returns (r: Reply)
      requires !tsLocked && H.EntryError(Table(), H.OpAccept, caller, h, 0, argsOk, true) == Success
      modifies this, sockets, clients
      ensures (Table(), r) == H.Accept(old(Table()), caller, h, argsOk, impl, err)
    {
      ghost var t := Table();
      H.AcceptIsKeep(t, caller, h, argsOk, impl, err);
      Lock();
      PassToPico(h);
      CountAccept(h, err);
      ghost var u := H.SetSlot(H.Pass(t, h), h, H.OneAccepted(t.sockets[h], err));
      if impl == 0 {
        Unlock();
        return Reply(err, -1);
      }
      H.KeepMakes(u, caller, h, impl);
      H.KeepMakes(u.(tsLocked := true), caller, h, impl);
      r := KeepConnection(caller, h, impl);
    }

    method SocketAccept(caller: int, h: int, argsOk: bool, impl: int, err: OsError) returns (r: Reply)
      requires Valid() && (impl != 0 ==> Fresh(Table(), impl))
      modifies this, sockets, clients
      ensures (Table(), r) == H.Accept(old(Table()), caller, h, argsOk, impl, err)
      ensures old(L.MayCall(Table(), H.OpAccept, caller, h, argsOk, true)) ==>
                && 0 <= h < sockets.Length && sockets[h].currentError == err
                && sockets[h].pendingConnections
                == (if old(sockets[h].pendingConnections) > 0 then old(sockets[h].pendingConnections) - 1 else 0)
                && (EvConnAcpt in sockets[h].eventMask <==> sockets[h].pendingConnections > 0)
                && (impl == 0 ==> r == Reply(err, -1))
      ensures !old(L.MayCall(Table(), H.OpAccept, caller, h, argsOk, true)) ==> r.err != Success && Table() == old(Table())
      ensures Valid() && !tsLocked
    {
      AcceptCases(Table(), caller, h, argsOk, impl, err);
      var e, _ := Enter(H.OpAccept, caller, h, 0, argsOk, true);
      if e != Success {
        return Reply(e, -1);
      }
      r := PicoAccept(caller, h, argsOk, impl, err);
    }

    // Read and recvfrom once all checks have passed.
    method PicoRead(h: int, n: nat, res: PicoResult) returns (r: Reply)
      requires !tsLocked && 0 <= h < sockets.Length
      modifies this`tsLocked, this`staleUse, sockets
      ensures Table() == H.SetSlot(H.Pass(old(Table()), h), h, H.DropRead(old(sockets[h]), res.err, res.ret <= 0 || n > res.ret))
      ensures r == if res.ret < 0 then Reply(res.err, 0) else Reply(if res.ret == 0 then TryAgain else Success, res.ret)
    {
      ghost var x := sockets[h];
      Lock();
      PassToPico(h);
      sockets[h] := sockets[h].(currentError := res.err);
      Unlock();
      if res.ret < 0 {
        sockets[h] := sockets[h].(eventMask := sockets[h].eventMask - {EvRead});
        r := Reply(res.err, 0);
      } else if res.ret == 0 {
        sockets[h] := sockets[h].(eventMask := sockets[h].eventMask - {EvRead});
        r := Reply(TryAgain, res.ret);
      } else {
        if n > res.ret {
          sockets[h] := sockets[h].(eventMask := sockets[h].eventMask - {EvRead});
        }
        r := Reply(Success, res.ret);
      }
      assert sockets[h] == H.DropRead(x, res.err, res.ret <= 0 || n > res.ret);
      assert sockets[..] == old(sockets[..])[h := sockets[h]];
    }

    method PicoRecvFrom(h: int, res: PicoResult, srcAddr: int, srcPort: int) returns (r: Reply)
      requires !tsLocked && 0 <= h < sockets.Length
      modifies this`tsLocked, this`staleUse, sockets
      ensures Table() == H.SetSlot(H.Pass(old(Table()), h), h,
                           H.DropRead(old(sockets[h]), res.err, H.RecvFromDrains(res, srcAddr, srcPort)))
      ensures r == if res.ret < 0 then Reply(res.err, 0)
                   else Reply(if res.ret == 0 && srcAddr == 0 && srcPort == 0 then TryAgain else Success, res.ret)
    {
      ghost var x := sockets[h];
      Lock();
      PassToPico(h);
      sockets[h] := sockets[h].(currentError := res.err);
      Unlock();
      if res.ret < 0 {
        sockets[h] := sockets[h].(eventMask := sockets[h].eventMask - {EvRead});
        r := Reply(res.err, 0);
      } else if res.ret == 0 && srcAddr == 0 && srcPort == 0 {
        sockets[h] := sockets[h].(eventMask := sockets[h].eventMask - {EvRead});
        r := Reply(TryAgain, res.ret);
      } else {
        r := Reply(Success, res.ret);
      }
      assert sockets[h] == H.DropRead(x, res.err, H.RecvFromDrains(res, srcAddr, srcPort));
      assert sockets[..] == old(sockets[..])[h := sockets[h]];
    }

    method SocketRead(caller: int, h: int, len: nat, argsOk: bool, res: PicoResult) returns (r: Reply)
      requires Valid()
      modifies this, sockets
      ensures (Table(), r) == H.ReadRpc(old(Table()), caller, h, len, argsOk, res)
      ensures Valid() && !tsLocked
    {
      var e, n := Enter(H.OpRead, caller, h, len, argsOk, true);
      if e != Success {
        return Reply(e, n);
      }
      ghost var t := Table();
      r := PicoRead(h, n, res);
      ReceiveKeepsSysInv(t, H.OpRead, caller, h, len, argsOk, res, H.ReadDrains(t, caller, len, res), res.ret == 0);
    }

    method SocketRecvFrom(caller: int, h: int, len: nat, argsOk: bool, res: PicoResult, srcAddr: int, srcPort: int) returns (r: Reply)
      requires Valid()
      modifies this, sockets
      ensures (Table(), r) == H.RecvFromRpc(old(Table()), caller, h, len, argsOk, res, srcAddr, srcPort)
      ensures Valid() && !tsLocked
    {
      var e, n := Enter(H.OpRecvFrom, caller, h, len, argsOk, true);
      if e != Success {
        return Reply(e, n);
      }
      ghost var t := Table();
      r := PicoRecvFrom(h, res, srcAddr, srcPort);
      ReceiveKeepsSysInv(t, H.OpRecvFrom, caller, h, len, argsOk, res, H.RecvFromDrains(res, srcAddr, srcPort),
                         H.RecvFromDrains(res, srcAddr, srcPort));
    }

    // -------------------------------------------------------------- callback and tick

    /** What the callback does to the slot it found. */
    static method SlotWith(x: Slot, evs: set<PicoEvent>, listening: bool, err: OsError) returns (socket: Slot)
      ensures socket == H.Raise(x, evs, listening, err)
      ensures socket.pendingConnections == x.pendingConnections + if PicoConn in evs && listening then 1 else 0
      ensures socket.connected == (x.connected || (PicoConn in evs && !listening))
      ensures socket.currentError == if PicoErr in evs then err else x.currentError
    {
      socket := x;
      if PicoConn in evs {
        if listening {
          socket := socket.(pendingConnections := socket.pendingConnections + 1);
        } else {
          socket := socket.(connected := true);
        }
      }
      if PicoErr in evs {
        socket := socket.(currentError := err);
      }
      var mask := MaskWith(socket.eventMask, evs, listening, err);
      socket := socket.(eventMask := mask);
      E.MaskEffect(x, evs, listening, err);
      E.SameEvents(mask, H.Raise(x, evs, listening, err).eventMask);
    }

    /** Adds what picoTCP reports to slot h. */
    method RaiseEvents(h: int, evs: set<PicoEvent>, listening: bool, err: OsError)
      requires 0 <= h < sockets.Length
      modifies sockets, this`ledger
      ensures Table() == H.Landed(old(Table()), h, H.Raise(old(sockets[h]), evs, listening, err))
    {
      var socket := SlotWith(sockets[h], evs, listening, err);
      ledger := ledger.(finished := ledger.finished + if IsLive(sockets[h]) && !IsLive(socket) then multiset{socket.impl} else multiset{});
      sockets[h] := socket;
    }

    /** The callback's bits, one kind of event after the other. */
    static method MaskWith(before: set<Event>, evs: set<PicoEvent>, listening: bool, err: OsError) returns (mask: set<Event>)
      ensures EvConnAcpt in mask <==> EvConnAcpt in before || (PicoConn in evs && listening)
      ensures EvConnEst in mask <==> EvConnEst in before || (PicoConn in evs && !listening)
      ensures EvRead in mask <==> EvRead in before || PicoRd in evs
      ensures EvWrite in mask <==> EvWrite in before || PicoWr in evs
      ensures EvClose in mask <==> EvClose in before || PicoClose in evs
      ensures EvFin in mask <==> EvFin in before || PicoFin in evs || (PicoErr in evs && err == ConnRefused)
      ensures EvError in mask <==> EvError in before || PicoErr in evs
    {
      mask := before;
      if PicoConn in evs {
        if listening {
          mask := mask + {EvConnAcpt};
        } else {
          mask := mask + {EvConnEst};
        }
      }
      if PicoRd in evs {
        mask := mask + {EvRead};
      }
      if PicoWr in evs {
        mask := mask + {EvWrite};
      }
      mask := MaskWithEnd(mask, evs, err);
    }

    // The bits of the events that end or break a connection.
    static method MaskWithEnd(before: set<Event>, evs: set<PicoEvent>, err: OsError) returns (mask: set<Event>)
      ensures forall e :: e in mask <==>
                e in before || (e == EvClose && PicoClose in evs) || (e == EvError && PicoErr in evs)
                || (e == EvFin && (PicoFin in evs || (PicoErr in evs && err == ConnRefused)))
    {
      mask := before;
      if PicoClose in evs {
        mask := mask + {EvClose};
      }
      if PicoFin in evs {
        mask := mask + {EvFin};
      }
      if PicoErr in evs {
        mask := mask + {EvError};
        if err == ConnRefused {
          mask := mask + {EvFin};
        }
      }
    }

    /** The callback; picoTCP calls it from its tick, under the mutex. */
    method SocketEvent(impl: int, evs: set<PicoEvent>, listening: bool, tcp: TcpState, err: OsError)
      requires SoundLocked() && impl != 0
      modifies this, sockets, clients
      ensures Table() == H.Callback(old(Table()), impl, evs, listening, tcp, err)
      ensures E.TablesHeardOf(old(Table()), Table(), PicoReport(impl, evs, listening, tcp, err))
      ensures SoundLocked()
    {
      ghost var t := Table();
      var h := GetHandle(impl);
      if h < 0 {
        if tcp == CloseWait {
          ledger := ledger.(orphans := ledger.orphans + multiset{impl});
        }
      } else {
        assert ClientIndex(t.clients, t.sockets[h].clientId) >= 0 by {
          H.HandleOfInUse(t.(tsLocked := false), impl);
          assert SlotOk(t.(tsLocked := false), t.sockets[h]);
        }
        RaiseEvents(h, evs, listening, err);
        var ci := GetClientIndex(sockets[h].clientId);
        clients[ci] := clients[ci].(needsToBeNotified := true);
      }
      assert Table() == H.Callback(t, impl, evs, listening, tcp, err);
      CallbackKeepsSound(t, PicoReport(impl, evs, listening, tcp, err));
      ReportsInLock(t, PicoReport(impl, evs, listening, tcp, err));
    }

    /** Flags client i if one of its slots in use has an event. */
    method FlagIfPending(i: int)
      requires 0 <= i < clients.Length && !clients[i].needsToBeNotified
      modifies clients
      ensures clients[..] == old(clients[..])[i :=
                old(clients[i]).(needsToBeNotified := H.HasPending(sockets[..], old(clients[i].clientId)))]
    {
      for k := 0 to sockets.Length
        invariant forall j :: 0 <= j < clients.Length && j != i ==> clients[j] == old(clients[j])
        invariant clients[i] == old(clients[i]).(needsToBeNotified := H.HasPending(sockets[..k], old(clients[i].clientId)))
      {
        assert sockets[..k + 1] == sockets[..k] + [sockets[k]];
        if sockets[k].status == InUse && sockets[k].eventMask != {} && sockets[k].clientId == clients[i].clientId {
          assert sockets[..k + 1][k] == sockets[k];
          clients[i] := clients[i].(needsToBeNotified := true);
        } else if H.HasPending(sockets[..k], clients[i].clientId) {
          var j :| 0 <= j < k && sockets[..k][j].status == InUse && sockets[..k][j].eventMask != {}
            && sockets[..k][j].clientId == clients[i].clientId;
          assert sockets[..k + 1][j] == sockets[..k][j];
        } else {
          assert forall j :: 0 <= j < k ==> sockets[..k + 1][j] == sockets[..k][j];
        }
      }
      assert sockets[..sockets.Length] == sockets[..];
    }

    /** The notify pass for client i. */
    method NotifyClient(i: int) returns (signalled: bool)
      requires 0 <= i < clients.Length
      modifies clients
      ensures clients[..] == old(clients[..])[i := H.Unflag(old(clients[i]))]
      ensures signalled == (old(H.Due(Table(), clients[i])) && old(clients[i].canNotify))
    {
      signalled := false;
      if clients[i].inUse {
        if !clients[i].needsToBeNotified {
          FlagIfPending(i);
        }
        if clients[i].needsToBeNotified {
          if clients[i].canNotify {
            signalled := true;
          }
          clients[i] := clients[i].(needsToBeNotified := false);
        }
      }
    }

    // The loop over all clients.
    method NotifyEach() returns (signalled: seq<int>)
      modifies clients
      ensures Table() == H.Tick(old(Table()))
      ensures forall i :: i in signalled <==>
                0 <= i < clients.Length && old(H.Due(Table(), clients[i])) && clients[i].canNotify
      ensures forall j, k :: 0 <= j < k < |signalled| ==> signalled[j] < signalled[k]
    {
      ghost var t := Table();
      signalled := [];
      for i := 0 to clients.Length
        invariant forall j :: 0 <= j < clients.Length ==>
                    clients[j] == if j < i then H.Unflag(t.clients[j]) else t.clients[j]
        invariant forall j :: j in signalled <==> 0 <= j < i && H.Due(t, t.clients[j]) && t.clients[j].canNotify
        invariant forall j, k :: 0 <= j < k < |signalled| ==> signalled[j] < signalled[k]
      {
        var signal := NotifyClient(i);
        if signal {
          assert forall j :: 0 <= j < |signalled| ==> signalled[j] in signalled;
          signalled := signalled + [i];
        }
      }
      assert clients[..] == H.Tick(t).clients;
    }

    /** The notify pass of a tick, under the mutex; `signalled` lists the clients signalled, in order. */
    method NotifyClients() returns (signalled: seq<int>)
      requires SoundLocked()
      modifies clients
      ensures Table() == H.Tick(old(Table()))
      ensures forall i :: i in signalled <==>
                0 <= i < clients.Length && old(H.Due(Table(), clients[i])) && clients[i].canNotify
      ensures forall j, k :: 0 <= j < k < |signalled| ==> signalled[j] < signalled[k]
      ensures SoundLocked()
    {
      ghost var free := Table().(tsLocked := false);
      signalled := NotifyEach();
      H.TickKeepsInv(free);
      assert H.Tick(free) == Table().(tsLocked := false);
    }

    // picoTCP's tick: it calls the callback for each of its reports.
    method StackTick(reports: seq<PicoReport>)
      requires SoundLocked() && forall i :: 0 <= i < |reports| ==> reports[i].impl != 0
      modifies this, sockets, clients
      ensures Table() == CallbackAll(old(Table()), reports)
      ensures SoundLocked()
    {
      ghost var t := Table();
      for i := 0 to |reports|
        invariant Table() == CallbackAll(t, reports[..i]) && SoundLocked()
      {
        var r := reports[i];
        assert reports[..i + 1][..i] == reports[..i];
        SocketEvent(r.impl, r.evs, r.listening, r.tcp, r.err);
      }
      assert reports[..|reports|] == reports;
    }

    /** One round of the control thread: the mutex is taken, picoTCP reports its events, the clients
        that are due after these are signalled, each once, and the mutex is free again. The RPC thread
        may be in the middle of a call: whatever scan or read was in order before is in order after. */
    method Tick(reports: seq<PicoReport>) returns (signalled: seq<int>)
      requires Sound() && forall i :: 0 <= i < |reports| ==> reports[i].impl != 0
      modifies this, sockets, clients
      ensures Table() == H.Tick(CallbackAll(old(Table()), reports))
      ensures var t := CallbackAll(old(Table()), reports);
              forall i :: i in signalled <==>
                && 0 <= i < |t.clients| && t.clients[i].inUse && t.clients[i].canNotify
                && (t.clients[i].needsToBeNotified
                    || exists j :: 0 <= j < |t.sockets| && t.sockets[j].status == InUse && t.sockets[j].eventMask != {}
                                   && t.sockets[j].clientId == t.clients[i].clientId)
      ensures forall i :: 0 <= i < clients.Length && clients[i].inUse ==> !clients[i].needsToBeNotified
      ensures forall j, k :: 0 <= j < k < |signalled| ==> signalled[j] < signalled[k]
      ensures Sound() && !tsLocked
      ensures forall scan :: SysInv(System(old(Table()), scan)) ==> SysInv(System(Table(), scan))
    {
      ghost var t := Table();
      Lock();
      StackTick(reports);
      CallbackAllLocked(t, reports);
      signalled := NotifyClients();
      Unlock();
      E.TickEffects(CallbackAll(t, reports));
      TickKeepsScans(t, reports);
    }

    // -------------------------------------------------------------- pending events

    /** The state of the machine in the middle of a scan. */
    ghost function During(ci: nat, max: nat, walked: nat, events: seq<Record>, more: bool): (m: System)
      reads this, sockets, clients
      ensures m.scan.Active?
    {
      System(Table(), Active(if more then Testing else Ending, ci, max, walked, events))
    }

    /** One round of the loop: test the slot at head, report it if it is pending, move head on. */
    method VisitHead(ci: nat, max: nat, records: seq<Record>, ghost walked: nat) returns (events: seq<Record>, more: bool)
      requires !tsLocked && ScanOk(During(ci, max, walked, records, true))
      modifies this`tsLocked, sockets, clients
      ensures During(ci, max, walked + 1, events, more) == Visit(old(During(ci, max, walked, records, true)))
      ensures var i := old(clients[ci].head);
              var x := old(sockets[..])[i];
              if x.clientId == old(clients[ci].clientId) && x.eventMask != {} then
                events == records + [Record(x.eventMask, i, x.parentHandle, x.currentError)]
                && sockets[..] == old(sockets[..])[i := x.(eventMask := x.eventMask - {EvConnEst, EvWrite, EvError})]
              else events == records && sockets[..] == old(sockets[..])
    {
      events := records;
      var i := clients[ci].head;
      if sockets[i].clientId == clients[ci].clientId && sockets[i].eventMask != {} {
        Lock();
        var event := Record(sockets[i].eventMask, i, sockets[i].parentHandle, sockets[i].currentError);
        sockets[i] := sockets[i].(eventMask := sockets[i].eventMask - TRANSIENT);
        Unlock();
        events := events + [event];
      }
      MoveHead(ci);
      more := clients[ci].head != clients[ci].tail && |events| < max;
    }

    // The next slot, cyclically.
    method MoveHead(ci: nat)
      requires ci < clients.Length
      modifies clients
      ensures clients[..] == old(clients[..])[ci := old(clients[ci]).(head :=
                if old(clients[ci].head) + 1 == sockets.Length then 0 else old(clients[ci].head) + 1)]
    {
      clients[ci] := clients[ci].(head := clients[ci].head + 1);
      if clients[ci].head == sockets.Length {
        clients[ci] := clients[ci].(head := 0);
      }
    }

    /** The loop over the slots, from the caller's head to its tail. */
    method CollectEvents(ci: nat, max: nat) returns (events: seq<Record>)
      requires !tsLocked && ScanOk(During(ci, max, 0, [], true))
      modifies this`tsLocked, sockets, clients
      ensures var e := ToEnd(old(During(ci, max, 0, [], true))); e == System(Table(), Active(Ending, ci, max, e.scan.walked, events))
    {
      ghost var b := During(ci, max, 0, [], true);
      ghost var walked := 0;
      var more := true;
      events := [];
      while more
        invariant ScanOk(During(ci, max, walked, events, more)) && ToEnd(During(ci, max, walked, events, more)) == ToEnd(b)
        invariant !tsLocked
        decreases sockets.Length - walked, more
      {
        VisitKeepsEnd(During(ci, max, walked, events, more));
        events, more := VisitHead(ci, max, events, walked);
        walked := walked + 1;
      }
    }

    /** The caller's pending events; `events` is what the call leaves in the caller's dataport. */
    method GetPendingEvents(caller: int, size: nat, argsOk: bool) returns (r: Reply, events: seq<Record>)
      requires Valid()
      modifies this, sockets, clients
      ensures r == Reply(ScanError(old(Table()), caller, size, argsOk), |events|)
      ensures r.err == Success ==> Callable(old(Table()), caller)
      ensures r.err == Success ==> Table() == AfterCall(old(Table()), caller, size)
      ensures r.err == Success ==> events == ReportsOf(old(Table()).sockets, Reported(old(Table()), caller, size))
      ensures r.err == Success ==>
                var t := old(Table());
                var hs := Reported(t, caller, size);
                && |events| == |hs|
                && (forall k :: 0 <= k < |hs| ==>
                      && 0 <= hs[k] < |t.sockets| && events[k].handle == hs[k]
                      && events[k].eventMask == t.sockets[hs[k]].eventMask
                      && events[k].parentHandle == t.sockets[hs[k]].parentHandle
                      && events[k].currentError == t.sockets[hs[k]].currentError)
                && (forall i :: 0 <= i < |t.sockets| ==>
                      sockets[i] == t.sockets[i].(eventMask :=
                        t.sockets[i].eventMask - if i in hs then {EvConnEst, EvWrite, EvError} else {}))
      ensures r.err != Success ==> Table() == old(Table()) && events == []
      ensures Valid() && !tsLocked
    {
      ghost var t := Table();
      if lifecycle != Running {
        return Reply(if lifecycle == FatalError then Aborted else NotInitialized, 0), [];
      }
      if !argsOk {
        return Reply(InvalidParameter, 0), [];
      }
      if size < recordSize {
        return Reply(BufferTooSmall, 0), [];
      }
      var ci := GetClientIndex(caller);
      if ci < 0 {
        return Reply(Aborted, 0), [];
      }
      BeginKeepsScanOk(System(t, Idle), caller, size, argsOk);
      events := ScanFor(ci, caller, size, argsOk);
      CallOutcome(System(t, Idle), caller, size, argsOk);
      CallKeepsInv(System(t, Idle), caller, size, argsOk);
      ReportLiterally(t, caller, size);
      r := Reply(Success, |events|);
    }

    // The scan of a caller that passed all checks.
    method ScanFor(ci: int, caller: int, size: nat, argsOk: bool) returns (events: seq<Record>)
      requires !tsLocked && recordSize > 0 && ScanError(Table(), caller, size, argsOk) == Success
      requires ci == ClientIndex(clients[..], caller)
      requires ScanOk(ScanBegin(System(Table(), Idle), caller, size, argsOk))
      modifies this`tsLocked, sockets, clients
      ensures var e := ToEnd(old(ScanBegin(System(Table(), Idle), caller, size, argsOk)));
              System(Table(), Idle) == ScanEnd(e) && events == e.scan.records
    {
      var max := if size <= PortIn(ports, caller).size then size / recordSize else PortIn(ports, caller).size / recordSize;
      assert ScanBegin(System(Table(), Idle), caller, size, argsOk) == During(ci, max, 0, [], true);
      events := CollectEvents(ci, max);
      ghost var t := Table();
      if |events| >= max && clients[ci].head != clients[ci].tail {
        clients[ci] := clients[ci].(needsToBeNotified := true);
      }
      clients[ci] := clients[ci].(tail := clients[ci].head);
      assert clients[..] == t.clients[ci := clients[ci]];
    }
  }

  /** What the records say, and what a report takes out of the masks. */
  lemma ReportLiterally(t: Stack, caller: int, size: nat)
    requires Callable(t, caller)
    ensures var hs := Reported(t, caller, size);
            var events := ReportsOf(t.sockets, hs);
            var ss := AfterCall(t, caller, size).sockets;
            && |events| == |hs| && |ss| == |t.sockets|
            && (forall k :: 0 <= k < |hs| ==>
                  && 0 <= hs[k] < |t.sockets| && events[k].handle == hs[k]
                  && events[k].eventMask == t.sockets[hs[k]].eventMask
                  && events[k].parentHandle == t.sockets[hs[k]].parentHandle
                  && events[k].currentError == t.sockets[hs[k]].currentError)
            && (forall i :: 0 <= i < |t.sockets| ==>
                  ss[i] == t.sockets[i].(eventMask :=
                    t.sockets[i].eventMask - if i in hs then {EvConnEst, EvWrite, EvError} else {}))
  {
  }

  /** An undisturbed call is a run of the machine, so it keeps the invariant. */
  lemma CallKeepsInv(m: System, caller: int, size: nat, argsOk: bool)
    requires SysInv(m) && m.scan.Idle? && ScanError(m.t, caller, size, argsOk) == Success
    ensures SysInv(WholeCall(m, caller, size, argsOk).0)
  {
    StepKeepsInv(m, SScanBegin(caller, size, argsOk));
    var b := ScanBegin(m, caller, size, argsOk);
    var run := ToEndIsRun(b);
    RunKeepsInv(b, run);
    StepKeepsInv(ToEnd(b), SScanEnd);
  }

  /** A tick leaves whatever the RPC thread is in the middle of in order. */
  lemma TickKeepsScans(t: Stack, reports: seq<PicoReport>)
    requires forall i :: 0 <= i < |reports| ==> reports[i].impl != 0
    ensures forall scan :: SysInv(System(t, scan)) ==> SysInv(System(H.Tick(CallbackAll(t, reports)), scan))
  {
    forall scan | SysInv(System(t, scan)) ensures SysInv(System(H.Tick(CallbackAll(t, reports)), scan)) {
      TickIsRun(System(t, scan), reports);
      RunKeepsInv(System(t, scan), EventSteps(reports) + [STick]);
    }
  }

  lemma CallbackLocked(t: Stack, r: PicoReport)
    ensures H.Callback(t.(tsLocked := true), r.impl, r.evs, r.listening, r.tcp, r.err)
         == H.Callback(t, r.impl, r.evs, r.listening, r.tcp, r.err).(tsLocked := true)
    ensures H.Callback(t, r.impl, r.evs, r.listening, r.tcp, r.err).tsLocked == t.tsLocked
  {
  }

  /** What a report does to the slots, under the mutex. */
  lemma ReportsInLock(t: Stack, r: PicoReport)
    requires t.tsLocked && Inv(t.(tsLocked := false)) && r.impl != 0
    ensures E.TablesHeardOf(t, H.Callback(t, r.impl, r.evs, r.listening, r.tcp, r.err), r)
  {
    var free := t.(tsLocked := false);
    CallbackLocked(free, r);
    assert t == free.(tsLocked := true);
    E.ReportIsHeard(free, r);
    HeardInLock(free, H.Callback(free, r.impl, r.evs, r.listening, r.tcp, r.err), r);
  }

  lemma HeardInLock(t: Stack, u: Stack, r: PicoReport)
    requires E.TablesHeardOf(t, u, r)
    ensures E.TablesHeardOf(t.(tsLocked := true), u.(tsLocked := true), r)
  {
    assert forall id :: E.OwnerFlagged(u, id) ==> E.OwnerFlagged(u.(tsLocked := true), id);
  }

  lemma CallbackKeepsSound(t: Stack, r: PicoReport)
    requires t.tsLocked && Inv(t.(tsLocked := false)) && r.impl != 0
    ensures Inv(H.Callback(t, r.impl, r.evs, r.listening, r.tcp, r.err).(tsLocked := false))
    ensures H.Callback(t, r.impl, r.evs, r.listening, r.tcp, r.err).tsLocked
  {
    CallbackLocked(t.(tsLocked := false), r);
    H.CallbackKeepsInv(t.(tsLocked := false), r.impl, r.evs, r.listening, r.tcp, r.err);
    assert t == t.(tsLocked := false).(tsLocked := true);
  }

  /** The callbacks do not look at the mutex and do not touch it. */
  lemma {:induction false} CallbackAllLocked(t: Stack, reports: seq<PicoReport>)
    ensures CallbackAll(t.(tsLocked := true), reports) == CallbackAll(t, reports).(tsLocked := true)
    ensures CallbackAll(t, reports).tsLocked == t.tsLocked
  {
    if |reports| > 0 {
      CallbackAllLocked(t, reports[..|reports| - 1]);
      CallbackLocked(CallbackAll(t, reports[..|reports| - 1]), reports[|reports| - 1]);
    }
  }

  /** A read or recvfrom of which the two parts follow each other keeps the invariant. */
  lemma ReceiveKeepsSysInv(t: Stack, op: H.Op, caller: int, h: int, len: nat, argsOk: bool, res: PicoResult, drained: bool, empty: bool)
    requires SysInv(System(t, Idle))
    ensures SysInv(System(H.Receive(t, op, caller, h, len, argsOk, res, drained, empty).0, Idle))
  {
    H.ReceiveKeepsInv(t, op, caller, h, len, argsOk, res, drained, empty);
    H.ReceiveFrame(t, op, caller, h, len, argsOk, res, drained, empty);
    ScanOkAround(System(t, Idle), H.Receive(t, op, caller, h, len, argsOk, res, drained, empty).0);
  }

  lemma InitialTables(ss: seq<Slot>, cs: seq<Client>, n: nat, maxClients: nat, quotas: seq<int>, ports: map<int, Dataport>, recordSize: nat)
    requires |quotas| <= maxClients && |ss| == n && |cs| == maxClients
    requires forall h :: 0 <= h < n ==> ss[h] == EMPTY_SLOT
    requires forall i :: 0 <= i < maxClients ==>
               cs[i] == if i < |quotas| then Client(false, 0, MIN_BADGE_ID + i, true, quotas[i], 0, 0, true) else EMPTY_CLIENT
    ensures Stack(Initialized, ss, cs, ports, recordSize, EMPTY_LEDGER, false, false, false)
         == BootStack(n, maxClients, quotas, ports, recordSize)
  {
    BootTables(n, maxClients, quotas, ports, recordSize);
  }

  lemma PlainIoCases(t: Stack, op: H.Op, caller: int, h: int, len: nat, argsOk: bool, addrOk: bool, res: PicoResult)
    requires SysInv(System(t, Idle)) && Enabled(System(t, Idle), SPlainIo(op, caller, h, len, argsOk, addrOk, res))
    ensures var (u, r) := H.PlainIo(t, op, caller, h, len, argsOk, addrOk, res);
            && SysInv(System(u, Idle))
            && if L.MayCall(t, op, caller, h, argsOk, addrOk) then
                 && r.err == (if res.ret >= 0 then Success else res.err)
                 && 0 <= h < |t.sockets| == |u.sockets|
                 && u.sockets[h] == t.sockets[h].(currentError := res.err)
               else r.err != Success && u == t
  {
    StepKeepsInv(System(t, Idle), SPlainIo(op, caller, h, len, argsOk, addrOk, res));
    L.PlainIoOutcome(t, op, caller, h, len, argsOk, addrOk, res);
  }

  lemma AcceptCases(t: Stack, caller: int, h: int, argsOk: bool, impl: int, err: OsError)
    requires SysInv(System(t, Idle)) && (impl != 0 ==> Fresh(t, impl))
    ensures var (u, r) := H.Accept(t, caller, h, argsOk, impl, err);
            SysInv(System(u, Idle)) &&
            if L.MayCall(t, H.OpAccept, caller, h, argsOk, true) then
              && 0 <= h < |t.sockets| == |u.sockets| && u.sockets[h].currentError == err
              && u.sockets[h].pendingConnections
              == (if t.sockets[h].pendingConnections > 0 then t.sockets[h].pendingConnections - 1 else 0)
              && (EvConnAcpt in u.sockets[h].eventMask <==> u.sockets[h].pendingConnections > 0)
              && (impl == 0 ==> r == Reply(err, -1))
            else r.err != Success && u == t
  {
    StepKeepsInv(System(t, Idle), SAccept(caller, h, argsOk, impl, err));
    L.EntryIff(t, H.OpAccept, caller, h, 0, argsOk, true);
    if L.MayCall(t, H.OpAccept, caller, h, argsOk, true) {
      L.AcceptOutcome(t, caller, h, impl, err);
    }
  }
}
