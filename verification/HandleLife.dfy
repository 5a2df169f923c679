/** The life of a handle: what create and accept hand out, what close takes back, whose buffer is used. */
module HandleLife {
  import opened Types
  import opened SocketTable
  import opened Handlers
  import opened Machine
  import opened Counting

  /** Lookup inverts the table: a slot in use is found by its picoTCP socket, and only real sockets
      of slots in use are found. */
  lemma LookupIsInverse(m: System, impl: int)
    requires Reachable(m) && impl != 0
    ensures forall h :: 0 <= h < |m.t.sockets| && m.t.sockets[h].status == InUse && m.t.sockets[h].impl == impl
              ==> HandleOf(m.t.sockets, impl) == h
    ensures HandleOf(m.t.sockets, impl) < 0 <==> Fresh(m.t, impl)
  {
    ReachableInv(m);
    HandleOfInUse(m.t, impl);
    assert SlotsOk(m.t);
  }

  // The state, the ownership and the arguments a handler asks for.
  predicate MayCall(t: Stack, op: Op, caller: int, h: int, argsOk: bool, addrOk: bool)
  {
    && t.lifecycle == Running
    && 0 <= h < |t.sockets| && t.sockets[h].status == InUse && EvFin !in t.sockets[h].eventMask
    && t.sockets[h].clientId == caller
    && (op in {OpConnect, OpListen, OpAccept, OpWrite, OpRead} ==> t.sockets[h].socketType == Stream)
    && (op in {OpSendTo, OpRecvFrom} ==> t.sockets[h].socketType == Dgram)
    && (op in {OpWrite, OpRead} ==> t.sockets[h].connected)
    && (op !in {OpClose, OpListen} ==> argsOk)
    && (op in {OpConnect, OpBind, OpSendTo} ==> addrOk)
  }

  /** Which failing check of the front end a caller is told of: the first in this order. Success means that
      the picoTCP part of the handler is entered. */
  lemma FrontEndCodes(t: Stack, op: Op, caller: int, h: int, argsOk: bool)
    ensures var e := Guard(t, op, caller, h, argsOk);
            if t.lifecycle == FatalError then e == Aborted
            else if t.lifecycle != Running then e == NotInitialized
            else if h < 0 || h >= |t.sockets| then e == InvalidHandle
            else if op in {OpConnect, OpListen, OpAccept, OpWrite, OpRead} && t.sockets[h].socketType != Stream then e == NetworkProto
            else if op in {OpSendTo, OpRecvFrom} && t.sockets[h].socketType != Dgram then e == NetworkProto
            else if op in {OpWrite, OpRead} && !t.sockets[h].connected then e == ConnNone
            else if t.sockets[h].clientId != caller then e == InvalidHandle
            else if op !in {OpClose, OpListen} && !argsOk then e == InvalidParameter
            else e == Success
  {
  }

  /** Which failing check of the picoTCP part a caller is told of, when the front end let the call through, and
      the length the handler works with: what carries data is cut to the caller's dataport. The tests
      for a null socket and for the dataport's size find nothing that the others left. */
  lemma EntryCodes(t: Stack, op: Op, caller: int, h: int, len: nat, argsOk: bool, addrOk: bool)
    requires Inv(t)
    ensures var n := EntryLen(t, op, caller, h, len, argsOk);
            var e := EntryError(t, op, caller, h, n, argsOk, addrOk);
            var g := Guard(t, op, caller, h, argsOk);
            if g != Success then e == g && n == len
            else
              && (op in {OpWrite, OpRead, OpSendTo, OpRecvFrom} ==>
                    n <= len && n <= PortOf(t, caller).size && (n == len || n == PortOf(t, caller).size))
              && (op !in {OpWrite, OpRead, OpSendTo, OpRecvFrom} ==> n == len)
              && if EvFin in t.sockets[h].eventMask then e == ConnectionClosed
                 else if t.sockets[h].status == Free then e == InvalidHandle
                 else if op in {OpConnect, OpBind, OpSendTo} && !addrOk then e == InvalidParameter
                 else e == Success
  {
    if 0 <= h < |t.sockets| {
      assert SlotOk(t, t.sockets[h]);
    }
  }

  lemma EntryIff(t: Stack, op: Op, caller: int, h: int, len: nat, argsOk: bool, addrOk: bool)
    requires Inv(t)
    ensures EntryError(t, op, caller, h, EntryLen(t, op, caller, h, len, argsOk), argsOk, addrOk) == Success
       <==> MayCall(t, op, caller, h, argsOk, addrOk)
  {
    FrontEndCodes(t, op, caller, h, argsOk);
    EntryCodes(t, op, caller, h, len, argsOk, addrOk);
  }

  /** In every reachable state a handler calls picoTCP for slot h exactly if the caller owns the slot, its
      socket is live and fits the call, and the arguments are good: neither the null test nor the
      test against the dataport's size ever refuses a call that the other tests let through. */
  lemma AdmittedIff(m: System, op: Op, caller: int, h: int, len: nat, argsOk: bool, addrOk: bool)
    requires Reachable(m)
    ensures EntryError(m.t, op, caller, h, EntryLen(m.t, op, caller, h, len, argsOk), argsOk, addrOk) == Success
       <==> MayCall(m.t, op, caller, h, argsOk, addrOk)
  {
    ReachableInv(m);
    EntryIff(m.t, op, caller, h, len, argsOk, addrOk);
  }

  // A handle as create or accept gives it out: new owner, own dataport, no events, no backlog.
  predicate NewHandle(t: Stack, u: Stack, h: int, caller: int, impl: int)
  {
    && 0 <= h < |t.sockets| == |u.sockets|
    && t.sockets[h].status == Free
    && (forall j :: 0 <= j < h ==> t.sockets[j].status == InUse)
    && u.sockets[h].status == InUse
    && u.sockets[h].clientId == caller
    && u.sockets[h].impl == impl
    && u.sockets[h].eventMask == {}
    && u.sockets[h].pendingConnections == 0
    && u.sockets[h].buf == PortOf(t, caller)
    && HandleOf(u.sockets, impl) == h
  }

  /** A client that may not, or cannot, have another socket. */
  predicate NoRoom(t: Stack, caller: int)
  {
    var ci := ClientIndex(t.clients, caller);
    ci < 0 || !BelowQuota(t, ci) || forall i :: 0 <= i < |t.sockets| ==> t.sockets[i].status == InUse
  }

  lemma ReserveFailsIff(t: Stack, impl: int, caller: int)
    requires Inv(t)
    ensures Reserve(t, impl, caller).1 == -1 <==> NoRoom(t, caller)
    ensures Reserve(t, impl, caller).1 == -1 ==> Reserve(t, impl, caller).0 == t
  {
    var ci := ClientIndex(t.clients, caller);
    if ci >= 0 {
      assert ClientOk(t, t.clients[ci]);
    }
  }

  /** Create in full: a new handle with the requested type, or, when the client has no room, an
      unchanged table and the picoTCP socket handed back. */
  lemma CreateOutcome(t: Stack, caller: int, ty: SocketType, impl: int, err: OsError)
    requires Inv(t) && t.lifecycle == Running && (ty == Stream || ty == Dgram) && impl != 0 && Fresh(t, impl)
    ensures var (u, r) := Create(t, caller, true, true, ty, impl, err);
            && u.ledger.obtained == t.ledger.obtained + multiset{impl} && u.ledger.finished == t.ledger.finished
            && if NoRoom(t, caller) then
              && r == Reply(InsufficientSpace, -1) && u.sockets == t.sockets && u.clients == t.clients
              && u.ledger.closed == t.ledger.closed + multiset{impl}
            else
              && r.err == Success && NewHandle(t, u, r.value, caller, impl)
              && u.sockets[r.value].socketType == ty && !u.sockets[r.value].connected
              && u.sockets[r.value].parentHandle == -1 && u.sockets[r.value].currentError == err
              && u.sockets == t.sockets[r.value := u.sockets[r.value]]
              && u.clients == CountUp(t.clients, ClientIndex(t.clients, caller), 1)
              && u.ledger.closed == t.ledger.closed
  {
    ReserveFailsIff(t, impl, caller);
    OpenMakes(t, caller, ty, impl, err);
    var h := Reserve(t, impl, caller).1;
    if h >= 0 {
      assert SlotOk(t, t.sockets[h]);
      OnlyNewHolder(t, Open(t, caller, ty, impl, err).0, h, impl);
    }
  }

  /** When create fails before it has a socket: the first failing check in this order, and no change. */
  lemma CreateRefused(t: Stack, caller: int, argsOk: bool, domainOk: bool, ty: SocketType, impl: int, err: OsError)
    requires t.lifecycle != Running || !argsOk || !domainOk || ty == NoType || ty == OtherType || impl == 0
    ensures Create(t, caller, argsOk, domainOk, ty, impl, err)
         == (t, Reply(if t.lifecycle == FatalError then Aborted
                      else if t.lifecycle != Running then NotInitialized
                      else if !argsOk then InvalidParameter
                      else if !domainOk || ty == NoType || ty == OtherType then ProtoNoSupport
                      else err, -1))
  {
  }

  lemma OnlyNewHolder(t: Stack, u: Stack, h: int, impl: int)
    requires Inv(t) && Fresh(t, impl) && impl != 0 && 0 <= h < |t.sockets| == |u.sockets| && u.sockets[h].impl == impl
    requires forall i :: 0 <= i < |t.sockets| && i != h ==> u.sockets[i].impl == t.sockets[i].impl
    ensures HandleOf(u.sockets, impl) == h
  {
    forall i | 0 <= i < |t.sockets| && i != h ensures u.sockets[i].impl != impl {
      assert SlotOk(t, t.sockets[i]);
    }
  }

  // No live slot holds the address, but one that has seen FIN may: picoTCP has freed that socket.
  predicate NotLive(t: Stack, impl: int)
  {
    forall i :: 0 <= i < |t.sockets| && IsLive(t.sockets[i]) ==> t.sockets[i].impl != impl
  }

  // A slot in use before handle k that still stores the address.
  predicate HeldBefore(ss: seq<Slot>, k: int, impl: int)
  {
    exists i :: 0 <= i < k <= |ss| && ss[i].impl == impl
  }

  /** What becomes of an event report for a socket that was just put into slot k: if an earlier slot still
      stores the address, slot k never hears of it, and no FIN of it is booked; else slot k gets it. */
  ghost predicate Hears(u: Stack, k: int, impl: int, stale: bool)
    requires 0 <= k < |u.sockets|
  {
    forall evs: set<PicoEvent>, listening: bool, tcp: TcpState, e: OsError ::
      var w := Callback(u, impl, evs, listening, tcp, e);
      |w.sockets| == |u.sockets|
      && w.sockets[k] == (if stale then u.sockets[k] else Raise(u.sockets[k], evs, listening, e))
      && w.ledger.finished == u.ledger.finished
           + (if !stale && EvFin in RaisedBy(evs, listening, e) then multiset{impl} else multiset{})
  }

  /** If picoTCP uses the address of a finished socket again while its slot is not closed yet: the new
      handle is found by lookup, hears of its events and is booked as finished by FIN exactly if no
      slot before the first free one stores the address. Otherwise all that goes to the old slot. */
  lemma ReusedAddress(t: Stack, caller: int, ty: SocketType, impl: int, err: OsError)
    requires Inv(t) && t.lifecycle == Running && (ty == Stream || ty == Dgram) && impl != 0
    requires NotLive(t, impl) && !NoRoom(t, caller)
    ensures var (u, r) := Create(t, caller, true, true, ty, impl, err);
            var k := FirstFree(t.sockets);
            var stale := HeldBefore(t.sockets, k, impl);
            && r == Reply(Success, k) && 0 <= k < |t.sockets| == |u.sockets| && IsLive(u.sockets[k])
            && (HandleOf(u.sockets, impl) == k <==> !stale)
            && Hears(u, k, impl, stale)
  {
    ReserveFailsIff(t, impl, caller);
    OpenMakes(t, caller, ty, impl, err);
    var u := Create(t, caller, true, true, ty, impl, err).0;
    var k := FirstFree(t.sockets);
    assert SlotOk(t, t.sockets[k]);
    FoundBefore(t, u, k, impl);
  }

  /** The same for a connection that accept keeps. */
  lemma ReusedByAccept(t: Stack, caller: int, h: int, impl: int, err: OsError)
    requires Inv(t) && impl != 0 && NotLive(t, impl) && !NoRoom(t, caller)
    requires EntryError(t, OpAccept, caller, h, 0, true, true) == Success
    ensures var (w, r) := Accept(t, caller, h, true, impl, err);
            var k := FirstFree(t.sockets);
            var stale := HeldBefore(t.sockets, k, impl);
            && r == Reply(Success, k) && 0 <= k < |t.sockets| == |w.sockets| && IsLive(w.sockets[k])
            && (HandleOf(w.sockets, impl) == k <==> !stale)
            && Hears(w, k, impl, stale)
  {
    assert SlotOk(t, t.sockets[h]);
    var x := OneAccepted(t.sockets[h], err);
    PassKeepsInv(t, h, x);
    var v := SetSlot(Pass(t, h), h, x);
    NoRoomSame(t, h, x, caller);
    AcceptIsKeep(t, caller, h, true, impl, err);
    KeptIsFound(v, caller, h, impl);
    FirstFreeSame(t.sockets, h, x);
    HeldBeforeSame(t.sockets, h, x, FirstFree(t.sockets), impl);
  }

  lemma KeptIsFound(v: Stack, caller: int, h: int, impl: int)
    requires Inv(v) && impl != 0 && NotLive(v, impl) && !NoRoom(v, caller)
    requires 0 <= h < |v.sockets| && v.sockets[h].clientId == caller
    ensures var (w, r) := Keep(v, caller, h, impl);
            var k := FirstFree(v.sockets);
            var stale := HeldBefore(v.sockets, k, impl);
            && r == Reply(Success, k) && 0 <= k < |v.sockets| == |w.sockets| && IsLive(w.sockets[k])
            && (HandleOf(w.sockets, impl) == k <==> !stale)
            && Hears(w, k, impl, stale)
  {
    ReserveFailsIff(v, impl, caller);
    KeepMakes(v, caller, h, impl);
    var k := FirstFree(v.sockets);
    assert SlotOk(v, v.sockets[k]);
    FoundBefore(v, Keep(v, caller, h, impl).0, k, impl);
  }

  lemma FirstFreeSame(ss: seq<Slot>, h: int, x: Slot)
    requires 0 <= h < |ss| && x.status == ss[h].status
    ensures FirstFree(ss[h := x]) == FirstFree(ss)
  {
    var r := FirstFree(ss);
    assert forall i :: 0 <= i < |ss| ==> ss[h := x][i].status == ss[i].status;
    IndexOfUnique(ss[h := x], (y: Slot) => y.status == Free, r);
  }

  lemma HeldBeforeSame(ss: seq<Slot>, h: int, x: Slot, k: int, impl: int)
    requires 0 <= h < |ss| && x.impl == ss[h].impl
    ensures HeldBefore(ss[h := x], k, impl) <==> HeldBefore(ss, k, impl)
  {
    if HeldBefore(ss, k, impl) {
      var i :| 0 <= i < k && ss[i].impl == impl;
      assert ss[h := x][i].impl == impl;
    }
  }

  lemma FoundBefore(t: Stack, u: Stack, k: int, impl: int)
    requires Inv(t) && impl != 0 && NotLive(t, impl) && k == FirstFree(t.sockets) && k >= 0
    requires |u.sockets| == |t.sockets| && u.sockets == t.sockets[k := u.sockets[k]]
    requires u.sockets[k].impl == impl && IsLive(u.sockets[k])
    ensures HandleOf(u.sockets, impl) == k <==> !HeldBefore(t.sockets, k, impl)
    ensures Hears(u, k, impl, HeldBefore(t.sockets, k, impl))
  {
    var found := HandleOf(u.sockets, impl);
    assert 0 <= found <= k;
    assert forall i :: 0 <= i < k ==> u.sockets[i] == t.sockets[i];
    if found < k {
      assert t.sockets[found].impl == impl;
      assert !IsLive(t.sockets[found]);
    } else {
      assert forall i :: 0 <= i < k ==> u.sockets[i].impl != impl;
    }
    HeardAt(u, found, k, impl);
  }

  // An event report reaches the slot that the lookup finds, and no other.
  lemma HeardAt(u: Stack, found: int, k: int, impl: int)
    requires 0 <= k < |u.sockets| && found == HandleOf(u.sockets, impl) && found >= 0
    requires found == k ==> IsLive(u.sockets[k]) && u.sockets[k].impl == impl
    requires found != k ==> !IsLive(u.sockets[found]) && (u.sockets[found].status == InUse)
    ensures Hears(u, k, impl, found != k)
  {
  }

  /** Accept in full, for an admitted call. The listener has one pending connection less if it had any,
      whether or not picoTCP had a connection and whether or not it could be kept, and its accept event is
      there exactly if some are left; the new handle inherits owner and buffer from the listener and
      knows it as its parent. */
  lemma AcceptOutcome(t: Stack, caller: int, h: int, impl: int, err: OsError)
    requires Inv(t) && (impl != 0 ==> Fresh(t, impl))
    requires EntryError(t, OpAccept, caller, h, 0, true, true) == Success
    ensures var (u, r) := Accept(t, caller, h, true, impl, err);
            && 0 <= h < |u.sockets| == |t.sockets|
            && (var x := t.sockets[h];
                var y := u.sockets[h];
                && y.pendingConnections == (if x.pendingConnections > 0 then x.pendingConnections - 1 else 0)
                && (EvConnAcpt in y.eventMask <==> y.pendingConnections > 0)
                && (forall ev :: ev != EvConnAcpt ==> (ev in y.eventMask <==> ev in x.eventMask))
                && y == x.(currentError := err, pendingConnections := y.pendingConnections, eventMask := y.eventMask))
            && if impl == 0 then
              && r == Reply(err, -1) && u == t.(sockets := t.sockets[h := u.sockets[h]])
            else if NoRoom(t, caller) then
              && r == Reply(InsufficientSpace, -1) && u.clients == t.clients
              && u.sockets == t.sockets[h := u.sockets[h]]
              && u.ledger.closed == t.ledger.closed + multiset{impl}
            else
              && r.err == Success && NewHandle(t, u, r.value, caller, impl) && r.value != h
              && u.sockets[r.value].parentHandle == h && u.sockets[r.value].currentError == Success
              && u.sockets[r.value].socketType == Stream && u.sockets[r.value].connected
              && u.sockets == t.sockets[h := u.sockets[h]][r.value := u.sockets[r.value]]
              && u.clients == CountUp(t.clients, ClientIndex(t.clients, caller), 1)
              && u.ledger.closed == t.ledger.closed
  {
    assert SlotOk(t, t.sockets[h]);
    PassKeepsInv(t, h, OneAccepted(t.sockets[h], err));
    var v := SetSlot(Pass(t, h), h, OneAccepted(t.sockets[h], err));
    AcceptIsKeep(t, caller, h, true, impl, err);
    OneAcceptedCounts(t.sockets[h], err);
    if impl != 0 {
      ReserveFailsIff(v, impl, caller);
      NoRoomSame(t, h, OneAccepted(t.sockets[h], err), caller);
      KeepMakes(v, caller, h, impl);
      var k := Reserve(v, impl, caller).1;
      if k >= 0 {
        AcceptedIsNew(t, v, Keep(v, caller, h, impl).0, h, k, caller, impl);
      }
    }
  }

  lemma OneAcceptedCounts(x: Slot, err: OsError)
    requires x.pendingConnections >= 0 && (EvConnAcpt in x.eventMask <==> x.pendingConnections > 0)
    ensures var y := OneAccepted(x, err);
            && y.pendingConnections == (if x.pendingConnections > 0 then x.pendingConnections - 1 else 0)
            && (EvConnAcpt in y.eventMask <==> y.pendingConnections > 0)
            && (forall ev :: ev != EvConnAcpt ==> (ev in y.eventMask <==> ev in x.eventMask))
            && y == x.(currentError := err, pendingConnections := y.pendingConnections, eventMask := y.eventMask)
  {
  }

  lemma AcceptedIsNew(t: Stack, v: Stack, w: Stack, h: int, k: int, caller: int, impl: int)
    requires Inv(t) && Inv(v) && Fresh(t, impl) && impl != 0 && 0 <= h < |t.sockets| && t.sockets[h].status == InUse
    requires SlotOk(t, t.sockets[h]) && t.sockets[h].clientId == caller
    requires |v.sockets| == |t.sockets| && v.sockets == t.sockets[h := v.sockets[h]]
    requires v.sockets[h].status == InUse && v.sockets[h].impl == t.sockets[h].impl
    requires k == FirstFree(v.sockets) && k >= 0
    requires w.sockets == v.sockets[k := KeptSlot(v.sockets[k], caller, h, impl, t.sockets[h].buf)]
    ensures NewHandle(t, w, k, caller, impl) && w.sockets == v.sockets[k := w.sockets[k]]
  {
    assert SlotOk(v, v.sockets[k]);
    assert forall j :: 0 <= j < k ==> v.sockets[j].status == InUse && (v.sockets[j] == t.sockets[j] || j == h);
    OnlyNewHolder(t, w, k, impl);
  }

  lemma NoRoomSame(t: Stack, h: int, x: Slot, caller: int)
    requires 0 <= h < |t.sockets| && x.status == t.sockets[h].status
    ensures NoRoom(t.(sockets := t.sockets[h := x]), caller) == NoRoom(t, caller)
  {
    var v := t.(sockets := t.sockets[h := x]);
    assert forall i :: 0 <= i < |t.sockets| ==> v.sockets[i].status == t.sockets[i].status;
  }

  /** Close on a slot of one's own always frees it, also when picoTCP reports an error: all the slot's
      fields but its buffer are as after start, its picoTCP socket is no longer found, the counter goes
      down by one. picoTCP gets the socket back unless FIN already finished it. */
  lemma CloseOutcome(t: Stack, caller: int, h: int, res: PicoResult)
    requires Inv(t) && Guard(t, OpClose, caller, h, true) == Success && ClientIndex(t.clients, caller) >= 0
    ensures var (u, r) := Close(t, caller, h, res);
            && r.err == (if EvFin !in t.sockets[h].eventMask && res.ret < 0 then res.err else Success)
            && u.sockets == t.sockets[h := Slot(Free, -1, {}, Success, 0, false, -1, NoType, t.sockets[h].buf, 0)]
            && u.clients == CountUp(t.clients, ClientIndex(t.clients, caller), -1)
            && u.ledger == t.ledger.(closed := t.ledger.closed
                                     + if EvFin in t.sockets[h].eventMask then multiset{} else multiset{t.sockets[h].impl})
            && HandleOf(u.sockets, t.sockets[h].impl) == -1
  {
    var x := t.sockets[h];
    assert SlotOk(t, x);
    var u := Close(t, caller, h, res).0;
    assert u.sockets == t.sockets[h := Cleared(x)];
    forall i | 0 <= i < |u.sockets| ensures u.sockets[i].impl != x.impl {
      assert SlotOk(t, t.sockets[i]);
    }
  }

  /** A refused close changes nothing. */
  lemma CloseRefused(t: Stack, caller: int, h: int, res: PicoResult)
    requires Inv(t) && (Guard(t, OpClose, caller, h, true) != Success || t.sockets[h].status == Free)
    ensures Close(t, caller, h, res)
         == (t, Reply(if Guard(t, OpClose, caller, h, true) != Success then Guard(t, OpClose, caller, h, true) else InvalidHandle, 0))
  {
    if Guard(t, OpClose, caller, h, true) == Success {
      assert SlotOk(t, t.sockets[h]);
    }
  }

  /** A second close of the same handle is refused and changes nothing. */
  lemma CloseTwice(t: Stack, caller: int, h: int, res: PicoResult, again: PicoResult)
    requires Inv(t) && Guard(t, OpClose, caller, h, true) == Success && ClientIndex(t.clients, caller) >= 0
    ensures var u := Close(t, caller, h, res).0;
            Close(u, caller, h, again) == (u, Reply(InvalidHandle, 0))
  {
    CloseOutcome(t, caller, h, res);
  }

  /** Create and close cancel out: counters, all other slots, the free slots and the next handle are
      as before. */
  lemma CreateCloseRoundTrip(t: Stack, caller: int, ty: SocketType, impl: int, err: OsError, res: PicoResult)
    requires Inv(t) && t.lifecycle == Running && (ty == Stream || ty == Dgram) && impl != 0 && Fresh(t, impl)
    requires !NoRoom(t, caller)
    ensures var (u, r) := Create(t, caller, true, true, ty, impl, err);
            var w := Close(u, caller, r.value, res).0;
            && w.clients == t.clients
            && |w.sockets| == |t.sockets|
            && (forall i :: 0 <= i < |t.sockets| && i != r.value ==> w.sockets[i] == t.sockets[i])
            && w.sockets[r.value].status == Free
            && FirstFree(w.sockets) == r.value == FirstFree(t.sockets)
            && Live(w.sockets) == Live(t.sockets)
  {
    CreateOutcome(t, caller, ty, impl, err);
    CreateKeepsInv(t, caller, true, true, ty, impl, err);
    var (u, r) := Create(t, caller, true, true, ty, impl, err);
    assert u.lifecycle == Running;
    CloseNew(t, u, r.value, caller, res);
    BackToFree(t, u, Close(u, caller, r.value, res).0, r.value);
  }

  lemma CloseNew(t: Stack, u: Stack, h: int, caller: int, res: PicoResult)
    requires Inv(u) && u.lifecycle == Running && ClientIndex(t.clients, caller) >= 0
    requires 0 <= h < |u.sockets| && u.sockets[h].clientId == caller
    requires u.clients == CountUp(t.clients, ClientIndex(t.clients, caller), 1)
    ensures Close(u, caller, h, res).0.clients == t.clients
    ensures Close(u, caller, h, res).0.sockets == u.sockets[h := Cleared(u.sockets[h])]
  {
    ClientIndexSame(t.clients, u.clients, caller);
    CloseOutcome(u, caller, h, res);
  }

  lemma BackToFree(t: Stack, u: Stack, w: Stack, h: int)
    requires Inv(t) && 0 <= h < |t.sockets| && t.sockets[h].status == Free
    requires forall j :: 0 <= j < h ==> t.sockets[j].status == InUse
    requires |u.sockets| == |t.sockets|
    requires u.sockets == t.sockets[h := u.sockets[h]] && w.sockets == u.sockets[h := Cleared(u.sockets[h])]
    ensures w.sockets == t.sockets[h := w.sockets[h]]
    ensures FirstFree(w.sockets) == h == FirstFree(t.sockets)
    ensures Live(w.sockets) == Live(t.sockets)
  {
    assert w.sockets == t.sockets[h := w.sockets[h]];
    GatherSame(t.sockets, LiveOf, h, w.sockets[h]);
    IndexOfUnique(w.sockets, (x: Slot) => x.status == Free, h);
    IndexOfUnique(t.sockets, (x: Slot) => x.status == Free, h);
  }

  /** Buffer confinement on receive: an admitted call works in the caller's own dataport, the size
      check never fails, and what it reports as read fits both the request and that dataport. */
  lemma ReceiveIsConfined(t: Stack, op: Op, caller: int, h: int, len: nat, res: PicoResult, drained: bool, empty: bool)
    requires Inv(t) && (op == OpRead || op == OpRecvFrom)
    requires Guard(t, op, caller, h, true) == Success && Admit(t.sockets[h]) == Success
    requires res.ret <= Clamp(t, caller, len)
    ensures t.sockets[h].buf == PortOf(t, caller)
    ensures var r := Receive(t, op, caller, h, len, true, res, drained, empty).1;
            && r.err == (if res.ret < 0 then res.err else if empty then TryAgain else Success)
            && 0 <= r.value <= len && r.value <= t.sockets[h].buf.size
            && (res.ret >= 0 ==> r.value == res.ret)
  {
    assert SlotOk(t, t.sockets[h]);
  }

  /** The same for write and sendto. */
  lemma SendIsConfined(t: Stack, op: Op, caller: int, h: int, len: nat, res: PicoResult)
    requires Inv(t) && (op == OpWrite || op == OpSendTo)
    requires Guard(t, op, caller, h, true) == Success && Admit(t.sockets[h]) == Success
    requires res.ret <= Clamp(t, caller, len)
    ensures t.sockets[h].buf == PortOf(t, caller)
    ensures var r := PlainIo(t, op, caller, h, len, true, true, res).1;
            && r.err == (if res.ret < 0 then res.err else Success)
            && 0 <= r.value <= len && r.value <= t.sockets[h].buf.size
            && (res.ret >= 0 ==> r.value == res.ret)
  {
    assert SlotOk(t, t.sockets[h]);
  }

  /** Connect, bind, listen, write and sendto in full: an admitted call succeeds exactly if picoTCP does not
      report an error, returns picoTCP's error otherwise, and leaves nothing behind but this error in
      its slot; what carries data returns how much went. A refused call changes nothing. */
  lemma PlainIoOutcome(t: Stack, op: Op, caller: int, h: int, len: nat, argsOk: bool, addrOk: bool, res: PicoResult)
    requires Inv(t) && op in {OpConnect, OpBind, OpListen, OpWrite, OpSendTo}
    ensures var (u, r) := PlainIo(t, op, caller, h, len, argsOk, addrOk, res);
            var n := EntryLen(t, op, caller, h, len, argsOk);
            if MayCall(t, op, caller, h, argsOk, addrOk) then
              && u == t.(sockets := t.sockets[h := t.sockets[h].(currentError := res.err)])
              && r.err == (if res.ret >= 0 then Success else res.err)
              && r.value == (if op in {OpConnect, OpBind, OpListen} then len else if res.ret >= 0 then res.ret else 0)
            else u == t && r == Reply(EntryError(t, op, caller, h, n, argsOk, addrOk), n) && r.err != Success
  {
    EntryIff(t, op, caller, h, len, argsOk, addrOk);
    EntryCodes(t, op, caller, h, len, argsOk, addrOk);
    if MayCall(t, op, caller, h, argsOk, addrOk) {
      assert SlotOk(t, t.sockets[h]);
    }
  }

  /** Read and recvfrom in full, undisturbed: what came is returned, an error is stored and returned, and READ
      goes exactly on an error, when nothing came, or, for a read, when less came than asked for. For
      recvfrom, a datagram without data counts as something if its source is filled in. */
  lemma ReadOutcome(t: Stack, caller: int, h: int, len: nat, argsOk: bool, res: PicoResult)
    requires Inv(t)
    ensures var (u, r) := ReadRpc(t, caller, h, len, argsOk, res);
            var n := EntryLen(t, OpRead, caller, h, len, argsOk);
            if MayCall(t, OpRead, caller, h, argsOk, true) then
              && |u.sockets| == |t.sockets|
              && (EvRead in u.sockets[h].eventMask <==> EvRead in t.sockets[h].eventMask && res.ret > 0 && res.ret >= n)
              && (forall ev :: ev != EvRead ==> (ev in u.sockets[h].eventMask <==> ev in t.sockets[h].eventMask))
              && u == t.(sockets := t.sockets[h := t.sockets[h].(currentError := res.err, eventMask := u.sockets[h].eventMask)])
              && r == (if res.ret < 0 then Reply(res.err, 0) else if res.ret == 0 then Reply(TryAgain, 0) else Reply(Success, res.ret))
            else u == t && r == Reply(EntryError(t, OpRead, caller, h, n, argsOk, true), n) && r.err != Success
  {
    EntryIff(t, OpRead, caller, h, len, argsOk, true);
    EntryCodes(t, OpRead, caller, h, len, argsOk, true);
    if MayCall(t, OpRead, caller, h, argsOk, true) {
      assert SlotOk(t, t.sockets[h]);
      assert EntryLen(t, OpRead, caller, h, len, argsOk) == Clamp(t, caller, len);
    }
  }

  lemma RecvFromOutcome(t: Stack, caller: int, h: int, len: nat, argsOk: bool, res: PicoResult, srcAddr: int, srcPort: int)
    requires Inv(t)
    ensures var (u, r) := RecvFromRpc(t, caller, h, len, argsOk, res, srcAddr, srcPort);
            var n := EntryLen(t, OpRecvFrom, caller, h, len, argsOk);
            var came := res.ret > 0 || (res.ret == 0 && (srcAddr != 0 || srcPort != 0));
            if MayCall(t, OpRecvFrom, caller, h, argsOk, true) then
              && |u.sockets| == |t.sockets|
              && (EvRead in u.sockets[h].eventMask <==> EvRead in t.sockets[h].eventMask && came)
              && (forall ev :: ev != EvRead ==> (ev in u.sockets[h].eventMask <==> ev in t.sockets[h].eventMask))
              && u == t.(sockets := t.sockets[h := t.sockets[h].(currentError := res.err, eventMask := u.sockets[h].eventMask)])
              && r == (if res.ret < 0 then Reply(res.err, 0) else if came then Reply(Success, res.ret) else Reply(TryAgain, 0))
            else u == t && r == Reply(EntryError(t, OpRecvFrom, caller, h, n, argsOk, true), n) && r.err != Success
  {
    EntryIff(t, OpRecvFrom, caller, h, len, argsOk, true);
    if MayCall(t, OpRecvFrom, caller, h, argsOk, true) {
      assert SlotOk(t, t.sockets[h]);
    }
  }

  /** In every reachable state: free slots carry nothing of their last user, and the accept event is
      there exactly while connections are pending. */
  lemma SlotNormalForm(m: System, h: int)
    requires Reachable(m) && 0 <= h < |m.t.sockets|
    ensures var x := m.t.sockets[h];
            && (x.status == Free ==> (x.impl == 0 && x.eventMask == {} && x.pendingConnections == 0))
            && (x.status == Free ==> forall i :: 0 <= i < |m.t.clients| && m.t.clients[i].inUse ==> m.t.clients[i].clientId != x.clientId)
            && (x.status == InUse ==> x.impl != 0 && x.buf == PortOf(m.t, x.clientId))
            && (EvConnAcpt in x.eventMask <==> x.pendingConnections > 0)
  {
    ReachableInv(m);
    assert SlotOk(m.t, m.t.sockets[h]);
    forall i | 0 <= i < |m.t.clients| && m.t.clients[i].inUse && m.t.sockets[h].status == Free
      ensures m.t.clients[i].clientId != m.t.sockets[h].clientId
    {
      assert ClientOk(m.t, m.t.clients[i]);
    }
  }
}
