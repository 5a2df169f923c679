/** No event is lost, no wake-up is lost, and FIN is final, over all runs. */
module EventDelivery {
  import opened Types
  import opened SocketTable
  import opened Handlers
  import opened Machine

  predicate Raised(m: System, h: int, ev: Event)
  {
    0 <= h < |m.t.sockets| && ev in m.t.sockets[h].eventMask
  }

  // A call of accept as far as picoTCP.
  predicate CallAdmitted(t: Stack, op: Op, caller: int, h: int, argsOk: bool)
  {
    Guard(t, op, caller, h, argsOk) == Success && Admit(t.sockets[h]) == Success
  }

  /** The owner closes slot h. */
  predicate Frees(m: System, s: Step, h: int)
  {
    s.SClose? && s.h == h && Guard(m.t, OpClose, s.caller, h, true) == Success
  }

  /** The step writes a record of slot h that carries the event. */
  predicate Carries(m: System, s: Step, h: int, ev: Event)
    requires Enabled(m, s)
  {
    s.SScanSnap? &&
    var records := Next(m, s).scan.records;
    |records| > 0 && records[|records| - 1].handle == h && ev in records[|records| - 1].eventMask
  }

  /** The ways an event may leave the mask of slot h: a transient event is copied into a record, a
      read that found the queue empty clears READ, the last pending connection is accepted, the owner closes. */
  predicate AccountsFor(m: System, s: Step, h: int, ev: Event)
    requires Enabled(m, s) && 0 <= h < |m.t.sockets|
  {
    match s
    case SScanSnap => ev in TRANSIENT && Carries(m, s, h, ev)
    case SClearRead => ev == EvRead && m.scan.h == h
    case SAccept(caller, k, argsOk, _, _) =>
      ev == EvConnAcpt && k == h && CallAdmitted(m.t, OpAccept, caller, h, argsOk)
      && m.t.sockets[h].pendingConnections == 1
    case SClose(_, _, _) => Frees(m, s, h)
    case _ => false
  }

  predicate EverAccounted(m: System, run: seq<Step>, h: int, ev: Event)
    requires ValidRun(m, run) && 0 <= h < |m.t.sockets|
    decreases |run|
  {
    |run| > 0 && (AccountsFor(m, run[0], h, ev)
                  || (|Next(m, run[0]).t.sockets| == |m.t.sockets| && EverAccounted(Next(m, run[0]), run[1..], h, ev)))
  }

  /** Slot h still has the event and still belongs to the same client. */
  predicate Kept(m: System, m': System, h: int, ev: Event)
    requires 0 <= h < |m.t.sockets|
  {
    && |m'.t.sockets| == |m.t.sockets|
    && ev in m'.t.sockets[h].eventMask
    && m'.t.sockets[h].clientId == m.t.sockets[h].clientId
  }

  lemma RaisedInUse(m: System, h: int, ev: Event)
    requires SysInv(m) && Raised(m, h, ev)
    ensures m.t.sockets[h].status == InUse
  {
    assert SlotOk(m.t, m.t.sockets[h]);
  }

  lemma CreateKeepsEvents(m: System, s: Step, h: int, ev: Event)
    requires SysInv(m) && Enabled(m, s) && s.SCreate? && Raised(m, h, ev)
    ensures Kept(m, Next(m, s), h, ev)
  {
    RaisedInUse(m, h, ev);
    RpcFrame(m, s);
    var k := Reserve(Obtain(m.t, s.impl), s.impl, s.caller).1;
    assert Next(m, s).t.sockets == m.t.sockets || Next(m, s).t.sockets == m.t.sockets[k := Next(m, s).t.sockets[k]];
  }

  // What accept does to a slot in use.
  lemma AcceptedSlot(t: Stack, caller: int, h: int, argsOk: bool, impl: int, err: OsError, i: int)
    requires CallAdmitted(t, OpAccept, caller, h, argsOk) && 0 <= i < |t.sockets| && t.sockets[i].status == InUse
    ensures var w := Accept(t, caller, h, argsOk, impl, err).0;
            |w.sockets| == |t.sockets| && w.sockets[i] == if i == h then OneAccepted(t.sockets[h], err) else t.sockets[i]
  {
    AcceptIsKeep(t, caller, h, argsOk, impl, err);
    KeepMakes(SetSlot(Pass(t, h), h, OneAccepted(t.sockets[h], err)), caller, h, impl);
  }

  lemma AcceptKeepsEvents(m: System, s: Step, h: int, ev: Event)
    requires SysInv(m) && Enabled(m, s) && s.SAccept? && Raised(m, h, ev)
    ensures Kept(m, Next(m, s), h, ev) || AccountsFor(m, s, h, ev)
  {
    RaisedInUse(m, h, ev);
    if CallAdmitted(m.t, OpAccept, s.caller, s.h, s.argsOk) {
      assert SlotOk(m.t, m.t.sockets[s.h]);
      AcceptedSlot(m.t, s.caller, s.h, s.argsOk, s.impl, s.err, h);
    } else {
      assert Next(m, s) == m;
    }
  }

  lemma CloseKeepsEvents(m: System, s: Step, h: int, ev: Event)
    requires SysInv(m) && Enabled(m, s) && s.SClose? && Raised(m, h, ev)
    ensures Kept(m, Next(m, s), h, ev) || AccountsFor(m, s, h, ev)
  {
    RpcFrame(m, s);
    if Next(m, s).t.sockets != m.t.sockets {
      assert Next(m, s).t.sockets == m.t.sockets[s.h := Next(m, s).t.sockets[s.h]];
    }
  }

  lemma SnapKeepsEvents(m: System, s: Step, h: int, ev: Event)
    requires SysInv(m) && Enabled(m, s) && s.SScanSnap? && Raised(m, h, ev)
    ensures Kept(m, Next(m, s), h, ev) || AccountsFor(m, s, h, ev)
  {
    if h == Scanner(m).head {
      var records := Next(m, s).scan.records;
      assert records[|records| - 1] == RecordOf(HeadSlot(m), h);
    }
  }

  lemma ReceiveKeepsEvents(m: System, s: Step, h: int, ev: Event)
    requires SysInv(m) && Enabled(m, s) && (s.SRead? || s.SRecvFrom? || s.SPlainIo?) && Raised(m, h, ev)
    ensures Kept(m, Next(m, s), h, ev)
  {
  }

  /** One step loses no event. */
  lemma StepKeepsEvents(m: System, s: Step, h: int, ev: Event)
    requires SysInv(m) && Enabled(m, s) && Raised(m, h, ev)
    ensures Kept(m, Next(m, s), h, ev) || AccountsFor(m, s, h, ev)
  {
    match s {
      case SCreate(_, _, _, _, _, _) => CreateKeepsEvents(m, s, h, ev);
      case SAccept(_, _, _, _, _) => AcceptKeepsEvents(m, s, h, ev);
      case SClose(_, _, _) => CloseKeepsEvents(m, s, h, ev);
      case SScanSnap => SnapKeepsEvents(m, s, h, ev);
      case SRead(_, _, _, _, _) | SRecvFrom(_, _, _, _, _, _, _) | SPlainIo(_, _, _, _, _, _, _) =>
        ReceiveKeepsEvents(m, s, h, ev);
      case SEvent(impl, evs, listening, tcp, err) => CallbackAround(m.t, impl, evs, listening, tcp, err);
      case _ =>
    }
  }

  /** No event is lost: over any run, with control steps between any two steps of a scan, an event
      in a mask is still there at the end unless one of the run's steps accounted for it. */
  lemma {:induction false} NoEventIsLost(m: System, run: seq<Step>, h: int, ev: Event)
    requires SysInv(m) && ValidRun(m, run) && Raised(m, h, ev)
    ensures Kept(m, Exec(m, run), h, ev) || EverAccounted(m, run, h, ev)
    decreases |run|
  {
    if |run| > 0 {
      StepKeepsEvents(m, run[0], h, ev);
      if !AccountsFor(m, run[0], h, ev) {
        StepKeepsInv(m, run[0]);
        NoEventIsLost(Next(m, run[0]), run[1..], h, ev);
      }
    }
  }

  // ---------------------------------------------------------------- what a report and a tick do

  /** What slot x looks like after a report r on its socket: each kind of event for its own reason. */
  predicate HeardOf(x: Slot, y: Slot, r: PicoReport)
  {
    && (EvConnAcpt in y.eventMask <==> EvConnAcpt in x.eventMask || (PicoConn in r.evs && r.listening))
    && (EvConnEst in y.eventMask <==> EvConnEst in x.eventMask || (PicoConn in r.evs && !r.listening))
    && (EvRead in y.eventMask <==> EvRead in x.eventMask || PicoRd in r.evs)
    && (EvWrite in y.eventMask <==> EvWrite in x.eventMask || PicoWr in r.evs)
    && (EvClose in y.eventMask <==> EvClose in x.eventMask || PicoClose in r.evs)
    && (EvFin in y.eventMask <==> EvFin in x.eventMask || PicoFin in r.evs || (PicoErr in r.evs && r.err == ConnRefused))
    && (EvError in y.eventMask <==> EvError in x.eventMask || PicoErr in r.evs)
    && y.pendingConnections == x.pendingConnections + (if PicoConn in r.evs && r.listening then 1 else 0)
    && y.connected == (x.connected || (PicoConn in r.evs && !r.listening))
    && y.currentError == (if PicoErr in r.evs then r.err else x.currentError)
    && y == x.(eventMask := y.eventMask, pendingConnections := y.pendingConnections,
               connected := y.connected, currentError := y.currentError)
  }

  /** From t to u the slot in use that holds r's socket heard of r, its owner is flagged, and no other slot
      moved. */
  predicate TablesHeardOf(t: Stack, u: Stack, r: PicoReport)
  {
    && |u.sockets| == |t.sockets| && |u.clients| == |t.clients|
    && (forall h :: 0 <= h < |t.sockets| ==>
          if t.sockets[h].status == InUse && t.sockets[h].impl == r.impl then
            HeardOf(t.sockets[h], u.sockets[h], r) && OwnerFlagged(u, u.sockets[h].clientId)
          else u.sockets[h] == t.sockets[h])
  }

  predicate OwnerFlagged(t: Stack, id: int)
  {
    forall i :: 0 <= i < |t.clients| && t.clients[i].inUse && t.clients[i].clientId == id ==> t.clients[i].needsToBeNotified
  }

  // Two masks with the same events.
  lemma SameEvents(a: set<Event>, b: set<Event>)
    requires EvConnEst in a <==> EvConnEst in b
    requires EvConnAcpt in a <==> EvConnAcpt in b
    requires EvRead in a <==> EvRead in b
    requires EvWrite in a <==> EvWrite in b
    requires EvClose in a <==> EvClose in b
    requires EvFin in a <==> EvFin in b
    requires EvError in a <==> EvError in b
    ensures a == b
  {
    forall e ensures e in a <==> e in b {
      match e {
        case EvConnEst => case EvConnAcpt => case EvRead => case EvWrite => case EvClose => case EvFin => case EvError =>
      }
    }
  }

  // The seven events, kind by kind.
  lemma MaskEffect(x: Slot, evs: set<PicoEvent>, listening: bool, err: OsError)
    ensures var mask := Raise(x, evs, listening, err).eventMask;
            && (EvConnAcpt in mask <==> EvConnAcpt in x.eventMask || (PicoConn in evs && listening))
            && (EvConnEst in mask <==> EvConnEst in x.eventMask || (PicoConn in evs && !listening))
            && (EvRead in mask <==> EvRead in x.eventMask || PicoRd in evs)
            && (EvWrite in mask <==> EvWrite in x.eventMask || PicoWr in evs)
            && (EvClose in mask <==> EvClose in x.eventMask || PicoClose in evs)
            && (EvFin in mask <==> EvFin in x.eventMask || PicoFin in evs || (PicoErr in evs && err == ConnRefused))
            && (EvError in mask <==> EvError in x.eventMask || PicoErr in evs)
  {
  }

  lemma HolderIsFound(t: Stack, impl: int, h: int)
    requires Inv(t) && impl != 0 && 0 <= h < |t.sockets| && t.sockets[h].status == InUse && t.sockets[h].impl == impl
    ensures HandleOf(t.sockets, impl) == h && ClientIndex(t.clients, t.sockets[h].clientId) >= 0
  {
    HandleOfInUse(t, impl);
    assert SlotOk(t, t.sockets[h]);
  }

  /** An event report in full, for the slot h in use that holds the socket: each kind of event gets into the
      mask exactly for its own reason, a connection request counts, an established connection and an
      error are remembered; the slot's owner is flagged, and all else stays as it is. */
  lemma ReportEffect(t: Stack, impl: int, evs: set<PicoEvent>, listening: bool, tcp: TcpState, err: OsError, h: int)
    requires Inv(t) && impl != 0 && 0 <= h < |t.sockets| && t.sockets[h].status == InUse && t.sockets[h].impl == impl
    ensures var u := Callback(t, impl, evs, listening, tcp, err);
            && |u.sockets| == |t.sockets| && |u.clients| == |t.clients|
            && (forall i :: 0 <= i < |t.sockets| && i != h ==> u.sockets[i] == t.sockets[i])
            && (var x := t.sockets[h];
                var y := u.sockets[h];
                && (EvConnAcpt in y.eventMask <==> EvConnAcpt in x.eventMask || (PicoConn in evs && listening))
                && (EvConnEst in y.eventMask <==> EvConnEst in x.eventMask || (PicoConn in evs && !listening))
                && (EvRead in y.eventMask <==> EvRead in x.eventMask || PicoRd in evs)
                && (EvWrite in y.eventMask <==> EvWrite in x.eventMask || PicoWr in evs)
                && (EvClose in y.eventMask <==> EvClose in x.eventMask || PicoClose in evs)
                && (EvFin in y.eventMask <==> EvFin in x.eventMask || PicoFin in evs || (PicoErr in evs && err == ConnRefused))
                && (EvError in y.eventMask <==> EvError in x.eventMask || PicoErr in evs)
                && y.pendingConnections == x.pendingConnections + (if PicoConn in evs && listening then 1 else 0)
                && y.connected == (x.connected || (PicoConn in evs && !listening))
                && y.currentError == (if PicoErr in evs then err else x.currentError)
                && y == x.(eventMask := y.eventMask, pendingConnections := y.pendingConnections,
                           connected := y.connected, currentError := y.currentError))
            && (forall i :: 0 <= i < |t.clients| && t.clients[i].inUse ==>
                  u.clients[i] == t.clients[i].(needsToBeNotified :=
                    t.clients[i].needsToBeNotified || t.clients[i].clientId == t.sockets[h].clientId))
  {
    HolderIsFound(t, impl, h);
    var x := t.sockets[h];
    MaskEffect(x, evs, listening, err);
    var y := Raise(x, evs, listening, err);
    var ci := ClientIndex(t.clients, x.clientId);
    assert Callback(t, impl, evs, listening, tcp, err).sockets == t.sockets[h := y];
    assert Callback(t, impl, evs, listening, tcp, err).clients == NeedNotify(t.clients, ci);
  }

  /** For a socket that no slot in use holds the report leaves the tables alone; in CLOSE_WAIT the socket is
      handed back. */
  lemma UnheldReportEffect(t: Stack, impl: int, evs: set<PicoEvent>, listening: bool, tcp: TcpState, err: OsError)
    requires Inv(t) && impl != 0
    requires forall i :: 0 <= i < |t.sockets| && t.sockets[i].status == InUse ==> t.sockets[i].impl != impl
    ensures Callback(t, impl, evs, listening, tcp, err)
         == t.(ledger := t.ledger.(orphans := t.ledger.orphans + if tcp == CloseWait then multiset{impl} else multiset{}))
  {
    HandleOfInUse(t, impl);
  }

  /** Both together, for any report. */
  lemma ReportIsHeard(t: Stack, r: PicoReport)
    requires Inv(t) && r.impl != 0
    ensures TablesHeardOf(t, Callback(t, r.impl, r.evs, r.listening, r.tcp, r.err), r)
  {
    HandleOfInUse(t, r.impl);
    var u := Callback(t, r.impl, r.evs, r.listening, r.tcp, r.err);
    var k := HandleOf(t.sockets, r.impl);
    if k < 0 {
      UnheldReportEffect(t, r.impl, r.evs, r.listening, r.tcp, r.err);
    } else {
      ReportEffect(t, r.impl, r.evs, r.listening, r.tcp, r.err, k);
      assert HeardOf(t.sockets[k], u.sockets[k], r) && OwnerFlagged(u, u.sockets[k].clientId);
    }
  }

  /** A notify pass in full: who is due, and that it leaves every flag of a registered client down and
      nothing else changed. */
  lemma TickEffect(t: Stack, i: int)
    requires 0 <= i < |t.clients|
    ensures Due(t, t.clients[i]) <==>
              && t.clients[i].inUse
              && (t.clients[i].needsToBeNotified
                  || exists j :: 0 <= j < |t.sockets| && t.sockets[j].status == InUse && t.sockets[j].eventMask != {}
                                 && t.sockets[j].clientId == t.clients[i].clientId)
    ensures |Tick(t).clients| == |t.clients| && Tick(t) == t.(clients := Tick(t).clients)
    ensures Tick(t).clients[i]
         == t.clients[i].(needsToBeNotified := !t.clients[i].inUse && t.clients[i].needsToBeNotified)
  {
  }

  // TickEffect for all clients.
  lemma TickEffects(t: Stack)
    ensures forall i :: 0 <= i < |t.clients| ==>
              (Due(t, t.clients[i]) <==>
                && t.clients[i].inUse
                && (t.clients[i].needsToBeNotified
                    || exists j :: 0 <= j < |t.sockets| && t.sockets[j].status == InUse && t.sockets[j].eventMask != {}
                                   && t.sockets[j].clientId == t.clients[i].clientId))
    ensures forall i :: 0 <= i < |t.clients| && t.clients[i].inUse ==> !Tick(t).clients[i].needsToBeNotified
  {
    forall i | 0 <= i < |t.clients|
      ensures Due(t, t.clients[i]) <==>
                && t.clients[i].inUse
                && (t.clients[i].needsToBeNotified
                    || exists j :: 0 <= j < |t.sockets| && t.sockets[j].status == InUse && t.sockets[j].eventMask != {}
                                   && t.sockets[j].clientId == t.clients[i].clientId)
    {
      TickEffect(t, i);
    }
  }

  /** What the callback raises is in the mask of the one slot that holds the socket, and the
      slot's owner is flagged. */
  lemma CallbackRaises(m: System, s: Step, ev: Event)
    requires SysInv(m) && s.SEvent? && Enabled(m, s)
    requires HandleOf(m.t.sockets, s.impl) >= 0 && ev in RaisedBy(s.evs, s.listening, s.err)
    ensures var h := HandleOf(m.t.sockets, s.impl);
            var ci := ClientIndex(m.t.clients, m.t.sockets[h].clientId);
            && Raised(Next(m, s), h, ev)
            && ci >= 0
            && Next(m, s).t.clients == m.t.clients[ci := m.t.clients[ci].(needsToBeNotified := true)]
            && forall i :: 0 <= i < |m.t.sockets| && i != h ==> Next(m, s).t.sockets[i] == m.t.sockets[i]
  {
    HandleOfInUse(m.t, s.impl);
    assert SlotOk(m.t, m.t.sockets[HandleOf(m.t.sockets, s.impl)]);
  }

  /** No wake-up is lost: after an event was raised, every later tick signals the slot's owner,
      whatever became of its notify flag, until a step accounts for the event. */
  lemma NoWakeUpIsLost(m: System, run: seq<Step>, h: int, ev: Event)
    requires SysInv(m) && ValidRun(m, run) && Raised(m, h, ev) && !EverAccounted(m, run, h, ev)
    ensures var ci := ClientIndex(m.t.clients, m.t.sockets[h].clientId);
            0 <= ci < |Exec(m, run).t.clients| && Due(Exec(m, run).t, Exec(m, run).t.clients[ci])
  {
    NoEventIsLost(m, run, h, ev);
    RunKeepsInv(m, run);
    RunSameClients(m, run);
    var m' := Exec(m, run);
    RaisedInUse(m, h, ev);
    RaisedInUse(m', h, ev);
    assert SlotOk(m.t, m.t.sockets[h]);
  }

  predicate EverFreed(m: System, run: seq<Step>, h: int)
    requires ValidRun(m, run)
    decreases |run|
  {
    |run| > 0 && (Frees(m, run[0], h) || EverFreed(Next(m, run[0]), run[1..], h))
  }

  /** FIN is final: it stays until the owner closes the slot, and no handler, close included, gives
      picoTCP a socket that has seen FIN. */
  lemma {:induction false} FinIsFinal(m: System, run: seq<Step>, h: int)
    requires SysInv(m) && ValidRun(m, run) && Raised(m, h, EvFin)
    ensures Kept(m, Exec(m, run), h, EvFin) || EverFreed(m, run, h)
    ensures !Exec(m, run).t.staleUse
    decreases |run|
  {
    RunKeepsInv(m, run);
    if |run| > 0 {
      StepKeepsEvents(m, run[0], h, EvFin);
      StepKeepsInv(m, run[0]);
      if !Frees(m, run[0], h) {
        FinIsFinal(Next(m, run[0]), run[1..], h);
      }
    }
  }

  // ---------------------------------------------------------------- nothing is made up or told twice

  /** The step is an event report of the socket in slot h, and it raises the event. */
  predicate RaisesOn(m: System, s: Step, h: int, ev: Event)
  {
    s.SEvent? && HandleOf(m.t.sockets, s.impl) == h && ev in RaisedBy(s.evs, s.listening, s.err)
  }

  lemma AcceptRaisesNothing(t: Stack, caller: int, k: int, argsOk: bool, impl: int, err: OsError, h: int)
    requires 0 <= h < |t.sockets|
    ensures var u := Accept(t, caller, k, argsOk, impl, err).0;
            |u.sockets| == |t.sockets| && u.sockets[h].eventMask <= t.sockets[h].eventMask
  {
    if EntryError(t, OpAccept, caller, k, 0, argsOk, true) == Success {
      AcceptIsKeep(t, caller, k, argsOk, impl, err);
      KeepMakes(SetSlot(Pass(t, k), k, OneAccepted(t.sockets[k], err)), caller, k, impl);
    }
  }

  lemma OpenCloseRaiseNothing(m: System, s: Step, h: int)
    requires Enabled(m, s) && (s.SCreate? || s.SClose?) && 0 <= h < |m.t.sockets|
    ensures |Next(m, s).t.sockets| == |m.t.sockets| && Next(m, s).t.sockets[h].eventMask <= m.t.sockets[h].eventMask
  {
    if s.SCreate? {
      if s.impl != 0 {
        OpenMakes(m.t, s.caller, s.ty, s.impl, s.err);
      }
    } else if 0 <= s.h < |m.t.sockets| {
      CloseShape(m.t, s.caller, s.h, s.res);
    }
  }

  lemma RpcRaisesNothing(m: System, s: Step, h: int)
    requires Enabled(m, s) && IsAtomicRpc(s) && 0 <= h < |m.t.sockets|
    ensures |Next(m, s).t.sockets| == |m.t.sockets| && Next(m, s).t.sockets[h].eventMask <= m.t.sockets[h].eventMask
  {
    if s.SCreate? || s.SClose? {
      OpenCloseRaiseNothing(m, s, h);
    } else if s.SAccept? {
      AcceptRaisesNothing(m.t, s.caller, s.h, s.argsOk, s.impl, s.err, h);
    }
  }

  /** No event is made up: an event that is new in a slot's mask was just reported by picoTCP for the
      socket that the slot holds. */
  lemma NewEventWasRaised(m: System, s: Step, h: int, ev: Event)
    requires SysInv(m) && Enabled(m, s) && !Raised(m, h, ev) && Raised(Next(m, s), h, ev)
    ensures RaisesOn(m, s, h, ev)
  {
    StepSameClients(m, s);
    if IsAtomicRpc(s) {
      RpcRaisesNothing(m, s, h);
    }
  }

  function One(b: bool): nat
  {
    if b then 1 else 0
  }

  /** How often the run reports the event of slot h to a client. */
  function Carried(m: System, run: seq<Step>, h: int, ev: Event): nat
    requires ValidRun(m, run)
    decreases |run|
  {
    if |run| == 0 then 0 else One(Carries(m, run[0], h, ev)) + Carried(Next(m, run[0]), run[1..], h, ev)
  }

  /** How often picoTCP raises it in the run. */
  function Raisings(m: System, run: seq<Step>, h: int, ev: Event): nat
    requires ValidRun(m, run)
    decreases |run|
  {
    if |run| == 0 then 0 else One(RaisesOn(m, run[0], h, ev)) + Raisings(Next(m, run[0]), run[1..], h, ev)
  }

  lemma CarriedIsTaken(m: System, s: Step, h: int, ev: Event)
    requires SysInv(m) && Enabled(m, s) && ev in TRANSIENT && Carries(m, s, h, ev)
    ensures Raised(m, h, ev) && !Raised(Next(m, s), h, ev)
  {
    var records := Next(m, s).scan.records;
    assert records[|records| - 1] == RecordOf(HeadSlot(m), Scanner(m).head);
  }

  /** A transient event is told no more often than it was raised: over any run the reports that carry it,
      and one more if it is still in the mask, are at most the times it was raised, and one more if
      it was in the mask at first. */
  lemma {:induction false} NoEventIsToldTwice(m: System, run: seq<Step>, h: int, ev: Event)
    requires SysInv(m) && ValidRun(m, run) && ev in TRANSIENT
    ensures Carried(m, run, h, ev) + One(Raised(Exec(m, run), h, ev)) <= Raisings(m, run, h, ev) + One(Raised(m, h, ev))
    decreases |run|
  {
    if |run| > 0 {
      var s := run[0];
      StepKeepsInv(m, s);
      NoEventIsToldTwice(Next(m, s), run[1..], h, ev);
      if Carries(m, s, h, ev) {
        CarriedIsTaken(m, s, h, ev);
      } else if !Raised(m, h, ev) && Raised(Next(m, s), h, ev) {
        NewEventWasRaised(m, s, h, ev);
      }
    }
  }

  lemma {:induction false} AccountedIsCarried(m: System, run: seq<Step>, h: int, ev: Event)
    requires ValidRun(m, run) && 0 <= h < |m.t.sockets| && ev in TRANSIENT
    requires EverAccounted(m, run, h, ev) && !EverFreed(m, run, h)
    ensures Carried(m, run, h, ev) >= 1
    decreases |run|
  {
    if !AccountsFor(m, run[0], h, ev) {
      AccountedIsCarried(Next(m, run[0]), run[1..], h, ev);
    }
  }

  /** Exactly once: a transient event that was raised once is, as long as its owner does not close the
      slot, either still in the mask and in no report, or gone from it and in exactly one. */
  lemma ToldExactlyOnce(m: System, run: seq<Step>, h: int, ev: Event)
    requires SysInv(m) && ValidRun(m, run) && Raised(m, h, ev) && ev in TRANSIENT
    requires Raisings(m, run, h, ev) == 0 && !EverFreed(m, run, h)
    ensures Carried(m, run, h, ev) == if Raised(Exec(m, run), h, ev) then 0 else 1
  {
    NoEventIsToldTwice(m, run, h, ev);
    NoEventIsLost(m, run, h, ev);
    if EverAccounted(m, run, h, ev) {
      AccountedIsCarried(m, run, h, ev);
    }
  }

  // ---------------------------------------------------------------- the window of read and recvfrom

  predicate ControlOnly(run: seq<Step>)
  {
    forall i :: 0 <= i < |run| ==> IsControl(run[i])
  }

  lemma CallbackMask(t: Stack, impl: int, evs: set<PicoEvent>, listening: bool, tcp: TcpState, err: OsError, h: int, ev: Event)
    requires 0 <= h < |t.sockets|
    ensures var u := Callback(t, impl, evs, listening, tcp, err);
            && |u.sockets| == |t.sockets|
            && (ev in u.sockets[h].eventMask <==>
                  ev in t.sockets[h].eventMask || (HandleOf(t.sockets, impl) == h && ev in RaisedBy(evs, listening, err)))
  {
    var k := HandleOf(t.sockets, impl);
    if k >= 0 {
      assert Callback(t, impl, evs, listening, tcp, err).sockets == t.sockets[k := Raise(t.sockets[k], evs, listening, err)];
    }
  }

  lemma ControlStepAdds(m: System, s: Step, h: int, ev: Event)
    requires Enabled(m, s) && IsControl(s) && 0 <= h < |m.t.sockets|
    ensures Next(m, s).scan == m.scan && |Next(m, s).t.sockets| == |m.t.sockets|
    ensures Raised(Next(m, s), h, ev) <==> Raised(m, h, ev) || RaisesOn(m, s, h, ev)
  {
    if s.SEvent? {
      CallbackMask(m.t, s.impl, s.evs, s.listening, s.tcp, s.err, h, ev);
    }
  }

  /** While the control thread runs alone, slots gain just the events that picoTCP raises on them. */
  lemma {:induction false} ControlAddsRaised(m: System, run: seq<Step>, h: int, ev: Event)
    requires ValidRun(m, run) && ControlOnly(run) && 0 <= h < |m.t.sockets|
    ensures Exec(m, run).scan == m.scan && |Exec(m, run).t.sockets| == |m.t.sockets|
    ensures Raised(Exec(m, run), h, ev) <==> Raised(m, h, ev) || Raisings(m, run, h, ev) > 0
    decreases |run|
  {
    if |run| > 0 {
      ControlStepAdds(m, run[0], h, ev);
      ControlAddsRaised(Next(m, run[0]), run[1..], h, ev);
    }
  }

  /** The step is a read or recvfrom that gets as far as picoTCP. */
  predicate Receives(m: System, s: Step)
  {
    || (s.SRead? && MayReceive(m.t, OpRead, s.caller, s.h, s.len, s.argsOk))
    || (s.SRecvFrom? && MayReceive(m.t, OpRecvFrom, s.caller, s.h, s.len, s.argsOk))
  }

  /** It takes the queue for empty: an error, nothing, or, for a read, less than asked for. */
  predicate Drains(m: System, s: Step)
    requires s.SRead? || s.SRecvFrom?
  {
    if s.SRead? then ReadDrains(m.t, s.caller, s.len, s.res) else RecvFromDrains(s.res, s.srcAddr, s.srcPort)
  }

  // The state when the call returns, if it is in state e after the mutex was released.
  function Returned(e: System): System
  {
    if Enabled(e, SClearRead) then Next(e, SClearRead) else e
  }

  lemma ReturnTakesRead(e: System, h: int, ev: Event)
    requires 0 <= h < |e.t.sockets| && (e.scan.Idle? || (e.scan.Clearing? && e.scan.h == h))
    ensures Returned(e).scan.Idle?
    ensures Raised(Returned(e), h, ev) <==> Raised(e, h, ev) && !(ev == EvRead && e.scan.Clearing?)
  {
  }

  lemma ReceiveLeavesMasks(m: System, s: Step, ev: Event)
    requires Enabled(m, s) && Receives(m, s)
    ensures 0 <= s.h < |m.t.sockets| == |Next(m, s).t.sockets|
    ensures Raised(Next(m, s), s.h, ev) <==> Raised(m, s.h, ev)
    ensures Next(m, s).scan == if Drains(m, s) then Clearing(s.caller, s.h) else Idle
  {
  }

  /** Read and recvfrom with the control thread running after the mutex was released: when the call
      returns, every event is there that was there before or was raised since, READ excepted: that is
      there exactly if, besides, the call did not find the queue empty. So a READ raised in this
      window is lost exactly if the call drained the queue just before. */
  lemma ReadIsLostIff(m: System, s: Step, run: seq<Step>, ev: Event)
    requires Enabled(m, s) && Receives(m, s)
    requires ValidRun(Next(m, s), run) && ControlOnly(run)
    ensures var z := Returned(Exec(Next(m, s), run));
            var raised := Raisings(Next(m, s), run, s.h, ev) > 0;
            && z.scan.Idle?
            && (Raised(z, s.h, ev) <==> (Raised(m, s.h, ev) || raised) && !(ev == EvRead && Drains(m, s)))
  {
    ReceiveLeavesMasks(m, s, ev);
    ControlAddsRaised(Next(m, s), run, s.h, ev);
    ReturnTakesRead(Exec(Next(m, s), run), s.h, ev);
  }
}
