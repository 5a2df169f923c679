/** The picoTCP sockets in the ledger's terms: which addresses are alive, who is given to picoTCP, and
    what is handed back twice. */
module PicoSockets {
  import opened Types
  import opened SocketTable
  import opened Handlers
  import opened Machine
  import opened Counting

  // ---------------------------------------------------------------- what a step books

  lemma AcceptLedger(t: Stack, caller: int, h: int, argsOk: bool, impl: int, err: OsError)
    ensures var l := Accept(t, caller, h, argsOk, impl, err).0.ledger;
            l == t.ledger || l == Obtain(t, impl).ledger || l == HandBack(Obtain(t, impl), impl).ledger
  {
    if EntryError(t, OpAccept, caller, h, 0, argsOk, true) == Success {
      AcceptIsKeep(t, caller, h, argsOk, impl, err);
      KeepMakes(SetSlot(Pass(t, h), h, OneAccepted(t.sockets[h], err)), caller, h, impl);
    }
  }

  lemma CreateLedger(t: Stack, caller: int, argsOk: bool, domainOk: bool, ty: SocketType, impl: int, err: OsError)
    ensures var l := Create(t, caller, argsOk, domainOk, ty, impl, err).0.ledger;
            l == t.ledger || l == Obtain(t, impl).ledger || l == HandBack(Obtain(t, impl), impl).ledger
  {
    if impl != 0 {
      OpenMakes(t, caller, ty, impl, err);
    }
  }

  lemma CloseLedger(t: Stack, caller: int, h: int, res: PicoResult)
    requires Inv(t)
    ensures var l := Close(t, caller, h, res).0.ledger;
            l == t.ledger
            || exists p :: HeldLive(t, p) && l == t.ledger.(closed := t.ledger.closed + multiset{p})
  {
    if Guard(t, OpClose, caller, h, true) == Success && Close(t, caller, h, res).0.ledger != t.ledger {
      assert SlotOk(t, t.sockets[h]);
      assert HeldLive(t, t.sockets[h].impl);
    }
  }

  lemma EventLedger(t: Stack, impl: int, evs: set<PicoEvent>, listening: bool, tcp: TcpState, err: OsError)
    requires Inv(t) && impl != 0
    ensures var l := Callback(t, impl, evs, listening, tcp, err).ledger;
            && l == t.ledger.(finished := l.finished, orphans := l.orphans)
            && l.orphans == t.ledger.orphans + (if Fresh(t, impl) && tcp == CloseWait then multiset{impl} else multiset{})
            && l.finished == t.ledger.finished
                 + (if HeldLive(t, impl) && EvFin in RaisedBy(evs, listening, err) then multiset{impl} else multiset{})
  {
    HandleOfInUse(t, impl);
    HeldLiveAt(t, impl);
    var h := HandleOf(t.sockets, impl);
    if h >= 0 {
      assert IsLive(Raise(t.sockets[h], evs, listening, err))
         <==> IsLive(t.sockets[h]) && EvFin !in RaisedBy(evs, listening, err);
    }
  }

  lemma HeldLiveAt(t: Stack, impl: int)
    requires Inv(t) && impl != 0
    ensures HeldLive(t, impl) <==> HandleOf(t.sockets, impl) >= 0 && IsLive(t.sockets[HandleOf(t.sockets, impl)])
    ensures HandleOf(t.sockets, impl) < 0 <==> Fresh(t, impl)
  {
    HandleOfInUse(t, impl);
    var h := HandleOf(t.sockets, impl);
    if i :| 0 <= i < |t.sockets| && IsLive(t.sockets[i]) && t.sockets[i].impl == impl {
      assert h == i;
    }
  }

  /** The step has picoTCP hand out a socket of this address. */
  predicate Obtains(s: Step, p: int)
  {
    (s.SCreate? || s.SAccept?) && s.impl == p
  }

  // Books only grow, and what is obtained only when picoTCP hands something out.
  predicate Booked(l: Ledger, k: Ledger, p: int, obtains: bool)
  {
    l.closed[p] <= k.closed[p] && l.finished[p] <= k.finished[p] && (!obtains ==> k.obtained[p] == l.obtained[p])
  }

  lemma OpenBooks(m: System, s: Step, p: int)
    requires Enabled(m, s) && (s.SCreate? || s.SAccept?)
    ensures Booked(m.t.ledger, Next(m, s).t.ledger, p, Obtains(s, p))
  {
    if s.SCreate? {
      CreateLedger(m.t, s.caller, s.argsOk, s.domainOk, s.ty, s.impl, s.err);
    } else {
      AcceptLedger(m.t, s.caller, s.h, s.argsOk, s.impl, s.err);
    }
  }

  lemma StepBooks(m: System, s: Step, p: int)
    requires SysInv(m) && Enabled(m, s)
    ensures Booked(m.t.ledger, Next(m, s).t.ledger, p, Obtains(s, p))
  {
    if s.SCreate? || s.SAccept? {
      OpenBooks(m, s, p);
    } else if s.SClose? {
      CloseLedger(m.t, s.caller, s.h, s.res);
    } else if s.SEvent? {
      EventLedger(m.t, s.impl, s.evs, s.listening, s.tcp, s.err);
    }
  }

  // ---------------------------------------------------------------- alive and finished

  /** A socket of this address came from picoTCP and was neither handed back nor finished. */
  predicate Alive(t: Stack, p: int)
  {
    t.ledger.obtained[p] > t.ledger.closed[p] + t.ledger.finished[p]
  }

  lemma AliveIsHeld(t: Stack, p: int)
    requires Inv(t)
    ensures Alive(t, p) <==> HeldLive(t, p)
  {
    LiveCount(t, p);
  }

  /** The step gives picoTCP the socket of this address: an admitted call, or a close. */
  predicate Passes(m: System, s: Step, p: int)
  {
    match s
    case SPlainIo(op, caller, h, len, argsOk, addrOk, _) =>
      EntryError(m.t, op, caller, h, EntryLen(m.t, op, caller, h, len, argsOk), argsOk, addrOk) == Success
      && m.t.sockets[h].impl == p
    case SAccept(caller, h, argsOk, _, _) =>
      EntryError(m.t, OpAccept, caller, h, 0, argsOk, true) == Success && m.t.sockets[h].impl == p
    case SRead(caller, h, len, argsOk, _) => MayReceive(m.t, OpRead, caller, h, len, argsOk) && m.t.sockets[h].impl == p
    case SRecvFrom(caller, h, len, argsOk, _, _, _) =>
      MayReceive(m.t, OpRecvFrom, caller, h, len, argsOk) && m.t.sockets[h].impl == p
    case SClose(caller, h, _) =>
      Guard(m.t, OpClose, caller, h, true) == Success && Admit(m.t.sockets[h]) == Success && m.t.sockets[h].impl == p
    case _ => false
  }

  /** Only live sockets are given to picoTCP, by the ledger and not by the table's own word. */
  lemma PassesOnlyAlive(m: System, s: Step, p: int)
    requires SysInv(m) && Passes(m, s, p)
    ensures Alive(m.t, p)
  {
    assert SlotOk(m.t, m.t.sockets[s.h]);
    assert HeldLive(m.t, p);
    AliveIsHeld(m.t, p);
  }

  /** FIN finishes a socket exactly once: it is booked exactly if the socket was alive, and then, as in any
      case, none of this address is alive any more. */
  lemma FinFinishes(m: System, s: Step)
    requires SysInv(m) && Enabled(m, s) && s.SEvent? && EvFin in RaisedBy(s.evs, s.listening, s.err)
    ensures Next(m, s).t.ledger.finished[s.impl] == m.t.ledger.finished[s.impl] + if Alive(m.t, s.impl) then 1 else 0
    ensures !Alive(Next(m, s).t, s.impl)
  {
    AliveIsHeld(m.t, s.impl);
    LiveCount(m.t, s.impl);
    EventLedger(m.t, s.impl, s.evs, s.listening, s.tcp, s.err);
  }

  /** What is not alive stays so until picoTCP hands out a socket of this address again. */
  lemma {:induction false} DeadStaysDead(m: System, run: seq<Step>, p: int)
    requires SysInv(m) && ValidRun(m, run) && !Alive(m.t, p)
    requires forall i :: 0 <= i < |run| ==> !Obtains(run[i], p)
    ensures !Alive(Exec(m, run).t, p)
    decreases |run|
  {
    if |run| > 0 {
      StepBooks(m, run[0], p);
      StepKeepsInv(m, run[0]);
      DeadStaysDead(Next(m, run[0]), run[1..], p);
    }
  }

  /** After picoTCP reported FIN for a socket, no handler, close included, gives this address to picoTCP
      until picoTCP itself hands it out again, whatever runs in between. */
  lemma FinishedIsNotPassed(m: System, s: Step, run: seq<Step>, r: Step)
    requires Reachable(m) && Enabled(m, s) && s.SEvent? && EvFin in RaisedBy(s.evs, s.listening, s.err)
    requires ValidRun(Next(m, s), run) && forall i :: 0 <= i < |run| ==> !Obtains(run[i], s.impl)
    ensures !Passes(Exec(Next(m, s), run), r, s.impl)
  {
    ReachableInv(m);
    FinFinishes(m, s);
    StepKeepsInv(m, s);
    NotPassedAfter(Next(m, s), run, r, s.impl);
  }

  lemma NotPassedAfter(m: System, run: seq<Step>, r: Step, p: int)
    requires SysInv(m) && ValidRun(m, run) && !Alive(m.t, p)
    requires forall i :: 0 <= i < |run| ==> !Obtains(run[i], p)
    ensures !Passes(Exec(m, run), r, p)
  {
    DeadStaysDead(m, run, p);
    RunKeepsInv(m, run);
    if Passes(Exec(m, run), r, p) {
      PassesOnlyAlive(Exec(m, run), r, p);
    }
  }

  // ---------------------------------------------------------------- handed back twice

  /** How often the layer gave a socket of this address to pico_socket_close, the callback included. */
  function GivenBack(t: Stack, p: int): nat
  {
    t.ledger.closed[p] + t.ledger.orphans[p]
  }

  /** The step gives an address to pico_socket_close that was given to it before, while nothing new came
      from picoTCP under this address and nothing under it is alive. */
  predicate ClosesAgain(m: System, s: Step, p: int)
    requires Enabled(m, s)
  {
    && GivenBack(Next(m, s).t, p) > GivenBack(m.t, p) > 0
    && Next(m, s).t.ledger.obtained[p] == m.t.ledger.obtained[p]
    && !Alive(m.t, p)
  }

  lemma RpcNeverClosesAgain(m: System, s: Step, p: int)
    requires SysInv(m) && Enabled(m, s) && (s.SCreate? || s.SAccept? || s.SClose?)
    ensures !ClosesAgain(m, s, p)
  {
    match s {
      case SCreate(caller, argsOk, domainOk, ty, i, err) => CreateLedger(m.t, caller, argsOk, domainOk, ty, i, err);
      case SAccept(caller, h, argsOk, i, err) => AcceptLedger(m.t, caller, h, argsOk, i, err);
      case SClose(caller, h, res) => CloseLedger(m.t, caller, h, res);
    }
    AliveIsHeld(m.t, p);
  }

  /** Exactly when an address is handed back again: the callback reports CLOSE_WAIT for an address that no
      slot in use holds, and that a close or the callback itself handed back before. No other step
      does it. */
  lemma ClosesAgainIff(m: System, s: Step, p: int)
    requires Reachable(m) && Enabled(m, s)
    ensures ClosesAgain(m, s, p) <==>
            s.SEvent? && s.impl == p && s.tcp == CloseWait && Fresh(m.t, p) && GivenBack(m.t, p) > 0
  {
    ReachableInv(m);
    AliveIsHeld(m.t, p);
    if s.SEvent? {
      EventLedger(m.t, s.impl, s.evs, s.listening, s.tcp, s.err);
    } else if s.SCreate? || s.SAccept? || s.SClose? {
      RpcNeverClosesAgain(m, s, p);
    }
  }
}
