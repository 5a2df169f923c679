/** The whole layer as a state machine. Most handlers, callbacks and ticks are atomic steps; a call of
    getPendingEvents is many steps, a read or recvfrom that empties the queue is two, and control
    steps may come between any two of them. */
module Machine {
  import opened Types
  import opened SocketTable
  import opened Handlers

  // ---------------------------------------------------------------- a scan in progress

  // What the RPC thread does next: test the slot at head, take its snapshot, or finish.
  datatype Phase = Testing | Snapping | Ending

  // What the RPC thread is in the middle of. Active: the local variables of getPendingEvents; `walked`
  // counts the slots passed so far. Clearing: a read or recvfrom of `caller` found the queue of slot h
  // empty, has released the mutex, and is yet to clear READ.
  datatype Scan =
    | Idle
    | Active(phase: Phase, ci: nat, max: nat, walked: nat, records: seq<Record>)
    | Clearing(caller: int, h: int)

  datatype System = System(t: Stack, scan: Scan)

  predicate InScan(m: System)
  {
    m.scan.Active? && m.scan.ci < |m.t.clients| && 0 <= m.t.clients[m.scan.ci].head < |m.t.sockets|
  }

  function Scanner(m: System): Client
    requires InScan(m)
  {
    m.t.clients[m.scan.ci]
  }

  function HeadSlot(m: System): Slot
    requires InScan(m)
  {
    m.t.sockets[Scanner(m).head]
  }

  function WithScanner(m: System, c: Client): System
    requires InScan(m)
  {
    m.(t := m.t.(clients := m.t.clients[m.scan.ci := c]))
  }

  predicate Pending(x: Slot, id: int)
  {
    x.clientId == id && x.eventMask != {}
  }

  function RecordOf(x: Slot, h: int): Record
  {
    Record(x.eventMask, h, x.parentHandle, x.currentError)
  }

  function Acknowledged(x: Slot): Slot
  {
    x.(eventMask := x.eventMask - TRANSIENT)
  }

  // How many records fit into both the requested size and the caller's dataport.
  function Room(t: Stack, caller: int, size: nat): nat
    requires t.recordSize > 0
  {
    Min(size, PortOf(t, caller).size) / t.recordSize
  }

  function ScanError(t: Stack, caller: int, size: nat, argsOk: bool): OsError
  {
    if LifecycleError(t.lifecycle) != Success then LifecycleError(t.lifecycle)
    else if !argsOk then InvalidParameter
    else if size < t.recordSize then BufferTooSmall
    else if ClientIndex(t.clients, caller) < 0 then Aborted
    else Success
  }

  function ScanBegin(m: System, caller: int, size: nat, argsOk: bool): System
    requires m.t.recordSize > 0
  {
    if ScanError(m.t, caller, size, argsOk) != Success then m
    else m.(scan := Active(Testing, ClientIndex(m.t.clients, caller), Room(m.t, caller, size), 0, []))
  }

  // head moves on, cyclically; the loop ends at tail or when enough records are there.
  function Advance(m: System, records: seq<Record>): System
    requires InScan(m)
  {
    var c := Scanner(m);
    var head := if c.head + 1 == |m.t.sockets| then 0 else c.head + 1;
    var phase := if head != c.tail && |records| < m.scan.max then Testing else Ending;
    WithScanner(m, c.(head := head)).(scan := m.scan.(phase := phase, walked := m.scan.walked + 1, records := records))
  }

  function ScanTest(m: System): System
    requires InScan(m)
  {
    if Pending(HeadSlot(m), Scanner(m).clientId) then m.(scan := m.scan.(phase := Snapping))
    else Advance(m, m.scan.records)
  }

  function ScanSnap(m: System): System
    requires InScan(m)
  {
    var h := Scanner(m).head;
    var x := HeadSlot(m);
    Advance(m.(t := SetSlot(m.t, h, Acknowledged(x))), m.scan.records + [RecordOf(x, h)])
  }

  function ScanEnd(m: System): System
    requires InScan(m)
  {
    var c := Scanner(m);
    var left := |m.scan.records| >= m.scan.max && c.head != c.tail;
    WithScanner(m, c.(needsToBeNotified := c.needsToBeNotified || left, tail := c.head)).(scan := Idle)
  }

  // ---------------------------------------------------------------- read and recvfrom

  /** The part under the mutex; if the queue is empty, READ is still to be cleared. */
  function ReceiveBegin(m: System, op: Op, caller: int, h: int, len: nat, argsOk: bool, res: PicoResult, drained: bool): System
  {
    System(Receive(m.t, op, caller, h, len, argsOk, res, false, false).0,
           if MayReceive(m.t, op, caller, h, len, argsOk) && drained then Clearing(caller, h) else m.scan)
  }

  // ---------------------------------------------------------------- steps

  datatype Step =
    | SCreate(caller: int, argsOk: bool, domainOk: bool, ty: SocketType, impl: int, err: OsError)
    | SClose(caller: int, h: int, res: PicoResult)
    | SPlainIo(op: Op, caller: int, h: int, len: nat, argsOk: bool, addrOk: bool, res: PicoResult)
    | SAccept(caller: int, h: int, argsOk: bool, impl: int, err: OsError)
    | SRead(caller: int, h: int, len: nat, argsOk: bool, res: PicoResult)
    | SRecvFrom(caller: int, h: int, len: nat, argsOk: bool, res: PicoResult, srcAddr: int, srcPort: int)
    | SClearRead
    | SScanBegin(caller: int, size: nat, argsOk: bool)
    | SScanTest
    | SScanSnap
    | SScanEnd
    | SEvent(impl: int, evs: set<PicoEvent>, listening: bool, tcp: TcpState, err: OsError)
    | STick
    | SLifecycle(next: Lifecycle)

  /** There is one RPC thread: another RPC starts only after a scan or a read is over. The rest is the
      environment's contract: picoTCP returns no socket that a slot in use holds, reports events
      of real sockets only. */
  predicate Enabled(m: System, s: Step)
  {
    match s
    case SCreate(_, _, _, _, impl, _) => m.scan.Idle? && (impl != 0 ==> Fresh(m.t, impl))
    case SAccept(_, _, _, impl, _) => m.scan.Idle? && (impl != 0 ==> Fresh(m.t, impl))
    case SClose(_, _, _) | SRead(_, _, _, _, _) | SRecvFrom(_, _, _, _, _, _, _) => m.scan.Idle?
    case SPlainIo(op, _, _, _, _, _, _) =>
      m.scan.Idle? && (op == OpConnect || op == OpBind || op == OpListen || op == OpWrite || op == OpSendTo)
    case SScanBegin(_, _, _) => m.scan.Idle? && m.t.recordSize > 0
    case SClearRead => m.scan.Clearing? && 0 <= m.scan.h < |m.t.sockets|
    case SScanTest => InScan(m) && m.scan.phase == Testing
    case SScanSnap => InScan(m) && m.scan.phase == Snapping
    case SScanEnd => InScan(m) && m.scan.phase == Ending
    case SEvent(impl, _, _, _, _) => impl != 0
    case STick => true
    case SLifecycle(_) => true
  }

  function Next(m: System, s: Step): System
    requires Enabled(m, s)
  {
    match s
    case SCreate(caller, argsOk, domainOk, ty, impl, err) => m.(t := Create(m.t, caller, argsOk, domainOk, ty, impl, err).0)
    case SClose(caller, h, res) => m.(t := Close(m.t, caller, h, res).0)
    case SPlainIo(op, caller, h, len, argsOk, addrOk, res) => m.(t := PlainIo(m.t, op, caller, h, len, argsOk, addrOk, res).0)
    case SAccept(caller, h, argsOk, impl, err) => m.(t := Accept(m.t, caller, h, argsOk, impl, err).0)
    case SRead(caller, h, len, argsOk, res) =>
      ReceiveBegin(m, OpRead, caller, h, len, argsOk, res, ReadDrains(m.t, caller, len, res))
    case SRecvFrom(caller, h, len, argsOk, res, srcAddr, srcPort) =>
      ReceiveBegin(m, OpRecvFrom, caller, h, len, argsOk, res, RecvFromDrains(res, srcAddr, srcPort))
    case SClearRead => m.(t := ClearRead(m.t, m.scan.h), scan := Idle)
    case SScanBegin(caller, size, argsOk) => ScanBegin(m, caller, size, argsOk)
    case SScanTest => ScanTest(m)
    case SScanSnap => ScanSnap(m)
    case SScanEnd => ScanEnd(m)
    case SEvent(impl, evs, listening, tcp, err) => m.(t := Callback(m.t, impl, evs, listening, tcp, err))
    case STick => m.(t := Tick(m.t))
    case SLifecycle(l) => m.(t := m.t.(lifecycle := l))
  }

  /** Every step of the run is enabled when it is taken. */
  predicate ValidRun(m: System, run: seq<Step>)
    decreases |run|
  {
    |run| == 0 || (Enabled(m, run[0]) && ValidRun(Next(m, run[0]), run[1..]))
  }

  function Exec(m: System, run: seq<Step>): System
    requires ValidRun(m, run)
    decreases |run|
  {
    if |run| == 0 then m else Exec(Next(m, run[0]), run[1..])
  }

  // ---------------------------------------------------------------- invariant

  function Wrap(x: int, n: int): int
  {
    if x >= n then x - n else x
  }

  /** How many slots the cursor passes on its way from `from` to `to` on a circle of n slots. */
  function Dist(from: int, to: int, n: int): int
  {
    if to >= from then to - from else to - from + n
  }

  /** The records lie within the slots walked, in rotation order, and none has an empty mask. */
  predicate RecordsOk(records: seq<Record>, tail: int, walked: nat, n: nat)
  {
    && (forall k :: 0 <= k < |records| ==>
          && 0 <= records[k].handle < n
          && Dist(tail, records[k].handle, n) < walked
          && records[k].eventMask != {})
    && (forall j, k :: 0 <= j < k < |records| ==>
          Dist(tail, records[j].handle, n) < Dist(tail, records[k].handle, n))
  }

  /** Slot x is the client's own, and it still has what the record says of it, apart from the events
      that the report took out of the mask. */
  predicate RecordFits(r: Record, x: Slot, id: int)
  {
    x.clientId == id && x.parentHandle == r.parentHandle && r.eventMask - TRANSIENT <= x.eventMask
  }

  predicate RecordsHeld(records: seq<Record>, ss: seq<Slot>, id: int)
  {
    forall k :: 0 <= k < |records| ==>
      0 <= records[k].handle < |ss| && RecordFits(records[k], ss[records[k].handle], id)
  }

  predicate ActiveOk(m: System)
    requires m.scan.Active?
  {
    var n := |m.t.sockets|;
    var s := m.scan;
    && InScan(m)
    && Scanner(m).inUse
    && s.walked <= n
    && 0 <= Scanner(m).tail < n
    && Scanner(m).head == Wrap(Scanner(m).tail + s.walked, n)
    && |s.records| <= s.walked
    && (|s.records| <= s.max || |s.records| == 1)
    && RecordsOk(s.records, Scanner(m).tail, s.walked, n)
    && RecordsHeld(s.records, m.t.sockets, Scanner(m).clientId)
    && (s.phase != Ending ==> s.walked < n && (s.walked > 0 ==> |s.records| < s.max))
    && (s.phase == Snapping ==> Pending(HeadSlot(m), Scanner(m).clientId))
    && (s.phase == Ending ==> s.walked >= 1 && (s.walked == n || |s.records| >= s.max))
  }

  predicate CursorsAtRest(m: System)
  {
    forall i :: 0 <= i < |m.t.clients| && m.t.clients[i].inUse && !(m.scan.Active? && m.scan.ci == i)
      ==> m.t.clients[i].head == m.t.clients[i].tail
  }

  predicate ScanOk(m: System)
  {
    && CursorsAtRest(m)
    && (m.scan.Active? ==> ActiveOk(m))
    && (m.scan.Clearing? ==> 0 <= m.scan.h < |m.t.sockets| && m.t.sockets[m.scan.h].clientId == m.scan.caller)
  }

  predicate SysInv(m: System)
  {
    Inv(m.t) && ScanOk(m)
  }

  // ---------------------------------------------------------------- what keeps it

  predicate SameCursors(cs: seq<Client>, ds: seq<Client>)
  {
    && |cs| == |ds|
    && forall i :: 0 <= i < |cs| ==>
      && cs[i].clientId == ds[i].clientId && cs[i].inUse == ds[i].inUse
      && cs[i].head == ds[i].head && cs[i].tail == ds[i].tail
  }

  // No slot changes hands and no event disappears.
  predicate MasksGrow(ss: seq<Slot>, us: seq<Slot>)
  {
    && |ss| == |us|
    && forall i :: 0 <= i < |ss| ==>
      && us[i].clientId == ss[i].clientId && us[i].parentHandle == ss[i].parentHandle
      && ss[i].eventMask <= us[i].eventMask
  }

  lemma ScanOkAround(m: System, u: Stack)
    requires ScanOk(m) && SameCursors(m.t.clients, u.clients)
    requires m.scan.Idle? || MasksGrow(m.t.sockets, u.sockets)
    ensures ScanOk(m.(t := u))
  {
    if m.scan.Active? {
      var x := u.sockets[Scanner(m).head];
      assert HeadSlot(m).eventMask <= x.eventMask;
    }
  }

  lemma WalkedHead(tail: int, walked: int, n: int)
    requires 0 <= tail < n && 0 <= walked < n
    ensures Dist(tail, Wrap(tail + walked, n), n) == walked
    ensures var h := Wrap(tail + walked, n);
            (if h + 1 == n then 0 else h + 1) == Wrap(tail + walked + 1, n)
  {
  }

  lemma AdvanceKeepsScanOk(m: System, records: seq<Record>)
    requires ScanOk(m) && m.scan.Active? && m.scan.phase != Ending
    requires |records| <= m.scan.walked + 1 && (|records| <= m.scan.max || |records| == 1)
    requires RecordsOk(records, Scanner(m).tail, m.scan.walked + 1, |m.t.sockets|)
    requires RecordsHeld(records, m.t.sockets, Scanner(m).clientId)
    ensures ScanOk(Advance(m, records))
  {
    WalkedHead(Scanner(m).tail, m.scan.walked, |m.t.sockets|);
  }

  lemma ScanTestKeepsScanOk(m: System)
    requires ScanOk(m) && Enabled(m, SScanTest)
    ensures ScanOk(ScanTest(m))
  {
    if !Pending(HeadSlot(m), Scanner(m).clientId) {
      AdvanceKeepsScanOk(m, m.scan.records);
    }
  }

  // The snapshot of the slot at head joins the report, before and after its mask is cleared.
  lemma SnapshotJoins(records: seq<Record>, ss: seq<Slot>, id: int, tail: int, walked: nat)
    requires 0 <= tail < |ss| && walked < |ss|
    requires RecordsOk(records, tail, walked, |ss|) && RecordsHeld(records, ss, id)
    requires Pending(ss[Wrap(tail + walked, |ss|)], id)
    ensures var h := Wrap(tail + walked, |ss|);
            var all := records + [RecordOf(ss[h], h)];
            && RecordsOk(all, tail, walked + 1, |ss|) && RecordsHeld(all, ss, id)
            && RecordsHeld(all, ss[h := Acknowledged(ss[h])], id)
  {
    WalkedHead(tail, walked, |ss|);
  }

  lemma ScanSnapKeepsScanOk(m: System)
    requires ScanOk(m) && Enabled(m, SScanSnap)
    ensures ScanOk(ScanSnap(m))
  {
    var h := Scanner(m).head;
    var x := HeadSlot(m);
    SnapshotJoins(m.scan.records, m.t.sockets, Scanner(m).clientId, Scanner(m).tail, m.scan.walked);
    AdvanceKeepsScanOk(m, m.scan.records + [RecordOf(x, h)]);
    assert ScanSnap(m) == Advance(m, m.scan.records + [RecordOf(x, h)]).(t := ScanSnap(m).t);
  }

  /** Moving a client's cursor or flag keeps the table invariant. */
  lemma CursorKeepsInv(t: Stack, ci: nat, c: Client)
    requires Inv(t) && ci < |t.clients|
    requires c == t.clients[ci].(head := c.head, tail := c.tail, needsToBeNotified := c.needsToBeNotified)
    requires 0 <= c.head < |t.sockets| && 0 <= c.tail < |t.sockets|
    ensures Inv(t.(clients := t.clients[ci := c]))
  {
    forall i | 0 <= i < |t.clients| && t.clients[i].inUse
      ensures 0 <= t.clients[i].head < |t.sockets| && 0 <= t.clients[i].tail < |t.sockets|
    {
      assert ClientOk(t, t.clients[i]);
    }
    TouchClients(t, t.(clients := t.clients[ci := c]));
  }

  lemma AcknowledgeKeepsInv(t: Stack, h: int)
    requires Inv(t) && 0 <= h < |t.sockets|
    ensures Inv(SetSlot(t, h, Acknowledged(t.sockets[h])))
  {
    assert SlotOk(t, t.sockets[h]);
    TouchSlot(t, h, Acknowledged(t.sockets[h]));
  }

  lemma ScanStepKeepsInv(m: System, s: Step)
    requires SysInv(m) && Enabled(m, s) && (s.SScanTest? || s.SScanSnap? || s.SScanEnd?)
    ensures Inv(Next(m, s).t)
  {
    var c := Scanner(m);
    var u := if s.SScanSnap? then SetSlot(m.t, c.head, Acknowledged(HeadSlot(m))) else m.t;
    if s.SScanSnap? {
      AcknowledgeKeepsInv(m.t, c.head);
    }
    CursorKeepsInv(u, m.scan.ci, Next(m, s).t.clients[m.scan.ci]);
    assert Next(m, s).t == u.(clients := u.clients[m.scan.ci := Next(m, s).t.clients[m.scan.ci]]);
  }

  lemma ScanStepKeepsScanOk(m: System, s: Step)
    requires SysInv(m) && Enabled(m, s) && (s.SScanBegin? || s.SScanTest? || s.SScanSnap? || s.SScanEnd?)
    ensures ScanOk(Next(m, s))
  {
    match s {
      case SScanBegin(caller, size, argsOk) =>
        if ScanError(m.t, caller, size, argsOk) == Success {
          assert ClientOk(m.t, m.t.clients[ClientIndex(m.t.clients, caller)]);
        }
      case SScanTest => ScanTestKeepsScanOk(m);
      case SScanSnap => ScanSnapKeepsScanOk(m);
      case SScanEnd =>
    }
  }

  lemma CallbackAround(t: Stack, impl: int, evs: set<PicoEvent>, listening: bool, tcp: TcpState, err: OsError)
    ensures var u := Callback(t, impl, evs, listening, tcp, err);
            SameCursors(t.clients, u.clients) && MasksGrow(t.sockets, u.sockets)
  {
    var h := HandleOf(t.sockets, impl);
    if h >= 0 {
      var y := Raise(t.sockets[h], evs, listening, err);
      assert t.sockets[h].eventMask <= y.eventMask;
      assert MasksGrow(t.sockets, t.sockets[h := y]);
    }
  }

  /** The steps with which the RPC thread serves a call other than getPendingEvents; all of the call
      but for the clearing of READ. */
  predicate IsAtomicRpc(s: Step)
  {
    s.SCreate? || s.SClose? || s.SPlainIo? || s.SAccept? || s.SRead? || s.SRecvFrom?
  }

  predicate IsControl(s: Step)
  {
    s.SEvent? || s.STick? || s.SLifecycle?
  }

  /** An atomic RPC moves nothing but what its caller owns or takes from the free slots. */
  lemma RpcFrame(m: System, s: Step)
    requires Enabled(m, s) && IsAtomicRpc(s)
    ensures CallerOnly(m.t, Next(m, s).t, s.caller)
  {
    match s {
      case SCreate(caller, argsOk, domainOk, ty, impl, err) =>
        CreateFrame(m.t, caller, argsOk, domainOk, ty, impl, err);
      case SClose(caller, h, res) =>
        CloseFrame(m.t, caller, h, res);
      case SPlainIo(op, caller, h, len, argsOk, addrOk, res) =>
        PlainIoFrame(m.t, op, caller, h, len, argsOk, addrOk, res);
      case SAccept(caller, h, argsOk, impl, err) =>
        AcceptFrame(m.t, caller, h, argsOk, impl, err);
      case SRead(caller, h, len, argsOk, res) =>
        ReceiveFrame(m.t, OpRead, caller, h, len, argsOk, res, false, false);
      case SRecvFrom(caller, h, len, argsOk, res, srcAddr, srcPort) =>
        ReceiveFrame(m.t, OpRecvFrom, caller, h, len, argsOk, res, false, false);
    }
  }

  lemma RpcKeepsInv(m: System, s: Step)
    requires Inv(m.t) && Enabled(m, s) && IsAtomicRpc(s)
    ensures Inv(Next(m, s).t)
  {
    match s {
      case SCreate(caller, argsOk, domainOk, ty, impl, err) =>
        CreateKeepsInv(m.t, caller, argsOk, domainOk, ty, impl, err);
      case SClose(caller, h, res) =>
        CloseKeepsInv(m.t, caller, h, res);
      case SPlainIo(op, caller, h, len, argsOk, addrOk, res) =>
        PlainIoKeepsInv(m.t, op, caller, h, len, argsOk, addrOk, res);
      case SAccept(caller, h, argsOk, impl, err) =>
        AcceptKeepsInv(m.t, caller, h, argsOk, impl, err);
      case SRead(caller, h, len, argsOk, res) =>
        ReceiveKeepsInv(m.t, OpRead, caller, h, len, argsOk, res, false, false);
      case SRecvFrom(caller, h, len, argsOk, res, srcAddr, srcPort) =>
        ReceiveKeepsInv(m.t, OpRecvFrom, caller, h, len, argsOk, res, false, false);
    }
  }

  lemma LifecycleKeepsInv(t: Stack, l: Lifecycle)
    requires Inv(t)
    ensures Inv(t.(lifecycle := l))
  {
    var u := t.(lifecycle := l);
    SlotsOkSameClients(t, u);
    forall i | 0 <= i < |u.clients| ensures ClientOk(u, u.clients[i]) {
      assert ClientOk(t, t.clients[i]);
    }
  }

  lemma ControlKeepsInv(m: System, s: Step)
    requires SysInv(m) && Enabled(m, s) && IsControl(s)
    ensures SysInv(Next(m, s))
  {
    match s {
      case SEvent(impl, evs, listening, tcp, err) =>
        CallbackKeepsInv(m.t, impl, evs, listening, tcp, err);
        CallbackAround(m.t, impl, evs, listening, tcp, err);
      case STick => TickKeepsInv(m.t);
      case SLifecycle(l) => LifecycleKeepsInv(m.t, l);
    }
    ScanOkAround(m, Next(m, s).t);
  }

  lemma ClearReadKeepsInv(m: System)
    requires SysInv(m) && Enabled(m, SClearRead)
    ensures SysInv(Next(m, SClearRead))
  {
    var x := m.t.sockets[m.scan.h];
    assert SlotOk(m.t, x);
    TouchSlot(m.t, m.scan.h, x.(eventMask := x.eventMask - {EvRead}));
  }

  /** Every step keeps the invariant. */
  lemma StepKeepsInv(m: System, s: Step)
    requires SysInv(m) && Enabled(m, s)
    ensures SysInv(Next(m, s))
  {
    if IsAtomicRpc(s) {
      RpcKeepsInv(m, s);
      RpcFrame(m, s);
      ScanOkAround(m, Next(m, s).t);
    } else if IsControl(s) {
      ControlKeepsInv(m, s);
    } else if s.SClearRead? {
      ClearReadKeepsInv(m);
    } else {
      if !s.SScanBegin? {
        ScanStepKeepsInv(m, s);
      }
      ScanStepKeepsScanOk(m, s);
    }
  }

  // The dataports and the size of a record.
  predicate SamePorts(t: Stack, u: Stack)
  {
    u.ports == t.ports && u.recordSize == t.recordSize
  }

  lemma AcceptSamePorts(t: Stack, caller: int, h: int, argsOk: bool, impl: int, err: OsError)
    ensures SamePorts(t, Accept(t, caller, h, argsOk, impl, err).0)
  {
    if EntryError(t, OpAccept, caller, h, 0, argsOk, true) == Success {
      AcceptIsKeep(t, caller, h, argsOk, impl, err);
      KeepMakes(SetSlot(Pass(t, h), h, OneAccepted(t.sockets[h], err)), caller, h, impl);
    }
  }

  lemma StepSamePorts(m: System, s: Step)
    requires Enabled(m, s)
    ensures SamePorts(m.t, Next(m, s).t)
  {
    match s {
      case SCreate(caller, argsOk, domainOk, ty, impl, err) =>
        if impl != 0 {
          OpenMakes(m.t, caller, ty, impl, err);
        }
      case SAccept(caller, h, argsOk, impl, err) => AcceptSamePorts(m.t, caller, h, argsOk, impl, err);
      case SClose(caller, h, res) =>
        if 0 <= h < |m.t.sockets| {
          CloseShape(m.t, caller, h, res);
        }
      case _ =>
    }
  }

  /** Nobody registers or leaves, and no quota, dataport or table size changes. */
  lemma StepSameClients(m: System, s: Step)
    requires Enabled(m, s)
    ensures SameClients(m.t.clients, Next(m, s).t.clients) && |Next(m, s).t.sockets| == |m.t.sockets|
    ensures SamePorts(m.t, Next(m, s).t)
  {
    StepSamePorts(m, s);
    if IsAtomicRpc(s) {
      RpcFrame(m, s);
    } else if s.SEvent? {
      CallbackAround(m.t, s.impl, s.evs, s.listening, s.tcp, s.err);
    }
  }

  lemma {:induction false} RunSameClients(m: System, run: seq<Step>)
    requires ValidRun(m, run)
    ensures SameClients(m.t.clients, Exec(m, run).t.clients) && |Exec(m, run).t.sockets| == |m.t.sockets|
    ensures SamePorts(m.t, Exec(m, run).t)
    decreases |run|
  {
    if |run| > 0 {
      StepSameClients(m, run[0]);
      RunSameClients(Next(m, run[0]), run[1..]);
    }
  }

  /** Every state of every run satisfies the invariant. */
  lemma {:induction false} RunKeepsInv(m: System, run: seq<Step>)
    requires SysInv(m) && ValidRun(m, run)
    ensures SysInv(Exec(m, run))
    decreases |run|
  {
    if |run| > 0 {
      StepKeepsInv(m, run[0]);
      RunKeepsInv(Next(m, run[0]), run[1..]);
    }
  }

  lemma {:induction false} RunAppend(m: System, run: seq<Step>, s: Step)
    requires ValidRun(m, run) && Enabled(Exec(m, run), s)
    ensures ValidRun(m, run + [s]) && Exec(m, run + [s]) == Next(Exec(m, run), s)
    decreases |run|
  {
    if |run| == 0 {
      assert run + [s] == [s];
      assert [s][1..] == [];
    } else {
      RunAppend(Next(m, run[0]), run[1..], s);
      assert (run + [s])[1..] == run[1..] + [s];
    }
  }

  // ---------------------------------------------------------------- one round of the control thread

  // picoTCP's tick: it reports events, one after the other.
  function CallbackAll(t: Stack, reports: seq<PicoReport>): Stack
  {
    if |reports| == 0 then t
    else
      var r := reports[|reports| - 1];
      Callback(CallbackAll(t, reports[..|reports| - 1]), r.impl, r.evs, r.listening, r.tcp, r.err)
  }

  function EventSteps(reports: seq<PicoReport>): seq<Step>
  {
    if |reports| == 0 then []
    else
      var r := reports[|reports| - 1];
      EventSteps(reports[..|reports| - 1]) + [SEvent(r.impl, r.evs, r.listening, r.tcp, r.err)]
  }

  lemma {:induction false} EventStepsAreRun(m: System, reports: seq<PicoReport>)
    requires forall i :: 0 <= i < |reports| ==> reports[i].impl != 0
    ensures ValidRun(m, EventSteps(reports)) && Exec(m, EventSteps(reports)) == m.(t := CallbackAll(m.t, reports))
  {
    if |reports| > 0 {
      var r := reports[|reports| - 1];
      EventStepsAreRun(m, reports[..|reports| - 1]);
      RunAppend(m, EventSteps(reports[..|reports| - 1]), SEvent(r.impl, r.evs, r.listening, r.tcp, r.err));
    }
  }

  /** One round of the control thread, picoTCP's reports and then the notify pass, is a run of the
      machine, also in the middle of a scan. */
  lemma TickIsRun(m: System, reports: seq<PicoReport>)
    requires forall i :: 0 <= i < |reports| ==> reports[i].impl != 0
    ensures ValidRun(m, EventSteps(reports) + [STick])
    ensures Exec(m, EventSteps(reports) + [STick]) == m.(t := Tick(CallbackAll(m.t, reports)))
  {
    EventStepsAreRun(m, reports);
    RunAppend(m, EventSteps(reports), STick);
  }
}
