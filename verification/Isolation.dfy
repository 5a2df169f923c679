/** Clients do not disturb each other: what one client owns is moved only by its own calls, by
    events of its own sockets, and by the tick that clears its notify flag. */
module Isolation {
  import opened Types
  import opened SocketTable
  import opened Handlers
  import opened Machine
  import opened ScanSpec

  /** The step is a call of client d or an event of a socket that d holds. */
  predicate Concerns(m: System, s: Step, d: nat)
    requires d < |m.t.clients|
  {
    match s
    case SScanBegin(_, _, _) | STick | SLifecycle(_) => false
    case SScanTest | SScanSnap | SScanEnd => m.scan.Active? && m.scan.ci == d
    case SClearRead => m.scan.Clearing? && m.scan.caller == m.t.clients[d].clientId
    case SEvent(impl, _, _, _, _) =>
      var h := HandleOf(m.t.sockets, impl);
      h >= 0 && m.t.sockets[h].clientId == m.t.clients[d].clientId
    case _ => s.caller == m.t.clients[d].clientId
  }

  predicate NeverConcerns(m: System, run: seq<Step>, d: nat)
    requires ValidRun(m, run)
    decreases |run|
  {
    |run| > 0 ==>
      && d < |m.t.clients| && !Concerns(m, run[0], d)
      && NeverConcerns(Next(m, run[0]), run[1..], d)
  }

  /** Client d still has the same slots with the same contents, the same counter and the same cursor. */
  predicate Untouched(t: Stack, u: Stack, d: nat)
    requires d < |t.clients|
  {
    && |u.clients| == |t.clients| && |u.sockets| == |t.sockets|
    && u.clients[d] == t.clients[d].(needsToBeNotified := u.clients[d].needsToBeNotified)
    && SameSlots(t.sockets, u.sockets, t.clients[d].clientId)
  }

  lemma FreeIsNobodys(t: Stack, d: nat)
    requires Inv(t) && d < |t.clients| && t.clients[d].inUse
    ensures t.clients[d].clientId > 0
    ensures forall i :: 0 <= i < |t.sockets| && t.sockets[i].status == Free ==> t.sockets[i].clientId != t.clients[d].clientId
  {
    assert ClientOk(t, t.clients[d]);
    forall i | 0 <= i < |t.sockets| && t.sockets[i].status == Free ensures t.sockets[i].clientId != t.clients[d].clientId {
      assert SlotOk(t, t.sockets[i]);
    }
  }

  lemma RpcUntouched(m: System, s: Step, d: nat)
    requires SysInv(m) && Enabled(m, s) && IsAtomicRpc(s)
    requires d < |m.t.clients| && m.t.clients[d].inUse && s.caller != m.t.clients[d].clientId
    ensures Untouched(m.t, Next(m, s).t, d) && Next(m, s).t.clients[d] == m.t.clients[d]
  {
    RpcFrame(m, s);
    FreeIsNobodys(m.t, d);
    forall i | 0 <= i < |m.t.sockets|
        && (m.t.sockets[i].clientId == m.t.clients[d].clientId || Next(m, s).t.sockets[i].clientId == m.t.clients[d].clientId)
      ensures m.t.sockets[i] == Next(m, s).t.sockets[i]
    {
      assert SlotFrame(m.t.sockets[i], Next(m, s).t.sockets[i], s.caller);
    }
  }

  lemma ScanUntouched(m: System, s: Step, d: nat)
    requires SysInv(m) && Enabled(m, s) && (s.SScanTest? || s.SScanSnap? || s.SScanEnd?)
    requires d < |m.t.clients| && m.t.clients[d].inUse && m.scan.ci != d
    ensures Untouched(m.t, Next(m, s).t, d) && Next(m, s).t.clients[d] == m.t.clients[d]
  {
    assert Scanner(m).clientId != m.t.clients[d].clientId;
  }

  lemma EventUntouched(m: System, s: Step, d: nat)
    requires SysInv(m) && Enabled(m, s) && s.SEvent?
    requires d < |m.t.clients| && m.t.clients[d].inUse && !Concerns(m, s, d)
    ensures Untouched(m.t, Next(m, s).t, d) && Next(m, s).t.clients[d] == m.t.clients[d]
  {
    var h := HandleOf(m.t.sockets, s.impl);
    if h >= 0 {
      var y := Raise(m.t.sockets[h], s.evs, s.listening, s.err);
      assert Next(m, s).t.sockets == m.t.sockets[h := y];
      assert SameSlots(m.t.sockets, m.t.sockets[h := y], m.t.clients[d].clientId);
    }
  }

  /** A step that does not concern client d leaves its slots, counter and cursor alone, and, unless
      it is the tick, its notify flag too. */
  lemma StepUntouched(m: System, s: Step, d: nat)
    requires SysInv(m) && Enabled(m, s) && d < |m.t.clients| && m.t.clients[d].inUse && !Concerns(m, s, d)
    ensures Untouched(m.t, Next(m, s).t, d)
    ensures !s.STick? ==> Next(m, s).t.clients[d] == m.t.clients[d]
  {
    if IsAtomicRpc(s) {
      RpcUntouched(m, s, d);
    } else if s.SEvent? {
      EventUntouched(m, s, d);
    } else if s.SScanTest? || s.SScanSnap? || s.SScanEnd? {
      ScanUntouched(m, s, d);
    }
  }

  /** Isolation over runs: however long the others run, client d finds its slots, its counter and
      its cursor as it left them. */
  lemma {:induction false} OthersDoNotDisturb(m: System, run: seq<Step>, d: nat)
    requires SysInv(m) && ValidRun(m, run) && d < |m.t.clients| && m.t.clients[d].inUse && NeverConcerns(m, run, d)
    ensures Untouched(m.t, Exec(m, run).t, d)
    decreases |run|
  {
    if |run| > 0 {
      StepUntouched(m, run[0], d);
      StepKeepsInv(m, run[0]);
      OthersDoNotDisturb(Next(m, run[0]), run[1..], d);
    }
  }

  // ---------------------------------------------------------------- what the others cannot change

  lemma RegisteredIsCallable(t: Stack, d: nat)
    requires Inv(t) && d < |t.clients| && t.clients[d].inUse
    ensures ClientIndex(t.clients, t.clients[d].clientId) == d && Callable(t, t.clients[d].clientId)
    ensures Cursor(t, t.clients[d].clientId) == t.clients[d].head
  {
    assert ClientOk(t, t.clients[d]);
    ClientIndexOf(t.clients, d);
  }

  /** However long the others run, ticks included, client d's tables look to it as before. */
  lemma OthersLeaveTheView(m: System, run: seq<Step>, d: nat)
    requires SysInv(m) && ValidRun(m, run) && d < |m.t.clients| && m.t.clients[d].inUse && NeverConcerns(m, run, d)
    ensures SameView(m.t, Exec(m, run).t, m.t.clients[d].clientId)
    ensures SameCursor(m.t, Exec(m, run).t, m.t.clients[d].clientId)
  {
    OthersDoNotDisturb(m, run, d);
    RunKeepsInv(m, run);
    RunSameClients(m, run);
    RegisteredIsCallable(m.t, d);
    RegisteredIsCallable(Exec(m, run).t, d);
  }

  /** The report a client gets does not depend on the others: after any run of their calls and
      events, and of ticks, it gets the very records it would have got before. */
  lemma OthersDoNotChangeTheReport(m: System, run: seq<Step>, d: nat, size: nat)
    requires SysInv(m) && ValidRun(m, run) && d < |m.t.clients| && m.t.clients[d].inUse && NeverConcerns(m, run, d)
    ensures var id := m.t.clients[d].clientId;
            && Callable(m.t, id) && Callable(Exec(m, run).t, id)
            && ReportsOf(Exec(m, run).t.sockets, Reported(Exec(m, run).t, id, size))
            == ReportsOf(m.t.sockets, Reported(m.t, id, size))
  {
    OthersLeaveTheView(m, run, d);
    ReportDependsOnOwnView(m.t, Exec(m, run).t, m.t.clients[d].clientId, size);
  }

  // ---------------------------------------------------------------- a scan among the others' steps

  predicate IsLoopStep(s: Step)
  {
    s.SScanTest? || s.SScanSnap?
  }

  /** The run takes rounds of the scan in progress, and control steps that do not concern its client. */
  predicate QuietRun(m: System, run: seq<Step>)
    requires ValidRun(m, run)
    decreases |run|
  {
    |run| > 0 ==>
      && (IsLoopStep(run[0])
          || (IsControl(run[0]) && InScan(m) && !Concerns(m, run[0], m.scan.ci)))
      && QuietRun(Next(m, run[0]), run[1..])
  }

  /** Two scans that are equally far, of tables that look the same to the scanning client. */
  predicate Twins(m: System, w: System)
  {
    && InScan(m) && InScan(w) && m.scan == w.scan
    && Scanner(m).clientId == Scanner(w).clientId
    && Scanner(m).head == Scanner(w).head && Scanner(m).tail == Scanner(w).tail
    && SameSlots(m.t.sockets, w.t.sockets, Scanner(m).clientId)
  }

  lemma TwinsTest(m: System, w: System)
    requires Twins(m, w) && m.scan.phase == Testing
    ensures Twins(ScanTest(m), ScanTest(w))
  {
  }

  lemma TwinsSnap(m: System, w: System)
    requires Twins(m, w) && ScanOk(m) && m.scan.phase == Snapping
    ensures Twins(ScanSnap(m), ScanSnap(w))
  {
    assert HeadSlot(m) == HeadSlot(w);
  }

  lemma TwinsControl(m: System, w: System, s: Step)
    requires SysInv(m) && Enabled(m, s) && IsControl(s) && Twins(m, w) && !Concerns(m, s, m.scan.ci)
    ensures Twins(Next(m, s), w)
  {
    StepUntouched(m, s, m.scan.ci);
  }

  /** A disturbed scan keeps pace with the undisturbed one. */
  lemma {:induction false} QuietScanIsUndisturbed(m: System, w: System, run: seq<Step>)
    requires SysInv(m) && ScanOk(w) && Twins(m, w) && ValidRun(m, run) && QuietRun(m, run)
    requires Exec(m, run).scan.Active? && Exec(m, run).scan.phase == Ending
    ensures Twins(Exec(m, run), ToEnd(w))
    decreases |run|
  {
    if |run| > 0 {
      var s := run[0];
      StepKeepsInv(m, s);
      if IsLoopStep(s) {
        if s.SScanTest? {
          TwinsTest(m, w);
          ScanTestKeepsScanOk(w);
        } else {
          TwinsSnap(m, w);
          ScanSnapKeepsScanOk(w);
        }
        QuietScanIsUndisturbed(Next(m, s), Next(w, s), run[1..]);
      } else {
        TwinsControl(m, w, s);
        QuietScanIsUndisturbed(Next(m, s), w, run[1..]);
      }
    }
  }

  // The end of the undisturbed loop of a call.
  lemma LoopEnd(m: System, caller: int, size: nat, argsOk: bool)
    requires SysInv(m) && m.scan.Idle? && ScanError(m.t, caller, size, argsOk) == Success
    ensures var b := ScanBegin(m, caller, size, argsOk);
            && Callable(m.t, caller) && SysInv(b) && InScan(b) && InScan(ToEnd(b))
            && ToEnd(b).scan.records == ReportsOf(m.t.sockets, Reported(m.t, caller, size))
            && ToEnd(b).t.sockets == AfterCall(m.t, caller, size).sockets
            && Scanner(ToEnd(b)).clientId == caller && Scanner(ToEnd(b)).head == CallerAfter(m.t, caller, size).head
  {
    StepKeepsInv(m, SScanBegin(caller, size, argsOk));
    CallerCallable(m.t, caller);
    LoopOutcome(m, caller, size);
    assert ScanBegin(m, caller, size, argsOk)
        == m.(scan := Active(Testing, ClientIndex(m.t.clients, caller), Room(m.t, caller, size), 0, []));
  }

  /** A call among steps of the control thread that do not concern its client, ticks included, returns
      the records of the undisturbed call, and does to the client's slots and cursor what that does. */
  lemma QuietCallIsUndisturbed(m: System, caller: int, size: nat, argsOk: bool, run: seq<Step>)
    requires SysInv(m) && m.scan.Idle? && ScanError(m.t, caller, size, argsOk) == Success
    requires ValidRun(ScanBegin(m, caller, size, argsOk), run) && QuietRun(ScanBegin(m, caller, size, argsOk), run)
    requires Enabled(Exec(ScanBegin(m, caller, size, argsOk), run), SScanEnd)
    ensures Callable(m.t, caller)
    ensures var e := Exec(ScanBegin(m, caller, size, argsOk), run);
            && e.scan.records == ReportsOf(m.t.sockets, Reported(m.t, caller, size))
            && SameSlots(e.t.sockets, AfterCall(m.t, caller, size).sockets, caller)
            && Scanner(e).clientId == caller && Scanner(e).head == CallerAfter(m.t, caller, size).head
  {
    LoopEnd(m, caller, size, argsOk);
    var b := ScanBegin(m, caller, size, argsOk);
    QuietScanIsUndisturbed(b, b, run);
  }

  // ---------------------------------------------------------------- calls on an own handle

  /** What a call on a handle of client `id` may look at. */
  predicate Alike(t: Stack, u: Stack, id: int)
  {
    SameView(t, u, id) && t.lifecycle == u.lifecycle
  }

  /** Client `id` is registered in both tables or in none. */
  predicate SameStanding(t: Stack, u: Stack, id: int)
  {
    ClientIndex(t.clients, id) >= 0 <==> ClientIndex(u.clients, id) >= 0
  }

  // Tables that look alike to the caller still do after the same change to the same slot of its own.
  lemma SameChange(t: Stack, u: Stack, t1: Stack, u1: Stack, caller: int, h: int, x: Slot)
    requires Alike(t, u, caller) && 0 <= h < |t.sockets|
    requires t1.sockets == t.sockets[h := x] && u1.sockets == u.sockets[h := x]
    requires t1.lifecycle == t.lifecycle && u1.lifecycle == u.lifecycle
    requires t1.recordSize == t.recordSize && u1.recordSize == u.recordSize && t1.ports == t.ports && u1.ports == u.ports
    ensures Alike(t1, u1, caller)
  {
  }

  lemma EntrySameView(t: Stack, u: Stack, op: Op, caller: int, h: int, len: nat, argsOk: bool, addrOk: bool)
    requires Alike(t, u, caller) && 0 <= h < |t.sockets| && t.sockets[h].clientId == caller
    ensures EntryLen(t, op, caller, h, len, argsOk) == EntryLen(u, op, caller, h, len, argsOk)
    ensures var n := EntryLen(t, op, caller, h, len, argsOk);
            EntryError(t, op, caller, h, n, argsOk, addrOk) == EntryError(u, op, caller, h, n, argsOk, addrOk)
  {
    assert t.sockets[h] == u.sockets[h];
  }

  /** Two-run isolation of the calls on an own handle: from tables that agree on the caller's slots, such
      a call replies the same, leaves tables that agree again, and moves no client's record. First
      the plain calls. */
  lemma PlainIoDependsOnOwnView(t: Stack, u: Stack, op: Op, caller: int, h: int, len: nat, argsOk: bool, addrOk: bool, res: PicoResult)
    requires Alike(t, u, caller) && 0 <= h < |t.sockets| && t.sockets[h].clientId == caller
    ensures PlainIo(t, op, caller, h, len, argsOk, addrOk, res).1 == PlainIo(u, op, caller, h, len, argsOk, addrOk, res).1
    ensures Alike(PlainIo(t, op, caller, h, len, argsOk, addrOk, res).0, PlainIo(u, op, caller, h, len, argsOk, addrOk, res).0, caller)
    ensures PlainIo(t, op, caller, h, len, argsOk, addrOk, res).0.clients == t.clients
  {
    assert t.sockets[h] == u.sockets[h];
    EntrySameView(t, u, op, caller, h, len, argsOk, addrOk);
    var (t1, r1) := PlainIo(t, op, caller, h, len, argsOk, addrOk, res);
    var (u1, r2) := PlainIo(u, op, caller, h, len, argsOk, addrOk, res);
    if t1 != t || u1 != u {
      SameChange(t, u, t1, u1, caller, h, t.sockets[h].(currentError := res.err));
    }
  }

  /** Then read and recvfrom. */
  lemma ReceiveDependsOnOwnView(t: Stack, u: Stack, op: Op, caller: int, h: int, len: nat, argsOk: bool,
                                res: PicoResult, drained: bool, empty: bool)
    requires Alike(t, u, caller) && 0 <= h < |t.sockets| && t.sockets[h].clientId == caller
    ensures Receive(t, op, caller, h, len, argsOk, res, drained, empty).1 == Receive(u, op, caller, h, len, argsOk, res, drained, empty).1
    ensures Alike(Receive(t, op, caller, h, len, argsOk, res, drained, empty).0,
                  Receive(u, op, caller, h, len, argsOk, res, drained, empty).0, caller)
    ensures Receive(t, op, caller, h, len, argsOk, res, drained, empty).0.clients == t.clients
  {
    assert t.sockets[h] == u.sockets[h];
    EntrySameView(t, u, op, caller, h, len, argsOk, true);
    var t1 := Receive(t, op, caller, h, len, argsOk, res, drained, empty).0;
    SameChange(t, u, t1, Receive(u, op, caller, h, len, argsOk, res, drained, empty).0, caller, h, t1.sockets[h]);
  }

  // From t to t1 the counter of client `id` went down by n, if it is registered.
  predicate CountedDown(t: Stack, t1: Stack, id: int, n: nat)
  {
    t1.clients == if ClientIndex(t.clients, id) >= 0 then CountUp(t.clients, ClientIndex(t.clients, id), 0 - n) else t.clients
  }

  /** And close: whatever the counters are, they go down by the same number. */
  lemma CloseDependsOnOwnView(t: Stack, u: Stack, caller: int, h: int, res: PicoResult)
    requires Alike(t, u, caller) && SameStanding(t, u, caller)
    requires 0 <= h < |t.sockets| && t.sockets[h].clientId == caller
    ensures Close(t, caller, h, res).1 == Close(u, caller, h, res).1
    ensures Alike(Close(t, caller, h, res).0, Close(u, caller, h, res).0, caller)
    ensures exists n: nat :: CountedDown(t, Close(t, caller, h, res).0, caller, n)
                           && CountedDown(u, Close(u, caller, h, res).0, caller, n)
  {
    assert t.sockets[h] == u.sockets[h];
    assert Guard(t, OpClose, caller, h, true) == Guard(u, OpClose, caller, h, true);
    CloseShape(t, caller, h, res);
    CloseShape(u, caller, h, res);
    var t1 := Close(t, caller, h, res).0;
    var u1 := Close(u, caller, h, res).0;
    if t1 != t || u1 != u {
      SameChange(t, u, t1, u1, caller, h, t1.sockets[h]);
    }
    var refused := Guard(t, OpClose, caller, h, true) != Success || Admit(t.sockets[h]) == InvalidHandle;
    assert CountedDown(t, t1, caller, if refused then 0 else 1);
    assert CountedDown(u, u1, caller, if refused then 0 else 1);
  }
}
