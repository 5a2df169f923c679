/** The backlog of a listening socket over runs: connection requests in, accepted connections out. */
module Backlog {
  import opened Types
  import opened SocketTable
  import opened Handlers
  import opened Machine
  import opened HandleLife
  import opened EventDelivery

  /** The step is picoTCP's report of a connection request on the socket in slot h. */
  predicate Requests(m: System, s: Step, h: int)
  {
    0 <= h < |m.t.sockets| && s.SEvent? && s.impl == m.t.sockets[h].impl && PicoConn in s.evs && s.listening
  }

  /** The step is an admitted accept on slot h that finds a request. */
  predicate Accepts(m: System, s: Step, h: int)
  {
    && 0 <= h < |m.t.sockets| && s.SAccept? && s.h == h
    && MayCall(m.t, OpAccept, s.caller, h, s.argsOk, true) && m.t.sockets[h].pendingConnections > 0
  }

  function RequestCount(m: System, run: seq<Step>, h: int): nat
    requires ValidRun(m, run)
    decreases |run|
  {
    if |run| == 0 then 0
    else One(Requests(m, run[0], h)) + RequestCount(Next(m, run[0]), run[1..], h)
  }

  function AcceptCount(m: System, run: seq<Step>, h: int): nat
    requires ValidRun(m, run)
    decreases |run|
  {
    if |run| == 0 then 0
    else One(Accepts(m, run[0], h)) + AcceptCount(Next(m, run[0]), run[1..], h)
  }

  lemma AcceptMoves(m: System, s: Step, h: int)
    requires SysInv(m) && Enabled(m, s) && s.SAccept? && 0 <= h < |m.t.sockets| && m.t.sockets[h].status == InUse
    ensures var e := Next(m, s);
            && |e.t.sockets| == |m.t.sockets| && e.t.sockets[h].status == InUse
            && e.t.sockets[h].pendingConnections == m.t.sockets[h].pendingConnections - One(Accepts(m, s, h))
  {
    EntryIff(m.t, OpAccept, s.caller, s.h, 0, s.argsOk, true);
    assert SlotOk(m.t, m.t.sockets[h]);
    if EntryError(m.t, OpAccept, s.caller, s.h, 0, s.argsOk, true) == Success {
      AcceptedSlot(m.t, s.caller, s.h, s.argsOk, s.impl, s.err, h);
    }
  }

  lemma CreateMoves(m: System, s: Step, h: int)
    requires SysInv(m) && Enabled(m, s) && s.SCreate? && 0 <= h < |m.t.sockets| && m.t.sockets[h].status == InUse
    ensures |Next(m, s).t.sockets| == |m.t.sockets| && Next(m, s).t.sockets[h] == m.t.sockets[h]
  {
    if s.impl != 0 {
      OpenMakes(m.t, s.caller, s.ty, s.impl, s.err);
    }
  }

  lemma EventMoves(m: System, s: Step, h: int)
    requires SysInv(m) && Enabled(m, s) && s.SEvent? && 0 <= h < |m.t.sockets| && m.t.sockets[h].status == InUse
    ensures var e := Next(m, s);
            && |e.t.sockets| == |m.t.sockets| && e.t.sockets[h].status == InUse
            && e.t.sockets[h].pendingConnections == m.t.sockets[h].pendingConnections + One(Requests(m, s, h))
  {
    HandleOfInUse(m.t, s.impl);
    var k := HandleOf(m.t.sockets, s.impl);
    if k < 0 {
      UnheldReportEffect(m.t, s.impl, s.evs, s.listening, s.tcp, s.err);
    } else {
      ReportEffect(m.t, s.impl, s.evs, s.listening, s.tcp, s.err, k);
      assert m.t.sockets[h].impl == s.impl ==> h == k;
    }
  }

  lemma CloseMoves(m: System, s: Step, h: int)
    requires SysInv(m) && Enabled(m, s) && s.SClose? && 0 <= h < |m.t.sockets| && !Frees(m, s, h)
    ensures |Next(m, s).t.sockets| == |m.t.sockets| && Next(m, s).t.sockets[h] == m.t.sockets[h]
  {
    if 0 <= s.h < |m.t.sockets| {
      CloseShape(m.t, s.caller, s.h, s.res);
    }
  }

  /** One step: a request adds one, an accept that finds one takes one, nothing else moves the backlog. */
  lemma BacklogMoves(m: System, s: Step, h: int)
    requires SysInv(m) && Enabled(m, s) && 0 <= h < |m.t.sockets| && m.t.sockets[h].status == InUse && !Frees(m, s, h)
    ensures var e := Next(m, s);
            && |e.t.sockets| == |m.t.sockets| && e.t.sockets[h].status == InUse
            && e.t.sockets[h].pendingConnections
            == m.t.sockets[h].pendingConnections + One(Requests(m, s, h)) - One(Accepts(m, s, h))
  {
    match s {
      case SCreate(_, _, _, _, _, _) => CreateMoves(m, s, h);
      case SAccept(_, _, _, _, _) => AcceptMoves(m, s, h);
      case SClose(_, _, _) => CloseMoves(m, s, h);
      case SEvent(_, _, _, _, _) => EventMoves(m, s, h);
      case _ =>
    }
  }

  /** Over any run in which its owner does not close it, what a listening socket has pending at the end is what
      it had at first and what was requested since, less what was accepted; the accept event is there
      exactly if that is something. */
  lemma {:induction false} BacklogBalances(m: System, run: seq<Step>, h: int)
    requires SysInv(m) && ValidRun(m, run) && 0 <= h < |m.t.sockets| && m.t.sockets[h].status == InUse
    requires !EverFreed(m, run, h)
    ensures |Exec(m, run).t.sockets| == |m.t.sockets|
    ensures Exec(m, run).t.sockets[h].pendingConnections + AcceptCount(m, run, h)
         == m.t.sockets[h].pendingConnections + RequestCount(m, run, h)
    ensures Raised(Exec(m, run), h, EvConnAcpt) <==>
            m.t.sockets[h].pendingConnections + RequestCount(m, run, h) > AcceptCount(m, run, h)
    decreases |run|
  {
    if |run| > 0 {
      BacklogMoves(m, run[0], h);
      StepKeepsInv(m, run[0]);
      BacklogBalances(Next(m, run[0]), run[1..], h);
    } else {
      assert SlotOk(m.t, m.t.sockets[h]);
    }
  }
}
