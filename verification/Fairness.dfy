/** Round-robin fairness of getPendingEvents over runs: however the calls of one client are cut
    short, and whatever happens in between, a slot that stays pending is soon reported. */
module Fairness {
  import opened SocketTable
  import opened Machine

  predicate ScansFor(m: System, ci: nat)
  {
    InScan(m) && m.scan.ci == ci
  }

  /** The step copies slot h into a report of client ci. */
  predicate Reports(m: System, s: Step, ci: nat, h: int)
  {
    s.SScanSnap? && ScansFor(m, ci) && Scanner(m).head == h
  }

  /** The step completes a call of client ci that was allowed at least `room` records. */
  predicate Completes(m: System, s: Step, ci: nat, room: nat)
  {
    s.SScanEnd? && ScansFor(m, ci) && m.scan.max >= room
  }

  predicate EverReported(m: System, run: seq<Step>, ci: nat, h: int)
    requires ValidRun(m, run)
    decreases |run|
  {
    |run| > 0 && (Reports(m, run[0], ci, h) || EverReported(Next(m, run[0]), run[1..], ci, h))
  }

  function Calls(m: System, run: seq<Step>, ci: nat, room: nat): nat
    requires ValidRun(m, run)
    decreases |run|
  {
    if |run| == 0 then 0
    else (if Completes(m, run[0], ci, room) then 1 else 0) + Calls(Next(m, run[0]), run[1..], ci, room)
  }

  predicate PendingFor(m: System, ci: nat, h: int)
  {
    ci < |m.t.clients| && m.t.clients[ci].inUse && 0 <= h < |m.t.sockets|
    && Pending(m.t.sockets[h], m.t.clients[ci].clientId)
  }

  /** In every state of the run, slot h belongs to client ci and has an event. */
  predicate AlwaysPending(m: System, run: seq<Step>, ci: nat, h: int)
    requires ValidRun(m, run)
    decreases |run|
  {
    PendingFor(m, ci, h) && (|run| > 0 ==> AlwaysPending(Next(m, run[0]), run[1..], ci, h))
  }

  // How far slot h lies ahead of the place where client ci's current or next call starts.
  function Ahead(m: System, ci: nat, h: int): int
    requires ci < |m.t.clients|
  {
    Dist(m.t.clients[ci].tail, h, |m.t.sockets|)
  }

  // The call in progress, if it is one of client ci, has not passed slot h yet.
  predicate NotPassed(m: System, ci: nat, h: int)
    requires ci < |m.t.clients|
  {
    ScansFor(m, ci) ==> m.scan.walked <= Ahead(m, ci, h)
  }

  lemma TailsMove(m: System, s: Step, ci: nat)
    requires SysInv(m) && Enabled(m, s) && ci < |m.t.clients|
    ensures |Next(m, s).t.clients| == |m.t.clients| && |Next(m, s).t.sockets| == |m.t.sockets|
    ensures Next(m, s).t.clients[ci].tail
         == if s.SScanEnd? && ScansFor(m, ci) then m.t.clients[ci].head else m.t.clients[ci].tail
  {
    if IsAtomicRpc(s) {
      RpcFrame(m, s);
    } else if s.SEvent? {
      CallbackAround(m.t, s.impl, s.evs, s.listening, s.tcp, s.err);
    }
  }

  lemma ScanMoves(m: System, s: Step, ci: nat, h: int)
    requires SysInv(m) && Enabled(m, s) && PendingFor(m, ci, h) && NotPassed(m, ci, h)
    requires !Reports(m, s, ci, h) && (s.SScanTest? || s.SScanSnap?) && ScansFor(m, ci)
    ensures NotPassed(Next(m, s), ci, h)
  {
    TailsMove(m, s, ci);
    WalkedHead(Scanner(m).tail, m.scan.walked, |m.t.sockets|);
  }

  // A step that does not report slot h does not pass it.
  lemma StaysAhead(m: System, s: Step, ci: nat, h: int)
    requires SysInv(m) && Enabled(m, s) && PendingFor(m, ci, h) && NotPassed(m, ci, h) && !Reports(m, s, ci, h)
    ensures |Next(m, s).t.clients| == |m.t.clients| && NotPassed(Next(m, s), ci, h)
  {
    TailsMove(m, s, ci);
    if (s.SScanTest? || s.SScanSnap?) && ScansFor(m, ci) {
      ScanMoves(m, s, ci, h);
    }
  }

  /** One step: either nothing is passed, or a completed call moves its start past at least `room` slots. */
  lemma OneStep(m: System, s: Step, ci: nat, h: int, room: nat)
    requires SysInv(m) && Enabled(m, s) && PendingFor(m, ci, h) && NotPassed(m, ci, h) && !Reports(m, s, ci, h)
    ensures |Next(m, s).t.clients| == |m.t.clients| && SysInv(Next(m, s))
    ensures NotPassed(Next(m, s), ci, h)
    ensures Ahead(Next(m, s), ci, h) + (if Completes(m, s, ci, room) then room else 0) <= Ahead(m, ci, h)
  {
    StaysAhead(m, s, ci, h);
    TailsMove(m, s, ci);
    StepKeepsInv(m, s);
  }

  lemma OneMore(a: nat, b: nat, room: nat)
    requires a <= 1
    ensures (a + b) * room == (if a == 1 then room else 0) + b * room
  {
  }

  lemma AheadInRange(m: System, ci: nat, h: int)
    requires SysInv(m) && PendingFor(m, ci, h)
    ensures 0 <= Ahead(m, ci, h) < |m.t.sockets|
  {
    assert ClientOk(m.t, m.t.clients[ci]);
  }

  lemma {:induction false} CallsBound(m: System, run: seq<Step>, ci: nat, h: int, room: nat)
    requires SysInv(m) && ValidRun(m, run) && AlwaysPending(m, run, ci, h) && NotPassed(m, ci, h)
    requires !EverReported(m, run, ci, h)
    ensures Calls(m, run, ci, room) * room <= Ahead(m, ci, h)
    decreases |run|
  {
    if |run| > 0 {
      OneStep(m, run[0], ci, h, room);
      var m' := Next(m, run[0]);
      CallsBound(m', run[1..], ci, h, room);
      OneMore(if Completes(m, run[0], ci, room) then 1 else 0, Calls(m', run[1..], ci, room), room);
    } else {
      AheadInRange(m, ci, h);
    }
  }

  /** Fairness: take any run from a moment between two calls of client ci. If slot h stays owned by
      ci and pending, then ceil(N / room) completed calls with room for `room` records report it,
      whatever callbacks, ticks and RPCs of other clients come between or within them. */
  lemma PendingSlotIsReported(m: System, run: seq<Step>, ci: nat, h: int, room: nat)
    requires SysInv(m) && ValidRun(m, run) && AlwaysPending(m, run, ci, h)
    requires !ScansFor(m, ci)
    requires room >= 1 && Calls(m, run, ci, room) >= (|m.t.sockets| + room - 1) / room
    ensures EverReported(m, run, ci, h)
  {
    if !EverReported(m, run, ci, h) {
      CallsBound(m, run, ci, h, room);
      AheadInRange(m, ci, h);
      var n := |m.t.sockets|;
      var q := (n + room - 1) / room;
      CeilCovers(n, room);
      MulMonotone(q, Calls(m, run, ci, room), room);
      assert false;
    }
  }

  lemma CeilCovers(n: nat, room: nat)
    requires room >= 1
    ensures (n + room - 1) / room * room >= n
  {
    var q := (n + room - 1) / room;
    assert n + room - 1 == q * room + (n + room - 1) % room;
  }

  lemma MulMonotone(a: int, b: int, c: nat)
    requires a <= b
    ensures a * c <= b * c
  {
  }

  /** A call misses nothing in its window, in any interleaving: a slot that stays pending and that
      the scan has passed was reported. */
  lemma {:induction false} PassedSlotIsReported(m: System, run: seq<Step>, ci: nat, h: int)
    requires SysInv(m) && ValidRun(m, run) && AlwaysPending(m, run, ci, h) && NotPassed(m, ci, h)
    ensures ci < |Exec(m, run).t.clients|
    ensures EverReported(m, run, ci, h) || NotPassed(Exec(m, run), ci, h)
    decreases |run|
  {
    if |run| > 0 && !Reports(m, run[0], ci, h) {
      OneStep(m, run[0], ci, h, 0);
      PassedSlotIsReported(Next(m, run[0]), run[1..], ci, h);
    } else if |run| > 0 {
      RunSameClients(m, run);
    }
  }

  lemma {:induction false} TailStays(m: System, run: seq<Step>, ci: nat)
    requires SysInv(m) && ValidRun(m, run) && ci < |m.t.clients| && Calls(m, run, ci, 0) == 0
    ensures |Exec(m, run).t.clients| == |m.t.clients|
    ensures Exec(m, run).t.clients[ci].tail == m.t.clients[ci].tail
    decreases |run|
  {
    if |run| > 0 {
      TailsMove(m, run[0], ci);
      StepKeepsInv(m, run[0]);
      TailStays(Next(m, run[0]), run[1..], ci);
    }
  }

  /** Successive calls of one client tile the circle: until its next call is completed, its start
      stays where the previous one stopped, whoever else calls in between. */
  lemma WindowsTile(m: System, run: seq<Step>, ci: nat)
    requires SysInv(m) && ValidRun(m, run) && ci < |m.t.clients| && m.t.clients[ci].inUse
    requires !ScansFor(m, ci) && Calls(m, run, ci, 0) == 0
    ensures |Exec(m, run).t.clients| == |m.t.clients|
    ensures Exec(m, run).t.clients[ci].tail == m.t.clients[ci].head
    ensures !ScansFor(Exec(m, run), ci) ==> Exec(m, run).t.clients[ci].head == m.t.clients[ci].head
  {
    RunKeepsInv(m, run);
    TailStays(m, run, ci);
    RunSameClients(m, run);
  }
}
