/** A call of getPendingEvents from its begin to its end, with any steps of the control thread in between. */
module ScanRuns {
  import opened Types
  import opened SocketTable
  import opened Handlers
  import opened Machine
  import opened Counting
  import opened Fairness
  import S = ScanSpec

  // ---------------------------------------------------------------- what a report says

  /** In every reachable state, record k of a report under way: it is of a slot in use of the caller's
      own, which the scan has passed, after the slots of all earlier records in rotation order;
      its mask is not empty although the mask was tested outside the lock; the parent is right, and
      the events that stay are still in the slot's mask. No more records than fit are there, or just one. */
  lemma ReportIsSound(m: System, k: nat)
    requires Reachable(m) && m.scan.Active? && k < |m.scan.records|
    ensures InScan(m)
    ensures var r := m.scan.records[k];
            && 0 <= r.handle < |m.t.sockets|
            && m.t.sockets[r.handle].status == InUse
            && m.t.sockets[r.handle].clientId == Scanner(m).clientId
            && m.t.sockets[r.handle].parentHandle == r.parentHandle
            && r.eventMask != {} && r.eventMask - TRANSIENT <= m.t.sockets[r.handle].eventMask
            && Dist(Scanner(m).tail, r.handle, |m.t.sockets|) < m.scan.walked <= |m.t.sockets|
    ensures forall j :: 0 <= j < k ==>
              && m.scan.records[j].handle != m.scan.records[k].handle
              && Dist(Scanner(m).tail, m.scan.records[j].handle, |m.t.sockets|)
               < Dist(Scanner(m).tail, m.scan.records[k].handle, |m.t.sockets|)
    ensures |m.scan.records| <= m.scan.max || |m.scan.records| == 1
  {
    ReachableInv(m);
    var x := m.t.sockets[m.scan.records[k].handle];
    assert RecordFits(m.scan.records[k], x, Scanner(m).clientId);
    assert SlotOk(m.t, x) && ClientOk(m.t, Scanner(m));
    ClientIndexOf(m.t.clients, m.scan.ci);
  }

  /** A snapshot in full: the new record has the slot's whole mask, its number, parent and error as they are at
      that moment, and of the slot just the established, writable and error events go. */
  lemma SnapEffect(m: System)
    requires SysInv(m) && Enabled(m, SScanSnap)
    ensures var e := Next(m, SScanSnap);
            var h := m.t.clients[m.scan.ci].head;
            var x := m.t.sockets[h];
            && 0 <= h < |m.t.sockets| == |e.t.sockets|
            && x.clientId == m.t.clients[m.scan.ci].clientId && x.eventMask != {}
            && e.scan.Active? && |e.scan.records| == |m.scan.records| + 1
            && (forall k :: 0 <= k < |m.scan.records| ==> e.scan.records[k] == m.scan.records[k])
            && (var r := e.scan.records[|m.scan.records|];
                r.eventMask == x.eventMask && r.handle == h && r.parentHandle == x.parentHandle && r.currentError == x.currentError)
            && e.t.sockets == m.t.sockets[h := x.(eventMask := x.eventMask - {EvConnEst, EvWrite, EvError})]
            && e.t.clients[m.scan.ci].head == (if h + 1 == |m.t.sockets| then 0 else h + 1)
            && (Enabled(e, SScanEnd) <==>
                  e.t.clients[m.scan.ci].head == m.t.clients[m.scan.ci].tail || |m.scan.records| + 1 >= m.scan.max)
  {
  }

  /** A step over the slot at head: with nothing to report for the caller, the head moves on by one, cyclically,
      and the loop ends at the tail or when no more records fit; else a snapshot is next. */
  lemma TestEffect(m: System)
    requires SysInv(m) && Enabled(m, SScanTest)
    ensures var e := Next(m, SScanTest);
            var c := m.t.clients[m.scan.ci];
            && e.t.sockets == m.t.sockets && |e.t.clients| == |m.t.clients| && e.scan.Active? && e.scan.records == m.scan.records
            && if m.t.sockets[c.head].clientId == c.clientId && m.t.sockets[c.head].eventMask != {} then
                 e.t == m.t && Enabled(e, SScanSnap)
               else
                 && e.t.clients[m.scan.ci].head == (if c.head + 1 == |m.t.sockets| then 0 else c.head + 1)
                 && (Enabled(e, SScanEnd) <==> e.t.clients[m.scan.ci].head == c.tail || |m.scan.records| >= m.scan.max)
  {
  }

  /** The end of a call in full: the next one starts where this one stopped, the flag goes up exactly if slots
      were left unvisited, and nothing else changes. */
  lemma EndEffect(m: System)
    requires SysInv(m) && Enabled(m, SScanEnd)
    ensures var e := Next(m, SScanEnd);
            var c := m.t.clients[m.scan.ci];
            && e.scan.Idle? && e.t == m.t.(clients := e.t.clients)
            && e.t.clients == m.t.clients[m.scan.ci := c.(tail := c.head,
                 needsToBeNotified := c.needsToBeNotified || m.scan.walked < |m.t.sockets|)]
  {
    var c := m.t.clients[m.scan.ci];
    assert c.head == c.tail <==> m.scan.walked == |m.t.sockets|;
  }

  /** The checks of getPendingEvents in order, and how many records a call may return: the most that fit into
      both the size asked for and the dataport. */
  lemma BeginEffect(m: System, caller: int, size: nat, argsOk: bool)
    requires SysInv(m) && m.scan.Idle?
    ensures var e := ScanError(m.t, caller, size, argsOk);
            if m.t.lifecycle == FatalError then e == Aborted
            else if m.t.lifecycle != Running then e == NotInitialized
            else if !argsOk then e == InvalidParameter
            else if size < m.t.recordSize then e == BufferTooSmall
            else if ClientIndex(m.t.clients, caller) < 0 then e == Aborted
            else e == Success
    ensures ScanError(m.t, caller, size, argsOk) != Success ==> Next(m, SScanBegin(caller, size, argsOk)) == m
    ensures ScanError(m.t, caller, size, argsOk) == Success ==>
              var b := Next(m, SScanBegin(caller, size, argsOk));
              var port := PortOf(m.t, caller).size;
              && b.t == m.t && Enabled(b, SScanTest) && b.scan.records == []
              && m.t.clients[b.scan.ci].clientId == caller
              && b.scan.max * m.t.recordSize <= size && b.scan.max * m.t.recordSize <= port
              && ((b.scan.max + 1) * m.t.recordSize > size || (b.scan.max + 1) * m.t.recordSize > port)
  {
    DivIsMost(Min(size, PortOf(m.t, caller).size), m.t.recordSize);
    if ScanError(m.t, caller, size, argsOk) == Success {
      BeginsAtCursor(m, caller, size, argsOk);
    }
  }

  lemma DivIsMost(a: nat, b: nat)
    requires b > 0
    ensures a / b * b <= a < (a / b + 1) * b
  {
  }

  // ---------------------------------------------------------------- from begin to end

  /** The run does not end the scan in progress. */
  predicate Unended(run: seq<Step>)
  {
    forall i :: 0 <= i < |run| ==> !run[i].SScanEnd?
  }

  // The same slots belong to the same clients and have the same parents.
  predicate SameOwners(ss: seq<Slot>, us: seq<Slot>)
  {
    |ss| == |us| && forall i :: 0 <= i < |ss| ==>
      us[i].clientId == ss[i].clientId && us[i].parentHandle == ss[i].parentHandle
  }

  /** The same scan, later: its client, limit and start are the same, and its records are all there. */
  predicate SameScan(m: System, e: System)
  {
    && InScan(m) && InScan(e)
    && e.scan.ci == m.scan.ci && e.scan.max == m.scan.max
    && Scanner(e).tail == Scanner(m).tail && Scanner(e).clientId == Scanner(m).clientId
    && m.scan.records <= e.scan.records
    && SameOwners(m.t.sockets, e.t.sockets)
  }

  lemma StepKeepsScan(m: System, s: Step)
    requires SysInv(m) && Enabled(m, s) && m.scan.Active? && !s.SScanEnd?
    ensures SysInv(Next(m, s)) && SameScan(m, Next(m, s))
  {
    StepKeepsInv(m, s);
    StepSameClients(m, s);
    TailsMove(m, s, m.scan.ci);
    if s.SEvent? {
      CallbackAround(m.t, s.impl, s.evs, s.listening, s.tcp, s.err);
    }
  }

  /** Whatever comes between, a scan goes on as the same scan, and a record once written stays in the
      report until the call returns it. */
  lemma {:induction false} ScanStays(m: System, run: seq<Step>)
    requires SysInv(m) && m.scan.Active? && ValidRun(m, run) && Unended(run)
    ensures SysInv(Exec(m, run)) && SameScan(m, Exec(m, run))
    decreases |run|
  {
    if |run| > 0 {
      StepKeepsScan(m, run[0]);
      ScanStays(Next(m, run[0]), run[1..]);
    }
  }

  /** The record is of a slot that was the caller's own when the call began, with the parent it had. */
  predicate OwnRecord(r: Record, t: Stack, caller: int)
  {
    && 0 <= r.handle < |t.sockets| && r.eventMask != {}
    && t.sockets[r.handle].clientId == caller && t.sockets[r.handle].parentHandle == r.parentHandle
  }

  /** The report of a call of `caller` that began at table t and walked so many slots: own records only,
      in rotation order from the caller's cursor, each slot at most once; no more than fit, or the
      one of the first slot; and the loop went round, or stopped because no more fit. */
  predicate SoundReport(records: seq<Record>, walked: nat, t: Stack, caller: int, size: nat)
    requires S.Callable(t, caller)
  {
    var head := S.Cursor(t, caller);
    var n := |t.sockets|;
    && (forall k :: 0 <= k < |records| ==> OwnRecord(records[k], t, caller) && Dist(head, records[k].handle, n) < walked)
    && (forall j, k :: 0 <= j < k < |records| ==> Dist(head, records[j].handle, n) < Dist(head, records[k].handle, n))
    && (|records| <= Room(t, caller, size) || (|records| == 1 && Room(t, caller, size) == 0))
    && 1 <= walked <= n && (walked == n || |records| >= Room(t, caller, size))
  }

  lemma EndedIsSound(b: System, e: System, caller: int, size: nat)
    requires S.Callable(b.t, caller) && SysInv(e) && SameScan(b, e) && Enabled(e, SScanEnd)
    requires b.scan.max == Room(b.t, caller, size) && Scanner(b).clientId == caller
    requires Scanner(b).tail == S.Cursor(b.t, caller)
    ensures SoundReport(e.scan.records, e.scan.walked, b.t, caller, size)
  {
    forall k | 0 <= k < |e.scan.records| ensures OwnRecord(e.scan.records[k], b.t, caller) {
      assert RecordFits(e.scan.records[k], e.t.sockets[e.scan.records[k].handle], caller);
    }
  }

  lemma BeginsAtCursor(m: System, caller: int, size: nat, argsOk: bool)
    requires SysInv(m) && m.scan.Idle? && ScanError(m.t, caller, size, argsOk) == Success
    ensures S.Callable(m.t, caller)
    ensures var b := ScanBegin(m, caller, size, argsOk);
            && SysInv(b) && InScan(b) && b.t == m.t && b.scan.ci == ClientIndex(m.t.clients, caller)
            && b.scan.max == Room(m.t, caller, size) && Scanner(b).clientId == caller
            && Scanner(b).tail == S.Cursor(m.t, caller)
  {
    S.CallerCallable(m.t, caller);
    StepKeepsInv(m, SScanBegin(caller, size, argsOk));
  }

  /** A whole call in any interleaving, from its begin in m to the end of its loop in e: the report it
      returns is sound, and the next call goes on behind its last slot. */
  lemma CallInAnyInterleaving(m: System, caller: int, size: nat, argsOk: bool, run: seq<Step>)
    requires SysInv(m) && m.scan.Idle? && ScanError(m.t, caller, size, argsOk) == Success
    requires ValidRun(ScanBegin(m, caller, size, argsOk), run) && Unended(run)
    requires Enabled(Exec(ScanBegin(m, caller, size, argsOk), run), SScanEnd)
    ensures S.Callable(m.t, caller)
    ensures var e := Exec(ScanBegin(m, caller, size, argsOk), run);
            && SoundReport(e.scan.records, e.scan.walked, m.t, caller, size)
            && S.Callable(Next(e, SScanEnd).t, caller)
            && S.Cursor(Next(e, SScanEnd).t, caller) == Wrap(S.Cursor(m.t, caller) + e.scan.walked, |m.t.sockets|)
  {
    BeginsAtCursor(m, caller, size, argsOk);
    var b := ScanBegin(m, caller, size, argsOk);
    ScanStays(b, run);
    RunSameClients(b, run);
    EndedIsSound(b, Exec(b, run), caller, size);
    ClientIndexSame(m.t.clients, Exec(b, run).t.clients, caller);
    EndFor(Exec(b, run), caller);
  }

  // The end of a call of `caller`.
  lemma EndFor(e: System, caller: int)
    requires SysInv(e) && Enabled(e, SScanEnd) && ClientIndex(e.t.clients, caller) == e.scan.ci
    ensures S.Callable(Next(e, SScanEnd).t, caller)
    ensures S.Cursor(Next(e, SScanEnd).t, caller) == Wrap(Scanner(e).tail + e.scan.walked, |e.t.sockets|)
  {
    ClientIndexSame(e.t.clients, Next(e, SScanEnd).t.clients, caller);
  }

  // ---------------------------------------------------------------- how long a call takes

  predicate IsScanStep(s: Step)
  {
    s.SScanTest? || s.SScanSnap? || s.SScanEnd?
  }

  /** A bound on the steps a scan still takes: two for a slot, one to end. */
  function StepsLeft(m: System): int
  {
    if !m.scan.Active? then 0
    else
      var slots := |m.t.sockets| - m.scan.walked;
      match m.scan.phase
      case Testing => 2 * slots + 1
      case Snapping => 2 * slots
      case Ending => 1
  }

  /** A scan is never stuck: one of its steps is enabled, no other is, and it brings the end nearer. */
  lemma ScanGoesOn(m: System)
    requires SysInv(m) && m.scan.Active?
    ensures exists s :: IsScanStep(s) && Enabled(m, s) && StepsLeft(Next(m, s)) < StepsLeft(m)
    ensures forall s, r :: IsScanStep(s) && IsScanStep(r) && Enabled(m, s) && Enabled(m, r) ==> s == r
  {
    var s := match m.scan.phase case Testing => SScanTest case Snapping => SScanSnap case Ending => SScanEnd;
    assert IsScanStep(s) && Enabled(m, s);
    StepTakesOne(m, s);
  }

  lemma StepTakesOne(m: System, s: Step)
    requires SysInv(m) && Enabled(m, s) && !s.SScanBegin?
    ensures 0 <= StepsLeft(m) <= 2 * |m.t.sockets| + 1
    ensures StepsLeft(Next(m, s)) + (if IsScanStep(s) then 1 else 0) <= StepsLeft(m)
  {
    StepSameClients(m, s);
  }

  function ScanSteps(run: seq<Step>): nat
  {
    if |run| == 0 then 0 else (if IsScanStep(run[0]) then 1 else 0) + ScanSteps(run[1..])
  }

  /** However often events, ticks and other calls come between, one scan takes at most two steps a slot
      and one to end; the steps a run has taken are no longer left. */
  lemma {:induction false} ScanTerminates(m: System, run: seq<Step>)
    requires SysInv(m) && ValidRun(m, run) && forall i :: 0 <= i < |run| ==> !run[i].SScanBegin?
    ensures ScanSteps(run) + StepsLeft(Exec(m, run)) <= StepsLeft(m)
    ensures ScanSteps(run) <= 2 * |m.t.sockets| + 1
    decreases |run|
  {
    StepTakesOne(m, STick);
    if |run| > 0 {
      StepTakesOne(m, run[0]);
      StepKeepsInv(m, run[0]);
      ScanTerminates(Next(m, run[0]), run[1..]);
    }
    RunKeepsInv(m, run);
    StepTakesOne(Exec(m, run), STick);
  }
}
