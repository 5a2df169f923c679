/** What one undisturbed call of getPendingEvents returns: the first records that fit, of the
    caller's pending slots, in rotation order. */
module ScanSpec {
  import opened Types
  import opened SocketTable
  import opened Handlers
  import opened Machine

  // ---------------------------------------------------------------- the loop, undisturbed

  function Rank(p: Phase): nat
  {
    match p case Testing => 2 case Snapping => 1 case Ending => 0
  }

  /** The loop run to its end with no step of anybody else in between. */
  function ToEnd(m: System): (e: System)
    requires m.scan.Active? && ScanOk(m)
    ensures e.scan.Active? && e.scan.phase == Ending && ScanOk(e)
    decreases |m.t.sockets| - m.scan.walked, Rank(m.scan.phase)
  {
    match m.scan.phase
    case Ending => m
    case Testing => ScanTestKeepsScanOk(m); ToEnd(ScanTest(m))
    case Snapping => ScanSnapKeepsScanOk(m); ToEnd(ScanSnap(m))
  }

  /** One round of the loop. */
  function Visit(m: System): System
    requires m.scan.Active? && ScanOk(m) && m.scan.phase == Testing
  {
    ScanTestKeepsScanOk(m);
    if ScanTest(m).scan.phase == Snapping then ScanSnap(ScanTest(m)) else ScanTest(m)
  }

  lemma VisitKeepsEnd(m: System)
    requires m.scan.Active? && ScanOk(m) && m.scan.phase == Testing
    ensures Visit(m).scan.Active? && ScanOk(Visit(m)) && ToEnd(Visit(m)) == ToEnd(m)
    ensures Visit(m).scan.walked == m.scan.walked + 1 && |Visit(m).t.sockets| == |m.t.sockets|
  {
    ScanTestKeepsScanOk(m);
    if ScanTest(m).scan.phase == Snapping {
      ScanSnapKeepsScanOk(ScanTest(m));
    }
  }

  lemma BeginKeepsScanOk(m: System, caller: int, size: nat, argsOk: bool)
    requires SysInv(m) && m.scan.Idle?
    ensures ScanOk(ScanBegin(m, caller, size, argsOk))
  {
    ScanStepKeepsScanOk(m, SScanBegin(caller, size, argsOk));
  }

  /** The whole call: the state after it and the records it returns. */
  function WholeCall(m: System, caller: int, size: nat, argsOk: bool): (System, seq<Record>)
    requires SysInv(m) && m.scan.Idle?
  {
    BeginKeepsScanOk(m, caller, size, argsOk);
    var b := ScanBegin(m, caller, size, argsOk);
    if b.scan.Idle? then (m, []) else (ScanEnd(ToEnd(b)), ToEnd(b).scan.records)
  }

  /** The undisturbed loop is one of the machine's runs. */
  lemma {:induction false} ToEndIsRun(m: System) returns (run: seq<Step>)
    requires m.scan.Active? && ScanOk(m)
    ensures ValidRun(m, run) && Exec(m, run) == ToEnd(m)
    decreases |m.t.sockets| - m.scan.walked, Rank(m.scan.phase)
  {
    match m.scan.phase {
      case Ending =>
        run := [];
      case Testing =>
        ScanTestKeepsScanOk(m);
        var rest := ToEndIsRun(ScanTest(m));
        run := [SScanTest] + rest;
        assert run[1..] == rest;
      case Snapping =>
        ScanSnapKeepsScanOk(m);
        var rest := ToEndIsRun(ScanSnap(m));
        run := [SScanSnap] + rest;
        assert run[1..] == rest;
    }
  }

  // ---------------------------------------------------------------- rotation, filter, take

  function Rotation(head: int, n: nat): seq<int>
    requires 0 <= head <= n
  {
    seq(n - head, i => head + i) + seq(head, i => i)
  }

  function FilterPending(ss: seq<Slot>, id: int, order: seq<int>): seq<int>
    requires forall i :: 0 <= i < |order| ==> 0 <= order[i] < |ss|
  {
    if |order| == 0 then []
    else
      var last := order[|order| - 1];
      FilterPending(ss, id, order[..|order| - 1]) + if Pending(ss[last], id) then [last] else []
  }

  function Take(s: seq<int>, k: nat): seq<int>
  {
    if |s| <= k then s else s[..k]
  }

  // The pending slots among the first k from head on.
  function PendingIn(ss: seq<Slot>, id: int, head: int, k: nat): seq<int>
    requires 0 <= head < |ss| && k <= |ss|
  {
    if k == 0 then []
    else
      var h := Wrap(head + k - 1, |ss|);
      PendingIn(ss, id, head, k - 1) + if Pending(ss[h], id) then [h] else []
  }

  /** How many slots a call visits: all, or fewer if `max` records are there; but at least k. */
  function Stop(ss: seq<Slot>, id: int, head: int, max: nat, k: nat): (stop: nat)
    requires 0 <= head < |ss| && 1 <= k <= |ss|
    ensures k <= stop <= |ss|
    ensures stop == |ss| || |PendingIn(ss, id, head, stop)| >= max
    ensures forall j :: k <= j < stop ==> |PendingIn(ss, id, head, j)| < max
    decreases |ss| - k
  {
    if k == |ss| || |PendingIn(ss, id, head, k)| >= max then k else Stop(ss, id, head, max, k + 1)
  }

  lemma RotationAt(head: int, n: nat, k: nat)
    requires 0 <= head < n && k < n
    ensures Rotation(head, n)[k] == Wrap(head + k, n)
  {
  }

  lemma {:induction false} PendingInIsFilter(ss: seq<Slot>, id: int, head: int, k: nat)
    requires 0 <= head < |ss| && k <= |ss|
    ensures PendingIn(ss, id, head, k) == FilterPending(ss, id, Rotation(head, |ss|)[..k])
  {
    if k > 0 {
      PendingInIsFilter(ss, id, head, k - 1);
      var order := Rotation(head, |ss|)[..k];
      assert order[..k - 1] == Rotation(head, |ss|)[..k - 1];
      RotationAt(head, |ss|, k - 1);
      assert order[k - 1] == Wrap(head + k - 1, |ss|);
    }
  }

  lemma {:induction false} PendingInGrows(ss: seq<Slot>, id: int, head: int, k: nat, n: nat)
    requires 0 <= head < |ss| && k <= n <= |ss|
    ensures PendingIn(ss, id, head, k) <= PendingIn(ss, id, head, n)
    decreases n
  {
    if k < n {
      PendingInGrows(ss, id, head, k, n - 1);
    }
  }

  /** The slots a call reports are the first `max` of the pending ones in rotation order. */
  lemma StopTakes(ss: seq<Slot>, id: int, head: int, max: nat)
    requires 0 <= head < |ss| && max >= 1
    ensures PendingIn(ss, id, head, Stop(ss, id, head, max, 1))
         == Take(FilterPending(ss, id, Rotation(head, |ss|)), max)
  {
    var stop := Stop(ss, id, head, max, 1);
    PendingInIsFilter(ss, id, head, |ss|);
    assert Rotation(head, |ss|)[..|ss|] == Rotation(head, |ss|);
    PendingInGrows(ss, id, head, stop, |ss|);
    assert |PendingIn(ss, id, head, stop - 1)| < max by {
      assert stop == 1 ==> PendingIn(ss, id, head, stop - 1) == [];
    }
  }

  /** A slot is reported if it is pending and visited, and never twice. */
  lemma {:induction false} PendingInMembers(ss: seq<Slot>, id: int, head: int, k: nat)
    requires 0 <= head < |ss| && k <= |ss|
    ensures forall h :: h in PendingIn(ss, id, head, k) <==>
              0 <= h < |ss| && Dist(head, h, |ss|) < k && Pending(ss[h], id)
    ensures forall i, j :: 0 <= i < j < |PendingIn(ss, id, head, k)| ==>
              PendingIn(ss, id, head, k)[i] != PendingIn(ss, id, head, k)[j]
  {
    if k > 0 {
      PendingInMembers(ss, id, head, k - 1);
      WalkedHead(head, k - 1, |ss|);
      forall h | 0 <= h < |ss| && Dist(head, h, |ss|) == k - 1 ensures h == Wrap(head + k - 1, |ss|) {
      }
    }
  }

  // ---------------------------------------------------------------- the loop's outcome

  function ReportsOf(ss: seq<Slot>, hs: seq<int>): seq<Record>
    requires forall i :: 0 <= i < |hs| ==> 0 <= hs[i] < |ss|
  {
    seq(|hs|, i requires 0 <= i < |hs| => RecordOf(ss[hs[i]], hs[i]))
  }

  function AcknowledgeAll(ss: seq<Slot>, hs: seq<int>): seq<Slot>
  {
    seq(|ss|, i requires 0 <= i < |ss| => if i in hs then Acknowledged(ss[i]) else ss[i])
  }

  // The scan has dealt with the first k slots of table ss.
  predicate DealtWith(m: System, ss: seq<Slot>, k: nat)
    requires InScan(m)
  {
    && |ss| == |m.t.sockets| && k <= |ss| && 0 <= Scanner(m).tail < |ss|
    && var hs := PendingIn(ss, Scanner(m).clientId, Scanner(m).tail, k);
    && (forall i :: 0 <= i < |hs| ==> 0 <= hs[i] < |ss|)
    && m.scan.records == ReportsOf(ss, hs)
    && m.t.sockets == AcknowledgeAll(ss, hs)
  }

  // Everything but the sockets, the scanner's head and the scan itself is as in m.
  predicate OnlyScanMoved(m: System, e: System)
    requires InScan(m)
  {
    && InScan(e) && e.scan.ci == m.scan.ci && e.scan.max == m.scan.max
    && |e.t.clients| == |m.t.clients| && |e.t.sockets| == |m.t.sockets|
    && e.t.clients == m.t.clients[m.scan.ci := Scanner(m).(head := Scanner(e).head)]
    && e.t == m.t.(sockets := e.t.sockets, clients := e.t.clients)
  }

  lemma OneMoreReport(ss: seq<Slot>, hs: seq<int>, h: int)
    requires forall i :: 0 <= i < |hs| ==> 0 <= hs[i] < |ss|
    requires 0 <= h < |ss|
    ensures ReportsOf(ss, hs + [h]) == ReportsOf(ss, hs) + [RecordOf(ss[h], h)]
    ensures AcknowledgeAll(ss, hs + [h]) == AcknowledgeAll(ss, hs)[h := Acknowledged(ss[h])]
  {
  }

  lemma SnapMoves(m: System)
    requires ScanOk(m) && m.scan.Active? && m.scan.phase == Snapping
    ensures OnlyScanMoved(m, ScanSnap(m)) && ScanSnap(m).scan.walked == m.scan.walked + 1
    ensures ScanSnap(m).scan.records == m.scan.records + [RecordOf(HeadSlot(m), Scanner(m).head)]
    ensures ScanSnap(m).t.sockets == m.t.sockets[Scanner(m).head := Acknowledged(HeadSlot(m))]
  {
  }

  lemma SnapDeals(m: System, ss: seq<Slot>)
    requires ScanOk(m) && m.scan.Active? && m.scan.phase == Snapping && DealtWith(m, ss, m.scan.walked)
    ensures DealtWith(ScanSnap(m), ss, m.scan.walked + 1) && OnlyScanMoved(m, ScanSnap(m))
  {
    var tail := Scanner(m).tail;
    var k := m.scan.walked;
    var id := Scanner(m).clientId;
    var h := Scanner(m).head;
    SnapMoves(m);
    PendingInMembers(ss, id, tail, k);
    WalkedHead(tail, k, |ss|);
    var hs := PendingIn(ss, id, tail, k);
    assert h !in hs && m.t.sockets[h] == ss[h];
    assert PendingIn(ss, id, tail, k + 1) == hs + [h];
    OneMoreReport(ss, hs, h);
    var m' := ScanSnap(m);
    assert m'.scan.records == ReportsOf(ss, hs + [h]);
    assert m'.t.sockets == AcknowledgeAll(ss, hs + [h]);
  }

  lemma TestMoves(m: System)
    requires ScanOk(m) && m.scan.Active? && m.scan.phase == Testing
    ensures OnlyScanMoved(m, ScanTest(m)) && ScanTest(m).t.sockets == m.t.sockets
    ensures ScanTest(m).scan.records == m.scan.records
    ensures ScanTest(m).scan.walked == m.scan.walked + if Pending(HeadSlot(m), Scanner(m).clientId) then 0 else 1
  {
  }

  lemma TestDeals(m: System, ss: seq<Slot>)
    requires ScanOk(m) && m.scan.Active? && m.scan.phase == Testing && DealtWith(m, ss, m.scan.walked)
    ensures OnlyScanMoved(m, ScanTest(m))
    ensures DealtWith(ScanTest(m), ss, ScanTest(m).scan.walked)
  {
    var tail := Scanner(m).tail;
    var k := m.scan.walked;
    var h := Scanner(m).head;
    TestMoves(m);
    if !Pending(HeadSlot(m), Scanner(m).clientId) {
      var hs := PendingIn(ss, Scanner(m).clientId, tail, k);
      PendingInMembers(ss, Scanner(m).clientId, tail, k);
      WalkedHead(tail, k, |ss|);
      assert h !in hs && m.t.sockets[h] == ss[h];
      assert PendingIn(ss, Scanner(m).clientId, tail, k + 1) == hs;
    }
  }

  // After one slot: either the loop stops here, or it stops where it stops from the next slot on.
  lemma StopAfter(m: System, m': System, ss: seq<Slot>)
    requires ScanOk(m) && m.scan.Active? && ScanOk(m') && OnlyScanMoved(m, m')
    requires m'.scan.walked == m.scan.walked + 1 && DealtWith(m', ss, m'.scan.walked)
    ensures var stop := Stop(ss, Scanner(m).clientId, Scanner(m).tail, m.scan.max, m.scan.walked + 1);
            if m'.scan.phase == Ending then stop == m'.scan.walked
            else m'.scan.walked < |ss| && stop == Stop(ss, Scanner(m').clientId, Scanner(m').tail, m'.scan.max, m'.scan.walked + 1)
  {
  }

  lemma MovedTwice(m: System, m': System, e: System)
    requires InScan(m) && OnlyScanMoved(m, m') && OnlyScanMoved(m', e)
    ensures OnlyScanMoved(m, e)
  {
  }

  // The next step of the loop.
  function LoopStep(m: System): System
    requires InScan(m)
  {
    if m.scan.phase == Testing then ScanTest(m) else ScanSnap(m)
  }

  lemma LoopStepDeals(m: System, ss: seq<Slot>)
    requires ScanOk(m) && m.scan.Active? && m.scan.phase != Ending && DealtWith(m, ss, m.scan.walked)
    ensures var m' := LoopStep(m);
            && OnlyScanMoved(m, m') && ScanOk(m') && DealtWith(m', ss, m'.scan.walked)
            && ToEnd(m) == ToEnd(m')
            && (m'.scan.walked == m.scan.walked + 1 || (m'.scan.walked == m.scan.walked && m'.scan.phase == Snapping))
    ensures m.scan.phase == Snapping ==> LoopStep(m).scan.phase != Snapping
    ensures |LoopStep(m).t.sockets| - LoopStep(m).scan.walked < |m.t.sockets| - m.scan.walked
         || (LoopStep(m).scan.walked == m.scan.walked && Rank(LoopStep(m).scan.phase) < Rank(m.scan.phase))
  {
    if m.scan.phase == Testing {
      TestDeals(m, ss);
      ScanTestKeepsScanOk(m);
    } else {
      SnapDeals(m, ss);
      SnapMoves(m);
      ScanSnapKeepsScanOk(m);
    }
  }

  // Where the loop stops, as seen from one step earlier.
  lemma StopFromBefore(m: System, m': System, e: System, ss: seq<Slot>)
    requires ScanOk(m) && m.scan.Active? && m.scan.phase != Ending && ScanOk(m') && m'.scan.Active?
    requires DealtWith(m', ss, m'.scan.walked) && OnlyScanMoved(m, m') && OnlyScanMoved(m', e)
    requires m'.scan.walked == m.scan.walked + 1 || (m'.scan.walked == m.scan.walked && m'.scan.phase == Snapping)
    requires m'.scan.phase == Ending ==> e == m'
    requires m'.scan.phase != Ending ==>
               e.scan.walked == Stop(ss, Scanner(m').clientId, Scanner(m').tail, m'.scan.max, m'.scan.walked + 1)
    ensures OnlyScanMoved(m, e)
    ensures |ss| == |m.t.sockets|
    ensures e.scan.walked == Stop(ss, Scanner(m).clientId, Scanner(m).tail, m.scan.max, m.scan.walked + 1)
  {
    MovedTwice(m, m', e);
    if m'.scan.walked == m.scan.walked + 1 {
      StopAfter(m, m', ss);
    }
  }

  lemma {:induction false} ToEndDeals(m: System, ss: seq<Slot>)
    requires ScanOk(m) && m.scan.Active? && DealtWith(m, ss, m.scan.walked)
    ensures OnlyScanMoved(m, ToEnd(m)) && DealtWith(ToEnd(m), ss, ToEnd(m).scan.walked)
    ensures m.scan.phase != Ending ==>
              ToEnd(m).scan.walked == Stop(ss, Scanner(m).clientId, Scanner(m).tail, m.scan.max, m.scan.walked + 1)
    decreases |m.t.sockets| - m.scan.walked, Rank(m.scan.phase)
  {
    if m.scan.phase != Ending {
      var m' := LoopStep(m);
      LoopStepDeals(m, ss);
      ToEndDeals(m', ss);
      StopFromBefore(m, m', ToEnd(m'), ss);
    }
  }

  // ---------------------------------------------------------------- the whole call

  // A registered caller with its cursor in the table.
  predicate Callable(t: Stack, caller: int)
  {
    var ci := ClientIndex(t.clients, caller);
    t.recordSize > 0 && ci >= 0 && 0 <= t.clients[ci].head < |t.sockets|
  }

  function Cursor(t: Stack, caller: int): (head: int)
    requires Callable(t, caller)
    ensures 0 <= head < |t.sockets|
  {
    t.clients[ClientIndex(t.clients, caller)].head
  }

  /** How many slots the call visits. */
  function Window(t: Stack, caller: int, size: nat): (stop: nat)
    requires Callable(t, caller)
    ensures 1 <= stop <= |t.sockets|
  {
    Stop(t.sockets, caller, Cursor(t, caller), Room(t, caller, size), 1)
  }

  /** The slots the call reports: those pending in its window, in rotation order. */
  function Reported(t: Stack, caller: int, size: nat): (hs: seq<int>)
    requires Callable(t, caller)
    ensures forall i :: 0 <= i < |hs| ==> 0 <= hs[i] < |t.sockets|
  {
    var hs := PendingIn(t.sockets, caller, Cursor(t, caller), Window(t, caller, size));
    PendingInMembers(t.sockets, caller, Cursor(t, caller), Window(t, caller, size));
    assert forall i :: 0 <= i < |hs| ==> hs[i] in hs;
    hs
  }

  /** The caller's record after the call: cursor behind the window, head == tail, and a request for
      a notification if the call stopped early with slots left. */
  function CallerAfter(t: Stack, caller: int, size: nat): Client
    requires Callable(t, caller)
  {
    var c := t.clients[ClientIndex(t.clients, caller)];
    var next := Wrap(c.head + Window(t, caller, size), |t.sockets|);
    var early := |Reported(t, caller, size)| >= Room(t, caller, size) && Window(t, caller, size) < |t.sockets|;
    c.(head := next, tail := next, needsToBeNotified := c.needsToBeNotified || early)
  }

  /** The table after the call: just the reported slots acknowledged, just the caller's record moved. */
  function AfterCall(t: Stack, caller: int, size: nat): Stack
    requires Callable(t, caller)
  {
    t.(sockets := AcknowledgeAll(t.sockets, Reported(t, caller, size)),
       clients := t.clients[ClientIndex(t.clients, caller) := CallerAfter(t, caller, size)])
  }

  lemma EndMoves(m: System, e: System)
    requires InScan(m) && OnlyScanMoved(m, e) && ScanOk(e) && e.scan.phase == Ending
    requires 0 <= Scanner(m).tail < |m.t.sockets|
    ensures var next := Wrap(Scanner(m).tail + e.scan.walked, |m.t.sockets|);
            ScanEnd(e) == System(e.t.(clients := m.t.clients[m.scan.ci := Scanner(m).(head := next, tail := next,
              needsToBeNotified := Scanner(m).needsToBeNotified
                || (|e.scan.records| >= m.scan.max && e.scan.walked < |m.t.sockets|))]), Idle)
  {
  }

  lemma CallerCallable(t: Stack, caller: int)
    requires Inv(t) && ClientIndex(t.clients, caller) >= 0
    ensures Callable(t, caller)
  {
    assert ClientOk(t, t.clients[ClientIndex(t.clients, caller)]);
  }

  lemma LoopOutcome(m: System, caller: int, size: nat)
    requires SysInv(m) && m.scan.Idle? && Callable(m.t, caller)
    ensures var b := m.(scan := Active(Testing, ClientIndex(m.t.clients, caller), Room(m.t, caller, size), 0, []));
            && ScanOk(b) && OnlyScanMoved(b, ToEnd(b))
            && ToEnd(b).scan.walked == Window(m.t, caller, size)
            && ToEnd(b).scan.records == ReportsOf(m.t.sockets, Reported(m.t, caller, size))
            && ToEnd(b).t.sockets == AcknowledgeAll(m.t.sockets, Reported(m.t, caller, size))
  {
    var b := m.(scan := Active(Testing, ClientIndex(m.t.clients, caller), Room(m.t, caller, size), 0, []));
    assert m.t.sockets == AcknowledgeAll(m.t.sockets, []);
    assert DealtWith(b, m.t.sockets, 0);
    ToEndDeals(b, m.t.sockets);
  }

  lemma EndIsAfterCall(m: System, b: System, e: System, caller: int, size: nat)
    requires m.scan.Idle? && Callable(m.t, caller) && InScan(b) && b.t == m.t
    requires b.scan.ci == ClientIndex(m.t.clients, caller) && b.scan.max == Room(m.t, caller, size)
    requires Scanner(b).tail == Scanner(b).head
    requires OnlyScanMoved(b, e) && ScanOk(e) && e.scan.phase == Ending
    requires e.scan.walked == Window(m.t, caller, size)
    requires |e.scan.records| == |Reported(m.t, caller, size)|
    requires e.t.sockets == AcknowledgeAll(m.t.sockets, Reported(m.t, caller, size))
    ensures ScanEnd(e) == System(AfterCall(m.t, caller, size), Idle)
  {
    EndMoves(b, e);
  }

  /** getPendingEvents, undisturbed: it reports the slots that its window finds pending, with the
      masks they had, and has no other effect than to acknowledge these and move the cursor. */
  lemma CallOutcome(m: System, caller: int, size: nat, argsOk: bool)
    requires SysInv(m) && m.scan.Idle? && ScanError(m.t, caller, size, argsOk) == Success
    ensures Callable(m.t, caller)
    ensures WholeCall(m, caller, size, argsOk)
         == (System(AfterCall(m.t, caller, size), Idle), ReportsOf(m.t.sockets, Reported(m.t, caller, size)))
  {
    CallerCallable(m.t, caller);
    LoopOutcome(m, caller, size);
    var b := ScanBegin(m, caller, size, argsOk);
    assert b == m.(scan := Active(Testing, ClientIndex(m.t.clients, caller), Room(m.t, caller, size), 0, []));
    EndIsAfterCall(m, b, ToEnd(b), caller, size);
  }

  /** The records are those of the first `max` of the caller's pending slots in rotation order from
      its cursor, when at least one record fits. */
  lemma CallTakesRotation(t: Stack, caller: int, size: nat)
    requires Callable(t, caller) && Room(t, caller, size) >= 1
    ensures Reported(t, caller, size)
         == Take(FilterPending(t.sockets, caller, Rotation(Cursor(t, caller), |t.sockets|)), Room(t, caller, size))
  {
    StopTakes(t.sockets, caller, Cursor(t, caller), Room(t, caller, size));
  }

  /** The records written fit into the requested size and the dataport exactly when one record fits
      into the dataport or the slot at the cursor has nothing to report: the loop tests for room
      only after its first slot. */
  lemma CallFitsIff(t: Stack, caller: int, size: nat)
    requires Callable(t, caller) && size >= t.recordSize
    ensures |Reported(t, caller, size)| * t.recordSize <= Min(size, PortOf(t, caller).size)
       <==> t.recordSize <= PortOf(t, caller).size || !Pending(t.sockets[Cursor(t, caller)], caller)
  {
    var head := Cursor(t, caller);
    var max := Room(t, caller, size);
    var hs := Reported(t, caller, size);
    DivMul(Min(size, PortOf(t, caller).size), t.recordSize);
    if max >= 1 {
      CallTakesRotation(t, caller, size);
      MulLe(|hs|, max, t.recordSize);
    } else {
      assert Window(t, caller, size) == 1;
      assert PendingIn(t.sockets, caller, head, 0) == [];
      assert |hs| == if Pending(t.sockets[head], caller) then 1 else 0;
    }
  }

  lemma DivMul(a: nat, b: nat)
    requires b > 0
    ensures a / b * b <= a && (a / b >= 1 <==> a >= b)
  {
  }

  lemma MulLe(a: nat, b: nat, c: nat)
    requires a <= b
    ensures a * c <= b * c
  {
  }

  // ---------------------------------------------------------------- isolation of the report

  /** Two socket tables with the same slots of client `id`. */
  predicate SameSlots(ss: seq<Slot>, us: seq<Slot>, id: int)
  {
    |us| == |ss| &&
    forall i :: 0 <= i < |ss| && (ss[i].clientId == id || us[i].clientId == id) ==> ss[i] == us[i]
  }

  /** Two tables that look the same to client `id`: its slots, its dataport, the size of a record.
      All else may differ, its own notify flag, counter and quota included. */
  predicate SameView(t: Stack, u: Stack, id: int)
  {
    SameSlots(t.sockets, u.sockets, id) && t.recordSize == u.recordSize && PortOf(t, id) == PortOf(u, id)
  }

  /** Both tables know the client, and its next call starts at the same slot. */
  predicate SameCursor(t: Stack, u: Stack, id: int)
  {
    Callable(t, id) && Callable(u, id) && Cursor(t, id) == Cursor(u, id)
  }

  lemma {:induction false} PendingInSameView(ss: seq<Slot>, us: seq<Slot>, id: int, head: int, k: nat)
    requires SameSlots(ss, us, id) && 0 <= head < |ss| && k <= |ss|
    ensures PendingIn(ss, id, head, k) == PendingIn(us, id, head, k)
  {
    if k > 0 {
      PendingInSameView(ss, us, id, head, k - 1);
    }
  }

  lemma {:induction false} StopSameView(ss: seq<Slot>, us: seq<Slot>, id: int, head: int, max: nat, k: nat)
    requires SameSlots(ss, us, id) && 0 <= head < |ss| && 1 <= k <= |ss|
    ensures Stop(ss, id, head, max, k) == Stop(us, id, head, max, k)
    decreases |ss| - k
  {
    PendingInSameView(ss, us, id, head, k);
    if k < |ss| && |PendingIn(ss, id, head, k)| < max {
      StopSameView(ss, us, id, head, max, k + 1);
    }
  }

  lemma ReportedSameView(t: Stack, u: Stack, caller: int, size: nat)
    requires SameView(t, u, caller) && SameCursor(t, u, caller)
    ensures Reported(t, caller, size) == Reported(u, caller, size)
    ensures Window(t, caller, size) == Window(u, caller, size)
  {
    StopSameView(t.sockets, u.sockets, caller, Cursor(t, caller), Room(t, caller, size), 1);
    PendingInSameView(t.sockets, u.sockets, caller, Cursor(t, caller), Window(t, caller, size));
  }

  lemma ReportedOwned(t: Stack, caller: int, size: nat)
    requires Callable(t, caller)
    ensures forall h :: h in Reported(t, caller, size) ==> 0 <= h < |t.sockets| && t.sockets[h].clientId == caller
  {
    PendingInMembers(t.sockets, caller, Cursor(t, caller), Window(t, caller, size));
  }

  lemma ReportsSameView(ss: seq<Slot>, us: seq<Slot>, id: int, hs: seq<int>)
    requires SameSlots(ss, us, id) && forall i :: 0 <= i < |hs| ==> 0 <= hs[i] < |ss| && ss[hs[i]] == us[hs[i]]
    ensures ReportsOf(ss, hs) == ReportsOf(us, hs)
    ensures SameSlots(AcknowledgeAll(ss, hs), AcknowledgeAll(us, hs), id)
  {
  }

  /** What a client is told depends only on what is its own: from any two tables that agree on its
      slots and cursor, the call returns the same records and leaves tables that agree on these
      again. Notify flags may differ before, and only as much after. */
  lemma ReportDependsOnOwnView(t: Stack, u: Stack, caller: int, size: nat)
    requires SameView(t, u, caller) && SameCursor(t, u, caller)
    ensures ReportsOf(t.sockets, Reported(t, caller, size)) == ReportsOf(u.sockets, Reported(u, caller, size))
    ensures SameView(AfterCall(t, caller, size), AfterCall(u, caller, size), caller)
    ensures SameCursor(AfterCall(t, caller, size), AfterCall(u, caller, size), caller)
  {
    ReportedSameView(t, u, caller, size);
    ReportedOwned(t, caller, size);
    var hs := Reported(t, caller, size);
    forall i | 0 <= i < |hs| ensures 0 <= hs[i] < |t.sockets| && t.sockets[hs[i]] == u.sockets[hs[i]] {
      assert hs[i] in hs;
    }
    ReportsSameView(t.sockets, u.sockets, caller, hs);
    ClientIndexSame(t.clients, AfterCall(t, caller, size).clients, caller);
    ClientIndexSame(u.clients, AfterCall(u, caller, size).clients, caller);
  }
}
