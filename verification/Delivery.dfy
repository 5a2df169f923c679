/** Fairness and event accounting together: an event that was raised reaches its client. */
module Delivery {
  import opened Types
  import opened Machine
  import opened EventDelivery
  import opened Fairness
  import opened ScanRuns

  /** While no step accounts for the event, its slot stays pending for its owner. */
  lemma {:induction false} PendingUntilAccounted(m: System, run: seq<Step>, ci: nat, h: int, ev: Event)
    requires SysInv(m) && ValidRun(m, run) && Raised(m, h, ev) && PendingFor(m, ci, h)
    requires !EverAccounted(m, run, h, ev)
    ensures AlwaysPending(m, run, ci, h)
    decreases |run|
  {
    if |run| > 0 {
      StepKeepsEvents(m, run[0], h, ev);
      StepKeepsInv(m, run[0]);
      StepSameClients(m, run[0]);
      PendingUntilAccounted(Next(m, run[0]), run[1..], ci, h, ev);
    }
  }

  lemma SnapAccounts(m: System, s: Step, ci: nat, h: int, ev: Event)
    requires SysInv(m) && Enabled(m, s) && Raised(m, h, ev) && ev in TRANSIENT && Reports(m, s, ci, h)
    ensures AccountsFor(m, s, h, ev)
  {
    var records := Next(m, s).scan.records;
    assert records[|records| - 1] == RecordOf(HeadSlot(m), h);
  }

  /** A report of the slot carries every transient event that is still in its mask. */
  lemma {:induction false} ReportAccounts(m: System, run: seq<Step>, ci: nat, h: int, ev: Event)
    requires SysInv(m) && ValidRun(m, run) && Raised(m, h, ev) && ev in TRANSIENT
    requires EverReported(m, run, ci, h)
    ensures EverAccounted(m, run, h, ev)
    decreases |run|
  {
    if Reports(m, run[0], ci, h) {
      SnapAccounts(m, run[0], ci, h, ev);
    } else {
      StepKeepsEvents(m, run[0], h, ev);
      if !AccountsFor(m, run[0], h, ev) {
        StepKeepsInv(m, run[0]);
        ReportAccounts(Next(m, run[0]), run[1..], ci, h, ev);
      }
    }
  }

  /** Until an event is accounted for, every record of its slot carries it. */
  lemma {:induction false} ReportCarries(m: System, run: seq<Step>, ci: nat, h: int, ev: Event)
    requires SysInv(m) && ValidRun(m, run) && Raised(m, h, ev) && EverReported(m, run, ci, h)
    ensures Carried(m, run, h, ev) > 0 || EverAccounted(m, run, h, ev)
    decreases |run|
  {
    if Reports(m, run[0], ci, h) {
      SnapCarries(m, run[0], h, ev);
    } else {
      StepKeepsEvents(m, run[0], h, ev);
      if !AccountsFor(m, run[0], h, ev) {
        StepKeepsInv(m, run[0]);
        ReportCarries(Next(m, run[0]), run[1..], ci, h, ev);
      }
    }
  }

  lemma SnapCarries(m: System, s: Step, h: int, ev: Event)
    requires SysInv(m) && Enabled(m, s) && Raised(m, h, ev) && s.SScanSnap? && Scanner(m).head == h
    ensures Carries(m, s, h, ev)
  {
    SnapEffect(m);
  }

  /** Delivery: from a moment between two calls of client ci, an event raised on one of its slots, of
      whatever kind, is in a record or otherwise accounted for within ceil(N / room) completed calls of
      ci with room for `room` records. For a transient event (established, writable, error) the other
      ways are that ci closed the socket, and for CLOSE and FIN as well. */
  lemma RaisedEventIsDelivered(m: System, run: seq<Step>, ci: nat, h: int, ev: Event, room: nat)
    requires SysInv(m) && ValidRun(m, run) && Raised(m, h, ev) && PendingFor(m, ci, h)
    requires !ScansFor(m, ci) && room >= 1
    requires Calls(m, run, ci, room) >= (|m.t.sockets| + room - 1) / room
    ensures Carried(m, run, h, ev) > 0 || EverAccounted(m, run, h, ev)
    ensures ev in {EvConnEst, EvWrite, EvError, EvClose, EvFin} ==> Carried(m, run, h, ev) > 0 || EverFreed(m, run, h)
    ensures ev in {EvConnEst, EvWrite, EvError} ==> EverAccounted(m, run, h, ev)
  {
    if !EverAccounted(m, run, h, ev) {
      PendingUntilAccounted(m, run, ci, h, ev);
      PendingSlotIsReported(m, run, ci, h, room);
      ReportCarries(m, run, ci, h, ev);
      if ev in TRANSIENT {
        ReportAccounts(m, run, ci, h, ev);
      }
    } else if ev in {EvConnEst, EvWrite, EvError, EvClose, EvFin} {
      AccountedIsToldOrFreed(m, run, h, ev);
    }
  }

  lemma {:induction false} AccountedIsToldOrFreed(m: System, run: seq<Step>, h: int, ev: Event)
    requires ValidRun(m, run) && 0 <= h < |m.t.sockets| && EverAccounted(m, run, h, ev)
    requires ev in {EvConnEst, EvWrite, EvError, EvClose, EvFin}
    ensures Carried(m, run, h, ev) > 0 || EverFreed(m, run, h)
    decreases |run|
  {
    if !AccountsFor(m, run[0], h, ev) {
      AccountedIsToldOrFreed(Next(m, run[0]), run[1..], h, ev);
    }
  }
}
