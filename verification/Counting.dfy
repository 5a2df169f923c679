/** What the counters and the ledger mean, and which quotas the table can honour. */
module Counting {
  import opened Types
  import opened SocketTable
  import opened Handlers
  import opened Machine

  // ---------------------------------------------------------------- start of every run

  /** The tables right after initialisation: no slot in use, one client per configured quota. */
  function BootClients(maxClients: nat, quotas: seq<int>): seq<Client>
    requires |quotas| <= maxClients
  {
    seq(maxClients, i requires 0 <= i < maxClients =>
      if i < |quotas| then Client(false, 0, MIN_BADGE_ID + i, true, quotas[i], 0, 0, true) else EMPTY_CLIENT)
  }

  function BootStack(n: nat, maxClients: nat, quotas: seq<int>, ports: map<int, Dataport>, recordSize: nat): Stack
    requires |quotas| <= maxClients
  {
    Stack(Initialized, seq(n, i => EMPTY_SLOT), BootClients(maxClients, quotas), ports, recordSize,
          EMPTY_LEDGER, false, false, false)
  }

  lemma {:induction false} EmptyGather(ss: seq<Slot>, f: Slot -> multiset<int>)
    requires forall i :: 0 <= i < |ss| ==> f(ss[i]) == multiset{}
    ensures Gather(ss, f) == multiset{}
  {
    if |ss| > 0 {
      EmptyGather(ss[..|ss| - 1], f);
    }
  }

  lemma BootInv(n: nat, maxClients: nat, quotas: seq<int>, ports: map<int, Dataport>, recordSize: nat)
    requires |quotas| <= maxClients && n > 0 && recordSize > 0
    ensures SysInv(System(BootStack(n, maxClients, quotas, ports, recordSize), Idle))
  {
    var t := BootStack(n, maxClients, quotas, ports, recordSize);
    EmptyGather(t.sockets, OwnerOf);
    EmptyGather(t.sockets, LiveOf);
  }

  /** The tables in full: all slots zeroed, client i with id 101 + i, its quota and a notify function. */
  lemma BootTables(n: nat, maxClients: nat, quotas: seq<int>, ports: map<int, Dataport>, recordSize: nat)
    requires |quotas| <= maxClients
    ensures var t := BootStack(n, maxClients, quotas, ports, recordSize);
            && |t.sockets| == n && |t.clients| == maxClients && t.lifecycle == Initialized
            && (forall h :: 0 <= h < n ==> t.sockets[h] == Slot(Free, 0, {}, Success, 0, false, 0, NoType, Dataport(0, 0), 0))
            && (forall i :: 0 <= i < maxClients ==>
                  if i < |quotas| then t.clients[i] == Client(false, 0, 101 + i, true, quotas[i], 0, 0, true)
                  else !t.clients[i].inUse)
  {
  }

  /** Freshly initialised, with some configuration. */
  ghost predicate Initial(m: System)
  {
    exists n: nat, maxClients: nat, quotas: seq<int>, ports: map<int, Dataport>, recordSize: nat ::
      && |quotas| <= maxClients && n > 0 && recordSize > 0
      && m == System(BootStack(n, maxClients, quotas, ports, recordSize), Idle)
  }

  /** Reachable from some initial state by some run. */
  ghost predicate Reachable(m: System)
  {
    exists boot: System, run: seq<Step> :: Initial(boot) && ValidRun(boot, run) && m == Exec(boot, run)
  }

  lemma InitialInv(boot: System)
    requires Initial(boot)
    ensures SysInv(boot)
  {
    var n: nat, maxClients: nat, quotas: seq<int>, ports: map<int, Dataport>, recordSize: nat :|
      && |quotas| <= maxClients && n > 0 && recordSize > 0
      && boot == System(BootStack(n, maxClients, quotas, ports, recordSize), Idle);
    BootInv(n, maxClients, quotas, ports, recordSize);
  }

  /** Every reachable state satisfies the invariant. In particular the thread-safety mutex is never
      left locked, no handler gave picoTCP a socket whose slot has seen FIN, and the callback's
      client pointer was never NULL. */
  lemma ReachableInv(m: System)
    requires Reachable(m)
    ensures SysInv(m) && !m.t.tsLocked && !m.t.staleUse && !m.t.nullDeref
  {
    var boot: System, run: seq<Step> :| Initial(boot) && ValidRun(boot, run) && m == Exec(boot, run);
    InitialInv(boot);
    RunKeepsInv(boot, run);
  }

  lemma BootReachable(n: nat, maxClients: nat, quotas: seq<int>, ports: map<int, Dataport>, recordSize: nat)
    requires |quotas| <= maxClients && n > 0 && recordSize > 0
    ensures Reachable(System(BootStack(n, maxClients, quotas, ports, recordSize), Idle))
  {
    var m := System(BootStack(n, maxClients, quotas, ports, recordSize), Idle);
    assert Initial(m);
    assert ValidRun(m, []) && Exec(m, []) == m;
  }

  lemma ReachableNext(m: System, s: Step)
    requires Reachable(m) && Enabled(m, s)
    ensures Reachable(Next(m, s))
  {
    var boot: System, run: seq<Step> :| Initial(boot) && ValidRun(boot, run) && m == Exec(boot, run);
    RunAppend(boot, run, s);
  }

  // ---------------------------------------------------------------- counters

  // The slots in which f finds k.
  function Holders(ss: seq<Slot>, f: Slot -> multiset<int>, k: int): set<int>
  {
    set i | 0 <= i < |ss| && k in f(ss[i])
  }

  lemma {:induction false} GatherCounts(ss: seq<Slot>, f: Slot -> multiset<int>, k: int)
    requires forall i :: 0 <= i < |ss| ==> f(ss[i])[k] <= 1
    ensures Gather(ss, f)[k] == |Holders(ss, f, k)|
  {
    if |ss| > 0 {
      var last := |ss| - 1;
      GatherCounts(ss[..last], f, k);
      var before := Holders(ss[..last], f, k);
      assert Holders(ss, f, k) == before + if k in f(ss[last]) then {last} else {};
    }
  }

  function OwnedBy(t: Stack, id: int): set<int>
  {
    set i | 0 <= i < |t.sockets| && t.sockets[i].status == InUse && t.sockets[i].clientId == id
  }

  function InUseIn(ss: seq<Slot>): set<int>
  {
    set i | 0 <= i < |ss| && ss[i].status == InUse
  }

  function UsedSlots(t: Stack): set<int>
  {
    InUseIn(t.sockets)
  }

  function SumCounters(cs: seq<Client>): int
  {
    if |cs| == 0 then 0
    else SumCounters(cs[..|cs| - 1]) + if cs[|cs| - 1].inUse then cs[|cs| - 1].currentSocketsInUse else 0
  }

  function SumAllowances(cs: seq<Client>): nat
  {
    if |cs| == 0 then 0
    else SumAllowances(cs[..|cs| - 1]) + if cs[|cs| - 1].inUse then Allowance(cs[|cs| - 1]) else 0
  }

  /** Counters that count a multiset of registered ids add up to its size. */
  lemma {:induction false} CountersAddUp(cs: seq<Client>, owners: multiset<int>)
    requires Distinct(cs)
    requires forall i :: 0 <= i < |cs| && cs[i].inUse ==> cs[i].currentSocketsInUse == owners[cs[i].clientId]
    requires forall id :: id in owners ==> exists i :: 0 <= i < |cs| && cs[i].inUse && cs[i].clientId == id
    ensures SumCounters(cs) == |owners|
  {
    if |cs| == 0 {
      assert forall id :: id !in owners;
      assert owners == multiset{};
    } else {
      var last := |cs| - 1;
      var c := cs[last];
      var rest := if c.inUse then owners[c.clientId := 0] else owners;
      forall id | id in rest ensures exists i :: 0 <= i < last && cs[..last][i].inUse && cs[..last][i].clientId == id {
        assert id in owners;
        var i :| 0 <= i < |cs| && cs[i].inUse && cs[i].clientId == id;
        assert i < last && cs[..last][i] == cs[i];
      }
      CountersAddUp(cs[..last], rest);
    }
  }

  lemma {:induction false} UsedSlotsCount(ss: seq<Slot>)
    ensures |Owners(ss)| == |InUseIn(ss)|
  {
    if |ss| > 0 {
      var last := |ss| - 1;
      UsedSlotsCount(ss[..last]);
      assert InUseIn(ss) == InUseIn(ss[..last]) + if ss[last].status == InUse then {last} else {};
      assert |OwnerOf(ss[last])| == if ss[last].status == InUse then 1 else 0;
    }
  }

  lemma SumIsOwners(t: Stack)
    requires Inv(t)
    ensures SumCounters(t.clients) == |Owners(t.sockets)|
  {
    forall i | 0 <= i < |t.clients| && t.clients[i].inUse
      ensures t.clients[i].currentSocketsInUse == Owners(t.sockets)[t.clients[i].clientId]
    {
      assert ClientOk(t, t.clients[i]);
    }
    forall id | id in Owners(t.sockets) ensures exists i :: 0 <= i < |t.clients| && t.clients[i].inUse && t.clients[i].clientId == id {
      OwnersSound(t.sockets, id);
      var j :| 0 <= j < |t.sockets| && t.sockets[j].status == InUse && t.sockets[j].clientId == id;
      assert SlotOk(t, t.sockets[j]);
      assert t.clients[ClientIndex(t.clients, id)].inUse;
    }
    CountersAddUp(t.clients, Owners(t.sockets));
  }

  predicate Owns(t: Stack, i: int, h: int)
  {
    0 <= i < |t.clients| && t.clients[i].inUse && h in OwnedBy(t, t.clients[i].clientId)
  }

  predicate HasOneOwner(t: Stack, h: int)
  {
    exists i :: 0 <= i < |t.clients| && Owns(t, i, h) && forall j :: 0 <= j < |t.clients| && Owns(t, j, h) ==> j == i
  }

  lemma OneOwner(t: Stack, h: int)
    requires Inv(t) && h in UsedSlots(t)
    ensures HasOneOwner(t, h)
  {
    assert SlotOk(t, t.sockets[h]);
    assert Owns(t, ClientIndex(t.clients, t.sockets[h].clientId), h);
  }

  lemma OwnCounter(t: Stack, ci: int)
    requires Inv(t) && 0 <= ci < |t.clients| && t.clients[ci].inUse
    ensures t.clients[ci].currentSocketsInUse == |OwnedBy(t, t.clients[ci].clientId)|
    ensures t.clients[ci].currentSocketsInUse <= Allowance(t.clients[ci])
  {
    assert ClientOk(t, t.clients[ci]);
    GatherCounts(t.sockets, OwnerOf, t.clients[ci].clientId);
    assert Holders(t.sockets, OwnerOf, t.clients[ci].clientId) == OwnedBy(t, t.clients[ci].clientId);
  }

  /** Conservation: in every reachable state each client's counter is the number of slots in use
      that it owns, within its quota; all counters add up to the number of slots in use; and every
      slot in use has exactly one registered owner. */
  lemma CountersAreExact(m: System, ci: int)
    requires Reachable(m) && 0 <= ci < |m.t.clients| && m.t.clients[ci].inUse
    ensures m.t.clients[ci].currentSocketsInUse == |OwnedBy(m.t, m.t.clients[ci].clientId)|
    ensures m.t.clients[ci].currentSocketsInUse <= Allowance(m.t.clients[ci])
    ensures SumCounters(m.t.clients) == |UsedSlots(m.t)|
    ensures forall h :: h in UsedSlots(m.t) ==> HasOneOwner(m.t, h)
  {
    ReachableInv(m);
    var t := m.t;
    OwnCounter(t, ci);
    SumIsOwners(t);
    UsedSlotsCount(t.sockets);
    forall h | h in UsedSlots(t) ensures HasOneOwner(t, h) {
      OneOwner(t, h);
    }
  }

  // ---------------------------------------------------------------- ledger

  predicate HeldLive(t: Stack, impl: int)
  {
    exists i :: 0 <= i < |t.sockets| && IsLive(t.sockets[i]) && t.sockets[i].impl == impl
  }

  lemma LiveCount(t: Stack, impl: int)
    requires SlotsOk(t)
    ensures Live(t.sockets)[impl] == if HeldLive(t, impl) then 1 else 0
  {
    GatherCounts(t.sockets, LiveOf, impl);
    var hs := Holders(t.sockets, LiveOf, impl);
    if i :| 0 <= i < |t.sockets| && IsLive(t.sockets[i]) && t.sockets[i].impl == impl {
      forall j | j in hs ensures j == i {
        assert IsLive(t.sockets[j]) && t.sockets[j].impl == impl;
      }
      assert hs == {i};
    } else {
      assert hs == {};
    }
  }

  /** The ledger of picoTCP sockets: whatever open and accept returned was handed back to
      pico_socket_close, finished by FIN, or is held by a live slot, and by one only. */
  lemma LedgerBalances(m: System, impl: int)
    requires Reachable(m)
    ensures m.t.ledger.obtained[impl]
         == m.t.ledger.closed[impl] + m.t.ledger.finished[impl] + (if HeldLive(m.t, impl) then 1 else 0)
  {
    ReachableInv(m);
    LiveCount(m.t, impl);
    assert LedgerOk(m.t);
  }

  // ---------------------------------------------------------------- quotas

  lemma {:induction false} SumsCompare(cs: seq<Client>)
    requires forall i :: 0 <= i < |cs| && cs[i].inUse ==> cs[i].currentSocketsInUse <= Allowance(cs[i])
    ensures SumCounters(cs) <= SumAllowances(cs)
    ensures SumCounters(cs) < SumAllowances(cs) <==>
            exists i :: 0 <= i < |cs| && cs[i].inUse && cs[i].currentSocketsInUse < Allowance(cs[i])
  {
    if |cs| > 0 {
      var last := |cs| - 1;
      SumsCompare(cs[..last]);
      if i :| 0 <= i < last && cs[..last][i].inUse && cs[..last][i].currentSocketsInUse < Allowance(cs[..last][i]) {
        assert cs[i].inUse && cs[i].currentSocketsInUse < Allowance(cs[i]);
      }
      if i :| 0 <= i < |cs| && cs[i].inUse && cs[i].currentSocketsInUse < Allowance(cs[i]) {
        assert i == last || cs[..last][i].inUse;
      }
    }
  }

  lemma {:induction false} AllowancesSame(cs: seq<Client>, ds: seq<Client>)
    requires SameClients(cs, ds)
    ensures SumAllowances(cs) == SumAllowances(ds)
  {
    if |cs| > 0 {
      AllowancesSame(cs[..|cs| - 1], ds[..|ds| - 1]);
    }
  }

  predicate BelowQuota(t: Stack, ci: int)
  {
    0 <= ci < |t.clients| && t.clients[ci].inUse && t.clients[ci].currentSocketsInUse < Allowance(t.clients[ci])
  }

  lemma SomeoneBelowQuota(t: Stack)
    requires Inv(t)
    ensures |Owners(t.sockets)| < SumAllowances(t.clients) <==> exists ci :: BelowQuota(t, ci)
  {
    forall i | 0 <= i < |t.clients| && t.clients[i].inUse
      ensures t.clients[i].currentSocketsInUse <= Allowance(t.clients[i])
    {
      assert ClientOk(t, t.clients[i]);
    }
    SumsCompare(t.clients);
    SumIsOwners(t);
    if |Owners(t.sockets)| < SumAllowances(t.clients) {
      var ci :| 0 <= ci < |t.clients| && t.clients[ci].inUse && t.clients[ci].currentSocketsInUse < Allowance(t.clients[ci]);
      assert BelowQuota(t, ci);
    }
    if ci :| BelowQuota(t, ci) {
      assert t.clients[ci].inUse;
    }
  }

  /** Reserve gives client ci the lowest free slot, whatever socket it is for. */
  ghost predicate Served(t: Stack, ci: int)
    requires 0 <= ci < |t.clients|
  {
    forall impl :: var h := Reserve(t, impl, t.clients[ci].clientId).1;
      && 0 <= h < |t.sockets| && t.sockets[h].status == Free
      && forall j :: 0 <= j < h ==> t.sockets[j].status == InUse
  }

  /** In every run from t, whoever is below its quota is served. */
  ghost predicate QuotasHonoured(t: Stack)
  {
    forall run: seq<Step>, ci: int ::
      ValidRun(System(t, Idle), run) && BelowQuota(Exec(System(t, Idle), run).t, ci)
      ==> Served(Exec(System(t, Idle), run).t, ci)
  }

  lemma FreeSlotServes(t: Stack, ci: int)
    requires Inv(t) && BelowQuota(t, ci) && FirstFree(t.sockets) >= 0
    ensures Served(t, ci)
  {
    assert ClientOk(t, t.clients[ci]);
    ClientIndexOf(t.clients, ci);
  }

  // A picoTCP address above all that are in the table.
  function Above(ss: seq<Slot>): (p: int)
    ensures p > 0
    ensures forall i :: 0 <= i < |ss| ==> ss[i].impl < p
  {
    if |ss| == 0 then 1
    else
      var p := Above(ss[..|ss| - 1]);
      if ss[|ss| - 1].impl < p then p else ss[|ss| - 1].impl + 1
  }

  // One more socket for a client below its quota.
  lemma CreateOne(m: System, ci: int)
    requires SysInv(m) && m.scan.Idle? && m.t.lifecycle == Running && BelowQuota(m.t, ci) && FirstFree(m.t.sockets) >= 0
    ensures var s := SCreate(m.t.clients[ci].clientId, true, true, Stream, Above(m.t.sockets), Success);
            && Enabled(m, s) && SysInv(Next(m, s))
            && Next(m, s).scan.Idle? && Next(m, s).t.lifecycle == Running
            && SameClients(m.t.clients, Next(m, s).t.clients) && |Next(m, s).t.sockets| == |m.t.sockets|
            && |Owners(Next(m, s).t.sockets)| == |Owners(m.t.sockets)| + 1
  {
    var s := SCreate(m.t.clients[ci].clientId, true, true, Stream, Above(m.t.sockets), Success);
    StepKeepsInv(m, s);
    StepSameClients(m, s);
    FreeSlotServes(m.t, ci);
    ClientIndexOf(m.t.clients, ci) by { assert ClientOk(m.t, m.t.clients[ci]); }
    var h := FirstFree(m.t.sockets);
    var x := Next(m, s).t.sockets[h];
    assert Next(m, s).t.sockets == m.t.sockets[h := x];
    GatherUpdate(m.t.sockets, OwnerOf, h, x);
    assert |Owners(Next(m, s).t.sockets) + multiset{}| == |Owners(m.t.sockets) + multiset{x.clientId}|;
  }

  /** Quotas that add up to more than there are slots can be used up: some run fills the table while
      a client is still below its quota. */
  lemma {:induction false} FillUp(m: System) returns (run: seq<Step>, ci: int)
    requires SysInv(m) && m.scan.Idle? && m.t.lifecycle == Running
    requires SumAllowances(m.t.clients) > |m.t.sockets|
    ensures ValidRun(m, run) && BelowQuota(Exec(m, run).t, ci)
    ensures SysInv(Exec(m, run)) && FirstFree(Exec(m, run).t.sockets) < 0
    decreases |m.t.sockets| - |Owners(m.t.sockets)|
  {
    OwnersCount(m.t.sockets);
    SomeoneBelowQuota(m.t);
    ci :| BelowQuota(m.t, ci);
    if FirstFree(m.t.sockets) < 0 {
      run := [];
    } else {
      var s := SCreate(m.t.clients[ci].clientId, true, true, Stream, Above(m.t.sockets), Success);
      CreateOne(m, ci);
      OwnersCount(Next(m, s).t.sockets);
      AllowancesSame(m.t.clients, Next(m, s).t.clients);
      var rest;
      rest, ci := FillUp(Next(m, s));
      run := [s] + rest;
      assert run[1..] == rest;
    }
  }

  /** The quota guarantee, exactly: from an initial state, every run serves every client below its
      quota if and only if the quotas add up to no more than the number of sockets. */
  lemma QuotaGuarantee(n: nat, maxClients: nat, quotas: seq<int>, ports: map<int, Dataport>, recordSize: nat)
    requires |quotas| <= maxClients && n > 0 && recordSize > 0
    ensures var t := BootStack(n, maxClients, quotas, ports, recordSize);
            QuotasHonoured(t) <==> SumAllowances(t.clients) <= n
  {
    var t := BootStack(n, maxClients, quotas, ports, recordSize);
    var m := System(t, Idle);
    BootInv(n, maxClients, quotas, ports, recordSize);
    if SumAllowances(t.clients) <= n {
      forall run: seq<Step>, ci: int | ValidRun(m, run) && BelowQuota(Exec(m, run).t, ci) ensures Served(Exec(m, run).t, ci) {
        RunKeepsInv(m, run);
        RunSameClients(m, run);
        AllowancesSame(t.clients, Exec(m, run).t.clients);
        SomeoneBelowQuota(Exec(m, run).t);
        OwnersCount(Exec(m, run).t.sockets);
        FreeSlotServes(Exec(m, run).t, ci);
      }
    } else {
      var start := SLifecycle(Running);
      StepKeepsInv(m, start);
      var rest, ci := FillUp(Next(m, start));
      var run := [start] + rest;
      assert run[1..] == rest;
      assert ValidRun(m, run) && Exec(m, run) == Exec(Next(m, start), rest);
      var full := Exec(m, run).t;
      assert !Served(full, ci) by {
        assert Reserve(full, 1, full.clients[ci].clientId).1 == -1;
      }
    }
  }
}
