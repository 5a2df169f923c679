/** The socket table as a value: lookups, reserve, free, and the invariant of all reachable states. */
module SocketTable {
  import opened Types

  // ---------------------------------------------------------------- lookups

  /** Index of the first element that satisfies p, or -1. */
  function IndexOf<T>(s: seq<T>, p: T -> bool): (r: int)
    ensures -1 <= r < |s|
    ensures r >= 0 ==> p(s[r])
    ensures forall j :: 0 <= j < (if r < 0 then |s| else r) ==> !p(s[j])
  {
    if |s| == 0 then -1
    else
      var r := IndexOf(s[..|s| - 1], p);
      if r >= 0 then r else if p(s[|s| - 1]) then |s| - 1 else -1
  }

  lemma IndexOfUnique<T>(s: seq<T>, p: T -> bool, r: int)
    requires -1 <= r < |s|
    requires r >= 0 ==> p(s[r])
    requires forall j :: 0 <= j < (if r < 0 then |s| else r) ==> !p(s[j])
    ensures IndexOf(s, p) == r
  {
  }

  function FirstFree(ss: seq<Slot>): int
  {
    IndexOf(ss, (x: Slot) => x.status == Free)
  }

  function HandleOf(ss: seq<Slot>, impl: int): int
  {
    IndexOf(ss, (x: Slot) => x.impl == impl)
  }

  function ClientIndex(cs: seq<Client>, id: int): int
  {
    if id < 0 then -1 else IndexOf(cs, (c: Client) => c.clientId == id && c.inUse)
  }

  // ---------------------------------------------------------------- table operations

  /** Takes the first free slot for client `id`; -1 without a change when the client is unknown,
      has used up its quota, or no slot is free. The event mask and the buffer stay as they were. */
  function Reserve(t: Stack, impl: int, id: int): (r: (Stack, int))
    ensures -1 <= r.1 < |r.0.sockets| == |t.sockets|
  {
    var ci := ClientIndex(t.clients, id);
    if ci < 0 then (t, -1)
    else if t.clients[ci].currentSocketsInUse >= t.clients[ci].socketQuota then (t, -1)
    else
      var h := FirstFree(t.sockets);
      if h < 0 then (t, -1)
      else
        var x := t.sockets[h].(status := InUse, impl := impl, parentHandle := -1, currentError := Success,
                               clientId := id, pendingConnections := 0, socketType := NoType, connected := false);
        (t.(sockets := t.sockets[h := x], clients := CountUp(t.clients, ci, 1)), h)
  }

  function CountUp(cs: seq<Client>, ci: int, delta: int): seq<Client>
    requires 0 <= ci < |cs|
  {
    cs[ci := cs[ci].(currentSocketsInUse := cs[ci].currentSocketsInUse + delta)]
  }

  function Cleared(x: Slot): Slot
  {
    x.(status := Free, impl := 0, parentHandle := -1, clientId := -1, pendingConnections := 0,
       eventMask := {}, currentError := Success, socketType := NoType, connected := false)
  }

  /** Gives slot h back, if client `id` is known and owns it. */
  function Release(t: Stack, h: int, id: int): Stack
  {
    if !(0 <= h < |t.sockets|) then t
    else
      var ci := ClientIndex(t.clients, id);
      if ci < 0 then t
      else if t.sockets[h].clientId != id then t
      else t.(sockets := t.sockets[h := Cleared(t.sockets[h])], clients := CountUp(t.clients, ci, -1))
  }

  function SetParent(t: Stack, h: int, parent: int): (u: Stack)
    ensures |u.sockets| == |t.sockets|
  {
    if !(0 <= h < |t.sockets|) || !(0 <= parent < |t.sockets|) then t
    else t.(sockets := t.sockets[h := t.sockets[h].(parentHandle := parent, clientId := t.sockets[parent].clientId)])
  }

  // ---------------------------------------------------------------- counting

  /** Sum of f over the table. */
  function Gather(ss: seq<Slot>, f: Slot -> multiset<int>): multiset<int>
  {
    if |ss| == 0 then multiset{} else Gather(ss[..|ss| - 1], f) + f(ss[|ss| - 1])
  }

  function OwnerOf(x: Slot): multiset<int>
  {
    if x.status == InUse then multiset{x.clientId} else multiset{}
  }

  predicate IsLive(x: Slot)
  {
    x.status == InUse && EvFin !in x.eventMask
  }

  function LiveOf(x: Slot): multiset<int>
  {
    if IsLive(x) then multiset{x.impl} else multiset{}
  }

  /** The owner ids of the slots in use, each as often as it owns one. */
  function Owners(ss: seq<Slot>): multiset<int>
  {
    Gather(ss, OwnerOf)
  }

  /** The picoTCP sockets held by slots in use that have not seen FIN. */
  function Live(ss: seq<Slot>): multiset<int>
  {
    Gather(ss, LiveOf)
  }

  lemma {:induction false} GatherUpdate(ss: seq<Slot>, f: Slot -> multiset<int>, h: int, x: Slot)
    requires 0 <= h < |ss|
    ensures Gather(ss[h := x], f) + f(ss[h]) == Gather(ss, f) + f(x)
  {
    var last := |ss| - 1;
    if h == last {
      assert ss[h := x][..last] == ss[..last];
    } else {
      GatherUpdate(ss[..last], f, h, x);
      assert ss[h := x][..last] == ss[..last][h := x];
      calc {
        Gather(ss[h := x], f) + f(ss[h]);
        Gather(ss[..last][h := x], f) + f(ss[last]) + f(ss[h]);
        (Gather(ss[..last][h := x], f) + f(ss[..last][h])) + f(ss[last]);
        (Gather(ss[..last], f) + f(x)) + f(ss[last]);
        Gather(ss, f) + f(x);
      }
    }
  }

  lemma Cancel(a: multiset<int>, b: multiset<int>, c: multiset<int>)
    requires a + c == b + c
    ensures a == b
  {
    forall k ensures a[k] == b[k] {
      assert (a + c)[k] == a[k] + c[k] && (b + c)[k] == b[k] + c[k];
    }
  }

  lemma {:induction false} OwnersSound(ss: seq<Slot>, id: int)
    requires id in Owners(ss)
    ensures exists i :: 0 <= i < |ss| && ss[i].status == InUse && ss[i].clientId == id
  {
    var last := |ss| - 1;
    if id in OwnerOf(ss[last]) {
      assert ss[last].clientId == id;
    } else {
      OwnersSound(ss[..last], id);
      var i :| 0 <= i < last && ss[..last][i].status == InUse && ss[..last][i].clientId == id;
      assert ss[i].status == InUse && ss[i].clientId == id;
    }
  }

  lemma {:induction false} OwnersCount(ss: seq<Slot>)
    ensures |Owners(ss)| <= |ss|
    ensures |Owners(ss)| == |ss| <==> FirstFree(ss) < 0
  {
    if |ss| > 0 {
      var last := |ss| - 1;
      OwnersCount(ss[..last]);
      assert |OwnerOf(ss[last])| == if ss[last].status == InUse then 1 else 0;
      if FirstFree(ss[..last]) >= 0 {
        assert ss[FirstFree(ss[..last])].status == Free;
      }
      if FirstFree(ss) >= 0 && FirstFree(ss) < last {
        assert ss[..last][FirstFree(ss)].status == Free;
      }
    }
  }

  // ---------------------------------------------------------------- invariant

  predicate Distinct(cs: seq<Client>)
  {
    forall i, j :: 0 <= i < j < |cs| && cs[i].inUse && cs[j].inUse ==> cs[i].clientId != cs[j].clientId
  }

  // A negative quota lets a client have no sockets at all.
  function Allowance(c: Client): nat
  {
    if c.socketQuota < 0 then 0 else c.socketQuota
  }

  /** Free slots are in normal form; slots in use have a picoTCP socket, a registered owner, the
      owner's dataport, and the accept event exactly while connections are pending. */
  predicate SlotOk(t: Stack, x: Slot)
  {
    if x.status == Free then
      x.impl == 0 && x.eventMask == {} && x.pendingConnections == 0 && ClientIndex(t.clients, x.clientId) < 0
    else
      && x.impl != 0
      && ClientIndex(t.clients, x.clientId) >= 0
      && x.buf == PortOf(t, x.clientId)
      && x.pendingConnections >= 0
      && (EvConnAcpt in x.eventMask <==> x.pendingConnections > 0)
  }

  predicate ClientOk(t: Stack, c: Client)
  {
    c.inUse ==>
      && c.clientId > 0
      && c.currentSocketsInUse == Owners(t.sockets)[c.clientId]
      && c.currentSocketsInUse <= Allowance(c)
      && 0 <= c.head < |t.sockets|
      && 0 <= c.tail < |t.sockets|
  }

  predicate SlotsOk(t: Stack)
  {
    && (forall i :: 0 <= i < |t.sockets| ==> SlotOk(t, t.sockets[i]))
    && (forall i, j :: 0 <= i < j < |t.sockets| && t.sockets[i].status == InUse && t.sockets[j].status == InUse
          ==> t.sockets[i].impl != t.sockets[j].impl)
  }

  predicate ClientsOk(t: Stack)
  {
    && Distinct(t.clients)
    && (forall i :: 0 <= i < |t.clients| ==> ClientOk(t, t.clients[i]))
  }

  predicate LedgerOk(t: Stack)
  {
    t.ledger.obtained == t.ledger.closed + t.ledger.finished + Live(t.sockets)
  }

  predicate Inv(t: Stack)
  {
    && |t.sockets| > 0
    && t.recordSize > 0
    && SlotsOk(t)
    && ClientsOk(t)
    && LedgerOk(t)
    && !t.tsLocked && !t.staleUse && !t.nullDeref
  }

  /** The environment's promise about a picoTCP socket that open or accept returns. */
  predicate Fresh(t: Stack, impl: int)
  {
    forall i :: 0 <= i < |t.sockets| && t.sockets[i].status == InUse ==> t.sockets[i].impl != impl
  }

  // ---------------------------------------------------------------- what keeps the invariant

  /** Two client tables that agree on who is registered. */
  predicate SameClients(cs: seq<Client>, ds: seq<Client>)
  {
    && |cs| == |ds|
    && forall i :: 0 <= i < |cs| ==>
      cs[i].clientId == ds[i].clientId && cs[i].inUse == ds[i].inUse && cs[i].socketQuota == ds[i].socketQuota
  }

  lemma ClientIndexSame(cs: seq<Client>, ds: seq<Client>, id: int)
    requires SameClients(cs, ds)
    ensures ClientIndex(cs, id) == ClientIndex(ds, id)
  {
  }

  lemma ClientIndexOf(cs: seq<Client>, i: int)
    requires Distinct(cs) && 0 <= i < |cs| && cs[i].inUse && cs[i].clientId > 0
    ensures ClientIndex(cs, cs[i].clientId) == i
  {
  }

  /** Changing clients' flags, cursors or counters keeps the slot invariant. */
  lemma SlotsOkSameClients(t: Stack, u: Stack)
    requires SlotsOk(t) && u.sockets == t.sockets && u.ports == t.ports && SameClients(t.clients, u.clients)
    ensures SlotsOk(u)
  {
    forall i | 0 <= i < |u.sockets| ensures SlotOk(u, u.sockets[i]) {
      assert SlotOk(t, t.sockets[i]);
      ClientIndexSame(t.clients, u.clients, t.sockets[i].clientId);
    }
  }

  /** A step that leaves the sockets alone and changes only notify flags and cursors. */
  lemma TouchClients(t: Stack, u: Stack)
    requires Inv(t) && SameClients(t.clients, u.clients) && u == t.(clients := u.clients)
    requires forall i :: 0 <= i < |t.clients| ==>
      && u.clients[i].currentSocketsInUse == t.clients[i].currentSocketsInUse
      && (t.clients[i].inUse ==> 0 <= u.clients[i].head < |t.sockets| && 0 <= u.clients[i].tail < |t.sockets|)
    ensures Inv(u)
  {
    SlotsOkSameClients(t, u);
    forall i | 0 <= i < |u.clients| ensures ClientOk(u, u.clients[i]) {
      assert ClientOk(t, t.clients[i]);
    }
  }

  lemma GatherSame(ss: seq<Slot>, f: Slot -> multiset<int>, h: int, x: Slot)
    requires 0 <= h < |ss| && f(x) == f(ss[h])
    ensures Gather(ss[h := x], f) == Gather(ss, f)
  {
    GatherUpdate(ss, f, h, x);
    Cancel(Gather(ss[h := x], f), Gather(ss, f), f(x));
  }

  lemma SlotsOkUpdate(t: Stack, u: Stack, h: int, x: Slot)
    requires SlotsOk(t) && 0 <= h < |t.sockets| && SlotOk(t, x)
    requires u.sockets == t.sockets[h := x] && u.ports == t.ports && SameClients(t.clients, u.clients)
    requires x.status == InUse ==>
               forall i :: 0 <= i < |t.sockets| && i != h && t.sockets[i].status == InUse ==> t.sockets[i].impl != x.impl
    ensures SlotsOk(u)
  {
    var v := t.(sockets := u.sockets);
    forall i | 0 <= i < |v.sockets| ensures SlotOk(v, v.sockets[i]) {
      assert SlotOk(t, if i == h then x else t.sockets[i]);
    }
    SlotsOkSameClients(v, u);
  }

  /** Client ci's counter moves with the number of slots it owns; nobody else's number changes. */
  lemma ClientsOkUpdate(t: Stack, u: Stack, ci: int, delta: int)
    requires ClientsOk(t) && 0 <= ci < |t.clients| && t.clients[ci].inUse && |u.sockets| == |t.sockets|
    requires u.clients == CountUp(t.clients, ci, delta)
    requires Owners(u.sockets)[t.clients[ci].clientId] == Owners(t.sockets)[t.clients[ci].clientId] + delta
    requires forall id :: id != t.clients[ci].clientId ==> Owners(u.sockets)[id] == Owners(t.sockets)[id]
    requires u.clients[ci].currentSocketsInUse <= Allowance(t.clients[ci])
    ensures ClientsOk(u)
  {
    forall i | 0 <= i < |u.clients| ensures ClientOk(u, u.clients[i]) {
      assert ClientOk(t, t.clients[i]);
    }
  }

  /** Changing one slot without changing who uses it or whether it is live. */
  lemma TouchSlot(t: Stack, h: int, x: Slot)
    requires Inv(t) && 0 <= h < |t.sockets|
    requires x.status == t.sockets[h].status && x.clientId == t.sockets[h].clientId && x.impl == t.sockets[h].impl
    requires IsLive(x) == IsLive(t.sockets[h])
    requires SlotOk(t, x)
    ensures Inv(t.(sockets := t.sockets[h := x]))
  {
    var u := t.(sockets := t.sockets[h := x]);
    SlotsOkUpdate(t, u, h, x);
    GatherSame(t.sockets, OwnerOf, h, x);
    GatherSame(t.sockets, LiveOf, h, x);
    forall i | 0 <= i < |u.clients| ensures ClientOk(u, u.clients[i]) {
      assert ClientOk(t, t.clients[i]);
    }
  }

  /** The state after a free slot h became x, owned by a client below its quota. */
  function Installed(t: Stack, h: int, x: Slot): Stack
    requires 0 <= h < |t.sockets| && ClientIndex(t.clients, x.clientId) >= 0
  {
    t.(sockets := t.sockets[h := x],
       clients := CountUp(t.clients, ClientIndex(t.clients, x.clientId), 1),
       ledger := t.ledger.(obtained := t.ledger.obtained + multiset{x.impl}))
  }

  lemma InstallKeepsInv(t: Stack, h: int, x: Slot)
    requires Inv(t) && 0 <= h < |t.sockets| && t.sockets[h].status == Free
    requires IsLive(x) && SlotOk(t, x) && Fresh(t, x.impl)
    requires t.clients[ClientIndex(t.clients, x.clientId)].currentSocketsInUse
          < t.clients[ClientIndex(t.clients, x.clientId)].socketQuota
    ensures Inv(Installed(t, h, x))
  {
    var u := Installed(t, h, x);
    SlotsOkUpdate(t, u, h, x);
    GatherUpdate(t.sockets, OwnerOf, h, x);
    GatherUpdate(t.sockets, LiveOf, h, x);
    assert Owners(u.sockets) == Owners(t.sockets) + multiset{x.clientId};
    assert Live(u.sockets) == Live(t.sockets) + multiset{x.impl};
    ClientsOkUpdate(t, u, ClientIndex(t.clients, x.clientId), 1);
  }

  /** Freeing a slot in use; a live slot must have been handed back to picoTCP. */
  lemma ReleaseKeepsInv(t: Stack, h: int)
    requires Inv(t) && 0 <= h < |t.sockets| && t.sockets[h].status == InUse
    ensures Inv(Release(t.(ledger := t.ledger.(closed := t.ledger.closed + LiveOf(t.sockets[h]))), h, t.sockets[h].clientId))
  {
    var x := t.sockets[h];
    var t' := t.(ledger := t.ledger.(closed := t.ledger.closed + LiveOf(x)));
    var u := Release(t', h, x.clientId);
    assert SlotOk(t, x);
    var ci := ClientIndex(t.clients, x.clientId);
    assert ClientOk(t, t.clients[ci]);
    SlotsOkUpdate(t, u, h, Cleared(x));
    GatherUpdate(t.sockets, OwnerOf, h, Cleared(x));
    GatherUpdate(t.sockets, LiveOf, h, Cleared(x));
    OwnersDrop(t, u, x.clientId);
    ClientsOkUpdate(t, u, ci, -1);
    assert u.ledger.obtained == t.ledger.closed + t.ledger.finished + (Live(u.sockets) + LiveOf(x));
  }

  lemma OwnersDrop(t: Stack, u: Stack, id: int)
    requires Owners(u.sockets) + multiset{id} == Owners(t.sockets) + multiset{}
    ensures Owners(u.sockets)[id] + 1 == Owners(t.sockets)[id]
    ensures forall k :: k != id ==> Owners(u.sockets)[k] == Owners(t.sockets)[k]
  {
    assert forall k :: (Owners(u.sockets) + multiset{id})[k] == Owners(u.sockets)[k] + multiset{id}[k];
  }
}
