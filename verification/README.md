# The TRENTOS network stack over picoTCP: model and proofs

The component gives several clients sockets of one picoTCP instance. It keeps a table of socket
slots and a table of clients with quotas, collects the events picoTCP reports for each slot, hands
them out round robin, and feeds frames from the network card to picoTCP. Two threads share the
state: the RPC thread, which serves one client call at a time, and the control thread, which runs
the stack's tick. Verify the project with Dafny 4.11: `dafny verify dfyconfig.toml`.

## How it is modelled

| file | content |
|---|---|
| `Types.dfy` | slots, clients, event masks (as sets), error codes, the state as a value |
| `SocketTable.dfy` | lookups, reserve, free, set parent, and the invariant `Inv` of the tables |
| `Handlers.dfy` | every RPC handler, the event callback and the notify pass as one step each; each keeps `Inv` |
| `Machine.dfy` | all steps together; a scan of pending events is many steps, a read that empties the queue two, interleaved with the control thread |
| `Counting.dfy` | reachable states; counters, the ledger of picoTCP sockets, the quota guarantee |
| `PicoSockets.dfy` | in the ledger's terms: which sockets are alive, who is given to picoTCP, what is handed back again |
| `HandleLife.dfy` | what every call does and returns, case by case, refusals included; buffer confinement |
| `Backlog.dfy` | connection requests and accepts of a listening socket, over runs |
| `EventDelivery.dfy`, `Fairness.dfy`, `Delivery.dfy` | no event is lost, made up or told twice, FIN is final, round-robin fairness, and delivery from both |
| `ScanRuns.dfy` | a whole call of `getPendingEvents` in any interleaving: what it returns, how long it takes |
| `ScanSpec.dfy`, `Isolation.dfy` | what an undisturbed scan returns; independence of clients |
| `Limits.dfy` | reachable states in which the layer does less than one might expect |
| `NetworkStack.dfy` | the program: a class with the two arrays, every method tied to its function |
| `NicReceive.dfy`, `NicPoller.dfy` | the receive path of the card as a state machine, and the poll function as a class |

Functions on values say what a step does; lemmas prove what holds of all runs of these steps; the
methods of `NetworkStack.Instance` and `NicPoller.Poller` update arrays and fields in place and are
proved to do what the functions say. The class is the program undisturbed; what callbacks and ticks
may do in the middle of a scan is the business of the machine. In the receive path the driver works
beside the poll in the class as well.

Every function that models a call, a report or a tick has a lemma that says what it does field by field
and error by error without naming the functions that compute it (the `...Outcome`, `...Effect` and
`...Codes` lemmas). A wrong case in such a function, and in the method proved equal to it, fails there.

Three monitors turn safety questions into invariants: `tsLocked` (the thread-safety mutex is still
held, which accept's early return would leave so), `staleUse` (a handler gave picoTCP a socket that
is not live), `nullDeref` (the callback used a client pointer that is NULL). The ledger records the
picoTCP sockets obtained, handed back and finished; it counts addresses with multiplicity, because
picoTCP may use an address again.

Numbers of slots, clients and ring slots, quotas, dataport sizes and the size of an event record are
arbitrary. `Inv` is stated for tables, `SysInv` for the machine; `Counting.ReachableInv` carries both
over to every reachable state, so a lemma that asks for `SysInv` holds in all of them.

### Granularity and environment

- One callback, one notify pass, and a handler other than those named here are atomic steps. A read or
  recvfrom that empties the queue clears READ after it has released the mutex, in a step of its own.
  A call of `getPendingEvents` is split: the test of one slot, the locked snapshot of one slot, and the end
  of the call are steps of their own, and callbacks and ticks may come between any two of them.
- The control thread's round under the mutex is a run of these steps (`Machine.TickIsRun`); the class
  has it as one method.
- Only one RPC is served at a time, so another RPC starts when a scan or a read is over.
- picoTCP returns no socket that a slot in use still holds (`SocketTable.Fresh`); it reports events of
  real sockets only. That no dead socket is passed on, and that FIN is booked once, rests on the
  first of these, also for slots that have seen FIN; but after FIN picoTCP has freed the socket
  (src/network_stack_pico.c:326-332), and nothing in the code keeps it from using the address again
  before the slot is closed. What happens then is said below.
- Where a property needs it, a read or write returns at most the requested length.
- Results of picoTCP and of the card driver, the translated `pico_err`, whether pointer and string
  arguments passed their checks, and whether an address parses are parameters.
- The table has at least one slot and an event record at least one byte. All ring slots are empty
  at the start, and the driver fills empty slots only, in circular order.
- Masks are sets, `pendingConnections` and lengths are unbounded integers.

### Where the code does less than one might expect

- The scan tests for room only after its first slot. If a dataport is smaller than one record, a
  pending slot at the cursor is still written; `ScanSpec.CallFitsIff` says exactly when the records
  fit, and `Limits.ShortDataportIsOverrun` reaches such a state from every configuration with a
  short first dataport.
- The callback hands any address in CLOSE_WAIT that no slot holds to `pico_socket_close`, also one that
  a close or the callback itself handed back before: `PicoSockets.ClosesAgainIff` says exactly when.
  `Limits.ClosedConnectionIsClosedAgain` and `Limits.PendingConnectionIsClosedAgain` reach both cases.
- If picoTCP uses an address again after FIN while its slot is not closed, the new handle hears of its
  events, FIN included, exactly if no slot before the first free one stores the address
  (`HandleLife.ReusedAddress`). Else the old slot gets them, and the new handle goes on to give picoTCP
  a finished socket (`Limits.SecondFinIsMissed`).
- A READ that is raised after a read or recvfrom released the mutex and before it returns is lost exactly
  if the call takes the queue for empty: on an error, on nothing read, and on a read that returns
  less than asked for (`EventDelivery.ReadIsLostIff`, `Limits.ReadIsLost`).
- Nothing checks that the quotas fit the table. `Counting.QuotaGuarantee` shows that quotas are
  honoured in every run if and only if they add up to no more than the number of sockets.
- A close on which picoTCP reports an error frees the handle all the same (`HandleLife.CloseOutcome`),
  and an accept that finds no room still takes the connection off the listener's count
  (`HandleLife.AcceptOutcome`).
- The statement at src/network_stack_core.c:518-519 compares a counter with itself and does nothing.

## Model

| member | source | states |
|---|---|---|
| NetworkStack.Instance.Initialize | src/NetworkStack_PicoTcp.c:172-319 | fails with OUT_OF_BOUNDS exactly when too many clients, too few configurations or a badge outside the range are found; otherwise builds clean tables in which client i has id 101 + i, its own quota and a notify function, and which satisfy the invariant |
| NetworkStack.Instance.GetHandle | src/network_stack_core.c:434-446 | the first slot holding a picoTCP socket, or -1 |
| NetworkStack.Instance.GetClientIndex | src/network_stack_core.c:450-472 | the first registered client with an id, or -1 |
| NetworkStack.Instance.ReserveHandle | src/network_stack_core.c:498-560 | first fit in place: the new tables and the handle are those of `Reserve` |
| NetworkStack.Instance.FreeHandle | src/network_stack_core.c:564-610 | the new tables are those of `Release`, in all refused cases too |
| NetworkStack.Instance.SetParentHandle | src/network_stack_core.c:614-633 | the new table is that of `SetParent` |
| NetworkStack.Instance.CheckCall | include/network_stack_core.h:22-91 | the front end's checks in their order, with the error each gives |
| NetworkStack.Instance.Enter | src/network_stack_pico.c:777-791 | all checks before picoTCP is called, and the clamped length |
| NetworkStack.Instance.PicoCreate | src/network_stack_pico.c:387-470 | open, reserve, and hand back when there is no room; the mutex is released on every path |
| NetworkStack.Instance.SocketCreate | src/network_stack_core.c:47-64 | create in place keeps the invariant, releases the mutex, and does what `Create` says |
| NetworkStack.Instance.SocketClose | src/network_stack_pico.c:475-510 | close in place keeps the invariant, releases the mutex, and does what `Close` says, also when picoTCP reports an error or FIN came first |
| NetworkStack.Instance.SocketPlainIo | src/network_stack_pico.c:513-647 | connect, bind, listen, and likewise write and sendto: an admitted call returns success exactly if picoTCP reports no error, and stores the error; a refused one fails and changes nothing; invariant kept, mutex released |
| NetworkStack.Instance.CountAccept | src/network_stack_pico.c:673-683 | one pending connection less if there was one, and the accept event goes exactly when none is left |
| NetworkStack.Instance.KeepConnection | src/network_stack_pico.c:700-768 | reserve, set parent, inherit the buffer; the early return under the mutex cannot be reached, and the mutex is released |
| NetworkStack.Instance.PicoAccept | src/network_stack_pico.c:670-768 | the part of accept under the mutex does what `Accept` says |
| NetworkStack.Instance.SocketAccept | src/network_stack_pico.c:651-769 | the listener has one pending connection less and the accept event exactly while some are left; a refused call fails and changes nothing; invariant kept, mutex released on every path |
| NetworkStack.Instance.PicoRead | src/network_stack_pico.c:840-900 | stores the error and drops READ exactly on an error, an empty queue or a short read |
| NetworkStack.Instance.PicoRecvFrom | src/network_stack_pico.c:997-1059 | stores the error and drops READ exactly on an error or an empty result without a source |
| NetworkStack.Instance.SocketRead | src/network_stack_pico.c:819-901 | read in place keeps the invariant and does what `ReadRpc` says |
| NetworkStack.Instance.SocketRecvFrom | src/network_stack_pico.c:969-1060 | recvfrom in place keeps the invariant and does what `RecvFromRpc` says |
| NetworkStack.Instance.MaskWith | src/network_stack_pico.c:281-355 | each of the seven events gets into the mask exactly for its own picoTCP event and condition |
| NetworkStack.Instance.SlotWith | src/network_stack_pico.c:281-355 | mask, backlog, connected flag and error after the callback's branches |
| NetworkStack.Instance.RaiseEvents | src/network_stack_pico.c:281-355 | the slot is updated in place, and the ledger moves a socket that FIN ends to the finished ones |
| NetworkStack.Instance.SocketEvent | src/network_stack_pico.c:229-361 | the whole callback, under the mutex: the slot in use that holds the socket hears of each event for its own reason, its owner is flagged, no other slot moves; the client it looks up at the end always exists |
| NetworkStack.Instance.FlagIfPending | src/network_stack_core.c:661-672 | the inner loop flags a client exactly if one of its slots in use has an event |
| NetworkStack.Instance.NotifyClient | src/network_stack_core.c:658-690 | signals a client exactly if it is due and has a notify function, and takes its flag back |
| NetworkStack.Instance.NotifyClients | src/network_stack_core.c:651-692 | under the mutex: signals every due client exactly once, nobody else, and leaves all flags of registered clients down |
| NetworkStack.Instance.StackTick | src/network_stack_core.c:753 | all callbacks of one tick of picoTCP, in order, under the mutex |
| NetworkStack.Instance.Tick | src/network_stack_core.c:751-755 | locks, lets picoTCP report, signals once each exactly the registered clients with a notify function that then are flagged or have an event on a slot in use, leaves all their flags down, and unlocks; also in the middle of a scan or read |
| Machine.TickIsRun | src/network_stack_core.c:751-755 | that round is a run of the machine, also in the middle of a scan |
| NetworkStack.Instance.VisitHead | src/network_stack_core.c:348-386 | one round: an own slot with an event is recorded with its whole mask, number, parent and error, and loses its established, writable and error events; then head moves on |
| NetworkStack.Instance.CollectEvents | src/network_stack_core.c:345-386 | the do-while loop ends in the state and with the records of the machine's undisturbed scan |
| NetworkStack.Instance.GetPendingEvents | src/network_stack_core.c:308-402 | the k-th record has the whole mask, number, parent and error of the k-th reported slot; reported slots lose their established, writable and error events, no other slot moves; in the error cases nothing does |
| Handlers.CreateKeepsInv | src/network_stack_pico.c:365-471 | create keeps the invariant, whatever picoTCP returns |
| Handlers.CloseKeepsInv | src/network_stack_pico.c:475-510 | close keeps the invariant, ledger included |
| Handlers.AcceptKeepsInv | src/network_stack_pico.c:651-769 | accept keeps the invariant; in particular it never returns with the mutex held |
| Handlers.PlainIoKeepsInv | src/network_stack_pico.c:513-647 | connect, bind, listen, write and sendto keep it and pass only live sockets on |
| Handlers.ReceiveKeepsInv | src/network_stack_pico.c:819-1060 | read and recvfrom keep it and pass only live sockets on |
| Handlers.CallbackKeepsInv | src/network_stack_pico.c:229-361 | the callback keeps it; its client pointer is never NULL |
| Handlers.TickKeepsInv | src/network_stack_core.c:651-692 | the notify pass keeps it |
| Handlers.AcceptFrame | src/network_stack_pico.c:651-769 | accept moves only slots of its caller, free slots it takes, and its caller's counter |
| Machine.StepKeepsInv | src/network_stack_core.c:733-761 | every step of either thread keeps the invariant, in the middle of a scan too |
| Machine.RunKeepsInv | src/network_stack_core.c:733-761 | so does every run |
| Machine.RpcFrame | src/network_stack_core.c:47-297 | an RPC moves nothing but what its caller owns or takes from the free slots |
| Machine.StepSameClients | src/network_stack_core.c:31-32 | no step changes who is registered, the quotas, the dataports or the number of slots |
| Counting.BootInv | src/NetworkStack_PicoTcp.c:201-247 | the tables built at start satisfy the invariant |
| Counting.BootTables | src/NetworkStack_PicoTcp.c:201-247 | slots zeroed, client i with id 101 + i, its own quota and a notify function, the rest unregistered |
| Counting.ReachableInv | src/network_stack_core.c:733-761 | every reachable state satisfies it: mutex free, no socket of a slot with FIN passed on, no NULL client used |
| Counting.CountersAreExact | src/network_stack_core.c:498-610 | each counter is the number of slots its client owns, within the quota; counters add up to the slots in use; every slot in use has exactly one registered owner |
| Counting.LedgerBalances | src/network_stack_pico.c:387-510 | every socket from open or accept was handed back, finished by FIN, or is held by exactly one live slot |
| PicoSockets.PassesOnlyAlive | src/network_stack_pico.c:521-559 | every admitted call, close included, gives picoTCP a socket that is alive by the ledger: obtained and neither handed back nor finished |
| PicoSockets.FinFinishes | src/network_stack_pico.c:326-354 | FIN is booked exactly if the socket was alive; then nothing of this address is alive |
| PicoSockets.FinishedIsNotPassed | src/network_stack_pico.c:482-505 | after FIN, in any run, no handler gives this address to picoTCP until picoTCP hands it out again |
| PicoSockets.ClosesAgainIff | src/network_stack_pico.c:238-247 | exactly when an address handed back before, by a close or by the callback, is given to pico_socket_close again |
| Limits.ClosedConnectionIsClosedAgain | src/network_stack_pico.c:233-247 | a reachable instance: peer closes, client closes, CLOSE_WAIT once more |
| Limits.PendingConnectionIsClosedAgain | src/network_stack_pico.c:238-247 | another: a connection never accepted, CLOSE_WAIT twice |
| Counting.SomeoneBelowQuota | src/network_stack_core.c:521-527 | fewer slots in use than quotas add up to, exactly if some client is below its quota |
| Counting.FillUp | src/network_stack_core.c:521-546 | quotas above the table size: a run that fills the table and leaves a client short |
| Counting.QuotaGuarantee | src/network_stack_core.c:516-559 | every client below its quota gets the lowest free slot in every run, if and only if the quotas add up to at most the number of sockets |
| HandleLife.LookupIsInverse | src/network_stack_core.c:434-446 | a slot in use is found by its socket, and a socket no slot in use holds is not found |
| HandleLife.AdmittedIff | src/network_stack_pico.c:777-791 | in every reachable state a handler gets as far as picoTCP exactly for an own live socket of the right kind with good arguments; the null and size tests never decide |
| HandleLife.FrontEndCodes | src/network_stack_core.c:68-297 | which failing check of the front end gives which error, call by call |
| HandleLife.EntryCodes | src/network_stack_pico.c:777-791 | the same for the part before picoTCP, and the length is the smaller of request and dataport |
| HandleLife.ReusedAddress | src/network_stack_pico.c:326-332 | for an address used again after FIN: the new handle is found, hears of its events and is booked as finished exactly if no slot before the first free one stores the address |
| HandleLife.ReusedByAccept | src/network_stack_pico.c:700-768 | the same for a connection that accept keeps |
| Limits.SecondFinIsMissed | src/network_stack_pico.c:326-332 | a reachable instance where it is not: two sockets obtained and finished, one booked, and the next call on the finished one is admitted |
| HandleLife.ReserveFailsIff | src/network_stack_core.c:503-527 | reserve fails exactly for an unknown client, one at its quota, or a full table |
| HandleLife.CreateOutcome | src/network_stack_pico.c:410-470 | a clean new handle in the lowest free slot, or no change and the socket handed back |
| HandleLife.CreateRefused | src/network_stack_pico.c:387-419 | the error of the first failing check, and no change |
| HandleLife.AcceptOutcome | src/network_stack_pico.c:672-768 | in all three outcomes the listener has one pending connection less if it had one, and the accept event exactly while some are left; a kept connection inherits owner and buffer, knows its parent and starts without events |
| Backlog.BacklogBalances | src/network_stack_pico.c:289-292 | over any run: pending at the end is pending at first plus requests less accepts that found one, and the accept event is there exactly if that is positive |
| HandleLife.CloseOutcome | src/network_stack_pico.c:475-510 | an own handle is always freed; its socket is no longer found and goes back to picoTCP unless FIN came |
| HandleLife.CloseRefused | src/network_stack_core.c:68-84 | a refused close returns the failing check and changes nothing |
| HandleLife.CloseTwice | src/network_stack_core.c:588-592 | the second close is refused and changes nothing |
| HandleLife.CreateCloseRoundTrip | src/network_stack_core.c:533-606 | create and close cancel out in counters, other slots, live sockets and next handle |
| HandleLife.ReceiveIsConfined | src/network_stack_core.c:227-234 | the size check after the clamp never fails; what was read fits the request and the caller's own dataport |
| HandleLife.SendIsConfined | src/network_stack_core.c:197-204 | the same for write and sendto |
| HandleLife.PlainIoOutcome | src/network_stack_pico.c:513-647 | connect, bind, listen, write and sendto in full: reply, stored error, nothing else; a refused call changes nothing |
| HandleLife.ReadOutcome | src/network_stack_pico.c:840-900 | read in full: reply, stored error, and READ gone exactly on an error, on nothing, or on less than asked for |
| HandleLife.RecvFromOutcome | src/network_stack_pico.c:997-1059 | recvfrom in full: READ gone exactly on an error or when neither data nor a source came |
| HandleLife.SlotNormalForm | src/network_stack_core.c:596-606 | free slots carry nothing of their last user; the accept event is there exactly while connections are pending |
| EventDelivery.StepKeepsEvents | src/network_stack_core.c:359-370 | one step removes an event only by report, the clearing of READ by a draining read, last accept or close |
| EventDelivery.NoEventIsLost | src/network_stack_core.c:352-373 | over any interleaving an event is still in the mask unless a step accounted for it; the clearing of READ counts as such, and `ReadIsLostIff` says when it takes a READ that came too late |
| EventDelivery.CallbackRaises | src/network_stack_pico.c:233-360 | an event report changes only the slot that holds the socket, and flags that slot's owner |
| EventDelivery.ReportEffect | src/network_stack_pico.c:281-360 | a report in full: seven events each for its own reason, backlog, connected, error, owner flagged, all else as before |
| EventDelivery.UnheldReportEffect | src/network_stack_pico.c:233-271 | a report for a socket no slot in use holds changes no table; in CLOSE_WAIT the socket is closed |
| EventDelivery.TickEffect | src/network_stack_core.c:658-690 | who is due by flag, status, mask and owner; only flags of registered clients go down |
| EventDelivery.NewEventWasRaised | src/network_stack_pico.c:281-355 | no event is made up: what is new in a mask picoTCP just reported for the socket in that slot |
| EventDelivery.NoEventIsToldTwice | src/network_stack_core.c:359-370 | over any run the reports of a transient event, with one more if it is still in the mask, are at most the times it was raised, with one more if it was in the mask at first |
| EventDelivery.ToldExactlyOnce | src/network_stack_core.c:359-370 | raised once and not closed: still in the mask and in no report, or gone and in exactly one |
| EventDelivery.NoWakeUpIsLost | src/network_stack_core.c:660-672 | until the event is accounted for, every later tick signals the owner, whatever became of its flag |
| EventDelivery.FinIsFinal | src/network_stack_pico.c:326-354 | FIN stays until the owner closes, and no handler passes on the socket of a slot with FIN |
| EventDelivery.ReadIsLostIff | src/network_stack_pico.c:841-888 | whatever the control thread does after the mutex is released: when a read or recvfrom returns, all events from before and since are there, READ exactly if besides the call did not drain the queue |
| Limits.ReadIsLost | src/network_stack_pico.c:841-888 | a reachable instance in which a READ raised in that window is lost |
| Fairness.PendingSlotIsReported | src/network_stack_core.c:345-397 | a slot that stays pending is reported within ceil(N / room) calls of its owner, in any interleaving |
| Fairness.PassedSlotIsReported | src/network_stack_core.c:348-386 | a call misses no slot that stays pending while the scan passes it |
| Fairness.WindowsTile | src/network_stack_core.c:377-397 | the next call starts where the last one stopped, whatever comes between |
| Delivery.RaisedEventIsDelivered | src/network_stack_core.c:345-397 | within ceil(N / room) calls an event of any kind is in a record of its slot or was accounted for; established, writable, error, close and FIN events are in a record unless the socket was closed |
| ScanRuns.ReportIsSound | src/network_stack_core.c:352-386 | every record of a reachable report: own slot in use, passed, in rotation order after all earlier ones, non-empty mask, lasting events still in the slot |
| ScanRuns.BeginEffect | src/network_stack_core.c:312-343 | the checks and their errors; room for the most records that fit into request and dataport |
| ScanRuns.TestEffect | src/network_stack_core.c:350-353 | a slot with nothing to report is passed, one with something is recorded next |
| ScanRuns.SnapEffect | src/network_stack_core.c:355-387 | the new record has the whole mask, number, parent and error of the slot; of the slot just the established, writable and error events go |
| ScanRuns.EndEffect | src/network_stack_core.c:391-397 | tail catches up with head, and the flag goes up exactly if slots were left unvisited |
| ScanRuns.ScanStays | src/network_stack_core.c:359-373 | over any run a scan keeps its client, limit and start, and a record once written is in the report the call returns |
| ScanRuns.CallInAnyInterleaving | src/network_stack_core.c:345-401 | the report a call returns, whatever comes between its steps: own records only, rotation order from the cursor at its begin, as many as fit; the next call goes on behind it |
| ScanRuns.ScanGoesOn | src/network_stack_core.c:348-386 | a scan always has exactly one next step, which brings its end nearer |
| ScanRuns.ScanTerminates | src/network_stack_core.c:345-386 | in any run one scan takes at most two steps a slot and one to end |
| ScanSpec.ToEndIsRun | src/network_stack_core.c:348-386 | the undisturbed loop is a run of the machine |
| ScanSpec.CallOutcome | src/network_stack_core.c:345-401 | records, acknowledged slots, cursor and flag after an undisturbed call, and nothing else changed |
| ScanSpec.CallTakesRotation | src/network_stack_core.c:345-386 | the reported slots are the first ones that fit of the caller's pending slots in rotation order |
| ScanSpec.CallFitsIff | src/network_stack_core.c:336-386 | the records fit the request and the dataport exactly if one record fits the dataport or the slot at the cursor has nothing to report |
| Limits.ShortDataportIsOverrun | src/network_stack_core.c:336-375 | any configuration whose first dataport is shorter than a record has a reachable state in which a call writes beyond it |
| ScanSpec.PendingInMembers | src/network_stack_core.c:352-375 | reported are exactly the pending slots of the window, each once |
| ScanSpec.ReportDependsOnOwnView | src/network_stack_core.c:308-402 | from tables that agree on the caller's slots and cursor it gets the same records and tables that agree again; flags, counters and all else may differ |
| Isolation.StepUntouched | src/network_stack_core.c:68-402 | calls and events of others leave a client's slots, counter, cursor and flag alone |
| Isolation.OthersDoNotDisturb | src/network_stack_core.c:68-402 | so do whole runs of others |
| Isolation.OthersDoNotChangeTheReport | src/network_stack_core.c:308-402 | after any run of others, ticks included, a client gets the records it would have got before |
| Isolation.QuietCallIsUndisturbed | src/network_stack_core.c:345-386 | a call among ticks and events of others returns the records, and does to the caller's slots and cursor, what the undisturbed call does |
| Isolation.PlainIoDependsOnOwnView | src/network_stack_pico.c:513-647 | plain calls on an own handle reply by the caller's slots, dataport and life-cycle state only, and move no client record |
| Isolation.ReceiveDependsOnOwnView | src/network_stack_pico.c:819-1060 | so do read and recvfrom |
| Isolation.CloseDependsOnOwnView | src/network_stack_pico.c:475-510 | so does close; the counters go down by the same number, whatever they are |
| NicReceive.NStepKeepsInv | src/network_stack_pico_nic.c:91-184 | every step of poll or driver keeps ring, mode and score consistent |
| NicReceive.RingIsFifo | src/network_stack_pico_nic.c:160-180 | frames delivered from the ring followed by those in it are the frames produced, in any interleaving and across polls |
| NicReceive.RingPollDrains | src/network_stack_pico_nic.c:165-180 | a poll of the ring that returns with score left has delivered all produced frames |
| NicReceive.PollAccounts | src/network_stack_pico_nic.c:105-183 | score left is score given less frames delivered; the interfaces never mix; the main loop was woken exactly if the score ran out with frames remaining |
| NicReceive.DetectionIsOneWay | src/network_stack_pico_nic.c:98-133 | at most one fall-back to the legacy interface, only after NOT_IMPLEMENTED, never back, never after a delivered frame |
| NicReceive.FallsBackIff | src/network_stack_pico_nic.c:115-132 | the interface changes exactly on NOT_IMPLEMENTED before detection is done; that answer halts exactly after |
| NicReceive.AnswerEffect | src/network_stack_pico_nic.c:134-151 | not ready and no data end the poll and leave all else alone; a frame is delivered as it is |
| NicReceive.PollBegins | src/network_stack_pico_nic.c:105-164 | a poll with score reads by RPC or looks at the ring, by the mode |
| NicReceive.RingEffect | src/network_stack_pico_nic.c:172-178 | a frame at pos is delivered exactly while there is score, then released, then pos moves on cyclically |
| NicReceive.RpcDeliversAnswers | src/network_stack_pico_nic.c:110-151 | over runs, picoTCP gets by RPC just the frames that dev_read returned, in order |
| NicReceive.PollEnds | src/network_stack_pico_nic.c:110-183 | total termination: in any run a poll is over or has a next step, and it is over once its score is used up in steps |
| NicPoller.Poller.PollRpc | src/network_stack_pico_nic.c:105-159 | delivers just the frames before the answer that ends it; falls back, halts, notifies or changes nothing exactly by that answer, the score and what remains; a run of the machine |
| NicPoller.Poller.TakeAnswer | src/network_stack_pico_nic.c:112-151 | a frame goes to picoTCP and the poll goes on; NOT_IMPLEMENTED falls back or halts; not ready and no data end the poll and change nothing |
| NicPoller.Poller.TakeFrame | src/network_stack_pico_nic.c:172-178 | delivering and releasing one ring slot are two steps of the machine |
| NicPoller.Poller.PollRing | src/network_stack_pico_nic.c:160-181 | the ring loop, with the driver filling the ring between any two rounds, is a run of the machine |
| NicPoller.Poller.PollData | src/network_stack_pico_nic.c:91-184 | one poll is a run that starts with the poll; the mode changes exactly if the first answer is NOT_IMPLEMENTED and nothing was detected before; it returns the given score less the frames delivered |

## Left out

- picoTCP itself: TCP states, segments, socket options. Its calls return arbitrary results within the contract above.
- Error-code and name tables (`pico_err2os`, `pico_err2str`, socket domain and type translation): error codes are taken as already translated.
- src/network_stack_config.c and the mutexes other than the thread-safety mutex: wrappers around function pointers; the other mutexes are step boundaries.
- Wake-ups of the main loop by socket calls: only the receive path's are modelled.
- Races inside one handler: the FIN test and the null test come before the mutex is taken, and free takes another mutex than the tick; neither is split into steps here. An update of a mask is one step.
- `parentHandle` after the parent was closed: it goes stale, and nothing is claimed about it beyond its value at accept.
- Out-parameters of accept and recvfrom that carry an address, and the bytes moved through dataports.
- Integer widths: masks are sets, counters and lengths do not wrap.
- NIC set-up, `nic_send_frame`, IP address configuration, the life-cycle assignments of `run` (any change of life-cycle state is allowed at any time), CAmkES glue, ticker, logging.
- OS_SocketTypes.h, OS_Socket.h and lib_macros/Check.h are not part of this model; the numeric values of their constants do not matter to it.
