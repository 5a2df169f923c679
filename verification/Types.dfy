/** Data of the TRENTOS layer over picoTCP: sockets, clients, event masks, error codes. */
module Types {
  // First id handed out to a client; client i has id MIN_BADGE_ID + i.
  const MIN_BADGE_ID := 101

  // The socket events a client can be told about; an event mask is a set of them.
  datatype Event = EvConnEst | EvConnAcpt | EvRead | EvWrite | EvClose | EvFin | EvError

  // Events that need no follow-up by the client: a report takes them out of the mask.
  const TRANSIENT: set<Event> := {EvConnEst, EvWrite, EvError}

  // The events and TCP states picoTCP passes to the callback.
  datatype PicoEvent = PicoConn | PicoRd | PicoWr | PicoClose | PicoFin | PicoErr
  datatype TcpState = CloseWait | Closing | Closed | TimeWait | OtherState

  datatype OsError =
    | Success
    | InvalidHandle
    | InvalidParameter
    | ConnectionClosed
    | InsufficientSpace
    | TryAgain
    | BufferTooSmall
    | Aborted
    | NotInitialized
    | OutOfBounds
    | NetworkProto
    | ProtoNoSupport
    | ConnNone
    | ConnRefused
    | GenericError
    | OtherError(code: int)

  datatype Lifecycle = Uninitialized | Initialized | Running | FatalError
  datatype Status = Free | InUse
  datatype SocketType = NoType | Stream | Dgram | OtherType

  // A client's shared buffer: where it is and how many bytes it has.
  datatype Dataport = Dataport(base: int, size: nat)

  // One entry of the socket table. `impl` is the picoTCP socket, 0 for NULL.
  datatype Slot = Slot(
    status: Status,
    parentHandle: int,
    eventMask: set<Event>,
    currentError: OsError,
    pendingConnections: int,
    connected: bool,
    clientId: int,
    socketType: SocketType,
    buf: Dataport,
    impl: int)

  // One entry of the client table. `canNotify` says that the notify function is not NULL.
  datatype Client = Client(
    needsToBeNotified: bool,
    currentSocketsInUse: int,
    clientId: int,
    inUse: bool,
    socketQuota: int,
    head: int,
    tail: int,
    canNotify: bool)

  // What became of the picoTCP sockets: all that open and accept returned, those handed back to
  // pico_socket_close, those picoTCP itself finished with FIN, and those the callback closed because
  // no slot holds them: connections never accepted, and sockets that were handed back before and
  // are still shutting down. Addresses may be used again, hence multisets.
  datatype Ledger = Ledger(
    obtained: multiset<int>,
    closed: multiset<int>,
    finished: multiset<int>,
    orphans: multiset<int>)

  // The state shared by the RPC thread and the control thread. The last three fields are
  // monitors: the thread-safety mutex is still held, a handler gave picoTCP a socket that is not
  // live, the callback used a client pointer that is NULL.
  datatype Stack = Stack(
    lifecycle: Lifecycle,
    sockets: seq<Slot>,
    clients: seq<Client>,
    ports: map<int, Dataport>,
    recordSize: nat,
    ledger: Ledger,
    tsLocked: bool,
    staleUse: bool,
    nullDeref: bool)

  // What an RPC returns: the error code and the final value of its int or length out-parameter.
  datatype Reply = Reply(err: OsError, value: int)

  // What a picoTCP call returns: its return value and the translated pico_err.
  datatype PicoResult = PicoResult(ret: int, err: OsError)

  // One record of the list of pending events.
  datatype Record = Record(eventMask: set<Event>, handle: int, parentHandle: int, currentError: OsError)

  // What picoTCP passes to the callback: the socket, the events, its TCP state and pico_err.
  datatype PicoReport = PicoReport(impl: int, evs: set<PicoEvent>, listening: bool, tcp: TcpState, err: OsError)

  const EMPTY_SLOT := Slot(Free, 0, {}, Success, 0, false, 0, NoType, Dataport(0, 0), 0)
  const EMPTY_CLIENT := Client(false, 0, 0, false, 0, 0, 0, false)
  const EMPTY_LEDGER := Ledger(multiset{}, multiset{}, multiset{}, multiset{})

  function PortIn(ports: map<int, Dataport>, id: int): Dataport
  {
    if id in ports then ports[id] else Dataport(0, 0)
  }

  function PortOf(t: Stack, id: int): Dataport
  {
    PortIn(t.ports, id)
  }

  function Min(a: int, b: int): int
  {
    if a <= b then a else b
  }
}
