/** The net server: a listening handle (at most one at a time), a counter of
    accepted connections, and the events it emits.

    The reactor is abstract. Every call the server makes into it (bind,
    listen, close, ref, ...) is appended to a log, and what the reactor
    answers (the status of a bind or a listen, the kind of an accepted
    client) is an input. Events the server emits at once are appended to an
    event log; the tasks it hands to process::nextTick are kept in `ticks`,
    oldest first, and running one (the event loop's next turn) emits its
    event. The connection counter is an unsigned machine word (`Size`). */
module Net {
  import opened Wrappers
  import opened Util

  type Callback = nat

  datatype HandleKind = PipeHandle | TcpHandle

  /** A reactor stream handle (uv::Pipe or uv::Tcp); `id` tells apart
      handles created at different times. */
  datatype Handle = Handle(id: nat, kind: HandleKind)

  /** What the accept notification hands over: a pipe, a TCP stream, or a
      value of any other type. */
  datatype Client = PipeClient(id: nat) | TcpClient(id: nat) | OtherClient

  /** The value OnConnection returns: Status::OK or Error::ILLEGAL_STATE. */
  datatype Status = Ok | IllegalState

  datatype ServerFlag = AllowHalfOpen

  datatype SocketFlag = SocketReadable | SocketWritable

  /** The socket created for an accepted connection. */
  datatype Socket = Socket(handle: Handle, allowHalfOpen: bool, flags: set<SocketFlag>)

  datatype EventName = ConnectionEvent | ListeningEvent | ErrorEvent | CloseEvent

  /** The deferred tasks: EmitError, EmitListening and EmitClose. */
  datatype Tick = EmitError | EmitListening | EmitClose

  /** An emitted event: the server's `connection`, `listening`, `error` (with
      the reactor's last error) and `close`, and the new socket's `connect`. */
  datatype Event =
    | Connection(socket: Socket)
    | Connect(socket: Socket)
    | Listening
    | Error(code: int)
    | Closed

  /** A call into the reactor. */
  datatype ReactorCall =
    | Open(h: Handle, fd: int)
    | Bind(h: Handle, address: Option<string>, port: int)
    | Bind6(h: Handle, address: Option<string>, port: int)
    | CloseHandle(h: Handle)
    | SetOnConnection(h: Handle)
    | ListenCall(h: Handle, backlog: int)
    | RefCall(h: Handle)
    | UnrefCall(h: Handle)
    | ReadStart(h: Handle)

  /** The value of every field of a ServerImpl, with the logs. */
  datatype ServerState = ServerState(
    handle: Option<Handle>,
    connections: Size,
    flags: set<ServerFlag>,
    once: seq<(EventName, Callback)>,
    ticks: seq<Tick>,
    events: seq<Event>,
    reactor: seq<ReactorCall>,
    nextId: nat)

  /** A new server: no handle, no connections, nothing scheduled. */
  function Initial(): (s: ServerState)
    ensures s.handle.None? && s.connections == 0 && s.ticks == [] && s.events == []
  {
    ServerState(None, 0, {}, [], [], [], [], 0)
  }

  /** `connections_++` on an unsigned word. */
  function Inc(w: Size): (r: Size)
    ensures w < WORD_MODULUS - 1 ==> r == w + 1
    ensures w == WORD_MODULUS - 1 ==> r == 0
  {
    if w < WORD_MODULUS - 1 then w + 1 else 0
  }

  /** The backlog handed to the reactor: 0 means the default, 511. */
  function Backlog(backlog: int): (b: int)
    ensures backlog != 0 ==> b == backlog
    ensures backlog == 0 ==> b == 511
  {
    if backlog != 0 then backlog else 511
  }

  /** `once(name, callback)` when a callback is given. */
  function RegisterOnce(s: ServerState, name: EventName, callback: Option<Callback>): (r: ServerState)
    ensures r.(once := s.once) == s
    ensures r.once == s.once + (if callback.Some? then [(name, callback.value)] else [])
  {
    if callback.Some? then s.(once := s.once + [(name, callback.value)]) else s
  }

  // ---------------------------------------------------------------------
  // createServerHandle
  // ---------------------------------------------------------------------

  /** The handle createServerHandle makes, the reactor calls it makes, and
      whether it keeps the handle. A descriptor gives a pipe opened on it;
      otherwise a pipe when neither a port nor an address type is given
      (both -1), a TCP handle else. A bind (bind6 for address type 6) is
      attempted when an address is given or the port is not 0; a failed
      bind closes the handle and gives null: creation fails exactly when a
      bind was attempted and failed, and a kept handle is never closed. */
  function CreateServerHandle(address: Option<string>, port: int, addressType: int, fd: int,
                              id: nat, bindStatus: int): (r: (Option<Handle>, seq<ReactorCall>))
    ensures r.0.Some? ==>
      r.0.value.id == id &&
      (r.0.value.kind == PipeHandle <==> fd >= 0 || (port == -1 && addressType == -1))
    ensures r.0.None? <==> fd < 0 && (address.Some? || port != 0) && bindStatus != 0
    ensures r.0.None? ==> |r.1| == 2 && r.1[1] == CloseHandle(Handle(id, r.1[0].h.kind))
    ensures r.0.Some? ==> forall c :: c in r.1 ==> !c.CloseHandle?
  {
    if fd >= 0 then
      var h := Handle(id, PipeHandle);
      (Some(h), [Open(h, fd)])
    else
      var h := Handle(id, if port == -1 && addressType == -1 then PipeHandle else TcpHandle);
      if address.Some? || port != 0 then
        var bind := if addressType == 6 then Bind6(h, address, port) else Bind(h, address, port);
        if bindStatus != 0 then (None, [bind, CloseHandle(h)]) else (Some(h), [bind])
      else
        (Some(h), [])
  }

  // ---------------------------------------------------------------------
  // listen, close, ref / unref
  // ---------------------------------------------------------------------

  /** The part of listen after the handle exists: install the accept handler
      and listen with the backlog (0 meaning 511); a failure closes and
      drops the handle and schedules `error`, a success schedules
      `listening`. */
  function ListenWith(s: ServerState, backlog: int, listenStatus: int): (r: (ServerState, bool))
    requires s.handle.Some?
    ensures r.1 <==> listenStatus == 0
    ensures s.reactor + [SetOnConnection(s.handle.value), ListenCall(s.handle.value, Backlog(backlog))] <= r.0.reactor
    ensures r.1 ==> r.0.handle == s.handle && r.0.ticks == s.ticks + [EmitListening]
    ensures !r.1 ==> r.0.handle.None? && r.0.ticks == s.ticks + [EmitError]
    ensures r.0.connections == s.connections && r.0.events == s.events && r.0.flags == s.flags
  {
    var h := s.handle.value;
    var calls := s.reactor + [SetOnConnection(h), ListenCall(h, Backlog(backlog))];
    if listenStatus != 0 then
      (s.(reactor := calls + [CloseHandle(h)], handle := None, ticks := s.ticks + [EmitError]), false)
    else
      (s.(reactor := calls, ticks := s.ticks + [EmitListening]), true)
  }

  /** The server after the private listen(address, port, addressType,
      backlog, fd): a new handle is created only when there is none; the
      existing one is reused otherwise. */
  function AfterListenOn(s: ServerState, address: Option<string>, port: int, addressType: int,
                         backlog: int, fd: int, bindStatus: int, listenStatus: int): (r: (ServerState, bool))
    ensures r.0.connections == s.connections && r.0.events == s.events && r.0.once == s.once
    ensures r.0.flags == s.flags
  {
    if s.handle.None? then
      var c := CreateServerHandle(address, port, addressType, fd, s.nextId, bindStatus);
      var t := s.(reactor := s.reactor + c.1, nextId := s.nextId + 1);
      if c.0.None? then (t.(ticks := t.ticks + [EmitError]), false)
      else ListenWith(t.(handle := c.0), backlog, listenStatus)
    else
      ListenWith(s, backlog, listenStatus)
  }

  /** The server after the public listen(port, host, backlog, callback): the
      callback becomes a one-shot `listening` listener, and the private
      listen runs with address type 4 and no descriptor. */
  function AfterListen(s: ServerState, port: int, host: Option<string>, backlog: int,
                       callback: Option<Callback>, bindStatus: int, listenStatus: int): (r: (ServerState, bool))
    ensures r.0.once == s.once + (if callback.Some? then [(ListeningEvent, callback.value)] else [])
  {
    AfterListenOn(RegisterOnce(s, ListeningEvent, callback), host, port, 4, backlog, -1, bindStatus, listenStatus)
  }

  /** emitCloseIfDrained: `close` is scheduled only when there is neither a
      handle nor a connection. */
  function AfterEmitCloseIfDrained(s: ServerState): (r: ServerState)
    ensures r.(ticks := s.ticks) == s
    ensures r.ticks == s.ticks + (if s.handle.None? && s.connections == 0 then [EmitClose] else [])
  {
    if s.handle.Some? || s.connections != 0 then s else s.(ticks := s.ticks + [EmitClose])
  }

  /** The server after close(callback). */
  function AfterClose(s: ServerState, callback: Option<Callback>): (r: (ServerState, bool))
    ensures r.1 <==> s.handle.Some?
    ensures r.0.handle.None? && r.0.connections == s.connections && r.0.events == s.events
  {
    if s.handle.None? then (s, false)
    else
      var t := RegisterOnce(s, CloseEvent, callback);
      (AfterEmitCloseIfDrained(t.(reactor := t.reactor + [CloseHandle(s.handle.value)], handle := None)), true)
  }

  /** ref(): forwarded to the handle if there is one. */
  function AfterRef(s: ServerState): (r: ServerState)
    ensures r.(reactor := s.reactor) == s
    ensures r.reactor == s.reactor + (if s.handle.Some? then [RefCall(s.handle.value)] else [])
  {
    if s.handle.Some? then s.(reactor := s.reactor + [RefCall(s.handle.value)]) else s
  }

  /** unref(): forwarded to the handle if there is one. */
  function AfterUnref(s: ServerState): (r: ServerState)
    ensures r.(reactor := s.reactor) == s
    ensures r.reactor == s.reactor + (if s.handle.Some? then [UnrefCall(s.handle.value)] else [])
  {
    if s.handle.Some? then s.(reactor := s.reactor + [UnrefCall(s.handle.value)]) else s
  }

  // ---------------------------------------------------------------------
  // The accept handler and the deferred tasks
  // ---------------------------------------------------------------------

  /** The socket made for an accepted client handle: readable and writable,
      half-open as the server allows. */
  function AcceptedSocket(s: ServerState, h: Handle): (sock: Socket)
    ensures sock.handle == h && sock.flags == {SocketReadable, SocketWritable}
    ensures sock.allowHalfOpen <==> AllowHalfOpen in s.flags
  {
    Socket(h, AllowHalfOpen in s.flags, {SocketReadable, SocketWritable})
  }

  /** OnConnection::operator(): a client that is neither a pipe nor a TCP
      stream schedules `error`; otherwise a socket is made on it, its
      reading starts, the counter goes up, and the server's `connection`
      and then the socket's `connect` are emitted at once. */
  function AfterConnection(s: ServerState, client: Client): (r: (ServerState, Status))
    ensures r.0.handle == s.handle && r.0.once == s.once
  {
    var h := match client
      case PipeClient(id) => Some(Handle(id, PipeHandle))
      case TcpClient(id) => Some(Handle(id, TcpHandle))
      case OtherClient => None;
    if h.None? then
      (s.(ticks := s.ticks + [EmitError]), IllegalState)
    else
      var sock := AcceptedSocket(s, h.value);
      (s.(reactor := s.reactor + [ReadStart(h.value)], connections := Inc(s.connections),
          events := s.events + [Connection(sock), Connect(sock)]), Ok)
  }

  /** The event a deferred task emits; `error` carries the reactor's last
      error at the time the task runs. */
  function TickEvent(t: Tick, lastError: int): (e: Event)
    ensures t == EmitError <==> e.Error?
    ensures t == EmitListening <==> e == Listening
    ensures t == EmitClose <==> e == Closed
  {
    match t
    case EmitError => Error(lastError)
    case EmitListening => Listening
    case EmitClose => Closed
  }

  /** The loop runs the oldest deferred task. */
  function AfterTick(s: ServerState, lastError: int): (r: ServerState)
    requires s.ticks != []
    ensures r.ticks == s.ticks[1..]
  {
    s.(ticks := s.ticks[1..], events := s.events + [TickEvent(s.ticks[0], lastError)])
  }

  // ---------------------------------------------------------------------
  // Properties of the operations
  // ---------------------------------------------------------------------

  /** close without a handle returns false and changes nothing, the
      callback included. */
  lemma CloseWithoutHandle(s: ServerState, callback: Option<Callback>)
    requires s.handle.None?
    ensures AfterClose(s, callback) == (s, false)
  {
  }

  /** close with a handle closes it, clears it, registers the callback, and
      schedules `close` iff there is no connection. */
  lemma CloseWithHandle(s: ServerState, callback: Option<Callback>)
    requires s.handle.Some?
    ensures var r := AfterClose(s, callback);
      r.1 && r.0.handle.None? &&
      r.0.reactor == s.reactor + [CloseHandle(s.handle.value)] &&
      r.0.once == s.once + (if callback.Some? then [(CloseEvent, callback.value)] else []) &&
      r.0.ticks == s.ticks + (if s.connections == 0 then [EmitClose] else [])
  {
  }

  /** A second close is refused and changes nothing. */
  lemma CloseTwice(s: ServerState, cb1: Option<Callback>, cb2: Option<Callback>)
    ensures var r := AfterClose(s, cb1); AfterClose(r.0, cb2) == (r.0, false)
  {
  }

  /** A failed handle creation schedules one `error`, leaves no handle and
      returns false. */
  lemma ListenCreateFails(s: ServerState, address: Option<string>, port: int, addressType: int,
                          backlog: int, fd: int, bindStatus: int, listenStatus: int)
    requires s.handle.None? && CreateServerHandle(address, port, addressType, fd, s.nextId, bindStatus).0.None?
    ensures var r := AfterListenOn(s, address, port, addressType, backlog, fd, bindStatus, listenStatus);
      !r.1 && r.0.handle.None? && r.0.ticks == s.ticks + [EmitError]
  {
  }

  /** A failed reactor listen schedules one `error`, closes and clears the
      handle, and returns false. */
  lemma ListenFails(s: ServerState, address: Option<string>, port: int, addressType: int,
                    backlog: int, fd: int, bindStatus: int, listenStatus: int)
    requires s.handle.Some? || CreateServerHandle(address, port, addressType, fd, s.nextId, bindStatus).0.Some?
    requires listenStatus != 0
    ensures var r := AfterListenOn(s, address, port, addressType, backlog, fd, bindStatus, listenStatus);
      !r.1 && r.0.handle.None? && r.0.ticks == s.ticks + [EmitError] &&
      |r.0.reactor| > 0 && r.0.reactor[|r.0.reactor| - 1].CloseHandle?
  {
  }

  /** A successful listen schedules one `listening`, keeps a handle, and
      returns true; the backlog handed on is never 0. */
  lemma ListenSucceeds(s: ServerState, address: Option<string>, port: int, addressType: int,
                       backlog: int, fd: int, bindStatus: int)
    requires s.handle.Some? || CreateServerHandle(address, port, addressType, fd, s.nextId, bindStatus).0.Some?
    ensures var r := AfterListenOn(s, address, port, addressType, backlog, fd, bindStatus, 0);
      r.1 && r.0.handle.Some? && r.0.ticks == s.ticks + [EmitListening] &&
      |r.0.reactor| >= 2 && r.0.reactor[|r.0.reactor| - 1] == ListenCall(r.0.handle.value, Backlog(backlog)) &&
      Backlog(backlog) != 0
  {
  }

  /** A listen on a server that already has a handle is not refused: it
      reuses that handle, creates none, and binds nothing. */
  lemma ListenReusesHandle(s: ServerState, address: Option<string>, port: int, addressType: int,
                           backlog: int, fd: int, bindStatus: int)
    requires s.handle.Some?
    ensures var r := AfterListenOn(s, address, port, addressType, backlog, fd, bindStatus, 0);
      r.1 && r.0.handle == s.handle && r.0.nextId == s.nextId &&
      r.0.reactor == s.reactor + [SetOnConnection(s.handle.value), ListenCall(s.handle.value, Backlog(backlog))]
  {
  }

  /** Two successful public listens in a row: both return true, the second
      on the first one's handle, and `listening` is scheduled twice. */
  lemma ListenTwice(s: ServerState, port: int, host: Option<string>, backlog: int,
                    port2: int, host2: Option<string>, backlog2: int, bindStatus: int, bindStatus2: int)
    requires AfterListen(s, port, host, backlog, None, bindStatus, 0).1
    ensures var r1 := AfterListen(s, port, host, backlog, None, bindStatus, 0);
      var r2 := AfterListen(r1.0, port2, host2, backlog2, None, bindStatus2, 0);
      r2.1 && r1.0.handle.Some? && r2.0.handle == r1.0.handle &&
      r2.0.ticks == s.ticks + [EmitListening, EmitListening]
  {
    var r1 := AfterListen(s, port, host, backlog, None, bindStatus, 0);
    assert r1.0.handle.Some?;
    ListenReusesHandle(r1.0, host2, port2, 4, backlog2, -1, bindStatus2);
  }

  /** The public listen asks for a TCP handle, binds with bind (never bind6)
      when a host or a non-zero port is given, and adds its callback as a
      one-shot `listening` listener. */
  lemma PublicListenIsTcp(s: ServerState, port: int, host: Option<string>, backlog: int,
                          callback: Option<Callback>, bindStatus: int, listenStatus: int)
    requires s.handle.None?
    ensures var r := AfterListen(s, port, host, backlog, callback, bindStatus, listenStatus);
      var h := Handle(s.nextId, TcpHandle);
      r.0.reactor[..|s.reactor|] == s.reactor &&
      (host.Some? || port != 0 ==> r.0.reactor[|s.reactor|] == Bind(h, host, port)) &&
      (r.0.handle.Some? ==> r.0.handle.value == h)
  {
  }

  /** A client that is neither a pipe nor a TCP stream is refused: `error`
      is scheduled, ILLEGAL_STATE returned, and nothing else changes. */
  lemma AcceptOther(s: ServerState)
    ensures AfterConnection(s, OtherClient) == (s.(ticks := s.ticks + [EmitError]), IllegalState)
  {
  }

  /** An accepted pipe or TCP client adds one connection and emits the
      server's `connection` before the socket's `connect`, both for a
      readable and writable socket on the client's handle. */
  lemma AcceptStream(s: ServerState, client: Client)
    requires !client.OtherClient?
    requires s.connections < WORD_MODULUS - 1
    ensures var r := AfterConnection(s, client);
      var h := Handle(client.id, if client.PipeClient? then PipeHandle else TcpHandle);
      var sock := Socket(h, AllowHalfOpen in s.flags, {SocketReadable, SocketWritable});
      r.1 == Ok && r.0.connections == s.connections + 1 && r.0.ticks == s.ticks &&
      r.0.events == s.events + [Connection(sock), Connect(sock)] &&
      r.0.reactor == s.reactor + [ReadStart(h)]
  {
  }

  // ---------------------------------------------------------------------
  // Runs of operations
  // ---------------------------------------------------------------------

  /** A call on the server, or a turn of the event loop running the oldest
      deferred task (with the reactor's last error at that time). */
  datatype Op =
    | ListenOp(port: int, host: Option<string>, backlog: int, callback: Option<Callback>,
               bindStatus: int, listenStatus: int)
    | ListenOnOp(address: Option<string>, lport: int, addressType: int, lbacklog: int, fd: int,
                 lbindStatus: int, llistenStatus: int)
    | CloseOp(closeCallback: Option<Callback>)
    | RefOp
    | UnrefOp
    | AcceptOp(client: Client)
    | TickOp(lastError: int)

  function Step(s: ServerState, op: Op): (r: ServerState)
  {
    match op
    case ListenOp(port, host, backlog, cb, bs, ls) => AfterListen(s, port, host, backlog, cb, bs, ls).0
    case ListenOnOp(a, p, at, b, fd, bs, ls) => AfterListenOn(s, a, p, at, b, fd, bs, ls).0
    case CloseOp(cb) => AfterClose(s, cb).0
    case RefOp => AfterRef(s)
    case UnrefOp => AfterUnref(s)
    case AcceptOp(c) => AfterConnection(s, c).0
    case TickOp(e) => if s.ticks == [] then s else AfterTick(s, e)
  }

  function Run(s: ServerState, ops: seq<Op>): (r: ServerState)
    decreases |ops|
  {
    if ops == [] then s else Run(Step(s, ops[0]), ops[1..])
  }

  /** The number of `close` tasks ever scheduled: those still queued plus
      the `close` events already emitted. */
  function ClosesScheduled(s: ServerState): (n: nat)
  {
    CountClose(s.ticks) + CountClosed(s.events)
  }

  function CountClose(ts: seq<Tick>): (n: nat)
    ensures n <= |ts|
    decreases |ts|
  {
    if ts == [] then 0 else (if ts[0] == EmitClose then 1 else 0) + CountClose(ts[1..])
  }

  function CountClosed(es: seq<Event>): (n: nat)
    ensures n <= |es|
    decreases |es|
  {
    if es == [] then 0 else (if es[0] == Closed then 1 else 0) + CountClosed(es[1..])
  }

  lemma {:induction false} CountCloseAppend(a: seq<Tick>, b: seq<Tick>)
    ensures CountClose(a + b) == CountClose(a) + CountClose(b)
    decreases |a|
  {
    if a == [] {
      assert a + b == b;
    } else {
      assert (a + b)[1..] == a[1..] + b;
      CountCloseAppend(a[1..], b);
    }
  }

  lemma {:induction false} CountClosedAppend(a: seq<Event>, b: seq<Event>)
    ensures CountClosed(a + b) == CountClosed(a) + CountClosed(b)
    decreases |a|
  {
    if a == [] {
      assert a + b == b;
    } else {
      assert (a + b)[1..] == a[1..] + b;
      CountClosedAppend(a[1..], b);
    }
  }

  /** Running the oldest task moves it from the queue to the log: a `close`
      task becomes a `close` event, so the count of scheduled closes stays. */
  lemma TickKeepsClosesScheduled(s: ServerState, lastError: int)
    requires s.ticks != []
    ensures ClosesScheduled(AfterTick(s, lastError)) == ClosesScheduled(s)
  {
    assert s.ticks == [s.ticks[0]] + s.ticks[1..];
    CountCloseAppend([s.ticks[0]], s.ticks[1..]);
    CountClosedAppend(s.events, [TickEvent(s.ticks[0], lastError)]);
  }

  /** One step with connections open neither schedules a `close` nor brings
      the counter back to zero (short of wrapping it around). */
  lemma StepWithConnections(s: ServerState, op: Op)
    requires 0 < s.connections < WORD_MODULUS - 1
    ensures var r := Step(s, op);
      ClosesScheduled(r) == ClosesScheduled(s) &&
      (r.connections == s.connections || r.connections == s.connections + 1)
  {
    match op
    case ListenOp(port, host, backlog, cb, bs, ls) =>
      ListenKeepsCloses(RegisterOnce(s, ListeningEvent, cb), host, port, 4, backlog, -1, bs, ls);
    case ListenOnOp(a, p, at, b, fd, bs, ls) =>
      ListenKeepsCloses(s, a, p, at, b, fd, bs, ls);
    case CloseOp(cb) =>
    case RefOp =>
    case UnrefOp =>
    case AcceptOp(c) =>
      var r := AfterConnection(s, c).0;
      if !c.OtherClient? {
        CountClosedAppend(s.events, [Connection(AcceptedSocket(s, Handle(c.id, if c.PipeClient? then PipeHandle else TcpHandle))),
                                     Connect(AcceptedSocket(s, Handle(c.id, if c.PipeClient? then PipeHandle else TcpHandle)))]);
      } else {
        CountCloseAppend(s.ticks, [EmitError]);
      }
    case TickOp(e) =>
      if s.ticks != [] {
        TickKeepsClosesScheduled(s, e);
      }
  }

  /** listen schedules `error` or `listening`, never `close`. */
  lemma ListenKeepsCloses(s: ServerState, address: Option<string>, port: int, addressType: int,
                          backlog: int, fd: int, bindStatus: int, listenStatus: int)
    ensures ClosesScheduled(AfterListenOn(s, address, port, addressType, backlog, fd, bindStatus, listenStatus).0)
      == ClosesScheduled(s)
  {
    var r := AfterListenOn(s, address, port, addressType, backlog, fd, bindStatus, listenStatus).0;
    assert r.ticks == s.ticks + [EmitError] || r.ticks == s.ticks + [EmitListening];
    if r.ticks == s.ticks + [EmitError] {
      CountCloseAppend(s.ticks, [EmitError]);
    } else {
      CountCloseAppend(s.ticks, [EmitListening]);
    }
  }

  /** The counter is only ever incremented: once a connection has been
      accepted, no run of operations short of 2^64 - 1 further accepts ever
      schedules `close`, whatever close or listen calls it makes. */
  lemma {:induction false} NoCloseWhileConnected(s: ServerState, ops: seq<Op>)
    requires s.connections > 0 && s.connections + |ops| < WORD_MODULUS - 1
    ensures ClosesScheduled(Run(s, ops)) == ClosesScheduled(s)
    ensures Run(s, ops).connections >= s.connections
    decreases |ops|
  {
    if ops != [] {
      StepWithConnections(s, ops[0]);
      NoCloseWhileConnected(Step(s, ops[0]), ops[1..]);
    }
  }

  /** The deferred tasks run in the order they were scheduled: n turns of
      the loop emit the events of the n oldest tasks, in order. */
  function TickEvents(ts: seq<Tick>, lastError: int): (es: seq<Event>)
    ensures |es| == |ts|
    decreases |ts|
  {
    if ts == [] then [] else [TickEvent(ts[0], lastError)] + TickEvents(ts[1..], lastError)
  }

  lemma {:induction false} TicksRunInOrder(s: ServerState, n: nat, lastError: int)
    requires n <= |s.ticks|
    ensures var r := Run(s, seq(n, _ => TickOp(lastError)));
      r.ticks == s.ticks[n..] && r.events == s.events + TickEvents(s.ticks[..n], lastError) &&
      r.handle == s.handle && r.connections == s.connections
    decreases n
  {
    var ops := seq(n, _ => TickOp(lastError));
    if n == 0 {
      assert ops == [];
      assert s.ticks[..0] == [];
    } else {
      var t := AfterTick(s, lastError);
      assert Step(s, ops[0]) == t;
      assert ops[1..] == seq(n - 1, _ => TickOp(lastError));
      TicksRunInOrder(t, n - 1, lastError);
      assert t.ticks[n - 1..] == s.ticks[n..];
      assert s.ticks[..n][1..] == t.ticks[..n - 1];
      assert s.ticks[..n] == [s.ticks[0]] + t.ticks[..n - 1];
    }
  }

  // ---------------------------------------------------------------------
  // The invariant of a server
  // ---------------------------------------------------------------------

  function CountConnections(es: seq<Event>): (n: nat)
    ensures n <= |es|
    decreases |es|
  {
    if es == [] then 0 else CountConnections(es[..|es| - 1]) + (if es[|es| - 1].Connection? then 1 else 0)
  }

  lemma CountConnectionsSnoc(es: seq<Event>, e: Event)
    ensures CountConnections(es + [e]) == CountConnections(es) + (if e.Connection? then 1 else 0)
  {
    assert (es + [e])[..|es|] == es;
  }

  /** The counter is the number of `connection` events modulo 2^64, and the
      handle, if any, is one created before. */
  predicate ValidState(s: ServerState)
  {
    s.connections == CountConnections(s.events) % WORD_MODULUS &&
    (s.handle.Some? ==> s.handle.value.id < s.nextId)
  }

  lemma ListenKeepsValid(s: ServerState, address: Option<string>, port: int, addressType: int,
                         backlog: int, fd: int, bindStatus: int, listenStatus: int)
    requires ValidState(s)
    ensures ValidState(AfterListenOn(s, address, port, addressType, backlog, fd, bindStatus, listenStatus).0)
  {
  }

  lemma CloseKeepsValid(s: ServerState, callback: Option<Callback>)
    requires ValidState(s)
    ensures ValidState(AfterClose(s, callback).0)
  {
  }

  /** Incrementing a counter kept modulo 2^64 wraps like `Inc`. */
  lemma IncMod(n: nat)
    ensures Inc(n % WORD_MODULUS) == (n + 1) % WORD_MODULUS
  {
    var q, r := n / WORD_MODULUS, n % WORD_MODULUS;
    assert n == q * WORD_MODULUS + r;
    if r < WORD_MODULUS - 1 {
      assert n + 1 == q * WORD_MODULUS + (r + 1);
    } else {
      assert n + 1 == (q + 1) * WORD_MODULUS + 0;
    }
  }

  lemma ConnectionKeepsValid(s: ServerState, client: Client)
    requires ValidState(s)
    ensures ValidState(AfterConnection(s, client).0)
  {
    if !client.OtherClient? {
      var r := AfterConnection(s, client).0;
      var h := Handle(client.id, if client.PipeClient? then PipeHandle else TcpHandle);
      var sock := AcceptedSocket(s, h);
      assert r.events == (s.events + [Connection(sock)]) + [Connect(sock)];
      assert r.connections == Inc(s.connections);
      var n := CountConnections(s.events);
      CountConnectionsSnoc(s.events, Connection(sock));
      CountConnectionsSnoc(s.events + [Connection(sock)], Connect(sock));
      assert CountConnections(r.events) == n + 1;
      IncMod(n);
    }
  }

  lemma TickKeepsValid(s: ServerState, lastError: int)
    requires ValidState(s) && s.ticks != []
    ensures ValidState(AfterTick(s, lastError))
  {
    CountConnectionsSnoc(s.events, TickEvent(s.ticks[0], lastError));
  }

  /** Every operation keeps the invariant. */
  lemma {:induction false} RunKeepsValid(s: ServerState, ops: seq<Op>)
    requires ValidState(s)
    ensures ValidState(Run(s, ops))
    decreases |ops|
  {
    if ops != [] {
      match ops[0] {
        case ListenOp(port, host, backlog, cb, bs, ls) =>
          ListenKeepsValid(RegisterOnce(s, ListeningEvent, cb), host, port, 4, backlog, -1, bs, ls);
        case ListenOnOp(a, p, at, b, fd, bs, ls) =>
          ListenKeepsValid(s, a, p, at, b, fd, bs, ls);
        case CloseOp(cb) =>
          CloseKeepsValid(s, cb);
        case RefOp =>
        case UnrefOp =>
        case AcceptOp(c) =>
          ConnectionKeepsValid(s, c);
        case TickOp(e) =>
          if s.ticks != [] {
            TickKeepsValid(s, e);
          }
      }
      RunKeepsValid(Step(s, ops[0]), ops[1..]);
    }
  }

  // ---------------------------------------------------------------------
  // The server object
  // ---------------------------------------------------------------------

  class ServerImpl {
    var handle: Option<Handle>
    var connections: Size
    var flags: set<ServerFlag>
    /** One-shot listeners, in the order they were added. */
    var once: seq<(EventName, Callback)>
    /** The tasks handed to process::nextTick, oldest first. */
    var ticks: seq<Tick>
    /** Everything emitted, in order. */
    var events: seq<Event>
    /** Every call made into the reactor, in order. */
    var reactor: seq<ReactorCall>
    /** The id the next handle created gets. */
    var nextId: nat

    function State(): ServerState
      reads this
    {
      ServerState(handle, connections, flags, once, ticks, events, reactor, nextId)
    }

    predicate Valid()
      reads this
    {
      ValidState(State())
    }

    /** ServerImpl::create: no handle, no connections. */
    constructor()
      ensures Valid() && State() == Initial()
    {
      handle := None;
      connections := 0;
      flags := {};
      once := [];
      ticks := [];
      events := [];
      reactor := [];
      nextId := 0;
    }

    /** The public listen(port, host, backlog, callback); `bindStatus` and
        `listenStatus` are the reactor's answers (0 for success). */
    method Listen(port: int, host: Option<string>, backlog: int, callback: Option<Callback>,
                  bindStatus: int, listenStatus: int) returns (ok: bool)
      requires Valid()
      modifies this
      ensures Valid()
      ensures (State(), ok) == AfterListen(old(State()), port, host, backlog, callback, bindStatus, listenStatus)
    {
      if callback.Some? {
        once := once + [(ListeningEvent, callback.value)];
      }
      ok := ListenOn(host, port, 4, backlog, -1, bindStatus, listenStatus);
    }

    /** The private listen(address, port, addressType, backlog, fd). */
    method ListenOn(address: Option<string>, port: int, addressType: int, backlog: int, fd: int,
                    bindStatus: int, listenStatus: int) returns (ok: bool)
      requires Valid()
      modifies this
      ensures Valid()
      ensures (State(), ok) == AfterListenOn(old(State()), address, port, addressType, backlog, fd, bindStatus, listenStatus)
    {
      ghost var s := State();
      ListenKeepsValid(s, address, port, addressType, backlog, fd, bindStatus, listenStatus);
      if handle.None? {
        var created, calls := CreateHandle(address, port, addressType, fd, nextId, bindStatus);
        reactor := reactor + calls;
        nextId := nextId + 1;
        handle := created;
        if handle.None? {
          ticks := ticks + [EmitError];
          return false;
        }
      }
      var h := handle.value;
      reactor := reactor + [SetOnConnection(h), ListenCall(h, if backlog != 0 then backlog else 511)];
      if listenStatus != 0 {
        reactor := reactor + [CloseHandle(h)];
        handle := None;
        ticks := ticks + [EmitError];
        ok := false;
      } else {
        ticks := ticks + [EmitListening];
        ok := true;
      }
    }

    /** createServerHandle, a static member: the handle it keeps (if any)
        and the reactor calls it makes. */
    static method CreateHandle(address: Option<string>, port: int, addressType: int, fd: int,
                               id: nat, bindStatus: int) returns (h: Option<Handle>, calls: seq<ReactorCall>)
      ensures (h, calls) == CreateServerHandle(address, port, addressType, fd, id, bindStatus)
    {
      if fd >= 0 {
        var pipe := Handle(id, PipeHandle);
        return Some(pipe), [Open(pipe, fd)];
      }
      var handle := Handle(id, if port == -1 && addressType == -1 then PipeHandle else TcpHandle);
      var r := 0;
      calls := [];
      if address.Some? || port != 0 {
        if addressType == 6 {
          calls := [Bind6(handle, address, port)];
        } else {
          calls := [Bind(handle, address, port)];
        }
        r := bindStatus;
      }
      if r != 0 {
        assert calls + [CloseHandle(handle)] == [calls[0], CloseHandle(handle)];
        calls := calls + [CloseHandle(handle)];
        h := None;
      } else {
        h := Some(handle);
      }
    }

    /** close(callback). */
    method Close(callback: Option<Callback>) returns (ok: bool)
      requires Valid()
      modifies this
      ensures Valid()
      ensures (State(), ok) == AfterClose(old(State()), callback)
    {
      ghost var s := State();
      CloseKeepsValid(s, callback);
      if handle.None? {
        return false;
      }
      if callback.Some? {
        once := once + [(CloseEvent, callback.value)];
      }
      reactor := reactor + [CloseHandle(handle.value)];
      handle := None;
      EmitCloseIfDrained();
      ok := true;
    }

    /** emitCloseIfDrained. */
    method EmitCloseIfDrained()
      requires Valid()
      modifies this
      ensures Valid()
      ensures State() == AfterEmitCloseIfDrained(old(State()))
    {
      if handle.Some? || connections != 0 {
        return;
      }
      ticks := ticks + [EmitClose];
    }

    /** ref(). */
    method Ref()
      requires Valid()
      modifies this
      ensures Valid()
      ensures State() == AfterRef(old(State()))
    {
      if handle.Some? {
        reactor := reactor + [RefCall(handle.value)];
      }
    }

    /** unref(). */
    method Unref()
      requires Valid()
      modifies this
      ensures Valid()
      ensures State() == AfterUnref(old(State()))
    {
      if handle.Some? {
        reactor := reactor + [UnrefCall(handle.value)];
      }
    }

    /** OnConnection::operator(), the accept handler. */
    method OnConnection(client: Client) returns (status: Status)
      requires Valid()
      modifies this
      ensures Valid()
      ensures (State(), status) == AfterConnection(old(State()), client)
    {
      ghost var s := State();
      ConnectionKeepsValid(s, client);
      ghost var r := AfterConnection(s, client);
      var clientHandle: Option<Handle> := None;
      if client.PipeClient? {
        clientHandle := Some(Handle(client.id, PipeHandle));
      } else if client.TcpClient? {
        clientHandle := Some(Handle(client.id, TcpHandle));
      }
      if clientHandle.None? {
        assert r == (s.(ticks := s.ticks + [EmitError]), IllegalState);
        ticks := ticks + [EmitError];
        return IllegalState;
      }
      var socket := Socket(clientHandle.value, AllowHalfOpen in flags, {});
      socket := socket.(flags := socket.flags + {SocketReadable});
      socket := socket.(flags := socket.flags + {SocketWritable});
      reactor := reactor + [ReadStart(clientHandle.value)];
      connections := Inc(connections);
      events := events + [Connection(socket)];
      events := events + [Connect(socket)];
      status := Ok;
      assert socket == AcceptedSocket(s, clientHandle.value);
      assert events == s.events + [Connection(socket), Connect(socket)];
      assert r == (State(), Ok);
    }

    /** A turn of the event loop: the oldest deferred task (EmitError,
        EmitListening or EmitClose) runs and emits its event. */
    method RunTick(lastError: int)
      requires Valid() && ticks != []
      modifies this
      ensures Valid()
      ensures State() == AfterTick(old(State()), lastError)
    {
      TickKeepsValid(State(), lastError);
      var task := ticks[0];
      ticks := ticks[1..];
      match task {
        case EmitError => events := events + [Error(lastError)];
        case EmitListening => events := events + [Listening];
        case EmitClose => events := events + [Closed];
      }
    }
  }
}
