/**
 The libuv TCP socket (`LibuvTcpSocket`) built on the request lifecycle of
 `AsyncRequests`: connecting, writing, closing, the completion callbacks of those
 requests, and the synchronous tunables that still answer through the callback pair.

 libuv's answers (status codes, values it writes back) are inputs. A socket is
 identified by the call id of the connect that created it.
 */
module TcpSocket {
  import opened Base
  import opened AsyncRequests

  /** The LibuvTcpSocketImpl a connection request owns until it becomes a socket. */
  datatype SocketImpl = SocketImpl(keepAlive: int)

  /** The request a pending call owns: a connect with its socket impl, a write with its
      pinned bytes, or a shutdown of a socket. */
  datatype Request =
    | ConnectRequest(impl: SocketImpl)
    | WriteRequest(sock: CallId, pinned: Bytes)
    | ShutdownRequest(sock: CallId)

  /** A socket: whether its TCP handle is still open, and the stored keep-alive value. */
  datatype Socket = Socket(open: bool, keepAlive: int)

  datatype Net = Net(loop: Loop<Request>, sockets: map<CallId, Socket>)

  /** `Wf` of the loop, and every socket is a call that completed, and every pending write
      or shutdown refers to a socket. */
  ghost predicate NetWf(n: Net) {
    && Wf(n.loop)
    && (forall s :: s in n.sockets ==> s < n.loop.nextCall && s !in n.loop.pending)
    && (forall c :: c in n.loop.pending && !n.loop.pending[c].ConnectRequest? ==> n.loop.pending[c].sock in n.sockets)
  }

  function InitialNet(): (n: Net)
    ensures NetWf(n) && n.sockets == map[]
  {
    Net(Initial(), map[])
  }

  /** `on_connect`: initialise the TCP handle, then submit the connect. A failed
      initialisation never reaches the connect; either failure destroys the request. */
  function OnConnect(n: Net, init: int, connect: int, impl: SocketImpl): (r: Net)
    ensures r.sockets == n.sockets && r.loop.nextCall == n.loop.nextCall + 1
    ensures init >= 0 && connect >= 0 ==> r.loop.pending == n.loop.pending[n.loop.nextCall := ConnectRequest(impl)]
    ensures init >= 0 && connect >= 0 ==> r.loop.trace == n.loop.trace
    ensures init < 0 ==> r.loop == Now(n.loop, Failure(UvError(init)))
    ensures init >= 0 && connect < 0 ==> r.loop == Now(n.loop, Failure(UvError(connect)))
  {
    if init < 0 then
      Net(Now(n.loop, Failure(UvError(init))), n.sockets)
    else if connect < 0 then
      Net(Now(n.loop, Failure(UvError(connect))), n.sockets)
    else
      Net(Submit(n.loop, ConnectRequest(impl)), n.sockets)
  }

  /** A failed handle initialisation makes the connect status irrelevant: the connect is never attempted. */
  lemma FailedInitSkipsConnect(n: Net, init: int, connect1: int, connect2: int, impl: SocketImpl)
    requires init < 0
    ensures OnConnect(n, init, connect1, impl) == OnConnect(n, init, connect2, impl)
  {
  }

  /**
   `connect_ipv4` / `connect_ipv6`: parse the address, then hand over to `on_connect`.
   `parse` is the status of uv_ip4_addr or uv_ip6_addr, the only place the two differ.
   */
  function Connect(n: Net, parse: int, init: int, connect: int, impl: SocketImpl): (r: Net)
    ensures parse < 0 ==> r == Net(Now(n.loop, Failure(UvError(parse))), n.sockets)
    ensures parse >= 0 ==> r == OnConnect(n, init, connect, impl)
  {
    if parse < 0 then Net(Now(n.loop, Failure(UvError(parse))), n.sockets)
    else OnConnect(n, init, connect, impl)
  }

  /** A failed address parse reports failure and never calls `on_connect`: its inputs play no part. */
  lemma FailedParseSkipsOnConnect(n: Net, parse: int, init1: int, connect1: int, init2: int, connect2: int, impl: SocketImpl)
    requires parse < 0
    ensures Connect(n, parse, init1, connect1, impl) == Connect(n, parse, init2, connect2, impl)
    ensures Connect(n, parse, init1, connect1, impl).loop.pending == n.loop.pending
  {
  }

  /**
   `on_connection`: the connect request's completion. A negative status fires only the
   failure callback and the socket impl dies with the request; otherwise the impl moves
   out of the request into a new socket, which the success callback receives.
   */
  function OnConnection(n: Net, call: CallId, status: int): (r: Net)
    requires call in n.loop.pending && n.loop.pending[call].ConnectRequest?
    ensures r.loop == Complete(n.loop, call, StatusCallback(status, NewSocket(call)))
    ensures status < 0 ==> r.sockets == n.sockets
    ensures status >= 0 ==> r.sockets == n.sockets[call := Socket(true, n.loop.pending[call].impl.keepAlive)]
  {
    var impl := n.loop.pending[call].impl;
    if status < 0 then
      Net(Complete(n.loop, call, Failure(UvError(status))), n.sockets)
    else
      Net(Complete(n.loop, call, Success(NewSocket(call))), n.sockets[call := Socket(true, impl.keepAlive)])
  }

  /**
   `write`: pin the caller's bytes into a write request and submit it. A failed submission
   fires the failure callback at once and destroys the request with its pin; otherwise the
   loop owns the request, pin included, and no callback has fired yet.
   */
  function Write(n: Net, sock: CallId, data: Bytes, offset: int, length: int, submit: int): (r: Net)
    requires sock in n.sockets
    requires IsInt32(offset) && IsInt32(length) && 0 <= offset && 0 <= length && offset + length <= |data|
    ensures r.sockets == n.sockets
    ensures submit < 0 ==> r.loop == Now(n.loop, Failure(UvError(submit)))
    ensures submit >= 0 ==> r.loop.trace == n.loop.trace
    ensures submit >= 0 ==> r.loop.pending == n.loop.pending[n.loop.nextCall := WriteRequest(sock, data[offset..offset + length])]
  {
    if submit < 0 then
      Net(Now(n.loop, Failure(UvError(submit))), n.sockets)
    else
      Net(Submit(n.loop, WriteRequest(sock, data[offset..offset + length])), n.sockets)
  }

  /** `WriteRequest::callback`: take the request back, fire failure for a negative status and success otherwise, free it. */
  function OnWrite(n: Net, call: CallId, status: int): (r: Net)
    requires call in n.loop.pending && n.loop.pending[call].WriteRequest?
    ensures r.sockets == n.sockets
    ensures r.loop == Complete(n.loop, call, StatusCallback(status, Unit))
  {
    Net(Complete(n.loop, call, StatusCallback(status, Unit)), n.sockets)
  }

  /** `sock` with its TCP handle closed. */
  function Closed(sockets: map<CallId, Socket>, sock: CallId): (r: map<CallId, Socket>)
    requires sock in sockets
    ensures r.Keys == sockets.Keys && !r[sock].open && r[sock].keepAlive == sockets[sock].keepAlive
    ensures forall s :: s in sockets && s != sock ==> r[s] == sockets[s]
  {
    sockets[sock := sockets[sock].(open := false)]
  }

  /**
   `close`: submit a shutdown of the outgoing direction. If submission fails, the TCP
   handle is closed at once and then the failure is reported; otherwise the loop owns the
   shutdown request and the handle stays open for now.
   */
  function Close(n: Net, sock: CallId, submit: int): (r: Net)
    requires sock in n.sockets
    ensures submit < 0 ==> r.loop == Now(CloseHandle(n.loop, sock), Failure(UvError(submit)))
    ensures submit < 0 ==> r.sockets == Closed(n.sockets, sock)
    ensures submit >= 0 ==> r.sockets == n.sockets && r.loop == Submit(n.loop, ShutdownRequest(sock))
  {
    if submit < 0 then
      Net(Now(CloseHandle(n.loop, sock), Failure(UvError(submit))), Closed(n.sockets, sock))
    else
      Net(Submit(n.loop, ShutdownRequest(sock)), n.sockets)
  }

  /**
   `ShutdownRequest::callback`: a negative status fires only the failure callback and
   leaves the handle open; otherwise the handle is closed and then success is fired.
   */
  function OnShutdown(n: Net, call: CallId, status: int): (r: Net)
    requires call in n.loop.pending && n.loop.pending[call].ShutdownRequest?
    requires n.loop.pending[call].sock in n.sockets
    ensures var sock := n.loop.pending[call].sock;
            && (status < 0 ==> r.sockets == n.sockets && r.loop == Complete(n.loop, call, Failure(UvError(status))))
            && (status >= 0 ==> r.sockets == Closed(n.sockets, sock)
                                && r.loop == Complete(CloseHandle(n.loop, sock), call, Success(Unit)))
  {
    var sock := n.loop.pending[call].sock;
    if status < 0 then
      Net(Complete(n.loop, call, Failure(UvError(status))), n.sockets)
    else
      Net(Complete(CloseHandle(n.loop, sock), call, Success(Unit)), Closed(n.sockets, sock))
  }

  /** Nothing stops a second `close` on a socket whose handle is already closed: a failed
      shutdown submission then closes the handle again. */
  lemma CloseOnClosedHandleClosesAgain(n: Net, sock: CallId, submit: int)
    requires sock in n.sockets && !n.sockets[sock].open && submit < 0
    ensures var r := Close(n, sock, submit);
            && |r.loop.trace| == |n.loop.trace| + 2
            && r.loop.trace[|n.loop.trace|] == HandleClosed(sock)
  {
  }

  /** The three ways a `close` can end, as the events it leaves at the end of the trace. */
  lemma CloseOutcomes(n: Net, sock: CallId, submit: int, status: int)
    requires NetWf(n) && sock in n.sockets
    ensures submit < 0 ==>
              var r := Close(n, sock, submit);
              && r.loop.trace == n.loop.trace + [HandleClosed(sock), Fired(n.loop.nextCall, Failure(UvError(submit)))]
              && !r.sockets[sock].open
    ensures submit >= 0 && status >= 0 ==>
              var r := OnShutdown(Close(n, sock, submit), n.loop.nextCall, status);
              && r.loop.trace == n.loop.trace + [HandleClosed(sock), Fired(n.loop.nextCall, Success(Unit))]
              && !r.sockets[sock].open
    ensures submit >= 0 && status < 0 ==>
              var r := OnShutdown(Close(n, sock, submit), n.loop.nextCall, status);
              && r.loop.trace == n.loop.trace + [Fired(n.loop.nextCall, Failure(UvError(status)))]
              && r.sockets == n.sockets
  {
    if submit < 0 {
      assert n.loop.trace + [HandleClosed(sock)] + [Fired(n.loop.nextCall, Failure(UvError(submit)))]
          == n.loop.trace + [HandleClosed(sock), Fired(n.loop.nextCall, Failure(UvError(submit)))];
    } else if status >= 0 {
      assert n.loop.trace + [HandleClosed(sock)] + [Fired(n.loop.nextCall, Success(Unit))]
          == n.loop.trace + [HandleClosed(sock), Fired(n.loop.nextCall, Success(Unit))];
    }
  }

  /** The arguments of one uv_tcp_keepalive call on socket `sock`'s handle; `delay` is in seconds. */
  datatype KeepAliveCall = KeepAliveCall(sock: CallId, enable: bool, delay: int)

  /** A keep-alive setting: the libuv call it makes and the state afterwards. */
  datatype KeepAliveStep = KeepAliveStep(call: KeepAliveCall, net: Net)

  /** libuv's condition on uv_tcp_keepalive: enabling needs a delay of at least one second;
      disabling ignores the delay. A call that breaks it fails with UV_EINVAL. */
  predicate DelayAccepted(call: KeepAliveCall) {
    !call.enable || call.delay >= 1
  }

  /** The state after `setKeepAlive` sees libuv's `status`: on success store `keepAliveValue` or 0, fire success. */
  function KeepAliveStored(n: Net, sock: CallId, enable: bool, status: int, keepAliveValue: int): Net
    requires sock in n.sockets
  {
    if status < 0 then
      Net(Now(n.loop, Failure(UvError(status))), n.sockets)
    else
      Net(Now(n.loop, Success(Unit)), n.sockets[sock := n.sockets[sock].(keepAlive := if enable then keepAliveValue else 0)])
  }

  /**
   `setKeepAlive`, with the delay evidently intended: KEEP_ALIVE_VALUE (`keepAliveValue`,
   defined outside this model). On success it stores KEEP_ALIVE_VALUE or 0; on failure it
   changes nothing.
   */
  function SetKeepAlive(n: Net, sock: CallId, enable: bool, status: int, keepAliveValue: int): (r: KeepAliveStep)
    requires sock in n.sockets
    ensures r.call.sock == sock && r.call.enable == enable && r.call.delay == keepAliveValue
    ensures keepAliveValue >= 1 ==> DelayAccepted(r.call)
    ensures r.net.loop == Now(n.loop, StatusCallback(status, Unit))
    ensures r.net.sockets.Keys == n.sockets.Keys
    ensures forall s :: s in n.sockets && s != sock ==> r.net.sockets[s] == n.sockets[s]
    ensures status < 0 ==> r.net.sockets == n.sockets
    ensures status >= 0 ==> r.net.sockets[sock] == n.sockets[sock].(keepAlive := if enable then keepAliveValue else 0)
  {
    KeepAliveStep(KeepAliveCall(sock, enable, keepAliveValue), KeepAliveStored(n, sock, enable, status, keepAliveValue))
  }

  /** `setKeepAlive` as written: the delay passed to libuv is the value stored by the previous
      setting, which is 0 after keep-alive was switched off. The state change is the same. */
  function SetKeepAliveAsWritten(n: Net, sock: CallId, enable: bool, status: int, keepAliveValue: int): (r: KeepAliveStep)
    requires sock in n.sockets
    ensures r.call.sock == sock && r.call.enable == enable && r.call.delay == n.sockets[sock].keepAlive
    ensures r.net == SetKeepAlive(n, sock, enable, status, keepAliveValue).net
  {
    KeepAliveStep(KeepAliveCall(sock, enable, n.sockets[sock].keepAlive), KeepAliveStored(n, sock, enable, status, keepAliveValue))
  }

  /** As written, switching keep-alive back on after a successful switch-off asks libuv for a
      zero delay, which libuv refuses. */
  lemma ReenableAfterDisablePassesZeroDelay(n: Net, sock: CallId, offStatus: int, onStatus: int, keepAliveValue: int)
    requires sock in n.sockets && offStatus >= 0
    ensures var off := SetKeepAliveAsWritten(n, sock, false, offStatus, keepAliveValue).net;
            sock in off.sockets
            && SetKeepAliveAsWritten(off, sock, true, onStatus, keepAliveValue).call.delay == 0
            && !DelayAccepted(SetKeepAliveAsWritten(off, sock, true, onStatus, keepAliveValue).call)
  {
  }

  /** With the intended delay, switching keep-alive back on after a successful switch-off asks
      libuv for KEEP_ALIVE_VALUE seconds, which it accepts whenever that value is positive. */
  lemma ReenableAfterDisableAccepted(n: Net, sock: CallId, offStatus: int, onStatus: int, keepAliveValue: int)
    requires sock in n.sockets && offStatus >= 0 && keepAliveValue >= 1
    ensures var off := SetKeepAlive(n, sock, false, offStatus, keepAliveValue).net;
            sock in off.sockets
            && off.sockets[sock].keepAlive == 0
            && DelayAccepted(SetKeepAlive(off, sock, true, onStatus, keepAliveValue).call)
  {
  }

  /** `getKeepAlive`: succeeds with whether the stored value is positive. */
  function GetKeepAlive(n: Net, sock: CallId): (r: Net)
    requires sock in n.sockets
    ensures r.sockets == n.sockets && r.loop.pending == n.loop.pending && r.loop.nextCall == n.loop.nextCall + 1
    ensures r.loop.trace == n.loop.trace + [Fired(n.loop.nextCall, Success(Flag(n.sockets[sock].keepAlive > 0)))]
  {
    Net(Now(n.loop, Success(Flag(n.sockets[sock].keepAlive > 0))), n.sockets)
  }

  /** The callback the last call fired. */
  function LastCallback(n: Net): Callback
    requires |n.loop.trace| > 0 && n.loop.trace[|n.loop.trace| - 1].Fired?
  {
    n.loop.trace[|n.loop.trace| - 1].callback
  }

  /** A successful `setKeepAlive(b)` followed by `getKeepAlive` reports `b`, as long as KEEP_ALIVE_VALUE is positive. */
  lemma KeepAliveRoundTrip(n: Net, sock: CallId, enable: bool, status: int, keepAliveValue: int)
    requires sock in n.sockets && status >= 0 && keepAliveValue > 0
    ensures LastCallback(GetKeepAlive(SetKeepAlive(n, sock, enable, status, keepAliveValue).net, sock)) == Success(Flag(enable))
  {
  }

  /** A failed `setKeepAlive` leaves `getKeepAlive`'s answer as it was. */
  lemma FailedSetKeepAliveKeepsAnswer(n: Net, sock: CallId, enable: bool, status: int, keepAliveValue: int)
    requires sock in n.sockets && status < 0
    ensures LastCallback(GetKeepAlive(SetKeepAlive(n, sock, enable, status, keepAliveValue).net, sock))
            == LastCallback(GetKeepAlive(n, sock))
  {
  }

  datatype BufferOption = SendBuffer | RecvBuffer

  /** The handle argument of a uv_send_buffer_size / uv_recv_buffer_size call: the socket's TCP
      handle, or the address of the local `size` variable. */
  datatype HandleArg = TcpHandleOf(sock: CallId) | SizeVariable

  /** One buffer-size call: which option, on which handle, with what value in `size`. */
  datatype BufferSizeCall = BufferSizeCall(option: BufferOption, handle: HandleArg, value: int)

  /** A buffer-size operation: the libuv call it makes and the state afterwards. */
  datatype BufferSizeStep = BufferSizeStep(call: BufferSizeCall, net: Net)

  /** `setSendBufferSize` / `setRecvBufferSize`: ask libuv to set the option on the socket's
      handle; on success echo the requested size. */
  function SetBufferSize(n: Net, sock: CallId, option: BufferOption, size: int, status: int): (r: BufferSizeStep)
    requires sock in n.sockets
    ensures r.call == BufferSizeCall(option, TcpHandleOf(sock), size)
    ensures r.net.sockets == n.sockets
    ensures r.net.loop == Now(n.loop, StatusCallback(status, Size(size)))
  {
    BufferSizeStep(BufferSizeCall(option, TcpHandleOf(sock), size), Net(Now(n.loop, StatusCallback(status, Size(size))), n.sockets))
  }

  /** `getRecvBufferSize`, and `getSendBufferSize` as evidently intended: query the option on the
      socket's handle (`size` starts at 0) and on success report the value libuv wrote back. */
  function GetBufferSize(n: Net, sock: CallId, option: BufferOption, status: int, reported: int): (r: BufferSizeStep)
    requires sock in n.sockets
    ensures r.call == BufferSizeCall(option, TcpHandleOf(sock), 0)
    ensures r.net.sockets == n.sockets
    ensures r.net.loop == Now(n.loop, StatusCallback(status, Size(reported)))
  {
    BufferSizeStep(BufferSizeCall(option, TcpHandleOf(sock), 0), Net(Now(n.loop, StatusCallback(status, Size(reported))), n.sockets))
  }

  /** `getSendBufferSize` as written: the comma inside the cast makes the handle argument the address of `size`. */
  function GetSendBufferSizeAsWritten(n: Net, sock: CallId, status: int, reported: int): (r: BufferSizeStep)
    requires sock in n.sockets
    ensures r.call.option == SendBuffer && r.call.handle == SizeVariable
    ensures r.net.sockets == n.sockets
  {
    BufferSizeStep(BufferSizeCall(SendBuffer, SizeVariable, 0), Net(Now(n.loop, StatusCallback(status, Size(reported))), n.sockets))
  }

  /** The as-written send-buffer getter queries something other than the socket, unlike the
      receive-buffer getter and both setters. */
  lemma SendBufferGetterMissesSocket(n: Net, sock: CallId, status: int, reported: int, size: int)
    requires sock in n.sockets
    ensures GetSendBufferSizeAsWritten(n, sock, status, reported).call.handle != TcpHandleOf(sock)
    ensures GetBufferSize(n, sock, RecvBuffer, status, reported).call.handle == TcpHandleOf(sock)
    ensures SetBufferSize(n, sock, SendBuffer, size, status).call.handle == TcpHandleOf(sock)
    ensures GetBufferSize(n, sock, SendBuffer, status, reported).call.handle == TcpHandleOf(sock)
  {
  }

  /** `flush`: always succeeds and changes nothing. */
  function Flush(n: Net, sock: CallId): (r: Net)
    requires sock in n.sockets
    ensures r.sockets == n.sockets && r.loop.pending == n.loop.pending && r.loop.nextCall == n.loop.nextCall + 1
    ensures r.loop.trace == n.loop.trace + [Fired(n.loop.nextCall, Success(Unit))]
  {
    Net(Now(n.loop, Success(Unit)), n.sockets)
  }
}
