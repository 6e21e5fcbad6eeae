/**
 Runs of socket calls and completion callbacks in any interleaving. Every step keeps
 `NetWf`, so at any point each call made has fired at most one callback, a completed call
 has left the loop for good, and once the loop is idle every call has fired exactly one.
 */
module TcpRuns {
  import opened Base
  import opened AsyncRequests
  import opened TcpSocket

  /** One step: an API call with libuv's answers, or a completion callback the loop delivers. */
  datatype NetCall =
    | ConnectCall(parse: int, init: int, connect: int, impl: SocketImpl)
    | ConnectionDone(call: CallId, status: int)
    | WriteCall(sock: CallId, data: Bytes, offset: int, length: int, submit: int)
    | WriteDone(call: CallId, status: int)
    | CloseCall(sock: CallId, submit: int)
    | ShutdownDone(call: CallId, status: int)
    | SetKeepAliveCall(sock: CallId, enable: bool, status: int, keepAliveValue: int)
    | GetKeepAliveCall(sock: CallId)
    | SetBufferSizeCall(sock: CallId, option: BufferOption, size: int, status: int)
    | GetBufferSizeCall(sock: CallId, option: BufferOption, status: int, reported: int)
    | FlushCall(sock: CallId)
  {
    /** The completion callbacks, as opposed to calls the program makes. */
    predicate IsCompletion() {
      ConnectionDone? || WriteDone? || ShutdownDone?
    }
  }

  /** The step's precondition: API calls name a socket that exists, completions a request the loop owns. */
  predicate Enabled(n: Net, c: NetCall) {
    match c
    case ConnectCall(_, _, _, _) => true
    case ConnectionDone(call, _) => call in n.loop.pending && n.loop.pending[call].ConnectRequest?
    case WriteCall(sock, data, offset, length, _) =>
      sock in n.sockets && IsInt32(offset) && IsInt32(length) && 0 <= offset && 0 <= length && offset + length <= |data|
    case WriteDone(call, _) => call in n.loop.pending && n.loop.pending[call].WriteRequest?
    case CloseCall(sock, _) => sock in n.sockets
    case ShutdownDone(call, _) =>
      call in n.loop.pending && n.loop.pending[call].ShutdownRequest? && n.loop.pending[call].sock in n.sockets
    case SetKeepAliveCall(sock, _, _, _) => sock in n.sockets
    case GetKeepAliveCall(sock) => sock in n.sockets
    case SetBufferSizeCall(sock, _, _, _) => sock in n.sockets
    case GetBufferSizeCall(sock, _, _, _) => sock in n.sockets
    case FlushCall(sock) => sock in n.sockets
  }

  function Next(n: Net, c: NetCall): Net
    requires Enabled(n, c)
  {
    match c
    case ConnectCall(parse, init, connect, impl) => Connect(n, parse, init, connect, impl)
    case ConnectionDone(call, status) => OnConnection(n, call, status)
    case WriteCall(sock, data, offset, length, submit) => Write(n, sock, data, offset, length, submit)
    case WriteDone(call, status) => OnWrite(n, call, status)
    case CloseCall(sock, submit) => Close(n, sock, submit)
    case ShutdownDone(call, status) => OnShutdown(n, call, status)
    case SetKeepAliveCall(sock, enable, status, value) => SetKeepAlive(n, sock, enable, status, value).net
    case GetKeepAliveCall(sock) => GetKeepAlive(n, sock)
    case SetBufferSizeCall(sock, option, size, status) => SetBufferSize(n, sock, option, size, status).net
    case GetBufferSizeCall(sock, option, status, reported) => GetBufferSize(n, sock, option, status, reported).net
    case FlushCall(sock) => Flush(n, sock)
  }

  /** A step completing at once keeps `NetWf` and fires exactly one callback, for the new call. */
  lemma NowStep(n: Net, m: Net, cb: Callback)
    requires NetWf(n) && m.loop == Now(n.loop, cb) && m.sockets.Keys == n.sockets.Keys
    ensures NetWf(m) && n.loop.trace <= m.loop.trace
    ensures FiredCount(m.loop.trace, n.loop.nextCall) == 1 && n.loop.nextCall !in m.loop.pending
  {
    NowKeepsWf(n.loop, cb);
  }

  /** A step handing a request to the loop keeps `NetWf`; the new call is pending and has fired nothing. */
  lemma SubmitStep(n: Net, m: Net, request: Request)
    requires NetWf(n) && m.loop == Submit(n.loop, request) && m.sockets == n.sockets
    requires !request.ConnectRequest? ==> request.sock in n.sockets
    ensures NetWf(m) && n.loop.trace <= m.loop.trace
    ensures n.loop.nextCall in m.loop.pending && FiredCount(m.loop.trace, n.loop.nextCall) == 0
  {
    SubmitKeepsWf(n.loop, request);
  }

  /** A completion keeps `NetWf`, whether or not it closed a handle first and whether or not it added the new socket. */
  lemma CompleteStep(n: Net, l0: Loop<Request>, m: Net, call: CallId, cb: Callback)
    requires NetWf(n) && Wf(l0) && n.loop.trace <= l0.trace
    requires l0.pending == n.loop.pending && l0.nextCall == n.loop.nextCall && call in l0.pending
    requires m.loop == Complete(l0, call, cb)
    requires n.sockets.Keys <= m.sockets.Keys <= n.sockets.Keys + {call}
    ensures NetWf(m) && n.loop.trace <= m.loop.trace
    ensures call !in m.loop.pending && FiredCount(m.loop.trace, call) == 1
  {
    CompleteKeepsWf(l0, call, cb);
  }

  /** The exactly-once bookkeeping of one step: the trace only grows, an API call takes one new
      call id that has then either fired one callback or is pending with none, and a completion
      fires one callback for its request and takes it out of the loop. */
  ghost predicate Accounted(n: Net, c: NetCall, m: Net) {
    && n.loop.trace <= m.loop.trace
    && (!c.IsCompletion() ==>
          && m.loop.nextCall == n.loop.nextCall + 1
          && FiredCount(m.loop.trace, n.loop.nextCall) == if n.loop.nextCall in m.loop.pending then 0 else 1)
    && (c.IsCompletion() ==>
          && m.loop.nextCall == n.loop.nextCall
          && c.call !in m.loop.pending
          && FiredCount(m.loop.trace, c.call) == 1)
  }

  lemma ConnectKeepsWf(n: Net, c: NetCall)
    requires NetWf(n) && c.ConnectCall? && Enabled(n, c)
    ensures NetWf(Next(n, c)) && Accounted(n, c, Next(n, c))
  {
    var m := Next(n, c);
    if c.parse < 0 {
      NowStep(n, m, Failure(UvError(c.parse)));
    } else if c.init < 0 {
      NowStep(n, m, Failure(UvError(c.init)));
    } else if c.connect < 0 {
      NowStep(n, m, Failure(UvError(c.connect)));
    } else {
      SubmitStep(n, m, ConnectRequest(c.impl));
    }
  }

  lemma WriteKeepsWf(n: Net, c: NetCall)
    requires NetWf(n) && c.WriteCall? && Enabled(n, c)
    ensures NetWf(Next(n, c)) && Accounted(n, c, Next(n, c))
  {
    var m := Next(n, c);
    if c.submit < 0 {
      NowStep(n, m, Failure(UvError(c.submit)));
    } else {
      SubmitStep(n, m, WriteRequest(c.sock, c.data[c.offset..c.offset + c.length]));
    }
  }

  lemma CloseKeepsWf(n: Net, c: NetCall)
    requires NetWf(n) && c.CloseCall? && Enabled(n, c)
    ensures NetWf(Next(n, c)) && Accounted(n, c, Next(n, c))
  {
    var m := Next(n, c);
    if c.submit < 0 {
      var closed := Net(CloseHandle(n.loop, c.sock), Closed(n.sockets, c.sock));
      CloseHandleKeepsWf(n.loop, c.sock);
      NowStep(closed, m, Failure(UvError(c.submit)));
    } else {
      SubmitStep(n, m, ShutdownRequest(c.sock));
    }
  }

  lemma CompletionKeepsWf(n: Net, c: NetCall)
    requires NetWf(n) && c.IsCompletion() && Enabled(n, c)
    ensures NetWf(Next(n, c)) && Accounted(n, c, Next(n, c))
  {
    var m := Next(n, c);
    match c
    case ConnectionDone(call, status) =>
      CompleteStep(n, n.loop, m, call, StatusCallback(status, NewSocket(call)));
    case WriteDone(call, status) =>
      CompleteStep(n, n.loop, m, call, StatusCallback(status, Unit));
    case ShutdownDone(call, status) =>
      if status < 0 {
        CompleteStep(n, n.loop, m, call, Failure(UvError(status)));
      } else {
        var sock := n.loop.pending[call].sock;
        CloseHandleKeepsWf(n.loop, sock);
        CompleteStep(n, CloseHandle(n.loop, sock), m, call, Success(Unit));
      }
  }

  lemma TunableKeepsWf(n: Net, c: NetCall)
    requires NetWf(n) && Enabled(n, c)
    requires c.SetKeepAliveCall? || c.GetKeepAliveCall? || c.SetBufferSizeCall? || c.GetBufferSizeCall? || c.FlushCall?
    ensures NetWf(Next(n, c)) && Accounted(n, c, Next(n, c))
  {
    var m := Next(n, c);
    match c
    case SetKeepAliveCall(sock, enable, status, value) =>
      NowStep(n, m, StatusCallback(status, Unit));
    case GetKeepAliveCall(sock) =>
      NowStep(n, m, Success(Flag(n.sockets[sock].keepAlive > 0)));
    case SetBufferSizeCall(sock, option, size, status) =>
      NowStep(n, m, StatusCallback(status, Size(size)));
    case GetBufferSizeCall(sock, option, status, reported) =>
      NowStep(n, m, StatusCallback(status, Size(reported)));
    case FlushCall(sock) =>
      NowStep(n, m, Success(Unit));
  }

  /** Every step keeps `NetWf` and does its exactly-once bookkeeping. */
  lemma NextKeepsWf(n: Net, c: NetCall)
    requires NetWf(n) && Enabled(n, c)
    ensures NetWf(Next(n, c)) && Accounted(n, c, Next(n, c))
  {
    if c.ConnectCall? {
      ConnectKeepsWf(n, c);
    } else if c.WriteCall? {
      WriteKeepsWf(n, c);
    } else if c.CloseCall? {
      CloseKeepsWf(n, c);
    } else if c.IsCompletion() {
      CompletionKeepsWf(n, c);
    } else {
      TunableKeepsWf(n, c);
    }
  }

  /** Every step is enabled when its turn comes. */
  predicate RunsFrom(n: Net, calls: seq<NetCall>)
    decreases |calls|
  {
    |calls| == 0 || (Enabled(n, calls[0]) && RunsFrom(Next(n, calls[0]), calls[1..]))
  }

  function Final(n: Net, calls: seq<NetCall>): Net
    requires RunsFrom(n, calls)
    decreases |calls|
  {
    if |calls| == 0 then n else Final(Next(n, calls[0]), calls[1..])
  }

  /** Every run keeps `NetWf` and only extends the trace. */
  lemma {:induction false} RunKeepsWf(n: Net, calls: seq<NetCall>)
    requires NetWf(n) && RunsFrom(n, calls)
    ensures NetWf(Final(n, calls))
    ensures n.loop.trace <= Final(n, calls).loop.trace
    decreases |calls|
  {
    if |calls| > 0 {
      NextKeepsWf(n, calls[0]);
      RunKeepsWf(Next(n, calls[0]), calls[1..]);
    }
  }

  /** A call that has fired its callback stays out of the loop and never fires another, whatever follows. */
  lemma CompletedStaysCompleted(n: Net, calls: seq<NetCall>, call: CallId)
    requires NetWf(n) && RunsFrom(n, calls) && FiredCount(n.loop.trace, call) > 0
    ensures call !in Final(n, calls).loop.pending
    ensures FiredCount(Final(n, calls).loop.trace, call) == 1
  {
    RunKeepsWf(n, calls);
    FiredCountGrows(n.loop.trace, Final(n, calls).loop.trace, call);
  }

  /**
   Exactly-once completion: after any run from a fresh loop, no call has fired twice; and
   once nothing is pending, each of the calls made has fired exactly one callback, so the
   successes and failures together number the calls.
   */
  lemma ExactlyOnce(calls: seq<NetCall>)
    requires RunsFrom(InitialNet(), calls)
    ensures var f := Final(InitialNet(), calls);
            forall c: CallId :: FiredCount(f.loop.trace, c) <= 1
    ensures var f := Final(InitialNet(), calls);
            f.loop.pending == map[] ==>
              && CallbackCount(f.loop.trace) == f.loop.nextCall
              && forall c: CallId :: c < f.loop.nextCall ==> FiredCount(f.loop.trace, c) == 1
  {
    RunKeepsWf(InitialNet(), calls);
    var f := Final(InitialNet(), calls);
    if f.loop.pending == map[] {
      QuiescentLoopFiredEachCallOnce(f.loop);
    }
  }
}
