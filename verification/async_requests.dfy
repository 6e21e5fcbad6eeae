/**
 The lifecycle every asynchronous libuv socket operation follows.

 Each API call owns one callback pair, identified here by a call id. The call either
 fails at submission, firing its failure callback at once and destroying its request, or
 hands its request to the loop, where it sits in `pending` until its completion callback
 takes it back out, fires exactly one of its callbacks and frees it. `trace` records,
 in order, the callbacks fired and the handles closed.
 */
module AsyncRequests {

  type CallId = nat

  /** The error a failure callback receives: the negative libuv status it stems from
      (the source maps it through uv_err_to_enum, which is not part of this model). */
  datatype UvError = UvError(status: int)

  /** What a success callback receives. */
  datatype Value = Unit | Flag(on: bool) | Size(bytes: int) | NewSocket(sock: CallId)

  datatype Callback = Success(value: Value) | Failure(error: UvError)

  /** An observable effect: a callback fired for a call, or a uv_close of a socket's TCP handle. */
  datatype Event = Fired(call: CallId, callback: Callback) | HandleClosed(sock: CallId)

  /** The loop: requests it owns, the next call id, and everything observed so far. */
  datatype Loop<R> = Loop(pending: map<CallId, R>, nextCall: CallId, trace: seq<Event>)

  /** The callback for a libuv status: failure when negative, success with `value` otherwise. */
  function StatusCallback(status: int, value: Value): (cb: Callback)
    ensures cb.Failure? <==> status < 0
    ensures cb.Failure? ==> cb.error == UvError(status)
    ensures cb.Success? ==> cb.value == value
  {
    if status < 0 then Failure(UvError(status)) else Success(value)
  }

  /** How many callbacks `trace` fired for `call`. */
  function FiredCount(trace: seq<Event>, call: CallId): nat
    decreases |trace|
  {
    if |trace| == 0 then 0
    else
      var last := trace[|trace| - 1];
      FiredCount(trace[..|trace| - 1], call) + if last.Fired? && last.call == call then 1 else 0
  }

  /** How many callbacks `trace` fired in all. */
  function CallbackCount(trace: seq<Event>): nat
    decreases |trace|
  {
    if |trace| == 0 then 0
    else CallbackCount(trace[..|trace| - 1]) + if trace[|trace| - 1].Fired? then 1 else 0
  }

  /**
   The exactly-once invariant: a call still pending has fired nothing, every other call
   made so far has fired exactly one callback, no call has been issued beyond `nextCall`,
   and so the callbacks fired plus the requests pending account for every call made.
   */
  ghost predicate Wf<R>(l: Loop<R>) {
    && (forall c :: c in l.pending ==> c < l.nextCall)
    && (forall c: CallId {:trigger FiredCount(l.trace, c)} ::
          FiredCount(l.trace, c) == if c < l.nextCall && c !in l.pending then 1 else 0)
    && CallbackCount(l.trace) + |l.pending| == l.nextCall
  }

  lemma AppendCounts(trace: seq<Event>, e: Event, call: CallId)
    ensures FiredCount(trace + [e], call) == FiredCount(trace, call) + if e.Fired? && e.call == call then 1 else 0
    ensures CallbackCount(trace + [e]) == CallbackCount(trace) + if e.Fired? then 1 else 0
  {
    assert (trace + [e])[..|trace|] == trace;
  }

  /** A loop with nothing submitted and nothing observed. */
  function Initial<R>(): (l: Loop<R>)
    ensures Wf(l) && l.pending == map[] && l.trace == []
  {
    Loop(map[], 0, [])
  }

  /** A call that completes at once: it takes the next id and fires `cb`; nothing goes to the loop. */
  function Now<R>(l: Loop<R>, cb: Callback): (r: Loop<R>)
    ensures r.pending == l.pending && r.nextCall == l.nextCall + 1
    ensures r.trace == l.trace + [Fired(l.nextCall, cb)]
  {
    Loop(l.pending, l.nextCall + 1, l.trace + [Fired(l.nextCall, cb)])
  }

  /** A call whose request the loop takes over: it takes the next id and fires nothing yet. */
  function Submit<R>(l: Loop<R>, request: R): (r: Loop<R>)
    ensures r.pending == l.pending[l.nextCall := request] && r.nextCall == l.nextCall + 1
    ensures r.trace == l.trace
  {
    Loop(l.pending[l.nextCall := request], l.nextCall + 1, l.trace)
  }

  /** The completion callback: take the request back from the loop, fire `cb`, free the request. */
  function Complete<R>(l: Loop<R>, call: CallId, cb: Callback): (r: Loop<R>)
    requires call in l.pending
    ensures call !in r.pending && r.pending == l.pending - {call} && r.nextCall == l.nextCall
    ensures r.trace == l.trace + [Fired(call, cb)]
  {
    Loop(l.pending - {call}, l.nextCall, l.trace + [Fired(call, cb)])
  }

  /** A uv_close of socket `sock`'s TCP handle. */
  function CloseHandle<R>(l: Loop<R>, sock: CallId): (r: Loop<R>)
    ensures r.pending == l.pending && r.nextCall == l.nextCall
    ensures r.trace == l.trace + [HandleClosed(sock)]
  {
    Loop(l.pending, l.nextCall, l.trace + [HandleClosed(sock)])
  }

  /** A call that completes at once fires exactly one callback, for itself, and leaves nothing pending. */
  lemma NowKeepsWf<R>(l: Loop<R>, cb: Callback)
    requires Wf(l)
    ensures Wf(Now(l, cb))
    ensures FiredCount(Now(l, cb).trace, l.nextCall) == 1 && l.nextCall !in Now(l, cb).pending
  {
    var r := Now(l, cb);
    forall c: CallId
      ensures FiredCount(r.trace, c) == if c < r.nextCall && c !in r.pending then 1 else 0
    {
      AppendCounts(l.trace, Fired(l.nextCall, cb), c);
    }
    AppendCounts(l.trace, Fired(l.nextCall, cb), 0);
  }

  /** A submitted call is pending and has fired nothing. */
  lemma SubmitKeepsWf<R>(l: Loop<R>, request: R)
    requires Wf(l)
    ensures Wf(Submit(l, request))
    ensures l.nextCall in Submit(l, request).pending && FiredCount(Submit(l, request).trace, l.nextCall) == 0
  {
    var r := Submit(l, request);
    assert l.nextCall !in l.pending;
    assert |r.pending| == |l.pending| + 1;
  }

  /** Completing a pending call fires exactly one callback for it and takes it out of the loop for good. */
  lemma CompleteKeepsWf<R>(l: Loop<R>, call: CallId, cb: Callback)
    requires Wf(l) && call in l.pending
    ensures Wf(Complete(l, call, cb))
    ensures FiredCount(Complete(l, call, cb).trace, call) == 1
  {
    var r := Complete(l, call, cb);
    forall c: CallId
      ensures FiredCount(r.trace, c) == if c < r.nextCall && c !in r.pending then 1 else 0
    {
      AppendCounts(l.trace, Fired(call, cb), c);
    }
    AppendCounts(l.trace, Fired(call, cb), 0);
    assert r.pending.Keys == l.pending.Keys - {call};
    assert |r.pending.Keys| == |l.pending.Keys| - 1;
  }

  /** Closing a handle fires no callback. */
  lemma CloseHandleKeepsWf<R>(l: Loop<R>, sock: CallId)
    requires Wf(l)
    ensures Wf(CloseHandle(l, sock))
  {
    var r := CloseHandle(l, sock);
    forall c: CallId
      ensures FiredCount(r.trace, c) == FiredCount(l.trace, c)
    {
      AppendCounts(l.trace, HandleClosed(sock), c);
    }
    AppendCounts(l.trace, HandleClosed(sock), 0);
  }

  /** Extending a trace never takes a callback back. */
  lemma {:induction false} FiredCountGrows(t: seq<Event>, u: seq<Event>, call: CallId)
    requires t <= u
    ensures FiredCount(t, call) <= FiredCount(u, call)
    decreases |u|
  {
    if |u| > |t| {
      var v := u[..|u| - 1];
      assert t <= v;
      FiredCountGrows(t, v, call);
      assert FiredCount(u, call) >= FiredCount(v, call);
    } else {
      assert t == u;
    }
  }

  /** A call that has fired a callback is no longer pending, so its completion callback cannot run again. */
  lemma NoSecondCompletion<R>(l: Loop<R>, call: CallId)
    requires Wf(l) && FiredCount(l.trace, call) > 0
    ensures call !in l.pending && call < l.nextCall && FiredCount(l.trace, call) == 1
  {
  }

  /** Once nothing is pending, every call made has fired exactly one callback, and there were as many callbacks as calls. */
  lemma QuiescentLoopFiredEachCallOnce<R>(l: Loop<R>)
    requires Wf(l) && l.pending == map[]
    ensures CallbackCount(l.trace) == l.nextCall
    ensures forall c: CallId :: c < l.nextCall ==> FiredCount(l.trace, c) == 1
  {
  }
}
