/**
 Sequences of calls on one SChannel session. The source keeps no record of whether the
 handshake has completed, yet `encode` reads the stream sizes the completing handshake
 stores. The lemmas here show that, among runs of well-formed calls, the sizes are
 known only after some `handshake` call saw SEC_E_OK, and that they are the ones it
 queried.
 */
module SessionRuns {
  import opened Base
  import opened Sspi
  import opened RecordFraming
  import opened SChannelSession

  /** One call on the session, carrying the provider's answers it will see. */
  datatype SessionCall =
    | StartCall(acquire: Status, first: IscReply)
    | HandshakeCall(input: Bytes, provider: Bytes -> IscReply, queried: StreamSizes)
    | EncodeCall(input: Bytes, offset: int, length: int, encrypt: Bytes -> EncryptReply)
    | DecodeCall(input: Bytes, offset: int, length: int, decrypt: Bytes -> DecryptReply)
    | CloseCall(control: Status, isc: IscReply)

  /** The call's precondition holds in session `s`. */
  predicate Enabled(s: Session, c: SessionCall) {
    match c
    case StartCall(_, _) => s.phase == Uninitialized
    case HandshakeCall(_, _, _) => s.phase == Negotiating
    case EncodeCall(input, offset, length, encrypt) =>
      && s.sizes.Some? && IsInt32(offset) && IsInt32(length) && 0 <= offset
      && offset + Use(s, length) <= |input|
      && Fits(s.sizes.value, Use(s, length))
      && var answer := encrypt(EncryptInput(s.sizes.value, input, offset, length));
         answer.status == SEC_E_OK ==> RespectsRegions(s.sizes.value, Use(s, length), answer)
    case DecodeCall(input, offset, length, _) =>
      && s.ctxt == Live && IsInt32(offset) && IsInt32(length)
      && 0 <= offset && 0 <= length && offset + length <= |input|
    case CloseCall(_, _) => s.cred == Live && s.ctxt == Live
  }

  /** The session after call `c`. */
  function Next(s: Session, c: SessionCall): Session
    requires Enabled(s, c)
  {
    match c
    case StartCall(acquire, first) => StartHandshake(s, acquire, first).next
    case HandshakeCall(input, provider, queried) => Handshake(s, input, provider, queried).next
    case EncodeCall(input, offset, length, encrypt) => Encode(s, input, offset, length, encrypt).next
    case DecodeCall(input, offset, length, decrypt) => Decode(s, input, offset, length, decrypt).next
    case CloseCall(control, isc) => Close(s, control, isc).next
  }

  /** A call that completes the handshake: `handshake` whose provider answers SEC_E_OK. */
  predicate CompletesHandshake(c: SessionCall) {
    c.HandshakeCall? && c.provider(c.input).status == SEC_E_OK
  }

  /** Every call in `calls` is enabled when its turn comes. */
  predicate RunsFrom(s: Session, calls: seq<SessionCall>)
    decreases |calls|
  {
    |calls| == 0 || (Enabled(s, calls[0]) && RunsFrom(Next(s, calls[0]), calls[1..]))
  }

  function Final(s: Session, calls: seq<SessionCall>): Session
    requires RunsFrom(s, calls)
    decreases |calls|
  {
    if |calls| == 0 then s else Final(Next(s, calls[0]), calls[1..])
  }

  /** One call changes the stream sizes only by completing the handshake, and then to what was queried. */
  lemma NextSizes(s: Session, c: SessionCall)
    requires Enabled(s, c)
    ensures Next(s, c).sizes == if CompletesHandshake(c) then Some(c.queried) else s.sizes
  {
  }

  /** One call keeps `Valid`. */
  lemma NextKeepsValid(s: Session, c: SessionCall)
    requires Valid(s) && Enabled(s, c)
    ensures Valid(Next(s, c))
  {
  }

  /** The stream sizes at the end of a run are the ones at its start, or the ones a completing handshake of the run queried. */
  lemma {:induction false} SizesComeFromCompletedHandshake(s: Session, calls: seq<SessionCall>)
    requires RunsFrom(s, calls)
    ensures Final(s, calls).sizes == s.sizes
            || exists i :: 0 <= i < |calls| && CompletesHandshake(calls[i]) && Final(s, calls).sizes == Some(calls[i].queried)
    decreases |calls|
  {
    if |calls| > 0 {
      var s1 := Next(s, calls[0]);
      NextSizes(s, calls[0]);
      SizesComeFromCompletedHandshake(s1, calls[1..]);
      assert Final(s, calls) == Final(s1, calls[1..]);
      if Final(s1, calls[1..]).sizes != s1.sizes {
        var j :| 0 <= j < |calls[1..]| && CompletesHandshake(calls[1..][j]) && Final(s1, calls[1..]).sizes == Some(calls[1..][j].queried);
        assert calls[j + 1] == calls[1..][j];
      } else if CompletesHandshake(calls[0]) {
        assert Final(s, calls).sizes == Some(calls[0].queried);
      }
    }
  }

  /** Every run of well-formed calls keeps `Valid`. */
  lemma {:induction false} RunKeepsValid(s: Session, calls: seq<SessionCall>)
    requires Valid(s) && RunsFrom(s, calls)
    ensures Valid(Final(s, calls))
    decreases |calls|
  {
    if |calls| > 0 {
      NextKeepsValid(s, calls[0]);
      RunKeepsValid(Next(s, calls[0]), calls[1..]);
    }
  }

  /** `encode` can be called on a session from `create` only after a `handshake` call saw SEC_E_OK. */
  lemma EncodeFollowsCompletedHandshake(host: string, calls: seq<SessionCall>, c: SessionCall)
    requires RunsFrom(Create(host), calls)
    requires c.EncodeCall? && Enabled(Final(Create(host), calls), c)
    ensures exists i :: 0 <= i < |calls| && CompletesHandshake(calls[i])
  {
    SizesComeFromCompletedHandshake(Create(host), calls);
  }
}
