/**
 The SChannel TLS client session (`SChannelContext`): the decision layer around the
 SSPI calls. Each operation takes the provider's answers as inputs and returns the
 next session together with the one callback it fires.

 The source keeps no explicit state; `Phase` is the model's account of where the
 session stands, so that contracts can say which calls are meaningful when.
 */
module SChannelSession {
  import opened Base
  import opened Sspi
  import opened RecordFraming

  datatype Phase = Uninitialized | Negotiating | Established | Failed | Closed

  /** The session: the host it was created for, its two provider handles and, once the
      handshake has completed, the stream sizes queried from the provider. */
  datatype Session = Session(
    host: string,
    phase: Phase,
    cred: HandleState,
    ctxt: HandleState,
    sizes: Option<StreamSizes>)

  /** The distinct failures the session reports, each with the text its failure callback receives. */
  datatype SessionError =
    | CredentialsNotAcquired
    | InitialTokenFailed
    | CredentialsRequested
    | TokenBufferExpected
    | EmptyTokenBuffer
    | PrincipalMismatch
    | ContextCreationFailed
    | EncryptionFailed
    | DecryptionFailed
    | ControlTokenFailed
    | UnexpectedCloseStatus
  {
    function Message(): string {
      match this
      case CredentialsNotAcquired => "Failed to aquire credentials"
      case InitialTokenFailed => "Failed to generate initial handshake"
      case CredentialsRequested => "Credentials requested"
      case TokenBufferExpected => "Expected buffer to be a token type"
      case EmptyTokenBuffer => "Token buffer contains no data"
      case PrincipalMismatch => "SNI or certificate check failed"
      case ContextCreationFailed => "Creating security context failed"
      case EncryptionFailed => "Failed to encrypt message"
      case DecryptionFailed => "Failed to decrypt message"
      case ControlTokenFailed => "Failed to apply control token"
      case UnexpectedCloseStatus => "Unexpected InitializeSecurityContext result"
    }

    predicate IsHandshakeError() {
      CredentialsRequested? || TokenBufferExpected? || EmptyTokenBuffer? || PrincipalMismatch? || ContextCreationFailed?
    }
  }

  /** Exactly one of the two callbacks, with its argument. */
  datatype Reply<T> = Success(value: T) | Failure(error: SessionError)

  /** The session after a call, and the callback the call fired. */
  datatype Step<T> = Step(next: Session, reply: Reply<T>)

  /** The arguments of `handshake`'s success callback: a code (0 done, 1 need more bytes,
      2 send this token) and the token, or null. */
  datatype HandshakeReply = HandshakeReply(code: nat, token: Option<Bytes>)

  /** The provider's answers to the DecryptMessage call: its status and the decrypted data buffer. */
  datatype DecryptReply = DecryptReply(status: Status, data: Bytes)

  /** A session fresh from `create`: nothing acquired, nothing negotiated. */
  function Create(host: string): (s: Session)
    ensures Valid(s) && s.host == host && s.phase == Uninitialized
  {
    Session(host, Uninitialized, Unset, Unset, None)
  }

  /** How phase, handles and stream sizes hang together in every session the operations produce. */
  ghost predicate Valid(s: Session) {
    && (s.phase == Uninitialized ==> s.cred == Unset && s.ctxt == Unset && s.sizes.None?)
    && (s.phase == Negotiating ==> s.cred == Live && s.ctxt == Live && s.sizes.None?)
    && (s.phase == Established ==> s.cred == Live && s.ctxt == Live && s.sizes.Some?)
    && (s.phase == Closed ==> s.cred == Live && s.ctxt == Live)
    && (s.sizes.Some? ==> s.cred == Live && s.ctxt == Live)
  }

  function Fail<T>(s: Session, e: SessionError): (r: Step<T>)
    ensures r.next == s.(phase := Failed) && r.reply == Failure(e)
  {
    Step(s.(phase := Failed), Failure(e))
  }

  /**
   `startHandshake`: acquire outbound credentials, then make the first
   InitializeSecurityContext call. Only SEC_I_CONTINUE_NEEDED from that call is
   success, and the token is exactly the bytes of its output buffer.
   */
  function StartHandshake(s: Session, acquire: Status, first: IscReply): (r: Step<Bytes>)
    requires s.phase == Uninitialized
    ensures r.next.host == s.host && r.next.sizes == s.sizes
    ensures r.reply.Success? <==> acquire == SEC_E_OK && first.status == SEC_I_CONTINUE_NEEDED
    ensures r.reply.Success? ==> r.reply.value == first.output.data && r.next.phase == Negotiating
    ensures acquire != SEC_E_OK ==> r.reply == Failure(CredentialsNotAcquired) && r.next.cred == s.cred && r.next.ctxt == s.ctxt
    ensures acquire == SEC_E_OK && first.status != SEC_I_CONTINUE_NEEDED ==> r.reply == Failure(InitialTokenFailed)
    ensures r.reply.Failure? ==> r.next.phase == Failed
    ensures acquire == SEC_E_OK ==> r.next.cred == Live
    ensures acquire == SEC_E_OK ==> r.next.ctxt == if IsSuccessClass(first.status) then Live else s.ctxt
  {
    if acquire != SEC_E_OK then
      Fail(s, CredentialsNotAcquired)
    else
      var acquired := s.(cred := Live);
      var created := if IsSuccessClass(first.status) then acquired.(ctxt := Live) else acquired;
      if first.status != SEC_I_CONTINUE_NEEDED then
        Fail(created, InitialTokenFailed)
      else
        Step(created.(phase := Negotiating), Success(first.output.data))
  }

  /** When credentials cannot be acquired, the context call's answer plays no part: it is never made. */
  lemma StartHandshakeStopsAtCredentials(s: Session, acquire: Status, first1: IscReply, first2: IscReply)
    requires s.phase == Uninitialized && acquire != SEC_E_OK
    ensures StartHandshake(s, acquire, first1) == StartHandshake(s, acquire, first2)
    ensures StartHandshake(s, acquire, first1).reply.Failure?
  {
  }

  /** Even SEC_E_OK from the first context call is a failure. */
  lemma StartHandshakeRejectsImmediateCompletion(s: Session, token: SecBuffer)
    requires s.phase == Uninitialized
    ensures StartHandshake(s, SEC_E_OK, IscReply(SEC_E_OK, token)).reply == Failure(InitialTokenFailed)
  {
  }

  /** The statuses `handshake` gives a case of its own. */
  predicate IsKnownHandshakeStatus(status: Status) {
    status in {SEC_E_OK, SEC_E_INCOMPLETE_MESSAGE, SEC_I_INCOMPLETE_CREDENTIALS, SEC_I_CONTINUE_NEEDED, SEC_E_WRONG_PRINCIPAL}
  }

  /**
   `handshake`: feed the peer's bytes `input` to InitializeSecurityContext and classify
   the answer. `provider` is the provider's answer as a function of the bytes it receives;
   `queried` is what QueryContextAttributes reports for the stream sizes.
   */
  function Handshake(s: Session, input: Bytes, provider: Bytes -> IscReply, queried: StreamSizes): (r: Step<HandshakeReply>)
    requires s.phase == Negotiating
    ensures r.next.host == s.host && r.next.cred == s.cred && r.next.ctxt == s.ctxt
    ensures r.reply == Success(HandshakeReply(0, None)) <==> provider(input).status == SEC_E_OK
    ensures r.next.sizes == if provider(input).status == SEC_E_OK then Some(queried) else s.sizes
    ensures r.reply == Success(HandshakeReply(1, None)) <==> provider(input).status == SEC_E_INCOMPLETE_MESSAGE
    ensures r.reply.Success? && r.reply.value.code == 2 <==>
              && provider(input).status == SEC_I_CONTINUE_NEEDED
              && provider(input).output.bufferType == SECBUFFER_TOKEN
              && |provider(input).output.data| > 0
    ensures r.reply.Success? ==> r.reply.value.code <= 2 && (r.reply.value.token.Some? <==> r.reply.value.code == 2)
    ensures r.reply.Success? && r.reply.value.token.Some? ==>
              r.reply.value.token.value == provider(input).output.data && |r.reply.value.token.value| > 0
    ensures r.reply == Failure(CredentialsRequested) <==> provider(input).status == SEC_I_INCOMPLETE_CREDENTIALS
    ensures r.reply == Failure(PrincipalMismatch) <==> provider(input).status == SEC_E_WRONG_PRINCIPAL
    ensures r.reply == Failure(TokenBufferExpected) <==>
              provider(input).status == SEC_I_CONTINUE_NEEDED && provider(input).output.bufferType != SECBUFFER_TOKEN
    ensures r.reply == Failure(EmptyTokenBuffer) <==>
              && provider(input).status == SEC_I_CONTINUE_NEEDED
              && provider(input).output.bufferType == SECBUFFER_TOKEN
              && |provider(input).output.data| == 0
    ensures r.reply == Failure(ContextCreationFailed) <==> !IsKnownHandshakeStatus(provider(input).status)
    ensures r.reply.Failure? ==> r.reply.error.IsHandshakeError() && r.next.phase == Failed
    ensures r.reply.Success? ==> r.next.phase == if r.reply.value.code == 0 then Established else Negotiating
  {
    var answer := provider(input);
    if answer.status == SEC_E_OK then
      Step(s.(phase := Established, sizes := Some(queried)), Success(HandshakeReply(0, None)))
    else if answer.status == SEC_E_INCOMPLETE_MESSAGE then
      Step(s, Success(HandshakeReply(1, None)))
    else if answer.status == SEC_I_INCOMPLETE_CREDENTIALS then
      Fail(s, CredentialsRequested)
    else if answer.status == SEC_I_CONTINUE_NEEDED then
      if answer.output.bufferType != SECBUFFER_TOKEN then
        Fail(s, TokenBufferExpected)
      else if |answer.output.data| == 0 then
        Fail(s, EmptyTokenBuffer)
      else
        Step(s, Success(HandshakeReply(2, Some(answer.output.data))))
    else if answer.status == SEC_E_WRONG_PRINCIPAL then
      Fail(s, PrincipalMismatch)
    else
      Fail(s, ContextCreationFailed)
  }

  /**
   On SEC_E_OK the handshake reports code 0 and no token, whatever the provider put in
   its output buffer: a final token the provider asks to have sent to the peer is dropped.
   */
  lemma CompletedHandshakeDropsToken(s: Session, input: Bytes, provider: Bytes -> IscReply, queried: StreamSizes, token: Bytes)
    requires s.phase == Negotiating && provider(input) == IscReply(SEC_E_OK, SecBuffer(SECBUFFER_TOKEN, token))
    ensures Handshake(s, input, provider, queried).reply == Success(HandshakeReply(0, None))
  {
  }

  /** The failure callback's text tells every handshake failure cause apart. */
  lemma HandshakeMessagesDistinct(e1: SessionError, e2: SessionError)
    requires e1.IsHandshakeError() && e2.IsHandshakeError()
    requires e1.Message() == e2.Message()
    ensures e1 == e2
  {
  }

  /** The payload one `encode` call takes from the caller's buffer. */
  function EncodePayload(sizes: StreamSizes, input: Bytes, offset: int, length: int): (payload: Bytes)
    requires IsInt32(length) && 0 <= offset
    requires offset + PayloadSize(length, sizes.cbMaximumMessage) <= |input|
    ensures |payload| == PayloadSize(length, sizes.cbMaximumMessage)
    ensures |payload| <= sizes.cbMaximumMessage && offset + |payload| <= |input|
    ensures 0 <= length ==> |payload| <= length
    ensures 0 <= length <= sizes.cbMaximumMessage ==> |payload| == length
    ensures payload == input[offset..offset + |payload|]
  {
    input[offset..offset + PayloadSize(length, sizes.cbMaximumMessage)]
  }

  /** The scratch buffer `encode` hands to EncryptMessage, laid out by `Layout`. */
  function EncryptInput(sizes: StreamSizes, input: Bytes, offset: int, length: int): (scratch: Bytes)
    requires IsInt32(length) && 0 <= offset
    requires offset + PayloadSize(length, sizes.cbMaximumMessage) <= |input|
    requires Fits(sizes, PayloadSize(length, sizes.cbMaximumMessage))
    ensures |scratch| == MaxPacketSize
    ensures var use := PayloadSize(length, sizes.cbMaximumMessage);
            scratch[sizes.cbHeader..sizes.cbHeader + use] == input[offset..offset + use]
  {
    PlainScratch(sizes, EncodePayload(sizes, input, offset, length))
  }

  /** The payload size of an `encode` call on session `s`. */
  function Use(s: Session, length: int): ULong
    requires s.sizes.Some? && IsInt32(length)
  {
    PayloadSize(length, s.sizes.value.cbMaximumMessage)
  }

  /**
   `encode`: wrap at most `cbMaximumMessage` bytes of `input` from `offset` into one
   record. `encrypt` is the provider's EncryptMessage as a function of the scratch
   buffer it is given. The stream sizes must be known (the handshake completed) and
   the record layout must fit the scratch buffer; the source checks neither.
   */
  function Encode(s: Session, input: Bytes, offset: int, length: int, encrypt: Bytes -> EncryptReply): (r: Step<Bytes>)
    requires s.sizes.Some? && IsInt32(offset) && IsInt32(length) && 0 <= offset
    requires offset + Use(s, length) <= |input|
    requires Fits(s.sizes.value, Use(s, length))
    requires var answer := encrypt(EncryptInput(s.sizes.value, input, offset, length));
             answer.status == SEC_E_OK ==> RespectsRegions(s.sizes.value, Use(s, length), answer)
    ensures var answer := encrypt(EncryptInput(s.sizes.value, input, offset, length));
            && (r.reply.Success? <==> answer.status == SEC_E_OK)
            && (r.reply.Success? ==> |r.reply.value| == |answer.header| + |answer.payload| + |answer.trailer|)
            && (r.reply.Success? ==> |r.reply.value| <= MaxPacketSize && r.reply.value[..|answer.header|] == answer.header)
            && (r.reply.Success? ==>
                  forall i :: 0 <= i < |r.reply.value| ==>
                    r.reply.value[i] == SealedByte(s.sizes.value, EncryptInput(s.sizes.value, input, offset, length), Use(s, length), answer, i))
            && (r.reply.Success? && |answer.header| == s.sizes.value.cbHeader && |answer.payload| == Use(s, length) ==>
                  r.reply.value == answer.header + answer.payload + answer.trailer)
    ensures r.reply.Success? ==> r.next == s && |r.reply.value| <= MaxPacketSize
    ensures r.reply.Failure? ==> r.reply.error == EncryptionFailed && r.next == s.(phase := Failed)
  {
    var sizes := s.sizes.value;
    var use := Use(s, length);
    var plain := EncryptInput(sizes, input, offset, length);
    var answer := encrypt(plain);
    if answer.status != SEC_E_OK then
      Fail(s, EncryptionFailed)
    else
      RecordOfFullRegionsWhenFilled(sizes, plain, use, answer);
      RecordStartsWithHeader(sizes, plain, use, answer);
      Step(s, Success(Record(sizes, plain, use, answer)))
  }

  /**
   A provider that leaves part of the header region unwritten does not get a plain
   concatenation back: the copy takes the scratch buffer's own bytes in the gap. Here the
   header region has 2 bytes but only 1 is written, so the second byte of the record is
   the zero left there, not the ciphertext byte 9.
   */
  lemma ShortHeaderRecordKeepsScratchByte(s: Session)
    requires s.sizes == Some(StreamSizes(2, 0, 10))
    ensures Encode(s, [5], 0, 1, _ => EncryptReply(SEC_E_OK, [1], [9], [])).reply == Success([1, 0])
  {
    var sizes := s.sizes.value;
    var answer := EncryptReply(SEC_E_OK, [1], [9], []);
    var plain := EncryptInput(sizes, [5], 0, 1);
    assert Use(s, 1) == 1;
    assert plain[1] == 0;
    var r := Encode(s, [5], 0, 1, _ => answer).reply.value;
    assert SealedByte(sizes, plain, 1, answer, 1) == 0;
    assert r == [r[0], r[1]];
  }

  lemma RecordOfFullRegionsWhenFilled(sizes: StreamSizes, plain: Bytes, use: nat, reply: EncryptReply)
    requires |plain| == MaxPacketSize && Fits(sizes, use) && RespectsRegions(sizes, use, reply)
    ensures |reply.header| == sizes.cbHeader && |reply.payload| == use ==>
              Record(sizes, plain, use, reply) == reply.header + reply.payload + reply.trailer
  {
    if |reply.header| == sizes.cbHeader && |reply.payload| == use {
      RecordOfFullRegions(sizes, plain, use, reply);
    }
  }

  /**
   `decode`: hand `input[offset..offset + length]` to DecryptMessage. Any status other
   than SEC_E_OK is a failure, SEC_E_INCOMPLETE_MESSAGE included.
   */
  function Decode(s: Session, input: Bytes, offset: int, length: int, decrypt: Bytes -> DecryptReply): (r: Step<Bytes>)
    requires s.ctxt == Live && IsInt32(offset) && IsInt32(length)
    requires 0 <= offset && 0 <= length && offset + length <= |input|
    ensures var answer := decrypt(input[offset..offset + length]);
            && (r.reply.Success? <==> answer.status == SEC_E_OK)
            && (r.reply.Success? ==> r.reply.value == answer.data && r.next == s)
    ensures r.reply.Failure? ==> r.reply.error == DecryptionFailed && r.next == s.(phase := Failed)
  {
    var answer := decrypt(input[offset..offset + length]);
    if answer.status != SEC_E_OK then
      Fail(s, DecryptionFailed)
    else
      Step(s, Success(answer.data))
  }

  /** The same provider status means "need more bytes" to `handshake` but is a plain failure to `decode`. */
  lemma IncompleteRecordIsFailure(s: Session, input: Bytes, offset: int, length: int, decrypt: Bytes -> DecryptReply)
    requires s.ctxt == Live && IsInt32(offset) && IsInt32(length)
    requires 0 <= offset && 0 <= length && offset + length <= |input|
    requires decrypt(input[offset..offset + length]).status == SEC_E_INCOMPLETE_MESSAGE
    ensures Decode(s, input, offset, length, decrypt).reply == Failure(DecryptionFailed)
    ensures s.phase == Negotiating ==>
              Handshake(s, input, _ => IscReply(SEC_E_INCOMPLETE_MESSAGE, SecBuffer(SECBUFFER_TOKEN, [])), StreamSizes(0, 0, 0)).reply
                == Success(HandshakeReply(1, None))
  {
  }

  /**
   `close`: apply the SCHANNEL_SHUTDOWN control token, then ask the context for the
   close notification. Success needs the token applied and SEC_E_OK or
   SEC_I_CONTEXT_EXPIRED; the output is the returned bytes, possibly none.
   */
  function Close(s: Session, control: Status, isc: IscReply): (r: Step<Bytes>)
    requires s.cred == Live && s.ctxt == Live
    ensures r.next.host == s.host && r.next.cred == s.cred && r.next.ctxt == s.ctxt && r.next.sizes == s.sizes
    ensures r.reply.Success? <==>
              control == SEC_E_OK && (isc.status == SEC_E_OK || isc.status == SEC_I_CONTEXT_EXPIRED)
    ensures r.reply.Success? ==> r.reply.value == isc.output.data && r.next.phase == Closed
    ensures control != SEC_E_OK ==> r.reply == Failure(ControlTokenFailed)
    ensures control == SEC_E_OK && isc.status != SEC_E_OK && isc.status != SEC_I_CONTEXT_EXPIRED ==>
              r.reply == Failure(UnexpectedCloseStatus)
    ensures r.reply.Failure? ==> r.next.phase == Failed && (r.reply.error == ControlTokenFailed || r.reply.error == UnexpectedCloseStatus)
  {
    if control != SEC_E_OK then
      Fail(s, ControlTokenFailed)
    else if isc.status == SEC_E_OK || isc.status == SEC_I_CONTEXT_EXPIRED then
      Step(s.(phase := Closed), Success(isc.output.data))
    else
      Fail(s, UnexpectedCloseStatus)
  }

  /** When the control token is refused, the context's answer plays no part: it is never asked. */
  lemma CloseStopsAtControlToken(s: Session, control: Status, isc1: IscReply, isc2: IscReply)
    requires s.cred == Live && s.ctxt == Live && control != SEC_E_OK
    ensures Close(s, control, isc1) == Close(s, control, isc2)
  {
  }

  /** An already expired context still closes successfully, and with no bytes to send. */
  lemma CloseOfExpiredContextMayBeEmpty(s: Session)
    requires s.cred == Live && s.ctxt == Live
    ensures Close(s, SEC_E_OK, IscReply(SEC_I_CONTEXT_EXPIRED, SecBuffer(SECBUFFER_EMPTY, []))).reply == Success([])
  {
  }

  /** One handle-release call of the destructor, with the state of the handle it is given. */
  datatype Release = DeleteSecurityContext(ctxt: HandleState) | FreeCredentialsHandle(cred: HandleState)

  /** The destructor as written: always delete the context, then free the credentials. */
  function DestroyAsWritten(s: Session): (calls: seq<Release>)
    ensures |calls| == 2 && calls[0].DeleteSecurityContext? && calls[1].FreeCredentialsHandle?
    ensures calls[0].ctxt == s.ctxt && calls[1].cred == s.cred
  {
    [DeleteSecurityContext(s.ctxt), FreeCredentialsHandle(s.cred)]
  }

  /** Destroying a session fresh from `create` hands both provider calls handles that were never filled in. */
  lemma DestroyAsWrittenReleasesUnsetHandles(host: string)
    ensures DestroyAsWritten(Create(host)) == [DeleteSecurityContext(Unset), FreeCredentialsHandle(Unset)]
  {
  }

  /** The same holds after credentials could not be acquired. */
  lemma DestroyAsWrittenAfterCredentialFailure(host: string, acquire: Status, first: IscReply)
    requires acquire != SEC_E_OK
    ensures DeleteSecurityContext(Unset) in DestroyAsWritten(StartHandshake(Create(host), acquire, first).next)
    ensures FreeCredentialsHandle(Unset) in DestroyAsWritten(StartHandshake(Create(host), acquire, first).next)
  {
  }

  /** The destructor as intended: release each handle that was filled in, the context before the credentials. */
  function Destroy(s: Session): (calls: seq<Release>)
    ensures forall c :: c in calls ==> c == DeleteSecurityContext(Live) || c == FreeCredentialsHandle(Live)
    ensures DeleteSecurityContext(Live) in calls <==> s.ctxt == Live
    ensures FreeCredentialsHandle(Live) in calls <==> s.cred == Live
    ensures |calls| <= 2 && (|calls| == 2 ==> calls[0] != calls[1])
    ensures |calls| == 2 ==> calls[0].DeleteSecurityContext? && calls[1].FreeCredentialsHandle?
  {
    (if s.ctxt == Live then [DeleteSecurityContext(Live)] else [])
    + (if s.cred == Live then [FreeCredentialsHandle(Live)] else [])
  }

  /** On a session whose handles were both filled in, the intended destructor does just what the source does. */
  lemma DestroyAgreesOnLiveSessions(s: Session)
    requires s.cred == Live && s.ctxt == Live
    ensures Destroy(s) == DestroyAsWritten(s)
  {
  }

  /** Every operation keeps `Valid`. */
  lemma OperationsKeepValid(s: Session, acquire: Status, isc: IscReply, input: Bytes, provider: Bytes -> IscReply,
                            queried: StreamSizes, control: Status)
    requires Valid(s)
    ensures s.phase == Uninitialized ==> Valid(StartHandshake(s, acquire, isc).next)
    ensures s.phase == Negotiating ==> Valid(Handshake(s, input, provider, queried).next)
    ensures s.cred == Live && s.ctxt == Live ==> Valid(Close(s, control, isc).next)
  {
  }
}
