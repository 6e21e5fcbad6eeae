# SChannel TLS session and libuv TCP request lifecycle, in Dafny

This project models the core of two networking primitives of the hxcpp runtime:

- **The SChannel TLS client session (`SChannelContext`).** This is a client-side TLS session on top of Windows SSPI. The model covers the decision layer around the provider calls:
  - `startHandshake` acquires credentials and requires the first context call to ask to continue;
  - `handshake` maps each provider status and output buffer to one of the codes 0 (done), 1 (need more bytes) or 2 (send this token), or to one of several distinct failures;
  - `encode` lays a record out in a fixed 16384 + 512-byte scratch buffer;
  - `decode`, `close` and the destructor complete the session.
- **The libuv TCP socket (`LibuvTcpSocket`).** Each asynchronous operation follows one request lifecycle. The request is created, then submitted. Either it fails at once and is destroyed, or it is owned by the loop until its completion callback takes it back, fires exactly one of success or failure, and frees it. The model covers `connect_ipv4`/`connect_ipv6`, `on_connect`, `on_connection`, `write`, `close` and their completion callbacks, plus the keep-alive, buffer-size and flush operations.

The provider (SSPI) and libuv calls are not modelled: their status codes, output buffers and returned values are inputs. Handshake, encrypt and decrypt providers are functions on `seq<bv8>`, so that the contracts can say which bytes the provider receives.

Modules:

- `Base`: bytes, `Option`, and the 32-bit `int` range.
- `Sspi`: SSPI status codes and buffer types. Their values come from the Windows SDK headers, which are not part of this model. They are written as 32-bit patterns.
- `RecordFraming`: `encode`'s byte accounting, that is, the payload size, buffer layout, scratch buffer and output record.
- `SChannelSession`: the session's operations, each returning the next session and the one callback fired.
- `SessionRuns`: sequences of session calls. The stream sizes that `encode` reads exist only after a `handshake` saw `SEC_E_OK`.
- `AsyncRequests`: the generic request lifecycle. It has a pending map from call id to request and a trace of callbacks fired and handles closed. It also has the invariant `Wf`: each call fired exactly one callback if it has completed and none if it is still pending.
- `TcpSocket`: the socket operations built on that lifecycle.
- `TcpRuns`: any interleaving of socket calls and completion callbacks keeps the invariant, which gives exactly-once completion.

The source keeps no session state variable. `SChannelSession.Phase` (Uninitialized, Negotiating, Established, Failed, Closed) is the model's own account of the session's progress. Where the source reads state it never checks, such as `encode` reading `sizes`, the model states the need as a precondition.

## Model

| member | source | states |
|---|---|---|
| RecordFraming.ToULong | src/hx/libs/schannel/SChannelSession.cpp:159 | The conversion of `length` to `unsigned long` agrees with it modulo 2^32: a non-negative length is unchanged and a negative one becomes at least 2^31 |
| RecordFraming.PayloadSize | src/hx/libs/schannel/SChannelSession.cpp:159 | `use` is the minimum of the converted length and `cbMaximumMessage`: at most both, and equal to one of them |
| RecordFraming.PayloadSizeOfNonNegativeLength | src/hx/libs/schannel/SChannelSession.cpp:159 | For a non-negative length the payload never exceeds it, and the whole length is used when it is within the negotiated maximum |
| RecordFraming.NegativeLengthSelectsMaximum | src/hx/libs/schannel/SChannelSession.cpp:159 | A negative length is not rejected: it selects the whole negotiated maximum |
| RecordFraming.Layout | src/hx/libs/schannel/SChannelSession.cpp:164-167 | Header at 0 of `cbHeader` bytes, data right after it of `use` bytes, trailer right after the data of `cbTrailer` bytes, then an empty buffer, each with its SSPI buffer type |
| RecordFraming.LayoutInBoundsIffFits | src/hx/libs/schannel/SChannelSession.cpp:160-166 | Every buffer lies inside the 16896-byte scratch buffer if and only if `cbHeader + use + cbTrailer <= 16896` |
| RecordFraming.LayoutRegionsDisjoint | src/hx/libs/schannel/SChannelSession.cpp:164-166 | No byte belongs to two of the header, data and trailer regions |
| RecordFraming.PlainScratch | src/hx/libs/schannel/SChannelSession.cpp:160-170 | Before encryption the scratch buffer is 16896 bytes, holds the payload exactly in `Layout`'s data region, and is zero everywhere else |
| RecordFraming.SealedScratch | src/hx/libs/schannel/SChannelSession.cpp:164-177 | After EncryptMessage, each byte of the scratch buffer is the provider's byte inside the part of a `Layout` region it wrote, and the byte it was given everywhere else |
| RecordFraming.Record | src/hx/libs/schannel/SChannelSession.cpp:180-183 | The output is as long as the three updated `cbBuffer` values together, which is at most `cbHeader + use + cbTrailer` and so within the scratch buffer. Each byte is the sealed scratch buffer's byte at the same position |
| RecordFraming.RecordOfFullRegions | src/hx/libs/schannel/SChannelSession.cpp:164-183 | When the provider fills the header and data regions, the record is exactly header, then ciphertext, then trailer |
| RecordFraming.RecordStartsWithHeader | src/hx/libs/schannel/SChannelSession.cpp:180-183 | Whatever the provider writes, the record begins with the header bytes it produced |
| SChannelSession.Create | src/hx/libs/schannel/SChannelSession.cpp:256-259 | A created session holds the host, has acquired nothing and satisfies the session invariant |
| SChannelSession.StartHandshake | src/hx/libs/schannel/SChannelSession.cpp:33-73 | Succeeds exactly when credentials are acquired and the first context call returns `SEC_I_CONTINUE_NEEDED`. The token is exactly the output buffer's bytes. A credential failure reports only that failure and leaves the handles untouched |
| SChannelSession.StartHandshakeStopsAtCredentials | src/hx/libs/schannel/SChannelSession.cpp:44-49 | After a credential failure the context call's answer plays no part, because the context call is never made |
| SChannelSession.StartHandshakeRejectsImmediateCompletion | src/hx/libs/schannel/SChannelSession.cpp:59-64 | Even `SEC_E_OK` from the first context call is a failure |
| SChannelSession.Handshake | src/hx/libs/schannel/SChannelSession.cpp:75-155 | The mapping is both ways. (0, null) if and only if `SEC_E_OK`, and only then are the sizes set, to the queried ones. (1, null) if and only if `SEC_E_INCOMPLETE_MESSAGE`. Code 2 if and only if continue-needed with a non-empty token-typed buffer, and then its token is those bytes. Each failure kind has exactly its own cause. Failure makes the phase Failed |
| SChannelSession.CompletedHandshakeDropsToken | src/hx/libs/schannel/SChannelSession.cpp:97-103 | On `SEC_E_OK` the reply is code 0 with no token, even when the provider returned a token for the peer |
| SChannelSession.HandshakeMessagesDistinct | src/hx/libs/schannel/SChannelSession.cpp:111-153 | Two handshake failures with the same callback text are the same failure |
| SChannelSession.EncodePayload | src/hx/libs/schannel/SChannelSession.cpp:159-170 | The bytes encrypted are `input[offset..offset+use)`, exactly `use` of them. `use` is at most the maximum and at most a non-negative length, and is the whole length when that is within the maximum |
| SChannelSession.EncryptInput | src/hx/libs/schannel/SChannelSession.cpp:160-170 | The provider receives a 16896-byte buffer whose data region holds `input[offset..offset+use)` |
| SChannelSession.Encode | src/hx/libs/schannel/SChannelSession.cpp:157-186 | Needs known sizes and an in-bounds layout. Succeeds exactly when EncryptMessage returns `SEC_E_OK`. The output is as long as the three regions the provider reports. It always starts with the header bytes, and every byte is the sealed scratch buffer's byte at that position, gaps included. It equals header, ciphertext and trailer when the provider fills the header and data regions. On failure there is no output, only `EncryptionFailed` |
| SChannelSession.ShortHeaderRecordKeepsScratchByte | src/hx/libs/schannel/SChannelSession.cpp:180-183 | With a 2-byte header region of which the provider writes 1 byte, the record is `[1, 0]`: the unwritten header byte is copied, not the ciphertext byte |
| SChannelSession.Decode | src/hx/libs/schannel/SChannelSession.cpp:188-215 | The provider sees `input[offset..offset+length)`. Succeeds with the decrypted data exactly when it returns `SEC_E_OK`, and otherwise reports `DecryptionFailed` |
| SChannelSession.IncompleteRecordIsFailure | src/hx/libs/schannel/SChannelSession.cpp:203-208 | An incomplete record is a plain decode failure, while the same status during `handshake` yields code 1 |
| SChannelSession.Close | src/hx/libs/schannel/SChannelSession.cpp:217-254 | Succeeds exactly when the control token is applied and the context call returns `SEC_E_OK` or `SEC_I_CONTEXT_EXPIRED`. The output is the returned bytes. A refused control token is `ControlTokenFailed`. After the token is applied, any other context status is `UnexpectedCloseStatus` |
| SChannelSession.CloseStopsAtControlToken | src/hx/libs/schannel/SChannelSession.cpp:226-231 | After the control token is refused, the context call's answer plays no part |
| SChannelSession.CloseOfExpiredContextMayBeEmpty | src/hx/libs/schannel/SChannelSession.cpp:240-249 | An expired context closes successfully with an empty output |
| SChannelSession.DestroyAsWritten | src/hx/libs/schannel/SChannelSession.cpp:27-31 | The destructor deletes the context, then frees the credentials, whatever state the handles are in |
| SChannelSession.DestroyAsWrittenReleasesUnsetHandles | src/hx/libs/schannel/SChannelSession.cpp:27-31 | On a session fresh from `create`, both handles passed to the provider were never filled in |
| SChannelSession.DestroyAsWrittenAfterCredentialFailure | src/hx/libs/schannel/SChannelSession.cpp:44-49 | After a failed credential acquisition, the same happens |
| SChannelSession.Destroy | src/hx/libs/schannel/SChannelSession.cpp:27-31 | Releases exactly the handles that were filled in, each once, the context before the credentials |
| SChannelSession.DestroyAgreesOnLiveSessions | src/hx/libs/schannel/SChannelSession.cpp:27-31 | When both handles were filled in, the intended destructor makes the same calls as the source |
| SChannelSession.OperationsKeepValid | src/hx/libs/schannel/SChannelSession.cpp:33-254 | `startHandshake`, `handshake` and `close` preserve the link between phase, handles and sizes |
| SessionRuns.NextSizes | src/hx/libs/schannel/SChannelSession.cpp:97-104 | A call changes the stream sizes only when it is a handshake answered by `SEC_E_OK`, and then to the queried sizes |
| SessionRuns.NextKeepsValid | src/hx/libs/schannel/SChannelSession.cpp:33-254 | Every session call keeps the session invariant |
| SessionRuns.SizesComeFromCompletedHandshake | src/hx/libs/schannel/SChannelSession.cpp:97-104 | At the end of any run, the sizes are those at its start or those queried by some completing handshake of the run |
| SessionRuns.RunKeepsValid | src/hx/libs/schannel/SChannelSession.cpp:33-254 | Every run of calls keeps the session invariant |
| SessionRuns.EncodeFollowsCompletedHandshake | src/hx/libs/schannel/SChannelSession.cpp:157-166 | On a session from `create`, `encode` can only be called after some `handshake` saw `SEC_E_OK` |
| AsyncRequests.StatusCallback | src/hx/libs/asys/libuv/net/LibuvTcpSocket.cpp:44-51 | A negative status fires failure with that status, and any other status fires success |
| AsyncRequests.NowKeepsWf | src/hx/libs/asys/libuv/net/LibuvTcpSocket.cpp:221-224 | A call that fails at submission fires exactly one callback, for itself, and leaves nothing in the loop |
| AsyncRequests.SubmitKeepsWf | src/hx/libs/asys/libuv/net/LibuvTcpSocket.cpp:225-228 | A submitted request is pending with no callback fired yet |
| AsyncRequests.CompleteKeepsWf | src/hx/libs/asys/libuv/net/LibuvTcpSocket.cpp:39-52 | A completion fires exactly one callback for its request and removes it from the pending map |
| AsyncRequests.CloseHandleKeepsWf | src/hx/libs/asys/libuv/net/LibuvTcpSocket.cpp:80 | Closing a handle fires no callback |
| AsyncRequests.NoSecondCompletion | src/hx/libs/asys/libuv/net/LibuvTcpSocket.cpp:42 | A call that has fired is no longer pending, so its completion cannot run again |
| AsyncRequests.QuiescentLoopFiredEachCallOnce | src/hx/libs/asys/libuv/net/LibuvTcpSocket.cpp:39-52 | With nothing pending, every call made has fired exactly one callback, and the callbacks number the calls |
| TcpSocket.OnConnect | src/hx/libs/asys/libuv/net/LibuvTcpSocket.cpp:102-122 | A failed init or a failed connect submission reports that status and destroys the request. Otherwise the request is released to the loop and nothing fires yet |
| TcpSocket.FailedInitSkipsConnect | src/hx/libs/asys/libuv/net/LibuvTcpSocket.cpp:107-112 | After a failed `uv_tcp_init` the connect's status plays no part, because the connect is never attempted |
| TcpSocket.Connect | src/hx/libs/asys/libuv/net/LibuvTcpSocket.cpp:267-295 | A failed address parse reports failure. Otherwise the call is handed to `on_connect` |
| TcpSocket.FailedParseSkipsOnConnect | src/hx/libs/asys/libuv/net/LibuvTcpSocket.cpp:270-275 | After a failed parse, `on_connect`'s inputs play no part and no request reaches the loop |
| TcpSocket.OnConnection | src/hx/libs/asys/libuv/net/LibuvTcpSocket.cpp:87-100 | A negative status fires only failure, and the socket impl dies with the request. Otherwise the impl moves into a new socket, which is handed to success |
| TcpSocket.Write | src/hx/libs/asys/libuv/net/LibuvTcpSocket.cpp:216-229 | A failed submission fires failure at once and keeps no request or pin. Otherwise the loop owns a request holding exactly `data[offset..offset+length)`, and nothing fires yet |
| TcpSocket.OnWrite | src/hx/libs/asys/libuv/net/LibuvTcpSocket.cpp:39-52 | The write completion takes the request back, fires failure if the status is negative and success otherwise, and frees it |
| TcpSocket.Close | src/hx/libs/asys/libuv/net/LibuvTcpSocket.cpp:236-251 | A failed shutdown submission closes the handle and then reports failure. Otherwise the loop owns the shutdown request and the handle stays open |
| TcpSocket.OnShutdown | src/hx/libs/asys/libuv/net/LibuvTcpSocket.cpp:69-84 | A negative status fires only failure and leaves the handle open. Otherwise the handle is closed, then success fires |
| TcpSocket.CloseOnClosedHandleClosesAgain | src/hx/libs/asys/libuv/net/LibuvTcpSocket.cpp:241-245 | A `close` on a socket whose handle is already closed, with a failed shutdown submission, closes the handle a second time |
| TcpSocket.CloseOutcomes | src/hx/libs/asys/libuv/net/LibuvTcpSocket.cpp:236-251 | The three outcomes of `close` as events in order: close then failure, close then success, or failure alone with the handle still open |
| TcpSocket.SetKeepAlive | src/hx/libs/asys/libuv/net/LibuvTcpSocket.cpp:168-181 | The corrected setter. libuv receives the socket, the flag and `KEEP_ALIVE_VALUE` as the delay, which meets libuv's condition when positive. On success it stores `KEEP_ALIVE_VALUE` or 0 and fires success. On failure it changes nothing and fires failure |
| TcpSocket.SetKeepAliveAsWritten | src/hx/libs/asys/libuv/net/LibuvTcpSocket.cpp:170 | As written, the delay passed to `uv_tcp_keepalive` is the value stored by the previous setting. The state change is the corrected setter's |
| TcpSocket.ReenableAfterDisablePassesZeroDelay | src/hx/libs/asys/libuv/net/LibuvTcpSocket.cpp:170-177 | As written, re-enabling after a successful disable passes a delay of 0, which breaks libuv's condition for enabling |
| TcpSocket.ReenableAfterDisableAccepted | src/hx/libs/asys/libuv/net/LibuvTcpSocket.cpp:170-177 | With the corrected setter, re-enabling after a disable passes a delay libuv accepts whenever `KEEP_ALIVE_VALUE` is positive |
| TcpSocket.GetKeepAlive | src/hx/libs/asys/libuv/net/LibuvTcpSocket.cpp:133-136 | Reports whether the stored keep-alive value is positive, and changes nothing |
| TcpSocket.KeepAliveRoundTrip | src/hx/libs/asys/libuv/net/LibuvTcpSocket.cpp:168-181 | A successful `setKeepAlive(b)` followed by `getKeepAlive` reports `b`, given `KEEP_ALIVE_VALUE > 0` |
| TcpSocket.FailedSetKeepAliveKeepsAnswer | src/hx/libs/asys/libuv/net/LibuvTcpSocket.cpp:170-174 | A failed `setKeepAlive` leaves `getKeepAlive`'s answer unchanged |
| TcpSocket.SetBufferSize | src/hx/libs/asys/libuv/net/LibuvTcpSocket.cpp:183-209 | Sets the option on the socket's own handle and fires exactly one callback. On success that callback echoes the requested size |
| TcpSocket.GetBufferSize | src/hx/libs/asys/libuv/net/LibuvTcpSocket.cpp:153-166 | Queries the option on the socket's own handle and fires exactly one callback. On success it reports the value libuv wrote back |
| TcpSocket.GetSendBufferSizeAsWritten | src/hx/libs/asys/libuv/net/LibuvTcpSocket.cpp:138-151 | The send-buffer getter as written: the handle argument is the address of the local `size` variable |
| TcpSocket.SendBufferGetterMissesSocket | src/hx/libs/asys/libuv/net/LibuvTcpSocket.cpp:141 | The as-written send-buffer getter addresses something other than the socket. The receive getter, the setters and the corrected getter address the socket's handle |
| TcpSocket.Flush | src/hx/libs/asys/libuv/net/LibuvTcpSocket.cpp:231-234 | Always fires success and changes nothing |
| TcpRuns.ConnectKeepsWf | src/hx/libs/asys/libuv/net/LibuvTcpSocket.cpp:102-122 | A connect keeps the invariant. Its call either fired exactly one callback or is pending with none |
| TcpRuns.WriteKeepsWf | src/hx/libs/asys/libuv/net/LibuvTcpSocket.cpp:216-229 | A write keeps the invariant, with the same accounting |
| TcpRuns.CloseKeepsWf | src/hx/libs/asys/libuv/net/LibuvTcpSocket.cpp:236-251 | A close keeps the invariant, with the same accounting |
| TcpRuns.CompletionKeepsWf | src/hx/libs/asys/libuv/net/LibuvTcpSocket.cpp:39-100 | Every completion callback fires exactly one callback for its request and removes the request from the loop |
| TcpRuns.TunableKeepsWf | src/hx/libs/asys/libuv/net/LibuvTcpSocket.cpp:133-234 | Each synchronous tunable or flush fires exactly one callback for its own call |
| TcpRuns.NextKeepsWf | src/hx/libs/asys/libuv/net/LibuvTcpSocket.cpp:39-251 | Every step keeps the exactly-once invariant and only extends the trace |
| TcpRuns.RunKeepsWf | src/hx/libs/asys/libuv/net/LibuvTcpSocket.cpp:39-251 | Every interleaving of calls and completions keeps the invariant |
| TcpRuns.CompletedStaysCompleted | src/hx/libs/asys/libuv/net/LibuvTcpSocket.cpp:42 | A call that has fired stays out of the pending map and never fires again, whatever follows |
| TcpRuns.ExactlyOnce | src/hx/libs/asys/libuv/net/LibuvTcpSocket.cpp:39-52 | After any run, no call has fired twice. Once the loop is idle, every call has fired exactly once, and successes plus failures equal the number of calls |

## Left out

- `LibuvDns.cpp` (resolve and reverse lookup) is not part of this model. It wraps `getaddrinfo`/`getnameinfo`, and its only local logic is that address families other than IPv4 and IPv6 are skipped without an error.
- `read` only delegates to `LibuvTcpSocketImpl::read`, which is not part of this model.
- The provider calls `AcquireCredentialsHandle`, `InitializeSecurityContext`, `QueryContextAttributes`, `EncryptMessage`, `DecryptMessage` and `ApplyControlToken` are foreign code that holds the TLS cryptography. Their results are inputs. So the round trip `decode(encode(m)) == m` between two peers is the provider's property and is not stated.
- The credential flags and the `requestFlags`/`contextFlags` bitsets are only passed to and from the provider, so they are not modelled.
- `QueryContextAttributes`'s status is ignored by the source. The model takes the sizes the query reports as given.
- `FreeContextBuffer` calls, GC rooting, `AutoGCZone`, the array pin's lifetime, marking and visiting, and the lifetime of the `host.utf8_str()` pointer are memory management and are not modelled. A write request's pin is modelled as the bytes the request owns.
- `uv_err_to_enum` is an external helper. A failure carries the raw negative libuv status as `UvError(status)`.
- Capturing the local and remote addresses in the `LibuvTcpSocket` constructor is an external helper.
- The initial keep-alive value of `LibuvTcpSocketImpl` comes from a constructor that is not part of this model. It is an input carried by the connect request.
- `KEEP_ALIVE_VALUE` is defined in a header that is not part of this model, so it is a parameter of `setKeepAlive`.
- libuv's refusal of a keep-alive delay below one second is stated as the predicate `TcpSocket.DelayAccepted`. It is not tied to the status the setter receives, because that status is an input.
- TcpSocket.SetBufferSize: libuv treats a requested size of 0 as a query and writes the current size back, so the source would then report that value. The model echoes the requested size in every case.
- TcpSocket.OnConnection: the model does not say what happens to the TCP handle inside a destroyed `LibuvTcpSocketImpl`. Its destructor is not part of this model. This covers a connect that fails at submission or on completion after `uv_tcp_init` succeeded.
- A second `close` after the handle was closed is not rejected by the source. Its `uv_shutdown` fails, and line 243 then calls `uv_close` again, whose `clean_stream` would delete the stream reader a second time. `TcpSocket.CloseOnClosedHandleClosesAgain` states the repeated close. The model does not say what libuv does with it, because that is libuv behaviour outside this model.
- Order between a write and a later shutdown on one stream is kept by libuv, not by this code, so it is not modelled.
- SChannelSession.Handshake: the source ignores two parts of the provider's answer, so `IscReply` has no field for either. (1) The provider may mark input bytes it did not consume (`SECBUFFER_EXTRA` in `inputBuffers[1]`), and these are lost. (2) A non-empty token returned with `SEC_E_OK`, which SSPI says must be sent to the peer, is dropped. `SChannelSession.CompletedHandshakeDropsToken` states the second.
- SChannelSession.Decode: DecryptMessage may report trailing bytes of a further record in an extra buffer. The source ignores them and returns only the data buffer, so the model returns only that too.
- Three behaviours of the code are kept as written:
  - `encode` before the handshake completes is not rejected but reads unset sizes, so known sizes are a precondition;
  - `decode` of an incomplete record is a failure, not a recoverable outcome;
  - closing an expired context is an ordinary success carrying the returned bytes.
- The source does not check that the record layout fits the scratch buffer, that `offset` and `length` lie within the caller's array, or that the provider writes no region beyond its size. These are preconditions of `Encode`, `Decode` and `Write`.
- After a failed `encode` or `decode` the model sets the phase to Failed. The source records nothing.

## Findings

| source | as written | input that shows it | evidently intended | confidence | as-written member | corrected member |
|---|---|---|---|---|---|---|
| src/hx/libs/schannel/SChannelSession.cpp:27-31 | The destructor always passes `ctxtHandle` and `credHandle` to `DeleteSecurityContext` and `FreeCredentialHandle`. Neither handle is initialised by the constructor or by a failed credential acquisition. The context handle is not initialised by a first context call that returns an error-class status either | `create(host)` followed directly by destruction, or destruction after `AcquireCredentialsHandle` fails | Release only the handles the provider filled in, the context before the credentials | medium, not executed | SChannelSession.DestroyAsWritten, SChannelSession.DestroyAsWrittenReleasesUnsetHandles | SChannelSession.Destroy |
| src/hx/libs/asys/libuv/net/LibuvTcpSocket.cpp:141 | `reinterpret_cast<uv_handle_t*>(&socket->tcp, &size)` is a comma expression, so the handle passed to `uv_send_buffer_size` is `&size` and not the socket's TCP handle | any `getSendBufferSize` call | Pass `&socket->tcp`, as `getRecvBufferSize` does | high, not executed | TcpSocket.GetSendBufferSizeAsWritten, TcpSocket.SendBufferGetterMissesSocket | TcpSocket.GetBufferSize |
| src/hx/libs/asys/libuv/net/LibuvTcpSocket.cpp:170 | `uv_tcp_keepalive(&socket->tcp, keepAlive, socket->keepAlive)` passes the stored value as the delay. After `setKeepAlive(false)` succeeds, the stored value is 0 (line 177) | `setKeepAlive(false)` succeeding, then `setKeepAlive(true)`: libuv is asked to enable keep-alive with a delay of 0, which it rejects with `UV_EINVAL` | Pass `KEEP_ALIVE_VALUE` as the delay | medium, not executed | TcpSocket.SetKeepAliveAsWritten, TcpSocket.ReenableAfterDisablePassesZeroDelay | TcpSocket.SetKeepAlive, TcpSocket.ReenableAfterDisableAccepted |
