/**
 The few pieces of the Windows Security Support Provider Interface (SSPI) that the
 SChannel session relies on: result codes, buffer types and buffer records. The
 values are those of the Windows SDK headers (winerror.h and sspi.h).
 */
module Sspi {
  import opened Base

  /** A 32-bit `unsigned long` (also `DWORD`) as Windows defines it. */
  type ULong = x: int | 0 <= x < 0x1_0000_0000

  /** A SECURITY_STATUS, written as its 32-bit pattern. */
  type Status = ULong

  const SEC_E_OK: Status := 0x0000_0000
  const SEC_I_CONTINUE_NEEDED: Status := 0x0009_0312
  const SEC_I_CONTEXT_EXPIRED: Status := 0x0009_0317
  const SEC_I_INCOMPLETE_CREDENTIALS: Status := 0x0009_0320
  const SEC_E_INCOMPLETE_MESSAGE: Status := 0x8009_0318
  const SEC_E_WRONG_PRINCIPAL: Status := 0x8009_0322

  /** A status whose severity bit is clear: the provider did the call's work. */
  predicate IsSuccessClass(status: Status) {
    status < 0x8000_0000
  }

  const SECBUFFER_EMPTY: ULong := 0
  const SECBUFFER_DATA: ULong := 1
  const SECBUFFER_TOKEN: ULong := 2
  const SECBUFFER_STREAM_TRAILER: ULong := 6
  const SECBUFFER_STREAM_HEADER: ULong := 7
  const SECBUFFER_ALERT: ULong := 17

  /** A SecBuffer as the provider hands it back: its type and its `cbBuffer` bytes. */
  datatype SecBuffer = SecBuffer(bufferType: ULong, data: Bytes)

  /** Whether an opaque CredHandle or CtxtHandle has been filled in by the provider. */
  datatype HandleState = Unset | Live

  /** What one InitializeSecurityContext call returns: its status and its first output buffer. */
  datatype IscReply = IscReply(status: Status, output: SecBuffer)
}
