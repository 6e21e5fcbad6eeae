/**
 Byte accounting of one outgoing TLS record in the SChannel session's `encode`.

 `encode` lays a record out in a fixed scratch buffer as three contiguous regions:
 the stream header at offset 0, the payload at offset `cbHeader`, and the stream
 trailer at offset `cbHeader + use`. The provider's EncryptMessage fills them in
 place and reports how many bytes of each region it used. The record is then the
 first `header + payload + trailer` bytes of the scratch buffer.
 */
module RecordFraming {
  import opened Base
  import opened Sspi

  /** The TLSPlaintext length limit, 2^14 bytes (section 5.1 of RFC 8446, section 6.2.1 of RFC 5246). */
  const PlaintextLimit: nat := 0x4000

  /** Capacity of the scratch buffer: the plaintext limit plus 512 bytes for header, padding and trailer. */
  const MaxPacketSize: nat := PlaintextLimit + 512

  /** The SecPkgContext_StreamSizes fields `encode` reads. */
  datatype StreamSizes = StreamSizes(cbHeader: ULong, cbTrailer: ULong, cbMaximumMessage: ULong)

  /** `static_cast<unsigned long>` of a 32-bit `int`: negative values wrap modulo 2^32. */
  function ToULong(n: int): (r: ULong)
    requires IsInt32(n)
    ensures (r - n) % 0x1_0000_0000 == 0
    ensures 0 <= n ==> r == n
    ensures n < 0 ==> 0x8000_0000 <= r
  {
    if n < 0 then n + 0x1_0000_0000 else n
  }

  /** The number of payload bytes one record carries: the smaller of the converted length and the negotiated maximum. */
  function PayloadSize(length: int, maxMessage: ULong): (use: ULong)
    requires IsInt32(length)
    ensures use <= maxMessage && use <= ToULong(length)
    ensures use == maxMessage || use == ToULong(length)
  {
    if ToULong(length) < maxMessage then ToULong(length) else maxMessage
  }

  /** A caller's non-negative length is never exceeded, and is used whole when it is within the maximum. */
  lemma PayloadSizeOfNonNegativeLength(length: int, maxMessage: ULong)
    requires 0 <= length < 0x8000_0000
    ensures PayloadSize(length, maxMessage) <= length
    ensures length <= maxMessage ==> PayloadSize(length, maxMessage) == length
  {
  }

  /** A negative length is not rejected: it wraps to at least 2^31 and so selects the whole negotiated maximum. */
  lemma NegativeLengthSelectsMaximum(length: int, maxMessage: ULong)
    requires -0x8000_0000 <= length < 0
    requires maxMessage <= 0x8000_0000
    ensures PayloadSize(length, maxMessage) == maxMessage
  {
  }

  /** The three regions fit in the scratch buffer. */
  predicate Fits(sizes: StreamSizes, use: nat) {
    sizes.cbHeader + use + sizes.cbTrailer <= MaxPacketSize
  }

  /** One SecBuffer of the EncryptMessage call, as a region of the scratch buffer. */
  datatype Region = Region(bufferType: ULong, offset: nat, size: nat) {
    function End(): nat {
      offset + size
    }
  }

  /** The four buffers `encode` hands to EncryptMessage. */
  function Layout(sizes: StreamSizes, use: nat): (r: seq<Region>)
    ensures |r| == 4
    ensures r[0].offset == 0 && r[1].offset == r[0].End() && r[2].offset == r[1].End()
    ensures r[0].size == sizes.cbHeader && r[1].size == use && r[2].size == sizes.cbTrailer && r[3].size == 0
    ensures r[0].bufferType == SECBUFFER_STREAM_HEADER && r[1].bufferType == SECBUFFER_DATA
    ensures r[2].bufferType == SECBUFFER_STREAM_TRAILER && r[3].bufferType == SECBUFFER_EMPTY
  {
    [ Region(SECBUFFER_STREAM_HEADER, 0, sizes.cbHeader),
      Region(SECBUFFER_DATA, sizes.cbHeader, use),
      Region(SECBUFFER_STREAM_TRAILER, sizes.cbHeader + use, sizes.cbTrailer),
      Region(SECBUFFER_EMPTY, 0, 0) ]
  }

  /** Every buffer lies inside the scratch buffer exactly when the three regions fit. */
  lemma LayoutInBoundsIffFits(sizes: StreamSizes, use: nat)
    ensures (forall i :: 0 <= i < 4 ==> Layout(sizes, use)[i].End() <= MaxPacketSize) <==> Fits(sizes, use)
  {
    var r := Layout(sizes, use);
    if Fits(sizes, use) {
      forall i | 0 <= i < 4
        ensures r[i].End() <= MaxPacketSize
      {
      }
    } else {
      assert r[2].End() > MaxPacketSize;
    }
  }

  /** The header, payload and trailer regions do not overlap: each ends where the next begins. */
  lemma LayoutRegionsDisjoint(sizes: StreamSizes, use: nat, i: nat, j: nat, k: nat)
    requires i < j < 3
    requires Layout(sizes, use)[i].offset <= k < Layout(sizes, use)[i].End()
    ensures !(Layout(sizes, use)[j].offset <= k < Layout(sizes, use)[j].End())
  {
  }

  /** `n` zero bytes: a freshly value-initialised `std::vector<uint8_t>`. */
  function Zeros(n: nat): (r: Bytes)
    ensures |r| == n
    ensures forall i :: 0 <= i < n ==> r[i] == 0
  {
    seq(n, _ => 0)
  }

  /** `buf` with `bytes` copied in at offset `at` (a `memcpy` into the buffer). */
  function Overwrite(buf: Bytes, at: nat, bytes: Bytes): (r: Bytes)
    requires at + |bytes| <= |buf|
    ensures |r| == |buf|
    ensures forall i :: 0 <= i < |bytes| ==> r[at + i] == bytes[i]
    ensures forall i :: 0 <= i < |buf| && !(at <= i < at + |bytes|) ==> r[i] == buf[i]
  {
    buf[..at] + bytes + buf[at + |bytes|..]
  }

  /** The scratch buffer just before EncryptMessage: zeros, with the payload copied into the data region of `Layout`. */
  function PlainScratch(sizes: StreamSizes, payload: Bytes): (r: Bytes)
    requires Fits(sizes, |payload|)
    ensures |r| == MaxPacketSize
    ensures var data := Layout(sizes, |payload|)[1];
            && r[data.offset..data.End()] == payload
            && forall i :: 0 <= i < MaxPacketSize && !(data.offset <= i < data.End()) ==> r[i] == 0
  {
    var r := Overwrite(Zeros(MaxPacketSize), sizes.cbHeader, payload);
    assert r[sizes.cbHeader..sizes.cbHeader + |payload|] == payload by {
      forall i | 0 <= i < |payload|
        ensures r[sizes.cbHeader..sizes.cbHeader + |payload|][i] == payload[i]
      {
        assert r[sizes.cbHeader + i] == payload[i];
      }
    }
    r
  }

  /** What EncryptMessage leaves behind: its status and the bytes it wrote into each region,
      whose lengths are the updated `cbBuffer` values. */
  datatype EncryptReply = EncryptReply(status: Status, header: Bytes, payload: Bytes, trailer: Bytes)

  /** The provider writes no region beyond the size it was given. */
  predicate RespectsRegions(sizes: StreamSizes, use: nat, reply: EncryptReply) {
    && |reply.header| <= sizes.cbHeader
    && |reply.payload| <= use
    && |reply.trailer| <= sizes.cbTrailer
  }

  /**
   Byte `i` of the scratch buffer once EncryptMessage has run: the provider's byte where `i`
   lies in the part of a region it wrote (the first `cbBuffer` bytes of the header, data or
   trailer buffer), and the byte of the buffer it was given everywhere else.
   */
  function SealedByte(sizes: StreamSizes, plain: Bytes, use: nat, reply: EncryptReply, i: nat): byte
    requires |plain| == MaxPacketSize && i < MaxPacketSize
  {
    var regions := Layout(sizes, use);
    if regions[0].offset <= i < regions[0].offset + |reply.header| then reply.header[i - regions[0].offset]
    else if regions[1].offset <= i < regions[1].offset + |reply.payload| then reply.payload[i - regions[1].offset]
    else if regions[2].offset <= i < regions[2].offset + |reply.trailer| then reply.trailer[i - regions[2].offset]
    else plain[i]
  }

  /** The scratch buffer after EncryptMessage has written its three regions in place. */
  function SealedScratch(sizes: StreamSizes, plain: Bytes, use: nat, reply: EncryptReply): (r: Bytes)
    requires |plain| == MaxPacketSize && Fits(sizes, use) && RespectsRegions(sizes, use, reply)
    ensures |r| == MaxPacketSize
    ensures forall i :: 0 <= i < MaxPacketSize ==> r[i] == SealedByte(sizes, plain, use, reply, i)
  {
    var withHeader := Overwrite(plain, 0, reply.header);
    var withPayload := Overwrite(withHeader, sizes.cbHeader, reply.payload);
    var r := Overwrite(withPayload, sizes.cbHeader + use, reply.trailer);
    assert forall i :: 0 <= i < MaxPacketSize ==> r[i] == SealedByte(sizes, plain, use, reply, i) by {
      forall i | 0 <= i < MaxPacketSize
        ensures r[i] == SealedByte(sizes, plain, use, reply, i)
      {
        if i < |reply.header| {
          assert withHeader[0 + i] == reply.header[i];
        } else if sizes.cbHeader <= i < sizes.cbHeader + |reply.payload| {
          assert withPayload[sizes.cbHeader + (i - sizes.cbHeader)] == reply.payload[i - sizes.cbHeader];
        } else if sizes.cbHeader + use <= i < sizes.cbHeader + use + |reply.trailer| {
          assert r[sizes.cbHeader + use + (i - sizes.cbHeader - use)] == reply.trailer[i - sizes.cbHeader - use];
        }
      }
    }
    r
  }

  /** The record `encode` outputs: the first `header + payload + trailer` bytes of the sealed scratch buffer. */
  function Record(sizes: StreamSizes, plain: Bytes, use: nat, reply: EncryptReply): (r: Bytes)
    requires |plain| == MaxPacketSize && Fits(sizes, use) && RespectsRegions(sizes, use, reply)
    ensures |r| == |reply.header| + |reply.payload| + |reply.trailer|
    ensures |r| <= sizes.cbHeader + use + sizes.cbTrailer <= MaxPacketSize
    ensures forall i :: 0 <= i < |r| ==> r[i] == SealedByte(sizes, plain, use, reply, i)
  {
    SealedScratch(sizes, plain, use, reply)[..|reply.header| + |reply.payload| + |reply.trailer|]
  }

  /** When the provider fills the header and payload regions completely, as a stream-mode provider does,
      the record is exactly header, then ciphertext, then trailer, with nothing of the scratch buffer in between. */
  lemma RecordOfFullRegions(sizes: StreamSizes, plain: Bytes, use: nat, reply: EncryptReply)
    requires |plain| == MaxPacketSize && Fits(sizes, use) && RespectsRegions(sizes, use, reply)
    requires |reply.header| == sizes.cbHeader && |reply.payload| == use
    ensures Record(sizes, plain, use, reply) == reply.header + reply.payload + reply.trailer
  {
    var h, p, t := reply.header, reply.payload, reply.trailer;
    var s1 := Overwrite(plain, 0, h);
    var s2 := Overwrite(s1, sizes.cbHeader, p);
    var s3 := Overwrite(s2, sizes.cbHeader + use, t);
    assert s3 == SealedScratch(sizes, plain, use, reply);
    var r := Record(sizes, plain, use, reply);
    var expected := h + p + t;
    forall i | 0 <= i < |r|
      ensures r[i] == expected[i]
    {
      if i < |h| {
        assert s1[0 + i] == h[i];
      } else if i < |h| + |p| {
        assert s2[sizes.cbHeader + (i - |h|)] == p[i - |h|];
      } else {
        assert s3[sizes.cbHeader + use + (i - |h| - |p|)] == t[i - |h| - |p|];
      }
    }
  }

  /** Whatever the provider writes, the record starts with the header bytes it produced. */
  lemma RecordStartsWithHeader(sizes: StreamSizes, plain: Bytes, use: nat, reply: EncryptReply)
    requires |plain| == MaxPacketSize && Fits(sizes, use) && RespectsRegions(sizes, use, reply)
    ensures Record(sizes, plain, use, reply)[..|reply.header|] == reply.header
  {
    var h := reply.header;
    var s1 := Overwrite(plain, 0, h);
    var s2 := Overwrite(s1, sizes.cbHeader, reply.payload);
    var s3 := Overwrite(s2, sizes.cbHeader + use, reply.trailer);
    var r := Record(sizes, plain, use, reply);
    forall i | 0 <= i < |h|
      ensures r[i] == h[i]
    {
      assert s1[0 + i] == h[i];
    }
  }
}
