/**
 * Properties of the platform port's frame format: what the sender emits is
 * what the receiver accepts, and the receiver's guards reject foreign,
 * oversized and truncated frames without handing out a partial payload.
 */
module FrameProperties {
  import opened ByteOrder
  import opened SockIo

  /**
   * Round trip: a frame emitted by `send_platform_data` and followed by any
   * further bytes is received with the same command and payload, consuming
   * exactly the frame, when the receiver's buffer is large enough.
   */
  lemma ReceiveSentFrame(command: u32, transport: u32, payload: seq<byte>, more: seq<byte>, capacity: nat)
    requires |payload| <= capacity % TWO_32
    ensures ParseFrame(SendWire(command, transport, payload) + more, transport, capacity)
            == FrameRead(Received(payload), Some(command), 12 + |payload|)
  {
    var wire := SendWire(command, transport, payload);
    FrameFields(command, transport, payload);
    var rest := wire + more;
    assert rest[..4] == wire[0..4];
    assert rest[4..8] == wire[4..8];
    assert rest[8..][..4] == wire[8..12];
    assert rest[12..12 + |payload|] == wire[12..];
  }

  /**
   * The converse: the bytes a successful receive consumes are exactly the
   * frame the sender would emit for the command and payload it returns.
   */
  lemma ReceivedFrameWasSent(rest: seq<byte>, transport: u32, capacity: nat)
    requires ParseFrame(rest, transport, capacity).outcome.Received?
    ensures var r := ParseFrame(rest, transport, capacity);
            rest[..r.consumed] == SendWire(r.command.value, transport, r.outcome.payload)
  {
    var r := ParseFrame(rest, transport, capacity);
    var payload := r.outcome.payload;
    EncodeDecodeBE(rest[0..4]);
    EncodeDecodeBE(rest[4..8]);
    EncodeDecodeBE(rest[8..12]);
    assert rest[..4] == rest[0..4];
    assert rest[..r.consumed] == rest[0..4] + rest[4..8] + rest[8..12] + payload;
  }

  /**
   * A frame whose transport type differs from the configured one is rejected
   * once the type field is read, before the length field or the payload.
   */
  lemma ForeignTransportRejected(rest: seq<byte>, transport: u32, capacity: nat)
    requires |rest| >= 8 && DecodeBE(rest[4..8]) != transport
    ensures ParseFrame(rest, transport, capacity)
            == FrameRead(Rejected(TransportMismatch), Some(DecodeBE(rest[..4])), 8)
  {
  }

  /**
   * A length field larger than the caller's buffer rejects the frame after
   * the 12-byte header: no payload byte is read.
   */
  lemma OversizedFrameRejected(rest: seq<byte>, transport: u32, capacity: nat)
    requires |rest| >= 12 && DecodeBE(rest[4..8]) == transport
    requires DecodeBE(rest[8..12]) as int > capacity % TWO_32
    ensures ParseFrame(rest, transport, capacity)
            == FrameRead(Rejected(BufferTooSmall), Some(DecodeBE(rest[..4])), 12)
  {
    assert rest[8..][..4] == rest[8..12];
  }

  /** A zero length field completes the frame with the header alone. */
  lemma EmptyFrameAccepted(rest: seq<byte>, transport: u32, capacity: nat)
    requires |rest| >= 12 && DecodeBE(rest[4..8]) == transport && DecodeBE(rest[8..12]) == 0
    ensures ParseFrame(rest, transport, capacity) == FrameRead(Received([]), Some(DecodeBE(rest[..4])), 12)
  {
    assert rest[8..][..4] == rest[8..12];
  }

  /**
   * A peer that closes part-way through a frame makes the receive fail after
   * taking every byte it sent; it never yields a partial payload.
   */
  lemma TruncatedFrameRejected(command: u32, transport: u32, payload: seq<byte>, k: nat, capacity: nat)
    requires |payload| <= capacity % TWO_32
    requires k < |SendWire(command, transport, payload)|
    ensures var cut := SendWire(command, transport, payload)[..k];
            ParseFrame(cut, transport, capacity)
            == FrameRead(Rejected(ReceiveFailed), if k >= 4 then Some(command) else None, k)
  {
    var wire := SendWire(command, transport, payload);
    FrameFields(command, transport, payload);
    var cut := wire[..k];
    if k >= 4 {
      assert cut[..4] == wire[0..4];
    }
    if k >= 8 {
      assert cut[4..8] == wire[4..8];
    }
    if k >= 12 {
      assert cut[8..][..4] == wire[8..12];
    }
  }
}
