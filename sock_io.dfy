/**
 * The platform port's framed transport over a blocking socket.
 *
 * A frame is a 4-byte command, a 4-byte transport type and a 4-byte payload
 * length, each in network (big-endian) order, followed by the payload bytes
 * as they are. `ParseFrame` and `SendWire` say, as functions of the byte
 * stream, what the receiving and sending methods do; the methods follow the
 * source's accumulate-until-done loops over `recv` and `send`.
 */
module SockIo {
  import opened ByteOrder
  import opened Sockets

  const TWO_32: int := 0x1_0000_0000

  // Transport types carried in the second header field.
  const SOCKET_TRANSPORT_TYPE_NONE: u32 := 0x00
  const SOCKET_TRANSPORT_TYPE_MCTP: u32 := 0x01
  const SOCKET_TRANSPORT_TYPE_PCI_DOE: u32 := 0x02
  const SOCKET_TRANSPORT_TYPE_TCP: u32 := 0x03

  // Commands carried in the first header field.
  const SOCKET_SPDM_COMMAND_NORMAL: u32 := 0x0001
  const SOCKET_SPDM_COMMAND_OOB_ENCAP_KEY_UPDATE: u32 := 0x8001
  const SOCKET_SPDM_COMMAND_CONTINUE: u32 := 0xFFFD
  const SOCKET_SPDM_COMMAND_SHUTDOWN: u32 := 0xFFFE
  const SOCKET_SPDM_COMMAND_UNKNOWN: u32 := 0xFFFF
  const SOCKET_SPDM_COMMAND_TEST: u32 := 0xDEAD

  /**
   * The process-wide settings the transport reads: the host's byte order and
   * `m_use_transport_layer`, the transport type every frame must carry.
   */
  datatype Config = Config(host: Endianness, transportLayer: u32)

  function Min(a: int, b: int): int {
    if a <= b then a else b
  }

  /** The bytes of one frame carrying `payload`, whose length must fit the 32-bit length field. */
  function FrameBytes(command: u32, transport: u32, payload: seq<byte>): (wire: seq<byte>)
    requires |payload| < TWO_32
    ensures |wire| == 12 + |payload|
  {
    EncodeBE(command) + EncodeBE(transport) + EncodeBE(|payload| as u32) + payload
  }

  /** Each header field of a frame decodes to the value put in it, and the payload follows the header. */
  lemma FrameFields(command: u32, transport: u32, payload: seq<byte>)
    requires |payload| < TWO_32
    ensures var wire := FrameBytes(command, transport, payload);
            && DecodeBE(wire[0..4]) == command
            && DecodeBE(wire[4..8]) == transport
            && DecodeBE(wire[8..12]) as int == |payload|
            && wire[12..] == payload
  {
    DecodeEncodeBE(command);
    DecodeEncodeBE(transport);
    DecodeEncodeBE(|payload| as u32);
    var wire := FrameBytes(command, transport, payload);
    assert wire[0..4] == EncodeBE(command);
    assert wire[4..8] == EncodeBE(transport);
    assert wire[8..12] == EncodeBE(|payload| as u32);
  }

  /**
   * The bytes `send_platform_data` emits for `sendBuffer`: its `size_t` length
   * is cast to 32 bits, and only that many bytes are sent.
   */
  function SendWire(command: u32, transport: u32, sendBuffer: seq<byte>): (wire: seq<byte>)
    ensures |sendBuffer| < TWO_32 ==> wire == FrameBytes(command, transport, sendBuffer)
  {
    var length := |sendBuffer| % TWO_32;
    assert |sendBuffer| < TWO_32 ==> sendBuffer[..length] == sendBuffer;
    FrameBytes(command, transport, sendBuffer[..length])
  }

  /** The wire form of a frame, field by field. */
  lemma SendWireFields(command: u32, transport: u32, sendBuffer: seq<byte>)
    ensures var length := |sendBuffer| % TWO_32;
            SendWire(command, transport, sendBuffer)
            == EncodeBE(command) + (EncodeBE(transport) + (EncodeBE(length as u32) + sendBuffer[..length]))
  {
  }

  /**
   * What `send_platform_data` puts on the wire, field by field: the command,
   * the transport type, the length cast to 32 bits, and then only that many
   * bytes of the buffer.
   */
  lemma SendWireHeader(command: u32, transport: u32, sendBuffer: seq<byte>)
    ensures var wire := SendWire(command, transport, sendBuffer);
            var length := |sendBuffer| % TWO_32;
            && |wire| == 12 + length
            && DecodeBE(wire[0..4]) == command
            && DecodeBE(wire[4..8]) == transport
            && DecodeBE(wire[8..12]) as int == length
            && wire[12..] == sendBuffer[..length]
  {
    FrameFields(command, transport, sendBuffer[..|sendBuffer| % TWO_32]);
  }

  /** What reading a length-prefixed buffer from `rest` does. */
  datatype PrefixedRead = PrefixedRead(
    ok: bool,
    length: Option<u32>,  // the decoded length field, if it was read in full
    consumed: nat)        // how many bytes were taken from the stream

  datatype Option<T> = None | Some(value: T)

  /**
   * `read_multiple_bytes` on the pending stream `rest` with a buffer of
   * `maxLength` bytes: a length field, then that many bytes unless the length
   * exceeds the buffer, in which case no body byte is read.
   */
  function ReadPrefixed(rest: seq<byte>, maxLength: u32): (r: PrefixedRead)
    ensures r.consumed <= |rest|
    ensures r.length.Some? <==> |rest| >= 4
    ensures r.length.Some? ==> r.length.value == DecodeBE(rest[..4])
    ensures r.ok <==> r.length.Some? && r.length.value <= maxLength && r.consumed == 4 + r.length.value as int
    ensures r.length.Some? && r.length.value > maxLength ==> r.consumed == 4
  {
    if |rest| < 4 then PrefixedRead(false, None, |rest|)
    else
      var length := DecodeBE(rest[..4]);
      if length > maxLength then PrefixedRead(false, Some(length), 4)
      else if |rest| < 4 + length as int then PrefixedRead(false, Some(length), |rest|)
      else PrefixedRead(true, Some(length), 4 + length as int)
  }

  /** Why a frame was not received. */
  datatype RecvError = ReceiveFailed | TransportMismatch | BufferTooSmall

  datatype FrameOutcome = Received(payload: seq<byte>) | Rejected(error: RecvError)

  /** What reading one frame from the stream does. */
  datatype FrameRead = FrameRead(
    outcome: FrameOutcome,
    command: Option<u32>,  // the command field, if it was read in full
    consumed: nat)         // how many bytes were taken from the stream

  /**
   * `receive_platform_data` on the pending stream `rest`, when the configured
   * transport type is `transport` and the caller's buffer holds `capacity` bytes.
   */
  function ParseFrame(rest: seq<byte>, transport: u32, capacity: nat): (r: FrameRead)
    ensures r.consumed <= |rest|
    ensures r.command.Some? <==> |rest| >= 4
    ensures r.command.Some? ==> r.command.value == DecodeBE(rest[..4])
    ensures r.outcome.Received? ==>
              && r.consumed == 12 + |r.outcome.payload|
              && |r.outcome.payload| <= capacity % TWO_32
              && DecodeBE(rest[4..8]) == transport
              && DecodeBE(rest[8..12]) as int == |r.outcome.payload|
              && r.outcome.payload == rest[12..r.consumed]
  {
    if |rest| < 4 then FrameRead(Rejected(ReceiveFailed), None, |rest|)
    else
      var command := DecodeBE(rest[..4]);
      if |rest| < 8 then FrameRead(Rejected(ReceiveFailed), Some(command), |rest|)
      else if DecodeBE(rest[4..8]) != transport then FrameRead(Rejected(TransportMismatch), Some(command), 8)
      else
        var body := ReadPrefixed(rest[8..], (capacity % TWO_32) as u32);
        var consumed := 8 + body.consumed;
        if body.ok then
          assert rest[8..][..4] == rest[8..12];
          FrameRead(Received(rest[12..consumed]), Some(command), consumed)
        else if body.length.Some? && body.length.value as int > capacity % TWO_32 then
          FrameRead(Rejected(BufferTooSmall), Some(command), consumed)
        else
          FrameRead(Rejected(ReceiveFailed), Some(command), consumed)
  }

  /** The payload bytes stored in the caller's buffer by a read that took `consumed` bytes after a `header`. */
  function BodyStored(rest: seq<byte>, header: nat, consumed: nat): seq<byte>
    requires consumed <= |rest|
  {
    if consumed > header then rest[header..consumed] else []
  }

  /**
   * `read_bytes`: receives exactly `numberOfBytes` bytes into `buffer`,
   * accumulating partial `recv` results in order, or fails when the stream
   * ends first.
   */
  method ReadBytes(socket: Socket, buffer: array<byte>, numberOfBytes: u32) returns (ok: bool)
    requires socket.Valid() && numberOfBytes as int <= buffer.Length
    modifies socket`cursor, buffer
    ensures socket.Valid()
    ensures ok <==> old(socket.cursor) + numberOfBytes as int <= |socket.incoming|
    ensures socket.cursor == Min(old(socket.cursor) + numberOfBytes as int, |socket.incoming|)
    ensures Filled(buffer, socket.incoming[old(socket.cursor)..socket.cursor])
  {
    ghost var c0 := socket.cursor;
    var n := numberOfBytes as int;
    var numberReceived: nat := 0;
    while numberReceived < n
      invariant socket.Valid()
      invariant numberReceived <= n
      invariant socket.cursor == c0 + numberReceived
      invariant Filled(buffer, socket.incoming[c0..socket.cursor])
      decreases n - numberReceived
    {
      var result := socket.Recv(buffer, numberReceived, n - numberReceived);
      if result == -1 {
        return false;
      }
      if result == 0 {
        return false;
      }
      numberReceived := numberReceived + result;
    }
    return true;
  }

  /** `read_data32`: receives a 4-byte word and converts it from network order. */
  method ReadData32(socket: Socket, host: Endianness) returns (ok: bool, data: u32)
    requires socket.Valid()
    modifies socket`cursor
    ensures socket.Valid()
    ensures ok <==> old(socket.cursor) + 4 <= |socket.incoming|
    ensures socket.cursor == Min(old(socket.cursor) + 4, |socket.incoming|)
    ensures ok ==> data == DecodeBE(socket.incoming[old(socket.cursor)..socket.cursor])
  {
    var word := new byte[4];
    ok := ReadBytes(socket, word, 4);
    data := HostValue(host, word[..]);
    if !ok {
      return;
    }
    assert word[..] == socket.incoming[old(socket.cursor)..socket.cursor];
    NtohlOfLoadedWord(host, word[..]);
    data := Ntohl(host, data);
  }

  /**
   * `read_multiple_bytes`: receives a length field and then that many bytes
   * into `buffer`, which holds `maxBufferLength` bytes. `bytesReceived` is the
   * caller's variable, which the length field overwrites once it is read.
   */
  method ReadMultipleBytes(socket: Socket, host: Endianness, buffer: array<byte>,
                           bytesReceivedIn: u32, maxBufferLength: u32)
    returns (ok: bool, bytesReceived: u32)
    requires socket.Valid() && maxBufferLength as int <= buffer.Length
    modifies socket`cursor, buffer
    ensures socket.Valid()
    ensures var rest := socket.incoming[old(socket.cursor)..];
            var r := ReadPrefixed(rest, maxBufferLength);
            && ok == r.ok
            && socket.cursor == old(socket.cursor) + r.consumed
            && bytesReceived == (if r.length.Some? then r.length.value else bytesReceivedIn)
            && Filled(buffer, BodyStored(rest, 4, r.consumed))
  {
    ghost var c0 := socket.cursor;
    ghost var rest := socket.incoming[c0..];
    bytesReceived := bytesReceivedIn;
    var length: u32;
    ok, length := ReadData32(socket, host);
    if !ok {
      return;
    }
    assert rest[..4] == socket.incoming[c0..socket.cursor];
    // Converted for a diagnostic dump and converted back: the two cancel.
    length := Ntohl(host, length);
    length := Ntohl(host, length);
    NtohlInvolution(host, DecodeBE(rest[..4]));

    bytesReceived := length;
    if bytesReceived > maxBufferLength {
      return false, bytesReceived;
    }
    if length == 0 {
      return true, bytesReceived;
    }
    ok := ReadBytes(socket, buffer, length);
    assert socket.incoming[c0 + 4..socket.cursor] == rest[4..socket.cursor - c0];
  }

  /**
   * `receive_platform_data`: receives one frame. `command` and
   * `bytesToReceive` are the caller's variables: the first is overwritten once
   * the command field is read, the second (the buffer's capacity on entry) is
   * replaced by the payload length only when the whole frame is received.
   */
  method ReceivePlatformData(socket: Socket, cfg: Config, commandIn: u32,
                             receiveBuffer: array<byte>, bytesToReceiveIn: nat)
    returns (ok: bool, command: u32, bytesToReceive: nat)
    requires socket.Valid() && bytesToReceiveIn <= receiveBuffer.Length
    modifies socket`cursor, receiveBuffer
    ensures socket.Valid()
    ensures var rest := socket.incoming[old(socket.cursor)..];
            var r := ParseFrame(rest, cfg.transportLayer, bytesToReceiveIn);
            && ok == r.outcome.Received?
            && socket.cursor == old(socket.cursor) + r.consumed
            && command == (if r.command.Some? then r.command.value else commandIn)
            && bytesToReceive == (if ok then |r.outcome.payload| else bytesToReceiveIn)
            && Filled(receiveBuffer, BodyStored(rest, 12, r.consumed))
  {
    ghost var c0 := socket.cursor;
    ghost var rest := socket.incoming[c0..];
    command, bytesToReceive := commandIn, bytesToReceiveIn;

    var response: u32;
    ok, response := ReadData32(socket, cfg.host);
    if !ok {
      return;
    }
    assert rest[..4] == socket.incoming[c0..c0 + 4];
    command := response;

    var transportType: u32;
    ok, transportType := ReadData32(socket, cfg.host);
    if !ok {
      return;
    }
    assert rest[4..8] == socket.incoming[c0 + 4..c0 + 8];
    // Converted for a diagnostic dump and converted back: the two cancel.
    transportType := Ntohl(cfg.host, transportType);
    transportType := Ntohl(cfg.host, transportType);
    NtohlInvolution(cfg.host, DecodeBE(rest[4..8]));
    if transportType != cfg.transportLayer {
      return false, command, bytesToReceive;
    }

    var bytesReceived: u32 := 0;
    var maxLength := (bytesToReceive % TWO_32) as u32;
    assert socket.incoming[socket.cursor..] == rest[8..];
    ok, bytesReceived := ReadMultipleBytes(socket, cfg.host, receiveBuffer, bytesReceived, maxLength);
    assert BodyStored(rest[8..], 4, socket.cursor - c0 - 8) == BodyStored(rest, 12, socket.cursor - c0);
    if !ok {
      return;
    }
    // The capacity check at this point of the source cannot fail once the read succeeded.
    assert bytesReceived <= maxLength;
    bytesToReceive := bytesReceived as nat;
    assert rest[8..][4..socket.cursor - c0 - 8] == rest[12..socket.cursor - c0];
  }

  /**
   * `write_bytes`: sends `numberOfBytes` bytes of `buffer`, re-issuing `send`
   * for the rest after each partial write, and fails when the connection does.
   */
  method WriteBytes(socket: Socket, buffer: seq<byte>, numberOfBytes: u32) returns (ok: bool)
    requires socket.Valid() && numberOfBytes as int <= |buffer|
    modifies socket`outgoing
    ensures socket.Valid()
    ensures ok <==> |old(socket.outgoing)| + numberOfBytes as int <= socket.sendLimit
    ensures socket.outgoing == Deliver(socket.sendLimit, old(socket.outgoing), buffer[..numberOfBytes])
  {
    ghost var out0 := socket.outgoing;
    var n := numberOfBytes as int;
    var numberSent: nat := 0;
    while numberSent < n
      invariant socket.Valid()
      invariant numberSent <= n
      invariant socket.outgoing == out0 + buffer[..numberSent]
      decreases n - numberSent
    {
      var result := socket.Send(buffer, numberSent, n - numberSent);
      if result == -1 {
        assert (out0 + buffer[..n])[..socket.sendLimit] == out0 + buffer[..numberSent];
        return false;
      }
      assert buffer[..numberSent] + buffer[numberSent..numberSent + result] == buffer[..numberSent + result];
      numberSent := numberSent + result;
    }
    return true;
  }

  /** `write_data32`: sends a 4-byte word in network order. */
  method WriteData32(socket: Socket, host: Endianness, data: u32) returns (ok: bool)
    requires socket.Valid()
    modifies socket`outgoing
    ensures socket.Valid()
    ensures ok <==> |old(socket.outgoing)| + 4 <= socket.sendLimit
    ensures socket.outgoing == Deliver(socket.sendLimit, old(socket.outgoing), EncodeBE(data))
  {
    var netData := Htonl(host, data);
    StoredHtonlWord(host, data);
    var word := HostBytes(host, netData);
    assert word[..4] == EncodeBE(data);
    ok := WriteBytes(socket, word, 4);
  }

  /** `write_multiple_bytes`: sends a length field and then that many bytes of `buffer`. */
  method WriteMultipleBytes(socket: Socket, host: Endianness, buffer: seq<byte>, bytesToSend: u32)
    returns (ok: bool)
    requires socket.Valid() && bytesToSend as int <= |buffer|
    modifies socket`outgoing
    ensures socket.Valid()
    ensures ok <==> |old(socket.outgoing)| + 4 + bytesToSend as int <= socket.sendLimit
    ensures socket.outgoing
            == Deliver(socket.sendLimit, old(socket.outgoing), EncodeBE(bytesToSend) + buffer[..bytesToSend])
  {
    ghost var out0 := socket.outgoing;
    DeliverAppend(socket.sendLimit, out0, EncodeBE(bytesToSend), buffer[..bytesToSend]);
    ok := WriteData32(socket, host, bytesToSend);
    if !ok {
      DeliverSaturated(socket.sendLimit, socket.outgoing, buffer[..bytesToSend]);
      return;
    }
    // Converted for a diagnostic dump and converted back: the two cancel.
    var length := Htonl(host, bytesToSend);
    length := Htonl(host, length);
    NtohlInvolution(host, bytesToSend);
    ok := WriteBytes(socket, buffer, length);
  }

  /**
   * `send_platform_data`: sends one frame: the command, the configured
   * transport type, then the length-prefixed payload.
   */
  method SendPlatformData(socket: Socket, cfg: Config, command: u32, sendBuffer: seq<byte>)
    returns (ok: bool)
    requires socket.Valid()
    modifies socket`outgoing
    ensures socket.Valid()
    ensures var wire := SendWire(command, cfg.transportLayer, sendBuffer);
            && (ok <==> |old(socket.outgoing)| + |wire| <= socket.sendLimit)
            && socket.outgoing == Deliver(socket.sendLimit, old(socket.outgoing), wire)
  {
    ghost var limit, out0 := socket.sendLimit, socket.outgoing;
    var length := (|sendBuffer| % TWO_32) as u32;
    ghost var head, tag := EncodeBE(command), EncodeBE(cfg.transportLayer);
    ghost var tail := EncodeBE(length) + sendBuffer[..length];
    SendWireFields(command, cfg.transportLayer, sendBuffer);
    DeliverAppend(limit, out0, head, tag + tail);

    var request := command;
    ok := WriteData32(socket, cfg.host, request);
    if !ok {
      DeliverSaturated(limit, socket.outgoing, tag + tail);
      return;
    }
    ghost var out1 := socket.outgoing;
    DeliverAppend(limit, out1, tag, tail);
    ok := WriteData32(socket, cfg.host, cfg.transportLayer);
    if !ok {
      DeliverSaturated(limit, socket.outgoing, tail);
      return;
    }
    ok := WriteMultipleBytes(socket, cfg.host, sendBuffer, length);
  }
}
