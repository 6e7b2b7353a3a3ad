# SPDM device sample responder: platform port framing and platform server

This project models the TCP "platform port" of the SPDM device sample responder in Dafny:

- the framed transport in `sock_io.c`;
- the command dispatcher and accept loop in `spdm_responder_main_emu.c`.

A frame carries four fields, in this order:

- a 4-byte command;
- a 4-byte transport type, which must equal the configured `m_use_transport_layer`;
- a 4-byte payload length;
- the payload.

The three header fields are in network (big-endian) order. The dispatcher runs after each round of the external SPDM engine. It answers the platform-port control commands `TEST`, `SHUTDOWN`, `CONTINUE`, `NORMAL` (a PCI-DoE request) and any unknown command. The accept loop serves one connection at a time. It accepts again for as long as the dispatcher returns true.

Modules:

- `ByteOrder` (`byte_order.dfy`): bytes and `uint32_t` as integer newtypes.
  - The big-endian codec and the host's memory layout of a word.
  - `ntohl`/`htonl`, with the host's byte order as a parameter (little- or big-endian).
- `Sockets` (`sockets.dfy`): a blocking connected socket as a class.
  - The receive side is a fixed incoming byte stream with a cursor. `recv` hands out any non-empty chunk. At the end of the stream it returns 0 (orderly close) or -1 (reset).
  - The send side is the sequence of bytes delivered to the peer. The connection takes `sendLimit` bytes in all; after that, `send` returns -1.
  - `Deliver` says what the peer holds after a send.
- `SockIo` (`sock_io.dfy`): the eight transport functions as methods over a `Socket`, with their loops and out-parameters.
  - Each method is proved against a function of the byte stream: `ReadPrefixed` and `ParseFrame` on the receiving side, `SendWire` (via `Deliver`) on the sending side.
  - `Config` holds the process-wide `m_use_transport_layer` and the host byte order.
- `FrameProperties` (`frame_properties.dfy`):
  - the round trip between sending and receiving, in both directions;
  - the rejection of a foreign transport type, an oversized length and a truncated frame.
- `Responder` (`responder.dfy`):
  - `platform_server` as a loop over oracle `Round`s. Each round gives the engine's dispatch status, `m_command` and the PCI-DoE responder's answer.
  - `Decide` is the dispatcher's table; `Serve` and `Planned` are its specification functions.
  - `platform_server_routine` as a loop over oracle `accept` results, recording a trace of accept, serve and close events.
- `ServerProperties` (`server_properties.dfy`):
  - the command table;
  - the session a connection gets, compared with the plan in which every reply is sent;
  - scenario lemmas (`TEST`, an unknown command, `SHUTDOWN`);
  - when the routine returns true or false;
  - the order of its events, and which connection each session was served on.

The paired `ntohl` calls in `read_multiple_bytes` and `receive_platform_data` are kept as the code writes them, and so are the paired `htonl` calls in `write_multiple_bytes`. `ByteOrder.NtohlInvolution` shows that each pair cancels on either kind of host. `ByteOrder.NtohlOfLoadedWord` and `ByteOrder.StoredHtonlWord` show that the one remaining conversion is exactly the big-endian decoding or encoding.

The dispatcher's return value decides what the accept loop does next:

- `SHUTDOWN` ends the whole routine. `platform_server` echoes an empty `SHUTDOWN` frame and returns false, so the do-while loop exits, the listener is closed and the routine returns true without accepting again (`spdm_responder_main_emu.c:94-102`, `:181-184`). See `ServerProperties.ShutdownEndsRoutine`.
- `CONTINUE` ends only the session. `platform_server` echoes an empty `CONTINUE` frame and returns true, so the session socket is closed and the next connection is accepted (`:104-112`, `:178-181`).
- An engine send or receive failure ends the whole routine. `platform_server` returns false without replying (`:59-63`).
- The doubled byte-order conversions cancel. The wire format is exactly one big-endian conversion per field (`sock_io.c:84,87`, `:133,136`, `:223,226`).

The receiving capacity check at `sock_io.c:148-150` cannot fail once `read_multiple_bytes` has succeeded. `SockIo.ReceivePlatformData` asserts this at that point.

## Model

| member | source | states |
|---|---|---|
| ByteOrder.EncodeBE | spdm-device-sample/spdm_device_sample/spdm_device_responder/sock_io.h:34-38 | a header field is four bytes on the wire |
| ByteOrder.DecodeEncodeBE | spdm-device-sample/spdm_device_sample/spdm_device_responder/sock_io.c:51-61 | decoding the four bytes `write_data32` emits for `x` gives `x` back |
| ByteOrder.EncodeDecodeBE | spdm-device-sample/spdm_device_sample/spdm_device_responder/sock_io.h:34-38 | every 4-byte field is the encoding of the value it decodes to, so the big-endian codec is a bijection |
| ByteOrder.NtohlInvolution | spdm-device-sample/spdm_device_sample/spdm_device_responder/sock_io.c:84-87 | two successive `ntohl` (or `htonl`) applications give back the original word on a little- or big-endian host |
| ByteOrder.NtohlOfLoadedWord | spdm-device-sample/spdm_device_sample/spdm_device_responder/sock_io.c:55-59 | loading four received bytes into a `uint32_t` and applying `ntohl` yields their big-endian value on either kind of host |
| ByteOrder.StoredHtonlWord | spdm-device-sample/spdm_device_sample/spdm_device_responder/sock_io.c:201-205 | the memory of `htonl(x)` is the big-endian encoding of `x` on either kind of host |
| ByteOrder.ByteSwapLayout | spdm-device-sample/spdm_device_sample/spdm_device_responder/sock_io.c:203 | on a little-endian host the byte-swapped word is laid out in memory as the big-endian bytes of the original |
| Sockets.Deliver | spdm-device-sample/spdm_device_sample/spdm_device_responder/sock_io.c:175-198 | the peer holds a prefix of what was sent and never more than the connection takes; it holds all of it exactly when it fits |
| Sockets.DeliverAppend | spdm-device-sample/spdm_device_sample/spdm_device_responder/sock_io.c:213-236 | sending two pieces one after the other delivers what sending them together would |
| Sockets.DeliverSaturated | spdm-device-sample/spdm_device_sample/spdm_device_responder/sock_io.c:178-195 | after a failed send nothing more reaches the peer |
| Sockets.Socket.constructor | spdm-device-sample/spdm_device_sample/spdm_device_responder/spdm_responder_main_emu.c:170-172 | an accepted socket is open, nothing has been received from it and nothing sent on it |
| Sockets.Socket.Recv | spdm-device-sample/spdm_device_sample/spdm_device_responder/sock_io.c:37-38 | `recv` stores the next 1..len pending bytes in order at the offset and returns their number, leaving the rest of the buffer alone; at the end of the stream it returns 0 or -1 and stores nothing |
| Sockets.Socket.Send | spdm-device-sample/spdm_device_sample/spdm_device_responder/sock_io.c:176-177 | `send` delivers the next 1..len bytes from the offset and returns their number, or returns -1 and delivers nothing once the connection is exhausted |
| Sockets.Socket.Close | spdm-device-sample/spdm_device_sample/spdm_device_responder/spdm_responder_main_emu.c:179 | the session socket is closed |
| SockIo.FrameBytes | spdm-device-sample/spdm_device_sample/spdm_device_responder/sock_io.h:34-38 | a frame is a 12-byte header followed by its payload |
| SockIo.FrameFields | spdm-device-sample/spdm_device_sample/spdm_device_responder/sock_io.h:34-38 | the command, transport type and length fields decode to the values put in them, and the payload follows the header unchanged |
| SockIo.SendWire | spdm-device-sample/spdm_device_sample/spdm_device_responder/sock_io.c:238-270 | a payload whose length fits 32 bits is sent as exactly its frame |
| SockIo.SendWireHeader | spdm-device-sample/spdm_device_sample/spdm_device_responder/sock_io.c:238-270 | the frame sent for a buffer carries the command, then the configured transport type, then the buffer length cast to 32 bits, each decoding to that value, followed by exactly that many leading bytes of the buffer |
| SockIo.ReadPrefixed | spdm-device-sample/spdm_device_sample/spdm_device_responder/sock_io.c:72-107 | the length field is read iff 4 bytes are there and it is their big-endian value; success iff the length fits the buffer and the body is consumed in full; an oversized length consumes only the length field |
| SockIo.ParseFrame | spdm-device-sample/spdm_device_sample/spdm_device_responder/sock_io.c:109-161 | the command is reported iff its field was read; a received payload has a matching transport type and length field, fits the capacity cast to 32 bits, and is exactly the bytes after the header |
| SockIo.ReadBytes | spdm-device-sample/spdm_device_sample/spdm_device_responder/sock_io.c:29-49 | `read_bytes` succeeds iff the stream holds the requested count; it consumes min(count, available) bytes and stores exactly those, in order, at the start of the buffer, so success means the buffer holds all of them |
| SockIo.ReadData32 | spdm-device-sample/spdm_device_sample/spdm_device_responder/sock_io.c:51-61 | `read_data32` succeeds iff four bytes are available, and then yields their big-endian value |
| SockIo.ReadMultipleBytes | spdm-device-sample/spdm_device_sample/spdm_device_responder/sock_io.c:72-107 | `read_multiple_bytes` does what `ReadPrefixed` says: its result, bytes consumed, `*bytes_received` (the length once read) and the stored body |
| SockIo.ReceivePlatformData | spdm-device-sample/spdm_device_sample/spdm_device_responder/sock_io.c:109-161 | `receive_platform_data` does what `ParseFrame` says: its result, bytes consumed, `*command` once read, `*bytes_to_receive` replaced only on success, and the stored payload |
| SockIo.WriteBytes | spdm-device-sample/spdm_device_sample/spdm_device_responder/sock_io.c:168-199 | `write_bytes` succeeds iff the connection takes the whole count, and the peer receives those bytes in order (a prefix on failure) |
| SockIo.WriteData32 | spdm-device-sample/spdm_device_sample/spdm_device_responder/sock_io.c:201-205 | `write_data32` delivers the big-endian encoding of the word |
| SockIo.WriteMultipleBytes | spdm-device-sample/spdm_device_sample/spdm_device_responder/sock_io.c:213-236 | `write_multiple_bytes` delivers the big-endian length followed by that many buffer bytes, and succeeds iff all of them fit |
| SockIo.SendPlatformData | spdm-device-sample/spdm_device_sample/spdm_device_responder/sock_io.c:238-270 | `send_platform_data` delivers the frame `SendWire` gives, and succeeds iff the whole frame fits |
| FrameProperties.ReceiveSentFrame | spdm-device-sample/spdm_device_sample/spdm_device_responder/sock_io.c:238-270 | a sent frame, whatever follows it, is received with the same command and payload and consumes exactly the frame when the payload fits the buffer |
| FrameProperties.ReceivedFrameWasSent | spdm-device-sample/spdm_device_sample/spdm_device_responder/sock_io.c:109-161 | the bytes a successful receive consumes are the frame the sender emits for the returned command and payload |
| FrameProperties.ForeignTransportRejected | spdm-device-sample/spdm_device_sample/spdm_device_responder/sock_io.c:128-140 | a transport-type mismatch fails after 8 bytes, before the length field or payload is read |
| FrameProperties.OversizedFrameRejected | spdm-device-sample/spdm_device_sample/spdm_device_responder/sock_io.c:89-94 | a length field above the capacity fails after the 12-byte header, without reading any body byte |
| FrameProperties.EmptyFrameAccepted | spdm-device-sample/spdm_device_sample/spdm_device_responder/sock_io.c:95-97 | a zero length succeeds with an empty payload after the header alone |
| FrameProperties.TruncatedFrameRejected | spdm-device-sample/spdm_device_sample/spdm_device_responder/sock_io.c:39-45 | a frame cut short at any point fails after consuming every byte sent, never yielding a partial payload |
| Responder.CString | spdm-device-sample/spdm_device_sample/spdm_device_responder/spdm_responder_main_emu.c:71-72 | a string literal occupies its characters followed by a NUL |
| Responder.ServerHelloText | spdm-device-sample/spdm_device_sample/spdm_device_responder/spdm_responder_main_emu.c:68-72 | the `TEST` reply payload is `"Server Hello!"` with its terminating NUL |
| Responder.ReplyWire | spdm-device-sample/spdm_device_sample/spdm_device_responder/spdm_responder_main_emu.c:67-145 | a round emits bytes exactly when it replies |
| Responder.Serve | spdm-device-sample/spdm_device_sample/spdm_device_responder/spdm_responder_main_emu.c:54-146 | serving never delivers more than the connection takes |
| Responder.ServeDecision | spdm-device-sample/spdm_device_sample/spdm_device_responder/spdm_responder_main_emu.c:67-145 | carrying out a round's decision never delivers more than the connection takes |
| Responder.DispatchRound | spdm-device-sample/spdm_device_sample/spdm_device_responder/spdm_responder_main_emu.c:55-145 | one pass of the loop delivers the round's reply frame and yields the decided outcome, or true when the send fails |
| Responder.PlatformServer | spdm-device-sample/spdm_device_sample/spdm_device_responder/spdm_responder_main_emu.c:46-147 | `platform_server`'s result and the bytes its peer receives are those of `Serve` over the oracle's rounds |
| Responder.PlatformServerRoutine | spdm-device-sample/spdm_device_sample/spdm_device_responder/spdm_responder_main_emu.c:149-185 | `platform_server_routine`'s result and event trace are those of `Routine` over the oracle's accepts |
| ServerProperties.SilentRounds | spdm-device-sample/spdm_device_sample/spdm_device_responder/spdm_responder_main_emu.c:55-124 | no reply is sent iff the status is not `UNSUPPORTED_CAP`, the command is the key update, or the PCI-DoE responder fails on `NORMAL` |
| ServerProperties.ReplyFrames | spdm-device-sample/spdm_device_sample/spdm_device_responder/spdm_responder_main_emu.c:67-145 | `TEST` is answered with the greeting, `SHUTDOWN` and `CONTINUE` with empty echoes, `NORMAL` with the DoE response, any other command with an empty `UNKNOWN` |
| ServerProperties.StopServingRounds | spdm-device-sample/spdm_device_sample/spdm_device_responder/spdm_responder_main_emu.c:59-102 | a round decides false iff the engine reports a send or receive failure, or the command is `SHUTDOWN` |
| ServerProperties.EndSessionRounds | spdm-device-sample/spdm_device_sample/spdm_device_responder/spdm_responder_main_emu.c:104-144 | a round decides true iff the command is `CONTINUE`, `NORMAL` with a DoE error, or unknown |
| ServerProperties.ServeFollowsPlan | spdm-device-sample/spdm_device_sample/spdm_device_responder/spdm_responder_main_emu.c:54-146 | a session delivers its planned replies and result when they fit the connection; otherwise it returns true with as much of the plan as the connection took |
| ServerProperties.PlannedRun | spdm-device-sample/spdm_device_sample/spdm_device_responder/spdm_responder_main_emu.c:54-66 | `platform_server` returns v iff some round decides v after rounds that all continue, and keeps looping iff every round continues |
| ServerProperties.StoppedSessionDeliveredPlan | spdm-device-sample/spdm_device_sample/spdm_device_responder/spdm_responder_main_emu.c:94-102 | a session that returned false delivered every reply its rounds called for |
| ServerProperties.TestAnswered | spdm-device-sample/spdm_device_sample/spdm_device_responder/spdm_responder_main_emu.c:68-77 | a first round answering `TEST` puts the 26-byte greeting frame first on the wire |
| ServerProperties.TestExchange | spdm-device-sample/spdm_device_sample/spdm_device_responder/spdm_responder_main_emu.c:68-77 | the peer receives a `TEST` frame carrying the 14 bytes of `"Server Hello!"` and NUL |
| ServerProperties.UnknownCommandAnswered | spdm-device-sample/spdm_device_sample/spdm_device_responder/spdm_responder_main_emu.c:135-144 | an unknown command gets exactly an empty `UNKNOWN` frame and the session returns true |
| ServerProperties.UnknownCommandExchange | spdm-device-sample/spdm_device_sample/spdm_device_responder/spdm_responder_main_emu.c:135-144 | the peer receives an empty `UNKNOWN` frame, and `platform_server` returns true |
| ServerProperties.ShutdownEndsRoutine | spdm-device-sample/spdm_device_sample/spdm_device_responder/spdm_responder_main_emu.c:178-184 | after `SHUTDOWN` is echoed the session and listener are closed and the routine returns true without accepting again |
| ServerProperties.ServeConnectionsRun | spdm-device-sample/spdm_device_sample/spdm_device_responder/spdm_responder_main_emu.c:166-184 | the loop returns true iff some session returns false after sessions that all returned true, and false iff `accept` fails after such sessions |
| ServerProperties.RoutineResult | spdm-device-sample/spdm_device_sample/spdm_device_responder/spdm_responder_main_emu.c:157-184 | the routine returns false iff the listener cannot be created or `accept` fails after sessions that returned true; true iff a session returns false after such sessions |
| ServerProperties.NoAcceptAfterStop | spdm-device-sample/spdm_device_sample/spdm_device_responder/spdm_responder_main_emu.c:178-184 | no connection is accepted after a session that returned false |
| ServerProperties.ServeConnectionsTrace | spdm-device-sample/spdm_device_sample/spdm_device_responder/spdm_responder_main_emu.c:166-184 | every accepted connection is served and, once its session ends, closed; after a session that returned true comes the next accept, after one that returned false only the closing of the listener; the loop returns exactly when its last event closes the listener |
| ServerProperties.ServeConnectionsSessions | spdm-device-sample/spdm_device_sample/spdm_device_responder/spdm_responder_main_emu.c:166-181 | the sessions the loop records are, in order, those `platform_server` holds on the first accepted connections; all but the last returned true, and the loop stops before the end of the accepts only after a session that did not return true or a failed `accept` |
| ServerProperties.RoutineTrace | spdm-device-sample/spdm_device_sample/spdm_device_responder/spdm_responder_main_emu.c:149-185 | the routine's trace is well formed, without a listener it returns false with no events, and with one it serves the accepted connections in order for as long as `platform_server` returns true |

## Left out

- `create_socket` and `init_client` (`socket`, `setsockopt`, `bind`, `listen`, `connect`) are OS plumbing. Creating the listener is a boolean parameter of `PlatformServerRoutine`, and `accept` is a sequence of oracle results.
- Winsock branches, `errno`, `printf`, the `debug` macro and `dump_data` are left out: they only log.
- The SPDM engine (`libspdm_responder_dispatch_message`) and the PCI-DoE responder (`pci_doe_get_response_doe_request`) are oracles.
  - Each `Round` gives the dispatch status, `m_command` after the dispatch, and the DoE answer. Statuses the dispatcher does not tell apart are one `OtherStatus`.
  - The engine's own traffic on the socket is part of the oracle. The modelled socket records only the dispatcher's replies.
  - `spdm_server_init`, `pci_doe_init_responder` and `spdm_dispatch` are not part of this model.
- The PCI-DoE response in a `DoeAnswer` has any length. The bound `response_size <= sizeof(response)` is not modelled, because `LIBPCIDOE_MAX_NON_SPDM_MESSAGE_SIZE` is not part of this model.
- The `OOB_ENCAP_KEY_UPDATE` branch is modelled as in the default build: no reply, and the loop goes on. The conditionally compiled key-update reply is left out.
- `spdm_responder_main.c` is an endless loop around the external engine with no local logic. `debuglib.c` only prints and spins. Neither is part of this model.
- The `switch` at `sock_io.c:153-158` has no effect and is left out.
- Termination is modelled with finite oracle scripts:
  - `platform_server`'s `while (true)` ends with `Unfinished` when the rounds run out.
  - The accept loop ends with `Unfinished` when no further connection arrives, where the source would block in `accept`.
- `m_server_socket` is a local of `PlatformServerRoutine`; the global is not modelled. The TCP handshake setting and the IP address are not modelled; the core does not read them.
- `size_t` is an unbounded `nat`. The code's explicit `(uint32_t)` casts of `size_t` values are modelled as reduction modulo 2^32.
- Sockets.Socket.Send: a failed `send` returns -1. On POSIX, `send(..., 0)` at `sock_io.c:176` on a connection the peer has closed raises SIGPIPE, and by default SIGPIPE ends the process. The "send failed, return true" branches of `platform_server` (`spdm_responder_main_emu.c:73-76`, `:97-100`, `:107-110`, `:128-131`, `:140-143`) behave as modelled only under Winsock or when SIGPIPE is ignored. Signal delivery is not modelled.
- `recv` and `send` pick their chunk sizes nondeterministically. `Socket.Recv` fails only at the end of the stream, and `Socket.Send` only once the connection's byte budget is spent. Errors in the middle of a stream that is still delivering are not modelled separately.
- The macro `SOCKET_SPDM_COMMAND_UNKOWN` (sic, `sock_io.h:53`) is named `SOCKET_SPDM_COMMAND_UNKNOWN` here.
