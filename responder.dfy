/**
 * The responder's platform server: the command dispatcher that runs after
 * each round of the protocol engine (`platform_server`) and the
 * accept/serve/close loop around it (`platform_server_routine`).
 *
 * The protocol engine and the PCI-DoE responder are foreign code; each
 * round of the serving loop is given by an oracle `Round` that says what the
 * engine's dispatch returned, what `m_command` then held, and what the
 * PCI-DoE responder answers if it is asked. The engine's own traffic on the
 * socket is part of that oracle; the socket records the dispatcher's replies.
 */
module Responder {
  import opened ByteOrder
  import opened Sockets
  import opened SockIo

  /** The protocol engine's dispatch statuses, as far as the dispatcher tells them apart. */
  datatype Status = Success | SendFail | ReceiveFail | UnsupportedCap | OtherStatus

  /** The PCI-DoE responder's answer to the buffered request. */
  datatype DoeAnswer = DoeError | DoeResponse(response: seq<byte>)

  /**
   * One round of the serving loop: the engine's status, the value of
   * `m_command` after the engine's dispatch, and the PCI-DoE answer.
   */
  datatype Round = Round(status: Status, command: u32, doe: DoeAnswer)

  /** A NUL-terminated C string literal as the bytes it occupies. */
  function CString(s: string): (b: seq<byte>)
    requires forall i :: 0 <= i < |s| ==> s[i] as int < 0x100
    ensures |b| == |s| + 1 && b[|s|] == 0
    ensures forall i :: 0 <= i < |s| ==> b[i] as int == s[i] as int
  {
    seq(|s|, i requires 0 <= i < |s| => s[i] as int as byte) + [0]
  }

  /** The payload of the answer to `TEST`: `"Server Hello!"` with its NUL. */
  const SERVER_HELLO: seq<byte> := [0x53, 0x65, 0x72, 0x76, 0x65, 0x72, 0x20, 0x48, 0x65, 0x6C, 0x6C, 0x6F, 0x21, 0x00]

  /** The greeting's bytes are the ASCII string `"Server Hello!"` and its terminating NUL. */
  lemma ServerHelloText()
    ensures SERVER_HELLO == CString("Server Hello!")
  {
  }

  /** The reply frame, if any, that the dispatcher sends in a round. */
  datatype Reply = Silent | Reply(command: u32, payload: seq<byte>)

  /** Whether the serving loop goes on, or which value `platform_server` returns. */
  datatype Next = Continue | Finish(continueServing: bool)

  /** What the dispatcher does in a round whose reply, if any, is sent in full. */
  datatype Decision = Decision(reply: Reply, next: Next)

  /** How `platform_server` ends: with a value, or still serving when the oracle's rounds run out. */
  datatype Run = Returned(value: bool) | Unfinished

  /** The result of serving a connection and the bytes delivered to the peer. */
  datatype Session = Session(run: Run, outgoing: seq<byte>)

  /** The dispatcher's rule for one round, as a table over the engine's status and the command. */
  function Decide(round: Round): Decision {
    match round.status
    case SendFail => Decision(Silent, Finish(false))
    case ReceiveFail => Decision(Silent, Finish(false))
    case Success => Decision(Silent, Continue)
    case OtherStatus => Decision(Silent, Continue)
    case UnsupportedCap =>
      var command := round.command;
      if command == SOCKET_SPDM_COMMAND_TEST then
        Decision(Reply(SOCKET_SPDM_COMMAND_TEST, SERVER_HELLO), Continue)
      else if command == SOCKET_SPDM_COMMAND_OOB_ENCAP_KEY_UPDATE then
        Decision(Silent, Continue)
      else if command == SOCKET_SPDM_COMMAND_SHUTDOWN then
        Decision(Reply(SOCKET_SPDM_COMMAND_SHUTDOWN, []), Finish(false))
      else if command == SOCKET_SPDM_COMMAND_CONTINUE then
        Decision(Reply(SOCKET_SPDM_COMMAND_CONTINUE, []), Finish(true))
      else if command == SOCKET_SPDM_COMMAND_NORMAL then
        match round.doe
        case DoeError => Decision(Silent, Finish(true))
        case DoeResponse(response) => Decision(Reply(SOCKET_SPDM_COMMAND_NORMAL, response), Continue)
      else
        Decision(Reply(SOCKET_SPDM_COMMAND_UNKNOWN, []), Finish(true))
  }

  /** The frame that carries a reply; nothing for a silent round. */
  function ReplyWire(reply: Reply, transport: u32): (wire: seq<byte>)
    ensures reply.Silent? <==> wire == []
  {
    match reply
    case Silent => []
    case Reply(command, payload) => SendWire(command, transport, payload)
  }

  /**
   * Serving `rounds` over a connection that delivers at most `limit` bytes,
   * `out` having been delivered already: a failed send ends the session with
   * `true`.
   */
  function Serve(rounds: seq<Round>, transport: u32, limit: nat, out: seq<byte>): (s: Session)
    requires |out| <= limit
    ensures |s.outgoing| <= limit
    decreases |rounds|, 1
  {
    if rounds == [] then Session(Unfinished, out)
    else ServeDecision(Decide(rounds[0]), rounds[1..], transport, limit, out)
  }

  /** Carrying out the decision taken for one round, then serving the `rest`. */
  function ServeDecision(d: Decision, rest: seq<Round>, transport: u32, limit: nat, out: seq<byte>): (s: Session)
    requires |out| <= limit
    ensures |s.outgoing| <= limit
    decreases |rest| + 1, 0
  {
    match d.reply
    case Silent =>
      (match d.next
       case Continue => Serve(rest, transport, limit, out)
       case Finish(v) => Session(Returned(v), out))
    case Reply(command, payload) =>
      var wire := SendWire(command, transport, payload);
      var sent := Deliver(limit, out, wire);
      if |out| + |wire| > limit then Session(Returned(true), sent)
      else
        match d.next
        case Continue => Serve(rest, transport, limit, sent)
        case Finish(v) => Session(Returned(v), sent)
  }

  /** The replies and the result of serving `rounds` when every send succeeds. */
  function Planned(rounds: seq<Round>, transport: u32): Session
    decreases |rounds|
  {
    if rounds == [] then Session(Unfinished, [])
    else
      var d := Decide(rounds[0]);
      var wire := ReplyWire(d.reply, transport);
      match d.next
      case Continue =>
        var rest := Planned(rounds[1..], transport);
        Session(rest.run, wire + rest.outgoing)
      case Finish(v) => Session(Returned(v), wire)
  }

  /** One round of serving, stated for silent rounds and replies alike. */
  lemma ServeStep(rounds: seq<Round>, transport: u32, limit: nat, out: seq<byte>)
    requires |out| <= limit && rounds != []
    ensures var d := Decide(rounds[0]);
            var wire := ReplyWire(d.reply, transport);
            Serve(rounds, transport, limit, out)
            == if |out| + |wire| > limit then Session(Returned(true), Deliver(limit, out, wire))
               else if d.next == Continue then Serve(rounds[1..], transport, limit, out + wire)
               else Session(Returned(d.next.continueServing), out + wire)
  {
    if Decide(rounds[0]).reply.Silent? {
      assert out + [] == out;
    }
  }

  /**
   * One pass of `platform_server`'s loop: the engine's round, then the
   * dispatcher's answer when the engine declined the message as
   * unsupported. Returns `Continue` when the loop goes on, and otherwise the
   * value `platform_server` returns.
   */
  method DispatchRound(socket: Socket, cfg: Config, round: Round) returns (next: Next)
    requires socket.Valid()
    modifies socket`outgoing
    ensures socket.Valid()
    ensures var d := Decide(round);
            var wire := ReplyWire(d.reply, cfg.transportLayer);
            && socket.outgoing == Deliver(socket.sendLimit, old(socket.outgoing), wire)
            && next == if |old(socket.outgoing)| + |wire| > socket.sendLimit then Finish(true) else d.next
  {
    // libspdm_responder_dispatch_message
    var status := round.status;
    if status == SendFail || status == ReceiveFail {
      return Finish(false);
    }
    if status != UnsupportedCap {
      return Continue;
    }
    var command := round.command;
    if command == SOCKET_SPDM_COMMAND_TEST {
      var result := SendPlatformData(socket, cfg, SOCKET_SPDM_COMMAND_TEST, SERVER_HELLO);
      if !result {
        return Finish(true);
      }
    } else if command == SOCKET_SPDM_COMMAND_OOB_ENCAP_KEY_UPDATE {
      // The key-update reply is compiled out of the default build.
    } else if command == SOCKET_SPDM_COMMAND_SHUTDOWN {
      var result := SendPlatformData(socket, cfg, SOCKET_SPDM_COMMAND_SHUTDOWN, []);
      if !result {
        return Finish(true);
      }
      return Finish(false);
    } else if command == SOCKET_SPDM_COMMAND_CONTINUE {
      var result := SendPlatformData(socket, cfg, SOCKET_SPDM_COMMAND_CONTINUE, []);
      if !result {
        return Finish(true);
      }
      return Finish(true);
    } else if command == SOCKET_SPDM_COMMAND_NORMAL {
      // pci_doe_get_response_doe_request
      match round.doe
      case DoeError =>
        return Finish(true);
      case DoeResponse(response) =>
        var result := SendPlatformData(socket, cfg, SOCKET_SPDM_COMMAND_NORMAL, response);
        if !result {
          return Finish(true);
        }
    } else {
      var result := SendPlatformData(socket, cfg, SOCKET_SPDM_COMMAND_UNKNOWN, []);
      if !result {
        return Finish(true);
      }
      return Finish(true);
    }
    return Continue;
  }

  /**
   * `platform_server`: runs the engine round after round; when the engine
   * declines a message as unsupported, answers the control command itself.
   */
  method PlatformServer(socket: Socket, cfg: Config, rounds: seq<Round>) returns (run: Run)
    requires socket.Valid()
    modifies socket`outgoing
    ensures socket.Valid()
    ensures Session(run, socket.outgoing)
            == Serve(rounds, cfg.transportLayer, socket.sendLimit, old(socket.outgoing))
  {
    ghost var t, limit := cfg.transportLayer, socket.sendLimit;
    var i := 0;
    while i < |rounds|
      invariant 0 <= i <= |rounds| && socket.Valid()
      invariant Serve(rounds, t, limit, old(socket.outgoing)) == Serve(rounds[i..], t, limit, socket.outgoing)
      decreases |rounds| - i
    {
      ServeStep(rounds[i..], t, limit, socket.outgoing);
      assert rounds[i..][0] == rounds[i] && rounds[i..][1..] == rounds[i + 1..];
      var next := DispatchRound(socket, cfg, rounds[i]);
      if next.Finish? {
        return Returned(next.continueServing);
      }
      i := i + 1;
    }
    return Unfinished;
  }

  /** A peer connection as the accept loop gets it. */
  datatype Connection = Connection(incoming: seq<byte>, resetAtEnd: bool, sendLimit: nat, rounds: seq<Round>)

  /** What `accept` returns. */
  datatype Accept = AcceptFailed | Accepted(connection: Connection)

  /** The socket-level events of the accept loop. */
  datatype Event = SessionAccepted | SessionServed(session: Session) | SessionClosed | ListenerClosed

  /** How `platform_server_routine` ends, and the events on the way. */
  datatype RoutineRun = RoutineRun(run: Run, trace: seq<Event>)

  /** The session `platform_server` holds on a freshly accepted connection. */
  function ServeConnection(c: Connection, transport: u32): Session {
    Serve(c.rounds, transport, c.sendLimit, [])
  }

  /** `platform_server` as a function of the connection it serves. */
  function Server(transport: u32): Connection -> Session {
    c => ServeConnection(c, transport)
  }

  /**
   * The accept loop over the listener, one accepted connection at a time,
   * where `serve` gives the session held on each accepted connection.
   */
  function ServeConnections(accepts: seq<Accept>, serve: Connection -> Session): RoutineRun
    decreases |accepts|
  {
    if accepts == [] then RoutineRun(Unfinished, [])
    else
      match accepts[0]
      case AcceptFailed => RoutineRun(Returned(false), [ListenerClosed])
      case Accepted(c) =>
        var s := serve(c);
        var served := [SessionAccepted, SessionServed(s)];
        match s.run
        case Unfinished => RoutineRun(Unfinished, served)
        case Returned(continueServing) =>
          if continueServing then
            var rest := ServeConnections(accepts[1..], serve);
            RoutineRun(rest.run, served + [SessionClosed] + rest.trace)
          else
            RoutineRun(Returned(true), served + [SessionClosed, ListenerClosed])
  }

  /** `platform_server_routine`, given whether the listening socket could be created. */
  function Routine(listenerCreated: bool, accepts: seq<Accept>, transport: u32): RoutineRun {
    if listenerCreated then ServeConnections(accepts, Server(transport)) else RoutineRun(Returned(false), [])
  }

  /** The accept loop from the `i`-th accept on, given the session held on that connection. */
  lemma ServeConnectionsStep(accepts: seq<Accept>, i: nat, serve: Connection -> Session)
    requires i < |accepts| && accepts[i].Accepted?
    ensures var s := serve(accepts[i].connection);
            var served := [SessionAccepted, SessionServed(s)];
            var rest := ServeConnections(accepts[i + 1..], serve);
            ServeConnections(accepts[i..], serve)
            == match s.run
               case Unfinished => RoutineRun(Unfinished, served)
               case Returned(continueServing) =>
                 if continueServing then RoutineRun(rest.run, served + [SessionClosed] + rest.trace)
                 else RoutineRun(Returned(true), served + [SessionClosed, ListenerClosed])
  {
    assert accepts[i..][0] == accepts[i];
    assert accepts[i..][1..] == accepts[i + 1..];
  }

  /**
   * `platform_server_routine`: creates the listener, then accepts a
   * connection, serves it and closes it for as long as `platform_server`
   * returns true.
   */
  method PlatformServerRoutine(cfg: Config, listenerCreated: bool, accepts: seq<Accept>)
    returns (run: Run, trace: seq<Event>)
    ensures RoutineRun(run, trace) == Routine(listenerCreated, accepts, cfg.transportLayer)
  {
    ghost var server := Server(cfg.transportLayer);
    // create_socket
    if !listenerCreated {
      return Returned(false), [];
    }
    trace := [];
    var i := 0;
    var continueServing := true;
    while continueServing
      invariant 0 <= i <= |accepts|
      invariant continueServing ==>
                  var rest := ServeConnections(accepts[i..], server);
                  Routine(listenerCreated, accepts, cfg.transportLayer) == RoutineRun(rest.run, trace + rest.trace)
      invariant !continueServing ==>
                  Routine(listenerCreated, accepts, cfg.transportLayer) == RoutineRun(Returned(true), trace + [ListenerClosed])
      decreases |accepts| - i
    {
      if i == |accepts| {
        // No further peer connects: `accept` blocks for ever.
        return Unfinished, trace;
      }
      var accepted := accepts[i];
      if accepted.AcceptFailed? {
        assert accepts[i..][0] == accepted;
        trace := trace + [ListenerClosed];
        return Returned(false), trace;
      }
      var c := accepted.connection;
      var serverSocket := new Socket(c.incoming, c.resetAtEnd, c.sendLimit);
      ghost var before := trace;
      trace := trace + [SessionAccepted];
      var served := PlatformServer(serverSocket, cfg, c.rounds);
      var session := Session(served, serverSocket.outgoing);
      assert session == server(c);
      ServeConnectionsStep(accepts, i, server);
      if served.Unfinished? {
        trace := trace + [SessionServed(session)];
        assert trace == before + [SessionAccepted, SessionServed(session)];
        return Unfinished, trace;
      }
      serverSocket.Close();
      trace := trace + [SessionServed(session), SessionClosed];
      ghost var rest := ServeConnections(accepts[i + 1..], server);
      assert trace + rest.trace == before + ([SessionAccepted, SessionServed(session)] + [SessionClosed] + rest.trace);
      assert trace + [ListenerClosed] == before + [SessionAccepted, SessionServed(session), SessionClosed, ListenerClosed];
      continueServing := served.value;
      i := i + 1;
    }
    trace := trace + [ListenerClosed];
    run := Returned(true);
  }
}
