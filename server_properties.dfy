/**
 * Properties of the platform server: the dispatcher's command table, what a
 * served session delivers to the peer, and how the accept loop brackets its
 * sessions and ends.
 */
module ServerProperties {
  import opened ByteOrder
  import opened Sockets
  import opened SockIo
  import opened FrameProperties
  import opened Responder

  /** The commands the dispatcher answers by name; every other one gets `UNKNOWN`. */
  predicate KnownCommand(command: u32) {
    command in {SOCKET_SPDM_COMMAND_TEST, SOCKET_SPDM_COMMAND_OOB_ENCAP_KEY_UPDATE, SOCKET_SPDM_COMMAND_SHUTDOWN,
                SOCKET_SPDM_COMMAND_CONTINUE, SOCKET_SPDM_COMMAND_NORMAL}
  }

  /** A round after which the serving loop goes on (when its reply, if any, is sent). */
  predicate Continues(r: Round) {
    Decide(r).next == Continue
  }

  /** The dispatcher stays silent exactly when the engine handled the message, on key update, and on a DoE error. */
  lemma SilentRounds(r: Round)
    ensures Decide(r).reply == Silent <==>
              || r.status != UnsupportedCap
              || r.command == SOCKET_SPDM_COMMAND_OOB_ENCAP_KEY_UPDATE
              || (r.command == SOCKET_SPDM_COMMAND_NORMAL && r.doe.DoeError?)
  {
  }

  /**
   * Which frame answers an unsupported message: `TEST` gets the greeting,
   * `SHUTDOWN` and `CONTINUE` are echoed empty, `NORMAL` carries the DoE
   * response, and any unknown command gets an empty `UNKNOWN`.
   */
  lemma ReplyFrames(r: Round)
    requires r.status == UnsupportedCap
    ensures r.command == SOCKET_SPDM_COMMAND_TEST ==> Decide(r).reply == Reply(SOCKET_SPDM_COMMAND_TEST, SERVER_HELLO)
    ensures r.command == SOCKET_SPDM_COMMAND_SHUTDOWN ==> Decide(r).reply == Reply(SOCKET_SPDM_COMMAND_SHUTDOWN, [])
    ensures r.command == SOCKET_SPDM_COMMAND_CONTINUE ==> Decide(r).reply == Reply(SOCKET_SPDM_COMMAND_CONTINUE, [])
    ensures r.command == SOCKET_SPDM_COMMAND_NORMAL && r.doe.DoeResponse? ==>
              Decide(r).reply == Reply(SOCKET_SPDM_COMMAND_NORMAL, r.doe.response)
    ensures !KnownCommand(r.command) ==> Decide(r).reply == Reply(SOCKET_SPDM_COMMAND_UNKNOWN, [])
  {
  }

  /** `platform_server` returns false exactly on an engine send or receive failure and on `SHUTDOWN`. */
  lemma StopServingRounds(r: Round)
    ensures Decide(r).next == Finish(false) <==>
              || r.status == SendFail || r.status == ReceiveFail
              || (r.status == UnsupportedCap && r.command == SOCKET_SPDM_COMMAND_SHUTDOWN)
  {
  }

  /**
   * `platform_server` returns true after a fully sent reply exactly on
   * `CONTINUE`, on a DoE error and on an unknown command.
   */
  lemma EndSessionRounds(r: Round)
    ensures Decide(r).next == Finish(true) <==>
              && r.status == UnsupportedCap
              && (|| r.command == SOCKET_SPDM_COMMAND_CONTINUE
                  || (r.command == SOCKET_SPDM_COMMAND_NORMAL && r.doe.DoeError?)
                  || !KnownCommand(r.command))
  {
  }

  /** One round of the plan, stated for silent rounds and replies alike. */
  lemma PlannedStep(rounds: seq<Round>, transport: u32)
    requires rounds != []
    ensures var d := Decide(rounds[0]);
            var wire := ReplyWire(d.reply, transport);
            var rest := Planned(rounds[1..], transport);
            Planned(rounds, transport)
            == if d.next == Continue then Session(rest.run, wire + rest.outgoing)
               else Session(Returned(d.next.continueServing), wire)
  {
  }

  /** What the plan delivers once `wire` is followed by the rest of the plan. */
  function Delivered(limit: nat, out: seq<byte>, plan: Session): Session
    requires |out| <= limit
  {
    if |out| + |plan.outgoing| <= limit then Session(plan.run, out + plan.outgoing)
    else Session(Returned(true), Deliver(limit, out, plan.outgoing))
  }

  /** Sending one reply and then the rest of a plan delivers what the whole plan would. */
  lemma DeliveredAppend(limit: nat, out: seq<byte>, wire: seq<byte>, rest: Session)
    requires |out| + |wire| <= limit
    ensures Delivered(limit, out + wire, rest) == Delivered(limit, out, Session(rest.run, wire + rest.outgoing))
  {
    DeliverAppend(limit, out, wire, rest.outgoing);
    assert out + wire + rest.outgoing == out + (wire + rest.outgoing);
  }

  /** A reply that does not fit ends the session whatever the rest of the plan would send. */
  lemma DeliveredOverflow(limit: nat, out: seq<byte>, wire: seq<byte>, rest: seq<byte>)
    requires |out| <= limit < |out| + |wire|
    ensures Deliver(limit, out, wire) == Deliver(limit, out, wire + rest)
  {
    DeliverAppend(limit, out, wire, rest);
    DeliverSaturated(limit, Deliver(limit, out, wire), rest);
  }

  /**
   * A session serves its rounds as planned while its replies fit the
   * connection; once a reply does not fit, `platform_server` returns true
   * with as much of the plan delivered as the connection took.
   */
  lemma {:induction false} ServeFollowsPlan(rounds: seq<Round>, transport: u32, limit: nat, out: seq<byte>)
    requires |out| <= limit
    ensures Serve(rounds, transport, limit, out) == Delivered(limit, out, Planned(rounds, transport))
    decreases |rounds|
  {
    if rounds == [] {
      assert out + [] == out;
    } else {
      ServeStep(rounds, transport, limit, out);
      PlannedStep(rounds, transport);
      var d := Decide(rounds[0]);
      var wire := ReplyWire(d.reply, transport);
      var rest := Planned(rounds[1..], transport);
      if |out| + |wire| > limit {
        DeliveredOverflow(limit, out, wire, rest.outgoing);
      } else if d.next == Continue {
        ServeFollowsPlan(rounds[1..], transport, limit, out + wire);
        DeliveredAppend(limit, out, wire, rest);
      }
    }
  }

  /**
   * When every reply is sent, `platform_server` returns the value of the
   * first round that ends the loop, and keeps serving while none does.
   */
  lemma {:induction false} PlannedRun(rounds: seq<Round>, transport: u32, v: bool)
    ensures Planned(rounds, transport).run == Returned(v) <==>
              exists k :: 0 <= k < |rounds| && (forall j :: 0 <= j < k ==> Continues(rounds[j]))
                          && Decide(rounds[k]).next == Finish(v)
    ensures Planned(rounds, transport).run == Unfinished <==> forall j :: 0 <= j < |rounds| ==> Continues(rounds[j])
    decreases |rounds|
  {
    if rounds != [] {
      var rest := rounds[1..];
      PlannedRun(rest, transport, v);
      if Continues(rounds[0]) {
        assert Planned(rounds, transport).run == Planned(rest, transport).run;
        if Planned(rest, transport).run == Returned(v) {
          var k' :| 0 <= k' < |rest| && (forall j :: 0 <= j < k' ==> Continues(rest[j]))
                    && Decide(rest[k']).next == Finish(v);
          assert forall j :: 0 <= j < k' + 1 ==> Continues(rounds[j]) by {
            forall j | 0 <= j < k' + 1 ensures Continues(rounds[j]) {
              if j > 0 {
                assert rounds[j] == rest[j - 1];
              }
            }
          }
          assert Decide(rounds[k' + 1]).next == Finish(v);
        }
        if exists k :: 0 <= k < |rounds| && (forall j :: 0 <= j < k ==> Continues(rounds[j]))
                       && Decide(rounds[k]).next == Finish(v) {
          var k :| 0 <= k < |rounds| && (forall j :: 0 <= j < k ==> Continues(rounds[j]))
                   && Decide(rounds[k]).next == Finish(v);
          assert k > 0;
          assert forall j :: 0 <= j < k - 1 ==> Continues(rest[j]) by {
            forall j | 0 <= j < k - 1 ensures Continues(rest[j]) {
              assert rest[j] == rounds[j + 1];
            }
          }
          assert Decide(rest[k - 1]).next == Finish(v);
        }
        if forall j :: 0 <= j < |rest| ==> Continues(rest[j]) {
          forall j | 0 <= j < |rounds| ensures Continues(rounds[j]) {
            if j > 0 {
              assert rounds[j] == rest[j - 1];
            }
          }
        }
      } else {
        assert !(forall j :: 0 <= j < |rounds| ==> Continues(rounds[j]));
        if Planned(rounds, transport).run == Returned(v) {
          assert Decide(rounds[0]).next == Finish(v);
        }
      }
    }
  }

  /** The peer of a session that returned false received every reply the session's rounds called for. */
  lemma StoppedSessionDeliveredPlan(rounds: seq<Round>, transport: u32, limit: nat)
    requires Serve(rounds, transport, limit, []).run == Returned(false)
    ensures Planned(rounds, transport) == Session(Returned(false), Serve(rounds, transport, limit, []).outgoing)
  {
    ServeFollowsPlan(rounds, transport, limit, []);
    assert [] + Planned(rounds, transport).outgoing == Planned(rounds, transport).outgoing;
  }

  /** A session whose first round answers `TEST` delivers the greeting frame first. */
  lemma TestAnswered(c: Connection, transport: u32)
    requires |c.rounds| > 0 && c.rounds[0].status == UnsupportedCap
    requires c.rounds[0].command == SOCKET_SPDM_COMMAND_TEST
    requires c.sendLimit >= 26
    ensures var out := ServeConnection(c, transport).outgoing;
            |out| >= 26 && out[..26] == SendWire(SOCKET_SPDM_COMMAND_TEST, transport, SERVER_HELLO)
  {
    var wire := SendWire(SOCKET_SPDM_COMMAND_TEST, transport, SERVER_HELLO);
    var p := Planned(c.rounds, transport);
    var rest := Planned(c.rounds[1..], transport);
    assert p.outgoing == wire + rest.outgoing;
    ServeFollowsPlan(c.rounds, transport, c.sendLimit, []);
    var out := ServeConnection(c, transport).outgoing;
    assert [] + p.outgoing == p.outgoing;
    assert out[..26] == wire;
  }

  /**
   * The `TEST` exchange: when the engine declines the first message as
   * unsupported with `m_command` = `TEST`, the peer receives a `TEST` frame
   * carrying `"Server Hello!"` with its NUL, 26 bytes in all.
   */
  lemma TestExchange(c: Connection, transport: u32, capacity: nat)
    requires |c.rounds| > 0 && c.rounds[0].status == UnsupportedCap
    requires c.rounds[0].command == SOCKET_SPDM_COMMAND_TEST
    requires c.sendLimit >= 26 && capacity % TWO_32 >= 14
    ensures |SERVER_HELLO| == 14
    ensures ParseFrame(ServeConnection(c, transport).outgoing, transport, capacity)
            == FrameRead(Received(SERVER_HELLO), Some(SOCKET_SPDM_COMMAND_TEST), 26)
  {
    TestAnswered(c, transport);
    var out := ServeConnection(c, transport).outgoing;
    assert out == out[..26] + out[26..];
    ReceiveSentFrame(SOCKET_SPDM_COMMAND_TEST, transport, SERVER_HELLO, out[26..], capacity);
  }

  /** A session whose first round carries an unknown command sends one empty `UNKNOWN` frame and returns true. */
  lemma UnknownCommandAnswered(c: Connection, transport: u32)
    requires |c.rounds| > 0 && c.rounds[0].status == UnsupportedCap && !KnownCommand(c.rounds[0].command)
    requires c.sendLimit >= 12
    ensures ServeConnection(c, transport) == Session(Returned(true), SendWire(SOCKET_SPDM_COMMAND_UNKNOWN, transport, []))
  {
    var wire := SendWire(SOCKET_SPDM_COMMAND_UNKNOWN, transport, []);
    ServeStep(c.rounds, transport, c.sendLimit, []);
    assert [] + wire == wire;
  }

  /**
   * An unknown command is answered with an empty `UNKNOWN` frame, after which
   * `platform_server` returns true: the session ends and the next
   * connection is accepted.
   */
  lemma UnknownCommandExchange(c: Connection, transport: u32, capacity: nat)
    requires |c.rounds| > 0 && c.rounds[0].status == UnsupportedCap && !KnownCommand(c.rounds[0].command)
    requires c.sendLimit >= 12
    ensures ServeConnection(c, transport).run == Returned(true)
    ensures ParseFrame(ServeConnection(c, transport).outgoing, transport, capacity)
            == FrameRead(Received([]), Some(SOCKET_SPDM_COMMAND_UNKNOWN), 12)
  {
    UnknownCommandAnswered(c, transport);
    var wire := SendWire(SOCKET_SPDM_COMMAND_UNKNOWN, transport, []);
    ReceiveSentFrame(SOCKET_SPDM_COMMAND_UNKNOWN, transport, [], [], capacity);
    assert wire + [] == wire;
  }

  /**
   * `SHUTDOWN` on an accepted connection: the server echoes an empty
   * `SHUTDOWN` frame, closes the connection and the listener, and the routine
   * returns true without accepting another connection.
   */
  lemma ShutdownEndsRoutine(c: Connection, later: seq<Accept>, transport: u32)
    requires |c.rounds| > 0 && c.rounds[0].status == UnsupportedCap
    requires c.rounds[0].command == SOCKET_SPDM_COMMAND_SHUTDOWN
    requires c.sendLimit >= 12
    ensures var s := Session(Returned(false), SendWire(SOCKET_SPDM_COMMAND_SHUTDOWN, transport, []));
            Routine(true, [Accepted(c)] + later, transport)
            == RoutineRun(Returned(true), [SessionAccepted, SessionServed(s), SessionClosed, ListenerClosed])
  {
    var wire := SendWire(SOCKET_SPDM_COMMAND_SHUTDOWN, transport, []);
    ServeStep(c.rounds, transport, c.sendLimit, []);
    assert [] + wire == wire;
    assert ([Accepted(c)] + later)[0] == Accepted(c);
  }

  /** An accepted connection on which `serve` returns true, so that the loop accepts again. */
  predicate KeepsServing(a: Accept, serve: Connection -> Session) {
    a.Accepted? && serve(a.connection).run == Returned(true)
  }

  /** The first `k` accepts all led to sessions after which the loop accepts again. */
  predicate ServedOn(accepts: seq<Accept>, k: nat, serve: Connection -> Session)
    requires k <= |accepts|
  {
    forall j :: 0 <= j < k ==> KeepsServing(accepts[j], serve)
  }

  /**
   * The accept loop returns true exactly when some session returns false
   * after all earlier ones returned true, and false exactly when `accept`
   * fails after such sessions.
   */
  lemma {:induction false} ServeConnectionsRun(accepts: seq<Accept>, serve: Connection -> Session)
    ensures ServeConnections(accepts, serve).run == Returned(true) <==>
              exists k :: 0 <= k < |accepts| && ServedOn(accepts, k, serve) && accepts[k].Accepted?
                          && serve(accepts[k].connection).run == Returned(false)
    ensures ServeConnections(accepts, serve).run == Returned(false) <==>
              exists k :: 0 <= k < |accepts| && ServedOn(accepts, k, serve) && accepts[k].AcceptFailed?
    decreases |accepts|
  {
    if accepts != [] {
      var rest := accepts[1..];
      ServeConnectionsRun(rest, serve);
      var a := accepts[0];
      assert ServedOn(accepts, 0, serve);
      if KeepsServing(a, serve) {
        assert ServeConnections(accepts, serve).run == ServeConnections(rest, serve).run;
        forall k | 0 <= k < |rest|
          ensures ServedOn(rest, k, serve) <==> ServedOn(accepts, k + 1, serve)
        {
          if ServedOn(rest, k, serve) {
            forall j | 0 <= j < k + 1 ensures KeepsServing(accepts[j], serve) {
              if j > 0 {
                assert accepts[j] == rest[j - 1];
              }
            }
          }
          if ServedOn(accepts, k + 1, serve) {
            forall j | 0 <= j < k ensures KeepsServing(rest[j], serve) {
              assert rest[j] == accepts[j + 1];
            }
          }
        }
        forall k | 0 <= k < |accepts| && ServedOn(accepts, k, serve) && !KeepsServing(accepts[k], serve)
          ensures k > 0 && ServedOn(rest, k - 1, serve) && rest[k - 1] == accepts[k]
        {
        }
      } else {
        forall k | 0 < k < |accepts| ensures !ServedOn(accepts, k, serve) {
          assert !KeepsServing(accepts[0], serve);
        }
      }
    }
  }

  /**
   * `platform_server_routine` returns true exactly when, after sessions that
   * each returned true, a session returns false; it returns false when the
   * listener cannot be created or `accept` fails after such sessions.
   */
  lemma RoutineResult(listenerCreated: bool, accepts: seq<Accept>, transport: u32)
    ensures var server := Server(transport);
            Routine(listenerCreated, accepts, transport).run == Returned(true) <==>
              && listenerCreated
              && exists k :: 0 <= k < |accepts| && ServedOn(accepts, k, server) && accepts[k].Accepted?
                             && ServeConnection(accepts[k].connection, transport).run == Returned(false)
    ensures var server := Server(transport);
            Routine(listenerCreated, accepts, transport).run == Returned(false) <==>
              || !listenerCreated
              || exists k :: 0 <= k < |accepts| && ServedOn(accepts, k, server) && accepts[k].AcceptFailed?
  {
    ServeConnectionsRun(accepts, Server(transport));
  }

  /**
   * Which event may follow which in the accept loop: an accepted connection
   * is served, a session that ended is closed, and after a closed session
   * comes the next accept or the closing of the listener.
   */
  predicate Follows(e: Event, next: Event) {
    match e
    case SessionAccepted => next.SessionServed?
    case SessionServed(s) => s.run.Returned? && next == SessionClosed
    case SessionClosed => next == SessionAccepted || next == ListenerClosed
    case ListenerClosed => false
  }

  /** A served session after which `platform_server_routine` leaves its loop. */
  predicate StopsServing(e: Event) {
    e.SessionServed? && e.session.run == Returned(false)
  }

  /**
   * The event order of the accept loop: it starts with an accept or with
   * the closing of the listener, each event may follow the one before it,
   * it does not stop right after an accept or after a session that ended
   * without closing its connection, and a session that returned false is
   * followed only by closing its connection and the listener.
   */
  predicate WellFormedTrace(trace: seq<Event>) {
    && (|trace| > 0 ==> (trace[0] == SessionAccepted || trace[0] == ListenerClosed))
    && (|trace| > 0 ==> var last := trace[|trace| - 1];
                        last != SessionAccepted && !(last.SessionServed? && last.session.run.Returned?))
    && (forall i :: 0 <= i < |trace| - 1 ==> Follows(trace[i], trace[i + 1]))
    && (forall i :: 0 <= i < |trace| && StopsServing(trace[i]) ==> trace[i + 1..] == [SessionClosed, ListenerClosed])
  }

  /** In a well-formed trace no connection is accepted after a session that returned false. */
  lemma NoAcceptAfterStop(trace: seq<Event>, i: nat, k: nat)
    requires WellFormedTrace(trace) && i < k < |trace| && StopsServing(trace[i])
    ensures trace[k] != SessionAccepted
  {
    assert trace[k] == trace[i + 1..][k - i - 1];
  }

  /**
   * The traces that end the accept loop are well formed: a failed `accept`
   * (no session), a session still being served, and a session after which
   * the listener is closed.
   */
  lemma LastSessionTrace(s: Option<Session>)
    ensures s.None? ==> WellFormedTrace([ListenerClosed])
    ensures s.Some? && s.value.run.Unfinished? ==> WellFormedTrace([SessionAccepted, SessionServed(s.value)])
    ensures s.Some? && s.value.run == Returned(false) ==>
              WellFormedTrace([SessionAccepted, SessionServed(s.value), SessionClosed, ListenerClosed])
  {
    if s.Some? && s.value.run == Returned(false) {
      var trace := [SessionAccepted, SessionServed(s.value), SessionClosed, ListenerClosed];
      assert trace[2..] == [SessionClosed, ListenerClosed];
    }
  }

  /** A session that returned true, closed, followed by a well-formed trace forms a well-formed trace. */
  lemma SessionThenTrace(s: Session, rest: seq<Event>)
    requires s.run == Returned(true) && WellFormedTrace(rest)
    ensures WellFormedTrace([SessionAccepted, SessionServed(s), SessionClosed] + rest)
  {
    var trace := [SessionAccepted, SessionServed(s), SessionClosed] + rest;
    forall i | 0 <= i < |trace| - 1 ensures Follows(trace[i], trace[i + 1]) {
      if i >= 3 {
        assert trace[i] == rest[i - 3] && trace[i + 1] == rest[i - 2];
      }
    }
    forall i | 0 <= i < |trace| && StopsServing(trace[i]) ensures trace[i + 1..] == [SessionClosed, ListenerClosed] {
      assert i >= 3 && trace[i] == rest[i - 3];
      assert trace[i + 1..] == rest[i - 2..];
    }
  }

  /**
   * The accept loop's events are well formed, and it returns exactly when its
   * last event is the closing of the listener.
   */
  lemma {:induction false} ServeConnectionsTrace(accepts: seq<Accept>, serve: Connection -> Session)
    ensures var r := ServeConnections(accepts, serve);
            && WellFormedTrace(r.trace)
            && (r.run.Returned? <==> |r.trace| > 0 && r.trace[|r.trace| - 1] == ListenerClosed)
    decreases |accepts|
  {
    var r := ServeConnections(accepts, serve);
    if accepts == [] {
    } else if accepts[0].AcceptFailed? {
      assert r.trace == [ListenerClosed];
      LastSessionTrace(None);
    } else {
      var s := serve(accepts[0].connection);
      LastSessionTrace(Some(s));
      match s.run
      case Unfinished =>
        assert r.trace == [SessionAccepted, SessionServed(s)];
      case Returned(continueServing) =>
        if continueServing {
          var rest := ServeConnections(accepts[1..], serve);
          ServeConnectionsTrace(accepts[1..], serve);
          SessionThenTrace(s, rest.trace);
          assert r.trace == [SessionAccepted, SessionServed(s), SessionClosed] + rest.trace;
        } else {
          assert r.trace == [SessionAccepted, SessionServed(s), SessionClosed, ListenerClosed];
        }
    }
  }

  /** The sessions of a trace, in the order they were served. */
  function Served(trace: seq<Event>): (sessions: seq<Session>)
    ensures |sessions| <= |trace|
  {
    if trace == [] then []
    else (if trace[0].SessionServed? then [trace[0].session] else []) + Served(trace[1..])
  }

  /**
   * `sessions` are those of the first accepts, served in order by `serve`:
   * every one of those accepts succeeded, every session but the last
   * returned true, and the loop accepted no further connection only because
   * the last session did not return true or the next `accept` failed.
   */
  predicate ServesInOrder(sessions: seq<Session>, accepts: seq<Accept>, serve: Connection -> Session) {
    && |sessions| <= |accepts|
    && (forall j :: 0 <= j < |sessions| ==> accepts[j].Accepted? && sessions[j] == serve(accepts[j].connection))
    && (forall j :: 0 <= j < |sessions| - 1 ==> sessions[j].run == Returned(true))
    && (|sessions| < |accepts| ==>
          || accepts[|sessions|].AcceptFailed?
          || (|sessions| > 0 && sessions[|sessions| - 1].run != Returned(true)))
  }

  /** The sessions of one served connection followed by the rest of a trace. */
  lemma ServedAfterSession(s: Session, tail: seq<Event>)
    ensures Served([SessionAccepted, SessionServed(s)] + tail) == [s] + Served(tail)
  {
    var trace := [SessionAccepted, SessionServed(s)] + tail;
    assert trace[1..][1..] == tail;
  }

  /** A session that returned true on the first accepted connection, followed by the sessions of the later accepts. */
  lemma SessionsThenServed(s: Session, later: seq<Session>, accepts: seq<Accept>, serve: Connection -> Session)
    requires |accepts| > 0 && accepts[0].Accepted? && s == serve(accepts[0].connection) && s.run == Returned(true)
    requires ServesInOrder(later, accepts[1..], serve)
    ensures ServesInOrder([s] + later, accepts, serve)
  {
    var sessions := [s] + later;
    forall j | 0 < j < |sessions|
      ensures accepts[j].Accepted? && sessions[j] == serve(accepts[j].connection)
    {
      assert accepts[j] == accepts[1..][j - 1] && sessions[j] == later[j - 1];
    }
    forall j | 0 < j < |sessions| - 1 ensures sessions[j].run == Returned(true) {
      assert sessions[j] == later[j - 1];
    }
    if |sessions| < |accepts| {
      assert accepts[|sessions|] == accepts[1..][|later|];
      if |later| > 0 {
        assert sessions[|sessions| - 1] == later[|later| - 1];
      }
    }
  }

  /**
   * The accept loop accepts again exactly while `platform_server` returns
   * true: the sessions it records are those `serve` gives for the accepted
   * connections, in order.
   */
  lemma {:induction false} ServeConnectionsSessions(accepts: seq<Accept>, serve: Connection -> Session)
    ensures ServesInOrder(Served(ServeConnections(accepts, serve).trace), accepts, serve)
    decreases |accepts|
  {
    var r := ServeConnections(accepts, serve);
    if accepts == [] {
    } else if accepts[0].AcceptFailed? {
      assert r.trace == [ListenerClosed];
      assert Served(r.trace) == [] + Served([]);
    } else {
      var s := serve(accepts[0].connection);
      match s.run
      case Unfinished =>
        ServedAfterSession(s, []);
        assert r.trace == [SessionAccepted, SessionServed(s)] + [];
      case Returned(continueServing) =>
        if continueServing {
          var rest := ServeConnections(accepts[1..], serve);
          ServeConnectionsSessions(accepts[1..], serve);
          ServedAfterSession(s, [SessionClosed] + rest.trace);
          assert r.trace == [SessionAccepted, SessionServed(s)] + ([SessionClosed] + rest.trace);
          assert Served([SessionClosed] + rest.trace) == Served(rest.trace) by {
            assert ([SessionClosed] + rest.trace)[1..] == rest.trace;
          }
          SessionsThenServed(s, Served(rest.trace), accepts, serve);
        } else {
          ServedAfterSession(s, [SessionClosed, ListenerClosed]);
          assert r.trace == [SessionAccepted, SessionServed(s)] + [SessionClosed, ListenerClosed];
          assert Served([SessionClosed, ListenerClosed]) == [];
        }
    }
  }

  /**
   * `platform_server_routine` as a whole: its events are well formed whether
   * or not the listener was created, and the sessions it serves are those
   * `platform_server` holds on the accepted connections, in order.
   */
  lemma RoutineTrace(listenerCreated: bool, accepts: seq<Accept>, transport: u32)
    ensures var r := Routine(listenerCreated, accepts, transport);
            && WellFormedTrace(r.trace)
            && (!listenerCreated ==> r == RoutineRun(Returned(false), []))
            && (listenerCreated ==> (r.run.Returned? <==> |r.trace| > 0 && r.trace[|r.trace| - 1] == ListenerClosed))
            && (listenerCreated ==> ServesInOrder(Served(r.trace), accepts, Server(transport)))
  {
    ServeConnectionsTrace(accepts, Server(transport));
    ServeConnectionsSessions(accepts, Server(transport));
  }
}
