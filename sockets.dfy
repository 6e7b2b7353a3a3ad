/**
 * An abstract connected TCP socket in blocking mode, as seen through `recv`,
 * `send` and `closesocket`.
 *
 * The receive side is the byte stream the peer sends, of which `recv` hands
 * out any non-empty chunk it likes, followed by the end of the stream: an
 * orderly close (`recv` returns 0) or a connection error (`recv` returns -1).
 * The send side is the byte stream delivered to the peer; the connection
 * delivers `sendLimit` bytes in all, after which `send` reports an error (-1).
 */
module Sockets {
  import opened ByteOrder

  /**
   * What the peer has received once `data` is sent after `out` over a
   * connection that delivers at most `limit` bytes in all.
   */
  function Deliver(limit: nat, out: seq<byte>, data: seq<byte>): (delivered: seq<byte>)
    requires |out| <= limit
    ensures |delivered| <= limit && delivered <= out + data
    ensures delivered == out + data <==> |out| + |data| <= limit
  {
    if |out| + |data| <= limit then out + data else (out + data)[..limit]
  }

  /** Sending `a` and then `b` delivers what sending `a + b` at once would. */
  lemma DeliverAppend(limit: nat, out: seq<byte>, a: seq<byte>, b: seq<byte>)
    requires |out| <= limit
    ensures Deliver(limit, Deliver(limit, out, a), b) == Deliver(limit, out, a + b)
  {
    assert out + a + b == out + (a + b);
    if |out| + |a| > limit {
      var cut := (out + a)[..limit];
      assert (cut + b)[..limit] == cut;
      assert cut + [] == cut;
      assert (out + (a + b))[..limit] == cut;
    }
  }

  /** Once the connection has delivered all it will, sending more delivers nothing. */
  lemma DeliverSaturated(limit: nat, out: seq<byte>, data: seq<byte>)
    requires |out| == limit
    ensures Deliver(limit, out, data) == out
  {
    assert (out + data)[..limit] == out;
  }

  /**
   * The contents of `buffer` after `data` was stored at its start: the first
   * `|data|` elements are `data`, the others are as they were in the old state.
   */
  twostate predicate Filled(buffer: array<byte>, data: seq<byte>)
    reads buffer
  {
    && |data| <= buffer.Length
    && (forall i :: 0 <= i < |data| ==> buffer[i] == data[i])
    && (forall i :: |data| <= i < buffer.Length ==> buffer[i] == old(buffer[i]))
  }

  class Socket {
    /** Every byte the peer sends before its end of the stream. */
    const incoming: seq<byte>
    /** Whether the stream ends with a connection error rather than an orderly close. */
    const resetAtEnd: bool
    /** How many of the incoming bytes have been received. */
    var cursor: nat
    /** Every byte delivered to the peer so far. */
    var outgoing: seq<byte>
    /** How many bytes the connection delivers in all before `send` fails. */
    const sendLimit: nat
    /** False once `closesocket` has been called. */
    var open: bool

    /** An open socket whose cursor and delivered bytes are within their bounds. */
    ghost predicate Valid()
      reads this
    {
      open && cursor <= |incoming| && |outgoing| <= sendLimit
    }

    constructor (incoming: seq<byte>, resetAtEnd: bool, sendLimit: nat)
      ensures Valid() && open
      ensures this.incoming == incoming && this.resetAtEnd == resetAtEnd && cursor == 0
      ensures outgoing == [] && this.sendLimit == sendLimit
    {
      this.incoming := incoming;
      this.resetAtEnd := resetAtEnd;
      this.sendLimit := sendLimit;
      cursor := 0;
      outgoing := [];
      open := true;
    }

    /**
     * `recv(socket, buffer + offset, len, 0)`: stores a non-empty chunk of at
     * most `len` pending bytes at `buffer[offset..]` and returns its size, or
     * returns 0 or -1 at the end of the stream.
     */
    method Recv(buffer: array<byte>, offset: nat, len: nat) returns (result: int)
      requires Valid() && 0 < len && offset + len <= buffer.Length
      modifies this`cursor, buffer
      ensures Valid() && old(cursor) <= cursor <= old(cursor) + len
      ensures old(cursor) < |incoming| ==> result == cursor - old(cursor) > 0
      ensures old(cursor) == |incoming| ==> result == (if resetAtEnd then -1 else 0) && cursor == old(cursor)
      ensures forall i :: offset <= i < offset + cursor - old(cursor) ==> buffer[i] == incoming[old(cursor) + i - offset]
      ensures forall i :: 0 <= i < buffer.Length && !(offset <= i < offset + cursor - old(cursor)) ==>
                buffer[i] == old(buffer[i])
    {
      if cursor == |incoming| {
        result := if resetAtEnd then -1 else 0;
        return;
      }
      var k: nat :| 0 < k <= len && cursor + k <= |incoming|;
      forall i | offset <= i < offset + k {
        buffer[i] := incoming[cursor + i - offset];
      }
      cursor := cursor + k;
      result := k;
    }

    /**
     * `send(socket, buffer + offset, len, 0)`: delivers a non-empty chunk of
     * at most `len` bytes from `buffer[offset..]` and returns its size, or
     * returns -1 once the connection delivers no more bytes.
     */
    method Send(buffer: seq<byte>, offset: nat, len: nat) returns (result: int)
      requires Valid() && 0 < len && offset + len <= |buffer|
      modifies this`outgoing
      ensures Valid()
      ensures |old(outgoing)| == sendLimit ==> result == -1 && outgoing == old(outgoing)
      ensures |old(outgoing)| < sendLimit ==> 0 < result <= len
                                              && outgoing == old(outgoing) + buffer[offset..offset + result]
    {
      if |outgoing| == sendLimit {
        return -1;
      }
      var k: nat :| 0 < k <= len && |outgoing| + k <= sendLimit;
      outgoing := outgoing + buffer[offset..offset + k];
      result := k;
    }

    /** `closesocket(socket)`. */
    method Close()
      modifies this`open
      ensures !open
    {
      open := false;
    }
  }
}
