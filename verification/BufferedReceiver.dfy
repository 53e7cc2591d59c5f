/** The receive loop of a stream endpoint whose transport writes into the buffer of the consumer. */
module BufferedReceiver {
  import opened Options
  import opened Bytes
  import opened Framing
  import opened StreamConsumer
  import opened RoundTrip
  import opened BufferParser
  import opened BufferedConsumer
  import opened BufferedStream
  import Receiver

  // ----- a run, one call later -----

  lemma {:induction false} RunFitsMore(ser: Serializer, size: nat, v: View, ops: seq<bytes>, bs: seq<bytes>, c: bytes, b: bytes)
    requires Suits(ser, size) && |ops| == |bs| && RunFits(ser, size, v, ops, bs)
    requires Written(ser, size, BufferedRunView(ser, size, v, ops, bs), c, b)
    ensures RunFits(ser, size, v, ops + [c], bs + [b])
    decreases |ops|
  {
    hide SplitBuffer;
    if ops != [] {
      assert (ops + [c])[1..] == ops[1..] + [c] && (bs + [b])[1..] == bs[1..] + [b];
      RunFitsMore(ser, size, FeedCall(ser, v, ops[0], bs[0]), ops[1..], bs[1..], c, b);
    }
  }

  lemma {:induction false} RunMore(ser: Serializer, size: nat, v: View, ops: seq<bytes>, bs: seq<bytes>, c: bytes, b: bytes)
    requires Suits(ser, size) && |ops| == |bs| && RunFits(ser, size, v, ops, bs)
    requires Written(ser, size, BufferedRunView(ser, size, v, ops, bs), c, b)
    ensures RunFits(ser, size, v, ops + [c], bs + [b])
    ensures var w := BufferedRunView(ser, size, v, ops, bs);
            && BufferedRunView(ser, size, v, ops + [c], bs + [b]) == FeedCall(ser, w, c, b)
            && BufferedOutput(ser, size, v, ops + [c], bs + [b])
               == BufferedOutput(ser, size, v, ops, bs) + AsSeq(EmitCall(ser, w, c, b))
    decreases |ops|
  {
    hide SplitBuffer;
    RunFitsMore(ser, size, v, ops, bs, c, b);
    if ops == [] {
      assert ops + [c] == [c] && bs + [b] == [b];
    } else {
      assert (ops + [c])[1..] == ops[1..] + [c] && (bs + [b])[1..] == bs[1..] + [b];
      RunMore(ser, size, FeedCall(ser, v, ops[0], bs[0]), ops[1..], bs[1..], c, b);
    }
  }

  lemma {:induction false} ConcatMore(ops: seq<bytes>, c: bytes)
    ensures Concat(ops + [c]) == Concat(ops) + c
    decreases |ops|
  {
    ConcatParts(ops, [c]);
    assert [c][1..] == [] && c + [] == c;
  }

  /** The calls of `next()` so far, the buffer at each of them, and what they have delivered. */
  datatype Trace = Trace(calls: seq<bytes>, buffers: seq<bytes>, delivered: seq<Delivery>)

  /** A consumer that has been called like this delivered exactly that, and now holds `view`. */
  ghost predicate Explains(ser: Serializer, size: nat, trace: Trace, view: View)
    requires Suits(ser, size)
  {
    && |trace.calls| == |trace.buffers|
    && RunFits(ser, size, START, trace.calls, trace.buffers)
    && view == BufferedRunView(ser, size, START, trace.calls, trace.buffers)
    && trace.delivered == BufferedOutput(ser, size, START, trace.calls, trace.buffers)
  }

  ghost function Called(ser: Serializer, size: nat, trace: Trace, view: View, c: bytes, b: bytes): Trace
    requires Suits(ser, size) && Written(ser, size, view, c, b)
  {
    Trace(trace.calls + [c], trace.buffers + [b], trace.delivered + AsSeq(EmitCall(ser, view, c, b)))
  }

  lemma ExplainsMore(ser: Serializer, size: nat, trace: Trace, view: View, c: bytes, b: bytes)
    requires Suits(ser, size) && Explains(ser, size, trace, view) && Written(ser, size, view, c, b)
    ensures Explains(ser, size, Called(ser, size, trace, view, c, b), FeedCall(ser, view, c, b))
  {
    hide RunFits, BufferedRunView, BufferedOutput, SplitBuffer, EmitCall, FeedCall;
    RunMore(ser, size, START, trace.calls, trace.buffers, c, b);
  }

  // ----- the loop -----

  /** A stream of bytes until the peer closes it. */
  class Transport {
    var incoming: bytes

    constructor (incoming: bytes)
      ensures this.incoming == incoming
    {
      this.incoming := incoming;
    }

    /** Writes any number of bytes to `buf` from `lo` on, but none only at the end of the stream. */
    method RecvInto(buf: array<byte>, lo: nat) returns (n: nat)
      requires lo < buf.Length
      modifies this, buf
      ensures n <= buf.Length - lo && n <= |old(incoming)| && (n == 0 <==> old(incoming) == [])
      ensures incoming == old(incoming)[n..]
      ensures buf[..lo] == old(buf[..lo]) && buf[lo..lo + n] == old(incoming)[..n]
    {
      n := 0;
      if incoming != [] {
        n :| 0 < n <= buf.Length - lo && n <= |incoming|;
      }
      for i := 0 to n
        invariant incoming == old(incoming) && n <= |incoming|
        invariant buf[..lo] == old(buf[..lo]) && buf[lo..lo + i] == incoming[..i]
      {
        buf[lo + i] := incoming[i];
      }
      incoming := incoming[n..];
    }
  }

  /** `receive()` returns a packet or raises a parse error, `ECONNABORTED`, or the error of a full buffer. */
  datatype Outcome<+P> = Got(received: Received<P>) | Aborted | NoRoom

  class BufferedDataReceiver<P> {
    const transport: Transport
    const consumer: BufferedStreamDataConsumer<P>
    var eofReached: bool
    /** All the bytes that the transport brings, from the first to the last. */
    ghost const stream: bytes
    ghost var trace: Trace

    ghost function Repr(): set<object>
      reads this, consumer, consumer.Repr()
    {
      {this, transport} + consumer.Repr()
    }

    ghost predicate Separate()
      reads this, consumer, consumer.Repr()
    {
      consumer.Valid() && (this as object) !in consumer.Repr() && (transport as object) !in consumer.Repr()
    }

    ghost function Size(): nat {
      BufferSize(consumer.ser, consumer.sizehint)
    }

    /** Every delivery so far is explained by the bytes received so far; those and the bytes to come are the stream. */
    ghost predicate Valid()
      reads this, transport, consumer, consumer.Repr()
    {
      && Separate()
      && Explains(consumer.ser, Size(), trace, consumer.Abstract())
      && Concat(trace.calls) + transport.incoming == stream
      && (eofReached ==> transport.incoming == [])
    }

    /** What `get_write_buffer()` raises an error for. */
    ghost predicate BufferIsFull()
      reads this, consumer, consumer.Repr()
      requires consumer.Valid()
    {
      !Roomy(consumer.ser, Size()) && |consumer.Abstract().held| == Size()
    }

    constructor (transport: Transport, consumer: BufferedStreamDataConsumer<P>)
      requires consumer.Valid() && consumer.Abstract() == START && (transport as object) !in consumer.Repr()
      ensures Valid() && this.transport == transport && this.consumer == consumer && !eofReached
      ensures stream == transport.incoming && trace.delivered == []
    {
      this.transport := transport;
      this.consumer := consumer;
      eofReached := false;
      stream := transport.incoming;
      trace := Trace([], [], []);
    }

    /** The last delivery of the trace, which has grown from `before` by it. */
    ghost predicate Newest(before: Trace, r: Received<P>)
      reads this
    {
      var n := |before.delivered|;
      && |trace.delivered| == n + 1 && trace.delivered[..n] == before.delivered
      && r == Interpret(consumer.deserialize, Some(trace.delivered[n]))
    }

    /** Calls `next(nb)` of the consumer; `chunk` is what the transport has written since the last call. */
    method Next(nb: Option<nat>, ghost chunk: bytes) returns (r: Received<P>)
      requires Separate() && Explains(consumer.ser, Size(), trace, consumer.Abstract())
      requires Concat(trace.calls) + (chunk + transport.incoming) == stream
      requires nb == None ==> chunk == []
      requires nb.Some? ==>
                 && consumer.exported.Some? && 0 < nb.value == |chunk| <= consumer.exported.value
                 && consumer.buffer[consumer.Filled(0)..consumer.Filled(|chunk|)] == chunk
      modifies this`trace, consumer.Repr()
      ensures Separate() && fresh(Repr() - old(Repr()))
      ensures Explains(consumer.ser, Size(), trace, consumer.Abstract())
      ensures Concat(trace.calls) + transport.incoming == stream
      ensures r == Starved ==> trace.delivered == old(trace).delivered && consumer.Abstract().active
      ensures r != Starved ==> Newest(old(trace), r)
    {
      hide Explains, SplitBuffer, Interpret, Concat;
      ghost var view := consumer.Abstract();
      ghost var before := trace;
      if view.active && nb == None {
        assert [] + transport.incoming == transport.incoming;
      } else {
        ghost var b := consumer.buffer[..];
        assert view.held + chunk == b[..consumer.Filled(|chunk|)];
        trace := Called(consumer.ser, Size(), trace, view, chunk, b);
        ExplainsMore(consumer.ser, Size(), before, view, chunk, b);
        ConcatMore(before.calls, chunk);
        Associative(Concat(before.calls), chunk, transport.incoming);
        Receiver.InterpretStarves(consumer.deserialize, EmitCall(consumer.ser, view, chunk, b));
      }
      var result := consumer.Next(nb);
      r := result.received;
    }

    /**
     * The next delivery of the stream; or, at its end and with no complete packet left, `ECONNABORTED`. A call
     * of the consumer is never out of order, and the transport has room to write to, unless the separator is
     * longer than the buffer.
     */
    method Receive() returns (r: Outcome<P>)
      requires Valid()
      modifies Repr()
      ensures Valid() && fresh(Repr() - old(Repr()))
      ensures match r
              case Aborted => trace.delivered == old(trace).delivered && eofReached && consumer.Abstract().active
              case NoRoom => trace.delivered == old(trace).delivered && BufferIsFull()
              case Got(received) => Newest(old(trace), received)
    {
      hide Explains, Concat, Interpret, BufferedStreamDataConsumer.Valid, BufferedStreamDataConsumer.Abstract;
      var received := Next(None, []);
      if received != Starved {
        return Got(received);
      }
      r := Continue();
    }

    /** The loop: reads until a packet is complete. */
    method Continue() returns (r: Outcome<P>)
      requires Valid() && consumer.Abstract().active
      modifies Repr()
      ensures Valid() && fresh(Repr() - old(Repr()))
      ensures match r
              case Aborted => trace.delivered == old(trace).delivered && eofReached && consumer.Abstract().active
              case NoRoom => trace.delivered == old(trace).delivered && BufferIsFull()
              case Got(received) => Newest(old(trace), received)
    {
      hide Explains, Concat, Interpret, BufferedStreamDataConsumer.Valid, BufferedStreamDataConsumer.Abstract;
      while !eofReached
        invariant Valid() && fresh(Repr() - old(Repr()))
        invariant trace.delivered == old(trace).delivered && consumer.Abstract().active
        decreases |transport.incoming|, !eofReached
      {
        var received := Pull();
        if received == None {
          return NoRoom;
        }
        if received.value != Starved {
          return Got(received.value);
        }
      }
      r := Aborted;
    }

    /** One round of the loop: reads into the buffer of the consumer, and lets it look at what has been read. */
    method Pull() returns (r: Option<Received<P>>)
      requires Valid() && !eofReached && consumer.Abstract().active
      modifies Repr()
      ensures Valid() && fresh(Repr() - old(Repr()))
      ensures r == None ==> trace.delivered == old(trace).delivered && BufferIsFull()
      ensures r == Some(Starved) ==> trace.delivered == old(trace).delivered && consumer.Abstract().active
      ensures r.Some? && r.value != Starved ==> Newest(old(trace), r.value)
      ensures r == None || eofReached || |transport.incoming| < |old(transport.incoming)|
    {
      hide Explains, Concat, Interpret, BufferedStreamDataConsumer.Valid, BufferedStreamDataConsumer.Abstract;
      ghost var incoming := transport.incoming;
      var n := ReadInto();
      if n == None {
        return None;
      }
      if n.value == 0 {
        eofReached := true;
        return Some(Starved);
      }
      assert incoming[..n.value] + transport.incoming == incoming;
      var received := Next(Some(n.value), incoming[..n.value]);
      r := Some(received);
    }

    /** `transport.recv_into(consumer.get_write_buffer())` */
    method ReadInto() returns (n: Option<nat>)
      requires Separate() && consumer.Abstract().active
      modifies transport, consumer.Repr()
      ensures Separate() && fresh(Repr() - old(Repr()))
      ensures consumer.Abstract() == old(consumer.Abstract())
      ensures n == None ==> BufferIsFull() && transport.incoming == old(transport.incoming)
      ensures n.Some? ==>
                && n.value <= |old(transport.incoming)| && transport.incoming == old(transport.incoming)[n.value..]
                && (n.value == 0 <==> old(transport.incoming) == [])
                && consumer.exported.Some? && n.value <= consumer.exported.value
                && consumer.buffer[consumer.Filled(0)..consumer.Filled(n.value)] == old(transport.incoming)[..n.value]
    {
      hide Parser.Valid;
      var view := consumer.GetWriteBuffer();
      if view == None {
        return None;
      }
      label Asked:
      var read := transport.RecvInto(consumer.buffer, consumer.buffer.Length - view.value);
      consumer.WrittenBehind@Asked();
      n := Some(read);
    }
  }

  /**
   * At any time, the deliveries are the first of the frames sent, in order, and what is held, with what is
   * still to come, encodes the others. So every frame that is completely received is delivered before
   * `ECONNABORTED` is raised, by when the transport has been read to its end and the consumer starves.
   */
  lemma DeliveredBeforeAbort<P>(receiver: BufferedDataReceiver<P>, lost: bytes, docs: seq<bytes>)
    requires receiver.Valid() && AllFitBuffer(receiver.consumer.ser, docs)
    requires Carries(receiver.consumer.ser, receiver.stream + lost, docs)
    ensures var ser := receiver.consumer.ser;
            var out := receiver.trace.delivered;
            var view := receiver.consumer.Abstract();
            && |out| <= |docs| && out == Deliveries(ser, docs[..|out|])
            && Pending(ser, view.held, receiver.transport.incoming + lost, docs[|out|..])
            && (view.active && |out| < |docs| ==> |view.held| < |Encode(ser, docs[|out|])|)
  {
    hide Carries, Deliveries, Encode, Concat, RunFits, Split, SplitBuffer, AllFitBuffer, AllEncodable,
         RunView, RunOutput, BufferedRunView, BufferedOutput;
    var ser, size, trace := receiver.consumer.ser, receiver.Size(), receiver.trace;
    var future := receiver.transport.incoming + lost;
    Associative(Concat(trace.calls), receiver.transport.incoming, lost);
    FitsAreEncodable(ser, docs);
    PendingAtStart(ser, docs, Concat(trace.calls) + future);
    BufferedRefinesChunked(ser, size, EMPTY, START, trace.calls, trace.buffers, future, docs);
    RunDelivers(ser, EMPTY, trace.calls, future, docs);
  }

  /** And the results are the packets that the frames stand for, one for each call. */
  lemma ReceivesPackets<P>(receiver: BufferedDataReceiver<P>, lost: bytes, docs: seq<bytes>, packets: seq<P>, i: nat)
    requires receiver.Valid() && AllFitBuffer(receiver.consumer.ser, docs)
    requires Carries(receiver.consumer.ser, receiver.stream + lost, docs)
    requires Receiver.Represent(receiver.consumer.ser, receiver.consumer.deserialize, docs, packets)
    requires i < |receiver.trace.delivered|
    ensures i < |packets|
    ensures Interpret(receiver.consumer.deserialize, Some(receiver.trace.delivered[i])) == Packet(packets[i])
  {
    hide Carries, Pending, AllFitBuffer, Deliveries;
    var ser, out := receiver.consumer.ser, receiver.trace.delivered;
    DeliveredBeforeAbort(receiver, lost, docs);
    DeliveriesAre(ser, docs[..|out|], i);
    assert docs[i] + [] == docs[i];
  }
}
