/** The receive loop of a stream endpoint: packets until the end of the stream, and only then an error. */
module Receiver {
  import opened Options
  import opened Bytes
  import opened Framing
  import opened StreamConsumer
  import opened RoundTrip

  /** What one `receive()` leaves: the delivery, or none when it raises `ECONNABORTED`. */
  datatype Reception = Reception(delivery: Option<Delivery>, view: View, eof: bool, incoming: seq<bytes>)

  /** The loop around `transport.recv()`. `incoming` are the chunks to come; an empty one is the end. */
  function Pump(ser: Serializer, v: View, eof: bool, incoming: seq<bytes>): Reception
    requires ser.Valid()
    decreases |incoming|
  {
    if eof then Reception(None, v, true, incoming)
    else if incoming == [] then Reception(None, v, true, [])
    else if incoming[0] == [] then Reception(None, v, true, incoming[1..])
    else
      var v1 := Feed(ser, v, incoming[0]);
      match Emit(ser, v, incoming[0])
      case Some(d) => Reception(Some(d), v1, false, incoming[1..])
      case None => Pump(ser, v1, false, incoming[1..])
  }

  function ReceiveOnce(ser: Serializer, v: View, eof: bool, incoming: seq<bytes>): Reception
    requires ser.Valid()
  {
    var v1 := Feed(ser, v, []);
    match Emit(ser, v, [])
    case Some(d) => Reception(Some(d), v1, eof, incoming)
    case None => Pump(ser, v1, eof, incoming)
  }

  class Transport {
    var incoming: seq<bytes>

    constructor (incoming: seq<bytes>)
      ensures this.incoming == incoming
    {
      this.incoming := incoming;
    }

    method Recv() returns (chunk: bytes)
      modifies this
      ensures if old(incoming) == [] then chunk == [] && incoming == []
              else chunk == old(incoming)[0] && incoming == old(incoming)[1..]
    {
      chunk := [];
      if incoming != [] {
        chunk := incoming[0];
        incoming := incoming[1..];
      }
    }
  }

  /** `receive()` returns a packet, raises a parse error, or raises `ECONNABORTED`. */
  datatype Outcome<+P> = Got(received: Received<P>) | Aborted

  class DataReceiver<P> {
    const transport: Transport
    const consumer: StreamDataConsumer<P>
    var eofReached: bool

    ghost function Repr(): set<object>
      reads this, consumer, consumer.Repr()
    {
      {this, transport} + consumer.Repr()
    }

    ghost predicate Valid()
      reads this, consumer, consumer.Repr()
    {
      && consumer.Valid()
      && (this as object) !in consumer.Repr() && (transport as object) !in consumer.Repr()
    }

    constructor (transport: Transport, consumer: StreamDataConsumer<P>)
      requires consumer.Valid() && (transport as object) !in consumer.Repr()
      ensures Valid() && this.transport == transport && this.consumer == consumer && !eofReached
    {
      this.transport := transport;
      this.consumer := consumer;
      eofReached := false;
    }

    method Receive() returns (r: Outcome<P>)
      requires Valid()
      modifies Repr()
      ensures Valid() && fresh(Repr() - old(Repr()))
      ensures var spec := ReceiveOnce(consumer.ser, old(consumer.Abstract()), old(eofReached), old(transport.incoming));
              && consumer.Abstract() == spec.view
              && eofReached == spec.eof && transport.incoming == spec.incoming
              && r == if spec.delivery == None then Aborted
                      else Got(Interpret(consumer.deserialize, spec.delivery))
    {
      hide Split, Emit, Feed, Pump;
      var received := consumer.Next([]);
      if received != Starved {
        return Got(received);
      }
      r := Continue();
    }

    /** The loop: chunks are fed until one completes a packet. */
    method Continue() returns (r: Outcome<P>)
      requires Valid()
      modifies Repr()
      ensures Valid() && fresh(Repr() - old(Repr()))
      ensures var spec := Pump(consumer.ser, old(consumer.Abstract()), old(eofReached), old(transport.incoming));
              && consumer.Abstract() == spec.view
              && eofReached == spec.eof && transport.incoming == spec.incoming
              && r == if spec.delivery == None then Aborted
                      else Got(Interpret(consumer.deserialize, spec.delivery))
    {
      hide Emit, Feed, Split, Interpret, StreamDataConsumer.Abstract;
      ghost var spec := Pump(consumer.ser, consumer.Abstract(), eofReached, transport.incoming);
      while !eofReached
        invariant consumer.Valid() && fresh(consumer.Repr() - old(consumer.Repr()))
        invariant (this as object) !in consumer.Repr() && (transport as object) !in consumer.Repr()
        invariant Pump(consumer.ser, consumer.Abstract(), eofReached, transport.incoming) == spec
        decreases |transport.incoming|, !eofReached
      {
        var chunk := transport.Recv();
        if chunk == [] {
          eofReached := true;
        } else {
          InterpretStarves(consumer.deserialize, Emit(consumer.ser, consumer.Abstract(), chunk));
          var received := consumer.Next(chunk);
          if received != Starved {
            return Got(received);
          }
        }
      }
      r := Aborted;
    }
  }

  lemma InterpretStarves<P>(deserialize: bytes -> Decoded<P>, d: Option<Delivery>)
    ensures Interpret(deserialize, d) == Starved <==> d == None
  {
  }

  // ----- successive calls until the end of the stream -----

  lemma {:induction false} PumpShrinks(ser: Serializer, v: View, incoming: seq<bytes>)
    requires ser.Valid() && Pump(ser, v, false, incoming).delivery != None
    ensures |Pump(ser, v, false, incoming).incoming| < |incoming|
    ensures !Pump(ser, v, false, incoming).eof
    decreases |incoming|
  {
    if Emit(ser, v, incoming[0]) == None {
      PumpShrinks(ser, Feed(ser, v, incoming[0]), incoming[1..]);
    }
  }

  lemma ReceiveShrinks(ser: Serializer, v: View, incoming: seq<bytes>)
    requires ser.Valid() && ReceiveOnce(ser, v, false, incoming).delivery != None
    ensures var r := ReceiveOnce(ser, v, false, incoming);
            && !r.eof
            && (|r.incoming| < |incoming| || (|r.incoming| == |incoming| && |r.view.held| < |v.held|))
  {
    if Emit(ser, v, []) == None {
      PumpShrinks(ser, Feed(ser, v, []), incoming);
    } else {
      assert v.held + [] == v.held;
      SplitConsumes(ser, v.held);
    }
  }

  /** What successive calls of `receive()` deliver before one of them raises `ECONNABORTED`. */
  function ReceiveAll(ser: Serializer, v: View, incoming: seq<bytes>): seq<Delivery>
    requires ser.Valid()
    decreases |incoming|, |v.held|
  {
    var r := ReceiveOnce(ser, v, false, incoming);
    if r.delivery == None then []
    else
      ReceiveShrinks(ser, v, incoming);
      [r.delivery.value] + ReceiveAll(ser, r.view, r.incoming)
  }

  /** The calls of `next()` made by them. */
  function PumpCalls(ser: Serializer, v: View, incoming: seq<bytes>): seq<bytes>
    requires ser.Valid()
    decreases |incoming|
  {
    if incoming == [] || incoming[0] == [] then []
    else if Emit(ser, v, incoming[0]) != None then [incoming[0]]
    else [incoming[0]] + PumpCalls(ser, Feed(ser, v, incoming[0]), incoming[1..])
  }

  function OnceCalls(ser: Serializer, v: View, incoming: seq<bytes>): seq<bytes>
    requires ser.Valid()
  {
    if Emit(ser, v, []) != None then [[]] else [[]] + PumpCalls(ser, Feed(ser, v, []), incoming)
  }

  function AllCalls(ser: Serializer, v: View, incoming: seq<bytes>): seq<bytes>
    requires ser.Valid()
    decreases |incoming|, |v.held|
  {
    var r := ReceiveOnce(ser, v, false, incoming);
    OnceCalls(ser, v, incoming)
    + if r.delivery == None then []
      else
        ReceiveShrinks(ser, v, incoming);
        AllCalls(ser, r.view, r.incoming)
  }

  predicate NoEmptyChunk(incoming: seq<bytes>) {
    forall i :: 0 <= i < |incoming| ==> incoming[i] != []
  }

  lemma NoCalls(ser: Serializer, v: View)
    requires ser.Valid()
    ensures RunView(ser, v, []) == v && RunOutput(ser, v, []) == [] && Concat([]) == []
  {
  }

  /** The reception `r` is what the calls `calls` of `next()` lead to; without a delivery all is read. */
  ghost predicate IsRun(ser: Serializer, v: View, incoming: seq<bytes>, r: Reception, calls: seq<bytes>)
    requires ser.Valid()
  {
    && r.view == RunView(ser, v, calls) && r.view.Valid(ser)
    && AsSeq(r.delivery) == RunOutput(ser, v, calls)
    && Concat(calls) + Concat(r.incoming) == Concat(incoming)
    && NoEmptyChunk(r.incoming)
    && (r.delivery == None ==> r.incoming == [] && Starving(r.view))
  }

  /** One more call in front, which delivers nothing. */
  lemma IsRunCons(ser: Serializer, v: View, c: bytes, incoming: seq<bytes>, later: seq<bytes>, r: Reception, calls: seq<bytes>)
    requires ser.Valid() && Emit(ser, v, c) == None && IsRun(ser, Feed(ser, v, c), later, r, calls)
    requires Concat(incoming) == c + Concat(later)
    ensures IsRun(ser, v, incoming, r, [c] + calls)
  {
    hide Split, Feed, Emit, RunView, RunOutput, Concat;
    RunCons(ser, v, c, calls);
    Associative(c, Concat(calls), Concat(r.incoming));
  }

  /** A call that delivers. */
  lemma IsRunOnce(ser: Serializer, v: View, c: bytes, incoming: seq<bytes>, later: seq<bytes>, r: Reception)
    requires v.Valid(ser) && Emit(ser, v, c) != None && NoEmptyChunk(later)
    requires Concat(incoming) == c + Concat(later)
    requires r.delivery == Emit(ser, v, c) && r.view == Feed(ser, v, c) && r.incoming == later
    ensures IsRun(ser, v, incoming, r, [c] + [])
  {
    hide Split, Feed, Emit, RunView, RunOutput, Concat;
    FeedKeepsValid(ser, v, c);
    RunCons(ser, v, c, []);
    NoCalls(ser, Feed(ser, v, c));
    assert c + [] == c;
  }

  lemma EmitsNothing(ser: Serializer, v: View, chunk: bytes)
    requires ser.Valid() && Emit(ser, v, chunk) == None
    ensures Starving(Feed(ser, v, chunk))
  {
  }

  /** One pump is a run of the consumer on the chunks it takes, and stops at the first delivery. */
  lemma {:induction false} PumpIsRun(ser: Serializer, v: View, incoming: seq<bytes>)
    requires v.Valid(ser) && Starving(v) && NoEmptyChunk(incoming)
    ensures IsRun(ser, v, incoming, Pump(ser, v, false, incoming), PumpCalls(ser, v, incoming))
    decreases |incoming|
  {
    hide Split, Emit, Feed, IsRun;
    if incoming == [] {
      PumpNothing(ser, v);
    } else {
      var c := incoming[0];
      if Emit(ser, v, c) == None {
        EmitsNothing(ser, v, c);
        FeedKeepsValid(ser, v, c);
        PumpIsRun(ser, Feed(ser, v, c), incoming[1..]);
        IsRunCons(ser, v, c, incoming, incoming[1..], Pump(ser, v, false, incoming), PumpCalls(ser, Feed(ser, v, c), incoming[1..]));
      } else {
        IsRunOnce(ser, v, c, incoming, incoming[1..], Pump(ser, v, false, incoming));
        assert [c] + [] == [c];
      }
    }
  }

  lemma PumpNothing(ser: Serializer, v: View)
    requires v.Valid(ser) && Starving(v)
    ensures IsRun(ser, v, [], Pump(ser, v, false, []), PumpCalls(ser, v, []))
  {
    NoCalls(ser, v);
  }

  lemma OnceIsRun(ser: Serializer, v: View, incoming: seq<bytes>)
    requires v.Valid(ser) && NoEmptyChunk(incoming)
    ensures IsRun(ser, v, incoming, ReceiveOnce(ser, v, false, incoming), OnceCalls(ser, v, incoming))
  {
    hide Split, Pump, PumpCalls, Emit, Feed, IsRun;
    assert Concat(incoming) == [] + Concat(incoming);
    if Emit(ser, v, []) == None {
      EmitsNothing(ser, v, []);
      FeedKeepsValid(ser, v, []);
      PumpIsRun(ser, Feed(ser, v, []), incoming);
      IsRunCons(ser, v, [], incoming, incoming, ReceiveOnce(ser, v, false, incoming), PumpCalls(ser, Feed(ser, v, []), incoming));
    } else {
      IsRunOnce(ser, v, [], incoming, incoming, ReceiveOnce(ser, v, false, incoming));
      var none: seq<bytes> := [[]];
      assert none + [] == none;
    }
  }

  /** All of them together are one run over all chunks, and at its end the consumer starves. */
  lemma {:induction false} ReceivingIsRun(ser: Serializer, v: View, incoming: seq<bytes>)
    requires v.Valid(ser) && NoEmptyChunk(incoming)
    ensures ReceiveAll(ser, v, incoming) == RunOutput(ser, v, AllCalls(ser, v, incoming))
    ensures Concat(AllCalls(ser, v, incoming)) == Concat(incoming)
    ensures Starving(RunView(ser, v, AllCalls(ser, v, incoming)))
    decreases |incoming|, |v.held|
  {
    hide Split, Pump, PumpCalls, ReceiveOnce, OnceCalls;
    var r := ReceiveOnce(ser, v, false, incoming);
    var calls := OnceCalls(ser, v, incoming);
    OnceIsRun(ser, v, incoming);
    if r.delivery == None {
      assert calls + [] == calls;
    } else {
      ReceiveShrinks(ser, v, incoming);
      ReceivingIsRun(ser, r.view, r.incoming);
      RunParts(ser, v, calls, AllCalls(ser, r.view, r.incoming));
      ConcatParts(calls, AllCalls(ser, r.view, r.incoming));
    }
  }

  /**
   * Every frame that is completely received before the end of the stream is delivered by successive calls
   * of `receive()`, in order, before `ECONNABORTED` is raised: `k` of the frames sent, where the next one, if
   * any, was cut off by the end of the stream.
   */
  lemma DeliveredBeforeAbort(ser: Serializer, incoming: seq<bytes>, lost: bytes, docs: seq<bytes>)
    requires ser.Valid() && NoEmptyChunk(incoming) && AllEncodable(ser, docs)
    requires Carries(ser, Concat(incoming) + lost, docs)
    ensures var out := ReceiveAll(ser, EMPTY, incoming);
            var held := RunView(ser, EMPTY, AllCalls(ser, EMPTY, incoming)).held;
            && |out| <= |docs| && out == Deliveries(ser, docs[..|out|])
            && Pending(ser, held, lost, docs[|out|..])
            && (|out| < |docs| ==> |held| < |Encode(ser, docs[|out|])|)
  {
    hide Split, ReceiveAll, AllCalls, Carries, Encode;
    ReceivingIsRun(ser, EMPTY, incoming);
    PendingAtStart(ser, docs, Concat(incoming) + lost);
    RunDelivers(ser, EMPTY, AllCalls(ser, EMPTY, incoming), lost, docs);
  }

  /** Once `ECONNABORTED` has been raised, every further call raises it again and reads nothing. */
  lemma AbortIsFinal(ser: Serializer, v: View, eof: bool, incoming: seq<bytes>)
    requires v.Valid(ser) && ReceiveOnce(ser, v, eof, incoming).delivery == None
    ensures var r := ReceiveOnce(ser, v, eof, incoming);
            r.eof && Starving(r.view) && ReceiveOnce(ser, r.view, r.eof, r.incoming) == r
  {
    hide Split, Pump, Emit, Feed;
    var v1 := Feed(ser, v, []);
    EmitsNothing(ser, v, []);
    PumpToTheEnd(ser, v1, eof, incoming);
    var r := Pump(ser, v1, eof, incoming);
    NothingNew(ser, r.view);
    PumpStops(ser, r.view, r.incoming);
  }

  lemma {:induction false} PumpToTheEnd(ser: Serializer, v: View, eof: bool, incoming: seq<bytes>)
    requires ser.Valid() && Starving(v) && Pump(ser, v, eof, incoming).delivery == None
    ensures var r := Pump(ser, v, eof, incoming); r.eof && Starving(r.view)
    decreases |incoming|
  {
    hide Split, Emit, Feed;
    if !eof && incoming != [] && incoming[0] != [] {
      EmitsNothing(ser, v, incoming[0]);
      PumpToTheEnd(ser, Feed(ser, v, incoming[0]), false, incoming[1..]);
    }
  }

  lemma PumpStops(ser: Serializer, v: View, incoming: seq<bytes>)
    requires ser.Valid()
    ensures Pump(ser, v, true, incoming) == Reception(None, v, true, incoming)
  {
  }

  lemma NothingNew(ser: Serializer, v: View)
    requires ser.Valid() && Starving(v)
    ensures Emit(ser, v, []) == None && Feed(ser, v, []) == v
  {
  }

  // ----- packets -----

  function Results<P>(deserialize: bytes -> Decoded<P>, out: seq<Delivery>): seq<Received<P>> {
    if out == [] then [] else [Interpret(deserialize, Some(out[0]))] + Results(deserialize, out[1..])
  }

  /** The results of all calls to come. */
  ghost function Future<P>(receiver: DataReceiver<P>): seq<Received<P>>
    requires receiver.Valid()
    reads receiver, receiver.transport, receiver.consumer, receiver.consumer.Repr()
  {
    Results(receiver.consumer.deserialize,
            ReceiveAll(receiver.consumer.ser, receiver.consumer.Abstract(), receiver.transport.incoming))
  }

  /** One call, before the stream has ended: the first of the results to come. */
  method ReceiveNext<P>(receiver: DataReceiver<P>) returns (r: Outcome<P>)
    requires receiver.Valid() && !receiver.eofReached
    modifies receiver.Repr()
    ensures receiver.Valid() && fresh(receiver.Repr() - old(receiver.Repr()))
    ensures r == Aborted ==> old(Future(receiver)) == []
    ensures r.Got? ==>
              && !receiver.eofReached && old(Future(receiver)) == [r.received] + Future(receiver)
              && (|receiver.transport.incoming| < old(|receiver.transport.incoming|)
                  || (|receiver.transport.incoming| == old(|receiver.transport.incoming|)
                      && |receiver.consumer.Abstract().held| < old(|receiver.consumer.Abstract().held|)))
  {
    hide Split, Pump, ReceiveOnce, Interpret;
    ghost var v, incoming := receiver.consumer.Abstract(), receiver.transport.incoming;
    r := receiver.Receive();
    if r.Got? {
      ReceiveShrinks(receiver.consumer.ser, v, incoming);
    }
  }

  /** The frames `docs` stand for the packets `packets`. */
  ghost predicate Represent<P>(ser: Serializer, deserialize: bytes -> Decoded<P>, docs: seq<bytes>, packets: seq<P>) {
    && |docs| == |packets|
    && forall i :: 0 <= i < |docs| ==>
         deserialize(if ser.Separated? && ser.keepEnd then docs[i] + ser.sep else docs[i]) == Good(packets[i])
  }

  lemma {:induction false} ResultsArePackets<P>(ser: Serializer, deserialize: bytes -> Decoded<P>, docs: seq<bytes>, packets: seq<P>)
    requires Represent(ser, deserialize, docs, packets)
    ensures var results := Results(deserialize, Deliveries(ser, docs));
            && |results| == |packets|
            && forall i :: 0 <= i < |packets| ==> results[i] == Packet(packets[i])
    decreases |docs|
  {
    if docs != [] {
      var out := Deliveries(ser, docs);
      assert out[1..] == Deliveries(ser, docs[1..]);
      ResultsArePackets(ser, deserialize, docs[1..], packets[1..]);
      var results := Results(deserialize, out);
      forall i | 0 <= i < |packets| ensures results[i] == Packet(packets[i]) {
        if i > 0 {
          assert packets[i] == packets[1..][i - 1];
        }
      }
    }
  }

  /**
   * The round trip up to packets: frames that `deserialize` accepts come out of successive `receive()` calls as
   * exactly their packets, in order, however the stream is cut.
   */
  lemma PacketRoundTrip<P>(ser: Serializer, deserialize: bytes -> Decoded<P>, incoming: seq<bytes>,
                           docs: seq<bytes>, packets: seq<P>)
    requires ser.Valid() && NoEmptyChunk(incoming) && AllEncodable(ser, docs) && Carries(ser, Concat(incoming), docs)
    requires Represent(ser, deserialize, docs, packets)
    ensures var results := Results(deserialize, ReceiveAll(ser, EMPTY, incoming));
            && |results| == |packets|
            && forall i :: 0 <= i < |packets| ==> results[i] == Packet(packets[i])
  {
    hide Split, ReceiveAll, AllCalls, RunOutput, RunView, Carries, AllEncodable, Results, Deliveries, Represent, Concat;
    ReceivingIsRun(ser, EMPTY, incoming);
    StreamRoundTrip(ser, AllCalls(ser, EMPTY, incoming), docs);
    ResultsArePackets(ser, deserialize, docs, packets);
  }
}
