/** `StreamDataConsumer`: turns the chunks of a stream into packets. */
module StreamConsumer {
  import opened Options
  import opened Bytes
  import opened Framing
  import opened ChunkParser

  /** The result of `deserialize` and of the converter on one frame. */
  datatype Decoded<+P> = Good(packet: P) | Malformed

  /** What `next()` does: return a packet, raise a parse error, or raise `StopIteration`. */
  datatype Received<+P> =
    | Packet(packet: P)
    | ParseError
    | LimitOverrun(found: bool)
    | Starved

  /** The abstract consumer: the bytes it holds, and whether a parser is suspended on them. */
  datatype View = View(held: bytes, active: bool)
  {
    ghost predicate Valid(ser: Serializer) {
      && ser.Valid()
      && (active ==> Split(ser, held) == More(held))
    }
  }

  const EMPTY: View := View([], false)

  /** What a call to `next()` brings to light: a frame, or that the limit was exceeded. */
  datatype Delivery = Delivered(data: bytes) | Overran(found: bool)

  function Report(o: Outcome): Option<Delivery> {
    match o
    case More(_) => None
    case Frame(data, _) => Some(Delivered(data))
    case Overrun(_, found) => Some(Overran(found))
  }

  /** The delivery of `next(chunk)`, if any; `next(None)` is `chunk == []`. */
  function Emit(ser: Serializer, v: View, chunk: bytes): Option<Delivery>
    requires ser.Valid()
  {
    if chunk == [] && (v.active || v.held == []) then None
    else Report(Split(ser, v.held + chunk))
  }

  /** The consumer after `next(chunk)`. */
  function Feed(ser: Serializer, v: View, chunk: bytes): (v': View)
    requires ser.Valid()
  {
    if chunk == [] && (v.active || v.held == []) then v
    else
      match Split(ser, v.held + chunk)
      case More(keep) => View(keep, true)
      case Frame(_, rest) => View(rest, false)
      case Overrun(rest, _) => View(rest, false)
  }

  lemma FeedKeepsValid(ser: Serializer, v: View, chunk: bytes)
    requires v.Valid(ser)
    ensures Feed(ser, v, chunk).Valid(ser)
  {
    hide Split;
    if Split(ser, v.held + chunk).More? {
      MoreAgain(ser, v.held + chunk);
    }
  }

  function Interpret<P>(deserialize: bytes -> Decoded<P>, d: Option<Delivery>): Received<P> {
    match d
    case None => Starved
    case Some(Delivered(data)) =>
      (match deserialize(data)
       case Good(p) => Packet(p)
       case Malformed => ParseError)
    case Some(Overran(found)) => LimitOverrun(found)
  }

  /** What `next()` answers: each kind of result in terms of the frame and of what `deserialize` makes of it. */
  lemma InterpretMeans<P>(deserialize: bytes -> Decoded<P>, d: Option<Delivery>)
    ensures var r := Interpret(deserialize, d);
            && (r == Starved <==> d == None)
            && (r.Packet? <==> d.Some? && d.value.Delivered? && deserialize(d.value.data).Good?)
            && (r.Packet? ==> deserialize(d.value.data) == Good(r.packet))
            && (r == ParseError <==> d.Some? && d.value.Delivered? && deserialize(d.value.data) == Malformed)
            && (r.LimitOverrun? <==> d.Some? && d.value.Overran?)
            && (r.LimitOverrun? ==> r.found == d.value.found)
  {
  }

  class StreamDataConsumer<P> {
    const ser: Serializer
    const deserialize: bytes -> Decoded<P>
    var buffer: bytes
    var consumer: Parser?

    ghost function Repr(): set<object>
      reads this, consumer
    {
      {this} + (if consumer == null then {}
                else {consumer} + (if consumer.scanner == null then {} else {consumer.scanner}))
    }

    /** While a parser is suspended, it has all the bytes: the consumer's own buffer is empty. */
    ghost predicate Valid()
      reads this, Repr()
    {
      && ser.Valid()
      && (consumer != null ==> buffer == [] && consumer.ser == ser && consumer.Valid())
    }

    ghost function Abstract(): View
      reads this, Repr()
    {
      if consumer == null then View(buffer, false) else View(consumer.buffer, true)
    }

    constructor (ser: Serializer, deserialize: bytes -> Decoded<P>)
      requires ser.Valid()
      ensures Valid() && fresh(Repr()) && Abstract() == EMPTY
      ensures this.ser == ser && this.deserialize == deserialize
    {
      this.ser := ser;
      this.deserialize := deserialize;
      buffer := [];
      consumer := null;
    }

    method Next(chunk: bytes) returns (r: Received<P>)
      requires Valid()
      modifies Repr()
      ensures Valid() && fresh(Repr() - old(Repr()))
      ensures r == Interpret(deserialize, Emit(ser, old(Abstract()), chunk))
      ensures Abstract() == Feed(ser, old(Abstract()), chunk)
    {
      hide Split;
      var received := chunk;
      if chunk == [] {
        received := buffer;
        if received == [] {
          return Starved;
        }
      } else if buffer != [] {
        received := buffer + chunk;
      }
      var parser := consumer;
      if parser == null {
        parser := new Parser(ser);
      } else {
        consumer := null;
      }
      assert parser.buffer + received == old(Abstract()).held + chunk;
      buffer := [];
      var o := parser.Send(received);
      match o
      case Frame(data, rest) =>
        buffer := rest;
        r := match deserialize(data)
        case Good(p) => Packet(p)
        case Malformed => ParseError;
      case Overrun(rest, found) =>
        buffer := rest;
        r := LimitOverrun(found);
      case More(_) =>
        consumer := parser;
        r := Starved;
    }

    /** Forgets everything received. */
    method Clear()
      requires Valid()
      modifies this
      ensures Valid() && Abstract() == EMPTY && fresh(Repr() - old(Repr()))
    {
      buffer := [];
      consumer := null;
    }
  }
}
