/** `BufferedStreamDataConsumer`: the zero-copy path, where the transport writes into the parser's buffer. */
module BufferedConsumer {
  import opened Options
  import opened Bytes
  import opened Framing
  import opened StreamConsumer
  import opened BufferParser
  import Resync

  /** The delivery of a call that lets the parser look at the first `n` bytes of the buffer `b`. */
  function EmitBuffer(ser: Serializer, b: bytes, n: nat): Option<Delivery>
    requires Suits(ser, |b|) && n <= |b|
  {
    Report(SplitBuffer(ser, b, n))
  }

  /** What is held after that call, and whether it has been looked at. */
  function FeedBuffer(ser: Serializer, b: bytes, n: nat): View
    requires Suits(ser, |b|) && n <= |b|
  {
    match SplitBuffer(ser, b, n)
    case More(keep) => View(keep, true)
    case Frame(_, rest) => View(rest, rest == [])
    case Overrun(rest, _) => View(rest, rest == [])
  }

  /**
   * A remainder always fits into the next buffer and leaves room for at least one byte. So do the bytes of a
   * starving parser, unless the separator is longer than the buffer.
   */
  lemma RemainderFits(ser: Serializer, b: bytes, n: nat)
    requires Suits(ser, |b|) && n <= |b|
    ensures !SplitBuffer(ser, b, n).More? || Roomy(ser, |b|) ==> |FeedBuffer(ser, b, n).held| < |b|
  {
    match ser
    case Separated(sep, _, _) =>
      if Find(b[..n], sep, 0).None? && n >= |sep| && n + 1 >= |b| {
        ShortRemainder(b, n + 1 - |sep|, sep);
      }
    case FixedSize(size) =>
    case RawJson(limit) =>
      assert SplitJson(b[..n], limit).Overrun? ==> |SplitJson(b[..n], limit).rest| < n by {
        if n > 0 && SplitJson(b[..n], limit).Overrun? {
          SplitConsumes(ser, b[..n]);
        }
      }
  }

  lemma ShortRemainder(b: bytes, consumed: nat, sep: bytes)
    requires sep != [] && consumed <= |b| <= consumed + |sep|
    ensures |Resync.Remaining(b, consumed, sep)| < |sep|
  {
    var rem := b[consumed..];
    Resync.LongestCandidate(rem, sep);
  }

  /** The result of `next()`, or the `RuntimeError` for a call out of order. */
  datatype BufferedReceived<+P> = Result(received: Received<P>) | Misused

  class BufferedStreamDataConsumer<P> {
    const ser: Serializer
    const deserialize: bytes -> Decoded<P>
    const sizehint: nat
    var buffer: array?<byte>
    var consumer: Parser?
    /** The length of the write buffer that has been handed out, if it has not been taken back. */
    var exported: Option<nat>
    var bufferStart: nat
    var alreadyWritten: nat

    ghost function Repr(): set<object>
      reads this, consumer
    {
      {this} + (if buffer == null then {} else {buffer})
      + (if consumer == null then {}
         else {consumer} + (if consumer.scanner == null then {} else {consumer.scanner}))
    }

    /**
     * An active parser has a live buffer, whose first `bufferStart` bytes it has seen; the saved remainder
     * behind them has not been shown to it yet; and there is room for at least one more byte, unless the
     * separator is longer than the buffer.
     */
    ghost predicate Valid()
      reads this, Repr()
    {
      && Suits(ser, BufferSize(ser, sizehint))
      && (buffer != null ==> buffer.Length == BufferSize(ser, sizehint))
      && (consumer == null ==> alreadyWritten == 0 && exported == None)
      && (consumer != null ==>
            && buffer != null && consumer.buf == buffer && consumer.ser == ser && consumer.Valid()
            && consumer.count == bufferStart
            && bufferStart + alreadyWritten <= buffer.Length
            && (Roomy(ser, buffer.Length) ==> bufferStart + alreadyWritten < buffer.Length)
            && (alreadyWritten > 0 ==> bufferStart == 0)
            && (exported.Some? ==> 0 < exported.value == buffer.Length - bufferStart - alreadyWritten))
    }

    /** The bytes held. They are pending, not yet shown to a parser, if there are any already written. */
    ghost function Abstract(): View
      reads this, Repr()
      requires Valid()
    {
      if consumer == null then View([], true)
      else View(buffer[..bufferStart + alreadyWritten], alreadyWritten == 0)
    }

    /** The number of valid bytes once the transport has added `nb`. */
    ghost function Filled(nb: nat): nat
      reads this
    {
      bufferStart + alreadyWritten + nb
    }

    constructor (ser: Serializer, deserialize: bytes -> Decoded<P>, sizehint: nat)
      requires ser.Valid()
      ensures Valid() && fresh(Repr()) && Abstract() == View([], true) && exported == None
      ensures this.ser == ser && this.deserialize == deserialize && this.sizehint == sizehint
    {
      this.ser := ser;
      this.deserialize := deserialize;
      this.sizehint := sizehint;
      buffer := null;
      consumer := null;
      exported := None;
      bufferStart := 0;
      alreadyWritten := 0;
    }

    /**
     * `next(nb)`; `None` is `next(None)`. The parser sees what was saved and the `nb` bytes that the
     * transport has written behind it.
     */
    method Next(nb: Option<nat>) returns (r: BufferedReceived<P>)
      requires Valid()
      modifies Repr()
      ensures Valid() && fresh(Repr() - old(Repr()))
      ensures r == Misused <==> nb.Some? && (old(exported) == None || nb.value > old(exported).value)
      ensures r == Misused ==> Abstract() == old(Abstract()) && exported == old(exported)
      ensures r != Misused ==>
                var added := if nb == None then 0 else nb.value;
                if old(consumer) == null || old(alreadyWritten) + added == 0 then
                  r == Result(Starved) && Abstract() == old(Abstract()) && exported == old(exported)
                else
                  && old(Filled(added)) <= |old(buffer[..])|
                  && r == Result(Interpret(deserialize, EmitBuffer(ser, old(buffer[..]), old(Filled(added)))))
                  && Abstract() == FeedBuffer(ser, old(buffer[..]), old(Filled(added)))
                  && exported == None
    {
      hide SplitBuffer;
      var added := 0;
      if nb.Some? {
        if exported == None || nb.value > exported.value {
          return Misused;
        }
        added := nb.value;
      }
      if consumer == null || added + alreadyWritten == 0 {
        return Result(Starved);
      }
      r := Resume(added + alreadyWritten);
    }

    /** Resumes the parser on `n` more bytes. */
    method Resume(n: nat) returns (r: BufferedReceived<P>)
      requires Valid() && consumer != null && alreadyWritten <= n && bufferStart + n <= buffer.Length
      modifies Repr()
      ensures Valid() && fresh(Repr() - old(Repr())) && exported == None
      ensures r == Result(Interpret(deserialize, EmitBuffer(ser, old(buffer[..]), old(bufferStart) + n)))
      ensures Abstract() == FeedBuffer(ser, old(buffer[..]), old(bufferStart) + n)
    {
      hide SplitBuffer, Interpret, Report, Suits, Roomy, Find;
      var parser := consumer;
      RemainderFits(ser, buffer[..], bufferStart + n);
      alreadyWritten := 0;
      exported := None;
      consumer := null;
      var o := parser.Send(n);
      r := Result(Interpret(deserialize, Report(o)));
      if o.More? {
        bufferStart := parser.count;
        consumer := parser;
      } else {
        SaveRemainder(o.rest);
      }
    }

    /**
     * `get_write_buffer()`: the part of the buffer the transport may write to, `view.value` bytes at its end.
     * `None` is the `RuntimeError` for a buffer that is full, which takes a separator longer than the buffer.
     */
    method GetWriteBuffer() returns (view: Option<nat>)
      requires Valid()
      modifies this
      ensures Valid() && fresh(Repr() - old(Repr())) && Abstract().held == old(Abstract()).held
      ensures consumer != null && exported == view
      ensures view == None <==> Filled(0) == buffer.Length && old(exported) == None
      ensures view == None ==> !Roomy(ser, BufferSize(ser, sizehint)) && |Abstract().held| == buffer.Length
      ensures view.Some? ==> view.value == buffer.Length - Filled(0)
      ensures old(consumer) == null && ser.FixedSize? ==> view.Some? && view.value >= sizehint && view.value >= ser.size
      ensures old(consumer) == null && !ser.FixedSize? ==> view == Some(ser.limit)
      ensures old(consumer) != null ==>
                buffer == old(buffer) && consumer == old(consumer) && Abstract() == old(Abstract())
    {
      if exported.Some? {
        return exported;
      }
      view := NewWriteBuffer();
      exported := view;
    }

    /** The transport has written to the buffer, behind the bytes held. */
    twostate lemma WrittenBehind()
      requires old(Valid()) && unchanged(this) && consumer != null && unchanged(consumer)
      requires consumer.scanner != null ==> unchanged(consumer.scanner)
      requires buffer[..bufferStart + alreadyWritten] == old(buffer[..bufferStart + alreadyWritten])
      ensures Valid() && Abstract() == old(Abstract())
    {
      hide Parser.Valid;
      assert buffer[..bufferStart] == buffer[..bufferStart + alreadyWritten][..bufferStart];
      assert old(buffer[..bufferStart]) == old(buffer[..bufferStart + alreadyWritten])[..bufferStart];
      consumer.WrittenBehind();
    }

    method NewWriteBuffer() returns (view: Option<nat>)
      requires Valid() && exported == None
      modifies this
      ensures Valid() && fresh(Repr() - old(Repr())) && exported == None
      ensures consumer != null
      ensures old(consumer) == null ==>
                && Filled(0) == 0 && (if old(buffer) == null then fresh(buffer) else buffer == old(buffer))
                && fresh(consumer) && consumer.count == 0 && consumer.offset == 0 && consumer.scanner == null
      ensures old(consumer) != null ==>
                buffer == old(buffer) && consumer == old(consumer) && Filled(0) == old(Filled(0))
                && alreadyWritten == old(alreadyWritten)
      ensures view == if Filled(0) == buffer.Length then None else Some(buffer.Length - Filled(0))
    {
      if buffer == null {
        // "Buffer flushed while there is an active consumer" cannot happen.
        buffer := new byte[BufferSize(ser, sizehint)](_ => 0);
      }
      if consumer == null {
        consumer := new Parser(ser, buffer);
        bufferStart := 0;
      }
      view := None;
      if bufferStart + alreadyWritten < buffer.Length {
        view := Some(buffer.Length - bufferStart - alreadyWritten);
      }
    }

    /** The remainder may be a view of the current buffer, so it is copied to the front of a new one. */
    method SaveRemainder(remaining: bytes)
      requires Valid() && consumer == null && exported == None
      requires |remaining| < BufferSize(ser, sizehint)
      modifies this
      ensures Valid() && fresh(Repr() - old(Repr())) && exported == None
      ensures Abstract() == View(remaining, remaining == [])
    {
      if remaining == [] {
        return;
      }
      buffer := null;
      var view := NewWriteBuffer();
      var target := buffer;
      for i := 0 to |remaining|
        invariant target[..i] == remaining[..i]
        invariant buffer == target && fresh(target) && fresh(consumer) && exported == None
        invariant consumer != null && consumer.buf == target && consumer.ser == ser
        invariant consumer.count == 0 && consumer.offset == 0 && consumer.scanner == null
        invariant bufferStart == 0 && alreadyWritten == 0
        invariant target.Length == BufferSize(ser, sizehint)
      {
        target[i] := remaining[i];
      }
      alreadyWritten := alreadyWritten + |remaining|;
    }

    /** Forgets everything received, and the buffer. */
    method Clear()
      requires Valid()
      modifies this
      ensures Valid() && Abstract() == View([], true) && exported == None && fresh(Repr() - old(Repr()))
    {
      exported := None;
      buffer := null;
      bufferStart := 0;
      alreadyWritten := 0;
      consumer := null;
    }
  }
}
