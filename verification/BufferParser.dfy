/**
 * The generators that `BufferedStreamProtocol.build_packet_from_buffer` drives: they read a buffer of fixed
 * size that the transport fills, and know only how many of its bytes are valid.
 */
module BufferParser {
  import opened Options
  import opened Bytes
  import opened Framing
  import Resync
  import Json = JsonScan

  /** `create_deserializer_buffer(sizehint)` */
  function BufferSize(ser: Serializer, sizehint: nat): nat {
    match ser
    case Separated(_, limit, _) => limit
    case FixedSize(size) => if size > sizehint then size else sizehint
    case RawJson(limit) => limit
  }

  /** What `create_deserializer_buffer` guarantees: a buffer that is large enough for one packet. */
  predicate Suits(ser: Serializer, size: nat) {
    && ser.Valid() && size > 0
    && match ser
       case Separated(_, _, _) => true
       case FixedSize(n) => n <= size
       case RawJson(limit) => limit == size
  }

  /** The separator fits into the buffer. No constructor checks that it does. */
  predicate Roomy(ser: Serializer, size: nat) {
    ser.Separated? ==> |ser.sep| <= size
  }

  /**
   * One-shot framing of the first `n` bytes of the buffer `b`. Only the overrun of `_buffered_readuntil`
   * looks at the bytes behind them.
   */
  function SplitBuffer(ser: Serializer, b: bytes, n: nat): Outcome
    requires Suits(ser, |b|) && n <= |b|
  {
    match ser
    case Separated(sep, _, keepEnd) =>
      (match Find(b[..n], sep, 0)
       case Some(p) => Frame(if keepEnd then b[..p + |sep|] else b[..p], b[p + |sep|..n])
       case None =>
         if n >= |sep| && n + 1 >= |b| then Overrun(Resync.Remaining(b, n + 1 - |sep|, sep), false)
         else More(b[..n]))
    case FixedSize(size) => SplitFixedSize(b[..n], size)
    case RawJson(limit) => SplitJson(b[..n], limit)
  }

  class Parser {
    const ser: Serializer
    const buf: array<byte>
    /** The number of valid bytes at the start of `buf`; also the index yielded to the consumer. */
    var count: nat
    var offset: nat
    var scanner: Json.Scanner?

    ghost predicate Valid()
      reads this, buf, scanner
    {
      && Suits(ser, buf.Length)
      && count <= buf.Length && (Roomy(ser, buf.Length) ==> count < buf.Length)
      && match ser
         case Separated(sep, _, _) =>
           && Find(buf[..count], sep, 0).None?
           && (if count < |sep| then offset == 0 else offset == count + 1 - |sep| && count + 1 < buf.Length)
         case FixedSize(size) => count < size
         case RawJson(_) => ValidSearch()
    }

    ghost predicate ValidSearch()
      reads this, buf, scanner
    {
      && count <= buf.Length
      && (if scanner == null then count == 0
          else
            && count > 0 && !Json.IsWhitespace(buf[0]) && Json.DocumentEnd(buf[..count]).None?
            && scanner.Valid() && scanner.open == buf[0] && scanner.seen == buf[..count])
    }

    constructor (ser: Serializer, buf: array<byte>)
      requires Suits(ser, buf.Length)
      ensures Valid() && this.ser == ser && this.buf == buf && count == 0 && offset == 0 && scanner == null
    {
      this.ser := ser;
      this.buf := buf;
      count := 0;
      offset := 0;
      scanner := null;
    }

    /** The parser does not depend on the bytes behind the valid ones. */
    twostate lemma WrittenBehind()
      requires old(Valid()) && unchanged(this) && (scanner != null ==> unchanged(scanner))
      requires buf[..count] == old(buf[..count])
      ensures Valid()
    {
      hide Find, Json.DocumentEnd, Suits, Roomy;
      assert count > 0 ==> buf[..count][0] == buf[0] && old(buf[..count])[0] == old(buf[0]);
    }

    /** Resumes after the transport has written `nbytes` bytes behind the valid ones. */
    method Send(nbytes: nat) returns (r: Outcome)
      requires Valid() && count + nbytes <= buf.Length
      modifies this, buf, scanner
      ensures r == SplitBuffer(ser, old(buf[..]), old(count) + nbytes)
      ensures r.More? ==> Valid() && buf[..count] == r.keep
      ensures scanner == old(scanner) || fresh(scanner)
    {
      match ser
      case Separated(sep, _, keepEnd) => r := ReadUntil(nbytes, sep, keepEnd);
      case FixedSize(size) => r := ReadPacket(nbytes, size);
      case RawJson(limit) => r := RawParse(nbytes);
    }

    /** `_buffered_readuntil` and the slicing behind it. */
    method ReadUntil(nbytes: nat, sep: bytes, keepEnd: bool) returns (r: Outcome)
      requires ser.Separated? && ser.sep == sep && ser.keepEnd == keepEnd
      requires Valid() && count + nbytes <= buf.Length
      modifies this`count, this`offset
      ensures r == SplitBuffer(ser, buf[..], old(count) + nbytes)
      ensures r.More? ==> Valid() && buf[..count] == r.keep
    {
      hide Find, Resync.Remaining;
      ghost var before := buf[..count];
      ghost var chunk := buf[count..count + nbytes];
      var limit := buf.Length - 1 - |sep|;
      count := count + nbytes;
      assert buf[..count] == before + chunk;
      assert buf[..][..count] == buf[..count];
      if count - offset >= |sep| {
        FindResumes(before, chunk, sep, offset);
        var found := Find(buf[..count], sep, offset);
        if found.Some? {
          var end := found.value + |sep|;
          assert buf[..][..end] == buf[..end] && buf[..][..found.value] == buf[..found.value];
          assert buf[..][end..count] == buf[end..count];
          return Frame(if keepEnd then buf[..end] else buf[..found.value], buf[end..count]);
        }
        offset := count + 1 - |sep|;
        if offset > limit {
          var remaining := Resync.LimitOverrunError(buf[..], offset, sep);
          return Overrun(remaining, false);
        }
      } else {
        SearchedAlready(before, chunk, sep);
      }
      r := More(buf[..count]);
    }

    method ReadPacket(nbytes: nat, size: nat) returns (r: Outcome)
      requires ser == FixedSize(size) && Valid() && count + nbytes <= buf.Length
      modifies this`count
      ensures r == SplitBuffer(ser, buf[..], old(count) + nbytes)
      ensures r.More? ==> Valid() && buf[..count] == r.keep
    {
      count := count + nbytes;
      assert buf[..][..count] == buf[..count];
      if count < size {
        return More(buf[..count]);
      }
      r := Frame(buf[..size], buf[size..count]);
    }

    method RawParse(nbytes: nat) returns (r: Outcome)
      requires ser.RawJson? && Valid() && count + nbytes <= buf.Length
      modifies this, buf, scanner
      ensures r == SplitJson(old(buf[..])[..old(count) + nbytes], buf.Length)
      ensures r.More? ==> Valid() && buf[..count] == r.keep
      ensures scanner == old(scanner) || fresh(scanner)
    {
      hide SplitDocument, Find, Json.At, Json.DocumentEnd, Json.SkipWhitespace, Json.Scanner.Valid;
      hide SplitJson;
      assert ser == RawJson(buf.Length);
      hide Suits, Roomy;
      ghost var before := buf[..count];
      count := count + nbytes;
      ghost var all := buf[..][..count];
      ghost var ws := 0;
      if scanner == null {
        SkipBlank();
        ws := Json.SkipWhitespace(all, 0);
        JsonSplits(all, buf.Length);
        if count == 0 {
          return More([]);
        }
        scanner := new Json.Scanner(buf[0]);
      } else {
        assert before <= all;
        SkipIs(all, 0, 0);
        JsonSplits(all, buf.Length);
        assert all[0..] == all;
      }
      assert buf[..count] == all[ws..];
      r := FindEnd(all[|all| - ws..]);
    }

    /** Leading whitespace is dropped: the bytes behind it are moved to the front of the buffer, in place. */
    method SkipBlank()
      requires count <= buf.Length
      modifies this`count, buf
      ensures var ws := Json.SkipWhitespace(old(buf[..])[..old(count)], 0);
              count == old(count) - ws && buf[..count] == old(buf[..])[ws..old(count)]
    {
      ghost var was := buf[..];
      assert buf[..count] == was[..count];
      var start := Json.SkipWhitespace(buf[..count], 0);
      var n := count - start;
      if 0 < start && 0 < n {
        for i := 0 to n
          invariant count == old(count)
          invariant forall j :: 0 <= j < i ==> buf[j] == was[start + j]
          invariant forall j :: i <= j < buf.Length ==> buf[j] == was[j]
        {
          buf[i] := buf[start + i];
        }
      }
      count := n;
      assert buf[..count] == was[start..start + count];
    }

    /** `leftover`: what a growing buffer would have kept behind the document. */
    method FindEnd(ghost leftover: bytes) returns (r: Outcome)
      requires 0 < count <= buf.Length && scanner != null && scanner.Valid() && ser == RawJson(buf.Length)
      requires !Json.IsWhitespace(buf[0]) && scanner.open == buf[0] && scanner.seen <= buf[..count]
      requires count == buf.Length ==> leftover == []
      modifies scanner
      ensures r == SplitDocument(buf[..count], leftover, buf.Length)
      ensures r.More? ==> Valid() && buf[..count] == r.keep
    {
      var end := scanner.Search(buf[..count]);
      if end.None? {
        if count >= buf.Length {
          var remaining := Resync.LimitOverrunError(buf[..], count, []);
          return Overrun(remaining, false);
        }
        return More(buf[..count]);
      }
      // The limit is the size of the buffer, so a document in the buffer cannot be longer.
      var next := Json.SkipWhitespace(buf[..count], end.value);
      r := Frame(buf[..end.value], buf[next..count]);
      if end.value == 0 {
        assert buf[..count][0..] == buf[..count];
        r := Frame(r.rest, []);
      }
    }
  }
}
