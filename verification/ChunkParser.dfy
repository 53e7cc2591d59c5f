/**
 * The generators that `StreamProtocol.build_packet_from_chunks` drives, as resumable parsers: the locals
 * that survive a `yield` are fields, and `Send` runs from one `yield` to the next.
 */
module ChunkParser {
  import opened Options
  import opened Bytes
  import opened Framing
  import Resync
  import Json = JsonScan

  /** No separator in the buffer, and every place where one may still start lies at or behind the offset. */
  ghost predicate ValidOffset(buffer: bytes, offset: nat, sep: bytes, limit: nat) {
    && sep != [] && limit > 0
    && Find(buffer, sep, 0).None? && |buffer| + 1 <= limit + |sep|
    && (if |buffer| < |sep| then offset == 0 else offset == |buffer| + 1 - |sep|)
  }

  class Parser {
    const ser: Serializer
    /** Bytes received and not consumed: the reader's buffer, or the bytearray of `raw_parse`. */
    var buffer: bytes
    /** Where `read_until` goes on searching. */
    var offset: nat
    /** The search for the end of a JSON document, once its first byte is known. */
    var scanner: Json.Scanner?

    ghost predicate Valid()
      reads this, scanner
    {
      && ser.Valid()
      && match ser
         case Separated(sep, limit, _) => ValidOffset(buffer, offset, sep, limit)
         case FixedSize(size) => |buffer| < size
         case RawJson(limit) => ValidSearch() && |buffer| < limit
    }

    /** The document seen so far is in the buffer and its end is not in sight. */
    ghost predicate ValidSearch()
      reads this, scanner
    {
      if scanner == null then buffer == []
      else
        && buffer != [] && !Json.IsWhitespace(buffer[0]) && Json.DocumentEnd(buffer).None?
        && scanner.Valid() && scanner.open == buffer[0] && scanner.seen == buffer
    }

    /** A suspended parser is starving: the one-shot function asks for more as well. */
    lemma Starving()
      requires Valid()
      ensures Split(ser, buffer) == More(buffer)
    {
      if ser.RawJson? && buffer != [] {
        SkipIs(buffer, 0, 0);
        assert buffer[0..] == buffer;
      }
    }

    constructor (ser: Serializer)
      requires ser.Valid()
      ensures Valid() && this.ser == ser && buffer == [] && scanner == null
    {
      this.ser := ser;
      buffer := [];
      offset := 0;
      scanner := null;
    }

    /** Resumes with `chunk`: the outcome is that of the one-shot function on everything received. */
    method Send(chunk: bytes) returns (r: Outcome)
      requires Valid()
      modifies this, scanner
      ensures r == Split(ser, old(buffer) + chunk)
      ensures r.More? ==> Valid() && buffer == r.keep
      ensures scanner == old(scanner) || fresh(scanner)
    {
      match ser
      case Separated(sep, limit, keepEnd) => r := ReadUntil(chunk, sep, limit, keepEnd);
      case FixedSize(size) => r := ReadExactly(chunk, size);
      case RawJson(limit) => r := RawParse(chunk, limit);
    }

    method ReadUntil(chunk: bytes, sep: bytes, limit: nat, keepEnd: bool) returns (r: Outcome)
      requires ValidOffset(buffer, offset, sep, limit)
      modifies this`buffer, this`offset
      ensures r == SplitSeparated(old(buffer) + chunk, sep, limit, keepEnd)
      ensures r.More? ==> ValidOffset(buffer, offset, sep, limit) && buffer == r.keep
    {
      hide Find, Resync.Tail;
      ghost var before := buffer;
      buffer := buffer + chunk;
      var found := SearchSeparator(before, chunk, sep);
      if found.None? {
        if |buffer| >= |sep| && offset > limit {
          var remaining := Resync.LimitOverrunError(buffer, offset, sep);
          return Overrun(remaining, false);
        }
        return More(buffer);
      }
      r := TakeFrame(found.value, sep, limit, keepEnd);
    }

    /** Searches only where an occurrence may still start; without one, moves the offset. */
    method SearchSeparator(ghost before: bytes, ghost chunk: bytes, sep: bytes) returns (found: Option<nat>)
      requires sep != [] && buffer == before + chunk && Find(before, sep, 0).None?
      requires if |before| < |sep| then offset == 0 else offset == |before| + 1 - |sep|
      modifies this`offset
      ensures found == Find(buffer, sep, 0)
      ensures found.None? ==> if |buffer| < |sep| then offset == 0 else offset == |buffer| + 1 - |sep|
    {
      var buflen := |buffer|;
      found := None;
      if buflen - offset >= |sep| {
        FindResumes(before, chunk, sep, offset);
        found := Find(buffer, sep, offset);
        if found.None? {
          offset := buflen + 1 - |sep|;
        }
      } else {
        SearchedAlready(before, chunk, sep);
      }
    }

    /** The tail of `read_until`, with the separator found. */
    method TakeFrame(sepidx: nat, sep: bytes, limit: nat, keepEnd: bool) returns (r: Outcome)
      requires sep != [] && Find(buffer, sep, 0) == Some(sepidx)
      modifies this`buffer
      ensures r == SplitSeparated(old(buffer), sep, limit, keepEnd)
    {
      hide Find, Resync.Tail;
      var end := sepidx + |sep|;
      if sepidx > limit {
        FindMeans(buffer, sep, 0);
        assert buffer[sepidx..][..|sep|] == sep;
        assert buffer[sepidx..][|sep|..] == buffer[end..];
        var remaining := Resync.LimitOverrunError(buffer, sepidx, sep);
        return Overrun(remaining, true);
      }
      r := Frame(if keepEnd then buffer[..end] else buffer[..sepidx], buffer[end..]);
      buffer := r.rest;
    }

    method ReadExactly(chunk: bytes, size: nat) returns (r: Outcome)
      modifies this`buffer
      ensures r == SplitFixedSize(old(buffer) + chunk, size)
      ensures r.More? ==> |buffer| < size && buffer == r.keep
    {
      buffer := buffer + chunk;
      if |buffer| < size {
        return More(buffer);
      }
      r := Frame(buffer[..size], buffer[size..]);
      buffer := r.rest;
    }

    method RawParse(chunk: bytes, limit: nat) returns (r: Outcome)
      requires ValidSearch() && limit > 0
      modifies this, scanner
      ensures r == SplitJson(old(buffer) + chunk, limit)
      ensures r.More? ==> ValidSearch() && |buffer| < limit && buffer == r.keep
      ensures scanner == old(scanner) || fresh(scanner)
    {
      hide SplitDocument, Json.DocumentEnd;
      buffer := buffer + chunk;
      ghost var all := buffer;
      var bufferEnd := |buffer|;
      if scanner == null {
        bufferEnd := SkipBlank();
        if bufferEnd == 0 {
          buffer := [];
          return More([]);
        }
        scanner := new Json.Scanner(buffer[0]);
      } else {
        SkipIs(all, 0, 0);
      }
      assert buffer[..bufferEnd] == all[|all| - bufferEnd..];
      assert buffer[bufferEnd..] == all[bufferEnd..];
      r := FindEnd(bufferEnd, limit);
    }

    /**
     * Leading whitespace is dropped in place: the bytes behind it are copied to the front of the buffer,
     * whose length does not change.
     */
    method SkipBlank() returns (bufferEnd: nat)
      modifies this`buffer
      ensures var ws := Json.SkipWhitespace(old(buffer), 0);
              bufferEnd == |old(buffer)| - ws && buffer == old(buffer)[ws..] + old(buffer)[bufferEnd..]
    {
      var start := Json.SkipWhitespace(buffer, 0);
      bufferEnd := |buffer|;
      assert buffer[0..] + buffer[bufferEnd..] == buffer == buffer[bufferEnd..] + buffer[0..];
      if 0 < start < bufferEnd {
        buffer := buffer[start..bufferEnd] + buffer[bufferEnd - start..];
      }
      bufferEnd := bufferEnd - start;
    }

    /** The search on the first `bufferEnd` bytes of the buffer. */
    method FindEnd(bufferEnd: nat, limit: nat) returns (r: Outcome)
      requires limit > 0 && 0 < bufferEnd <= |buffer|
      requires scanner != null && scanner.Valid()
      requires !Json.IsWhitespace(buffer[0])
      requires scanner.open == buffer[0] && scanner.seen <= buffer[..bufferEnd]
      modifies this`buffer, scanner
      ensures r == SplitDocument(old(buffer)[..bufferEnd], old(buffer)[bufferEnd..], limit)
      ensures r.More? ==> ValidSearch() && |buffer| < limit && buffer == r.keep
    {
      var end := scanner.Search(buffer[..bufferEnd]);
      if end.None? {
        if bufferEnd >= limit {
          var remaining := Resync.LimitOverrunError(buffer, bufferEnd, []);
          return Overrun(remaining, false);
        }
        buffer := buffer[..bufferEnd];
        return More(buffer);
      }
      r := SplitFinalBuffer(bufferEnd, end.value, limit);
      if r.Frame? && end.value == 0 {
        assert buffer[..bufferEnd][0..] == buffer[..bufferEnd];
        r := Frame(r.rest, []);
      }
    }

    /** `__split_final_buffer`: the document, and what follows it behind further whitespace. */
    method SplitFinalBuffer(bufferEnd: nat, documentEnd: nat, limit: nat) returns (r: Outcome)
      requires documentEnd <= bufferEnd <= |buffer|
      ensures var doc := buffer[..bufferEnd];
              var next := Json.SkipWhitespace(doc, documentEnd);
              r == if documentEnd > limit then Overrun(doc[next..] + buffer[bufferEnd..], true)
                   else Frame(doc[..documentEnd], doc[next..])
    {
      var next := Json.SkipWhitespace(buffer[..bufferEnd], documentEnd);
      if documentEnd > limit {
        assert buffer[next..] == buffer[..bufferEnd][next..] + buffer[bufferEnd..];
        var remaining := Resync.LimitOverrunError(buffer, next, []);
        return Overrun(remaining, true);
      }
      r := Frame(buffer[..documentEnd], buffer[next..bufferEnd]);
    }
  }
}
