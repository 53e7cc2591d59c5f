/**
 * Round trips with separators, under any chunking: which packets come back as they were sent, for senders that
 * look for the separator inside a packet, and for those that do not, such as `StringLineSerializer`.
 */
module SeparatorStream {
  import opened Options
  import opened Bytes
  import opened Framing
  import opened StreamConsumer
  import opened RoundTrip
  import opened Separator
  import opened Resynchronisation

  lemma {:induction false} SentIsWire(ser: Serializer, datas: seq<bytes>, check: bool)
    requires ser.Valid() && ser.Separated?
    ensures SentBytes(datas, ser.sep, check) == Wire(ser, Payloads(datas, ser.sep, check))
  {
    hide Sends, Line;
    if datas != [] {
      var rest := Payloads(datas[1..], ser.sep, check);
      SentIsWire(ser, datas[1..], check);
      if Sends(datas[0], ser.sep, check).Chunk? {
        ChunkIsLine(datas[0], ser.sep, check);
        assert Payloads(datas, ser.sep, check)[1..] == rest;
      } else {
        assert Payloads(datas, ser.sep, check) == rest;
        assert [] + SentBytes(datas[1..], ser.sep, check) == SentBytes(datas[1..], ser.sep, check);
      }
    }
  }

  lemma DecodeOnce(ser: Serializer, d: bytes, e: bytes)
    requires Decode(ser, d) == Decode(ser, e)
    ensures d == e
  {
    if ser.Separated? && ser.keepEnd {
      assert d == (d + ser.sep)[..|d|] && e == (e + ser.sep)[..|e|];
    }
  }

  /** Payloads that are delivered as they were sent are the frames of the stream. */
  lemma {:induction false} DeliveredAreFrames(ser: Serializer, docs: seq<bytes>)
    requires ser.Valid() && ser.Separated?
    requires Accounts(ser, ChunkedBounds(ser), Frames(Wire(ser, docs), ser.sep), Deliveries(ser, docs), false)
    ensures AllEncodable(ser, docs)
    decreases |docs|
  {
    hide Find, Decode;
    if docs != [] {
      var s := Wire(ser, docs);
      var rest := Wire(ser, docs[1..]);
      var p := Find(s, ser.sep, 0).value;
      assert Deliveries(ser, docs)[1..] == Deliveries(ser, docs[1..]);
      DecodeOnce(ser, s[..p], docs[0]);
      FindInPrefix(docs[0] + ser.sep, rest, ser.sep);
      assert s[p + |ser.sep|..] == rest;
      assert Frames(s, ser.sep)[1..] == Frames(rest, ser.sep);
      DeliveredAreFrames(ser, docs[1..]);
    }
  }

  /**
   * The round trip for every separator, both senders and any chunking: the payloads sent are the packets
   * received, in order, if and only if each of them is within the limit and ends at the first separator of the
   * payload with its separator.
   */
  lemma {:induction false} RoundTripIff(ser: Serializer, datas: seq<bytes>, check: bool, ops: seq<bytes>)
    requires ser.Valid() && ser.Separated?
    requires Concat(ops) == SentBytes(datas, ser.sep, check) && Starving(RunView(ser, EMPTY, ops))
    ensures RunOutput(ser, EMPTY, ops) == Deliveries(ser, Payloads(datas, ser.sep, check))
       <==> AllEncodable(ser, Payloads(datas, ser.sep, check))
  {
    hide RunOutput, RunView, Deliveries, AllEncodable, Payloads, SentBytes, Wire, Accounts, Frames;
    var docs := Payloads(datas, ser.sep, check);
    SentIsWire(ser, datas, check);
    if AllEncodable(ser, docs) {
      StreamRoundTrip(ser, ops, docs);
    }
    if RunOutput(ser, EMPTY, ops) == Deliveries(ser, docs) {
      StreamAccounts(ser, ops, []);
      assert Concat(ops) + [] == Wire(ser, docs);
      DeliveredAreFrames(ser, docs);
    }
  }

  // ----- separators without border -----

  /** No payload contains the separator or exceeds the limit. */
  predicate AllClean(ser: Serializer, docs: seq<bytes>)
    requires ser.Separated?
  {
    docs == []
    || (Find(docs[0], ser.sep, 0).None? && |docs[0]| <= ser.limit && AllClean(ser, docs[1..]))
  }

  lemma {:induction false} EncodableIffClean(ser: Serializer, docs: seq<bytes>)
    requires ser.Valid() && ser.Separated? && BorderFree(ser.sep)
    ensures AllEncodable(ser, docs) <==> AllClean(ser, docs)
  {
    hide Find, BorderFree;
    if docs != [] {
      if Find(docs[0], ser.sep, 0).None? {
        CleanPayloadEnds(docs[0], ser.sep);
      } else {
        FindStable(docs[0], ser.sep, ser.sep);
      }
      EncodableIffClean(ser, docs[1..]);
    }
  }

  /** The unchecked sender: if and only if no line sent contains the separator or exceeds the limit. */
  lemma {:induction false} UncheckedRoundTripIff(ser: Serializer, datas: seq<bytes>, ops: seq<bytes>)
    requires ser.Valid() && ser.Separated? && BorderFree(ser.sep)
    requires Concat(ops) == SentBytes(datas, ser.sep, false) && Starving(RunView(ser, EMPTY, ops))
    ensures RunOutput(ser, EMPTY, ops) == Deliveries(ser, Payloads(datas, ser.sep, false))
       <==> AllClean(ser, Payloads(datas, ser.sep, false))
  {
    hide RunOutput, RunView, Deliveries, AllEncodable, AllClean, Payloads, SentBytes, BorderFree;
    RoundTripIff(ser, datas, false, ops);
    EncodableIffClean(ser, Payloads(datas, ser.sep, false));
  }

  predicate AllWithin(limit: nat, docs: seq<bytes>) {
    docs == [] || (|docs[0]| <= limit && AllWithin(limit, docs[1..]))
  }

  lemma {:induction false} CheckedAreClean(ser: Serializer, datas: seq<bytes>)
    requires ser.Valid() && ser.Separated?
    ensures var docs := Payloads(datas, ser.sep, true); AllClean(ser, docs) <==> AllWithin(ser.limit, docs)
  {
    hide Find, Sends, Line;
    if datas != [] {
      var docs := Payloads(datas, ser.sep, true);
      var rest := Payloads(datas[1..], ser.sep, true);
      CheckedAreClean(ser, datas[1..]);
      CheckedPayload(datas[0], ser.sep);
      assert Payloads([datas[0]], ser.sep, true) + rest == docs by {
        assert [datas[0]][1..] == [];
      }
      if docs != rest {
        assert docs[1..] == rest;
      }
    }
  }

  /**
   * The checked sender: separators at the end, empty packets and packets with a separator inside are left out;
   * what is sent comes back if and only if it is within the limit.
   */
  lemma {:induction false} SeparatorRoundTrip(ser: Serializer, datas: seq<bytes>, ops: seq<bytes>)
    requires ser.Valid() && ser.Separated? && BorderFree(ser.sep)
    requires Concat(ops) == SentBytes(datas, ser.sep, true) && Starving(RunView(ser, EMPTY, ops))
    ensures RunOutput(ser, EMPTY, ops) == Deliveries(ser, Payloads(datas, ser.sep, true))
       <==> AllWithin(ser.limit, Payloads(datas, ser.sep, true))
  {
    hide RunOutput, RunView, Deliveries, AllEncodable, AllClean, AllWithin, Payloads, SentBytes, BorderFree;
    RoundTripIff(ser, datas, true, ops);
    EncodableIffClean(ser, Payloads(datas, ser.sep, true));
    CheckedAreClean(ser, datas);
  }

  // ----- where it fails -----

  /** With the separator `aa`, the packet `a` is sent by both senders, and an empty packet is received. */
  lemma BorderedSeparatorLosesPacket(limit: nat, check: bool)
    requires limit > 0
    ensures var sep: bytes := [0x61, 0x61];
            var ser := Separated(sep, limit, false);
            && SentBytes([[0x61]], sep, check) == [0x61, 0x61, 0x61] && Payloads([[0x61]], sep, check) == [[0x61]]
            && Find([0x61], sep, 0).None?
            && Emit(ser, EMPTY, [0x61, 0x61, 0x61]) == Some(Delivered([]))
            && Feed(ser, EMPTY, [0x61, 0x61, 0x61]) == View([0x61], false)
  {
    var sep: bytes := [0x61, 0x61];
    var data: bytes := [0x61];
    var t: bytes := [0x61, 0x61, 0x61];
    CheckedPayload(data, sep);
    UncheckedPayload(data, sep);
    assert data + sep == t == [] + t && t + [] == t && [data][1..] == [];
    assert t[0..2] == sep && t[..0] == [] && t[2..] == [0x61];
  }

  lemma OneLineSent(data: bytes, sep: bytes)
    requires sep != [] && data != []
    ensures SentBytes([data], sep, false) == Line(data, sep) + sep
  {
    var c := Sends(data, sep, false).data;
    ChunkIsLine(data, sep, false);
    UncheckedPayload(data, sep);
    assert [data][1..] == [] && c + [] == c;
    assert Payloads([data], sep, false) == [Line(c, sep)] + [];
  }

  /**
   * A single packet is reported once if and only if it contains no separator but for one at its end; otherwise
   * it comes back as several packets.
   */
  lemma {:induction false} SeveralPacketsIff(ser: Serializer, data: bytes, ops: seq<bytes>)
    requires ser.Valid() && ser.Separated? && BorderFree(ser.sep) && data != []
    requires Concat(ops) == SentBytes([data], ser.sep, false) && Starving(RunView(ser, EMPTY, ops))
    ensures var n := Ended(RunOutput(ser, EMPTY, ops));
            n >= 1 && (n >= 2 <==> Find(Line(data, ser.sep), ser.sep, 0).Some?)
  {
    hide RunOutput, RunView, BorderFree, Line, Accounts, Find;
    var line := Line(data, ser.sep);
    var t := line + ser.sep;
    OneLineSent(data, ser.sep);
    StreamAccounts(ser, ops, []);
    FramesOfLine(line, ser.sep);
  }

  lemma FramesOfLine(line: bytes, sep: bytes)
    requires sep != [] && BorderFree(sep)
    ensures var n := |Frames(line + sep, sep)|; n >= 1 && (n >= 2 <==> Find(line, sep, 0).Some?)
  {
    hide Find, BorderFree, Frames;
    var t := line + sep;
    if Find(line, sep, 0).None? {
      CleanPayloadEnds(line, sep);
      FramesAre(t, sep);
      assert t[|line| + |sep|..] == [];
      NoneInNothing(sep);
      FramesAre([], sep);
    } else {
      var p := Find(line, sep, 0).value;
      FindStable(line, sep, sep);
      FramesAre(t, sep);
      DropFromPrefix(line, sep, p + |sep|);
      EndsWithSeparator(line[p + |sep|..], sep);
      FramesAre(line[p + |sep|..] + sep, sep);
    }
  }

  lemma {:induction false} FramesAre(s: bytes, sep: bytes)
    requires sep != []
    ensures |Frames(s, sep)| == if Find(s, sep, 0).None? then 0
                                else 1 + |Frames(s[Find(s, sep, 0).value + |sep|..], sep)|
  {
    hide Find;
  }

  lemma NoneInNothing(sep: bytes)
    requires sep != []
    ensures Find([], sep, 0).None?
  {
  }

  lemma EndsWithSeparator(a: bytes, sep: bytes)
    ensures Find(a + sep, sep, 0).Some?
  {
    hide Find;
    assert OccursAt(a + sep, sep, |a|);
    FindMeans(a + sep, sep, 0);
  }
}
