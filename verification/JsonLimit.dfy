/** Which JSON values arrive whatever the chunks: the limit of the JSON serializers, exactly. */
module JsonLimit {
  import opened Options
  import opened Bytes
  import opened Framing
  import opened StreamConsumer
  import opened RoundTrip
  import opened JsonScan
  import opened JsonText
  import opened Draining

  /** When the first chunk overruns the limit, nothing that comes later makes up for it. */
  lemma OverrunFirst(ser: Serializer, c: bytes, rest: bytes) returns (ops: seq<bytes>)
    requires ser.Valid() && Emit(ser, EMPTY, c).Some? && Emit(ser, EMPTY, c).value.Overran?
    ensures Chunking(ser, c + rest, ops)
    ensures RunOutput(ser, EMPTY, ops) != [] && RunOutput(ser, EMPTY, ops)[0].Overran?
  {
    hide Split, Emit, Feed, RunView, RunOutput, Concat, Chunking;
    ops := ReportedFirst(ser, c, rest);
  }

  lemma LongLine(limit: nat, v: JsonText.Json) returns (ops: seq<bytes>)
    requires 0 < limit < |Text(v)|
    ensures Chunking(SerializerFor(limit, true), IncrementalSerialize(Text(v), true), ops)
    ensures RunOutput(SerializerFor(limit, true), EMPTY, ops) != [Delivered(Text(v))]
  {
    var ser := SerializerFor(limit, true);
    var t := Text(v) + [NEWLINE];
    LineEnds(v);
    hide Text, Find, RunOutput, RunView, Concat;
    assert [] + t == t && t + [] == t;
    ops := OverrunFirst(ser, t, []);
  }

  lemma LongEnclosed(limit: nat, v: JsonText.Json) returns (ops: seq<bytes>)
    requires 0 < limit < |Text(v)| && Enclosed(v)
    ensures Chunking(SerializerFor(limit, false), IncrementalSerialize(Text(v), false), ops)
    ensures RunOutput(SerializerFor(limit, false), EMPTY, ops) != [Delivered(Text(v))]
  {
    var t := Text(v);
    EnclosedText(v);
    SplitAtOnce(t, limit);
    assert t + [] == t;
    ops := OverrunFirst(RawJson(limit), t, []);
  }

  /** The newline comes in a chunk of its own. */
  lemma LongScalar(limit: nat, v: JsonText.Json) returns (ops: seq<bytes>)
    requires 0 < limit <= |Text(v)| && v.Scalar?
    ensures Chunking(SerializerFor(limit, false), IncrementalSerialize(Text(v), false), ops)
    ensures RunOutput(SerializerFor(limit, false), EMPTY, ops) != [Delivered(Text(v))]
  {
    var s := Text(v);
    assert s[0] == v.head;
    ScalarEnds(s, s + [NEWLINE]);
    SplitAtOnce(s, limit);
    ops := OverrunFirst(RawJson(limit), s, [NEWLINE]);
  }

  lemma FittingValue(limit: nat, v: JsonText.Json, useLines: bool, ops: seq<bytes>)
    requires limit > 0 && Fits(v, limit, useLines)
    requires Chunking(SerializerFor(limit, useLines), IncrementalSerialize(Text(v), useLines), ops)
    ensures RunOutput(SerializerFor(limit, useLines), EMPTY, ops) == [Delivered(Text(v))]
  {
    hide Text, IncrementalSerialize, RunOutput, RunView;
    var t := IncrementalSerialize(Text(v), useLines);
    assert [v][1..] == [] && t + [] == t;
    assert Texts([v]) == [Text(v)] && [Text(v)][1..] == [];
    JsonRoundTrip(limit, [v], useLines, ops);
  }

  /**
   * A value is delivered whatever the chunks if and only if its text is within the limit, or below it for a
   * bare scalar without lines.
   */
  lemma {:induction false} DeliveredIffFits(limit: nat, v: JsonText.Json, useLines: bool)
    requires limit > 0
    ensures (forall ops :: Chunking(SerializerFor(limit, useLines), IncrementalSerialize(Text(v), useLines), ops)
                           ==> RunOutput(SerializerFor(limit, useLines), EMPTY, ops) == [Delivered(Text(v))])
       <==> (if useLines || Enclosed(v) then |Text(v)| <= limit else |Text(v)| < limit)
  {
    hide Text, IncrementalSerialize, RunOutput, Chunking;
    var ser := SerializerFor(limit, useLines);
    var t := IncrementalSerialize(Text(v), useLines);
    if Fits(v, limit, useLines) {
      forall ops | Chunking(ser, t, ops)
        ensures RunOutput(ser, EMPTY, ops) == [Delivered(Text(v))]
      {
        FittingValue(limit, v, useLines, ops);
      }
    } else if useLines {
      var ops := LongLine(limit, v);
      assert Chunking(ser, t, ops);
    } else if Enclosed(v) {
      var ops := LongEnclosed(limit, v);
      assert Chunking(ser, t, ops);
    } else {
      var ops := LongScalar(limit, v);
      assert Chunking(ser, t, ops);
    }
  }
}
