/**
 * Whole runs of a consumer: a stream of encodable frames, cut anywhere and fed in any order of
 * `next(chunk)` and `next(None)`, is delivered frame by frame, nothing lost, added or changed.
 */
module RoundTrip {
  import opened Options
  import opened Bytes
  import opened Framing
  import opened StreamConsumer
  import Json = JsonScan

  const NEWLINE: byte := 0x0A

  /** The bytes put on the wire for one frame. */
  function Encode(ser: Serializer, d: bytes): bytes {
    match ser
    case Separated(sep, _, _) => d + sep
    case FixedSize(_) => d
    case RawJson(_) => if d != [] && Json.IsOpening(d[0]) then d else d + [NEWLINE]
  }

  /** The frame the receiver sees. */
  function Decode(ser: Serializer, d: bytes): bytes {
    if ser.Separated? && ser.keepEnd then d + ser.sep else d
  }

  function Wire(ser: Serializer, docs: seq<bytes>): bytes {
    if docs == [] then [] else Encode(ser, docs[0]) + Wire(ser, docs[1..])
  }

  function Deliveries(ser: Serializer, docs: seq<bytes>): seq<Delivery> {
    if docs == [] then [] else [Delivered(Decode(ser, docs[0]))] + Deliveries(ser, docs[1..])
  }

  /** `d` can be sent as one frame: it fits the limit and does not end early. */
  predicate Encodable(ser: Serializer, d: bytes) {
    match ser
    case Separated(sep, limit, _) => |d| <= limit && Find(d + sep, sep, 0) == Some(|d|)
    case FixedSize(size) => |d| == size
    case RawJson(limit) =>
      && d != [] && !Json.IsWhitespace(d[0])
      && (if Json.IsOpening(d[0]) then Json.DocumentEnd(d) == Some(|d|) && |d| <= limit
          else Json.FindUnprintable(d, 0).None? && |d| < limit)
  }

  predicate AllEncodable(ser: Serializer, docs: seq<bytes>) {
    docs == [] || (Encodable(ser, docs[0]) && AllEncodable(ser, docs[1..]))
  }

  // ----- runs -----

  function RunView(ser: Serializer, v: View, ops: seq<bytes>): View
    requires ser.Valid()
    decreases |ops|
  {
    if ops == [] then v else RunView(ser, Feed(ser, v, ops[0]), ops[1..])
  }

  function AsSeq(d: Option<Delivery>): seq<Delivery> {
    match d
    case None => []
    case Some(x) => [x]
  }

  function RunOutput(ser: Serializer, v: View, ops: seq<bytes>): seq<Delivery>
    requires ser.Valid()
    decreases |ops|
  {
    if ops == [] then []
    else AsSeq(Emit(ser, v, ops[0])) + RunOutput(ser, Feed(ser, v, ops[0]), ops[1..])
  }

  /** The next `next(None)` raises `StopIteration`: whatever was complete has been delivered. */
  predicate Starving(v: View) {
    v.active || v.held == []
  }

  lemma {:induction false} RunParts(ser: Serializer, v: View, a: seq<bytes>, b: seq<bytes>)
    requires ser.Valid()
    ensures RunView(ser, v, a + b) == RunView(ser, RunView(ser, v, a), b)
    ensures RunOutput(ser, v, a + b) == RunOutput(ser, v, a) + RunOutput(ser, RunView(ser, v, a), b)
    decreases |a|
  {
    hide Split, Emit, Feed;
    if a == [] {
      assert a + b == b;
    } else {
      assert (a + b)[1..] == a[1..] + b;
      RunParts(ser, Feed(ser, v, a[0]), a[1..], b);
    }
  }

  lemma RunCons(ser: Serializer, v: View, c: bytes, calls: seq<bytes>)
    requires ser.Valid()
    ensures RunView(ser, v, [c] + calls) == RunView(ser, Feed(ser, v, c), calls)
    ensures RunOutput(ser, v, [c] + calls) == AsSeq(Emit(ser, v, c)) + RunOutput(ser, Feed(ser, v, c), calls)
    ensures Concat([c] + calls) == c + Concat(calls)
  {
    hide Split, Feed, Emit;
    assert ([c] + calls)[1..] == calls;
  }

  lemma {:induction false} RunKeepsValid(ser: Serializer, v: View, ops: seq<bytes>)
    requires v.Valid(ser)
    ensures RunView(ser, v, ops).Valid(ser)
    decreases |ops|
  {
    if ops != [] {
      FeedKeepsValid(ser, v, ops[0]);
      RunKeepsValid(ser, Feed(ser, v, ops[0]), ops[1..]);
    }
  }

  /**
   * Bounded retention: whatever the stream and its chunks, a starving consumer holds fewer than
   * limit + |sep| bytes, fewer than `limit` bytes of JSON, or less than one packet.
   */
  lemma {:induction false} RetentionIsBounded(ser: Serializer, ops: seq<bytes>)
    requires ser.Valid()
    ensures var v := RunView(ser, EMPTY, ops); Starving(v) ==> Bounded(ser, v.held)
  {
    RunKeepsValid(ser, EMPTY, ops);
    var v := RunView(ser, EMPTY, ops);
    if v.active {
      MoreIsBounded(ser, v.held);
    }
  }

  /** The bytes from the first one that is not blank. */
  function Stripped(s: bytes): bytes {
    s[Json.SkipWhitespace(s, 0)..]
  }

  /** Does the document `d` end where `t` goes on? A bare scalar needs a blank behind it, other than a space. */
  predicate Delimited(d: bytes, t: bytes)
    requires d != [] && d <= t
  {
    Json.IsOpening(d[0]) || (|d| < |t| && Json.IsWhitespace(t[|d|]) && !Json.IsPrintable(t[|d|]))
  }

  /** `s` consists of the JSON documents `docs` with any blanks before, between and behind them. */
  predicate CarriesJson(s: bytes, docs: seq<bytes>)
    decreases |docs|
  {
    var t := Stripped(s);
    if docs == [] then t == []
    else docs[0] != [] && docs[0] <= t && Delimited(docs[0], t) && CarriesJson(t[|docs[0]|..], docs[1..])
  }

  /** `s` is an encoding of `docs`. */
  predicate Carries(ser: Serializer, s: bytes, docs: seq<bytes>) {
    if ser.RawJson? then CarriesJson(s, docs) else s == Wire(ser, docs)
  }

  /** What is held, with what is still to come, is an encoding of `docs`. */
  ghost predicate Pending(ser: Serializer, held: bytes, future: bytes, docs: seq<bytes>) {
    AllEncodable(ser, docs) && Carries(ser, held + future, docs)
  }

  /** The frames delivered are those sent, with the separator behind them if it is to be kept. */
  lemma {:induction false} DeliveriesAre(ser: Serializer, docs: seq<bytes>, i: nat)
    requires i < |docs|
    ensures |Deliveries(ser, docs)| == |docs|
    ensures Deliveries(ser, docs)[i]
         == Delivered(docs[i] + if ser.Separated? && ser.keepEnd then ser.sep else [])
    decreases |docs|
  {
    assert docs[i] + [] == docs[i];
    if i > 0 {
      DeliveriesAre(ser, docs[1..], i - 1);
    } else if |docs| > 1 {
      DeliveriesAre(ser, docs[1..], 0);
    }
  }

  // ----- one step -----

  /** What `next` achieves on the bytes `t`: nothing is wrong, and at most one frame is taken. */
  ghost predicate Progress(ser: Serializer, t: bytes, future: bytes, docs: seq<bytes>)
    requires ser.Valid()
  {
    match Split(ser, t)
    case More(keep) =>
      && Pending(ser, keep, future, docs)
      && (docs == [] || |keep| < |Encode(ser, docs[0])|)
    case Frame(data, rest) =>
      && docs != [] && data == Decode(ser, docs[0]) && Pending(ser, rest, future, docs[1..])
    case Overrun(_, _) => false
  }

  lemma StepSeparated(ser: Serializer, t: bytes, future: bytes, docs: seq<bytes>)
    requires ser.Valid() && ser.Separated? && Pending(ser, t, future, docs)
    ensures Progress(ser, t, future, docs)
  {
    hide Find;
    if docs == [] {
      assert t == [];
      FindMeans(t, ser.sep, 0);
    } else {
      var d := docs[0];
      var rest := Wire(ser, docs[1..]);
      FindStable(d + ser.sep, rest, ser.sep);
      SplitFirstFrame(ser, t, future, d, rest);
    }
  }

  lemma SplitFirstFrame(ser: Serializer, t: bytes, future: bytes, d: bytes, rest: bytes)
    requires ser.Valid() && ser.Separated? && t + future == d + ser.sep + rest
    requires Find(t + future, ser.sep, 0) == Some(|d|) && |d| <= ser.limit
    ensures var o := Split(ser, t);
            && !o.Overrun?
            && (o.More? ==> o.keep == t && |t| < |d| + |ser.sep|)
            && (o.Frame? ==> o.data == Decode(ser, d) && o.rest + future == rest)
  {
    hide Find;
    FirstSeparator(t, future, d, ser.sep, rest);
  }

  /** `d` and its separator are either all there, or no separator is in sight. */
  lemma FirstSeparator(t: bytes, future: bytes, d: bytes, sep: bytes, rest: bytes)
    requires sep != [] && t + future == d + sep + rest && Find(t + future, sep, 0) == Some(|d|)
    ensures if Find(t, sep, 0).Some? then
              && Find(t, sep, 0) == Some(|d|) && |d + sep| <= |t|
              && t[..|d|] == d && t[..|d + sep|] == d + sep && t[|d + sep|..] + future == rest
            else |t| < |d| + |sep|
  {
    hide Find;
    if |t| >= |d| + |sep| {
      FindInPrefix(t, future, sep);
      CutTwice(t, future, d + sep, rest);
      FrameText(t, d, sep);
    } else if Find(t, sep, 0).Some? {
      FindStable(t, future, sep);
    }
  }

  lemma FrameText(t: bytes, d: bytes, sep: bytes)
    requires |d| + |sep| <= |t| && t[..|d + sep|] == d + sep
    ensures t[..|d|] == d
  {
    assert t[..|d|] == t[..|d + sep|][..|d|];
  }

  lemma StepFixedSize(ser: Serializer, t: bytes, future: bytes, docs: seq<bytes>)
    requires ser.Valid() && ser.FixedSize? && Pending(ser, t, future, docs)
    ensures Progress(ser, t, future, docs)
  {
    if docs != [] {
      assert Encodable(ser, docs[0]);
      if |t| >= ser.size {
        assert t[..ser.size] == (t + future)[..ser.size] == docs[0];
        assert t[ser.size..] + future == (t + future)[ser.size..] == Wire(ser, docs[1..]);
      }
    }
  }

  lemma StripAgain(s: bytes, k: nat)
    requires k <= Json.SkipWhitespace(s, 0)
    ensures Json.SkipWhitespace(s[k..], 0) == Json.SkipWhitespace(s, 0) - k
    ensures Stripped(s[k..]) == Stripped(s)
  {
    var ws := Json.SkipWhitespace(s, 0);
    Json.SkipsWhitespace(s, 0);
    SkipIs(s[k..], 0, ws - k);
  }

  lemma {:induction false} SkipFrom(s: bytes, k: nat)
    requires k <= |s|
    ensures Json.SkipWhitespace(s, k) == k + Json.SkipWhitespace(s[k..], 0)
    ensures s[Json.SkipWhitespace(s, k)..] == Stripped(s[k..])
  {
    var n := Json.SkipWhitespace(s[k..], 0);
    Json.SkipsWhitespace(s[k..], 0);
    forall i | k <= i < k + n ensures Json.IsWhitespace(s[i]) {
      assert s[k..][i - k] == s[i];
    }
    SkipIs(s, k, k + n);
  }

  /** Blanks in front may be dropped, also from a part of the stream. */
  lemma BlanksDropped(tail: bytes, k: nat, future: bytes)
    requires k == Json.SkipWhitespace(tail, 0)
    ensures Stripped(tail[k..] + future) == Stripped(tail + future)
  {
    hide Json.SkipWhitespace;
    Json.SkipsWhitespace(tail, 0);
    LeadingWhitespace(tail, future);
    DropFromPrefix(tail, future, k);
    StripAgain(tail + future, k);
  }

  lemma CarriesStripped(s: bytes, s': bytes, docs: seq<bytes>)
    requires Stripped(s) == Stripped(s')
    ensures CarriesJson(s, docs) == CarriesJson(s', docs)
  {
  }

  lemma StepJson(ser: Serializer, t: bytes, future: bytes, docs: seq<bytes>)
    requires ser.Valid() && ser.RawJson? && Pending(ser, t, future, docs)
    ensures Progress(ser, t, future, docs)
  {
    hide Json.SkipWhitespace, CarriesJson, SplitDocument;
    var ws := Json.SkipWhitespace(t, 0);
    BlanksDropped(t, ws, future);
    CarriesStripped(t + future, t[ws..] + future, docs);
    if ws == |t| {
      assert t[ws..] == [];
    } else {
      Json.SkipsWhitespace(t, 0);
      JsonDocument(ser, t[ws..], future, docs, t[|t| - ws..]);
    }
  }

  /** The first byte of the first document is at hand. */
  lemma JsonDocument(ser: Serializer, doc: bytes, future: bytes, docs: seq<bytes>, leftover: bytes)
    requires ser.Valid() && ser.RawJson? && Pending(ser, doc, future, docs)
    requires doc != [] && !Json.IsWhitespace(doc[0])
    ensures docs != []
    ensures var o := SplitDocument(doc, leftover, ser.limit);
            && !o.Overrun?
            && (o.More? ==> o.keep == doc && |doc| < |Encode(ser, docs[0])|)
            && (o.Frame? ==> o.data == docs[0] && Pending(ser, o.rest, future, docs[1..]))
  {
    var w := doc + future;
    SkipIs(w, 0, 0);
    assert w[0..] == w;
    assert docs != [];
    var d := docs[0];
    assert Encodable(ser, d) && d <= w && Delimited(d, w);
    DocumentEndsBehind(ser, d, w);
    assert doc[0] == w[0] == d[0];
    if Json.DocumentEnd(doc).Some? {
      Json.DocumentEndStable(doc, future);
      assert d == w[..|d|] == doc[..|d|];
      BehindDocument(ser, doc, future, docs);
    } else {
      Json.DocumentEndLater(doc, future);
    }
  }

  lemma DocumentEndsBehind(ser: Serializer, d: bytes, w: bytes)
    requires ser.RawJson? && Encodable(ser, d) && d <= w && Delimited(d, w)
    ensures Json.DocumentEnd(w) == Some(|d|)
  {
    assert w == d + w[|d|..];
    if Json.IsOpening(d[0]) {
      Json.DocumentEndStable(d, w[|d|..]);
    } else {
      assert forall i :: 0 <= i < |d| ==> w[i] == d[i];
      assert !Json.IsPrintable(w[|d|]);
      var r := Json.FindUnprintable(w, 0);
      assert r.Some? && r.value <= |d|;
    }
  }

  /** Behind the first document, and the blanks after it, come the others. */
  lemma {:induction false} BehindDocument(ser: Serializer, doc: bytes, future: bytes, docs: seq<bytes>)
    requires ser.RawJson? && Pending(ser, doc, future, docs) && docs != [] && |docs[0]| <= |doc|
    requires Stripped(doc + future) == doc + future
    ensures Pending(ser, doc[Json.SkipWhitespace(doc, |docs[0]|)..], future, docs[1..])
  {
    hide Json.SkipWhitespace, Encodable;
    var n := |docs[0]|;
    var tail := doc[n..];
    SkipFrom(doc, n);
    BlanksDropped(tail, Json.SkipWhitespace(tail, 0), future);
    DropFromPrefix(doc, future, n);
    CarriesStripped(tail + future, tail[Json.SkipWhitespace(tail, 0)..] + future, docs[1..]);
  }

  /** What the serializer writes is an encoding: it puts a newline behind each bare scalar. */
  lemma {:induction false} WireCarries(ser: Serializer, docs: seq<bytes>)
    requires AllEncodable(ser, docs)
    ensures Carries(ser, Wire(ser, docs), docs)
    decreases |docs|
  {
    if ser.RawJson? && docs != [] {
      WireCarries(ser, docs[1..]);
      OneMoreCarried(ser, Wire(ser, docs[1..]), docs);
    }
  }

  /** A document in front of an encoding of the others. */
  lemma OneMoreCarried(ser: Serializer, rest: bytes, docs: seq<bytes>)
    requires ser.RawJson? && docs != [] && Encodable(ser, docs[0]) && CarriesJson(rest, docs[1..])
    ensures CarriesJson(Encode(ser, docs[0]) + rest, docs)
  {
    hide Json.DocumentEnd, Json.FindUnprintable, Json.SkipWhitespace;
    var d := docs[0];
    var w := Encode(ser, d) + rest;
    assert w[0] == d[0] && d <= w;
    SkipIs(w, 0, 0);
    assert w[0..] == w;
    var gap := Encode(ser, d)[|d|..];
    DropFromPrefix(Encode(ser, d), rest, |d|);
    assert gap == [] || gap == [NEWLINE];
    SkipIs(gap, 0, |gap|);
    BlanksDropped(gap, |gap|, rest);
    assert gap[|gap|..] + rest == rest;
    CarriesStripped(gap + rest, rest, docs[1..]);
  }

  lemma Step(ser: Serializer, t: bytes, future: bytes, docs: seq<bytes>)
    requires ser.Valid() && Pending(ser, t, future, docs)
    ensures Progress(ser, t, future, docs)
  {
    match ser
    case Separated(_, _, _) => StepSeparated(ser, t, future, docs);
    case FixedSize(_) => StepFixedSize(ser, t, future, docs);
    case RawJson(_) => StepJson(ser, t, future, docs);
  }

  // ----- whole runs -----

  /** The output is a prefix of `docs`; what is held is the rest; a starving consumer has no whole frame. */
  ghost predicate Delivers(ser: Serializer, v: View, ops: seq<bytes>, future: bytes, docs: seq<bytes>)
    requires ser.Valid()
  {
    var out := RunOutput(ser, v, ops);
    var v' := RunView(ser, v, ops);
    && v'.Valid(ser)
    && |out| <= |docs| && out == Deliveries(ser, docs[..|out|])
    && Pending(ser, v'.held, future, docs[|out|..])
    && (Starving(v') ==> |out| == |docs| || |v'.held| < |Encode(ser, docs[|out|])|)
  }

  /** Any sequence of calls whose chunks, followed by any future, are the encoding of `docs`. */
  lemma {:induction false} RunDelivers(ser: Serializer, v: View, ops: seq<bytes>, future: bytes, docs: seq<bytes>)
    requires v.Valid(ser) && Pending(ser, v.held, Concat(ops) + future, docs)
    ensures Delivers(ser, v, ops, future, docs)
    decreases |ops|
  {
    hide Split, Wire, Encode, AllEncodable, Pending, Emit, Feed, Decode, Starving;
    if ops == [] {
      NothingFed(ser, v, future, docs);
    } else {
      var v1 := Feed(ser, v, ops[0]);
      var done := AsSeq(Emit(ser, v, ops[0]));
      OneCall(ser, v, ops, future, docs);
      RunDelivers(ser, v1, ops[1..], future, docs[|done|..]);
      if done == [] {
        assert docs[0..] == docs;
      } else {
        OneMore(ser, v, ops, future, docs);
      }
    }
  }

  lemma NothingFed(ser: Serializer, v: View, future: bytes, docs: seq<bytes>)
    requires v.Valid(ser) && Pending(ser, v.held, Concat([]) + future, docs)
    ensures Delivers(ser, v, [], future, docs)
  {
    assert Concat([]) + future == future && docs[0..] == docs;
    if Starving(v) && docs != [] {
      HeldIsIncomplete(ser, v, future, docs);
    }
  }

  /** The first call takes at most the first frame. */
  lemma OneCall(ser: Serializer, v: View, ops: seq<bytes>, future: bytes, docs: seq<bytes>)
    requires v.Valid(ser) && ops != [] && Pending(ser, v.held, Concat(ops) + future, docs)
    ensures var v1 := Feed(ser, v, ops[0]);
            var done := AsSeq(Emit(ser, v, ops[0]));
            && v1.Valid(ser)
            && |done| <= |docs| && (done != [] ==> done == [Delivered(Decode(ser, docs[0]))])
            && Pending(ser, v1.held, Concat(ops[1..]) + future, docs[|done|..])
  {
    hide Split, Wire;
    var later := Concat(ops[1..]) + future;
    Regroup(v.held, ops, future);
    assert docs[0..] == docs;
    FeedKeepsValid(ser, v, ops[0]);
    if ops[0] == [] && Starving(v) {
      assert v.held + [] == v.held;
    } else {
      Step(ser, v.held + ops[0], later, docs);
    }
  }

  lemma Regroup(held: bytes, ops: seq<bytes>, future: bytes)
    requires ops != []
    ensures held + (Concat(ops) + future) == (held + ops[0]) + (Concat(ops[1..]) + future)
  {
    var more := Concat(ops[1..]);
    Associative(ops[0], more, future);
    Associative(held, ops[0], more + future);
  }

  lemma {:induction false} OneMore(ser: Serializer, v: View, ops: seq<bytes>, future: bytes, docs: seq<bytes>)
    requires ser.Valid() && ops != [] && docs != []
    requires Emit(ser, v, ops[0]) == Some(Delivered(Decode(ser, docs[0])))
    requires Delivers(ser, Feed(ser, v, ops[0]), ops[1..], future, docs[1..])
    ensures Delivers(ser, v, ops, future, docs)
  {
    hide Split, Wire, Encode, Emit, Feed, AllEncodable, Pending, Starving, Decode;
    var out1 := RunOutput(ser, Feed(ser, v, ops[0]), ops[1..]);
    assert RunOutput(ser, v, ops) == [Delivered(Decode(ser, docs[0]))] + out1;
    OneMoreDoc(ser, docs, |out1|);
  }

  lemma OneMoreDoc(ser: Serializer, docs: seq<bytes>, n: nat)
    requires n < |docs|
    ensures Deliveries(ser, docs[..n + 1]) == [Delivered(Decode(ser, docs[0]))] + Deliveries(ser, docs[1..][..n])
    ensures docs[n + 1..] == docs[1..][n..]
    ensures n + 1 < |docs| ==> docs[n + 1] == docs[1..][n]
  {
    assert docs[..n + 1][1..] == docs[1..][..n];
  }

  lemma HeldIsIncomplete(ser: Serializer, v: View, future: bytes, docs: seq<bytes>)
    requires v.Valid(ser) && Starving(v) && docs != [] && Pending(ser, v.held, future, docs)
    ensures |v.held| < |Encode(ser, docs[0])|
  {
    if v.active {
      Step(ser, v.held, future, docs);
    } else {
      assert Encodable(ser, docs[0]);
    }
  }

  /**
   * Round trip. An encoding of `docs`, cut into any chunks and fed to a new consumer with any
   * `next(None)` in between: once it starves, exactly `docs` has been delivered, in order.
   */
  lemma {:induction false} StreamRoundTrip(ser: Serializer, ops: seq<bytes>, docs: seq<bytes>)
    requires ser.Valid() && AllEncodable(ser, docs) && Carries(ser, Concat(ops), docs)
    requires Starving(RunView(ser, EMPTY, ops))
    ensures RunOutput(ser, EMPTY, ops) == Deliveries(ser, docs)
  {
    hide Split, Wire, Deliveries, RunOutput, RunView, Encode, AllEncodable, Pending, Concat, Carries;
    var out := RunOutput(ser, EMPTY, ops);
    assert Concat(ops) + [] == Concat(ops);
    PendingAtStart(ser, docs, Concat(ops) + []);
    RunDelivers(ser, EMPTY, ops, [], docs);
    if |out| < |docs| {
      NothingMissing(ser, RunView(ser, EMPTY, ops).held, docs[|out|..]);
    }
    assert docs[..|docs|] == docs;
  }

  lemma PendingAtStart(ser: Serializer, docs: seq<bytes>, stream: bytes)
    requires AllEncodable(ser, docs) && Carries(ser, stream, docs)
    ensures Pending(ser, [], stream, docs)
  {
    hide Carries;
    assert [] + stream == stream;
  }

  lemma NothingMissing(ser: Serializer, held: bytes, docs: seq<bytes>)
    requires ser.Valid() && docs != [] && Pending(ser, held, [], docs)
    ensures |held| >= |Encode(ser, docs[0])|
  {
    assert held + [] == held;
    if !ser.RawJson? {
      assert |Wire(ser, docs)| >= |Encode(ser, docs[0])|;
    }
  }
}
