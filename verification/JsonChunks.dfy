/** Which JSON streams do not depend on how they are cut, exactly. */
module JsonChunks {
  import opened Options
  import opened Bytes
  import opened Framing
  import opened StreamConsumer
  import opened RoundTrip
  import opened JsonScan
  import opened JsonStream
  import opened Draining

  // ----- the first report -----

  /** The same delivery, or an overrun in both. */
  predicate SameFirst(a: seq<Delivery>, b: seq<Delivery>) {
    if a == [] || b == [] then a == b
    else a[0] == b[0] || (a[0].Overran? && b[0].Overran?)
  }

  ghost predicate Agree(limit: nat, doc: bytes, ops: seq<bytes>, ops': seq<bytes>)
    requires limit > 0
  {
    Chunking(RawJson(limit), doc, ops) && Chunking(RawJson(limit), doc, ops') ==>
      SameFirst(RunOutput(RawJson(limit), EMPTY, ops), RunOutput(RawJson(limit), EMPTY, ops'))
  }

  /** The first call on the bytes `t`, which do not start with a blank. */
  lemma {:induction false} FirstCall(limit: nat, t: bytes)
    requires limit > 0 && t != [] && !IsWhitespace(t[0])
    ensures Stripped(t) == t && SplitJson(t, limit) == SplitDocument(t, [], limit)
    ensures Emit(RawJson(limit), EMPTY, t) == Report(SplitJson(t, limit))
  {
    hide SplitJson, SkipWhitespace, SplitDocument;
    SplitAtOnce(t, limit);
    SkipIs(t, 0, 0);
    assert t[0..] == t;
  }

  lemma EndOfScalar(t: bytes)
    requires t != [] && !IsOpening(t[0])
    ensures DocumentEnd(t) == FindUnprintable(t, 0)
  {
    hide FindUnprintable;
  }

  lemma FirstVerdict(limit: nat, t: bytes)
    requires limit > 0 && t != []
    ensures var o := SplitDocument(t, [], limit);
            && (DocumentEnd(t) == Some(0) ==> o == Frame(t, []))
            && (DocumentEnd(t) == Some(limit) ==> o.Frame? && o.data == t[..limit])
            && (DocumentEnd(t).None? && |t| >= limit ==> o == Overrun([], false))
  {
    hide DocumentEnd, SkipWhitespace;
  }

  /** An unprintable byte at the start takes everything with it that has been received. */
  lemma {:induction false} UnprintableTakesAll(limit: nat, t: bytes)
    requires limit > 0 && t != [] && !IsWhitespace(t[0]) && !IsPrintable(t[0])
    ensures SplitJson(t, limit) == Frame(t, []) && Stripped(t) == t && DocumentEnd(t) == Some(0)
  {
    hide SplitJson, SplitDocument, Emit, Stripped, DocumentEnd, FindUnprintable;
    FirstCall(limit, t);
    EndOfScalar(t);
    FirstVerdict(limit, t);
  }

  /** A bare scalar of exactly `limit` bytes: with the byte behind it, and without. */
  lemma {:induction false} ScalarAtLimit(limit: nat, doc: bytes)
    requires limit > 0 && doc != [] && !IsWhitespace(doc[0])
    requires !IsOpening(doc[0]) && DocumentEnd(doc) == Some(limit)
    ensures limit < |doc| && Stripped(doc[..limit]) == doc[..limit]
    ensures SplitJson(doc[..limit], limit) == Overrun([], false)
    ensures SplitJson(doc, limit).Frame? && SplitJson(doc, limit).data == doc[..limit]
  {
    hide SplitJson, SplitDocument, Emit, Stripped, DocumentEnd, FindUnprintable;
    var t := doc[..limit];
    EndOfScalar(doc);
    EndOfScalar(t);
    FirstCall(limit, doc);
    FirstCall(limit, t);
    FirstVerdict(limit, doc);
    FirstVerdict(limit, t);
  }

  lemma {:induction false} SingleByte(ser: Serializer, x: byte, ops: seq<bytes>)
    requires ser.Valid() && Concat(ops) == [x] && Emit(ser, EMPTY, [x]).Some?
    ensures var out := RunOutput(ser, EMPTY, ops); out != [] && out[0] == Emit(ser, EMPTY, [x]).value
    decreases |ops|
  {
    hide Split;
    if ops[0] == [] {
      assert Concat(ops[1..]) == Concat(ops);
      SingleByte(ser, x, ops[1..]);
    } else {
      assert Concat(ops)[0] == ops[0][0] && |ops[0]| <= |Concat(ops)|;
      assert ops[0] == [x];
    }
  }

  lemma Irregular(limit: nat, doc: bytes)
    requires doc != [] && !Regular(doc, limit)
    ensures !IsOpening(doc[0]) && (IsPrintable(doc[0]) ==> DocumentEnd(doc) == Some(limit))
  {
  }

  lemma {:induction false} IrregularDisagrees(limit: nat, doc: bytes) returns (ops: seq<bytes>, ops': seq<bytes>)
    requires limit > 0 && |doc| >= 2 && !IsWhitespace(doc[0]) && !Regular(doc, limit)
    ensures !Agree(limit, doc, ops, ops')
  {
    hide Emit, Split, SplitJson, Stripped, DocumentEnd, Regular, RunOutput, Chunking;
    var k := if IsPrintable(doc[0]) then limit else 1;
    Irregular(limit, doc);
    if IsPrintable(doc[0]) {
      ScalarAtLimit(limit, doc);
    } else {
      UnprintableTakesAll(limit, doc);
      UnprintableTakesAll(limit, doc[..1]);
    }
    FirstCall(limit, doc);
    FirstCall(limit, doc[..k]);
    assert doc + [] == doc == doc[..k] + doc[k..];
    ops := ReportedFirst(RawJson(limit), doc, []);
    ops' := ReportedFirst(RawJson(limit), doc[..k], doc[k..]);
  }

  lemma {:induction false} RegularAgrees(limit: nat, doc: bytes, ops: seq<bytes>, ops': seq<bytes>)
    requires limit > 0 && doc != [] && !IsWhitespace(doc[0]) && (Regular(doc, limit) || |doc| == 1)
    ensures Agree(limit, doc, ops, ops')
  {
    hide RunOutput, RunView, DocumentEnd, Regular, SplitJson;
    if Chunking(RawJson(limit), doc, ops) && Chunking(RawJson(limit), doc, ops') {
      SkipIs(doc, 0, 0);
      assert Stripped(doc) == doc[0..] == doc;
      if Regular(doc, limit) {
        ChunkedScanIsOnePass(limit, ops);
        ChunkedScanIsOnePass(limit, ops');
      } else {
        ShortIrregular(limit, doc);
        UnprintableTakesAll(limit, doc);
        FirstCall(limit, doc);
        SingleByte(RawJson(limit), doc[0], ops);
        SingleByte(RawJson(limit), doc[0], ops');
      }
    }
  }

  lemma ShortIrregular(limit: nat, doc: bytes)
    requires limit > 0 && |doc| == 1 && !Regular(doc, limit)
    ensures !IsPrintable(doc[0]) && doc == [doc[0]]
  {
  }

  /**
   * The first report on a stream is the same for any two ways to cut it if and only if the stream starts with
   * a regular document, or is a single byte.
   */
  lemma {:induction false} RegularIff(limit: nat, doc: bytes)
    requires limit > 0 && doc != [] && !IsWhitespace(doc[0])
    ensures (forall ops, ops' :: Agree(limit, doc, ops, ops')) <==> Regular(doc, limit) || |doc| == 1
  {
    hide Agree, Regular;
    if Regular(doc, limit) || |doc| == 1 {
      forall ops, ops' ensures Agree(limit, doc, ops, ops') {
        RegularAgrees(limit, doc, ops, ops');
      }
    } else {
      var ops, ops' := IrregularDisagrees(limit, doc);
    }
  }

  /** The bytes 01 61 0A: `\x01a\n` in one chunk is one frame, and two if the first byte comes alone. */
  lemma {:induction false} UnprintableDependsOnChunks(limit: nat)
    requires limit > 0
    ensures RunOutput(RawJson(limit), EMPTY, [[0x01, 0x61, 0x0A]]) == [Delivered([0x01, 0x61, 0x0A])]
    ensures RunOutput(RawJson(limit), EMPTY, [[0x01], [0x61, 0x0A]])[0] == Delivered([0x01])
  {
    UnprintableTakesAll(limit, [0x01, 0x61, 0x0A]);
    UnprintableTakesAll(limit, [0x01]);
    FirstCall(limit, [0x01, 0x61, 0x0A]);
    FirstCall(limit, [0x01]);
    hide Emit, Feed, Split;
    var one: seq<bytes> := [[0x01, 0x61, 0x0A]];
    assert one[1..] == [];
  }

  // ----- the whole stream -----

  /** The bytes left of the stream at the cut that brings its first irregular document to light. */
  function AfterCut(limit: nat, s: bytes): (r: nat)
    requires limit > 0 && !RegularStream(limit, s)
    ensures r < |Stripped(s)|
    decreases |s|
  {
    var doc := Stripped(s);
    if !Regular(doc, limit) then
      if IsPrintable(doc[0]) then |doc| - limit else |doc| - 1
    else
      AfterCut(limit, doc[DocumentEnd(doc).value..])
  }

  lemma SameCut(limit: nat, s: bytes, s': bytes)
    requires limit > 0 && !RegularStream(limit, s) && Stripped(s) == Stripped(s')
    ensures !RegularStream(limit, s') && AfterCut(limit, s') == AfterCut(limit, s)
  {
    hide Stripped, DocumentEnd, Regular;
  }

  /** What `OnePass` says about the first report, when there is one. */
  lemma OnePassFirst(limit: nat, s: bytes, d: Delivery, out: seq<Delivery>)
    requires limit > 0 && Stripped(s) != [] && DocumentEnd(Stripped(s)).Some?
    requires DocumentEnd(Stripped(s)).value <= limit
    ensures var doc := Stripped(s);
            var end := DocumentEnd(doc).value;
            OnePass(limit, s, [d] + out, true) <==> d == Delivered(doc[..end]) && OnePass(limit, doc[end..], out, true)
  {
    hide Stripped, DocumentEnd;
    assert ([d] + out)[1..] == out;
  }

  /** The first `next(None)`. */
  lemma DrainOnce(ser: Serializer, h: bytes, n: nat)
    requires ser.Valid() && h != [] && n > 0 && !Split(ser, h).More?
    ensures RunOutput(ser, View(h, false), Nones(n))
         == [Report(Split(ser, h)).value] + RunOutput(ser, View(Split(ser, h).rest, false), Nones(n - 1))
  {
    hide Split;
    assert h + [] == h;
    assert Nones(n)[0] == [] && Nones(n)[1..] == Nones(n - 1);
  }

  /** Everything up to the cut is held; the documents are taken one by one, and the irregular one goes wrong. */
  lemma {:induction false} DrainedIsNotOnePass(limit: nat, s: bytes, h: bytes, f: bytes, n: nat, more: seq<Delivery>)
    requires limit > 0 && !RegularStream(limit, s) && s == h + f && |f| == AfterCut(limit, s) && n > |h|
    ensures !OnePass(limit, s, RunOutput(RawJson(limit), View(h, false), Nones(n)) + more, true)
    decreases n
  {
    hide SplitJson, DocumentEnd, Stripped, Regular, SkipWhitespace, OnePass, RunOutput;
    var ser := RawJson(limit);
    var doc := Stripped(s);
    HeldStarts(h, f);
    if !Regular(doc, limit) {
      IrregularReport(limit, h, f);
    } else {
      RegularReport(limit, h, f);
    }
    var o := SplitJson(h, limit);
    var d := Report(o).value;
    var out := RunOutput(ser, View(o.rest, false), Nones(n - 1)) + more;
    DrainOnce(ser, h, n);
    assert RunOutput(ser, View(h, false), Nones(n)) + more == [d] + out;
    OnePassFirst(limit, s, d, out);
    if Regular(doc, limit) {
      var behind := doc[DocumentEnd(doc).value..];
      SameCut(limit, behind, o.rest + f);
      DrainedIsNotOnePass(limit, o.rest + f, o.rest, f, n - 1, more);
      SameStream(limit, o.rest + f, behind, out, true);
    }
  }

  lemma StrippedStarts(s: bytes)
    ensures Stripped(s) != [] ==> !IsWhitespace(Stripped(s)[0])
    ensures |Stripped(s)| <= |s|
  {
    SkipsWhitespace(s, 0);
  }

  /** The document starts in `h` if less than the document comes behind it. */
  lemma HeldStarts(h: bytes, f: bytes)
    requires |f| < |Stripped(h + f)|
    ensures h != [] && Stripped(h) != [] && Stripped(h + f) == Stripped(h) + f
  {
    hide SkipWhitespace, Stripped;
    StripMore(h, f);
    StrippedStarts(f);
    assert h == [] ==> h + f == f;
  }

  lemma IrregularReport(limit: nat, h: bytes, f: bytes)
    requires limit > 0 && !RegularStream(limit, h + f) && !Regular(Stripped(h + f), limit)
    requires |f| == AfterCut(limit, h + f)
    ensures var doc := Stripped(h + f);
            var o := SplitJson(h, limit);
            && doc != [] && DocumentEnd(doc).Some? && DocumentEnd(doc).value <= limit
            && (o.Overrun? || (o.Frame? && o.data != doc[..DocumentEnd(doc).value]))
  {
    hide SkipWhitespace, SplitJson, Stripped, EnclosedEnd;
    var doc := Stripped(h + f);
    var seen := Stripped(h);
    HeldStarts(h, f);
    StrippedStarts(h + f);
    SplitsSeen(limit, h);
    assert seen == doc[..|doc| - |f|];
    if IsPrintable(doc[0]) {
      ScalarAtLimit(limit, doc);
    } else {
      UnprintableTakesAll(limit, doc);
      UnprintableTakesAll(limit, seen);
    }
  }

  /** Blanks in front do not change what is reported. */
  lemma SplitsSeen(limit: nat, h: bytes)
    requires limit > 0 && Stripped(h) != []
    ensures SplitJson(h, limit).Overrun? == SplitJson(Stripped(h), limit).Overrun?
    ensures SplitJson(h, limit).Frame? == SplitJson(Stripped(h), limit).Frame?
    ensures SplitJson(h, limit).Frame? ==> SplitJson(h, limit).data == SplitJson(Stripped(h), limit).data
  {
    hide SplitJson, DocumentEnd, SkipWhitespace;
    StrippedStarts(h);
    JsonSplits(h, limit);
    SplitAtOnce(Stripped(h), limit);
  }

  lemma RegularReport(limit: nat, h: bytes, f: bytes)
    requires limit > 0 && !RegularStream(limit, h + f) && Regular(Stripped(h + f), limit)
    requires |f| == AfterCut(limit, h + f)
    ensures var doc := Stripped(h + f);
            var o := SplitJson(h, limit);
            && DocumentEnd(doc).Some? && 0 < DocumentEnd(doc).value <= limit
            && o.Frame? && o.data == doc[..DocumentEnd(doc).value] && |o.rest| < |h|
            && Stripped(o.rest + f) == Stripped(doc[DocumentEnd(doc).value..])
  {
    hide SkipWhitespace, SplitJson, Stripped, DocumentEnd, Regular;
    var doc := Stripped(h + f);
    var seen := Stripped(h);
    HeldStarts(h, f);
    var end := DocumentEnd(doc).value;
    StrippedStarts(doc[end..]);
    assert |seen| > end;
    if DocumentEnd(seen).None? {
      DocumentEndLater(seen, f);
    } else {
      DocumentEndStable(seen, f);
    }
    if SplitJson(h, limit).More? {
      NoEndInSight(limit, h);
    }
    SplitsStripped(limit, h);
    BehindFrame(limit, h, f);
    SplitConsumes(RawJson(limit), h);
  }

  /** The irregular document is brought to light by a cut, after everything before it has been drained. */
  lemma IrregularStream(limit: nat, s: bytes) returns (ops: seq<bytes>)
    requires limit > 0 && !RegularStream(limit, s)
    ensures Chunking(RawJson(limit), s, ops) && !OnePass(limit, s, RunOutput(RawJson(limit), EMPTY, ops), true)
  {
    hide Split, SplitJson, OnePass, RegularStream, RunOutput, RunView, Stripped, Concat;
    var ser := RawJson(limit);
    StrippedStarts(s);
    var h, f := s[..|s| - AfterCut(limit, s)], s[|s| - AfterCut(limit, s)..];
    assert s == h + f;
    var n := |h| + 1;
    var first := [h] + Nones(n - 1);
    var v := RunView(ser, EMPTY, first);
    FirstChunk(ser, h, n);
    RunKeepsValid(ser, EMPTY, first);
    var m := |Feed(ser, v, f).held| + 1;
    var last := [f] + Nones(m);
    ops := first + last;
    RunParts(ser, EMPTY, first, last);
    RunCons(ser, v, f, Nones(m));
    RunCons(ser, EMPTY, h, Nones(n - 1));
    FeedKeepsValid(ser, v, f);
    DrainingTerminates(ser, Feed(ser, v, f), m);
    NothingMore(m);
    NothingMore(n - 1);
    ConcatParts(first, last);
    assert h + [] == h && f + [] == f;
    DrainedIsNotOnePass(limit, s, h, f, n, RunOutput(ser, v, last));
  }

  /** A chunk to a new consumer is as good as the same bytes held. */
  lemma FirstChunk(ser: Serializer, h: bytes, n: nat)
    requires ser.Valid() && h != [] && n > 0
    ensures RunOutput(ser, EMPTY, [h] + Nones(n - 1)) == RunOutput(ser, View(h, false), Nones(n))
  {
    hide Split;
    assert ([h] + Nones(n - 1))[1..] == Nones(n - 1) == Nones(n)[1..];
    assert [] + h == h == h + [];
  }

  /**
   * Every way to cut the stream frames, once drained, what one pass over the whole of it frames, if and only if
   * every document up to the first overrun is regular.
   */
  lemma {:induction false} WholeStreamIff(limit: nat, s: bytes)
    requires limit > 0
    ensures (forall ops :: Chunking(RawJson(limit), s, ops) ==>
                             OnePass(limit, s, RunOutput(RawJson(limit), EMPTY, ops), true))
       <==> RegularStream(limit, s)
  {
    hide OnePass, RegularStream, RunOutput;
    if RegularStream(limit, s) {
      forall ops | Chunking(RawJson(limit), s, ops)
        ensures OnePass(limit, s, RunOutput(RawJson(limit), EMPTY, ops), true)
      {
        WholeStreamIsOnePass(limit, ops);
      }
    } else {
      var ops := IrregularStream(limit, s);
    }
  }
}
