/** Arbitrary streams through the JSON framer: what one pass over the whole stream finds, whatever the chunks. */
module JsonStream {
  import opened Options
  import opened Bytes
  import opened Framing
  import opened StreamConsumer
  import opened RoundTrip
  import opened JsonScan

  /** Documents whose fate does not depend on how the stream is cut. */
  predicate Regular(doc: bytes, limit: nat) {
    && doc != []
    && (IsOpening(doc[0]) || (IsPrintable(doc[0]) && DocumentEnd(doc) != Some(limit)))
  }

  lemma StripMore(t: bytes, c: bytes)
    ensures Stripped(t) == [] ==> Stripped(t + c) == Stripped(c)
    ensures Stripped(t) != [] ==> Stripped(t + c) == Stripped(t) + c && Stripped(Stripped(t)) == Stripped(t)
    ensures Stripped(t) != [] ==> Stripped(Stripped(t) + c) == Stripped(t) + c
  {
    var ws := SkipWhitespace(t, 0);
    LeadingWhitespace(t, c);
    if ws < |t| {
      DropFromPrefix(t, c, ws);
      SkipIs(t[ws..], 0, 0);
      SkipIs(t[ws..] + c, 0, 0);
    } else {
      StripAgain(t + c, |t|);
      DropFromPrefix(t, c, |t|);
    }
  }

  /** The verdict of a single pass over the whole document. */
  predicate Verdict(doc: bytes, limit: nat, out: seq<Delivery>)
    requires doc != []
  {
    match DocumentEnd(doc)
    case Some(end) =>
      out != [] && (if end <= limit then out[0] == Delivered(doc[..end]) else out[0].Overran?)
    case None =>
      if |doc| < limit then out == [] else out != [] && out[0].Overran?
  }

  lemma RegularIsNotEmpty(doc: bytes, limit: nat)
    requires limit > 0 && Regular(doc, limit) && DocumentEnd(doc).Some?
    ensures DocumentEnd(doc).value > 0
  {
  }

  /** What a call reports is about the bytes from the first one that is not blank. */
  lemma SplitsStripped(limit: nat, t: bytes)
    requires limit > 0 && !SplitJson(t, limit).More?
    ensures var doc := Stripped(t);
            var o := SplitJson(t, limit);
            && doc != []
            && (DocumentEnd(doc).None? ==> o.Overrun? && |doc| >= limit)
            && (o.Overrun? ==> (o.found <==> DocumentEnd(doc).Some?))
            && (DocumentEnd(doc).Some? ==> o.Overrun? == (DocumentEnd(doc).value > limit))
            && (o.Frame? && DocumentEnd(doc).value > 0 ==> o.data == doc[..DocumentEnd(doc).value])
  {
    hide DocumentEnd;
  }

  /** A call that ends the search agrees with the single pass over everything to come. */
  lemma FirstReport(limit: nat, t: bytes, later: bytes)
    requires limit > 0 && Regular(Stripped(t + later), limit) && !SplitJson(t, limit).More?
    ensures var doc := Stripped(t + later);
            match SplitJson(t, limit)
            case Frame(data, _) => DocumentEnd(doc).Some? && DocumentEnd(doc).value <= limit
                                   && data == doc[..DocumentEnd(doc).value]
            case Overrun(_, _) => match DocumentEnd(doc)
                                  case Some(end) => end > limit
                                  case None => |doc| >= limit
  {
    hide DocumentEnd, SkipWhitespace, Stripped, SplitJson;
    var seen := Stripped(t);
    StripMore(t, later);
    SplitsStripped(limit, t);
    if DocumentEnd(seen + later).Some? {
      RegularIsNotEmpty(seen + later, limit);
    }
    if DocumentEnd(seen).Some? {
      DocumentEndStable(seen, later);
      assert seen[..DocumentEnd(seen).value] == (seen + later)[..DocumentEnd(seen).value];
    } else if DocumentEnd(seen + later).Some? {
      DocumentEndLater(seen, later);
    }
  }

  lemma {:induction false} RunVerdict(limit: nat, v: View, ops: seq<bytes>)
    requires limit > 0 && v.Valid(RawJson(limit)) && Starving(v)
    requires Regular(Stripped(v.held + Concat(ops)), limit)
    ensures Verdict(Stripped(v.held + Concat(ops)), limit, RunOutput(RawJson(limit), v, ops))
    decreases |ops|
  {
    hide SplitDocument, DocumentEnd, SkipWhitespace;
    var ser := RawJson(limit);
    if ops == [] {
      NothingComes(limit, v);
    } else {
      var t := v.held + ops[0];
      var later := Concat(ops[1..]);
      assert v.held + Concat(ops) == t + later;
      FeedKeepsValid(ser, v, ops[0]);
      if ops[0] == [] {
        assert t == v.held;
        RunVerdict(limit, v, ops[1..]);
      } else if SplitJson(t, limit).More? {
        KeepsDocument(limit, t);
        StrippedTwice(t, later);
        RunVerdict(limit, Feed(ser, v, ops[0]), ops[1..]);
      } else {
        FirstReport(limit, t, later);
        assert RunOutput(ser, v, ops)[0] == Emit(ser, v, ops[0]).value;
      }
    }
  }

  lemma NothingComes(limit: nat, v: View)
    requires limit > 0 && v.Valid(RawJson(limit)) && Starving(v)
    requires Stripped(v.held + Concat([])) != []
    ensures DocumentEnd(Stripped(v.held + Concat([]))).None? && |Stripped(v.held + Concat([]))| < limit
  {
    assert v.held + [] == v.held;
    assert SplitJson(v.held, limit).More?;
  }

  lemma KeepsDocument(limit: nat, t: bytes)
    requires limit > 0 && SplitJson(t, limit).More?
    ensures SplitJson(t, limit).keep == Stripped(t)
  {
  }

  lemma StrippedTwice(t: bytes, later: bytes)
    ensures Stripped(Stripped(t) + later) == Stripped(t + later)
  {
    StripMore(t, later);
    if Stripped(t) == [] {
      assert [] + later == later;
    }
  }

  /**
   * The chunked scanner is the one-pass scanner. For every stream and every way to cut it, whatever the
   * brackets, quotes and backslashes at the cuts, a new consumer delivers the document that a single
   * left-to-right pass over the whole stream frames if it is within the limit, and reports an overrun
   * otherwise.
   */
  lemma ChunkedScanIsOnePass(limit: nat, ops: seq<bytes>)
    requires limit > 0 && Regular(Stripped(Concat(ops)), limit)
    ensures Verdict(Stripped(Concat(ops)), limit, RunOutput(RawJson(limit), EMPTY, ops))
  {
    assert [] + Concat(ops) == Concat(ops);
    RunVerdict(limit, EMPTY, ops);
  }

  // ----- the whole stream -----

  /** Every document in turn, up to the first overrun, is regular. */
  predicate RegularStream(limit: nat, s: bytes)
    decreases |s|
  {
    var doc := Stripped(s);
    doc != [] ==>
      && Regular(doc, limit)
      && match DocumentEnd(doc)
         case Some(end) => 0 < end <= limit ==> RegularStream(limit, doc[end..])
         case None => true
  }

  /**
   * `out` is what a single pass over `s` finds, document by document up to the first overrun; all of it, if
   * `complete`, and the first of it otherwise.
   */
  predicate OnePass(limit: nat, s: bytes, out: seq<Delivery>, complete: bool)
    decreases |out|
  {
    var doc := Stripped(s);
    if doc == [] then out == []
    else
      match DocumentEnd(doc)
      case Some(end) =>
        if out == [] then !complete
        else if end <= limit then out[0] == Delivered(doc[..end]) && OnePass(limit, doc[end..], out[1..], complete)
        else out[0].Overran?
      case None =>
        if |doc| < limit then out == [] else if out == [] then !complete else out[0].Overran?
  }

  lemma SameStream(limit: nat, s: bytes, s': bytes, out: seq<Delivery>, complete: bool)
    requires Stripped(s) == Stripped(s')
    ensures OnePass(limit, s, out, complete) == OnePass(limit, s', out, complete)
    ensures RegularStream(limit, s) == RegularStream(limit, s')
  {
    hide Stripped, DocumentEnd, Regular;
  }

  /** What follows a document that is framed: the stream behind it, but for blanks. */
  lemma BehindFrame(limit: nat, t: bytes, later: bytes)
    requires limit > 0 && Regular(Stripped(t + later), limit) && SplitJson(t, limit).Frame?
    ensures var doc := Stripped(t + later);
            && DocumentEnd(doc).Some? && 0 < DocumentEnd(doc).value <= limit
            && SplitJson(t, limit).data == doc[..DocumentEnd(doc).value]
            && Stripped(SplitJson(t, limit).rest + later) == Stripped(doc[DocumentEnd(doc).value..])
  {
    hide DocumentEnd, SkipWhitespace, SplitJson, Regular;
    var seen := Stripped(t);
    FirstReport(limit, t, later);
    RegularIsNotEmpty(Stripped(t + later), limit);
    StripMore(t, later);
    SplitsStripped(limit, t);
    DocumentEndStable(seen, later);
    var end := DocumentEnd(seen).value;
    var tail := seen[end..];
    FrameRest(limit, t);
    SkipFrom(seen, end);
    BlanksDropped(tail, SkipWhitespace(tail, 0), later);
    DropFromPrefix(seen, later, end);
  }

  lemma FrameRest(limit: nat, t: bytes)
    requires limit > 0 && SplitJson(t, limit).Frame?
    ensures var doc := Stripped(t);
            && doc != [] && DocumentEnd(doc).Some?
            && (DocumentEnd(doc).value > 0 ==>
                  SplitJson(t, limit).rest == doc[SkipWhitespace(doc, DocumentEnd(doc).value)..])
  {
    hide DocumentEnd, SkipWhitespace;
  }

  /** Nothing has been reported yet. */
  lemma NothingReported(limit: nat, v: View)
    requires limit > 0 && v.Valid(RawJson(limit))
    ensures OnePass(limit, v.held, [], Starving(v))
  {
    hide SplitJson, DocumentEnd, SkipWhitespace, Stripped;
    if v.active {
      NoEndInSight(limit, v.held);
    } else if v.held == [] {
      NothingStripped();
    }
  }

  lemma NoEndInSight(limit: nat, t: bytes)
    requires limit > 0 && SplitJson(t, limit).More?
    ensures Stripped(t) == [] || (DocumentEnd(Stripped(t)).None? && |Stripped(t)| < limit)
  {
    hide DocumentEnd;
  }

  lemma NothingStripped()
    ensures Stripped([]) == []
  {
  }

  /**
   * For every stream and every chunking of it: the documents framed are those of a single left-to-right pass
   * over the whole stream, in order, up to the first overrun; and a starving consumer has framed them all.
   */
  lemma {:induction false} RunIsOnePass(limit: nat, v: View, ops: seq<bytes>)
    requires limit > 0 && v.Valid(RawJson(limit)) && RegularStream(limit, v.held + Concat(ops))
    ensures OnePass(limit, v.held + Concat(ops), RunOutput(RawJson(limit), v, ops),
                    Starving(RunView(RawJson(limit), v, ops)))
    decreases |ops|
  {
    hide SplitJson, DocumentEnd, SkipWhitespace, Stripped, Regular;
    var ser := RawJson(limit);
    if ops == [] {
      assert v.held + [] == v.held;
      NothingReported(limit, v);
    } else {
      var t := v.held + ops[0];
      var later := Concat(ops[1..]);
      var s := v.held + Concat(ops);
      assert s == t + later;
      var v1 := Feed(ser, v, ops[0]);
      var out1 := RunOutput(ser, v1, ops[1..]);
      var complete := Starving(RunView(ser, v1, ops[1..]));
      FeedKeepsValid(ser, v, ops[0]);
      if ops[0] == [] && Starving(v) {
        assert t == v.held;
        RunIsOnePass(limit, v, ops[1..]);
        assert [] + out1 == out1;
      } else {
        CallIsOnePass(limit, t, later, out1, complete);
        if !SplitJson(t, limit).Overrun? {
          RunIsOnePass(limit, v1, ops[1..]);
        }
        assert RunOutput(ser, v, ops) == AsSeq(Report(SplitJson(t, limit))) + out1;
      }
    }
  }

  /** The bytes held after a call. */
  function Rest(o: Outcome): bytes {
    if o.More? then o.keep else o.rest
  }

  lemma CallIsOnePass(limit: nat, t: bytes, later: bytes, out: seq<Delivery>, complete: bool)
    requires limit > 0 && RegularStream(limit, t + later)
    ensures var o := SplitJson(t, limit);
            && (!o.Overrun? ==> RegularStream(limit, Rest(o) + later))
            && (o.Overrun? || OnePass(limit, Rest(o) + later, out, complete) ==>
                  OnePass(limit, t + later, AsSeq(Report(o)) + out, complete))
  {
    hide SplitJson, DocumentEnd, SkipWhitespace, Stripped, Regular;
    var o := SplitJson(t, limit);
    var doc := Stripped(t + later);
    if o.More? {
      KeepsDocument(limit, t);
      StrippedTwice(t, later);
      SameStream(limit, t + later, o.keep + later, out, complete);
      assert AsSeq(Report(o)) + out == out;
    } else {
      SplitsStripped(limit, t);
      StripMore(t, later);
      assert (AsSeq(Report(o)) + out)[1..] == out;
      if o.Frame? {
        BehindFrame(limit, t, later);
        SameStream(limit, o.rest + later, doc[DocumentEnd(doc).value..], out, complete);
      } else {
        FirstReport(limit, t, later);
      }
    }
  }

  /** A new consumer on any regular stream. */
  lemma {:induction false} WholeStreamIsOnePass(limit: nat, ops: seq<bytes>)
    requires limit > 0 && RegularStream(limit, Concat(ops))
    ensures OnePass(limit, Concat(ops), RunOutput(RawJson(limit), EMPTY, ops),
                    Starving(RunView(RawJson(limit), EMPTY, ops)))
  {
    assert [] + Concat(ops) == Concat(ops);
    RunIsOnePass(limit, EMPTY, ops);
  }

  // ----- what an overrun keeps -----

  /** The bytes behind those that the overrun has examined. */
  function Unexamined(t: bytes, limit: nat): bytes
    requires limit > 0
  {
    var doc := Stripped(t);
    if doc == [] then []
    else
      match DocumentEnd(doc)
      case Some(end) => doc[SkipWhitespace(doc, end)..]
      case None => []
  }

  /**
   * After an overrun the consumer holds the bytes behind the document, and in addition the last bytes of
   * the buffer a second time when the document was shifted over leading whitespace: it goes on at the
   * right byte if and only if the buffer did not start with whitespace.
   */
  lemma OverrunKeepsUnexaminedIff(limit: nat, t: bytes)
    requires limit > 0 && t != [] && SplitJson(t, limit).Overrun?
    ensures SplitJson(t, limit).rest == Unexamined(t, limit) <==> !IsWhitespace(t[0])
  {
    var ws := SkipWhitespace(t, 0);
    var leftover := t[|t| - ws..];
    if ws == 0 {
      assert leftover == [];
    }
    assert SplitJson(t, limit).rest == Unexamined(t, limit) + leftover;
  }

  /** ` [[` with a limit of 1: everything was examined, and yet one bracket is left to be read again. */
  lemma OverrunReadsTwice()
    ensures var t: bytes := [0x20, LEFT_BRACKET, LEFT_BRACKET];
            Feed(RawJson(1), EMPTY, t).held == [LEFT_BRACKET] && Unexamined(t, 1) == []
  {
    var t: bytes := [0x20, LEFT_BRACKET, LEFT_BRACKET];
    assert [] + t == t;
    SkipIs(t, 0, 1);
    var doc := t[1..];
    assert doc == [LEFT_BRACKET, LEFT_BRACKET] && t[2..] == [LEFT_BRACKET];
    assert At(doc, 1) == Running(Start(LEFT_BRACKET));
    assert DocumentEnd(doc).None?;
  }
}
