/** The buffered path against the chunked one: where they agree, and over whole runs. */
module BufferedStream {
  import opened Options
  import opened Bytes
  import opened Framing
  import opened StreamConsumer
  import opened RoundTrip
  import opened BufferParser
  import opened BufferedConsumer
  import opened StaleByte
  import opened Draining
  import Resync

  /**
   * On the same bytes the two paths do the same, except that the separator search gives up when no more
   * than one byte of the buffer is free. So they agree exactly when it does not, and for a separator
   * found beyond the limit they cannot differ, because the buffer is no longer than the limit.
   */
  lemma PathsAgreeIff(ser: Serializer, b: bytes, n: nat)
    requires Suits(ser, |b|) && n <= |b| && (ser.Separated? ==> ser.limit == |b|)
    ensures SplitBuffer(ser, b, n) == Split(ser, b[..n])
       <==> !(ser.Separated? && Find(b[..n], ser.sep, 0).None? && |ser.sep| <= n && |b| <= n + 1)
  {
    if ser.Separated? {
      var t := b[..n];
      if Find(t, ser.sep, 0).Some? {
        var p := Find(t, ser.sep, 0).value;
        assert t[..p] == b[..p] && t[..p + |ser.sep|] == b[..p + |ser.sep|];
        assert t[p + |ser.sep|..] == b[p + |ser.sep|..n];
      }
    }
  }

  /** Frames that are empty or leave room for one more byte: no overrun under any sizes of the reads. */
  predicate FitsBuffer(ser: Serializer, d: bytes) {
    Encodable(ser, d) && (ser.Separated? ==> d == [] || |d| + |ser.sep| < ser.limit)
  }

  predicate AllFitBuffer(ser: Serializer, docs: seq<bytes>) {
    docs == [] || (FitsBuffer(ser, docs[0]) && AllFitBuffer(ser, docs[1..]))
  }

  lemma {:induction false} FitsAreEncodable(ser: Serializer, docs: seq<bytes>)
    requires AllFitBuffer(ser, docs)
    ensures AllEncodable(ser, docs)
  {
    if docs != [] {
      FitsAreEncodable(ser, docs[1..]);
    }
  }

  /** While the stream consists of such frames, the buffered path does what the chunked path does. */
  lemma BufferedStep(ser: Serializer, b: bytes, n: nat, future: bytes, docs: seq<bytes>)
    requires Suits(ser, |b|) && n <= |b| && (ser.Separated? ==> ser.limit == |b|)
    requires AllFitBuffer(ser, docs) && Pending(ser, b[..n], future, docs)
    ensures SplitBuffer(ser, b, n) == Split(ser, b[..n])
  {
    PathsAgreeIff(ser, b, n);
    if ser.Separated? && Find(b[..n], ser.sep, 0).None? {
      Step(ser, b[..n], future, docs);
      if docs == [] {
        assert b[..n] + future == [];
      }
    }
  }

  // ----- runs -----

  /** A new consumer. */
  const START: View := View([], true)

  /**
   * One call on the buffered path: `chunk` is what the transport has written behind the bytes held, and
   * `b` the whole buffer after that, with anything at all behind them. `next(None)` is `chunk == []`.
   */
  ghost predicate Written(ser: Serializer, size: nat, v: View, chunk: bytes, b: bytes) {
    |b| == size && |v.held + chunk| <= size && b[..|v.held + chunk|] == v.held + chunk
  }

  function EmitCall(ser: Serializer, v: View, chunk: bytes, b: bytes): Option<Delivery>
    requires Suits(ser, |b|) && |v.held + chunk| <= |b|
  {
    if chunk == [] && v.active then None else EmitBuffer(ser, b, |v.held + chunk|)
  }

  function FeedCall(ser: Serializer, v: View, chunk: bytes, b: bytes): View
    requires Suits(ser, |b|) && |v.held + chunk| <= |b|
  {
    if chunk == [] && v.active then v else FeedBuffer(ser, b, |v.held + chunk|)
  }

  /** Every call of the run writes into the free part of the buffer. */
  ghost predicate RunFits(ser: Serializer, size: nat, v: View, ops: seq<bytes>, bs: seq<bytes>)
    requires Suits(ser, size) && |ops| == |bs|
    decreases |ops|
  {
    ops == []
    || (&& Written(ser, size, v, ops[0], bs[0])
        && RunFits(ser, size, FeedCall(ser, v, ops[0], bs[0]), ops[1..], bs[1..]))
  }

  ghost function BufferedOutput(ser: Serializer, size: nat, v: View, ops: seq<bytes>, bs: seq<bytes>): seq<Delivery>
    requires Suits(ser, size) && |ops| == |bs| && RunFits(ser, size, v, ops, bs)
    decreases |ops|
  {
    if ops == [] then []
    else
      AsSeq(EmitCall(ser, v, ops[0], bs[0]))
      + BufferedOutput(ser, size, FeedCall(ser, v, ops[0], bs[0]), ops[1..], bs[1..])
  }

  /** What is held after the run, and whether it has been looked at. */
  ghost function BufferedRunView(ser: Serializer, size: nat, v: View, ops: seq<bytes>, bs: seq<bytes>): View
    requires Suits(ser, size) && |ops| == |bs| && RunFits(ser, size, v, ops, bs)
    decreases |ops|
  {
    if ops == [] then v
    else BufferedRunView(ser, size, FeedCall(ser, v, ops[0], bs[0]), ops[1..], bs[1..])
  }

  /** The two abstract consumers hold the same bytes; an empty one counts as active on the buffered path. */
  ghost predicate SameView(v: View, w: View) {
    v.held == w.held && Starving(v) == w.active
  }

  lemma OneBufferedCall(ser: Serializer, v: View, w: View, chunk: bytes, b: bytes, later: bytes, docs: seq<bytes>)
    requires Suits(ser, |b|) && (ser.Separated? ==> ser.limit == |b|)
    requires v.Valid(ser) && SameView(v, w) && Written(ser, |b|, w, chunk, b)
    requires AllFitBuffer(ser, docs) && Pending(ser, v.held, chunk + later, docs)
    ensures EmitCall(ser, w, chunk, b) == Emit(ser, v, chunk)
    ensures SameView(Feed(ser, v, chunk), FeedCall(ser, w, chunk, b))
  {
    hide Split, SplitBuffer;
    Associative(v.held, chunk, later);
    if chunk != [] || !w.active {
      BufferedStep(ser, b, |w.held + chunk|, later, docs);
    }
  }

  /**
   * The buffered path refines the chunked one: for any stream of frames that fit, any sizes of the reads
   * and anything in the rest of the buffer, the output is the same, call by call.
   */
  lemma {:induction false} BufferedRefinesChunked(ser: Serializer, size: nat, v: View, w: View, ops: seq<bytes>,
                                                  bs: seq<bytes>, future: bytes, docs: seq<bytes>)
    requires Suits(ser, size) && (ser.Separated? ==> ser.limit == size) && |ops| == |bs|
    requires v.Valid(ser) && SameView(v, w) && RunFits(ser, size, w, ops, bs)
    requires AllFitBuffer(ser, docs) && Pending(ser, v.held, Concat(ops) + future, docs)
    ensures BufferedOutput(ser, size, w, ops, bs) == RunOutput(ser, v, ops)
    ensures SameView(RunView(ser, v, ops), BufferedRunView(ser, size, w, ops, bs))
    decreases |ops|
  {
    hide Split, SplitBuffer, Wire, Encode, Encodable;
    if ops != [] {
      var later := Concat(ops[1..]) + future;
      Associative(ops[0], Concat(ops[1..]), future);
      OneBufferedCall(ser, v, w, ops[0], bs[0], later, docs);
      RoundTrip.OneCall(ser, v, ops, future, docs);
      FeedKeepsValid(ser, v, ops[0]);
      var done := AsSeq(Emit(ser, v, ops[0]));
      assert docs[0..] == docs;
      BufferedRefinesChunked(ser, size, Feed(ser, v, ops[0]), FeedCall(ser, w, ops[0], bs[0]),
                             ops[1..], bs[1..], future, docs[|done|..]);
    }
  }

  /**
   * JSON and fixed-size packets need no condition: on every stream, well-formed or not, the buffered path
   * reports what the chunked path reports, overruns included.
   */
  lemma {:induction false} BufferedIsChunked(ser: Serializer, size: nat, v: View, w: View, ops: seq<bytes>, bs: seq<bytes>)
    requires Suits(ser, size) && !ser.Separated? && |ops| == |bs|
    requires SameView(v, w) && RunFits(ser, size, w, ops, bs)
    ensures BufferedOutput(ser, size, w, ops, bs) == RunOutput(ser, v, ops)
    ensures SameView(RunView(ser, v, ops), BufferedRunView(ser, size, w, ops, bs))
    decreases |ops|
  {
    hide Split, SplitBuffer;
    if ops != [] {
      if ops[0] != [] || !w.active {
        PathsAgreeIff(ser, bs[0], |w.held + ops[0]|);
      }
      BufferedIsChunked(ser, size, Feed(ser, v, ops[0]), FeedCall(ser, w, ops[0], bs[0]), ops[1..], bs[1..]);
    }
  }

  /** The round trip on the buffered path, for any sizes of the reads. */
  lemma {:induction false} BufferedRoundTrip(ser: Serializer, size: nat, ops: seq<bytes>, bs: seq<bytes>, docs: seq<bytes>)
    requires Suits(ser, size) && (ser.Separated? ==> ser.limit == size) && |ops| == |bs|
    requires RunFits(ser, size, START, ops, bs)
    requires AllFitBuffer(ser, docs) && Carries(ser, Concat(ops), docs)
    requires BufferedRunView(ser, size, START, ops, bs).active
    ensures BufferedOutput(ser, size, START, ops, bs) == Deliveries(ser, docs)
  {
    hide Carries, Deliveries, AllEncodable, AllFitBuffer, BufferedOutput, BufferedRunView, RunOutput, RunView, RunFits, Split;
    FitsAreEncodable(ser, docs);
    assert Concat(ops) + [] == Concat(ops);
    PendingAtStart(ser, docs, Concat(ops) + []);
    BufferedRefinesChunked(ser, size, EMPTY, START, ops, bs, [], docs);
    StreamRoundTrip(ser, ops, docs);
  }

  // ----- the size of the buffer -----

  /** The run of a single call. */
  lemma OneCallRun(ser: Serializer, size: nat, c: bytes, b: bytes)
    requires Suits(ser, size) && c != [] && |b| == size && c <= b
    ensures RunFits(ser, size, START, [c], [b])
    ensures BufferedOutput(ser, size, START, [c], [b]) == AsSeq(EmitBuffer(ser, b, |c|))
    ensures BufferedRunView(ser, size, START, [c], [b]) == FeedBuffer(ser, b, |c|)
    ensures Concat([c]) == c
  {
    hide SplitBuffer;
    assert [] + c == c && c + [] == c;
    assert [c][1..] == [] && [b][1..] == [];
  }

  /** There is room for one more byte whatever has been read. */
  ghost predicate LeavesRoom(ser: Serializer, size: nat, v: View, ops: seq<bytes>, bs: seq<bytes>)
    requires Suits(ser, size)
  {
    |ops| == |bs| && RunFits(ser, size, v, ops, bs) ==> |BufferedRunView(ser, size, v, ops, bs).held| < size
  }

  lemma {:induction false} RunLeavesRoom(ser: Serializer, size: nat, v: View, ops: seq<bytes>, bs: seq<bytes>)
    requires Suits(ser, size) && Roomy(ser, size) && |v.held| < size
    ensures LeavesRoom(ser, size, v, ops, bs)
    decreases |ops|
  {
    hide SplitBuffer;
    if ops != [] && |ops| == |bs| && RunFits(ser, size, v, ops, bs) {
      RemainderFits(ser, bs[0], |v.held + ops[0]|);
      RunLeavesRoom(ser, size, FeedCall(ser, v, ops[0], bs[0]), ops[1..], bs[1..]);
    }
  }

  /**
   * The next `get_write_buffer()` succeeds, whatever the stream and the sizes of the reads, if and only if the
   * separator is no longer than the buffer. The constructors accept a longer one.
   */
  lemma {:induction false} AlwaysRoomIff(ser: Serializer, size: nat)
    requires Suits(ser, size)
    ensures (forall ops, bs :: LeavesRoom(ser, size, START, ops, bs)) <==> Roomy(ser, size)
  {
    if Roomy(ser, size) {
      forall ops, bs ensures LeavesRoom(ser, size, START, ops, bs) {
        RunLeavesRoom(ser, size, START, ops, bs);
      }
    } else {
      var b: bytes := seq(size, _ => 0);
      FillsUp(ser, b);
      assert !LeavesRoom(ser, size, START, [b], [b]);
    }
  }

  /** Without enough bytes for one separator the search is not even tried. */
  lemma FillsUp(ser: Serializer, b: bytes)
    requires Suits(ser, |b|) && !Roomy(ser, |b|)
    ensures RunFits(ser, |b|, START, [b], [b]) && BufferedRunView(ser, |b|, START, [b], [b]) == View(b, true)
  {
    assert b[..|b|] == b;
    OneCallRun(ser, |b|, b, b);
  }

  /** CRLF with a limit of 1: one byte has been read, and there is no room for another. */
  lemma CrlfWithLimitOne()
    ensures var ser := Separated([0x0D, 0x0A], 1, false);
            && ser.Valid() && BufferSize(ser, 0) == 1 && Suits(ser, 1)
            && RunFits(ser, 1, START, [[0x78]], [[0x78]])
            && BufferedRunView(ser, 1, START, [[0x78]], [[0x78]]) == View([0x78], true)
  {
    FillsUp(Separated([0x0D, 0x0A], 1, false), [0x78]);
  }

  /** What a starving consumer may hold. */
  predicate BufferBounded(ser: Serializer, size: nat, held: bytes) {
    match ser
    case Separated(_, _, _) => |held| <= size && (Roomy(ser, size) ==> |held| < size)
    case FixedSize(n) => |held| < n
    case RawJson(limit) => |held| < limit
  }

  /**
   * Bounded retention, whatever the stream and the sizes of the reads: less than the buffer, and for packets of
   * a fixed size, whose buffer may be larger, less than one packet.
   */
  lemma {:induction false} BufferedRetentionIsBounded(ser: Serializer, size: nat, v: View, ops: seq<bytes>, bs: seq<bytes>)
    requires Suits(ser, size) && |ops| == |bs| && RunFits(ser, size, v, ops, bs)
    requires v.active ==> BufferBounded(ser, size, v.held)
    ensures var w := BufferedRunView(ser, size, v, ops, bs); w.active ==> BufferBounded(ser, size, w.held)
    decreases |ops|
  {
    hide SplitBuffer;
    if ops != [] {
      if ops[0] != [] || !v.active {
        OneCallIsBounded(ser, bs[0], |v.held + ops[0]|);
      }
      BufferedRetentionIsBounded(ser, size, FeedCall(ser, v, ops[0], bs[0]), ops[1..], bs[1..]);
    }
  }

  lemma OneCallIsBounded(ser: Serializer, b: bytes, n: nat)
    requires Suits(ser, |b|) && n <= |b|
    ensures var w := FeedBuffer(ser, b, n); w.active ==> BufferBounded(ser, |b|, w.held)
  {
    hide Find, SplitJson;
    if SplitBuffer(ser, b, n).More? && !ser.Separated? {
      MoreIsBounded(ser, b[..n]);
    }
  }

  lemma BufferedConsumes(ser: Serializer, b: bytes, n: nat)
    requires Suits(ser, |b|) && n <= |b| && !SplitBuffer(ser, b, n).More?
    ensures |SplitBuffer(ser, b, n).rest| < n
  {
    hide Find;
    if !ser.Separated? {
      SplitConsumes(ser, b[..n]);
    } else if Find(b[..n], ser.sep, 0).None? {
      ShortRemainder(b, n + 1 - |ser.sep|, ser.sep);
    }
  }

  /**
   * On the buffered path, too, `next(None)` called once more than there are bytes held ends in `StopIteration`,
   * for every serializer and anything in the rest of the buffer.
   */
  lemma {:induction false} BufferedDrainingTerminates(ser: Serializer, size: nat, v: View, n: nat, bs: seq<bytes>)
    requires Suits(ser, size) && |Nones(n)| == |bs| && RunFits(ser, size, v, Nones(n), bs)
    requires v.active || n > |v.held|
    ensures BufferedRunView(ser, size, v, Nones(n), bs).active
    decreases n
  {
    hide SplitBuffer;
    if n > 0 {
      assert Nones(n)[0] == [] && Nones(n)[1..] == Nones(n - 1);
      assert v.held + [] == v.held;
      if !v.active && !SplitBuffer(ser, bs[0], |v.held|).More? {
        BufferedConsumes(ser, bs[0], |v.held|);
      }
      BufferedDrainingTerminates(ser, size, FeedCall(ser, v, [], bs[0]), n - 1, bs[1..]);
    }
  }

  /** Nothing but the frame `d` has been reported while its encoding is read. */
  ghost predicate OnlyReports(ser: Serializer, size: nat, d: bytes, ops: seq<bytes>, bs: seq<bytes>, future: bytes)
    requires Suits(ser, size)
  {
    (|ops| == |bs| && RunFits(ser, size, START, ops, bs) && Concat(ops) + future == Encode(ser, d))
    ==> BufferedOutput(ser, size, START, ops, bs) <= [Delivered(Decode(ser, d))]
  }

  /**
   * Which frames the buffered path can take: a frame that the chunked path takes is the only thing reported
   * for its encoding, whatever the sizes of the reads, if and only if it is empty or leaves one more byte free.
   */
  lemma {:induction false} FitsBufferIff(ser: Serializer, d: bytes)
    requires ser.Valid() && ser.Separated? && |ser.sep| <= ser.limit && Encodable(ser, d)
    ensures (forall ops, bs, future :: OnlyReports(ser, ser.limit, d, ops, bs, future))
       <==> d == [] || |d| + |ser.sep| < ser.limit
  {
    hide Encodable, OnlyReports;
    if d == [] || |d| + |ser.sep| < ser.limit {
      forall ops, bs, future ensures OnlyReports(ser, ser.limit, d, ops, bs, future) {
        FittingFrame(ser, d, ops, bs, future);
      }
    } else {
      var ops, bs, future := LongFrame(ser, d);
    }
  }

  lemma FittingFrame(ser: Serializer, d: bytes, ops: seq<bytes>, bs: seq<bytes>, future: bytes)
    requires ser.Valid() && ser.Separated? && Encodable(ser, d) && (d == [] || |d| + |ser.sep| < ser.limit)
    ensures OnlyReports(ser, ser.limit, d, ops, bs, future)
  {
    hide Split, SplitBuffer, Encodable, RunFits, BufferedOutput, BufferedRunView, RunOutput, RunView;
    if |ops| == |bs| && RunFits(ser, ser.limit, START, ops, bs) && Concat(ops) + future == Encode(ser, d) {
      assert [d][1..] == [];
      assert Wire(ser, [d]) == Encode(ser, d) + [] == Encode(ser, d);
      PendingAtStart(ser, [d], Concat(ops) + future);
      BufferedRefinesChunked(ser, ser.limit, EMPTY, START, ops, bs, future, [d]);
      RunDelivers(ser, EMPTY, ops, future, [d]);
      var out := RunOutput(ser, EMPTY, ops);
      assert [d][..|out|] == if out == [] then [] else [d];
    }
  }

  lemma LongFrame(ser: Serializer, d: bytes) returns (ops: seq<bytes>, bs: seq<bytes>, future: bytes)
    requires ser.Valid() && ser.Separated? && |ser.sep| <= ser.limit && Encodable(ser, d)
    requires d != [] && |d| + |ser.sep| >= ser.limit
    ensures !OnlyReports(ser, ser.limit, d, ops, bs, future)
  {
    hide Encodable, RunFits, BufferedOutput, BufferedRunView, SplitBuffer, Concat;
    var b, n := GivesUp(ser, d);
    var c := b[..n];
    ops, bs, future := [c], [b], Encode(ser, d)[n..];
    OneCallRun(ser, ser.limit, c, b);
    assert Concat(ops) + future == Encode(ser, d);
    assert BufferedOutput(ser, ser.limit, START, ops, bs) == AsSeq(Some(Overran(false)));
    assert BufferedOutput(ser, ser.limit, START, ops, bs)[0] != Delivered(Decode(ser, d));
  }

  /** A read that leaves at most one byte of the buffer free, before the separator is complete. */
  lemma GivesUp(ser: Serializer, d: bytes) returns (b: bytes, n: nat)
    requires ser.Valid() && ser.Separated? && |ser.sep| <= ser.limit && Encodable(ser, d)
    requires d != [] && |d| + |ser.sep| >= ser.limit
    ensures |b| == ser.limit && 0 < n <= ser.limit && n <= |Encode(ser, d)| && b[..n] == Encode(ser, d)[..n]
    ensures EmitBuffer(ser, b, n) == Some(Overran(false))
  {
    hide Find;
    var s := d + ser.sep;
    n := if |ser.sep| == ser.limit then ser.limit else ser.limit - 1;
    b := s[..n] + if n == ser.limit then [] else [0];
    var t := b[..n];
    assert t == s[..n] && s == t + s[n..];
    if Find(t, ser.sep, 0).Some? {
      FindStable(t, s[n..], ser.sep);
    }
  }

  // ----- after an overrun -----

  /** `kept` stands for the stream `t` as far as the next separator is concerned. */
  ghost predicate KeepsFirstSeparator(t: bytes, kept: bytes, sep: bytes) {
    && |kept| <= |t|
    && forall c: bytes :: Find(t + c, sep, 0) == Shift(|t| - |kept|, Find(kept + c, sep, 0))
  }

  /**
   * What the separator search keeps after an overrun is cut from the whole buffer, not from its valid
   * bytes. It serves to find the next separator for every continuation if and only if the byte behind the
   * valid ones, if there is one, does no harm.
   */
  lemma {:induction false} OverrunResynchronisesIff(b: bytes, n: nat, sep: bytes)
    requires sep != [] && |sep| <= n <= |b| <= n + 1 && Find(b[..n], sep, 0).None?
    ensures KeepsFirstSeparator(b[..n], Resync.Remaining(b, n + 1 - |sep|, sep), sep) <==> NoHarm(b, n, sep)
  {
    hide Find, Resync.Tail, Resync.Remaining, NoHarm, KeepsFirstSeparator;
    KeepsTailIff(b, n, sep);
    OnlyTailResynchronises(b, n, sep);
  }

  /** A separator of one byte cannot be cut in two. */
  lemma OneByteSeparatorResynchronises(b: bytes, n: nat, sep: bytes)
    requires |sep| == 1 <= n <= |b| <= n + 1 && Find(b[..n], sep, 0).None?
    ensures KeepsFirstSeparator(b[..n], Resync.Remaining(b, n + 1 - |sep|, sep), sep)
  {
    hide Find, Resync.Remaining, KeepsFirstSeparator;
    OverrunResynchronisesIff(b, n, sep);
  }

  lemma {:induction false} OnlyTailResynchronises(b: bytes, n: nat, sep: bytes)
    requires sep != [] && |sep| <= n <= |b| <= n + 1 && Find(b[..n], sep, 0).None?
    ensures var kept := Resync.Remaining(b, n + 1 - |sep|, sep);
            KeepsFirstSeparator(b[..n], kept, sep) <==> kept == Resync.Tail(b[..n], sep)
  {
    hide Find, Resync.Tail, Resync.Remaining;
    var t := b[..n];
    var kept := Resync.Remaining(b, n + 1 - |sep|, sep);
    if kept == Resync.Tail(t, sep) {
      TailKeepsFirstSeparator(t, sep);
    } else if |kept| <= |t| {
      KeptIsPrefix(b, n + 1 - |sep|, sep);
      TailIsPrefix(t, sep);
      OtherPrefixFails(t, Resync.Tail(t, sep), kept, sep);
    }
  }

  lemma TailKeepsFirstSeparator(t: bytes, sep: bytes)
    requires sep != [] && |t| + 1 >= |sep| && Find(t, sep, 0).None?
    ensures KeepsFirstSeparator(t, Resync.Tail(t, sep), sep)
  {
    hide Find, Resync.Tail;
    TailIsPrefix(t, sep);
    forall c: bytes ensures Find(t + c, sep, 0) == Shift(|t| - |Resync.Tail(t, sep)|, Find(Resync.Tail(t, sep) + c, sep, 0)) {
      Resync.RemainingKeepsFirstSeparator(t, c, sep);
    }
  }

  lemma KeptIsPrefix(b: bytes, consumed: nat, sep: bytes)
    requires sep != [] && consumed <= |b| <= consumed + |sep|
    ensures var kept := Resync.Remaining(b, consumed, sep); |kept| < |sep| && kept == sep[..|kept|]
  {
    ShortRemainder(b, consumed, sep);
    Resync.LongestCandidate(b[consumed..], sep);
  }

  lemma TailIsPrefix(t: bytes, sep: bytes)
    requires sep != [] && |t| + 1 >= |sep|
    ensures var tail := Resync.Tail(t, sep); tail == sep[..|tail|]
  {
    Resync.LongestCandidate(t[|t| + 1 - |sep|..], sep);
  }

  /** Two different prefixes of `sep` are told apart by the rest of the longer one. */
  lemma {:induction false} OtherPrefixFails(t: bytes, tail: bytes, kept: bytes, sep: bytes)
    requires sep != [] && |t| + 1 >= |sep| && Find(t, sep, 0).None? && tail == Resync.Tail(t, sep)
    requires |tail| < |sep| && |kept| < |sep| && |kept| <= |t|
    requires tail == sep[..|tail|] && kept == sep[..|kept|] && tail != kept
    ensures !KeepsFirstSeparator(t, kept, sep)
  {
    hide Find, Resync.Tail;
    var m := if |tail| > |kept| then |tail| else |kept|;
    var c := sep[m..];
    Resync.RemainingKeepsFirstSeparator(t, c, sep);
    WholeSeparator(if |tail| > |kept| then tail else kept, sep);
    TooShort(if |tail| > |kept| then kept else tail, c, sep);
    assert Find(t + c, sep, 0) != Shift(|t| - |kept|, Find(kept + c, sep, 0));
  }

  lemma WholeSeparator(p: bytes, sep: bytes)
    requires |p| < |sep| && p == sep[..|p|]
    ensures Find(p + sep[|p|..], sep, 0) == Some(0)
  {
    assert p + sep[|p|..] == sep;
    assert sep[0..|sep|] == sep;
  }

  lemma TooShort(p: bytes, c: bytes, sep: bytes)
    requires |p| + |c| < |sep|
    ensures Find(p + c, sep, 0).None?
  {
  }

  /** A buffer that is full has no stale bytes: then the search is back in step at the next separator. */
  lemma {:induction false} FullBufferResynchronises(b: bytes, sep: bytes)
    requires sep != [] && |sep| <= |b| && Find(b, sep, 0).None?
    ensures KeepsFirstSeparator(b, Resync.Remaining(b, |b| + 1 - |sep|, sep), sep)
  {
    hide Find, Resync.Remaining;
    assert b[..|b|] == b;
    OverrunResynchronisesIff(b, |b|, sep);
  }

  /**
   * CRLF, and a buffer of three bytes of which two have been received, `x` and a carriage return, while the
   * third still holds an `x` of an earlier frame: the carriage return is lost, and with it the end of the
   * frame when the line feed arrives.
   */
  lemma StaleByteLosesSeparator()
    ensures var b: bytes := [0x78, 0x0D, 0x78];
            var crlf: bytes := [0x0D, 0x0A];
            && SplitBuffer(Separated(crlf, 3, false), b, 2) == Overrun([], false)
            && !KeepsFirstSeparator(b[..2], [], crlf)
  {
    var b: bytes := [0x78, 0x0D, 0x78];
    var crlf: bytes := [0x0D, 0x0A];
    var t: bytes := [0x78, 0x0D];
    assert b[..2] == t;
    NothingToKeep(0x0D, 0x78, crlf);
    assert b[1..] == [0x0D, 0x78];
    assert t[0..2][0] != crlf[0];
    FindNone(t, crlf, 0);
    CrlfNoHarmIff(b, 2);
    OverrunResynchronisesIff(b, 2, crlf);
  }

  lemma NothingToKeep(x: byte, y: byte, sep: bytes)
    requires |sep| == 2 && sep != [x, y] && sep[0] != y
    ensures Resync.DropToCandidate([x, y], sep) == [] && !(sep <= [x, y])
  {
    var rem := [x, y];
    assert sep[..2] == sep && sep[..1] == [sep[0]];
    assert rem[1..] == [y] && [y][1..] == [];
    assert Resync.DropToCandidate([y], sep) == [];
  }
}
