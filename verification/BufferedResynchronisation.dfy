/**
 * Any stream at all through a separator-based consumer on the buffered path: after an overrun it is back in
 * step at the next separator, as long as no stale byte does harm; with a separator of one byte, always.
 */
module BufferedResynchronisation {
  import opened Options
  import opened Bytes
  import opened Framing
  import opened StreamConsumer
  import opened RoundTrip
  import opened BufferParser
  import opened BufferedConsumer
  import opened BufferedStream
  import opened Resynchronisation
  import opened StaleByte
  import Resync

  /** A buffer of `limit` bytes holds the frame with its separator, and one more byte before the search gives up. */
  function BufferedBounds(ser: Serializer): Bounds
    requires ser.Separated?
  {
    Bounds(ser.limit - |ser.sep|, ser.limit - |ser.sep|, if |ser.sep| <= ser.limit then ser.limit else ser.limit + 1)
  }

  /** If the call overruns, the byte behind the valid ones does no harm to what is kept. */
  ghost predicate CallDoesNoHarm(ser: Serializer, v: View, chunk: bytes, b: bytes)
    requires Suits(ser, |b|) && ser.Separated? && |v.held + chunk| <= |b|
  {
    SplitBuffer(ser, b, |v.held + chunk|).Overrun? ==> NoHarm(b, |v.held + chunk|, ser.sep)
  }

  ghost predicate RunDoesNoHarm(ser: Serializer, size: nat, v: View, ops: seq<bytes>, bs: seq<bytes>)
    requires Suits(ser, size) && ser.Separated? && |ops| == |bs| && RunFits(ser, size, v, ops, bs)
    decreases |ops|
  {
    ops == []
    || (&& CallDoesNoHarm(ser, v, ops[0], bs[0])
        && RunDoesNoHarm(ser, size, FeedCall(ser, v, ops[0], bs[0]), ops[1..], bs[1..]))
  }

  /** What has been looked at contains no separator, and does not fill the buffer. */
  ghost predicate Searched(ser: Serializer, v: View)
    requires ser.Separated?
  {
    v.active ==> Find(v.held, ser.sep, 0).None? && |v.held| < BufferedBounds(ser).full
  }

  /** The separator is among the valid bytes. */
  lemma BufferedFrame(ser: Serializer, b: bytes, n: nat)
    requires Suits(ser, |b|) && ser.Separated? && ser.limit == |b| && n <= |b|
    requires Find(b[..n], ser.sep, 0).Some?
    ensures var t := b[..n];
            var q := Find(t, ser.sep, 0).value;
            && q <= BufferedBounds(ser).longest
            && SplitBuffer(ser, b, n) == Frame(Decode(ser, t[..q]), t[q + |ser.sep|..])
  {
    hide Find, Decode, Split;
    PathsAgreeIff(ser, b, n);
    FrameAtSeparator(ser, b[..n]);
  }

  /** It is not: more is asked for, or the search gives up and keeps the tail. */
  lemma BufferedNoSeparator(ser: Serializer, b: bytes, n: nat)
    requires Suits(ser, |b|) && ser.Separated? && ser.limit == |b| && n <= |b|
    requires Find(b[..n], ser.sep, 0).None?
    requires SplitBuffer(ser, b, n).Overrun? ==> NoHarm(b, n, ser.sep)
    ensures if |ser.sep| <= n && |b| <= n + 1 then SplitBuffer(ser, b, n) == Overrun(Resync.Tail(b[..n], ser.sep), false)
            else SplitBuffer(ser, b, n) == More(b[..n]) && n < BufferedBounds(ser).full
  {
    hide Find, NoHarm, Resync.Tail;
    if |ser.sep| <= n && |b| <= n + 1 {
      KeepsTailIff(b, n, ser.sep);
    }
  }

  /** One call: the report is fair, and the consumer stays in step. */
  lemma OneBufferedCall(ser: Serializer, v: View, chunk: bytes, b: bytes, later: bytes, s: bytes, k: nat, broken: bool)
    returns (s': bytes, k': nat, broken': bool)
    requires Suits(ser, |b|) && ser.Separated? && ser.limit == |b| && Searched(ser, v)
    requires Written(ser, |b|, v, chunk, b) && CallDoesNoHarm(ser, v, chunk, b)
    requires InStep(ser, BufferedBounds(ser), s, k, broken) && v.held + chunk + later == s[k..]
    ensures InStep(ser, BufferedBounds(ser), s', k', broken') && FeedCall(ser, v, chunk, b).held + later == s'[k'..]
    ensures Passes(ser, BufferedBounds(ser), s, broken, EmitCall(ser, v, chunk, b), s', broken')
    ensures Searched(ser, FeedCall(ser, v, chunk, b))
  {
    hide Find, SplitBuffer, Resync.Tail, Decode, Passes, InStep, NoHarm;
    var g := BufferedBounds(ser);
    s', k', broken' := s, k, broken;
    var t := v.held + chunk;
    if chunk == [] && v.active {
      assert t == v.held;
      NothingReported(ser, g, s, broken);
    } else if Find(t, ser.sep, 0).Some? {
      BufferedFrame(ser, b, |t|);
      s' := PassSeparator(ser, g, s, k, broken, t, later, EmitCall(ser, v, chunk, b).value);
      k', broken' := 0, false;
      NothingFoundInNothing(ser);
    } else {
      BufferedNoSeparator(ser, b, |t|);
      if SplitBuffer(ser, b, |t|).Overrun? {
        k' := DropBytes(ser, g, s, k, broken, t, later);
        broken' := true;
        NothingFoundInNothing(ser);
      } else {
        NothingReported(ser, g, s, broken);
      }
    }
  }

  lemma NothingFoundInNothing(ser: Serializer)
    requires ser.Valid() && ser.Separated?
    ensures Find([], ser.sep, 0).None? && BufferedBounds(ser).full > 0
  {
  }

  lemma {:induction false} RunBufferedAccounts(ser: Serializer, size: nat, v: View, ops: seq<bytes>, bs: seq<bytes>,
                                               future: bytes, s: bytes, k: nat, broken: bool)
    requires Suits(ser, size) && ser.Separated? && ser.limit == size && |ops| == |bs| && Searched(ser, v)
    requires RunFits(ser, size, v, ops, bs) && RunDoesNoHarm(ser, size, v, ops, bs)
    requires InStep(ser, BufferedBounds(ser), s, k, broken) && v.held + (Concat(ops) + future) == s[k..]
    ensures Accounts(ser, BufferedBounds(ser), Frames(s, ser.sep), BufferedOutput(ser, size, v, ops, bs), broken)
    ensures BufferedRunView(ser, size, v, ops, bs).active && future == [] ==>
              Settled(ser, BufferedBounds(ser), s, BufferedRunView(ser, size, v, ops, bs).held,
                      BufferedOutput(ser, size, v, ops, bs), broken)
    decreases |ops|
  {
    hide Find, Settled, Passes, InStep, Frames, EmitCall, FeedCall, CallDoesNoHarm, SplitBuffer;
    var g := BufferedBounds(ser);
    if ops == [] {
      if v.active && future == [] {
        assert v.held + (Concat([]) + []) == v.held;
        AllPassed(ser, g, v.held, s, k, broken);
      }
    } else {
      hide Accounts;
      var later := Concat(ops[1..]) + future;
      Regroup(v.held, ops, future);
      var s', k', broken' := OneBufferedCall(ser, v, ops[0], bs[0], later, s, k, broken);
      var d := EmitCall(ser, v, ops[0], bs[0]);
      var v1 := FeedCall(ser, v, ops[0], bs[0]);
      RunBufferedAccounts(ser, size, v1, ops[1..], bs[1..], future, s', k', broken');
      var out := BufferedOutput(ser, size, v1, ops[1..], bs[1..]);
      OneMoreReport(ser, g, s, broken, d, s', broken', out);
      var w := BufferedRunView(ser, size, v, ops, bs);
      if w.active && future == [] {
        OneMoreSettled(ser, g, s, broken, d, s', broken', out, w.held);
      }
    }
  }

  /**
   * For every stream and any sizes of the reads, if no stale byte does harm: the output accounts for the frames
   * of the stream; and once everything has been looked at, every separator received has been passed exactly
   * once, and the end of what came since the last one is held.
   */
  lemma {:induction false} BufferedStreamAccounts(ser: Serializer, size: nat, ops: seq<bytes>, bs: seq<bytes>, future: bytes)
    requires Suits(ser, size) && ser.Separated? && ser.limit == size && |ops| == |bs|
    requires RunFits(ser, size, START, ops, bs) && RunDoesNoHarm(ser, size, START, ops, bs)
    ensures Accounts(ser, BufferedBounds(ser), Frames(Concat(ops) + future, ser.sep),
                     BufferedOutput(ser, size, START, ops, bs), false)
    ensures BufferedRunView(ser, size, START, ops, bs).active ==>
              Settled(ser, BufferedBounds(ser), Concat(ops), BufferedRunView(ser, size, START, ops, bs).held,
                      BufferedOutput(ser, size, START, ops, bs), false)
  {
    BufferedFromStart(ser, size, ops, bs, future);
    BufferedFromStart(ser, size, ops, bs, []);
    assert Concat(ops) + [] == Concat(ops);
  }

  lemma BufferedFromStart(ser: Serializer, size: nat, ops: seq<bytes>, bs: seq<bytes>, future: bytes)
    requires Suits(ser, size) && ser.Separated? && ser.limit == size && |ops| == |bs|
    requires RunFits(ser, size, START, ops, bs) && RunDoesNoHarm(ser, size, START, ops, bs)
    ensures var s := Concat(ops) + future;
            && Accounts(ser, BufferedBounds(ser), Frames(s, ser.sep), BufferedOutput(ser, size, START, ops, bs), false)
            && (BufferedRunView(ser, size, START, ops, bs).active && future == [] ==>
                  Settled(ser, BufferedBounds(ser), s, BufferedRunView(ser, size, START, ops, bs).held,
                          BufferedOutput(ser, size, START, ops, bs), false))
  {
    hide InStep, Accounts, Settled, RunFits, RunDoesNoHarm, BufferedOutput, BufferedRunView, Find, Frames;
    var s := Concat(ops) + future;
    InStepAtStart(ser, BufferedBounds(ser), s);
    assert [] + s == s[0..];
    NothingFoundInNothing(ser);
    RunBufferedAccounts(ser, size, START, ops, bs, future, s, 0, false);
  }

  /** A separator of one byte cannot be cut in two. */
  lemma {:induction false} OneByteDoesNoHarm(ser: Serializer, size: nat, v: View, ops: seq<bytes>, bs: seq<bytes>)
    requires Suits(ser, size) && ser.Separated? && |ser.sep| == 1 && |ops| == |bs| && RunFits(ser, size, v, ops, bs)
    ensures RunDoesNoHarm(ser, size, v, ops, bs)
    decreases |ops|
  {
    hide Find;
    if ops != [] {
      OneByteDoesNoHarm(ser, size, FeedCall(ser, v, ops[0], bs[0]), ops[1..], bs[1..]);
    }
  }

  /** One-byte separators, such as the line feed: for every stream and any sizes of the reads, without condition. */
  lemma {:induction false} OneByteStreamAccounts(ser: Serializer, ops: seq<bytes>, bs: seq<bytes>, future: bytes)
    requires ser.Valid() && ser.Separated? && |ser.sep| == 1 && |ops| == |bs|
    requires RunFits(ser, ser.limit, START, ops, bs)
    ensures Accounts(ser, BufferedBounds(ser), Frames(Concat(ops) + future, ser.sep),
                     BufferedOutput(ser, ser.limit, START, ops, bs), false)
    ensures BufferedRunView(ser, ser.limit, START, ops, bs).active ==>
              Settled(ser, BufferedBounds(ser), Concat(ops), BufferedRunView(ser, ser.limit, START, ops, bs).held,
                      BufferedOutput(ser, ser.limit, START, ops, bs), false)
  {
    hide RunFits, RunDoesNoHarm, BufferedOutput, BufferedRunView, Accounts, Settled, Frames;
    OneByteDoesNoHarm(ser, ser.limit, START, ops, bs);
    BufferedStreamAccounts(ser, ser.limit, ops, bs, future);
  }
}
