/**
 * Any stream at all through a separator-based consumer: frames within the limit are delivered intact,
 * and after an overlong one the consumer is back in step at its separator.
 */
module Resynchronisation {
  import opened Options
  import opened Bytes
  import opened Framing
  import opened StreamConsumer
  import opened RoundTrip
  import Resync

  /** The frames of a stream, by a greedy left-to-right scan for the separator. */
  function Frames(s: bytes, sep: bytes): seq<bytes>
    requires sep != []
    decreases |s|
  {
    match Find(s, sep, 0)
    case None => []
    case Some(p) => [s[..p]] + Frames(s[p + |sep|..], sep)
  }

  /** The bytes behind the last separator: a frame that has not ended. */
  function Unended(s: bytes, sep: bytes): bytes
    requires sep != []
    decreases |s|
  {
    match Find(s, sep, 0)
    case None => s
    case Some(p) => Unended(s[p + |sep|..], sep)
  }

  /**
   * The sizes that decide: a frame for which an overrun is reported has at least `overlong` bytes, one that is
   * delivered intact at most `longest`, and a starving consumer holds fewer than `full` bytes.
   */
  datatype Bounds = Bounds(overlong: int, longest: int, full: nat)

  function ChunkedBounds(ser: Serializer): Bounds
    requires ser.Separated?
  {
    Bounds(ser.limit + 1, ser.limit, ser.limit + |ser.sep|)
  }

  /** Too many bytes are reported at once, not only when their separator comes. */
  predicate ReportsUnended(ser: Serializer, g: Bounds, s: bytes, out: seq<Delivery>, broken: bool)
    requires ser.Valid() && ser.Separated?
  {
    |Unended(s, ser.sep)| >= g.full ==> if out == [] then broken else out[|out| - 1] == Overran(false)
  }

  /**
   * A starving consumer at the end of the stream `s` has passed every separator received, exactly once; it
   * holds the end of the frame that has not ended, fewer than `full` bytes, and has reported an overrun if there
   * were more.
   */
  predicate Settled(ser: Serializer, g: Bounds, s: bytes, held: bytes, out: seq<Delivery>, broken: bool)
    requires ser.Valid() && ser.Separated?
  {
    && Ended(out) == |Frames(s, ser.sep)|
    && IsSuffix(held, Unended(s, ser.sep)) && |held| < g.full
    && ReportsUnended(ser, g, s, out, broken)
  }

  predicate IsSuffix(d: bytes, all: bytes) {
    |d| <= |all| && all[|all| - |d|..] == d
  }

  /**
   * `out` is a fair account of `frames`. A frame within the bounds is delivered as it is, and nothing else
   * is reported for it. A longer one is reported as an overrun, possibly several times; its end is either
   * the overrun that found the separator or the delivery of what was left of the frame. `broken` says that
   * an overrun has already been reported for the first frame.
   */
  predicate Accounts(ser: Serializer, g: Bounds, frames: seq<bytes>, out: seq<Delivery>, broken: bool)
    requires ser.Separated?
    decreases |out|
  {
    if out == [] then true
    else
      match out[0]
      case Overran(false) =>
        && (frames == [] || |frames[0]| >= g.overlong)
        && Accounts(ser, g, frames, out[1..], true)
      case Overran(true) =>
        && frames != [] && |frames[0]| >= g.overlong
        && Accounts(ser, g, frames[1..], out[1..], false)
      case Delivered(d) =>
        && frames != []
        && FairFrame(ser, g, frames[0], broken, d)
        && Accounts(ser, g, frames[1..], out[1..], false)
  }

  /** The number of reports that end a frame. */
  function Ended(out: seq<Delivery>): nat {
    if out == [] then 0 else (if out[0] == Overran(false) then 0 else 1) + Ended(out[1..])
  }

  /**
   * `s` is the stream from the last separator passed. The bytes before `k` have been dropped by overruns,
   * and no separator with them.
   */
  ghost predicate InStep(ser: Serializer, g: Bounds, s: bytes, k: nat, broken: bool)
    requires ser.Separated?
  {
    && k <= |s|
    && Find(s, ser.sep, 0) == Shift(k, Find(s[k..], ser.sep, 0))
    && (!broken ==> k == 0)
    && (broken ==> Overlong(ser, g, s))
  }

  /** The first frame of `s`, if it ends, is longer than the bounds allow. */
  predicate Overlong(ser: Serializer, g: Bounds, s: bytes)
    requires ser.Separated?
  {
    Find(s, ser.sep, 0).Some? ==> Find(s, ser.sep, 0).value >= g.overlong
  }

  lemma InStepAtStart(ser: Serializer, g: Bounds, s: bytes)
    requires ser.Separated?
    ensures InStep(ser, g, s, 0, false)
  {
    assert s[0..] == s;
  }

  /** `t + later` is the suffix of `s` at `k`; so are its parts, each at its own place. */
  lemma Places(s: bytes, k: nat, t: bytes, later: bytes, i: nat)
    requires k <= |s| && t + later == s[k..] && i <= |t|
    ensures k + i <= |s|
    ensures t[i..] + later == s[k + i..]
    ensures IsSuffix(t[..i], s[..k + i])
  {
    hide Find;
    DropFromPrefix(t, later, i);
    assert s[k..][i..] == s[k + i..];
    assert t[..i] == (t + later)[..i] == s[k..][..i] == s[..k + i][k..];
  }

  lemma SuffixGrows(d: bytes, all: bytes, c: bytes)
    requires IsSuffix(d, all)
    ensures IsSuffix(d + c, all + c)
  {
    assert (all + c)[|all| - |d|..] == all[|all| - |d|..] + c;
  }

  /** A separator found in the held bytes `t` is the first one of the stream. */
  lemma FirstOfStream(ser: Serializer, g: Bounds, s: bytes, k: nat, broken: bool, t: bytes, later: bytes)
    requires ser.Valid() && ser.Separated? && InStep(ser, g, s, k, broken) && t + later == s[k..]
    requires Find(t, ser.sep, 0).Some?
    ensures Find(s, ser.sep, 0) == Some(k + Find(t, ser.sep, 0).value)
  {
    hide Find;
    FindStable(t, later, ser.sep);
  }

  /** Without a separator in the held bytes, the first one of the stream ends behind them. */
  lemma {:induction false} FirstIsLater(ser: Serializer, g: Bounds, s: bytes, k: nat, broken: bool, t: bytes, later: bytes)
    requires ser.Valid() && ser.Separated? && InStep(ser, g, s, k, broken) && t + later == s[k..]
    requires Find(t, ser.sep, 0).None?
    ensures Find(s, ser.sep, 0).Some? ==> Find(s, ser.sep, 0).value + |ser.sep| > k + |t|
  {
    hide Find;
    if Find(t + later, ser.sep, 0).Some? && Find(t + later, ser.sep, 0).value + |ser.sep| <= |t| {
      FindInPrefix(t, later, ser.sep);
    }
  }

  /** What one report says about the first frame of `s`. */
  predicate Fair(ser: Serializer, g: Bounds, s: bytes, broken: bool, d: Delivery)
    requires ser.Valid() && ser.Separated?
  {
    match d
    case Overran(found) => Overlong(ser, g, s) && (found ==> Find(s, ser.sep, 0).Some?)
    case Delivered(data) =>
      Find(s, ser.sep, 0).Some? && FairFrame(ser, g, s[..Find(s, ser.sep, 0).value], broken, data)
  }

  predicate FairFrame(ser: Serializer, g: Bounds, frame: bytes, broken: bool, data: bytes)
    requires ser.Separated?
  {
    if broken then |frame| >= g.overlong && IsSuffix(data, Decode(ser, frame))
    else |frame| <= g.longest && data == Decode(ser, frame)
  }

  /** The report `d`, if any, takes the consumer from the stream `s` to the stream `s'`. */
  ghost predicate Passes(ser: Serializer, g: Bounds, s: bytes, broken: bool, d: Option<Delivery>, s': bytes, broken': bool)
    requires ser.Valid() && ser.Separated?
  {
    && (d.Some? ==> Fair(ser, g, s, broken, d.value))
    && (d == None ==> s' == s && broken' == broken)
    && (d == Some(Overran(false)) ==> s' == s && broken')
    && (d != None && d != Some(Overran(false)) ==>
          && !broken' && Find(s, ser.sep, 0).Some?
          && s' == s[Find(s, ser.sep, 0).value + |ser.sep|..])
  }

  /** No separator is found and the limit is exceeded: what is kept is still in step. */
  lemma {:induction false} DropBytes(ser: Serializer, g: Bounds, s: bytes, k: nat, broken: bool, t: bytes, later: bytes) returns (k': nat)
    requires ser.Valid() && ser.Separated? && InStep(ser, g, s, k, broken) && t + later == s[k..]
    requires Find(t, ser.sep, 0).None? && |t| + 1 >= g.overlong + |ser.sep| && |t| + 1 >= |ser.sep|
    ensures InStep(ser, g, s, k', true) && Resync.Tail(t, ser.sep) + later == s[k'..]
    ensures Passes(ser, g, s, broken, Some(Overran(false)), s, true)
  {
    hide Find, Resync.Tail, Resync.DropToCandidate;
    var rem := Resync.Tail(t, ser.sep);
    var n := |t| - |rem|;
    k' := k + n;
    FirstIsLater(ser, g, s, k, broken, t, later);
    Resync.RemainingKeepsFirstSeparator(t, later, ser.sep);
    Places(s, k, t, later, n);
    StillInStep(ser, g, s, k, n, rem + later);
  }

  lemma StillInStep(ser: Serializer, g: Bounds, s: bytes, k: nat, n: nat, y: bytes)
    requires ser.Separated? && k + n <= |s| && y == s[k + n..] && Overlong(ser, g, s)
    requires Find(s, ser.sep, 0) == Shift(k, Find(s[k..], ser.sep, 0))
    requires Find(s[k..], ser.sep, 0) == Shift(n, Find(y, ser.sep, 0))
    ensures InStep(ser, g, s, k + n, true)
  {
    hide Find;
  }

  /** The separator is in the held bytes: they end with the end of the first frame. */
  lemma EndFrame(ser: Serializer, g: Bounds, s: bytes, k: nat, broken: bool, t: bytes, later: bytes)
    requires ser.Valid() && ser.Separated? && InStep(ser, g, s, k, broken) && t + later == s[k..]
    requires Find(t, ser.sep, 0).Some?
    ensures var q := Find(t, ser.sep, 0).value;
            && Find(s, ser.sep, 0) == Some(k + q)
            && t[q + |ser.sep|..] + later == s[k + q + |ser.sep|..]
            && IsSuffix(Decode(ser, t[..q]), Decode(ser, s[..k + q]))
            && (!broken ==> t[..q] == s[..k + q])
  {
    hide Find, IsSuffix;
    var q := Find(t, ser.sep, 0).value;
    FirstOfStream(ser, g, s, k, broken, t, later);
    Places(s, k, t, later, q + |ser.sep|);
    Places(s, k, t, later, q);
    if ser.keepEnd {
      SuffixGrows(t[..q], s[..k + q], ser.sep);
    }
    if !broken {
      WholeSuffix(t[..q], s[..q]);
    }
  }

  lemma WholeSuffix(d: bytes, all: bytes)
    requires IsSuffix(d, all) && |d| == |all|
    ensures d == all
  {
  }

  lemma FrameAtSeparator(ser: Serializer, t: bytes)
    requires ser.Valid() && ser.Separated? && Find(t, ser.sep, 0).Some?
    ensures var q := Find(t, ser.sep, 0).value;
            Split(ser, t) == if q <= ser.limit then Frame(Decode(ser, t[..q]), t[q + |ser.sep|..])
                             else Overrun(t[q + |ser.sep|..], true)
  {
    hide Find;
    var q := Find(t, ser.sep, 0).value;
    FindMeans(t, ser.sep, 0);
    assert t[..q + |ser.sep|] == t[..q] + t[q..q + |ser.sep|];
  }

  /** The separator is in the held bytes `t`, and `d` is reported: either the end of a frame, or too long. */
  lemma PassSeparator(ser: Serializer, g: Bounds, s: bytes, k: nat, broken: bool, t: bytes, later: bytes, d: Delivery)
    returns (s': bytes)
    requires ser.Valid() && ser.Separated? && InStep(ser, g, s, k, broken) && t + later == s[k..]
    requires Find(t, ser.sep, 0).Some?
    requires var q := Find(t, ser.sep, 0).value;
             || (d == Overran(true) && q >= g.overlong)
             || (d == Delivered(Decode(ser, t[..q])) && q <= g.longest)
    ensures Passes(ser, g, s, broken, Some(d), s', false) && InStep(ser, g, s', 0, false)
    ensures t[Find(t, ser.sep, 0).value + |ser.sep|..] + later == s'[0..]
  {
    hide Find, IsSuffix, Decode;
    EndFrame(ser, g, s, k, broken, t, later);
    s' := s[Find(s, ser.sep, 0).value + |ser.sep|..];
    InStepAtStart(ser, g, s');
    assert s'[0..] == s';
  }

  lemma NothingReported(ser: Serializer, g: Bounds, s: bytes, broken: bool)
    requires ser.Valid() && ser.Separated?
    ensures Passes(ser, g, s, broken, None, s, broken)
  {
  }

  /** One call: the report is fair, and the consumer stays in step. */
  lemma OneCall(ser: Serializer, v: View, chunk: bytes, later: bytes, s: bytes, k: nat, broken: bool)
    returns (s': bytes, k': nat, broken': bool)
    requires v.Valid(ser) && ser.Separated? && InStep(ser, ChunkedBounds(ser), s, k, broken)
    requires v.held + chunk + later == s[k..]
    ensures InStep(ser, ChunkedBounds(ser), s', k', broken') && Feed(ser, v, chunk).held + later == s'[k'..]
    ensures Passes(ser, ChunkedBounds(ser), s, broken, Emit(ser, v, chunk), s', broken')
  {
    hide Find, IsSuffix, Split, Resync.Tail, Decode, Passes, InStep;
    var g := ChunkedBounds(ser);
    s', k', broken' := s, k, broken;
    var t := v.held + chunk;
    if chunk == [] && Starving(v) {
      assert t == v.held;
      NothingReported(ser, g, s, broken);
    } else if Find(t, ser.sep, 0).Some? {
      FrameAtSeparator(ser, t);
      s' := PassSeparator(ser, g, s, k, broken, t, later, Emit(ser, v, chunk).value);
      k', broken' := 0, false;
    } else {
      NoSeparator(ser, t);
      if Split(ser, t).Overrun? {
        k' := DropBytes(ser, g, s, k, broken, t, later);
        broken' := true;
      } else {
        NothingReported(ser, g, s, broken);
      }
    }
  }

  lemma NoSeparator(ser: Serializer, t: bytes)
    requires ser.Valid() && ser.Separated? && Find(t, ser.sep, 0).None?
    ensures Split(ser, t) == if |t| + 1 > ser.limit + |ser.sep| then Overrun(Resync.Tail(t, ser.sep), false) else More(t)
  {
  }

  lemma {:induction false} RunAccounts(ser: Serializer, v: View, ops: seq<bytes>, future: bytes,
                                       s: bytes, k: nat, broken: bool)
    requires v.Valid(ser) && ser.Separated?
    requires InStep(ser, ChunkedBounds(ser), s, k, broken) && v.held + (Concat(ops) + future) == s[k..]
    ensures Accounts(ser, ChunkedBounds(ser), Frames(s, ser.sep), RunOutput(ser, v, ops), broken)
    ensures Starving(RunView(ser, v, ops)) && future == [] ==>
              Settled(ser, ChunkedBounds(ser), s, RunView(ser, v, ops).held, RunOutput(ser, v, ops), broken)
    decreases |ops|
  {
    var g := ChunkedBounds(ser);
    if ops == [] {
      if Starving(v) && future == [] {
        assert v.held + (Concat([]) + []) == v.held;
        AllPassed(ser, g, v.held, s, k, broken) by {
          NothingFound(ser, v);
        }
      }
    } else {
      hide Find, Settled, Passes, InStep, Frames, Accounts, Emit, Feed, Split;
      var later := Concat(ops[1..]) + future;
      Regroup(v.held, ops, future);
      var s', k', broken' := OneCall(ser, v, ops[0], later, s, k, broken);
      var v1 := Feed(ser, v, ops[0]);
      FeedKeepsValid(ser, v, ops[0]);
      RunAccounts(ser, v1, ops[1..], future, s', k', broken');
      OneMoreReport(ser, g, s, broken, Emit(ser, v, ops[0]), s', broken', RunOutput(ser, v1, ops[1..]));
      if Starving(RunView(ser, v, ops)) && future == [] {
        OneMoreSettled(ser, g, s, broken, Emit(ser, v, ops[0]), s', broken', RunOutput(ser, v1, ops[1..]),
                       RunView(ser, v, ops).held);
      }
    }
  }

  lemma NothingFound(ser: Serializer, v: View)
    requires v.Valid(ser) && ser.Separated? && Starving(v)
    ensures Find(v.held, ser.sep, 0).None? && |v.held| < ser.limit + |ser.sep|
  {
  }

  /** No separator is in the bytes held: at the end of the stream every separator has been passed. */
  lemma AllPassed(ser: Serializer, g: Bounds, held: bytes, s: bytes, k: nat, broken: bool)
    requires ser.Valid() && ser.Separated? && InStep(ser, g, s, k, broken) && held == s[k..]
    requires Find(held, ser.sep, 0).None? && |held| < g.full
    ensures Settled(ser, g, s, held, [], broken)
  {
    hide Find;
  }

  /** A fair report in front of the account of what follows. */
  lemma OneMoreReport(ser: Serializer, g: Bounds, s: bytes, broken: bool, d: Option<Delivery>,
                      s': bytes, broken': bool, out: seq<Delivery>)
    requires ser.Valid() && ser.Separated? && Passes(ser, g, s, broken, d, s', broken')
    requires Accounts(ser, g, Frames(s', ser.sep), out, broken')
    ensures Accounts(ser, g, Frames(s, ser.sep), AsSeq(d) + out, broken)
  {
    hide Find;
    if d == None {
      assert AsSeq(d) + out == out;
    } else {
      assert (AsSeq(d) + out)[1..] == out;
    }
  }

  lemma OneMoreSettled(ser: Serializer, g: Bounds, s: bytes, broken: bool, d: Option<Delivery>,
                       s': bytes, broken': bool, out: seq<Delivery>, held: bytes)
    requires ser.Valid() && ser.Separated? && Passes(ser, g, s, broken, d, s', broken')
    requires Settled(ser, g, s', held, out, broken')
    ensures Settled(ser, g, s, held, AsSeq(d) + out, broken)
  {
    hide Find;
    if d == None {
      assert AsSeq(d) + out == out;
    } else {
      assert (AsSeq(d) + out)[1..] == out;
    }
  }

  /**
   * For every stream and every chunking of it: the output accounts for the frames of the stream, whatever
   * comes after it; and a starving consumer has passed every separator received and holds the end of what
   * came since the last one.
   */
  lemma {:induction false} StreamAccounts(ser: Serializer, ops: seq<bytes>, future: bytes)
    requires ser.Valid() && ser.Separated?
    ensures Accounts(ser, ChunkedBounds(ser), Frames(Concat(ops) + future, ser.sep), RunOutput(ser, EMPTY, ops), false)
    ensures Starving(RunView(ser, EMPTY, ops)) ==>
              Settled(ser, ChunkedBounds(ser), Concat(ops), RunView(ser, EMPTY, ops).held, RunOutput(ser, EMPTY, ops), false)
  {
    RunFromStart(ser, ops, future);
    RunFromStart(ser, ops, []);
    assert Concat(ops) + [] == Concat(ops);
  }

  lemma RunFromStart(ser: Serializer, ops: seq<bytes>, future: bytes)
    requires ser.Valid() && ser.Separated?
    ensures var s := Concat(ops) + future;
            && Accounts(ser, ChunkedBounds(ser), Frames(s, ser.sep), RunOutput(ser, EMPTY, ops), false)
            && (Starving(RunView(ser, EMPTY, ops)) && future == [] ==>
                  Settled(ser, ChunkedBounds(ser), s, RunView(ser, EMPTY, ops).held, RunOutput(ser, EMPTY, ops), false))
  {
    var s := Concat(ops) + future;
    InStepAtStart(ser, ChunkedBounds(ser), s);
    assert [] + s == s[0..];
    RunAccounts(ser, EMPTY, ops, future, s, 0, false);
  }
}
