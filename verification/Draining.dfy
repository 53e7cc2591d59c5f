/** Draining a consumer: what `next(None)`, called again and again, costs and brings to light. */
module Draining {
  import opened Options
  import opened Bytes
  import opened Framing
  import opened StreamConsumer
  import opened RoundTrip

  function Nones(n: nat): seq<bytes> {
    if n == 0 then [] else [[]] + Nones(n - 1)
  }

  /** `next(None)` called once more than there are bytes held ends in `StopIteration`. */
  lemma {:induction false} DrainingTerminates(ser: Serializer, v: View, n: nat)
    requires v.Valid(ser) && n > |v.held|
    ensures Starving(RunView(ser, v, Nones(n)))
    decreases n
  {
    hide Split;
    assert Nones(n)[0] == [] && Nones(n)[1..] == Nones(n - 1);
    var v1 := Feed(ser, v, []);
    FeedKeepsValid(ser, v, []);
    if Starving(v1) {
      StaysStarving(ser, v1, n - 1);
    } else {
      assert v.held + [] == v.held;
      SplitConsumes(ser, v.held);
      DrainingTerminates(ser, v1, n - 1);
    }
  }

  lemma {:induction false} StaysStarving(ser: Serializer, v: View, n: nat)
    requires ser.Valid() && Starving(v)
    ensures RunView(ser, v, Nones(n)) == v
    decreases n
  {
    if n > 0 {
      assert Nones(n)[0] == [] && Nones(n)[1..] == Nones(n - 1);
      StaysStarving(ser, v, n - 1);
    }
  }

  /** The stream `t`, cut like this and drained. */
  predicate Chunking(ser: Serializer, t: bytes, ops: seq<bytes>)
    requires ser.Valid()
  {
    Concat(ops) == t && Starving(RunView(ser, EMPTY, ops))
  }

  lemma {:induction false} NothingMore(n: nat)
    ensures Concat(Nones(n)) == []
  {
    if n > 0 {
      NothingMore(n - 1);
      assert Nones(n)[1..] == Nones(n - 1);
    }
  }

  /** A way to cut the stream `c + rest` whose first report is that of the chunk `c`. */
  lemma ReportedFirst(ser: Serializer, c: bytes, rest: bytes) returns (ops: seq<bytes>)
    requires ser.Valid() && Emit(ser, EMPTY, c).Some?
    ensures Chunking(ser, c + rest, ops)
    ensures RunOutput(ser, EMPTY, ops) != [] && RunOutput(ser, EMPTY, ops)[0] == Emit(ser, EMPTY, c).value
  {
    hide Split, Emit, Feed, RunView, RunOutput, Concat;
    var v1 := Feed(ser, EMPTY, c);
    var v2 := Feed(ser, v1, rest);
    FeedKeepsValid(ser, EMPTY, c);
    FeedKeepsValid(ser, v1, rest);
    var n := |v2.held| + 1;
    DrainingTerminates(ser, v2, n);
    NothingMore(n);
    RunCons(ser, v1, rest, Nones(n));
    RunCons(ser, EMPTY, c, [rest] + Nones(n));
    ops := [c] + ([rest] + Nones(n));
    assert rest + [] == rest;
  }
}
