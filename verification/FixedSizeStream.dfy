/** Any stream through a fixed-size framer. */
module FixedSizeStream {
  import opened Options
  import opened Bytes
  import opened Framing
  import opened StreamConsumer
  import opened RoundTrip

  /** The consecutive slices of `size` bytes. */
  function Slices(s: bytes, size: nat): seq<bytes>
    requires size > 0
    decreases |s|
  {
    if |s| < size then [] else [s[..size]] + Slices(s[size..], size)
  }

  /** The bytes behind the last whole slice. */
  function Leftover(s: bytes, size: nat): (r: bytes)
    requires size > 0
    ensures |r| < size
    decreases |s|
  {
    if |s| < size then s else Leftover(s[size..], size)
  }

  /** Quotient and remainder: the slices and what is left over make up the stream. */
  lemma {:induction false} SlicesAreConsecutive(s: bytes, size: nat)
    requires size > 0
    ensures s == Concat(Slices(s, size)) + Leftover(s, size)
    ensures |s| == |Slices(s, size)| * size + |Leftover(s, size)|
    decreases |s|
  {
    if |s| >= size {
      var rest := s[size..];
      SlicesAreConsecutive(rest, size);
      assert Slices(s, size)[1..] == Slices(rest, size);
      Associative(s[..size], Concat(Slices(rest, size)), Leftover(rest, size));
      assert s == s[..size] + rest;
      OneMoreTimes(|Slices(rest, size)|, size);
    }
  }

  lemma OneMoreTimes(n: nat, size: nat)
    ensures (n + 1) * size == n * size + size
  {
  }

  lemma {:induction false} RunSlices(size: nat, v: View, ops: seq<bytes>)
    requires v.Valid(FixedSize(size)) && Starving(RunView(FixedSize(size), v, ops))
    ensures RunOutput(FixedSize(size), v, ops) == Deliveries(FixedSize(size), Slices(v.held + Concat(ops), size))
    ensures RunView(FixedSize(size), v, ops).held == Leftover(v.held + Concat(ops), size)
    decreases |ops|
  {
    var ser := FixedSize(size);
    if ops == [] {
      assert v.held + [] == v.held;
    } else {
      var t := v.held + ops[0];
      var later := Concat(ops[1..]);
      Associative(v.held, ops[0], later);
      FeedKeepsValid(ser, v, ops[0]);
      RunSlices(size, Feed(ser, v, ops[0]), ops[1..]);
      if ops[0] == [] && Starving(v) {
        assert t == v.held;
      } else if |t| >= size {
        FirstSlice(t, later, size);
      }
    }
  }

  lemma FirstSlice(t: bytes, later: bytes, size: nat)
    requires 0 < size <= |t|
    ensures Slices(t + later, size) == [t[..size]] + Slices(t[size..] + later, size)
    ensures Leftover(t + later, size) == Leftover(t[size..] + later, size)
  {
    assert (t + later)[..size] == t[..size];
    DropFromPrefix(t, later, size);
  }

  /**
   * Fixed-size framing: of a stream of q * size + r bytes with r < size, cut in any way, a consumer that
   * starves has delivered exactly the q consecutive slices and holds the last r bytes.
   */
  lemma FixedSizeFraming(size: nat, ops: seq<bytes>)
    requires size > 0 && Starving(RunView(FixedSize(size), EMPTY, ops))
    ensures var s := Concat(ops);
            var slices := Slices(s, size);
            var held := RunView(FixedSize(size), EMPTY, ops).held;
            && RunOutput(FixedSize(size), EMPTY, ops) == Deliveries(FixedSize(size), slices)
            && s == Concat(slices) + held
            && |s| == |slices| * size + |held| && |held| < size
  {
    assert [] + Concat(ops) == Concat(ops);
    RunSlices(size, EMPTY, ops);
    SlicesAreConsecutive(Concat(ops), size);
  }
}
