/** Serializers that end every packet with a separator: `AutoSeparatedPacketSerializer`, `StringLineSerializer`. */
module Separator {
  import opened Options
  import opened Bytes
  import opened Framing
  import opened RoundTrip
  import opened StreamConsumer

  predicate EndsWith(data: bytes, sep: bytes) {
    |sep| <= |data| && data[|data| - |sep|..] == sep
  }

  /** `data` without the separators at its end. */
  function TrimEnd(data: bytes, sep: bytes): (r: bytes)
    requires sep != []
    ensures r <= data && !EndsWith(r, sep)
    decreases |data|
  {
    if EndsWith(data, sep) then TrimEnd(data[..|data| - |sep|], sep) else data
  }

  /** `k` separators. */
  function Repeat(sep: bytes, k: nat): bytes {
    if k == 0 then [] else Repeat(sep, k - 1) + sep
  }

  /** `data` is what is left of it, and separators behind that. */
  lemma {:induction false} TrimEndLeaves(data: bytes, sep: bytes) returns (k: nat)
    requires sep != []
    ensures data == TrimEnd(data, sep) + Repeat(sep, k)
    decreases |data|
  {
    if EndsWith(data, sep) {
      var shorter := data[..|data| - |sep|];
      k := TrimEndLeaves(shorter, sep);
      assert data == shorter + sep;
      Associative(TrimEnd(data, sep), Repeat(sep, k), sep);
      k := k + 1;
    } else {
      k := 0;
      assert data + [] == data;
    }
  }

  /** And there is only one way to take it apart like this. */
  lemma {:induction false} TrimEndIs(d: bytes, sep: bytes, k: nat)
    requires sep != [] && !EndsWith(d, sep)
    ensures TrimEnd(d + Repeat(sep, k), sep) == d
    decreases k
  {
    var data := d + Repeat(sep, k);
    if k == 0 {
      assert data == d;
    } else {
      var shorter := d + Repeat(sep, k - 1);
      Associative(d, Repeat(sep, k - 1), sep);
      assert data == shorter + sep;
      assert data[..|data| - |sep|] == shorter && data[|data| - |sep|..] == sep;
      TrimEndIs(d, sep, k - 1);
    }
  }

  /** What `incremental_serialize` yields for `serialize(packet) == data`. */
  datatype Sending = Nothing | Chunk(data: bytes) | SeparatorInside

  function Sends(data: bytes, sep: bytes, check: bool): Sending
    requires sep != []
  {
    if check then
      var d := TrimEnd(data, sep);
      if Find(d, sep, 0).Some? then SeparatorInside
      else if d == [] then Nothing
      else Chunk(d + sep)
    else if EndsWith(data, sep) then Chunk(data)
    else if data == [] then Nothing
    else Chunk(data + sep)
  }

  method IncrementalSerialize(data: bytes, sep: bytes, check: bool) returns (r: Sending)
    requires sep != []
    ensures r == Sends(data, sep, check)
  {
    var d := data;
    if check {
      while EndsWith(d, sep)
        invariant TrimEnd(d, sep) == TrimEnd(data, sep)
        decreases |d|
      {
        d := d[..|d| - |sep|];
      }
      if Find(d, sep, 0).Some? {
        return SeparatorInside;
      }
    } else if EndsWith(d, sep) {
      return Chunk(d);
    }
    if d == [] {
      return Nothing;
    }
    r := Chunk(d + sep);
  }

  /**
   * The checked sender, in terms of the packet alone: `d` with `k` separators behind it is refused if and only if
   * the separator occurs in `d`, yields nothing if and only if there is nothing but separators, and is
   * sent with exactly one separator otherwise.
   */
  lemma {:induction false} CheckedSends(d: bytes, sep: bytes, k: nat)
    requires sep != [] && !EndsWith(d, sep)
    ensures var r := Sends(d + Repeat(sep, k), sep, true);
            && (r == SeparatorInside <==> exists i: nat :: OccursAt(d, sep, i))
            && (r == Nothing <==> d == [])
            && (r.Chunk? ==> r == Chunk(d + sep))
  {
    TrimEndIs(d, sep, k);
    FindMeans(d, sep, 0);
    if d == [] {
      assert forall i: nat :: !OccursAt(d, sep, i);
    }
  }

  /** The unchecked sender: a packet is sent as it is, with a separator unless it ends with one. */
  lemma UncheckedSends(data: bytes, sep: bytes)
    requires sep != []
    ensures var r := Sends(data, sep, false);
            && (r == Nothing <==> data == []) && r != SeparatorInside
            && (r.Chunk? ==> r == Chunk(if exists d: bytes :: data == d + sep then data else data + sep))
  {
    if EndsWith(data, sep) {
      assert data == data[..|data| - |sep|] + sep;
    }
    forall d: bytes | data == d + sep ensures EndsWith(data, sep) {
      assert data[|data| - |sep|..] == sep;
    }
  }

  /** No proper prefix of `sep` is also a suffix of it. */
  predicate BorderFree(sep: bytes) {
    forall b :: 0 < b < |sep| ==> sep[..b] != sep[|sep| - b..]
  }

  /** A clean payload: the separator appended to it is the first one. */
  predicate EndsAtPayload(d: bytes, sep: bytes) {
    Find(d + sep, sep, 0) == Some(|d|)
  }

  /** An occurrence that starts in the payload and ends in the separator is a border of the separator. */
  lemma OverlapIsBorder(d: bytes, sep: bytes, i: nat)
    requires i < |d| < i + |sep| && OccursAt(d + sep, sep, i)
    ensures var b := i + |sep| - |d|; 0 < b < |sep| && sep[..b] == sep[|sep| - b..]
  {
    var s := d + sep;
    var b := i + |sep| - |d|;
    assert s[i..i + |sep|] == sep;
    assert sep[|sep| - b..] == s[i..i + |sep|][|d| - i..] == s[|d|..|d| + b];
    assert s[|d|..|d| + b] == sep[..b];
  }

  lemma CleanPayloadEnds(d: bytes, sep: bytes)
    requires sep != [] && BorderFree(sep) && Find(d, sep, 0).None?
    ensures EndsAtPayload(d, sep)
  {
    hide Find;
    FindMeans(d, sep, 0);
    assert (d + sep)[|d|..|d| + |sep|] == sep;
    forall i | 0 <= i < |d| ensures !OccursAt(d + sep, sep, i) {
      if i + |sep| <= |d| {
        OccursInPrefix(d, sep, sep, i);
      } else if OccursAt(d + sep, sep, i) {
        OverlapIsBorder(d, sep, i);
      }
    }
    FindIs(d + sep, sep, 0, |d|);
  }

  /** For a separator with a border of length `b`, the payload `sep[..|sep| - b]` is clean and cut short. */
  lemma BorderedPayload(sep: bytes, b: nat)
    requires 0 < b < |sep| && sep[..b] == sep[|sep| - b..]
    ensures var d := sep[..|sep| - b];
            d != [] && Find(d, sep, 0).None? && !EndsAtPayload(d, sep)
  {
    var d := sep[..|sep| - b];
    assert (d + sep)[0..|sep|] == d + sep[..b] == sep;
    FindIs(d + sep, sep, 0, 0);
  }

  /**
   * A payload that does not contain the separator comes back whole, for all such payloads, if and only if
   * the separator has no border.
   */
  lemma CleanPayloadsEndIffBorderFree(sep: bytes)
    requires sep != []
    ensures BorderFree(sep) <==> forall d: bytes :: d != [] && Find(d, sep, 0).None? ==> EndsAtPayload(d, sep)
  {
    if BorderFree(sep) {
      forall d: bytes | d != [] && Find(d, sep, 0).None? ensures EndsAtPayload(d, sep) {
        CleanPayloadEnds(d, sep);
      }
    } else {
      var b :| 0 < b < |sep| && sep[..b] == sep[|sep| - b..];
      BorderedPayload(sep, b);
    }
  }

  /** The newlines of `StringLineSerializer`: LF, CR and CRLF. */
  lemma NewlinesAreBorderFree()
    ensures BorderFree([0x0A]) && BorderFree([0x0D]) && BorderFree([0x0D, 0x0A])
  {
    var crlf: bytes := [0x0D, 0x0A];
    assert crlf[..1][0] != crlf[1..][0];
  }

  // ----- what is sent -----

  /** `data` without one separator at its end. */
  function Line(data: bytes, sep: bytes): bytes {
    if EndsWith(data, sep) then data[..|data| - |sep|] else data
  }

  /** All chunks yielded for `datas`, joined. Packets that are refused are not sent. */
  function SentBytes(datas: seq<bytes>, sep: bytes, check: bool): bytes
    requires sep != []
  {
    if datas == [] then []
    else
      (match Sends(datas[0], sep, check)
       case Chunk(c) => c
       case _ => []) + SentBytes(datas[1..], sep, check)
  }

  /** What stands before the separator that is sent at the end of each chunk. */
  function Payloads(datas: seq<bytes>, sep: bytes, check: bool): seq<bytes>
    requires sep != []
  {
    if datas == [] then []
    else
      (match Sends(datas[0], sep, check)
       case Chunk(c) => [Line(c, sep)]
       case _ => []) + Payloads(datas[1..], sep, check)
  }

  lemma ChunkIsLine(data: bytes, sep: bytes, check: bool)
    requires sep != [] && Sends(data, sep, check).Chunk?
    ensures var c := Sends(data, sep, check).data; EndsWith(c, sep) && c == Line(c, sep) + sep
  {
    var c := Sends(data, sep, check).data;
    if !EndsWith(data, sep) || check {
      var d := if check then TrimEnd(data, sep) else data;
      assert c == d + sep && c[|d|..] == sep;
    }
    assert c == c[..|c| - |sep|] + c[|c| - |sep|..];
  }

  /** The unchecked sender leaves out empty packets, and adds a separator unless the packet ends with one. */
  lemma UncheckedPayload(data: bytes, sep: bytes)
    requires sep != []
    ensures Payloads([data], sep, false) == if data == [] then [] else [Line(data, sep)]
  {
    if data != [] && !EndsWith(data, sep) {
      assert (data + sep)[|data|..] == sep && (data + sep)[..|data|] == data;
    }
  }

  /** The checked sender also leaves out separators at the end, and packets that contain another one. */
  lemma CheckedPayload(data: bytes, sep: bytes)
    requires sep != []
    ensures var d := TrimEnd(data, sep);
            Payloads([data], sep, true) == if d == [] || Find(d, sep, 0).Some? then [] else [d]
  {
    var d := TrimEnd(data, sep);
    assert (d + sep)[|d|..] == sep && (d + sep)[..|d|] == d;
  }
}
