/**
 * One-shot framing: what a deserializer makes of all the bytes it has been given, as one function of
 * those bytes. The resumable parsers are proved to compute exactly this.
 */
module Framing {
  import opened Options
  import opened Bytes
  import Resync
  import Json = JsonScan

  /** The three families of incremental serializers. JSON lines are `Separated([0x0A], limit, false)`. */
  datatype Serializer =
    | Separated(sep: bytes, limit: nat, keepEnd: bool)
    | FixedSize(size: nat)
    | RawJson(limit: nat)
  {
    /** What the constructors of the serializers enforce. */
    predicate Valid() {
      match this
      case Separated(sep, limit, _) => sep != [] && limit > 0
      case FixedSize(size) => size > 0
      case RawJson(limit) => limit > 0
    }
  }

  /**
   * - `More`: the end of the frame is not in sight; `keep` are the bytes still needed.
   * - `Frame`: one frame, and the bytes behind it.
   * - `Overrun`: the limit is exceeded; `found` tells whether the end of the frame was in sight.
   */
  datatype Outcome = More(keep: bytes) | Frame(data: bytes, rest: bytes) | Overrun(rest: bytes, found: bool)

  function SplitSeparated(t: bytes, sep: bytes, limit: nat, keepEnd: bool): Outcome
    requires sep != []
  {
    match Find(t, sep, 0)
    case Some(p) =>
      var end := p + |sep|;
      if p <= limit then Frame(if keepEnd then t[..end] else t[..p], t[end..])
      else Overrun(t[end..], true)
    case None =>
      if |t| + 1 > limit + |sep| then Overrun(Resync.Tail(t, sep), false) else More(t)
  }

  function SplitFixedSize(t: bytes, size: nat): Outcome {
    if |t| >= size then Frame(t[..size], t[size..]) else More(t)
  }

  /**
   * Leading whitespace is moved out of the way by shifting the rest of the buffer to the front. The
   * buffer keeps its length, so its last `ws` bytes are left over, and an overrun hands them back.
   */
  function SplitJson(t: bytes, limit: nat): Outcome
    requires limit > 0
  {
    var ws := Json.SkipWhitespace(t, 0);
    if ws == |t| then More([]) else SplitDocument(t[ws..], t[|t| - ws..], limit)
  }

  /** `doc` starts at the first byte of a document; `leftover` is what lies behind it in the buffer. */
  function SplitDocument(doc: bytes, leftover: bytes, limit: nat): Outcome
    requires doc != []
  {
    match Json.DocumentEnd(doc)
    case Some(end) =>
      var next := Json.SkipWhitespace(doc, end);
      if end > limit then Overrun(doc[next..] + leftover, true)
      else if end == 0 then Frame(doc, [])
      else Frame(doc[..end], doc[next..])
    case None =>
      if |doc| >= limit then Overrun(leftover, false) else More(doc)
  }

  function Split(ser: Serializer, t: bytes): Outcome
    requires ser.Valid()
  {
    match ser
    case Separated(sep, limit, keepEnd) => SplitSeparated(t, sep, limit, keepEnd)
    case FixedSize(size) => SplitFixedSize(t, size)
    case RawJson(limit) => SplitJson(t, limit)
  }

  /** Every outcome but starvation uses up at least one byte, so draining a buffer ends. */
  lemma SplitConsumes(ser: Serializer, t: bytes)
    requires ser.Valid() && !Split(ser, t).More?
    ensures |Split(ser, t).rest| < |t|
  {
  }

  /** What is kept asks for more again, and keeping it is no different from keeping everything. */
  lemma MoreAgain(ser: Serializer, t: bytes)
    requires ser.Valid() && Split(ser, t).More?
    ensures Split(ser, Split(ser, t).keep) == Split(ser, t)
  {
    if ser.RawJson? && Split(ser, t).keep != [] {
      var doc := Split(ser, t).keep;
      assert Json.SkipWhitespace(doc, 0) == 0;
      assert doc[0..] == doc;
    }
  }

  lemma LeadingWhitespace(t: bytes, c: bytes)
    ensures var ws := Json.SkipWhitespace(t, 0);
            && Json.SkipWhitespace(t + c, 0) == (if ws < |t| then ws else |t| + Json.SkipWhitespace(c, 0))
  {
    var ws := Json.SkipWhitespace(t, 0);
    Json.SkipsWhitespace(t, 0);
    Json.SkipsWhitespace(c, 0);
    if ws < |t| {
      SkipIs(t + c, 0, ws);
    } else {
      SkipIs(t + c, 0, |t| + Json.SkipWhitespace(c, 0));
    }
  }

  lemma JsonSplits(t: bytes, limit: nat)
    requires limit > 0
    ensures var ws := Json.SkipWhitespace(t, 0);
            SplitJson(t, limit) == if ws == |t| then More([]) else SplitDocument(t[ws..], t[|t| - ws..], limit)
  {
    hide SplitDocument, Json.SkipWhitespace;
  }

  /** Without blanks in front there is nothing left over. */
  lemma SplitAtOnce(t: bytes, limit: nat)
    requires limit > 0 && t != [] && !Json.IsWhitespace(t[0])
    ensures SplitJson(t, limit) == SplitDocument(t, [], limit)
    ensures [] + t == t
  {
    SkipIs(t, 0, 0);
    JsonSplits(t, limit);
    hide SplitJson, SplitDocument;
    assert t == t[0..] && t[|t| - 0..] == [];
  }

  lemma SkipIs(s: bytes, from: nat, to: nat)
    requires from <= to <= |s|
    requires forall i :: from <= i < to ==> Json.IsWhitespace(s[i])
    requires to < |s| ==> !Json.IsWhitespace(s[to])
    ensures Json.SkipWhitespace(s, from) == to
  {
    Json.SkipsWhitespace(s, from);
  }

  /** What a deserializer that asks for more may hold. */
  predicate Bounded(ser: Serializer, held: bytes) {
    match ser
    case Separated(sep, limit, _) => |held| <= limit + |sep| - 1
    case FixedSize(size) => |held| < size
    case RawJson(limit) => |held| < limit
  }

  lemma MoreIsBounded(ser: Serializer, t: bytes)
    requires ser.Valid() && Split(ser, t).More?
    ensures Bounded(ser, Split(ser, t).keep)
  {
  }
}
