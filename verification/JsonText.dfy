/**
 * JSON texts as the encoder writes them (RFC 8259, sections 3 to 7, compact separators), and why they can be
 * framed without knowing where they end: brackets balance outside strings, and a string hides whatever
 * is inside it.
 */
module JsonText {
  import opened Options
  import opened Bytes
  import opened Framing
  import opened StreamConsumer
  import opened RoundTrip
  import opened JsonScan

  /** Unescaped: everything from U+0020 on but the quotation mark and the backslash (UTF-8 bytes included). */
  type PlainByte = b: byte | b >= 0x20 && b != 0x22 && b != 0x5C witness 0x20
  /** `"`, `\`, `/`, b, f, n, r, t */
  type EscapeLetter = b: byte
    | b == 0x22 || b == 0x5C || b == 0x2F || b == 0x62 || b == 0x66 || b == 0x6E || b == 0x72 || b == 0x74
    witness 0x22
  type HexDigit = b: byte | 0x30 <= b <= 0x39 || 0x41 <= b <= 0x46 || 0x61 <= b <= 0x66 witness 0x30
  /** Letters, digits, `+`, `-` and `.`: what numbers and literal names are made of. */
  type ScalarByte = b: byte
    | 0x30 <= b <= 0x39 || 0x41 <= b <= 0x5A || 0x61 <= b <= 0x7A || b == 0x2B || b == 0x2D || b == 0x2E
    witness 0x30

  datatype StringItem =
    | Plain(b: PlainByte)
    | Short(c: EscapeLetter)
    | Unicode(h0: HexDigit, h1: HexDigit, h2: HexDigit, h3: HexDigit)

  datatype Json =
    | Scalar(head: ScalarByte, tail: seq<ScalarByte>)
    | Str(items: seq<StringItem>)
    | Arr(elems: seq<Json>)
    | Obj(members: seq<Member>)

  datatype Member = Member(name: seq<StringItem>, value: Json)

  function ItemText(item: StringItem): bytes {
    match item
    case Plain(b) => [b]
    case Short(c) => [0x5C, c]
    case Unicode(h0, h1, h2, h3) => [0x5C as byte, 0x75, h0, h1, h2, h3]
  }

  function ItemsText(items: seq<StringItem>): bytes {
    if items == [] then [] else ItemText(items[0]) + ItemsText(items[1..])
  }

  function StringText(items: seq<StringItem>): bytes {
    [0x22] + ItemsText(items) + [0x22]
  }

  function Text(v: Json): bytes
    decreases v, 1
  {
    match v
    case Scalar(head, tail) => [head] + tail
    case Str(items) => StringText(items)
    case Arr(elems) => [0x5B] + ElemsText(elems) + [0x5D]
    case Obj(members) => [0x7B] + MembersText(members) + [0x7D]
  }

  function ElemsText(elems: seq<Json>): bytes
    decreases elems, 0
  {
    if elems == [] then []
    else Text(elems[0]) + (if |elems| == 1 then [] else [0x2C] + ElemsText(elems[1..]))
  }

  function MembersText(members: seq<Member>): bytes
    decreases members, 0
  {
    if members == [] then []
    else
      var m := members[0];
      StringText(m.name) + [0x3A] + Text(m.value)
      + (if |members| == 1 then [] else [0x2C] + MembersText(members[1..]))
  }

  /** `incremental_serialize`: a newline is added in line mode, and to whatever does not close itself. */
  function IncrementalSerialize(text: bytes, useLines: bool): bytes {
    if useLines || text == [] || !IsOpening(text[0]) then text + [NEWLINE] else text
  }

  /** In line mode, and behind bare scalars, there is a line feed; objects, arrays and strings stand for themselves. */
  lemma SerializedAs(v: Json, useLines: bool)
    ensures IncrementalSerialize(Text(v), useLines) == if useLines || v.Scalar? then Text(v) + [0x0A] else Text(v)
  {
    match v
    case Scalar(head, _) => assert Text(v)[0] == head;
    case Str(_) => assert Text(v)[0] == 0x22;
    case Arr(_) => assert Text(v)[0] == 0x5B;
    case Obj(_) => assert Text(v)[0] == 0x7B;
  }

  /** The text of an object with the name `a}` and the value `[1,"\""]`, byte by byte. */
  lemma TextExample()
    ensures var v := Obj([Member([Plain(0x61), Plain(0x7D)], Arr([Scalar(0x31, []), Str([Short(0x22)])]))]);
            Text(v) == [0x7B, 0x22, 0x61, 0x7D, 0x22, 0x3A, 0x5B, 0x31, 0x2C, 0x22, 0x5C, 0x22, 0x22, 0x5D, 0x7D]
  {
    var name: seq<StringItem> := [Plain(0x61), Plain(0x7D)];
    var elems := [Scalar(0x31, []), Str([Short(0x22)])];
    ElementsExample();
    hide ElemsText;
    assert name[1..] == [Plain(0x7D)] && name[1..][1..] == [];
    assert ItemsText(name[1..]) == [0x7D] && ItemsText(name) == [0x61, 0x7D];
    var members := [Member(name, Arr(elems))];
    assert MembersText(members) == [0x22, 0x61, 0x7D, 0x22, 0x3A, 0x5B, 0x31, 0x2C, 0x22, 0x5C, 0x22, 0x22, 0x5D];
  }

  lemma ElementsExample()
    ensures ElemsText([Scalar(0x31, []), Str([Short(0x22)])]) == [0x31, 0x2C, 0x22, 0x5C, 0x22, 0x22]
  {
    var quote: seq<StringItem> := [Short(0x22)];
    assert quote[1..] == [] && ItemsText(quote) == [0x5C, 0x22];
    var elems := [Scalar(0x31, []), Str(quote)];
    assert elems[1..] == [Str(quote)];
    assert ElemsText(elems[1..]) == [0x22, 0x5C, 0x22, 0x22];
  }

  // ----- scanning a text leaves the scanner where it was -----

  /** The state after `s`, unless the frame closes inside `s`. */
  function Fold(open: byte, st: State, s: bytes): Option<State>
    requires IsOpening(open)
    decreases |s|
  {
    if s == [] then Some(st)
    else
      var st' := Advance(open, st, s[0]);
      if st'.depth == 0 then None else Fold(open, st', s[1..])
  }

  lemma {:induction false} FoldConcat(open: byte, st: State, a: bytes, b: bytes)
    requires IsOpening(open)
    ensures Fold(open, st, a + b)
         == match Fold(open, st, a)
            case None => None
            case Some(t) => Fold(open, t, b)
    decreases |a|
  {
    if a == [] {
      assert a + b == b;
    } else {
      assert (a + b)[1..] == a[1..] + b;
      FoldConcat(open, Advance(open, st, a[0]), a[1..], b);
    }
  }

  /** `s` changes nothing at depth `n`, inside or outside a string. */
  ghost predicate Neutral(open: byte, n: int, quoted: bool, s: bytes)
    requires IsOpening(open)
  {
    Fold(open, State(n, quoted, false), s) == Some(State(n, quoted, false))
  }

  lemma NeutralConcat(open: byte, n: int, quoted: bool, a: bytes, b: bytes)
    requires IsOpening(open) && Neutral(open, n, quoted, a) && Neutral(open, n, quoted, b)
    ensures Neutral(open, n, quoted, a + b)
  {
    FoldConcat(open, State(n, quoted, false), a, b);
  }

  lemma NeutralByte(open: byte, n: int, quoted: bool, b: byte)
    requires IsOpening(open) && n >= 1 && b != ESCAPE && b != QUOTE
    requires quoted || (b != open && b != Closing(open))
    ensures Neutral(open, n, quoted, [b])
  {
    assert [b][1..] == [];
  }

  lemma NeutralItem(open: byte, n: int, item: StringItem)
    requires IsOpening(open) && n >= 1
    ensures Neutral(open, n, true, ItemText(item))
  {
    match item
    case Plain(b) => NeutralByte(open, n, true, b);
    case Short(c) => NeutralEscape(open, n, c);
    case Unicode(h0, h1, h2, h3) =>
      NeutralEscape(open, n, 0x75);
      NeutralByte(open, n, true, h0);
      NeutralByte(open, n, true, h1);
      NeutralByte(open, n, true, h2);
      NeutralByte(open, n, true, h3);
      NeutralConcat(open, n, true, [ESCAPE, 0x75], [h0]);
      NeutralConcat(open, n, true, [ESCAPE, 0x75] + [h0], [h1]);
      NeutralConcat(open, n, true, [ESCAPE, 0x75] + [h0] + [h1], [h2]);
      NeutralConcat(open, n, true, [ESCAPE, 0x75] + [h0] + [h1] + [h2], [h3]);
      assert ItemText(item) == [ESCAPE, 0x75] + [h0] + [h1] + [h2] + [h3];
  }

  lemma NeutralEscape(open: byte, n: int, c: byte)
    requires IsOpening(open) && n >= 1
    ensures Neutral(open, n, true, [ESCAPE, c])
  {
    assert [ESCAPE, c][1..] == [c] && [c][1..] == [];
    assert Fold(open, State(n, true, true), [c]) == Some(State(n, true, false));
  }

  lemma {:induction false} NeutralItems(open: byte, n: int, items: seq<StringItem>)
    requires IsOpening(open) && n >= 1
    ensures Neutral(open, n, true, ItemsText(items))
  {
    if items != [] {
      NeutralItem(open, n, items[0]);
      NeutralItems(open, n, items[1..]);
      NeutralConcat(open, n, true, ItemText(items[0]), ItemsText(items[1..]));
    }
  }

  /** Inside an object or an array a string changes nothing, whatever brackets are in it. */
  lemma NeutralString(open: byte, n: int, items: seq<StringItem>)
    requires (open == LEFT_BRACE || open == LEFT_BRACKET) && n >= 1
    ensures Neutral(open, n, false, StringText(items))
  {
    var inner := ItemsText(items);
    var outside := State(n, false, false);
    assert [QUOTE][1..] == [];
    NeutralItems(open, n, items);
    FoldConcat(open, outside, [QUOTE], inner);
    FoldConcat(open, outside, [QUOTE] + inner, [QUOTE]);
  }

  lemma {:induction false} NeutralScalar(open: byte, n: int, s: seq<ScalarByte>)
    requires (open == LEFT_BRACE || open == LEFT_BRACKET) && n >= 1
    ensures Neutral(open, n, false, s)
  {
    if s != [] {
      NeutralByte(open, n, false, s[0]);
      NeutralScalar(open, n, s[1..]);
      NeutralConcat(open, n, false, [s[0]], s[1..]);
      assert s == [s[0]] + s[1..];
    }
  }

  /** `left + inner + right` for a pair of brackets of either kind. */
  lemma NeutralBracket(open: byte, n: int, left: byte, inner: bytes)
    requires (open == LEFT_BRACE || open == LEFT_BRACKET) && n >= 1
    requires left == LEFT_BRACE || left == LEFT_BRACKET
    requires Neutral(open, if left == open then n + 1 else n, false, inner)
    ensures Neutral(open, n, false, [left] + inner + [Closing(left)])
  {
    var st := State(n, false, false);
    assert [left][1..] == [] && [Closing(left)][1..] == [];
    FoldConcat(open, st, [left], inner);
    FoldConcat(open, st, [left] + inner, [Closing(left)]);
  }

  lemma {:induction false} NeutralText(open: byte, n: int, v: Json)
    requires (open == LEFT_BRACE || open == LEFT_BRACKET) && n >= 1
    ensures Neutral(open, n, false, Text(v))
    decreases v, 1
  {
    match v
    case Scalar(head, tail) =>
      NeutralScalar(open, n, [head] + tail);
    case Str(items) => NeutralString(open, n, items);
    case Arr(elems) =>
      NeutralElems(open, if open == LEFT_BRACKET then n + 1 else n, elems);
      NeutralBracket(open, n, LEFT_BRACKET, ElemsText(elems));
    case Obj(members) =>
      NeutralMembers(open, if open == LEFT_BRACE then n + 1 else n, members);
      NeutralBracket(open, n, LEFT_BRACE, MembersText(members));
  }

  lemma {:induction false} NeutralElems(open: byte, n: int, elems: seq<Json>)
    requires (open == LEFT_BRACE || open == LEFT_BRACKET) && n >= 1
    ensures Neutral(open, n, false, ElemsText(elems))
    decreases elems, 0
  {
    if elems != [] {
      NeutralText(open, n, elems[0]);
      NeutralRest(open, n, Text(elems[0]), ElemsText(elems[1..]), |elems| == 1) by {
        NeutralElems(open, n, elems[1..]);
      }
    }
  }

  lemma {:induction false} NeutralMembers(open: byte, n: int, members: seq<Member>)
    requires (open == LEFT_BRACE || open == LEFT_BRACKET) && n >= 1
    ensures Neutral(open, n, false, MembersText(members))
    decreases members, 0
  {
    if members != [] {
      var m := members[0];
      NeutralString(open, n, m.name);
      NeutralByte(open, n, false, 0x3A);
      NeutralText(open, n, m.value);
      NeutralConcat(open, n, false, StringText(m.name), [0x3A]);
      NeutralConcat(open, n, false, StringText(m.name) + [0x3A], Text(m.value));
      NeutralMembers(open, n, members[1..]);
      NeutralRest(open, n, StringText(m.name) + [0x3A] + Text(m.value), MembersText(members[1..]), |members| == 1);
    }
  }

  lemma NeutralRest(open: byte, n: int, first: bytes, rest: bytes, last: bool)
    requires (open == LEFT_BRACE || open == LEFT_BRACKET) && n >= 1
    requires Neutral(open, n, false, first) && Neutral(open, n, false, rest)
    ensures Neutral(open, n, false, first + (if last then [] else [0x2C] + rest))
  {
    if last {
      assert first + [] == first;
    } else {
      NeutralByte(open, n, false, 0x2C);
      NeutralConcat(open, n, false, [0x2C], rest);
      NeutralConcat(open, n, false, first, [0x2C] + rest);
    }
  }

  // ----- where the texts end -----

  lemma {:induction false} AtFollowsFold(doc: bytes, i: nat, s: bytes, st: State, st': State)
    requires doc != [] && IsOpening(doc[0]) && 1 <= i && i + |s| <= |doc| && doc[i..i + |s|] == s
    requires At(doc, i) == Running(st) && Fold(doc[0], st, s) == Some(st')
    ensures At(doc, i + |s|) == Running(st')
    decreases |s|
  {
    if s != [] {
      assert doc[i] == s[0] && doc[i + 1..i + 1 + |s[1..]|] == s[1..];
      AtFollowsFold(doc, i + 1, s[1..], Advance(doc[0], st, s[0]), st');
    }
  }

  /** Opening byte, neutral body, closing byte: the document ends with its last byte. */
  lemma EndsWithClosing(open: byte, body: bytes)
    requires IsOpening(open) && Neutral(open, 1, open == QUOTE, body)
    ensures DocumentEnd([open] + body + [Closing(open)]) == Some(|body| + 2)
  {
    var doc := [open] + body + [Closing(open)];
    var st := Start(open);
    assert doc[1..1 + |body|] == body;
    AtFollowsFold(doc, 1, body, st, st);
    assert doc[|body| + 1] == Closing(open);
    assert Advance(open, st, Closing(open)).depth == 0;
  }

  predicate Enclosed(v: Json) {
    !v.Scalar?
  }

  lemma EnclosedText(v: Json)
    requires Enclosed(v)
    ensures Text(v) != [] && IsOpening(Text(v)[0]) && DocumentEnd(Text(v)) == Some(|Text(v)|)
  {
    match v
    case Str(items) =>
      NeutralItems(QUOTE, 1, items);
      EndsWithClosing(QUOTE, ItemsText(items));
    case Arr(elems) =>
      NeutralElems(LEFT_BRACKET, 1, elems);
      EndsWithClosing(LEFT_BRACKET, ElemsText(elems));
    case Obj(members) =>
      NeutralMembers(LEFT_BRACE, 1, members);
      EndsWithClosing(LEFT_BRACE, MembersText(members));
  }

  /**
   * The texts that can be framed without lines: enclosed ones up to the limit, bare scalars below it.
   */
  lemma FramedWithoutLines(limit: nat, v: Json)
    requires limit > 0
    ensures Encodable(RawJson(limit), Text(v))
       <==> if Enclosed(v) then |Text(v)| <= limit else |Text(v)| < limit
    ensures Encode(RawJson(limit), Text(v)) == IncrementalSerialize(Text(v), false)
  {
    if Enclosed(v) {
      EnclosedText(v);
    } else {
      assert Text(v)[0] == v.head;
      assert forall i :: 0 <= i < |Text(v)| ==> IsPrintable(Text(v)[i]);
    }
  }

  function Texts(vs: seq<Json>): seq<bytes> {
    if vs == [] then [] else [Text(vs[0])] + Texts(vs[1..])
  }

  /** Everything the sender writes for `vs`. */
  function Sent(vs: seq<Json>, useLines: bool): bytes {
    if vs == [] then [] else IncrementalSerialize(Text(vs[0]), useLines) + Sent(vs[1..], useLines)
  }

  predicate Fits(v: Json, limit: nat, useLines: bool) {
    if useLines || Enclosed(v) then |Text(v)| <= limit else |Text(v)| < limit
  }

  predicate AllFit(vs: seq<Json>, limit: nat, useLines: bool) {
    vs == [] || (Fits(vs[0], limit, useLines) && AllFit(vs[1..], limit, useLines))
  }

  /** No text contains a newline: control characters are escaped in strings and there are no others. */
  predicate OneLine(s: bytes) {
    forall i :: 0 <= i < |s| ==> s[i] >= 0x20
  }

  lemma OneLineConcat(a: bytes, b: bytes)
    requires OneLine(a) && OneLine(b)
    ensures OneLine(a + b)
  {
  }

  lemma {:induction false} ItemsOneLine(items: seq<StringItem>)
    ensures OneLine(ItemsText(items))
  {
    if items != [] {
      ItemsOneLine(items[1..]);
    }
  }

  lemma {:induction false} TextOneLine(v: Json)
    ensures OneLine(Text(v))
    decreases v, 1
  {
    match v
    case Scalar(head, tail) =>
    case Str(items) => ItemsOneLine(items);
    case Arr(elems) => ElemsOneLine(elems);
    case Obj(members) => MembersOneLine(members);
  }

  lemma {:induction false} ElemsOneLine(elems: seq<Json>)
    ensures OneLine(ElemsText(elems))
    decreases elems, 0
  {
    if elems != [] {
      TextOneLine(elems[0]);
      ElemsOneLine(elems[1..]);
    }
  }

  lemma {:induction false} MembersOneLine(members: seq<Member>)
    ensures OneLine(MembersText(members))
    decreases members, 0
  {
    if members != [] {
      var m := members[0];
      ItemsOneLine(m.name);
      TextOneLine(m.value);
      MembersOneLine(members[1..]);
      OneLineConcat(StringText(m.name), [0x3A]);
      OneLineConcat(StringText(m.name) + [0x3A], Text(m.value));
      OneLineConcat(StringText(m.name) + [0x3A] + Text(m.value),
                    if |members| == 1 then [] else [0x2C] + MembersText(members[1..]));
    }
  }

  function SerializerFor(limit: nat, useLines: bool): Serializer {
    if useLines then Separated([NEWLINE], limit, false) else RawJson(limit)
  }

  lemma LineEnds(v: Json)
    ensures Find(Text(v) + [NEWLINE], [NEWLINE], 0) == Some(|Text(v)|)
  {
    TextOneLine(v);
    var s := Text(v) + [NEWLINE];
    assert s[|Text(v)|..|Text(v)| + 1] == [NEWLINE];
    forall i | 0 <= i < |Text(v)| ensures !OccursAt(s, [NEWLINE], i) {
      assert s[i..i + 1][0] == Text(v)[i];
    }
    FindIs(s, [NEWLINE], 0, |Text(v)|);
  }

  lemma FramedByLines(limit: nat, v: Json)
    requires limit > 0
    ensures Encodable(SerializerFor(limit, true), Text(v)) <==> |Text(v)| <= limit
    ensures Encode(SerializerFor(limit, true), Text(v)) == IncrementalSerialize(Text(v), true)
  {
    LineEnds(v);
  }

  lemma {:induction false} SentIsWire(limit: nat, vs: seq<Json>, useLines: bool)
    requires limit > 0 && AllFit(vs, limit, useLines)
    ensures AllEncodable(SerializerFor(limit, useLines), Texts(vs))
    ensures Wire(SerializerFor(limit, useLines), Texts(vs)) == Sent(vs, useLines)
  {
    if vs != [] {
      SentIsWire(limit, vs[1..], useLines);
      assert Texts(vs)[1..] == Texts(vs[1..]);
      if useLines {
        FramedByLines(limit, vs[0]);
      } else {
        FramedWithoutLines(limit, vs[0]);
      }
    }
  }

  /**
   * The JSON round trip: any values that fit, serialized one after the other, cut into any chunks and fed
   * to a consumer in any way: once it starves it has delivered exactly their texts, in order.
   */
  lemma {:induction false} JsonRoundTrip(limit: nat, vs: seq<Json>, useLines: bool, ops: seq<bytes>)
    requires limit > 0 && AllFit(vs, limit, useLines) && Concat(ops) == Sent(vs, useLines)
    requires Starving(RunView(SerializerFor(limit, useLines), EMPTY, ops))
    ensures RunOutput(SerializerFor(limit, useLines), EMPTY, ops)
         == Deliveries(SerializerFor(limit, useLines), Texts(vs))
  {
    hide Text, Texts, Sent, AllFit, Wire, Carries, Deliveries, RunOutput, RunView, AllEncodable, Concat;
    SentIsWire(limit, vs, useLines);
    WireCarries(SerializerFor(limit, useLines), Texts(vs));
    StreamRoundTrip(SerializerFor(limit, useLines), ops, Texts(vs));
  }

  /**
   * Why bare scalars have to be shorter than the limit: one of exactly `limit` bytes is delivered when
   * its newline arrives with it and overruns the limit when the newline comes in the next chunk.
   */
  lemma ScalarAtLimitDependsOnChunks(v: Json)
    requires v.Scalar?
    ensures Emit(RawJson(|Text(v)|), EMPTY, Text(v) + [NEWLINE]) == Some(Delivered(Text(v)))
    ensures Emit(RawJson(|Text(v)|), EMPTY, Text(v)) == Some(Overran(false))
  {
    var s := Text(v);
    assert s[0] == v.head;
    hide FindUnprintable;
    ScalarEnds(s, s + [NEWLINE]);
    SplitAtOnce(s + [NEWLINE], |s|);
    SplitAtOnce(s, |s|);
  }

  lemma ScalarEnds(s: bytes, line: bytes)
    requires line == s + [NEWLINE] && forall i :: 0 <= i < |s| ==> IsPrintable(s[i])
    ensures FindUnprintable(s, 0) == None && FindUnprintable(line, 0) == Some(|s|)
    ensures line[..|s|] == s
  {
    assert !IsPrintable(line[|s|]);
  }
}
