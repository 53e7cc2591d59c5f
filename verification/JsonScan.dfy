/**
 * Where one JSON document ends in a byte stream.
 *
 * `DocumentEnd` is the reference: a single left-to-right pass over all the bytes. `Scanner` is the
 * resumable search of `_JSONParser`, which looks for tokens, carries its counters from one chunk to the
 * next and backs up over trailing backslashes before it goes on.
 */
module JsonScan {
  import opened Options
  import opened Bytes

  const QUOTE: byte := 0x22
  const ESCAPE: byte := 0x5C
  const LEFT_BRACE: byte := 0x7B
  const RIGHT_BRACE: byte := 0x7D
  const LEFT_BRACKET: byte := 0x5B
  const RIGHT_BRACKET: byte := 0x5D

  predicate IsWhitespace(b: byte) {
    b == 0x20 || b == 0x09 || b == 0x0A || b == 0x0D
  }

  predicate IsPrintable(b: byte) {
    0x20 <= b <= 0x7E
  }

  predicate IsOpening(b: byte) {
    b == LEFT_BRACE || b == LEFT_BRACKET || b == QUOTE
  }

  function Closing(open: byte): byte
    requires IsOpening(open)
  {
    if open == LEFT_BRACE then RIGHT_BRACE else if open == LEFT_BRACKET then RIGHT_BRACKET else QUOTE
  }

  /** End of the run of whitespace that starts at `from`. */
  function SkipWhitespace(s: bytes, from: nat): (r: nat)
    requires from <= |s|
    ensures from <= r <= |s|
    ensures r < |s| ==> !IsWhitespace(s[r])
    decreases |s| - from
  {
    if from < |s| && IsWhitespace(s[from]) then SkipWhitespace(s, from + 1) else from
  }

  lemma {:induction false} SkipsWhitespace(s: bytes, from: nat)
    requires from <= |s|
    ensures forall i :: from <= i < SkipWhitespace(s, from) ==> IsWhitespace(s[i])
    decreases |s| - from
  {
    if from < |s| && IsWhitespace(s[from]) {
      SkipsWhitespace(s, from + 1);
    }
  }

  /** First byte at or after `from` that is not printable ASCII: it ends a bare scalar. */
  function FindUnprintable(s: bytes, from: nat): (r: Option<nat>)
    ensures r.Some? ==> from <= r.value < |s| && !IsPrintable(s[r.value])
    ensures r.Some? ==> forall i :: from <= i < r.value ==> IsPrintable(s[i])
    ensures r.None? ==> forall i :: from <= i < |s| ==> IsPrintable(s[i])
    decreases |s| - from
  {
    if from >= |s| then None
    else if !IsPrintable(s[from]) then Some(from)
    else FindUnprintable(s, from + 1)
  }

  // ----- the one-pass reference -----

  /** What a left-to-right pass over an enclosed document has to remember. */
  datatype State = State(depth: int, quoted: bool, escaped: bool)

  datatype Progress = Ended(end: nat) | Running(st: State)

  function Start(open: byte): State {
    State(1, open == QUOTE, false)
  }

  function Advance(open: byte, st: State, b: byte): State
    requires IsOpening(open)
  {
    if st.escaped then st.(escaped := false)
    else if b == ESCAPE then st.(escaped := true)
    else if b == QUOTE then
      State(if open == QUOTE then st.depth - 1 else st.depth, !st.quoted, false)
    else if st.quoted then st
    else if b == Closing(open) then st.(depth := st.depth - 1)
    else if b == open then st.(depth := st.depth + 1)
    else st
  }

  /** Progress after the first `i` bytes of a document that starts with an opening byte. */
  function At(doc: bytes, i: nat): (r: Progress)
    requires doc != [] && IsOpening(doc[0]) && 1 <= i <= |doc|
    ensures r.Ended? ==> 2 <= r.end <= i
    ensures r.Running? ==> r.st.depth >= 1
  {
    if i == 1 then Running(Start(doc[0]))
    else
      match At(doc, i - 1)
      case Ended(e) => Ended(e)
      case Running(st) =>
        var st' := Advance(doc[0], st, doc[i - 1]);
        if st'.depth == 0 then Ended(i) else Running(st')
  }

  function EnclosedEnd(doc: bytes): (r: Option<nat>)
    requires doc != [] && IsOpening(doc[0])
    ensures r.Some? ==> 2 <= r.value <= |doc|
  {
    match At(doc, |doc|)
    case Ended(e) => Some(e)
    case Running(_) => None
  }

  /** End of the document that starts at the first byte of `doc`, if it is in sight. */
  function DocumentEnd(doc: bytes): (r: Option<nat>)
    requires doc != []
    ensures r.Some? ==> r.value <= |doc|
  {
    if IsOpening(doc[0]) then EnclosedEnd(doc) else FindUnprintable(doc, 0)
  }

  lemma {:induction false} AtInPrefix(doc: bytes, c: bytes, i: nat)
    requires doc != [] && IsOpening(doc[0]) && 1 <= i <= |doc|
    ensures At(doc + c, i) == At(doc, i)
  {
    if i > 1 {
      AtInPrefix(doc, c, i - 1);
    }
  }

  lemma {:induction false} AtStaysEnded(doc: bytes, i: nat, j: nat)
    requires doc != [] && IsOpening(doc[0]) && 1 <= i <= j <= |doc|
    requires At(doc, i).Ended?
    ensures At(doc, j) == At(doc, i)
  {
    if i < j {
      AtStaysEnded(doc, i, j - 1);
    }
  }

  lemma {:induction false} AtEndsWhere(doc: bytes, i: nat)
    requires doc != [] && IsOpening(doc[0]) && 1 <= i <= |doc|
    requires At(doc, i).Ended?
    ensures At(doc, At(doc, i).end) == At(doc, i)
  {
    if i > 1 && At(doc, i - 1).Ended? {
      AtEndsWhere(doc, i - 1);
    }
  }

  /** The end of a document does not depend on the bytes behind it. */
  lemma DocumentEndStable(doc: bytes, c: bytes)
    requires doc != [] && DocumentEnd(doc).Some?
    ensures DocumentEnd(doc + c) == DocumentEnd(doc)
  {
    if IsOpening(doc[0]) {
      AtInPrefix(doc, c, |doc|);
      AtStaysEnded(doc + c, |doc|, |doc + c|);
    } else {
      var e := FindUnprintable(doc, 0).value;
      var r := FindUnprintable(doc + c, 0);
      assert (doc + c)[e] == doc[e];
      assert r.Some? && r.value <= e;
      assert (doc + c)[r.value] == doc[r.value];
    }
  }

  /** A document that is not finished yet ends behind the bytes seen so far, or at a byte to come. */
  lemma DocumentEndLater(doc: bytes, c: bytes)
    requires doc != [] && DocumentEnd(doc).None? && DocumentEnd(doc + c).Some?
    ensures DocumentEnd(doc + c).value >= |doc|
    ensures IsOpening(doc[0]) ==> DocumentEnd(doc + c).value > |doc|
  {
    if IsOpening(doc[0]) {
      var e := DocumentEnd(doc + c).value;
      AtInPrefix(doc, c, |doc|);
      if e <= |doc| {
        AtEndsWhere(doc + c, |doc + c|);
        AtStaysEnded(doc + c, e, |doc|);
        assert false;
      }
    } else {
      UnprintableLater(doc, c, FindUnprintable(doc + c, 0).value);
    }
  }

  lemma UnprintableLater(doc: bytes, c: bytes, e: nat)
    requires FindUnprintable(doc, 0).None? && e < |doc + c| && !IsPrintable((doc + c)[e])
    ensures e >= |doc|
  {
  }

  // ----- the token search of the implementation -----

  predicate IsFrameToken(open: byte, b: byte)
    requires IsOpening(open)
  {
    b == open || b == Closing(open) || b == QUOTE
  }

  /** Length of the token at `i`: an escape sequence, a bracket or a quote; 0 when there is none. */
  function TokenLength(s: bytes, open: byte, i: nat): (n: nat)
    requires IsOpening(open) && i < |s|
    ensures i + n <= |s|
  {
    if s[i] == ESCAPE then if i + 1 < |s| then 2 else 0
    else if IsFrameToken(open, s[i]) then 1
    else 0
  }

  /** Leftmost token at or after `from`, as the compiled pattern of this frame finds it. */
  function NextToken(s: bytes, open: byte, from: nat): (r: Option<nat>)
    requires IsOpening(open)
    ensures r.Some? ==> from <= r.value < |s| && TokenLength(s, open, r.value) > 0
    ensures r.Some? ==> forall i :: from <= i < r.value ==> TokenLength(s, open, i) == 0
    ensures r.None? ==> forall i :: from <= i < |s| ==> TokenLength(s, open, i) == 0
    decreases |s| - from
  {
    if from >= |s| then None
    else if TokenLength(s, open, from) > 0 then Some(from)
    else NextToken(s, open, from + 1)
  }

  /** Bytes between two tokens change nothing. */
  lemma {:induction false} BetweenTokens(doc: bytes, i: nat, j: nat, st: State)
    requires doc != [] && IsOpening(doc[0]) && 1 <= i <= j < |doc|
    requires !st.escaped && At(doc, i) == Running(st)
    requires forall k :: i <= k < j ==> TokenLength(doc, doc[0], k) == 0
    ensures At(doc, j) == Running(st)
  {
    if i < j {
      BetweenTokens(doc, i, j - 1, st);
      assert TokenLength(doc, doc[0], j - 1) == 0;
      assert Advance(doc[0], st, doc[j - 1]) == st;
    }
  }

  /** A token of two bytes is an escape sequence and changes nothing either. */
  lemma OverEscape(doc: bytes, j: nat, st: State)
    requires doc != [] && IsOpening(doc[0]) && 1 <= j && j + 1 < |doc| && doc[j] == ESCAPE
    requires !st.escaped && At(doc, j) == Running(st)
    ensures At(doc, j + 2) == Running(st)
  {
    assert At(doc, j + 1) == Running(st.(escaped := true));
  }

  /** After the last token only a dangling backslash is remembered. */
  lemma AfterLastToken(doc: bytes, i: nat, st: State)
    requires doc != [] && IsOpening(doc[0]) && 1 <= i <= |doc|
    requires !st.escaped && At(doc, i) == Running(st)
    requires NextToken(doc, doc[0], i).None?
    ensures At(doc, |doc|).Running?
    ensures At(doc, |doc|).st.depth == st.depth && At(doc, |doc|).st.quoted == st.quoted
  {
    if i < |doc| {
      BetweenTokens(doc, i, |doc| - 1, st);
      assert TokenLength(doc, doc[0], |doc| - 1) == 0;
    }
  }

  /** Backing up over a backslash keeps the depth and the quotes. */
  lemma BackUp(doc: bytes, i: nat, st: State)
    requires doc != [] && IsOpening(doc[0]) && 1 <= i <= |doc|
    requires At(doc, i) == Running(st) && doc[i - 1] == ESCAPE
    ensures i > 1 && At(doc, i - 1).Running?
    ensures At(doc, i - 1).st.depth == st.depth && At(doc, i - 1).st.quoted == st.quoted
  {
  }

  lemma NotEscaped(doc: bytes, i: nat)
    requires doc != [] && IsOpening(doc[0]) && 1 <= i <= |doc|
    requires At(doc, i).Running? && doc[i - 1] != ESCAPE
    ensures !At(doc, i).st.escaped
  {
  }

  /** Effect of a token that starts with `b` on the counters. */
  function AfterToken(open: byte, st: State, b: byte): State
    requires IsOpening(open)
  {
    if b == ESCAPE then st else Advance(open, st, b)
  }

  /** From one token to the end of the next one. */
  lemma OverToken(doc: bytes, pos: nat, st: State)
    requires doc != [] && IsOpening(doc[0]) && 1 <= pos <= |doc|
    requires !st.escaped && At(doc, pos) == Running(st)
    requires NextToken(doc, doc[0], pos).Some?
    ensures var at := NextToken(doc, doc[0], pos).value;
            var stop := at + TokenLength(doc, doc[0], at);
            var st' := AfterToken(doc[0], st, doc[at]);
            if st'.depth == 0 then EnclosedEnd(doc) == Some(stop) else At(doc, stop) == Running(st')
  {
    var at := NextToken(doc, doc[0], pos).value;
    BetweenTokens(doc, pos, at, st);
    if doc[at] == ESCAPE {
      OverEscape(doc, at, st);
    } else if AfterToken(doc[0], st, doc[at]).depth == 0 {
      AtStaysEnded(doc, at + 1, |doc|);
    }
  }

  /** The locals of `_JSONParser.__raw_parse_impl` once the first byte of the document is known. */
  class Scanner {
    const open: byte
    var searchStart: nat
    var depth: int
    var quoted: bool
    /** The part of the document that has been searched. */
    ghost var seen: bytes

    ghost predicate Valid()
      reads this
    {
      && searchStart == |seen|
      && (if IsOpening(open) then
            && seen != [] && seen[0] == open
            && At(seen, |seen|).Running?
            && At(seen, |seen|).st.depth == depth
            && At(seen, |seen|).st.quoted == quoted
          else
            && (seen != [] ==> seen[0] == open)
            && forall i :: 0 <= i < |seen| ==> IsPrintable(seen[i]))
    }

    /** Starts a search at the first byte of a document. */
    constructor (first: byte)
      ensures Valid() && open == first
      ensures seen == if IsOpening(first) then [first] else []
    {
      open := first;
      searchStart := if IsOpening(first) then 1 else 0;
      depth := 1;
      quoted := first == QUOTE;
      seen := if IsOpening(first) then [first] else [];
    }

    /** Searches the bytes of `doc` that have not been searched yet for the end of the document. */
    method Search(doc: bytes) returns (end: Option<nat>)
      requires Valid() && seen <= doc && doc != [] && doc[0] == open
      modifies this
      ensures end == DocumentEnd(doc)
      ensures end.None? ==> Valid() && seen == doc
    {
      if IsOpening(open) {
        end := SearchEnclosed(doc);
      } else {
        end := FindUnprintable(doc, searchStart);
        assert end == FindUnprintable(doc, 0) by {
          UnprintableResumes(doc, searchStart);
        }
        searchStart := |doc|;
        seen := doc;
      }
    }

    method SearchEnclosed(doc: bytes) returns (end: Option<nat>)
      requires Valid() && seen <= doc && doc != [] && doc[0] == open && IsOpening(open)
      modifies this
      ensures end == EnclosedEnd(doc)
      ensures end.None? ==> Valid() && seen == doc
    {
      hide At, NextToken, Advance;
      StepBack(doc);
      var pos := searchStart;
      var token := NextToken(doc, open, pos);
      while token.Some?
        invariant 1 <= pos <= |doc| && token == NextToken(doc, open, pos)
        invariant At(doc, pos) == Running(State(depth, quoted, false))
        decreases |doc| - pos
      {
        OverToken(doc, pos, State(depth, quoted, false));
        var stop := token.value + TokenLength(doc, open, token.value);
        Count(doc[token.value]);
        if depth == 0 {
          return Some(stop);
        }
        pos := stop;
        token := NextToken(doc, open, pos);
      }
      AfterLastToken(doc, pos, State(depth, quoted, false));
      searchStart := |doc|;
      seen := doc;
      end := None;
    }

    /** Before the search goes on, it backs up over the backslashes at the end of the searched bytes. */
    method StepBack(doc: bytes)
      requires Valid() && seen <= doc && doc != [] && doc[0] == open && IsOpening(open)
      modifies this`searchStart
      ensures 1 <= searchStart <= |doc|
      ensures At(doc, searchStart) == Running(State(depth, quoted, false))
    {
      hide Advance;
      assert doc == seen + doc[|seen|..];
      AtInPrefix(seen, doc[|seen|..], |seen|);
      while doc[searchStart - 1] == ESCAPE
        invariant 1 <= searchStart <= |doc|
        invariant At(doc, searchStart).Running?
        invariant At(doc, searchStart).st.depth == depth && At(doc, searchStart).st.quoted == quoted
        decreases searchStart
      {
        BackUp(doc, searchStart, At(doc, searchStart).st);
        searchStart := searchStart - 1;
      }
      NotEscaped(doc, searchStart);
    }

    /** Counts one token that starts with `byte`. */
    method Count(b: byte)
      requires IsOpening(open) && (b == ESCAPE || IsFrameToken(open, b))
      modifies this`depth, this`quoted
      ensures State(depth, quoted, false) == AfterToken(open, State(old(depth), old(quoted), false), b)
    {
      if b == QUOTE {
        quoted := !quoted;
      } else if quoted {
        return;
      }
      if b == Closing(open) {
        depth := depth - 1;
      } else if b == open {
        depth := depth + 1;
      }
    }
  }

  lemma UnprintableResumes(doc: bytes, from: nat)
    requires from <= |doc| && forall i :: 0 <= i < from ==> IsPrintable(doc[i])
    ensures FindUnprintable(doc, from) == FindUnprintable(doc, 0)
  {
    var r := FindUnprintable(doc, 0);
    var r' := FindUnprintable(doc, from);
    if r.Some? && r'.Some? {
      assert !(r.value < r'.value) && !(r'.value < r.value);
    }
  }
}
