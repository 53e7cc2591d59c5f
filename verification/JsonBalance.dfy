/**
 * Where a JSON document ends, by counting: an independent account of the scan, in the bytes of RFC 8259
 * (sections 2 and 7). Backslashes escape in pairs, unescaped quotation marks open and close strings, and the
 * brackets outside of strings have to balance.
 */
module JsonBalance {
  import opened Options
  import opened Bytes
  import Json = JsonScan

  /** The number of backslashes directly in front of index `i`, the opening byte not included. */
  function Backslashes(doc: bytes, i: nat): nat
    requires i <= |doc|
  {
    if i > 1 && doc[i - 1] == 0x5C then 1 + Backslashes(doc, i - 1) else 0
  }

  predicate Escaped(doc: bytes, i: nat)
    requires i <= |doc|
  {
    Backslashes(doc, i) % 2 == 1
  }

  /** The number of unescaped quotation marks between the opening byte and index `i`. */
  function Quotes(doc: bytes, i: nat): nat
    requires i <= |doc|
  {
    if i <= 1 then 0
    else Quotes(doc, i - 1) + if doc[i - 1] == 0x22 && !Escaped(doc, i - 1) then 1 else 0
  }

  predicate InString(doc: bytes, i: nat)
    requires i <= |doc|
  {
    Quotes(doc, i) % 2 == 1
  }

  /** The number of bytes `b` in front of index `i` that are outside of strings and not escaped. */
  function Brackets(doc: bytes, i: nat, b: byte): nat
    requires i <= |doc|
  {
    if i <= 1 then 0
    else Brackets(doc, i - 1, b)
         + if doc[i - 1] == b && !Escaped(doc, i - 1) && !InString(doc, i - 1) then 1 else 0
  }

  predicate Encloses(open: byte) {
    open == 0x7B || open == 0x5B || open == 0x22
  }

  /** How many brackets, or quotation marks, are open after the first `i` bytes. */
  function Level(doc: bytes, i: nat): int
    requires doc != [] && i <= |doc|
  {
    if doc[0] == 0x22 then 1 - Quotes(doc, i)
    else if doc[0] == 0x7B then 1 + Brackets(doc, i, 0x7B) - Brackets(doc, i, 0x7D)
    else 1 + Brackets(doc, i, 0x5B) - Brackets(doc, i, 0x5D)
  }

  /** The document is open all through its first `i` bytes. */
  predicate OpenUntil(doc: bytes, i: nat)
    requires doc != [] && i <= |doc|
  {
    forall j :: 1 <= j <= i ==> Level(doc, j) > 0
  }

  /** A pass over the first `i` bytes has counted brackets, quotation marks and backslashes. */
  lemma {:induction false} PassCounts(doc: bytes, i: nat)
    requires doc != [] && Encloses(doc[0]) && 1 <= i <= |doc|
    ensures Json.IsOpening(doc[0])
    ensures var p := Json.At(doc, i);
            if OpenUntil(doc, i) then
              && p.Running? && p.st.depth == Level(doc, i) && p.st.escaped == Escaped(doc, i)
              && p.st.quoted == (doc[0] == 0x22 || InString(doc, i))
            else && p.Ended? && p.end <= i && Level(doc, p.end) == 0 && OpenUntil(doc, p.end - 1)
    decreases i
  {
    if i > 1 {
      PassCounts(doc, i - 1);
      assert OpenUntil(doc, i) <==> OpenUntil(doc, i - 1) && Level(doc, i) > 0;
    }
  }

  /**
   * An object, array or string ends where, for the first time, nothing is open any more: for all bytes, well-formed
   * or not.
   */
  lemma {:induction false} EndIsBalance(doc: bytes, e: nat)
    requires doc != [] && Encloses(doc[0])
    ensures Json.DocumentEnd(doc) == Some(e)
       <==> 1 <= e <= |doc| && Level(doc, e) == 0 && OpenUntil(doc, e - 1)
  {
    hide Level, Json.At;
    PassCounts(doc, |doc|);
    if 1 <= e <= |doc| && Level(doc, e) == 0 && OpenUntil(doc, e - 1) {
      assert !OpenUntil(doc, |doc|);
    }
  }

  /** Anything else ends at the first byte that is not printable ASCII: a space is, a tab or a newline is not. */
  lemma {:induction false} EndOfScalar(doc: bytes, e: nat)
    requires doc != [] && !Encloses(doc[0])
    ensures Json.DocumentEnd(doc) == Some(e)
       <==> e < |doc| && !(0x20 <= doc[e] <= 0x7E) && forall i :: 0 <= i < e ==> 0x20 <= doc[i] <= 0x7E
  {
    hide Json.FindUnprintable;
    var r := Json.FindUnprintable(doc, 0);
  }

  /** In front of a document, exactly space, tab, line feed and carriage return are skipped. */
  lemma {:induction false} BlanksAre(s: bytes, k: nat)
    ensures Json.SkipWhitespace(s, 0) == k
       <==> && k <= |s|
            && (forall i :: 0 <= i < k ==> s[i] in {0x20, 0x09, 0x0A, 0x0D})
            && (k < |s| ==> s[k] !in {0x20, 0x09, 0x0A, 0x0D})
  {
    hide Json.SkipWhitespace;
    Json.SkipsWhitespace(s, 0);
    var r := Json.SkipWhitespace(s, 0);
    if k < r {
      assert Json.IsWhitespace(s[k]);
    }
  }

  /** `{"a}":[1]}` ends with its last byte: the brace in the string does not count. */
  lemma ObjectExample()
    ensures var doc: bytes := [0x7B, 0x22, 0x61, 0x7D, 0x22, 0x3A, 0x5B, 0x31, 0x5D, 0x7D];
            Json.DocumentEnd(doc) == Some(10)
  {
    var doc: bytes := [0x7B, 0x22, 0x61, 0x7D, 0x22, 0x3A, 0x5B, 0x31, 0x5D, 0x7D];
    var s := Json.Start(0x7B);
    assert Json.At(doc, 1) == Json.Running(s);
    assert Json.At(doc, 2) == Json.Running(s.(quoted := true));
    assert Json.At(doc, 4) == Json.Running(s.(quoted := true)) by {
      assert Json.At(doc, 3) == Json.Running(s.(quoted := true));
    }
    assert Json.At(doc, 5) == Json.Running(s);
    assert Json.At(doc, 7) == Json.Running(s) by {
      assert Json.At(doc, 6) == Json.Running(s);
    }
    assert Json.At(doc, 9) == Json.Running(s) by {
      assert Json.At(doc, 8) == Json.Running(s);
    }
    assert Json.At(doc, 10) == Json.Ended(10);
  }
}
