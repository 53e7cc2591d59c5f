/** Resynchronisation after a limit overrun: what `LimitOverrunError` keeps of the buffer. */
module Resync {
  import opened Options
  import opened Bytes

  /** `rem[:len(sep)] == sep[:len(rem)]`: nothing in `rem` contradicts that `sep` starts here. */
  predicate MayStart(rem: bytes, sep: bytes) {
    if |rem| <= |sep| then rem == sep[..|rem|] else rem[..|sep|] == sep
  }

  /** `rem` shortened from the front until `sep` may start at its first byte. */
  function DropToCandidate(rem: bytes, sep: bytes): (r: bytes)
    ensures |r| <= |rem|
  {
    if rem == [] || MayStart(rem, sep) then rem else DropToCandidate(rem[1..], sep)
  }

  /** It is the longest suffix at which `sep` may start. */
  lemma {:induction false} LongestCandidate(rem: bytes, sep: bytes)
    ensures var r := DropToCandidate(rem, sep);
            && r == rem[|rem| - |r|..] && MayStart(r, sep)
            && forall k :: 0 <= k < |rem| - |r| ==> !MayStart(rem[k..], sep)
  {
    if rem != [] && !MayStart(rem, sep) {
      LongestCandidate(rem[1..], sep);
      var r := DropToCandidate(rem, sep);
      forall k | 0 <= k < |rem| - |r| ensures !MayStart(rem[k..], sep) {
        if k == 0 {
          assert rem[0..] == rem;
        } else {
          assert rem[1..][k - 1..] == rem[k..];
        }
      }
    }
  }

  /** Bytes kept by `LimitOverrunError(_, buffer, consumed, sep)`. */
  function Remaining(buffer: bytes, consumed: nat, sep: bytes): bytes {
    var rem := if consumed <= |buffer| then buffer[consumed..] else [];
    if sep == [] then rem
    else if sep <= rem then rem[|sep|..]
    else DropToCandidate(rem, sep)
  }

  /** The loop of `LimitOverrunError.__init__`. */
  method LimitOverrunError(buffer: bytes, consumed: nat, separator: bytes) returns (remaining: bytes)
    ensures remaining == Remaining(buffer, consumed, separator)
  {
    remaining := if consumed <= |buffer| then buffer[consumed..] else [];
    ghost var all := remaining;
    if |separator| != 0 {
      if |separator| <= |remaining| && remaining[..|separator|] == separator {
        remaining := remaining[|separator|..];
      } else {
        while remaining != [] && !MayStart(remaining, separator)
          invariant DropToCandidate(remaining, separator) == DropToCandidate(all, separator)
          decreases |remaining|
        {
          remaining := remaining[1..];
        }
      }
    }
  }

  /** An occurrence that starts inside `s` and ends beyond it is announced by the tail of `s`. */
  lemma StraddlingOccurrence(s: bytes, c: bytes, sep: bytes, i: nat)
    requires i <= |s| < i + |sep|
    requires OccursAt(s + c, sep, i)
    ensures MayStart(s[i..], sep)
  {
    assert s[i..] == (s + c)[i..|s|] == (s + c)[i..i + |sep|][..|s| - i];
  }

  lemma OccurrenceMayStart(rem: bytes, c: bytes, sep: bytes, i: nat)
    requires i <= |rem| && OccursAt(rem + c, sep, i)
    ensures MayStart(rem[i..], sep)
  {
    if |rem| < i + |sep| {
      StraddlingOccurrence(rem, c, sep, i);
    } else {
      assert rem[i..][..|sep|] == (rem + c)[i..i + |sep|];
    }
  }

  /** The loop drops no separator, whatever it is given, longer than the separator or not, and whatever follows. */
  lemma {:induction false} LoopKeepsFirstSeparator(rem: bytes, c: bytes, sep: bytes)
    requires sep != []
    ensures var r := DropToCandidate(rem, sep);
            Find(rem + c, sep, 0) == Shift(|rem| - |r|, Find(r + c, sep, 0))
  {
    hide Find, DropToCandidate, OccursAt;
    forall i: nat | i <= |rem| && OccursAt(rem + c, sep, i) ensures MayStart(rem[i..], sep) {
      OccurrenceMayStart(rem, c, sep, i);
    }
    LongestCandidate(rem, sep);
    var k := |rem| - |DropToCandidate(rem, sep)|;
    FindInSuffix(rem + c, k, sep);
    DropFromPrefix(rem, c, k);
  }

  /**
   * The remainder kept when no separator was found loses no future separator: for every continuation
   * `c` the first separator of the kept bytes is the first separator of the whole stream, at the same
   * distance from the end, also when it straddles the cut.
   */
  lemma RemainingKeepsFirstSeparator(s: bytes, c: bytes, sep: bytes)
    requires sep != [] && |s| + 1 >= |sep| && Find(s, sep, 0).None?
    ensures var rem := Remaining(s, |s| + 1 - |sep|, sep);
            && |rem| < |sep| && |rem| <= |s| && rem == s[|s| - |rem|..]
            && Find(s + c, sep, 0) == Shift(|s| - |rem|, Find(rem + c, sep, 0))
  {
    hide Find, OccursAt, DropToCandidate;
    var rem := Tail(s, sep);
    var k := |s| - |rem|;
    forall i: nat | OccursAt(s + c, sep, i) ensures i >= k {
      OccurrenceKept(s, c, sep, i);
    }
    FindInSuffix(s + c, k, sep);
    assert (s + c)[k..] == rem + c;
  }

  /** What is kept of a buffer `s` in which no separator was found. */
  function Tail(s: bytes, sep: bytes): (rem: bytes)
    requires sep != [] && |s| + 1 >= |sep|
    ensures rem == Remaining(s, |s| + 1 - |sep|, sep)
    ensures |rem| < |sep| && |rem| <= |s| && rem == s[|s| - |rem|..]
  {
    LongestCandidate(s[|s| + 1 - |sep|..], sep);
    DropToCandidate(s[|s| + 1 - |sep|..], sep)
  }

  /** No separator starts in the bytes that are dropped. */
  lemma OccurrenceKept(s: bytes, c: bytes, sep: bytes, i: nat)
    requires sep != [] && |s| + 1 >= |sep| && Find(s, sep, 0).None?
    requires OccursAt(s + c, sep, i)
    ensures i >= |s| - |Tail(s, sep)|
  {
    hide Find;
    var from := |s| + 1 - |sep|;
    FindMeans(s, sep, 0);
    assert i >= from by {
      if i < from {
        OccursInPrefix(s, c, sep, i);
      }
    }
    LongestCandidate(s[from..], sep);
    if i <= |s| {
      StraddlingOccurrence(s, c, sep, i);
      assert s[from..][i - from..] == s[i..];
    }
  }
}
