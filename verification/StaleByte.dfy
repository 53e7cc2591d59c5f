/**
 * The separator search on a receive buffer cuts its remainder from the whole buffer. When one byte of it is
 * free, that byte is stale: this module says exactly when it does no harm.
 */
module StaleByte {
  import opened Bytes
  import opened Resync

  /** The last `j` bytes of `s` may be the start of `sep`. */
  predicate Candidate(s: bytes, sep: bytes, j: nat) {
    j <= |s| && j <= |sep| && s[|s| - j..] == sep[..j]
  }

  lemma CandidateLength(s: bytes, sep: bytes)
    requires |s| <= |sep|
    ensures var k := |DropToCandidate(s, sep)|;
            && Candidate(s, sep, k) && DropToCandidate(s, sep) == sep[..k]
            && forall j: nat :: Candidate(s, sep, j) ==> j <= k
  {
    hide DropToCandidate;
    LongestCandidate(s, sep);
    var k := |DropToCandidate(s, sep)|;
    forall j: nat | Candidate(s, sep, j) ensures j <= k {
      assert j > k ==> MayStart(s[|s| - j..], sep);
    }
  }

  /** One byte more. */
  lemma LongerCandidate(u: bytes, x: byte, sep: bytes, j: nat)
    requires 0 < j <= |sep|
    ensures Candidate(u + [x], sep, j) <==> Candidate(u, sep, j - 1) && sep[j - 1] == x
  {
    if j <= |u| + 1 {
      var tail := u[|u| - (j - 1)..];
      assert (u + [x])[|u| + 1 - j..] == tail + [x];
      assert sep[..j] == sep[..j - 1] + [sep[j - 1]];
      if tail + [x] == sep[..j] {
        assert tail == (tail + [x])[..j - 1] == sep[..j - 1];
        assert x == (tail + [x])[j - 1];
      }
    }
  }

  /** A string that starts with itself, shifted by one byte, repeats a single byte. */
  lemma {:induction false} Repeats(sep: bytes, m: nat, x: byte)
    requires 0 < m <= |sep| && sep[m - 1] == x
    requires forall i :: 0 <= i < m - 1 ==> sep[i] == sep[i + 1]
    ensures forall i :: 0 <= i < m ==> sep[i] == x
    decreases m
  {
    if m > 1 {
      Repeats(sep, m - 1, x);
    }
  }

  /** `x` changes nothing: either no separator has begun and none begins with it, or it repeats what has begun. */
  predicate Harmless(x: byte, sep: bytes, m: nat)
    requires m < |sep|
  {
    if m == 0 then x != sep[0]
    else x != sep[m] && forall i :: 0 <= i < m ==> sep[i] == x
  }

  /** `m` bytes of a separator have been received; is that still so with `x` behind them? */
  lemma SameLengthIff(u: bytes, x: byte, sep: bytes)
    requires |sep| == |u| + 1 >= 2
    ensures var m := |DropToCandidate(u, sep)|;
            var kept := if u + [x] == sep then [] else DropToCandidate(u + [x], sep);
            && m < |sep|
            && (|kept| == m <==> Harmless(x, sep, m))
  {
    hide DropToCandidate;
    var m := |DropToCandidate(u, sep)|;
    CandidateLength(u, sep);
    if u + [x] == sep {
      assert sep[..|u|] == u && u[0..] == u;
      assert Candidate(u, sep, |u|) && sep[|u|] == x;
    } else {
      var k := |DropToCandidate(u + [x], sep)|;
      CandidateLength(u + [x], sep);
      if k > 0 {
        LongerCandidate(u, x, sep, k);
      }
      LongerCandidate(u, x, sep, m + 1);
      if m > 0 {
        ShorterCandidate(u, x, sep, m);
      }
    }
  }

  lemma ShorterCandidate(u: bytes, x: byte, sep: bytes, m: nat)
    requires 0 < m < |sep| && Candidate(u, sep, m)
    ensures Candidate(u + [x], sep, m) <==> forall i :: 0 <= i < m ==> sep[i] == x
  {
    LongerCandidate(u, x, sep, m);
    var tail := u[|u| - m..];
    assert u[|u| - (m - 1)..] == tail[1..];
    assert forall i :: 0 <= i < m ==> tail[i] == sep[i];
    if Candidate(u, sep, m - 1) && sep[m - 1] == x {
      forall i | 0 <= i < m - 1 ensures sep[i] == sep[i + 1] {
        assert tail[1..][i] == sep[..m - 1][i];
      }
      Repeats(sep, m, x);
    }
  }

  /** The bytes behind the valid ones do no harm to what an overrun keeps. */
  predicate NoHarm(b: bytes, n: nat, sep: bytes)
    requires sep != [] && |sep| <= n <= |b| <= n + 1
  {
    n == |b| || |sep| == 1 || Harmless(b[n], sep, |Tail(b[..n], sep)|)
  }

  lemma KeepsTailIff(b: bytes, n: nat, sep: bytes)
    requires sep != [] && |sep| <= n <= |b| <= n + 1
    ensures Remaining(b, n + 1 - |sep|, sep) == Tail(b[..n], sep) <==> NoHarm(b, n, sep)
  {
    hide Remaining, Tail, Harmless;
    var t := b[..n];
    if n == |b| {
      assert t == b;
    } else {
      assert b == t + [b[n]];
      OneStaleByte(t, b[n], sep);
    }
  }

  lemma OneStaleByte(t: bytes, x: byte, sep: bytes)
    requires sep != [] && |sep| <= |t|
    ensures Remaining(t + [x], |t| + 1 - |sep|, sep) == Tail(t, sep)
       <==> |sep| == 1 || Harmless(x, sep, |Tail(t, sep)|)
  {
    hide DropToCandidate, Tail, Harmless, Remaining, Candidate;
    var u := t[|t| + 1 - |sep|..];
    DropFromPrefix(t, [x], |t| + 1 - |sep|);
    TailIs(t, sep, u);
    RemainingIs(t + [x], |t| + 1 - |sep|, u + [x], sep);
    CandidateLength(u, sep);
    if |sep| == 1 {
      OneByte(x, sep);
      assert u == [];
    } else {
      CandidateLength(u + [x], sep);
      SameLengthIff(u, x, sep);
    }
  }

  lemma TailIs(t: bytes, sep: bytes, u: bytes)
    requires sep != [] && |sep| <= |t| && u == t[|t| + 1 - |sep|..]
    ensures Tail(t, sep) == DropToCandidate(u, sep)
  {
  }

  lemma RemainingIs(buffer: bytes, consumed: nat, rem: bytes, sep: bytes)
    requires consumed <= |buffer| && rem == buffer[consumed..] && |rem| == |sep| > 0
    ensures Remaining(buffer, consumed, sep) == if rem == sep then [] else DropToCandidate(rem, sep)
  {
  }

  lemma OneByte(x: byte, sep: bytes)
    requires |sep| == 1
    ensures DropToCandidate([], sep) == []
    ensures [x] != sep ==> DropToCandidate([x], sep) == []
  {
    assert sep[..1] == sep && [x][1..] == [];
  }

  /** For CRLF: the last valid byte is a carriage return if and only if the stale byte is one. */
  lemma CrlfNoHarmIff(b: bytes, n: nat)
    requires 2 <= n && |b| == n + 1
    ensures NoHarm(b, n, [0x0D, 0x0A]) <==> (b[n - 1] == 0x0D <==> b[n] == 0x0D)
  {
    var crlf: bytes := [0x0D, 0x0A];
    var u := b[..n][n - 1..];
    assert u == [b[n - 1]] && crlf[..1] == [0x0D] && u[1..] == [];
    assert |Tail(b[..n], crlf)| == if b[n - 1] == 0x0D then 1 else 0;
  }
}
