/** Byte strings and the first-occurrence search that the framing code is built on. */
module Bytes {
  import opened Options

  newtype byte = x: int | 0 <= x < 256
  type bytes = seq<byte>

  /** `pat` occurs in `s` at index `i`. */
  predicate OccursAt(s: bytes, pat: bytes, i: nat) {
    i + |pat| <= |s| && s[i..i + |pat|] == pat
  }

  /** Index of the first occurrence of `pat` in `s` at or after `from`, as `bytes.find` reports it. */
  function Find(s: bytes, pat: bytes, from: nat): (r: Option<nat>)
    ensures r.Some? ==> from <= r.value && r.value + |pat| <= |s|
    decreases |s| - from
  {
    if from + |pat| > |s| then None
    else if OccursAt(s, pat, from) then Some(from)
    else if from == |s| then None
    else Find(s, pat, from + 1)
  }

  lemma {:induction false} FindMeans(s: bytes, pat: bytes, from: nat)
    ensures match Find(s, pat, from)
            case Some(p) => OccursAt(s, pat, p) && forall i :: from <= i < p ==> !OccursAt(s, pat, i)
            case None => forall i :: from <= i ==> !OccursAt(s, pat, i)
    decreases |s| - from
  {
    if from < |s| && from + |pat| <= |s| && !OccursAt(s, pat, from) {
      FindMeans(s, pat, from + 1);
    }
  }

  lemma FindIs(s: bytes, pat: bytes, from: nat, i: nat)
    requires from <= i && OccursAt(s, pat, i)
    requires forall j :: from <= j < i ==> !OccursAt(s, pat, j)
    ensures Find(s, pat, from) == Some(i)
  {
    hide Find;
    FindMeans(s, pat, from);
  }

  lemma FindNone(s: bytes, pat: bytes, from: nat)
    requires forall j :: from <= j ==> !OccursAt(s, pat, j)
    ensures Find(s, pat, from) == None
  {
    hide Find;
    FindMeans(s, pat, from);
  }

  /** Occurrences that fit in a prefix are exactly the occurrences of the prefix. */
  lemma OccursInPrefix(s: bytes, c: bytes, pat: bytes, i: nat)
    requires i + |pat| <= |s|
    ensures OccursAt(s + c, pat, i) == OccursAt(s, pat, i)
  {
    assert (s + c)[i..i + |pat|] == s[i..i + |pat|];
  }

  /** Dropping a prefix shifts the occurrences behind it. */
  lemma OccursInSuffix(s: bytes, k: nat, pat: bytes, i: nat)
    requires k <= |s|
    ensures OccursAt(s[k..], pat, i) == OccursAt(s, pat, k + i)
  {
    if i + |pat| <= |s| - k {
      assert s[k..][i..i + |pat|] == s[k + i..k + i + |pat|];
    }
  }

  /** Index `i` of a search in a suffix, counted from the start of the whole. */
  function Shift(k: nat, r: Option<nat>): Option<nat> {
    match r
    case None => None
    case Some(i) => Some(k + i)
  }

  /** If nothing occurs before `k`, the search may start from the suffix at `k`. */
  lemma FindInSuffix(s: bytes, k: nat, pat: bytes)
    requires k <= |s|
    requires forall i :: 0 <= i < k ==> !OccursAt(s, pat, i)
    ensures Find(s, pat, 0) == Shift(k, Find(s[k..], pat, 0))
  {
    hide Find, OccursAt;
    forall i: nat ensures OccursAt(s[k..], pat, i) == OccursAt(s, pat, k + i) {
      OccursInSuffix(s, k, pat, i);
    }
    FindMeans(s[k..], pat, 0);
    match Find(s[k..], pat, 0)
    case Some(p) =>
      forall j | 0 <= j < k + p ensures !OccursAt(s, pat, j) {
        if j >= k {
          assert !OccursAt(s[k..], pat, j - k);
        }
      }
      FindIs(s, pat, 0, k + p);
    case None =>
      forall j: nat ensures !OccursAt(s, pat, j) {
        if j >= k {
          assert !OccursAt(s[k..], pat, j - k);
        }
      }
      FindNone(s, pat, 0);
  }

  /** A found occurrence stays the first one whatever arrives next. */
  lemma FindStable(s: bytes, c: bytes, pat: bytes)
    requires Find(s, pat, 0).Some?
    ensures Find(s + c, pat, 0) == Find(s, pat, 0)
  {
    hide Find, OccursAt;
    var p := Find(s, pat, 0).value;
    FindMeans(s, pat, 0);
    OccursInPrefix(s, c, pat, p);
    forall j | 0 <= j < p ensures !OccursAt(s + c, pat, j) {
      OccursInPrefix(s, c, pat, j);
    }
    FindIs(s + c, pat, 0, p);
  }

  /** With no occurrence so far, the first one to come may only start in the last |pat| - 1 bytes. */
  lemma FindResumes(s: bytes, c: bytes, pat: bytes, from: nat)
    requires pat != [] && Find(s, pat, 0).None?
    requires from <= |s| + 1 - |pat| || from == 0
    ensures Find(s + c, pat, 0) == Find(s + c, pat, from)
  {
    hide Find, OccursAt;
    FindMeans(s, pat, 0);
    FindMeans(s + c, pat, from);
    forall j | 0 <= j < from ensures !OccursAt(s + c, pat, j) {
      OccursInPrefix(s, c, pat, j);
    }
    match Find(s + c, pat, from)
    case Some(p) => FindIs(s + c, pat, 0, p);
    case None => FindNone(s + c, pat, 0);
  }

  /** There is nothing new to find when nothing came, or too little for one occurrence. */
  lemma SearchedAlready(before: bytes, chunk: bytes, sep: bytes)
    requires sep != [] && Find(before, sep, 0).None?
    requires |before + chunk| < |sep| || chunk == []
    ensures Find(before + chunk, sep, 0).None?
  {
    if chunk == [] {
      assert before + chunk == before;
    }
  }

  /** An occurrence that fits in a prefix is found in the prefix. */
  lemma FindInPrefix(s: bytes, c: bytes, pat: bytes)
    requires Find(s + c, pat, 0).Some? && Find(s + c, pat, 0).value + |pat| <= |s|
    ensures Find(s, pat, 0) == Find(s + c, pat, 0)
  {
    hide Find, OccursAt;
    var p := Find(s + c, pat, 0).value;
    FindMeans(s + c, pat, 0);
    OccursInPrefix(s, c, pat, p);
    forall j | 0 <= j < p ensures !OccursAt(s, pat, j) {
      OccursInPrefix(s, c, pat, j);
    }
    FindIs(s, pat, 0, p);
  }

  /** Two ways to cut the same bytes: the longer first part starts with the shorter one. */
  lemma CutTwice(t: bytes, future: bytes, a: bytes, rest: bytes)
    requires t + future == a + rest && |a| <= |t|
    ensures t[..|a|] == a && t[|a|..] + future == rest
  {
    assert t[..|a|] == (t + future)[..|a|];
    assert t[|a|..] + future == (t + future)[|a|..];
  }

  lemma DropFromPrefix(t: bytes, future: bytes, k: nat)
    requires k <= |t|
    ensures (t + future)[k..] == t[k..] + future
  {
  }

  lemma Associative(a: bytes, b: bytes, c: bytes)
    ensures (a + b) + c == a + (b + c)
  {
  }

  function Concat(chunks: seq<bytes>): bytes {
    if chunks == [] then [] else chunks[0] + Concat(chunks[1..])
  }

  lemma {:induction false} ConcatParts(a: seq<bytes>, b: seq<bytes>)
    ensures Concat(a + b) == Concat(a) + Concat(b)
    decreases |a|
  {
    if a == [] {
      assert a + b == b;
    } else {
      assert (a + b)[1..] == a[1..] + b;
      ConcatParts(a[1..], b);
    }
  }
}
