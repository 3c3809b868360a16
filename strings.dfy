/** Python's `str.startswith`, `str.split(sep)` and `sep.join(parts)` on strings,
    for a non-empty separator, with the facts the redaction proofs need:
    joining the split parts gives the string back, and splitting a join gives the
    parts back when no separator occurrence hides inside or across a part. */
module Strings {

  datatype Option<T> = None | Some(value: T)

  /** `s.startswith(p)`: every string starts with the empty string. */
  predicate StartsWith(s: string, p: string) {
    |p| <= |s| && s[..|p|] == p
  }

  /** `sep` occurs in `s` at index `k`. */
  predicate OccursAt(s: string, sep: string, k: int) {
    0 <= k && k + |sep| <= |s| && s[k..k + |sep|] == sep
  }

  /** `sep` does not occur anywhere in `s`. */
  ghost predicate Free(s: string, sep: string) {
    forall k :: !OccursAt(s, sep, k)
  }

  /** Followed by `sep`, the segment `s` ends exactly where that `sep` begins:
      no occurrence of `sep` starts inside `s`, not even one that runs on into
      the separator after it. */
  ghost predicate Delimited(s: string, sep: string) {
    forall k :: 0 <= k < |s| ==> !OccursAt(s + sep, sep, k)
  }

  /** The leftmost occurrence of `sep` in `s` at or after index `k`. */
  function FindFrom(s: string, sep: string, k: nat): (r: Option<nat>)
    requires k <= |s|
    ensures r.Some? ==> k <= r.value && OccursAt(s, sep, r.value)
    ensures r.Some? ==> forall j :: k <= j < r.value ==> !OccursAt(s, sep, j)
    ensures r.None? ==> forall j :: k <= j ==> !OccursAt(s, sep, j)
    decreases |s| - k
  {
    if k + |sep| > |s| then None
    else if s[k..k + |sep|] == sep then Some(k)
    else FindFrom(s, sep, k + 1)
  }

  /** `s.split(sep)`: the text before the leftmost occurrence, then the split of
      the rest after it; a string without `sep` is its own only part. */
  function Split(s: string, sep: string): (parts: seq<string>)
    requires |sep| > 0
    ensures |parts| >= 1
    decreases |s|
  {
    match FindFrom(s, sep, 0)
    case None => [s]
    case Some(i) => [s[..i]] + Split(s[i + |sep|..], sep)
  }

  /** `sep.join(parts)`. */
  function Join(parts: seq<string>, sep: string): string {
    if |parts| == 0 then ""
    else if |parts| == 1 then parts[0]
    else parts[0] + sep + Join(parts[1..], sep)
  }

  /** A string without the separator splits into itself alone; one with it, into more parts. */
  lemma SplitFree(s: string, sep: string)
    requires |sep| > 0
    ensures Split(s, sep) == [s] <==> Free(s, sep)
  {
    var r := FindFrom(s, sep, 0);
    if r.Some? {
      assert |Split(s, sep)| > 1;
      assert !Free(s, sep) by { assert OccursAt(s, sep, r.value); }
    }
  }

  lemma DelimitedIsFree(s: string, sep: string)
    requires |sep| > 0 && Delimited(s, sep)
    ensures Free(s, sep)
  {
    forall k
      ensures !OccursAt(s, sep, k)
    {
      if 0 <= k && k + |sep| <= |s| {
        assert (s + sep)[k..k + |sep|] == s[k..k + |sep|];
        assert !OccursAt(s + sep, sep, k);
      }
    }
  }

  /** With a one-character separator, a segment is delimited exactly when it
      does not contain that character. */
  lemma SingleCharDelimited(s: string, sep: string)
    requires |sep| == 1
    ensures Delimited(s, sep) <==> sep[0] !in s
  {
    if sep[0] in s {
      var k :| 0 <= k < |s| && s[k] == sep[0];
      assert (s + sep)[k..k + 1] == [s[k]];
      assert OccursAt(s + sep, sep, k);
    } else {
      forall k | 0 <= k < |s|
        ensures !OccursAt(s + sep, sep, k)
      {
        assert (s + sep)[k..k + 1] == [s[k]];
      }
    }
  }

  /** Splitting a delimited segment followed by the separator peels that segment off. */
  lemma SplitCons(a: string, sep: string, b: string)
    requires |sep| > 0 && Delimited(a, sep)
    ensures Split(a + sep + b, sep) == [a] + Split(b, sep)
  {
    var s := a + sep + b;
    assert s[|a|..|a| + |sep|] == sep;
    forall j | 0 <= j < |a|
      ensures !OccursAt(s, sep, j)
    {
      assert s[j..j + |sep|] == (a + sep)[j..j + |sep|];
      assert !OccursAt(a + sep, sep, j);
    }
    var r := FindFrom(s, sep, 0);
    assert OccursAt(s, sep, |a|);
    assert r == Some(|a|);
    assert s[..|a|] == a;
    assert s[|a| + |sep|..] == b;
  }

  /** Joining the parts of a split gives the original string back. */
  lemma {:induction false} JoinSplit(s: string, sep: string)
    requires |sep| > 0
    ensures Join(Split(s, sep), sep) == s
    decreases |s|
  {
    var r := FindFrom(s, sep, 0);
    if r.Some? {
      var i := r.value;
      var rest := s[i + |sep|..];
      JoinSplit(rest, sep);
      JoinCons(s[..i], Split(rest, sep), sep);
      assert s[i..i + |sep|] == sep;
      Reassemble(s, i, i + |sep|);
    }
  }

  /** The first part of a split starts with the string's first character
      when no separator starts there. */
  lemma SplitHeadFirstChar(s: string, sep: string)
    requires |sep| > 0 && |s| > 0 && !OccursAt(s, sep, 0)
    ensures |Split(s, sep)[0]| > 0 && Split(s, sep)[0][0] == s[0]
  {
    var r := FindFrom(s, sep, 0);
    if r.Some? {
      assert r.value > 0;
    }
  }

  /** Joining one more part appends a separator and that part. */
  lemma {:induction false} JoinSnoc(parts: seq<string>, x: string, sep: string)
    requires |parts| >= 1
    ensures Join(parts + [x], sep) == Join(parts, sep) + sep + x
    decreases |parts|
  {
    if |parts| > 1 {
      assert (parts + [x])[1..] == parts[1..] + [x];
      JoinSnoc(parts[1..], x, sep);
    } else {
      assert parts + [x] == [parts[0], x];
      JoinPair(parts[0], x, sep);
    }
  }

  /** `s` does not start with `p` when they differ at some index inside both. */
  lemma DiffersAt(s: string, p: string, j: nat)
    requires j < |p| && j < |s| && s[j] != p[j]
    ensures !StartsWith(s, p)
  {
    if |p| <= |s| {
      assert s[..|p|][j] == s[j];
    }
  }

  lemma JoinPair(a: string, b: string, sep: string)
    ensures Join([a, b], sep) == a + sep + b
  {
    assert [a, b][1..] == [b];
  }

  lemma Reassemble(s: string, i: nat, j: nat)
    requires i <= j <= |s|
    ensures s == s[..i] + s[i..j] + s[j..]
  {
  }

  lemma JoinCons(a: string, rest: seq<string>, sep: string)
    requires |rest| >= 1
    ensures Join([a] + rest, sep) == a + sep + Join(rest, sep)
  {
    assert ([a] + rest)[1..] == rest;
  }

  /** Every part of a split except the last is delimited, and the last holds no separator. */
  lemma {:induction false} SplitPartsDelimited(s: string, sep: string)
    requires |sep| > 0
    ensures var parts := Split(s, sep);
      (forall k :: 0 <= k < |parts| - 1 ==> Delimited(parts[k], sep)) &&
      Free(parts[|parts| - 1], sep)
    decreases |s|
  {
    match FindFrom(s, sep, 0)
    case None =>
    case Some(i) =>
      var rest := s[i + |sep|..];
      SplitPartsDelimited(rest, sep);
      var head := s[..i];
      assert head + sep == s[..i + |sep|];
      forall k | 0 <= k < |head|
        ensures !OccursAt(head + sep, sep, k)
      {
        assert !OccursAt(s, sep, k);
        if k + |sep| <= |head| + |sep| {
          assert s[k..k + |sep|] == (head + sep)[k..k + |sep|];
        }
      }
      assert Split(s, sep) == [head] + Split(rest, sep);
  }

  /** Splitting a join gives the parts back when each part but the last is
      delimited and the last holds no separator. */
  lemma {:induction false} SplitJoin(parts: seq<string>, sep: string)
    requires |sep| > 0 && |parts| >= 1
    requires forall k :: 0 <= k < |parts| - 1 ==> Delimited(parts[k], sep)
    requires Free(parts[|parts| - 1], sep)
    ensures Split(Join(parts, sep), sep) == parts
    decreases |parts|
  {
    if |parts| > 1 {
      SplitJoin(parts[1..], sep);
      SplitCons(parts[0], sep, Join(parts[1..], sep));
    }
  }

  /** The first part of a split join is the first part joined, when that part
      ends where the first separator begins. */
  lemma SplitJoinHead(parts: seq<string>, sep: string)
    requires |sep| > 0 && |parts| >= 1
    requires |parts| == 1 ==> Free(parts[0], sep)
    requires |parts| > 1 ==> Delimited(parts[0], sep)
    ensures Split(Join(parts, sep), sep)[0] == parts[0]
  {
    if |parts| > 1 {
      SplitCons(parts[0], sep, Join(parts[1..], sep));
    }
  }
}
