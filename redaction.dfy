/** `filter_datum(fields, redaction, message, separator)`: split the message on the
    separator, then, for each field name in list order, overwrite every segment
    that starts with that name by `name=redaction`, and join the segments again.

    Matching is a raw prefix test on the segment as it stands at that field's
    turn: with field `name`, `names=x` becomes `name=***`, while ` email=b`
    (leading space) and `username=Bob` are left alone. */
module Redaction {
  import opened Strings

  /** The one shape a redacted segment takes. */
  function Masked(field: string, redaction: string): string {
    field + "=" + redaction
  }

  /** What one segment becomes after the outer loop has run over `fields`:
      the turn of the last field looks at the segment as the earlier turns
      left it. */
  function RedactSeg(fields: seq<string>, redaction: string, seg: string): (r: string)
    ensures r == seg || exists f :: f in fields && r == Masked(f, redaction)
    ensures (forall f :: f in fields ==> !StartsWith(seg, f)) ==> r == seg
    decreases |fields|
  {
    if |fields| == 0 then seg
    else
      var init := fields[..|fields| - 1];
      var f := fields[|fields| - 1];
      var prev := RedactSeg(init, redaction, seg);
      assert forall g :: g in init ==> g in fields;
      if StartsWith(prev, f) then Masked(f, redaction) else prev
  }

  /** Every segment of a split message, redacted in place. */
  function RedactAll(fields: seq<string>, redaction: string, parts: seq<string>): seq<string> {
    seq(|parts|, k requires 0 <= k < |parts| => RedactSeg(fields, redaction, parts[k]))
  }

  /** The value `filter_datum` returns: with no fields, the message itself. */
  function Filtered(fields: seq<string>, redaction: string, message: string, separator: string): (r: string)
    requires |separator| > 0
    ensures fields == [] ==> r == message
  {
    var parts := Split(message, separator);
    var out := RedactAll(fields, redaction, parts);
    JoinSplit(message, separator);
    assert fields == [] ==> out == parts;
    Join(out, separator)
  }

  /** `filter_datum`: the list of segments becomes an array that the nested
      loops overwrite in place, field by field and segment by segment. */
  method FilterDatum(fields: seq<string>, redaction: string, message: string, separator: string)
    returns (r: string)
    requires |separator| > 0
    ensures r == Filtered(fields, redaction, message, separator)
  {
    var parts := Split(message, separator);
    var lists := new string[|parts|](k requires 0 <= k < |parts| => parts[k]);
    for i := 0 to |fields|
      invariant forall k :: 0 <= k < lists.Length ==> lists[k] == RedactSeg(fields[..i], redaction, parts[k])
    {
      var field := fields[i];
      assert fields[..i + 1][..i] == fields[..i];
      for j := 0 to lists.Length
        invariant forall k :: 0 <= k < j ==> lists[k] == RedactSeg(fields[..i + 1], redaction, parts[k])
        invariant forall k :: j <= k < lists.Length ==> lists[k] == RedactSeg(fields[..i], redaction, parts[k])
      {
        if StartsWith(lists[j], field) {
          var strin := field + "=" + redaction;
          lists[j] := strin;
        }
      }
    }
    assert fields[..|fields|] == fields;
    assert lists[..] == RedactAll(fields, redaction, parts);
    r := Join(lists[..], separator);
  }

  // ---------------------------------------------------------------------------
  // One segment

  /** The field at index `k` matches the segment at its turn, as the earlier
      turns left it. */
  ghost predicate MatchesAtTurn(fields: seq<string>, redaction: string, seg: string, k: int)
    requires 0 <= k < |fields|
  {
    StartsWith(RedactSeg(fields[..k], redaction, seg), fields[k])
  }

  /** If the field at index `i` matched the segment at its turn and no later
      field matched at its own turn, the segment ends up `fields[i]=redaction`:
      its original key suffix and value are gone. */
  lemma {:induction false} RedactSegLastMatch(fields: seq<string>, redaction: string, seg: string, i: nat)
    requires i < |fields| && MatchesAtTurn(fields, redaction, seg, i)
    requires forall k :: i < k < |fields| ==> !MatchesAtTurn(fields, redaction, seg, k)
    ensures RedactSeg(fields, redaction, seg) == Masked(fields[i], redaction)
    decreases |fields|
  {
    var n := |fields|;
    var init := fields[..n - 1];
    if i == n - 1 {
      assert init == fields[..i];
    } else {
      TurnsOfInit(fields, redaction, seg);
      forall k | i < k < |init|
        ensures !MatchesAtTurn(init, redaction, seg, k)
      {
        assert !MatchesAtTurn(fields, redaction, seg, k);
      }
      assert MatchesAtTurn(init, redaction, seg, i);
      RedactSegLastMatch(init, redaction, seg, i);
      assert !MatchesAtTurn(fields, redaction, seg, n - 1);
    }
  }

  /** The turns of the fields but the last are what they were. */
  lemma TurnsOfInit(fields: seq<string>, redaction: string, seg: string)
    requires |fields| > 0
    ensures forall k :: 0 <= k < |fields| - 1 ==>
      (MatchesAtTurn(fields[..|fields| - 1], redaction, seg, k) <==> MatchesAtTurn(fields, redaction, seg, k))
  {
    var init := fields[..|fields| - 1];
    forall k | 0 <= k < |init|
      ensures MatchesAtTurn(init, redaction, seg, k) <==> MatchesAtTurn(fields, redaction, seg, k)
    {
      assert init[..k] == fields[..k];
    }
  }

  /** If no field matched at its turn, the segment comes out unchanged. */
  lemma {:induction false} RedactSegNoMatch(fields: seq<string>, redaction: string, seg: string)
    requires forall k :: 0 <= k < |fields| ==> !MatchesAtTurn(fields, redaction, seg, k)
    ensures RedactSeg(fields, redaction, seg) == seg
    decreases |fields|
  {
    var n := |fields|;
    if n > 0 {
      var init := fields[..n - 1];
      TurnsOfInit(fields, redaction, seg);
      forall k | 0 <= k < |init|
        ensures !MatchesAtTurn(init, redaction, seg, k)
      {
        assert !MatchesAtTurn(fields, redaction, seg, k);
      }
      RedactSegNoMatch(init, redaction, seg);
      assert !MatchesAtTurn(fields, redaction, seg, n - 1);
    }
  }

  /** An empty field name matches any segment, the empty one included:
      when it comes last, every segment becomes `=redaction`. */
  lemma EmptyFieldLastMatchesAll(fields: seq<string>, redaction: string, seg: string)
    ensures RedactSeg(fields + [""], redaction, seg) == "=" + redaction
  {
    assert (fields + [""])[..|fields|] == fields;
  }

  /** The test is a raw prefix test, not a match on the whole key: a field
      matches any segment that merely begins with it, and the whole segment,
      key included, becomes the mask. */
  lemma PrefixRewritesKey(field: string, rest: string, redaction: string)
    ensures RedactSeg([field], redaction, field + rest) == Masked(field, redaction)
  {
    assert [field][..0] == [];
    assert (field + rest)[..|field|] == field;
  }

  /** A segment with a leading space is matched by no field that does not
      itself start with a space. */
  lemma LeadingSpaceNotMatched(fields: seq<string>, redaction: string, seg: string)
    requires forall f :: f in fields ==> f != "" && f[0] != ' '
    ensures RedactSeg(fields, redaction, " " + seg) == " " + seg
  {
    forall f | f in fields
      ensures !StartsWith(" " + seg, f)
    {
      DiffersAt(" " + seg, f, 0);
    }
  }

  lemma RawPrefixExamples()
    ensures RedactSeg(["name"], "***", "names=x") == "name=***"
    ensures RedactSeg(["name"], "***", "username=Bob") == "username=Bob"
    ensures RedactSeg(["email"], "***", " email=b") == " email=b"
  {
    PrefixRewritesKey("name", "s=x", "***");
    assert "name" + "s=x" == "names=x";
    DiffersAt("username=Bob", "name", 0);
    LeadingSpaceNotMatched(["email"], "***", "email=b");
    assert " " + "email=b" == " email=b";
  }

  /** Two field names of which neither is a prefix of the other. */
  ghost predicate PrefixFree(fields: seq<string>) {
    forall a, b :: a in fields && b in fields && a != b ==> !StartsWith(b, a)
  }

  lemma CommonPrefix(s: string, a: string, b: string)
    requires StartsWith(s, a) && StartsWith(s, b) && |a| <= |b|
    ensures StartsWith(b, a)
  {
    assert b[..|a|] == s[..|b|][..|a|];
  }

  /** A masked segment `f=redaction` starts with no field but `f` itself when
      the fields are prefix-free. */
  lemma MaskedStartsOnlyWithOwnField(fields: seq<string>, redaction: string, f: string, g: string)
    requires PrefixFree(fields) && f in fields && g in fields && f != g
    ensures !StartsWith(Masked(f, redaction), g)
  {
    var m := Masked(f, redaction);
    assert StartsWith(m, f) by { assert m[..|f|] == f; }
    if StartsWith(m, g) {
      if |g| <= |f| {
        CommonPrefix(m, g, f);
      } else {
        CommonPrefix(m, f, g);
      }
    }
  }

  /** With prefix-free field names the order of the turns no longer matters:
      a segment that starts with field `f` becomes `f=redaction`, and a
      segment that starts with none is left alone. */
  lemma {:induction false} RedactSegPrefixFree(fields: seq<string>, redaction: string, seg: string, f: string)
    requires PrefixFree(fields)
    requires f in fields && StartsWith(seg, f)
    ensures RedactSeg(fields, redaction, seg) == Masked(f, redaction)
    decreases |fields|
  {
    var n := |fields|;
    var init := fields[..n - 1];
    var last := fields[n - 1];
    assert fields == init + [last];
    assert PrefixFree(init) by {
      assert forall a :: a in init ==> a in fields;
    }
    var prev := RedactSeg(init, redaction, seg);
    if last == f {
      if f in init {
        RedactSegPrefixFree(init, redaction, seg, f);
        assert StartsWith(prev, f) by { assert prev[..|f|] == f; }
      } else {
        forall g | g in init
          ensures !StartsWith(seg, g)
        {
          assert g in fields && g != f;
          if StartsWith(seg, g) {
            if |g| <= |f| { CommonPrefix(seg, g, f); } else { CommonPrefix(seg, f, g); }
          }
        }
        assert prev == seg;
      }
    } else {
      assert f in init;
      RedactSegPrefixFree(init, redaction, seg, f);
      MaskedStartsOnlyWithOwnField(fields, redaction, f, last);
    }
  }

  lemma StartsWithTrans(s: string, p: string, q: string)
    requires StartsWith(s, p) && StartsWith(p, q)
    ensures StartsWith(s, q)
  {
    assert s[..|q|] == s[..|p|][..|q|];
  }

  /** Two strings that share the prefix `g` agree on starting with any `f`
      no longer than `g`. */
  lemma SharedPrefix(a: string, b: string, g: string, f: string)
    requires StartsWith(a, g) && StartsWith(b, g) && |f| <= |g|
    ensures StartsWith(a, f) <==> StartsWith(b, f)
  {
    assert a[..|f|] == g[..|f|] == b[..|f|];
  }

  /** If some segment comes out of the fold starting with `g`, then every
      segment that starts with `g` comes out starting with `g`. */
  lemma {:induction false} RedactSegKeepsPrefix(fields: seq<string>, redaction: string, x: string, z: string, g: string)
    requires StartsWith(RedactSeg(fields, redaction, x), g) && StartsWith(z, g)
    ensures StartsWith(RedactSeg(fields, redaction, z), g)
    decreases |fields|
  {
    if |fields| > 0 {
      var init := fields[..|fields| - 1];
      var f := fields[|fields| - 1];
      var px := RedactSeg(init, redaction, x);
      var pz := RedactSeg(init, redaction, z);
      var m := Masked(f, redaction);
      assert StartsWith(m, f) by { assert m[..|f|] == f; }
      if StartsWith(px, f) {
        if |g| <= |f| {
          CommonPrefix(m, g, f);
          StartsWithTrans(px, f, g);
          RedactSegKeepsPrefix(init, redaction, x, z, g);
        } else {
          CommonPrefix(m, f, g);
          StartsWithTrans(z, g, f);
          RedactSegKeepsPrefix(init, redaction, x, z, f);
        }
      } else {
        RedactSegKeepsPrefix(init, redaction, x, z, g);
        if |f| <= |g| {
          SharedPrefix(pz, px, g, f);
        } else if StartsWith(pz, f) {
          CommonPrefix(pz, g, f);
          StartsWithTrans(m, f, g);
        }
      }
    }
  }

  /** Redacting a redacted segment again changes nothing, whatever the fields. */
  lemma {:induction false} RedactSegIdempotent(fields: seq<string>, redaction: string, seg: string)
    ensures var once := RedactSeg(fields, redaction, seg);
      RedactSeg(fields, redaction, once) == once
    decreases |fields|
  {
    if |fields| > 0 {
      var init := fields[..|fields| - 1];
      var f := fields[|fields| - 1];
      var p := RedactSeg(init, redaction, seg);
      RedactSegIdempotent(init, redaction, seg);
      if StartsWith(p, f) {
        var m := Masked(f, redaction);
        assert StartsWith(m, f) by { assert m[..|f|] == f; }
        RedactSegKeepsPrefix(init, redaction, seg, m, f);
      }
    }
  }

  /** A segment that starts with some field comes out as the mask of some field. */
  lemma {:induction false} RedactSegStartsThenMasked(fields: seq<string>, redaction: string, seg: string, f: string)
    requires f in fields && StartsWith(seg, f)
    ensures exists g :: g in fields && RedactSeg(fields, redaction, seg) == Masked(g, redaction)
    decreases |fields|
  {
    var init := fields[..|fields| - 1];
    var last := fields[|fields| - 1];
    var p := RedactSeg(init, redaction, seg);
    assert fields == init + [last];
    if StartsWith(p, last) {
      assert RedactSeg(fields, redaction, seg) == Masked(last, redaction);
    } else if f in init {
      RedactSegStartsThenMasked(init, redaction, seg, f);
      var g :| g in init && p == Masked(g, redaction);
      assert g in fields;
    } else {
      assert f == last && p != seg;
      var g :| g in init && p == Masked(g, redaction);
      assert g in fields;
    }
  }

  /** With prefix-free field names, only the set of names matters, not the
      order in which the loop visits them nor repetitions. */
  lemma RedactSegOrderIrrelevant(fields: seq<string>, others: seq<string>, redaction: string, seg: string)
    requires PrefixFree(fields)
    requires forall f :: f in fields <==> f in others
    ensures RedactSeg(fields, redaction, seg) == RedactSeg(others, redaction, seg)
  {
    assert PrefixFree(others);
    if f :| f in fields && StartsWith(seg, f) {
      RedactSegPrefixFree(fields, redaction, seg, f);
      RedactSegPrefixFree(others, redaction, seg, f);
    }
  }

  /** With prefix-free, distinct field names, a field that matches at its turn
      finds the segment as it came in: no earlier turn has masked it. */
  lemma MatchesOriginalSegment(fields: seq<string>, redaction: string, seg: string, k: nat)
    requires PrefixFree(fields)
    requires forall i, j :: 0 <= i < j < |fields| ==> fields[i] != fields[j]
    requires k < |fields| && MatchesAtTurn(fields, redaction, seg, k)
    ensures RedactSeg(fields[..k], redaction, seg) == seg
  {
    forall g | g in fields[..k]
      ensures !StartsWith(Masked(g, redaction), fields[k])
    {
      var i :| 0 <= i < k && fields[i] == g;
      MaskedStartsOnlyWithOwnField(fields, redaction, g, fields[k]);
    }
  }

  /** Without prefix-freeness the order can matter: `a=x`, the mask of `a`,
      starts with the later field `a=x`, which masks it once more. */
  lemma OrderMatters()
    ensures RedactSeg(["a", "a=x"], "x", "a1") == "a=x=x"
    ensures RedactSeg(["a=x", "a"], "x", "a1") == "a=x"
  {
    var ab := ["a", "a=x"];
    var ba := ["a=x", "a"];
    assert ab[..1] == ["a"] && ab[..1][..0] == [];
    assert ba[..1] == ["a=x"] && ba[..1][..0] == [];
    PrefixRewritesKey("a", "1", "x");
    PrefixRewritesKey("a", "=x", "x");
    assert "a" + "1" == "a1" && "a" + "=x" == "a=x";
    assert !StartsWith("a1", "a=x") by { DiffersAt("a1", "a=x", 1); }
  }

  // ---------------------------------------------------------------------------
  // Whole messages

  /** The empty message stays empty when no field name is empty. */
  lemma FilteredEmptyMessage(fields: seq<string>, redaction: string, separator: string)
    requires |separator| > 0
    requires forall f :: f in fields ==> f != ""
    ensures Filtered(fields, redaction, "", separator) == ""
  {
    SplitFree("", separator);
    assert Split("", separator) == [""];
  }

  /** The redacted segments of a message, in their original order and positions:
      segment `k` of the output is segment `k` of the input, unchanged when it
      starts with no field, and `f=redaction` for some field `f` when it starts
      with one. */
  lemma FilteredSegments(fields: seq<string>, redaction: string, message: string, separator: string)
    requires |separator| > 0
    ensures var parts := Split(message, separator);
      var out := RedactAll(fields, redaction, parts);
      Filtered(fields, redaction, message, separator) == Join(out, separator) &&
      |out| == |parts| &&
      forall k :: 0 <= k < |parts| ==>
        ((forall f :: f in fields ==> !StartsWith(parts[k], f)) ==> out[k] == parts[k]) &&
        ((exists f :: f in fields && StartsWith(parts[k], f)) ==>
           exists f :: f in fields && out[k] == Masked(f, redaction))
  {
    var parts := Split(message, separator);
    forall k, f | 0 <= k < |parts| && f in fields && StartsWith(parts[k], f)
      ensures exists g :: g in fields && RedactSeg(fields, redaction, parts[k]) == Masked(g, redaction)
    {
      RedactSegStartsThenMasked(fields, redaction, parts[k], f);
    }
  }

  /** When every masked segment is itself delimited by the separator, splitting
      the output gives back exactly the redacted segments, so the output has as
      many segments as the input. */
  lemma {:induction false} SplitFiltered(fields: seq<string>, redaction: string, message: string, separator: string)
    requires |separator| > 0
    requires forall f :: f in fields ==> Delimited(Masked(f, redaction), separator)
    ensures Split(Filtered(fields, redaction, message, separator), separator)
         == RedactAll(fields, redaction, Split(message, separator))
    ensures |Split(Filtered(fields, redaction, message, separator), separator)|
         == |Split(message, separator)|
  {
    var parts := Split(message, separator);
    var out := RedactAll(fields, redaction, parts);
    SplitPartsDelimited(message, separator);
    forall k | 0 <= k < |out|
      ensures k < |out| - 1 ==> Delimited(out[k], separator)
      ensures k == |out| - 1 ==> Free(out[k], separator)
    {
      if out[k] != parts[k] {
        var f :| f in fields && out[k] == Masked(f, redaction);
        DelimitedIsFree(out[k], separator);
      }
    }
    SplitJoin(out, separator);
  }

  /** For a one-character separator other than `=` it is enough that neither
      the redaction text nor any field name contains that character. */
  lemma SplitFilteredSingleChar(fields: seq<string>, redaction: string, message: string, separator: string)
    requires |separator| == 1 && separator != "="
    requires separator[0] !in redaction
    requires forall f :: f in fields ==> separator[0] !in f
    ensures |Split(Filtered(fields, redaction, message, separator), separator)|
         == |Split(message, separator)|
  {
    forall f | f in fields
      ensures Delimited(Masked(f, redaction), separator)
    {
      SingleCharDelimited(Masked(f, redaction), separator);
    }
    SplitFiltered(fields, redaction, message, separator);
  }

  /** For a longer separator that is not enough: here neither `n` nor `ab`
      contains `aba`, yet the two input segments come out as three, because
      the mask `n=ab` runs on into the separator behind it. */
  lemma OverlappingSeparatorSplitsDifferently()
    ensures |Split("n=1ababa", "aba")| == 2
    ensures Filtered(["n"], "ab", "n=1ababa", "aba") == "n=abababa"
    ensures |Split("n=abababa", "aba")| == 3
  {
    OverlapInput();
    OverlapFiltered();
    OverlapOutput();
  }

  lemma OverlapFiltered()
    requires Split("n=1ababa", "aba") == ["n=1", "ba"]
    ensures Filtered(["n"], "ab", "n=1ababa", "aba") == "n=abababa"
  {
    assert RedactSeg(["n"], "ab", "n=1") == "n=ab" by {
      assert ["n"][..0] == [];
      assert StartsWith("n=1", "n");
    }
    assert RedactSeg(["n"], "ab", "ba") == "ba" by {
      assert ["n"][..0] == [];
      assert "ba"[..1][0] != "n"[0];
    }
    assert RedactAll(["n"], "ab", ["n=1", "ba"]) == ["n=ab", "ba"];
    JoinPair("n=ab", "ba", "aba");
    assert Filtered(["n"], "ab", "n=1ababa", "aba") == "n=ab" + "aba" + "ba";
    OverlapJoinedText();
  }

  lemma OverlapJoinedText()
    ensures "n=ab" + "aba" + "ba" == "n=abababa"
  {
  }

  lemma OverlapInput()
    ensures Split("n=1ababa", "aba") == ["n=1", "ba"]
  {
    var s := "n=1ababa";
    assert FindFrom(s, "aba", 0) == Some(3) by {
      assert s[3..6] == "aba";
      assert s[0..3][0] != 'a' && s[1..4][0] != 'a' && s[2..5][0] != 'a';
      assert FindFrom(s, "aba", 3) == Some(3);
      assert FindFrom(s, "aba", 2) == Some(3);
      assert FindFrom(s, "aba", 1) == Some(3);
    }
    assert s[..3] == "n=1" && s[6..] == "ba";
    assert FindFrom("ba", "aba", 0) == None;
  }

  lemma OverlapOutput()
    ensures Split("n=abababa", "aba") == ["n=", "b", ""]
  {
    var t := "n=abababa";
    OverlapOutputFirst();
    assert t[..2] == "n=" && t[5..] == "baba";
    OverlapOutputRest();
  }

  lemma OverlapOutputFirst()
    ensures FindFrom("n=abababa", "aba", 0) == Some(2)
  {
    var t := "n=abababa";
    assert t[2..5] == "aba";
    assert t[0..3][0] != 'a' && t[1..4][0] != 'a';
    assert FindFrom(t, "aba", 2) == Some(2);
    assert FindFrom(t, "aba", 1) == Some(2);
  }

  lemma OverlapOutputRest()
    ensures Split("baba", "aba") == ["b", ""]
  {
    var u := "baba";
    assert FindFrom(u, "aba", 0) == Some(1) by {
      assert u[1..4] == "aba" && u[0..3][0] != 'a';
      assert FindFrom(u, "aba", 1) == Some(1);
    }
    assert u[..1] == "b" && u[4..] == "";
    assert FindFrom("", "aba", 0) == None;
  }

  /** When the masks are delimited by the separator, filtering an already
      filtered message changes nothing. */
  lemma FilteredIdempotent(fields: seq<string>, redaction: string, message: string, separator: string)
    requires |separator| > 0
    requires forall f :: f in fields ==> Delimited(Masked(f, redaction), separator)
    ensures var once := Filtered(fields, redaction, message, separator);
      Filtered(fields, redaction, once, separator) == once
  {
    var parts := Split(message, separator);
    var out := RedactAll(fields, redaction, parts);
    SplitFiltered(fields, redaction, message, separator);
    forall k | 0 <= k < |out|
      ensures RedactSeg(fields, redaction, out[k]) == out[k]
    {
      RedactSegIdempotent(fields, redaction, parts[k]);
    }
    assert RedactAll(fields, redaction, out) == out;
  }

  /** With prefix-free field names, any listing of the same names gives the same output. */
  lemma FilteredOrderIrrelevant(fields: seq<string>, others: seq<string>, redaction: string,
                                message: string, separator: string)
    requires |separator| > 0
    requires PrefixFree(fields)
    requires forall f :: f in fields <==> f in others
    ensures Filtered(fields, redaction, message, separator) == Filtered(others, redaction, message, separator)
  {
    var parts := Split(message, separator);
    forall k | 0 <= k < |parts|
      ensures RedactSeg(fields, redaction, parts[k]) == RedactSeg(others, redaction, parts[k])
    {
      RedactSegOrderIrrelevant(fields, others, redaction, parts[k]);
    }
    assert RedactAll(fields, redaction, parts) == RedactAll(others, redaction, parts);
  }
}
