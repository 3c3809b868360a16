/** The pieces of `filtered_logger.py` built on `filter_datum`: the default set of
    personal-data fields, the log formatter that redacts every rendered line, and
    the per-row message that `main` builds from a `users` row before filtering it. */
module FilteredLogger {
  import opened Strings
  import opened Redaction

  /** `PII_FIELDS`: the fields redacted by default. */
  const PII_FIELDS: seq<string> := ["name", "email", "phone", "ssn", "password"]

  /** No default field name is a prefix of another, so the default fields give the
      same result in whatever order, or with whatever repetitions, they are listed. */
  lemma PiiFieldsPrefixFree()
    ensures PrefixFree(PII_FIELDS)
  {
    forall a, b | a in PII_FIELDS && b in PII_FIELDS && a != b
      ensures !StartsWith(b, a)
    {
      if a[0] != b[0] {
        DiffersAt(b, a, 0);
      } else {
        DiffersAt(b, a, 1);
      }
    }
  }

  lemma PiiOrderIrrelevant(fields: seq<string>, redaction: string, message: string, separator: string)
    requires |separator| > 0
    requires forall f :: f in fields <==> f in PII_FIELDS
    ensures Filtered(fields, redaction, message, separator)
         == Filtered(PII_FIELDS, redaction, message, separator)
  {
    PiiFieldsPrefixFree();
    FilteredOrderIrrelevant(PII_FIELDS, fields, redaction, message, separator);
  }

  /** With the default fields every matching turn sees the segment as it came
      in, so no mask is ever matched again within one call. */
  lemma PiiMatchesOriginalSegment(seg: string, k: nat)
    requires k < |PII_FIELDS| && MatchesAtTurn(PII_FIELDS, "***", seg, k)
    ensures RedactSeg(PII_FIELDS[..k], "***", seg) == seg
  {
    PiiFieldsPrefixFree();
    MatchesOriginalSegment(PII_FIELDS, "***", seg, k);
  }

  /** `RedactingFormatter`: keeps the field list it was built with and redacts
      every rendered log line with the class's redaction text and separator. */
  class RedactingFormatter {
    static const REDACTION: string := "***"
    static const FORMAT: string := "[HOLBERTON] %(name)s %(levelname)s %(asctime)-15s: %(message)s"
    static const SEPARATOR: string := ";"
    /** The literal text every rendered line starts with. */
    static const HEADER: string := "[HOLBERTON] "

    const fields: seq<string>

    constructor (fields: seq<string>)
      ensures this.fields == fields
    {
      this.fields := fields;
    }

    /** `format`: `rendered` is the line the base formatter produced from the
        record. Its `;`-segments come out redacted one by one, and the first
        segment, which holds the `[HOLBERTON] ` header, is never touched by a
        field name that is non-empty and does not start with `[`. */
    function Format(rendered: string): (line: string)
      ensures (forall f :: f in fields ==> ';' !in f) ==>
        Split(line, SEPARATOR) == RedactAll(fields, REDACTION, Split(rendered, SEPARATOR))
      ensures StartsWith(rendered, HEADER) && (forall f :: f in fields ==> f != "" && f[0] != '[') ==>
        Split(line, SEPARATOR)[0] == Split(rendered, SEPARATOR)[0]
    {
      var line := Filtered(fields, REDACTION, rendered, SEPARATOR);
      FormatSegments(fields, rendered);
      FormatKeepsHeader(fields, rendered);
      line
    }
  }

  lemma FormatSegments(fields: seq<string>, rendered: string)
    ensures (forall f :: f in fields ==> ';' !in f) ==>
      Split(Filtered(fields, "***", rendered, ";"), ";") == RedactAll(fields, "***", Split(rendered, ";"))
  {
    if forall f :: f in fields ==> ';' !in f {
      forall f | f in fields
        ensures Delimited(Masked(f, "***"), ";")
      {
        SingleCharDelimited(Masked(f, "***"), ";");
      }
      SplitFiltered(fields, "***", rendered, ";");
    }
  }

  lemma FormatKeepsHeader(fields: seq<string>, rendered: string)
    ensures StartsWith(rendered, RedactingFormatter.HEADER) && (forall f :: f in fields ==> f != "" && f[0] != '[') ==>
      Split(Filtered(fields, "***", rendered, ";"), ";")[0] == Split(rendered, ";")[0]
  {
    if StartsWith(rendered, RedactingFormatter.HEADER) && (forall f :: f in fields ==> f != "" && f[0] != '[') {
      assert rendered[0] == RedactingFormatter.HEADER[0];
      assert !OccursAt(rendered, ";", 0);
      SplitHeadFirstChar(rendered, ";");
      var parts := Split(rendered, ";");
      var out := RedactAll(fields, "***", parts);
      assert forall f :: f in fields ==> !StartsWith(parts[0], f);
      assert out[0] == parts[0];
      SplitPartsDelimited(rendered, ";");
      SplitJoinHead(out, ";");
    }
  }

  /** The default field names never touch the header segment and contain no `;`. */
  lemma PiiFieldsSuitFormatter()
    ensures forall f :: f in PII_FIELDS ==> f != "" && f[0] != '[' && ';' !in f
  {
  }

  // ---------------------------------------------------------------------------
  // The message `main` builds for each row of `users`

  /** The message for one row, as the source writes it: the backslash that
      continues the string literal joins `password={};` and `ip={}` with no
      space between them. */
  function RowMessage(row: seq<string>): (msg: string)
    requires |row| >= 8
    ensures msg == Join(RowSegments(row), "; ")
  {
    var msg := "name=" + row[0] + "; email=" + row[1] + "; phone=" + row[2] + "; ssn=" + row[3] +
      "; password=" + row[4] + ";ip=" + row[5] + "; last_login=" + row[6] +
      "; user_agent=" + row[7] + "; ";
    RowMessageIsJoin(row, msg);
    msg
  }

  /** The message for one row with `; ` before `ip=` like before every other key. */
  function IntendedRowMessage(row: seq<string>): (msg: string)
    requires |row| >= 8
    ensures msg == Join(IntendedRowSegments(row), "; ")
  {
    var msg := "name=" + row[0] + "; email=" + row[1] + "; phone=" + row[2] + "; ssn=" + row[3] +
      "; password=" + row[4] + "; ip=" + row[5] + "; last_login=" + row[6] +
      "; user_agent=" + row[7] + "; ";
    IntendedRowMessageIsJoin(row, msg);
    msg
  }

  /** No `; ` in `s`, stated on characters. */
  ghost predicate NoSemiSpace(s: string) {
    forall k :: 0 <= k < |s| - 1 ==> !(s[k] == ';' && s[k + 1] == ' ')
  }

  /** `; ` occurs at `k` exactly when the characters there are `;` and a space. */
  lemma SemiSpaceAt(s: string, k: nat)
    requires k + 1 < |s|
    ensures OccursAt(s, "; ", k) <==> s[k] == ';' && s[k + 1] == ' '
  {
    assert s[k..k + 2] == [s[k], s[k + 1]];
  }

  lemma FreeIsNoSemiSpace(v: string)
    requires Free(v, "; ")
    ensures NoSemiSpace(v)
  {
    forall k | 0 <= k < |v| - 1
      ensures !(v[k] == ';' && v[k + 1] == ' ')
    {
      assert !OccursAt(v, "; ", k);
      SemiSpaceAt(v, k);
    }
  }

  lemma NoSemiSpaceDelimited(s: string)
    requires NoSemiSpace(s)
    ensures Delimited(s, "; ")
  {
    var t := s + "; ";
    forall k | 0 <= k < |s|
      ensures !OccursAt(t, "; ", k)
    {
      SemiSpaceAt(t, k);
      if k + 1 < |s| {
        assert t[k] == s[k] && t[k + 1] == s[k + 1];
      } else {
        assert t[k + 1] == ';';
      }
    }
  }

  lemma NoSemiSpaceAppend(x: string, y: string)
    requires NoSemiSpace(x) && NoSemiSpace(y)
    requires |x| == 0 || |y| == 0 || x[|x| - 1] != ';' || y[0] != ' '
    ensures NoSemiSpace(x + y)
  {
    var s := x + y;
    forall k | 0 <= k < |s| - 1
      ensures !(s[k] == ';' && s[k + 1] == ' ')
    {
      if k + 1 < |x| {
        assert s[k] == x[k] && s[k + 1] == x[k + 1];
      } else if k >= |x| {
        assert s[k] == y[k - |x|] && s[k + 1] == y[k + 1 - |x|];
      }
    }
  }

  /** A key ending in `=` followed by a value without `; `. */
  lemma KeyValueNoSemiSpace(key: string, v: string)
    requires |key| > 0 && key[|key| - 1] == '=' && NoSemiSpace(key)
    requires Free(v, "; ")
    ensures NoSemiSpace(key + v)
  {
    FreeIsNoSemiSpace(v);
    NoSemiSpaceAppend(key, v);
  }

  /** The segments of a row message as the source writes it: the password and
      the ip share one segment. */
  function RowSegments(row: seq<string>): seq<string>
    requires |row| >= 8
  {
    ["name=" + row[0], "email=" + row[1], "phone=" + row[2], "ssn=" + row[3],
     "password=" + row[4] + ";ip=" + row[5], "last_login=" + row[6], "user_agent=" + row[7], ""]
  }

  /** The row message is its eight segments with `; ` between them. */
  lemma RowMessageIsJoin(row: seq<string>, msg: string)
    requires |row| >= 8
    requires msg == "name=" + row[0] + "; email=" + row[1] + "; phone=" + row[2] + "; ssn=" + row[3] +
      "; password=" + row[4] + ";ip=" + row[5] + "; last_login=" + row[6] +
      "; user_agent=" + row[7] + "; "
    ensures msg == Join(RowSegments(row), "; ")
  {
    var m1 := "name=" + row[0];
    var m2 := m1 + "; email=" + row[1];
    LiteralSplit(m1, "; email=", "email=", row[1]);
    var m3 := m2 + "; phone=" + row[2];
    LiteralSplit(m2, "; phone=", "phone=", row[2]);
    var m4 := m3 + "; ssn=" + row[3];
    LiteralSplit(m3, "; ssn=", "ssn=", row[3]);
    var m5 := m4 + "; password=" + row[4];
    LiteralSplit(m4, "; password=", "password=", row[4]);
    var m5ip := m5 + ";ip=" + row[5];
    AppendAssoc(m4 + "; " + ("password=" + row[4]), ";ip=", row[5]);
    AppendAssoc(m4 + "; ", "password=" + row[4], ";ip=" + row[5]);
    AppendAssoc("password=" + row[4], ";ip=", row[5]);
    var m6 := m5ip + "; last_login=" + row[6];
    LiteralSplit(m5ip, "; last_login=", "last_login=", row[6]);
    var m7 := m6 + "; user_agent=" + row[7];
    LiteralSplit(m6, "; user_agent=", "user_agent=", row[7]);
    assert msg == m7 + "; ";
    assert m7 + "; " == m7 + "; " + "";
    JoinEight(RowSegments(row), "; ");
  }

  lemma LiteralSplit(a: string, lit: string, key: string, v: string)
    requires lit == "; " + key
    ensures a + lit + v == a + "; " + (key + v)
  {
  }

  lemma JoinEight(p: seq<string>, sep: string)
    requires |p| == 8
    ensures Join(p, sep) == p[0] + sep + p[1] + sep + p[2] + sep + p[3] + sep +
      p[4] + sep + p[5] + sep + p[6] + sep + p[7]
  {
    assert p[..1] + [p[1]] == p[..2];
    JoinSnoc(p[..1], p[1], sep);
    assert p[..2] + [p[2]] == p[..3];
    JoinSnoc(p[..2], p[2], sep);
    assert p[..3] + [p[3]] == p[..4];
    JoinSnoc(p[..3], p[3], sep);
    assert p[..4] + [p[4]] == p[..5];
    JoinSnoc(p[..4], p[4], sep);
    assert p[..5] + [p[5]] == p[..6];
    JoinSnoc(p[..5], p[5], sep);
    assert p[..6] + [p[6]] == p[..7];
    JoinSnoc(p[..6], p[6], sep);
    assert p[..7] + [p[7]] == p;
    JoinSnoc(p[..7], p[7], sep);
  }

  /** A key that holds no `;` and ends in `=`, followed by a value without `; `,
      is a delimited segment. */
  lemma KeyValueDelimited(key: string, v: string)
    requires |key| > 0 && key[|key| - 1] == '=' && ';' !in key
    requires Free(v, "; ")
    ensures Delimited(key + v, "; ")
  {
    KeyValueNoSemiSpace(key, v);
    NoSemiSpaceDelimited(key + v);
  }

  lemma SplitRowMessage(row: seq<string>)
    requires |row| >= 8
    requires forall k :: 0 <= k < 8 ==> Free(row[k], "; ")
    ensures Split(RowMessage(row), "; ") == RowSegments(row)
  {
    var p := RowSegments(row);
    KeyValueDelimited("name=", row[0]);
    KeyValueDelimited("email=", row[1]);
    KeyValueDelimited("phone=", row[2]);
    KeyValueDelimited("ssn=", row[3]);
    KeyValueNoSemiSpace("password=", row[4]);
    KeyValueNoSemiSpace(";ip=", row[5]);
    NoSemiSpaceAppend("password=" + row[4], ";ip=" + row[5]);
    AppendAssoc("password=" + row[4], ";ip=", row[5]);
    NoSemiSpaceDelimited("password=" + row[4] + ";ip=" + row[5]);
    KeyValueDelimited("last_login=", row[6]);
    KeyValueDelimited("user_agent=", row[7]);
    assert forall k :: 0 <= k < 7 ==> Delimited(p[k], "; ");
    assert Free(p[7], "; ");
    SplitJoin(p, "; ");
  }

  lemma AppendAssoc(a: string, b: string, c: string)
    ensures a + b + c == a + (b + c)
  {
  }

  /** A segment whose first character starts no default field name is left alone. */
  lemma NoPiiPrefix(seg: string)
    requires seg == "" || seg[0] !in "neps"
    ensures forall f :: f in PII_FIELDS ==> !StartsWith(seg, f)
  {
    forall f | f in PII_FIELDS
      ensures !StartsWith(seg, f)
    {
      if seg != "" {
        DiffersAt(seg, f, 0);
      }
    }
  }

  /** A segment `f=` followed by anything, for a field `f` of a prefix-free list,
      is masked to `f=` and the redaction. */
  lemma FieldSegmentMasked(fields: seq<string>, i: nat, redaction: string, v: string)
    requires PrefixFree(fields) && i < |fields|
    ensures RedactSeg(fields, redaction, fields[i] + "=" + v) == Masked(fields[i], redaction)
  {
    var f := fields[i];
    assert (f + "=" + v)[..|f|] == f;
    RedactSegPrefixFree(fields, redaction, f + "=" + v, f);
  }

  /** The segments of a row after redaction with the default fields. */
  lemma RowRedacted(row: seq<string>)
    requires |row| >= 8
    ensures RedactAll(PII_FIELDS, "***", RowSegments(row))
         == ["name=***", "email=***", "phone=***", "ssn=***", "password=***",
             "last_login=" + row[6], "user_agent=" + row[7], ""]
  {
    var p := RowSegments(row);
    var values := [row[0], row[1], row[2], row[3], row[4] + ";ip=" + row[5]];
    var masks := ["name=***", "email=***", "phone=***", "ssn=***", "password=***"];
    AppendAssoc("password=", row[4] + ";ip=", row[5]);
    AppendAssoc("password=", row[4], ";ip=");
    PersonalKeys(p, values, masks);
    NoPiiPrefix(p[5]);
    NoPiiPrefix(p[6]);
    NoPiiPrefix(p[7]);
    PiiFieldsPrefixFree();
    RedactRecord(PII_FIELDS, p, values, masks);
  }

  /** Segments `name=`, `email=`, `phone=`, `ssn=` and `password=`, each followed
      by a value, are the default fields followed by `=` and that value, and their
      masks are the default fields followed by `=***`. */
  lemma PersonalKeys(p: seq<string>, values: seq<string>, masks: seq<string>)
    requires |p| >= 5 && |values| == 5
    requires p[0] == "name=" + values[0] && p[1] == "email=" + values[1] &&
      p[2] == "phone=" + values[2] && p[3] == "ssn=" + values[3] && p[4] == "password=" + values[4]
    requires masks == ["name=***", "email=***", "phone=***", "ssn=***", "password=***"]
    ensures forall i :: 0 <= i < 5 ==> p[i] == PII_FIELDS[i] + "=" + values[i]
    ensures forall i :: 0 <= i < 5 ==> masks[i] == Masked(PII_FIELDS[i], "***")
  {
  }

  /** Segments that are the fields of a prefix-free list, in order, each followed
      by `=` and a value, are masked; the segments after them, which start with no
      field, are kept. */
  lemma RedactRecord(fields: seq<string>, p: seq<string>, values: seq<string>, masks: seq<string>)
    requires PrefixFree(fields) && |values| == |masks| == |fields| <= |p|
    requires forall i :: 0 <= i < |fields| ==> p[i] == fields[i] + "=" + values[i]
    requires forall i :: 0 <= i < |fields| ==> masks[i] == Masked(fields[i], "***")
    requires forall k, f :: |fields| <= k < |p| && f in fields ==> !StartsWith(p[k], f)
    ensures RedactAll(fields, "***", p) == masks + p[|fields|..]
  {
    forall i | 0 <= i < |fields|
      ensures RedactSeg(fields, "***", p[i]) == masks[i]
    {
      FieldSegmentMasked(fields, i, "***", values[i]);
    }
  }

  /** What `main` logs for a row whose values contain no `; `: the five personal
      fields are masked, and the ip, fused with the password segment, is masked
      away with it. */
  lemma RowMessageFilteredDropsIp(row: seq<string>)
    requires |row| >= 8
    requires forall k :: 0 <= k < 8 ==> Free(row[k], "; ")
    ensures Filtered(PII_FIELDS, "***", RowMessage(row), "; ")
         == "name=***; email=***; phone=***; ssn=***; password=***; last_login=" + row[6] +
            "; user_agent=" + row[7] + "; "
  {
    SplitRowMessage(row);
    RowRedacted(row);
    var out := ["name=***", "email=***", "phone=***", "ssn=***", "password=***",
                "last_login=" + row[6], "user_agent=" + row[7], ""];
    JoinEight(out, "; ");
    MaskedRowText(row[6], row[7]);
  }

  lemma MaskedRowText(login: string, agent: string)
    ensures "name=***" + "; " + "email=***" + "; " + "phone=***" + "; " + "ssn=***" + "; " +
      "password=***" + "; " + ("last_login=" + login) + "; " + ("user_agent=" + agent) + "; " + ""
      == "name=***; email=***; phone=***; ssn=***; password=***; last_login=" + login +
         "; user_agent=" + agent + "; "
  {
    var c := "name=***" + "; " + "email=***" + "; " + "phone=***" + "; " + "ssn=***" + "; " +
      "password=***" + "; ";
    MaskedPrefixText();
    AppendAssoc(c, "last_login=", login);
    MaskedLoginText();
    LiteralSplit(c + "last_login=" + login, "; user_agent=", "user_agent=", agent);
  }

  lemma MaskedPrefixText()
    ensures "name=***" + "; " + "email=***" + "; " + "phone=***" + "; " + "ssn=***" + "; " +
      "password=***" + "; " == "name=***; email=***; phone=***; ssn=***; password=***; "
  {
    assert "name=***" + "; " == "name=***; ";
    assert "name=***; " + "email=***" == "name=***; email=***";
    assert "name=***; email=***" + "; " == "name=***; email=***; ";
    assert "name=***; email=***; " + "phone=***" == "name=***; email=***; phone=***";
    assert "name=***; email=***; phone=***" + "; " == "name=***; email=***; phone=***; ";
    assert "name=***; email=***; phone=***; " + "ssn=***" == "name=***; email=***; phone=***; ssn=***";
    assert "name=***; email=***; phone=***; ssn=***" + "; " == "name=***; email=***; phone=***; ssn=***; ";
    assert "name=***; email=***; phone=***; ssn=***; " + "password=***"
        == "name=***; email=***; phone=***; ssn=***; password=***";
    assert "name=***; email=***; phone=***; ssn=***; password=***" + "; "
        == "name=***; email=***; phone=***; ssn=***; password=***; ";
  }

  lemma MaskedLoginText()
    ensures "name=***; email=***; phone=***; ssn=***; password=***; " + "last_login="
      == "name=***; email=***; phone=***; ssn=***; password=***; last_login="
  {
  }

  // ---------------------------------------------------------------------------
  // The row message with `; ` before `ip=`

  /** The segments of the row message with `; ` before `ip=`: the ip has its own. */
  function IntendedRowSegments(row: seq<string>): seq<string>
    requires |row| >= 8
  {
    ["name=" + row[0], "email=" + row[1], "phone=" + row[2], "ssn=" + row[3],
     "password=" + row[4], "ip=" + row[5], "last_login=" + row[6], "user_agent=" + row[7], ""]
  }

  /** The message with `; ` before `ip=` is its nine segments with `; ` between them. */
  lemma IntendedRowMessageIsJoin(row: seq<string>, msg: string)
    requires |row| >= 8
    requires msg == "name=" + row[0] + "; email=" + row[1] + "; phone=" + row[2] + "; ssn=" + row[3] +
      "; password=" + row[4] + "; ip=" + row[5] + "; last_login=" + row[6] +
      "; user_agent=" + row[7] + "; "
    ensures msg == Join(IntendedRowSegments(row), "; ")
  {
    var m1 := "name=" + row[0];
    var m2 := m1 + "; email=" + row[1];
    LiteralSplit(m1, "; email=", "email=", row[1]);
    var m3 := m2 + "; phone=" + row[2];
    LiteralSplit(m2, "; phone=", "phone=", row[2]);
    var m4 := m3 + "; ssn=" + row[3];
    LiteralSplit(m3, "; ssn=", "ssn=", row[3]);
    var m5 := m4 + "; password=" + row[4];
    LiteralSplit(m4, "; password=", "password=", row[4]);
    var m6 := m5 + "; ip=" + row[5];
    LiteralSplit(m5, "; ip=", "ip=", row[5]);
    var m7 := m6 + "; last_login=" + row[6];
    LiteralSplit(m6, "; last_login=", "last_login=", row[6]);
    var m8 := m7 + "; user_agent=" + row[7];
    LiteralSplit(m7, "; user_agent=", "user_agent=", row[7]);
    assert msg == m8 + "; ";
    assert m8 + "; " == m8 + "; " + "";
    var p := IntendedRowSegments(row);
    assert p[..8] + [p[8]] == p;
    JoinSnoc(p[..8], p[8], "; ");
    JoinEight(p[..8], "; ");
  }

  lemma SplitIntendedRowMessage(row: seq<string>)
    requires |row| >= 8
    requires forall k :: 0 <= k < 8 ==> Free(row[k], "; ")
    ensures Split(IntendedRowMessage(row), "; ") == IntendedRowSegments(row)
  {
    var p := IntendedRowSegments(row);
    KeyValueDelimited("name=", row[0]);
    KeyValueDelimited("email=", row[1]);
    KeyValueDelimited("phone=", row[2]);
    KeyValueDelimited("ssn=", row[3]);
    KeyValueDelimited("password=", row[4]);
    KeyValueDelimited("ip=", row[5]);
    KeyValueDelimited("last_login=", row[6]);
    KeyValueDelimited("user_agent=", row[7]);
    assert forall k :: 0 <= k < 8 ==> Delimited(p[k], "; ");
    assert Free(p[8], "; ");
    SplitJoin(p, "; ");
  }

  lemma IntendedRowRedacted(row: seq<string>)
    requires |row| >= 8
    ensures RedactAll(PII_FIELDS, "***", IntendedRowSegments(row))
         == ["name=***", "email=***", "phone=***", "ssn=***", "password=***",
             "ip=" + row[5], "last_login=" + row[6], "user_agent=" + row[7], ""]
  {
    var p := IntendedRowSegments(row);
    var values := [row[0], row[1], row[2], row[3], row[4]];
    var masks := ["name=***", "email=***", "phone=***", "ssn=***", "password=***"];
    PersonalKeys(p, values, masks);
    NoPiiPrefix(p[5]);
    NoPiiPrefix(p[6]);
    NoPiiPrefix(p[7]);
    NoPiiPrefix(p[8]);
    PiiFieldsPrefixFree();
    RedactRecord(PII_FIELDS, p, values, masks);
  }

  /** With `; ` before `ip=`, the five personal fields are masked and the ip
      survives as a segment of its own. */
  lemma IntendedRowMessageFiltered(row: seq<string>)
    requires |row| >= 8
    requires forall k :: 0 <= k < 8 ==> Free(row[k], "; ")
    ensures Filtered(PII_FIELDS, "***", IntendedRowMessage(row), "; ")
         == "name=***; email=***; phone=***; ssn=***; password=***; ip=" + row[5] +
            "; last_login=" + row[6] + "; user_agent=" + row[7] + "; "
  {
    SplitIntendedRowMessage(row);
    IntendedRowRedacted(row);
    var out := ["name=***", "email=***", "phone=***", "ssn=***", "password=***",
                "ip=" + row[5], "last_login=" + row[6], "user_agent=" + row[7], ""];
    assert out[..8] + [out[8]] == out;
    JoinSnoc(out[..8], out[8], "; ");
    JoinEight(out[..8], "; ");
    MaskedIpRowText(row[5], row[6], row[7]);
  }

  lemma MaskedIpRowText(ip: string, login: string, agent: string)
    ensures "name=***" + "; " + "email=***" + "; " + "phone=***" + "; " + "ssn=***" + "; " +
      "password=***" + "; " + ("ip=" + ip) + "; " + ("last_login=" + login) + "; " +
      ("user_agent=" + agent) + "; " + ""
      == "name=***; email=***; phone=***; ssn=***; password=***; ip=" + ip +
         "; last_login=" + login + "; user_agent=" + agent + "; "
  {
    var c := "name=***" + "; " + "email=***" + "; " + "phone=***" + "; " + "ssn=***" + "; " +
      "password=***" + "; ";
    MaskedPrefixText();
    AppendAssoc(c, "ip=", ip);
    MaskedIpText();
    LiteralSplit(c + "ip=" + ip, "; last_login=", "last_login=", login);
    LiteralSplit(c + "ip=" + ip + "; last_login=" + login, "; user_agent=", "user_agent=", agent);
  }

  lemma MaskedIpText()
    ensures "name=***; email=***; phone=***; ssn=***; password=***; " + "ip="
      == "name=***; email=***; phone=***; ssn=***; password=***; ip="
  {
  }
}
