# Redacting personal data in log lines

This project models the redaction logic of `0x00-personal_data/filtered_logger.py` in Dafny:

- `filter_datum` splits a message on a separator. For each field name, in list order, it overwrites every segment that starts with that name by `name=redaction`. Then it joins the segments again.
- `PII_FIELDS` is the default list of personal-data fields.
- `RedactingFormatter` keeps the field list it was built with. Its `format` filters the rendered log line with `***` and `;`.
- `main` builds a message from eight column values of a `users` row and filters it with `PII_FIELDS`, `***` and `; `.

The project has three modules:

- `Strings` (`strings.dfy`) models Python's `str.startswith`, `str.split(sep)` and `sep.join(parts)` for a non-empty separator. It proves that joining a split gives the string back. It also proves that splitting a join gives the parts back when no separator occurrence starts inside a part (`Delimited`).
- `Redaction` (`redaction.dfy`) holds the specification of `filter_datum`:
  - `RedactSeg` is what one segment becomes after the outer loop has visited every field.
  - `Filtered` is the joined result.
  - `FilterDatum` is the imperative method. It copies the segments into an array, runs the source's nested `for field` / `for j` loops, and is proved equal to `Filtered`.
- `FilteredLogger` (`filtered_logger.dfy`) holds `PII_FIELDS`, the `RedactingFormatter` class and the row message of `main`.

Matching is modelled as the code writes it: a raw `startswith` test on the segment as earlier fields left it. It is not a key-bounded `key=` match, and the order of the fields matters in general:

- With field `name`, the segment `names=x` becomes `name=***`.
- `username=Bob` and ` email=b` (with a leading space) are left alone.
- An empty field name matches every segment.

## Model

| member | source | states |
|---|---|---|
| Strings.StartsWith | 0x00-personal_data/filtered_logger.py:24 | `s.startswith(p)`: `p` is no longer than `s` and `s` begins with it; every string starts with the empty string |
| Strings.FindFrom | 0x00-personal_data/filtered_logger.py:20 | the leftmost occurrence of the separator at or after an index, or none when there is none |
| Strings.Split | 0x00-personal_data/filtered_logger.py:20 | `s.split(sep)`: the text before the leftmost occurrence, then the split of the rest; at least one part |
| Strings.Join | 0x00-personal_data/filtered_logger.py:28 | `sep.join(parts)`: the parts with the separator between each two of them, the empty string for no parts |
| Strings.SplitFree | 0x00-personal_data/filtered_logger.py:20 | `split` returns the string alone exactly when the separator does not occur in it |
| Strings.SplitPartsDelimited | 0x00-personal_data/filtered_logger.py:20 | every part of a split but the last is delimited by the separator, and the last holds no separator |
| Strings.JoinSplit | 0x00-personal_data/filtered_logger.py:20-28 | joining the parts of a split with the same separator gives the original string |
| Strings.SplitJoin | 0x00-personal_data/filtered_logger.py:20-28 | splitting a join gives the parts back when every part but the last is delimited and the last is separator-free |
| Redaction.Masked | 0x00-personal_data/filtered_logger.py:25 | the one shape a redacted segment takes, `field=redaction` |
| Redaction.RedactSeg | 0x00-personal_data/filtered_logger.py:22-27 | a segment comes out either unchanged or as `f=redaction` for a listed field `f`, and unchanged when no field is a prefix of it |
| Redaction.Filtered | 0x00-personal_data/filtered_logger.py:15-28 | the value `filter_datum` returns, the join of the redacted split segments; with an empty field list, the message exactly |
| Redaction.FilterDatum | 0x00-personal_data/filtered_logger.py:15-28 | the nested loops over an array of segments return the join of every split segment redacted by the fold over the fields |
| Redaction.RedactSegLastMatch | 0x00-personal_data/filtered_logger.py:22-27 | a segment matched at field `i`'s turn and at no later turn ends as `fields[i]=redaction`, losing its key suffix and value |
| Redaction.RedactSegNoMatch | 0x00-personal_data/filtered_logger.py:22-24 | a segment matched at no field's turn comes out unchanged |
| Redaction.EmptyFieldLastMatchesAll | 0x00-personal_data/filtered_logger.py:24 | an empty field name, listed last, turns every segment, the empty one included, into `=redaction` |
| Redaction.PrefixRewritesKey | 0x00-personal_data/filtered_logger.py:24-27 | any segment that merely begins with a field is replaced whole, key included, by that field's mask |
| Redaction.LeadingSpaceNotMatched | 0x00-personal_data/filtered_logger.py:24 | a segment with a leading space is left alone by fields that do not start with a space |
| Redaction.RawPrefixExamples | 0x00-personal_data/filtered_logger.py:24-27 | `names=x` becomes `name=***`; `username=Bob` and ` email=b` are left alone |
| Redaction.RedactSegPrefixFree | 0x00-personal_data/filtered_logger.py:22-27 | when no field is a prefix of another, a segment starting with field `f` becomes `f=redaction` whatever the order |
| Redaction.RedactSegKeepsPrefix | 0x00-personal_data/filtered_logger.py:22-27 | if any segment comes out of the field loop starting with `g`, every segment that starts with `g` comes out starting with `g` |
| Redaction.RedactSegIdempotent | 0x00-personal_data/filtered_logger.py:22-27 | for any field list, redacting a redacted segment again changes nothing |
| Redaction.RedactSegStartsThenMasked | 0x00-personal_data/filtered_logger.py:22-27 | a segment that starts with some listed field always comes out as the mask of some listed field |
| Redaction.RedactSegOrderIrrelevant | 0x00-personal_data/filtered_logger.py:22-27 | with prefix-free fields, any listing of the same names redacts a segment the same way |
| Redaction.OrderMatters | 0x00-personal_data/filtered_logger.py:22-27 | without prefix-freeness the order can matter: `["a", "a=x"]` turns `a1` into `a=x=x`, `["a=x", "a"]` into `a=x` |
| Redaction.MatchesOriginalSegment | 0x00-personal_data/filtered_logger.py:22-26 | with prefix-free, distinct fields, a field that matches at its turn finds the segment unchanged by the earlier turns |
| Redaction.FilteredEmptyMessage | 0x00-personal_data/filtered_logger.py:20-28 | the empty message stays empty when no field name is empty |
| Redaction.FilteredSegments | 0x00-personal_data/filtered_logger.py:20-28 | output segment `k` comes from input segment `k`: unchanged if no field starts it, a mask when some field starts it; the count is kept |
| Redaction.SplitFiltered | 0x00-personal_data/filtered_logger.py:20-28 | when every mask is delimited by the separator, splitting the output gives exactly the redacted input segments, so the segment count is preserved |
| Redaction.SplitFilteredSingleChar | 0x00-personal_data/filtered_logger.py:20-28 | for a one-character separator other than `=` that occurs in neither the redaction nor any field, the output splits into the redacted input segments |
| Redaction.OverlappingSeparatorSplitsDifferently | 0x00-personal_data/filtered_logger.py:20-28 | with separator `aba`, field `n` and redaction `ab`, a two-segment message comes out as one of three segments |
| Redaction.FilteredIdempotent | 0x00-personal_data/filtered_logger.py:15-28 | for any fields whose masks are delimited by the separator, filtering a filtered message changes nothing |
| Redaction.FilteredOrderIrrelevant | 0x00-personal_data/filtered_logger.py:22-27 | with prefix-free fields, the output depends only on the set of field names |
| FilteredLogger.PiiFieldsPrefixFree | 0x00-personal_data/filtered_logger.py:12 | no default field name is a prefix of another |
| FilteredLogger.PiiOrderIrrelevant | 0x00-personal_data/filtered_logger.py:12 | any listing of the default field names filters every message as `PII_FIELDS` does |
| FilteredLogger.PiiMatchesOriginalSegment | 0x00-personal_data/filtered_logger.py:12 | with the default fields, every matching turn finds the segment as it came in, never a mask |
| FilteredLogger.PiiFieldsSuitFormatter | 0x00-personal_data/filtered_logger.py:12 | the default names are non-empty, do not start with `[` and hold no `;` |
| FilteredLogger.RedactingFormatter.constructor | 0x00-personal_data/filtered_logger.py:39-42 | the formatter keeps the given field list unchanged |
| FilteredLogger.RedactingFormatter.Format | 0x00-personal_data/filtered_logger.py:44-47 | the rendered line's `;`-segments come out redacted one by one, and the `[HOLBERTON] ` header segment is never touched by non-empty fields that do not start with `[` |
| FilteredLogger.FormatSegments | 0x00-personal_data/filtered_logger.py:44-47 | with fields free of `;`, splitting the formatted line on `;` gives the redacted segments of the rendered line |
| FilteredLogger.FormatKeepsHeader | 0x00-personal_data/filtered_logger.py:35-47 | a line that starts with the format's `[HOLBERTON] ` header keeps its first segment |
| FilteredLogger.RowMessage | 0x00-personal_data/filtered_logger.py:86-88 | the message for a row, as written, is eight segments joined by `; `, the fifth being `password=<v4>;ip=<v5>` and the last empty |
| FilteredLogger.RowMessageIsJoin | 0x00-personal_data/filtered_logger.py:86-88 | the format literal, continuation included, equals those eight segments joined by `; ` |
| FilteredLogger.SplitRowMessage | 0x00-personal_data/filtered_logger.py:86-90 | for values without `; `, splitting the row message on `; ` gives those eight segments |
| FilteredLogger.RedactRecord | 0x00-personal_data/filtered_logger.py:22-27 | segments led by the prefix-free fields in order, each followed by `=` and a value, are masked, and the segments after them that start with no field are kept |
| FilteredLogger.RowRedacted | 0x00-personal_data/filtered_logger.py:86-90 | with the default fields, the five personal segments are masked and `last_login`, `user_agent` and the empty tail are kept |
| FilteredLogger.RowMessageFilteredDropsIp | 0x00-personal_data/filtered_logger.py:86-90 | the logged message is `name=***; email=***; phone=***; ssn=***; password=***; last_login=<v6>; user_agent=<v7>; `, with no trace of the ip |
| FilteredLogger.IntendedRowMessage | 0x00-personal_data/filtered_logger.py:86-88 | the message with `; ip=` is nine segments joined by `; `, the ip one of its own |
| FilteredLogger.IntendedRowMessageIsJoin | 0x00-personal_data/filtered_logger.py:86-88 | that literal equals those nine segments joined by `; ` |
| FilteredLogger.SplitIntendedRowMessage | 0x00-personal_data/filtered_logger.py:86-90 | for values without `; `, that message splits into its nine segments |
| FilteredLogger.IntendedRowRedacted | 0x00-personal_data/filtered_logger.py:86-90 | with the default fields, its five personal segments are masked and the ip segment is kept |
| FilteredLogger.IntendedRowMessageFiltered | 0x00-personal_data/filtered_logger.py:86-90 | filtering that message keeps `ip=<v5>` as a segment of its own |

## Left out

- `0x00-personal_data/encrypt_password.py` is not part of this model. `hash_password` and `is_valid` only call bcrypt, whose salting and hashing are not visible.
- The `re.sub` call at line 26 is not modelled. Its result is overwritten on the next line. Its only observable effect is raising `re.error` when the segment it is handed is not a valid regular expression, such as one with an unbalanced `(`. The model assumes no segment raises it.
- Redaction.FilterDatum, Redaction.RedactSegLastMatch, Redaction.EmptyFieldLastMatchesAll, Redaction.RedactSegIdempotent, Redaction.FilteredIdempotent, Redaction.RedactSegOrderIrrelevant, Redaction.FilteredOrderIrrelevant, FilteredLogger.PiiOrderIrrelevant: a mask `f=***` is itself an invalid pattern (`*` repeated after `*`), so in the source any segment that is matched again after it was masked raises `re.error` at line 26 instead of producing the result stated here. That happens when a later field, or the same field listed twice, matches a mask within one call, and when filtering output that is already filtered. The model computes the value the loop would produce without the raise. With the default fields no mask is matched again within one call (`PiiMatchesOriginalSegment`).
- The rendering by `logging.Formatter` (record name, level, `asctime` timestamp) is not modelled. `Format` takes the rendered line as its input string.
- `get_logger`, `get_db`, the cursor loop in `main`, `logger.info` and closing the connection are not modelled. They are logger registration, stream output, environment variables and MySQL I/O. A row is a sequence of at least eight strings: the values as `str.format` already rendered them.
- An empty separator is excluded by `requires |separator| > 0`, because `str.split` raises `ValueError` on it.
- `PII_FIELDS` is a tuple in the source and a sequence here. `filter_datum` only iterates over it.
- Redaction.SplitFiltered: segment count preservation is proved under "every mask `f=redaction` is delimited by the separator", not under "neither the redaction nor any field contains the separator". For separators longer than one character the weaker hypothesis is not enough, and `OverlappingSeparatorSplitsDifferently` exhibits the counterexample. `SplitFilteredSingleChar` covers single-character separators, which also need to differ from `=`.
- Redaction.FilteredEmptyMessage: the empty message stays empty only when no field name is empty. An empty field turns it into `=redaction`, as `EmptyFieldLastMatchesAll` shows.
- Redaction.FilteredOrderIrrelevant: order independence is proved for prefix-free field lists. That condition is sufficient, not necessary; without it the order can change the output, as `OrderMatters` shows with `["a", "a=x"]`.
- FilteredLogger.RedactingFormatter.Format: the header is kept only for field names that are non-empty and do not start with `[`, and its segments are exact only for field names without `;`. The default names satisfy both (`PiiFieldsSuitFormatter`).
- FilteredLogger.RowMessageFilteredDropsIp: the exact output is stated for column values that hold no `; `. A value with `; ` adds segments, which are then redacted like any other.
- Where a key-bounded match or an unordered set of fields would differ from the code, the model follows the code: a raw prefix test, applied in list order.

## Findings

| source | as written | input that shows it | evidently intended | confidence | as-written member | corrected member |
|---|---|---|---|---|---|---|
| 0x00-personal_data/filtered_logger.py:86-87 | the backslash continuation joins `password={};` directly to `ip={}`, so `password=<v4>;ip=<v5>` is one `; `-segment, and the redaction of `password` erases the ip as well | any row whose values hold no `; `, e.g. eight empty strings: the logged message has no `ip=` key | `password={}; ip={}`, so that the ip is a segment of its own and is logged as it is | not executed | FilteredLogger.RowMessageFilteredDropsIp | FilteredLogger.IntendedRowMessageFiltered |
