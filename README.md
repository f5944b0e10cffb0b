# fixinsert: the insert-statement scanner, in Dafny

`fixinsert` reads SQL dump files line by line. It picks out lines of the
form `insert into T (F) values (V);` and splits the field list `F` on
commas. It tokenises the value list `V` with a chain of literal
`str.replace` calls and then splits it on the placeholder `@a@`. For every
field name it remembers the longest value token seen. When the file has
been read, it prints one line per field name in sorted order:
`name padded : length right-aligned to 5`. It can also print only the one
field asked for.

The model has seven modules:

- `Wrappers`: `Option`, `Result`, and the two exceptions the core can
  raise, `IndexError` and `ValueError`.
- `PyStr`: Python's `str.replace`, `str.split` and `'sep'.join`, all
  left to right and non-overlapping. It proves the round trip
  `join(split(s)) == s`, the part count, and `replace == join ∘ split`.
  It also proves `split(join(parts)) == parts` for at least one part, when no
  part contains the separator and no part but the last ends in a non-empty
  proper prefix of it.
- `Extractor`: the anchored pattern of `process_line`, with lazy groups
  chosen leftmost-shortest. It also holds the value substitutions and the
  two splits.
- `Accumulator`: the `lengths` dictionary as class `LengthTable`.
  - `ProcessLine` and `RecordStatement` update it in place with the
    `enumerate` loop.
  - `Fold` is the specification of the per-file loop.
  - The lemmas give the frame, the maximum and order independence.
- `Reporter`: Python's string order, `sorted`, the key width, the row
  format, and the field filter, all as functions.
- `Runner`: `run` as methods. `Run` loops over the lines with a fresh
  table. `PrintReport` computes the width and hands the sorted keys to
  `PrintRows`, which loops over them. Each is proved equal to the
  functions above.
- `Scenarios`: the worked examples, stated for families of lines and then
  instantiated.

What the code does, where a plain reading of its intent would expect
something else. The model follows the code:

- `1,'Bob'` tokenises to `1` and `Bob'`, so `name` counts 4, not 5.
  - The replacement of `,'` consumes the opening quote of a value that
    follows a comma.
  - The closing quote is never removed, because lines 130-131 replace the
    literal two-character strings `^'` and `'$`, not regex anchors.
- `'x,y','z'` tokenises to `'x,y` and `z'`.
- So the two lines `(1,'Bob')` and `(22,'Alexandra')` give
  `{id: 2, name: 10}`. The filtered report is `name :    10`, not
  `name :    11`.
- An unquoted list such as `1,2` is never cut: it is one token.
- A line with more value tokens than field names raises `IndexError` at
  `fields[len(fields)]`. The entries for the earlier positions have
  already been updated.
- A file in which no line matched makes `max()` raise `ValueError`.

## Model

| member | source | states |
|---|---|---|
| PyStr.JoinSplit | fixinsert.py:133-134 | joining the parts of `s.split(sep)` with `sep` gives back `s` |
| PyStr.SplitPartsFree | fixinsert.py:133-134 | no part of `s.split(sep)` contains `sep` |
| PyStr.SplitCount | fixinsert.py:133-134 | `s.split(sep)` has one more part than `s` has non-overlapping occurrences of `sep` |
| PyStr.SplitJoin | fixinsert.py:133-134 | splitting a join of at least one part gives back the parts, when no part contains `sep` and no part but the last ends in a non-empty proper prefix of `sep` |
| PyStr.ReplaceIsJoinSplit | fixinsert.py:127-132 | `s.replace(t, r)` equals `r.join(s.split(t))` |
| PyStr.ReplaceAbsent | fixinsert.py:129-132 | `replace` of a string that does not occur changes nothing |
| PyStr.ReplaceChars | fixinsert.py:127-132 | every character of a `replace` result comes from the input or the replacement |
| PyStr.Replace | fixinsert.py:127-132 | a replacement no longer than the target never lengthens the string, and one no shorter never shortens it |
| PyStr.Count | fixinsert.py:133-134 | the occurrences counted, laid end to end, fit in the string |
| PyStr.Split | fixinsert.py:133-134 | `split` gives at least one part and at most one more than the string's length; the empty string gives `[""]` |
| PyStr.Join | fixinsert.py:133-134 | a join of at least one part starts with the first part |
| PyStr.Find | fixinsert.py:121 | the index found is at or after `from` and holds the pattern, and no index between `from` and it does; `None` means no index at or after `from` does |
| Extractor.Chomp | fixinsert.py:121 | no contract of its own: `$` may stand before one final newline; `MatchedShape` states that a match removes at most that one newline |
| Extractor.Divide | fixinsert.py:121-123 | a division found reassembles the text between prefix and suffix and is the lazy (leftmost-shortest) choice of groups |
| Extractor.Extract | fixinsert.py:121-123 | a match yields groups that reassemble the line with the lazy (leftmost-shortest) choice |
| Extractor.ExtractIff | fixinsert.py:121-123 | `Extract(line) == Some(g)` exactly when `g` matches the line and is the lazy choice |
| Extractor.ExtractNone | fixinsert.py:121-122 | no match exactly when no choice of groups matches the anchored pattern |
| Extractor.ExtractShortest | fixinsert.py:121-123 | the groups taken are no longer than any other matching choice, table first, then fields |
| Extractor.MatchedShape | fixinsert.py:121-123 | on a match, `"insert into " + table + " (" + fields + ") values (" + values + ");"` is the line with at most one trailing newline removed |
| Extractor.Reassemble | fixinsert.py:121 | a line without an inner newline that reads prefix, groups and suffix matches with those groups |
| Extractor.DivideLazy | fixinsert.py:121-123 | the lazy groups are found again from the text between prefix and suffix |
| Extractor.Marked | fixinsert.py:127-128 | after lines 127-128 the value string holds no `,'` |
| Extractor.Cleanup | fixinsert.py:129-132 | lines 129-132 change nothing unless the literal strings `\@a\@'`, `^'`, `'$` or `\@a\@` occur |
| Extractor.CleanupInert | fixinsert.py:127-132 | values without a backslash, `^` or `$` leave lines 129-132 inert |
| Extractor.ValueTokens | fixinsert.py:127-134 | no value token holds `@a@` |
| Extractor.ValueTokensRoundTrip | fixinsert.py:127-134 | the value tokens rejoin with `@a@` to the substituted string and number one more than its `@a@` occurrences |
| Extractor.FieldNames | fixinsert.py:133 | no field name holds `,` |
| Extractor.FieldNamesRoundTrip | fixinsert.py:133 | the field names rejoin with `,` to the field group and number one more than its commas |
| Extractor.Parse | fixinsert.py:121-134 | a line yields no statement exactly when no choice of groups matches the pattern; a statement has at least one field name and one value token |
| Extractor.FieldNamesOfJoin | fixinsert.py:133 | a non-empty list of comma-free names joined with `,` splits back into the same names |
| Accumulator.LengthTable.constructor | fixinsert.py:101 | a new table is the empty dictionary |
| Accumulator.LengthTable.ProcessLine | fixinsert.py:120-143 | reports whether the line raises `IndexError`; the new dictionary is the old one after the line, updated even when it raises |
| Accumulator.LengthTable.RecordStatement | fixinsert.py:139-143 | the `enumerate` loop records positions `0..min(len(values), len(fields))` and fails exactly when there are more values than fields |
| Accumulator.Record | fixinsert.py:140-143 | after one position the name is a key holding the new length or its old value, whichever is larger |
| Accumulator.Paired | fixinsert.py:139-140 | no contract of its own: where the `enumerate` loop stops; `LineUpdate` states that it is `len(fields)` exactly when the line raises and `len(values)` otherwise |
| Accumulator.RecordUpTo | fixinsert.py:139-143 | recording positions keeps every key and never lowers a value |
| Accumulator.RaisesIndexError | fixinsert.py:139-140 | only a line the pattern matches can raise `IndexError` |
| Accumulator.AfterLine | fixinsert.py:120-143 | processing a line keeps every key and never lowers a value |
| Accumulator.Fold | fixinsert.py:101-104 | the fold over a file succeeds exactly when no line raises, and otherwise fails with `IndexError` |
| Accumulator.RecordUpToBounds | fixinsert.py:139-143 | each recorded name is at least its token length; no key is removed or decreases; keys not among the recorded names are untouched; every new value is an old one or a recorded length |
| Accumulator.LineUpdate | fixinsert.py:120-143 | the same bounds for a whole matched line, with the recorded prefix ending at `len(fields)` exactly when the line raises |
| Accumulator.UnmatchedLine | fixinsert.py:121-122 | a line the pattern cannot match leaves the dictionary unchanged and raises nothing |
| Accumulator.ProcessTwice | fixinsert.py:120-143 | processing the same line a second time changes nothing |
| Accumulator.RecordUpToMerges | fixinsert.py:139-143 | the loop's result is the max-merge of the old dictionary with the recorded (name, length) pairs |
| Accumulator.MaxMergeUnique | fixinsert.py:139-143 | a max-merge of a dictionary with a set of pairs has only one result |
| Accumulator.FoldMerges | fixinsert.py:101-104 | a file that raises nothing max-merges every line's pairs into the dictionary |
| Accumulator.FoldOrderIndependent | fixinsert.py:101-104 | the outcome depends only on which lines occur, not on their order or repetition |
| Accumulator.FoldRepeat | fixinsert.py:101-104 | appending a line already in the file changes nothing |
| Accumulator.FoldMaxima | fixinsert.py:101-104 | from `{}`, the keys are the names that got a token, each mapped to the largest token length it got |
| Reporter.Below | fixinsert.py:114 | Python's `str` order relates only different strings, and a proper prefix comes first |
| Reporter.BelowTransitive | fixinsert.py:114 | Python's `str` order is transitive |
| Reporter.BelowTotal | fixinsert.py:114 | two different strings are ordered one way or the other |
| Reporter.BelowAsymmetric | fixinsert.py:114 | Python's `str` order is asymmetric |
| Reporter.BelowIrreflexive | fixinsert.py:114 | no string is below itself |
| Reporter.LeastExists | fixinsert.py:114 | every non-empty key set has a least key |
| Reporter.SortedKeys | fixinsert.py:114 | `sorted(keys)` holds exactly the keys, once each, in strictly ascending order |
| Reporter.AscendingUnique | fixinsert.py:114 | two ascending sequences of the same keys are equal, so dictionary insertion order cannot show |
| Reporter.NameWidth | fixinsert.py:109 | the width bounds every key's length and equals one of them |
| Reporter.Decimal | fixinsert.py:117 | the decimal text of a length is non-empty, all digits, without a leading zero unless it is `0` |
| Reporter.DecimalRoundTrip | fixinsert.py:117 | the decimal text reads back as the number |
| Reporter.PadRight | fixinsert.py:117 | left alignment keeps the text in front, pads with spaces to the width and never cuts |
| Reporter.PadLeft | fixinsert.py:117 | right alignment keeps the text at the end, pads with spaces in front to the width and never cuts |
| Reporter.FormatRow | fixinsert.py:117 | a row is as long as the padded name, ` : ` and the number padded to 5 |
| Reporter.RowLayout | fixinsert.py:117 | a row is the name, spaces to the width, ` : `, spaces, then the full number, right-aligned to 5 and never truncated |
| Reporter.RowReadsBack | fixinsert.py:117 | the number at the end of a row reads back as the recorded length |
| Reporter.Report | fixinsert.py:109-117 | the report fails exactly for the empty dictionary, and then with `ValueError` |
| Reporter.Rows | fixinsert.py:114-117 | no contract of its own: the rows printed for the keys in the given order; `RowsAll` and `RowsOne` state its meaning |
| Reporter.RowsAll | fixinsert.py:114-117 | without a filter, one row per key in the given order |
| Reporter.RowsOne | fixinsert.py:114-117 | with a filter over distinct keys, only the row of that key, or none |
| Reporter.ReportAll | fixinsert.py:109-117 | for a non-empty dictionary without a field, one row per key in sorted order, each formatted at the widest key's width |
| Reporter.ReportOne | fixinsert.py:109-117 | for a non-empty dictionary with a field, the single row of that key if present, else no rows |
| Runner.Run | fixinsert.py:101-104 | the loop over the lines with one table gives the specified outcome of `run` |
| Runner.PrintReport | fixinsert.py:109-117 | computes the width and rows, or `ValueError` on an empty dictionary, as the report specifies |
| Runner.PrintRows | fixinsert.py:114-117 | the loop over the sorted keys emits the specified rows, skipping keys the filter leaves out |
| Runner.RunResult | fixinsert.py:91-117 | `run` raises `IndexError` exactly when some line of the file raises it |
| Runner.FoldEmpty | fixinsert.py:101-109 | a file that raises nothing leaves the dictionary empty exactly when no line recorded a pair |
| Runner.RunValueError | fixinsert.py:109 | `run` raises `ValueError` exactly when no line raises and none records a pair |
| Runner.RunAll | fixinsert.py:101-117 | without a field, `run` prints a row per recorded name in ascending order, each with a length it saw and no smaller than any it saw |
| Scenarios.UnquotedThenQuoted | fixinsert.py:127-134 | `a,'b'` tokenises to `a` and `b'`, for `a` and `b` without quotes, commas, `@`, `\`, `^` or `$` |
| Scenarios.QuotedPair | fixinsert.py:127-134 | `'a','b'` tokenises to `'a` and `b'`, for `a` and `b` without quotes, `@`, `\`, `^` or `$`, `a` not starting with a comma (it may contain commas) and `b` without one |
| Scenarios.UnquotedList | fixinsert.py:127-134 | a list without `'`, `@`, `\`, `^` or `$` is a single token; commas are allowed |
| Scenarios.ParseUsers | fixinsert.py:121-134 | `insert into users (id,name) values (I,'N');` parses to fields `id`, `name` and tokens `I`, `N'`, for an id and a name without quotes, commas, newlines, `@`, `\`, `^` or `$` |
| Scenarios.FirstUser | fixinsert.py:120-143 | a users line into the empty dictionary records the id's length and the name's length plus its closing quote, for an id and a name without quotes, commas, newlines, `@`, `\`, `^` or `$` |
| Scenarios.SecondUser | fixinsert.py:120-143 | a second users line keeps, per field, the larger of the stored length and the new one, for an id and a name without quotes, commas, newlines, `@`, `\`, `^` or `$` |
| Scenarios.TwoUsers | fixinsert.py:101-104 | two such lines give `id` the larger id length and `name` the larger name length plus one, for ids and names without quotes, commas, newlines, `@`, `\`, `^` or `$` |
| Scenarios.UsersKeys | fixinsert.py:109-114 | the keys `id`, `name` sort as `id`, `name` with width 4 |
| Scenarios.UsersReportAll | fixinsert.py:109-117 | the unfiltered report has the `id` row, then the `name` row |
| Scenarios.UsersReportName | fixinsert.py:109-117 | the report filtered to `name` has only the `name` row |
| Scenarios.IdRow | fixinsert.py:117 | `id` with length 2 and width 4 prints as `id   :     2` |
| Scenarios.NameRow | fixinsert.py:117 | `name` with length 10 and width 4 prints as `name :    10` |
| Scenarios.BobAndAlexandra | fixinsert.py:101-104 | the lines for `(1,'Bob')` and `(22,'Alexandra')` give `{id: 2, name: 10}` |
| Scenarios.BobAndAlexandraName | fixinsert.py:101-117 | filtered to `name`, those lines print `name :    10` |
| Scenarios.BobAndAlexandraAll | fixinsert.py:101-117 | unfiltered, those lines print `id   :     2` and `name :    10` |
| Scenarios.TooManyTokens | fixinsert.py:139-140 | one field with two quoted values x and y, each without quotes, commas, newlines, `@`, `\`, `^` or `$`, raises `IndexError`, and so does `run` |
| Scenarios.NothingMatched | fixinsert.py:101-109 | every file whose lines all fail the pattern makes `run` raise `ValueError`, with or without a field |
| Scenarios.CommentOnly | fixinsert.py:101-109 | a file holding only a comment line makes `run` raise `ValueError` |

## Left out

- The command-line entry `parse` (fixinsert.py:74-87) is not modelled: its argument handling, the loop over several files and `sys.exit(1)` when no file is given are plumbing. `Runner.Run` is the body of `run` for one file.
- The `doc` command (fixinsert.py:149-182) is not modelled. It imports a module dynamically and calls the external `doc2md` library, which is not part of this model.
- The rich pretty-printing and traceback setup (fixinsert.py:42-46) is not modelled. `print` is rich's `print` (fixinsert.py:42), and its console markup, emoji codes and line wrapping are not modelled: the report is the sequence of strings passed to `print`, without the newline.
- Opening the file, UTF-8 decoding and line iteration (fixinsert.py:102-103) are not modelled. A file is a `seq<string>` of lines, each ending in at most one `\n`, and characters are code points.
- General regular expressions are not modelled: only the one anchored pattern of line 121, with Python's `$` accepting one final newline and `.` rejecting newlines.
- The insertion order of the Python dictionary is not kept. The map has no order, and the only reader of that order, `sorted`, erases it; `Reporter.AscendingUnique` states that this loses nothing.
- Exceptions are values: `IndexError` ends `run` with `Failure(IndexError)`, and the partial update of the failing line is kept in the table that `ProcessLine` leaves behind.
