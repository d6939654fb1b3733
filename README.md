# gtfs-modifications, modelled in Dafny

`gtfs-modifications` rewrites a GTFS feed stored as a zip archive. It copies
every entry of the source archive into a target archive, and passes two
entries through a repair on the way, when the command line asks for it:

- `trips.txt` through `add_bikes_allowed`, which appends a `bikes_allowed`
  column holding `1` (bicycles allowed) to every trip, or, with
  `exists_ok`, is meant to set the undefined cells of an existing column to
  `1`;
- `routes.txt` through `escape_double_quotes`, which doubles the unescaped
  double quotes inside fields with the regular expression
  `([^,^"^\n])"([^,^"^\n])`, so that a CSV reader accepts the file.

The model has four modules, one file each:

- `GtfsBase` (`base.dfy`): bytes, parsed CSV tables, the exceptions a run
  can end with, and the library calls the code relies on (UTF-8 decoding
  and encoding, the CSV reader and writer), passed in as a `Library` value
  of functions.
- `Quotes` (`quotes.dfy`): `re.subn` with that pattern as a left-to-right
  scan `SubnFrom` returning the new text and the number of replacements,
  proved equal to an independent description (`Doubled`, `Pieces`) of
  which quotes get doubled, plus locality lemmas (escaping around a comma
  or a line break splits into two independent escapes).
  `QuotesExamples` (`quotes_examples.dfy`) proves the record in the code's
  own comment and a few small inputs against the scan.
- `Bikes` (`bikes.dfy`): `add_bikes_allowed` on the parsed rows as
  imperative methods with loop invariants, proved equal to the function
  `BikesAllowedAdded`, and lemmas on what that function does in each of its
  three branches.
- `Archive` (`archive.dfy`): the `modifications` dictionary built from the
  flags, and `modify_zip_file`'s loop over the entries.

### How the code is read

- `possible_values` is `['', 0, 1, 2]`: one string and three integers. A
  cell read by the CSV reader is always a string, so a cell is accepted only
  when it is `''`, and `value == 0` never holds. The model keeps Python's
  values apart with `PyValue = Str | Int`. Consequently the `exists_ok`
  branch rewrites nothing, and `replaced_ct` stays 0. The report then
  divides by zero, so with the column present the function always raises.
  That is the opposite of what its docstring (main.py:93-94) and the
  `--bikes-allowed-exists-ok` help text promise. The model follows the
  code; `Bikes.PresentColumnFails` and `Bikes.SucceedsOnlyWithoutColumn`
  state the consequence.
- The regular expression's class `[^,^"^\n]` excludes the caret as well as
  the comma, the quote and the line break, because `^` inside a class after
  the first position is a literal. `Quotes.Flank` says so and
  `QuotesExamples.CaretExample` shows a quote after a caret left alone.
- Matches do not overlap: in `a"b"c` only the first quote is doubled,
  because the `b` that would flank the second one was consumed by the first
  match (`QuotesExamples.AdjacentQuotesExample`).
- Each file name maps to at most one function. On a run that raises no
  exception every source entry is written to the target; the code never
  deletes an entry and never passes a file through two rewrites. A run
  that raises stops at the failing entry, and the target holds only the
  entries before it.

## Model

| member | source | states |
|---|---|---|
| Archive.Modifications | main.py:42-46 | `trips.txt` is a key exactly when the bikes flag is set, bound to `add_bikes_allowed` with the given `exists_ok`; `routes.txt` exactly when the escape flag is set, bound to `escape_double_quotes`; no other key |
| Archive.Modify | main.py:44-46 | running a modification on undecodable bytes raises the decoding error (the model decodes a whole entry before parsing it); the quote escape succeeds exactly when the bytes decode |
| Archive.Written | main.py:76-83 | an entry whose name is not a key is written unchanged; a written entry keeps its name; a keyed entry is written exactly when its modification succeeds |
| Archive.ModifyZipFile | main.py:51-83 | the target holds one entry per source entry, in order and under the same names, up to the first exception; unmodified entries are copied byte for byte; modified ones hold the UTF-8 encoding of the modification's output; the run ends without exception exactly when every entry's modification succeeds, and otherwise the exception is the one of the first failing entry |
| Archive.NoFlagsCopies | main.py:42-46 | with no flag set every entry is copied unchanged |
| Archive.OtherEntriesCopied | main.py:42-46 | entries other than `trips.txt` and `routes.txt` are copied unchanged whatever the flags |
| Archive.RoutesFailOnlyOnDecode | main.py:45-46 | with the escape flag, `routes.txt` is rewritten exactly when it is valid UTF-8, and then holds the UTF-8 encoding of the decoded text with exactly the `Doubled` quotes doubled; otherwise the run ends with the decoding error |
| Archive.TripsWrittenExactlyWithoutColumn | main.py:43-44 | with the bikes flag, `trips.txt` is written exactly when it decodes and parses into rows whose header lacks `bikes_allowed`, and then holds the UTF-8 encoded CSV of the rows with the column and `1` appended; a decoding or CSV error ends the run with that error |
| Quotes.Flank | main.py:157 | the class `[^,^"^\n]`: any character but comma, caret, quote and line break |
| Quotes.MatchAt | main.py:157 | the pattern matches at a position: a flanking character, a quote, a flanking character |
| Quotes.EscapeDoubleQuotes | main.py:159 | `re.subn` over the whole text from position 0; the result is longer than the input by exactly the replacement count |
| Quotes.SubnFrom | main.py:157-159 | the scan from a position returns a text longer than the input's rest by exactly the number of replacements |
| Quotes.EscapeDoubleQuotesFile | main.py:142-163 | the file is escaped exactly when it decodes as UTF-8; the escaped text is never shorter than the decoded one and is the decoded text with exactly the quotes `Doubled` selects doubled |
| Quotes.NotQuoteNotDoubled | main.py:157 | only a quote character is ever doubled |
| Quotes.MatchDoubled | main.py:157-159 | a match at a position doubles the quote in its middle and neither of its flanking characters nor the character after it |
| Quotes.MatchPieces | main.py:159 | a match's three characters become the four characters with the quote doubled |
| Quotes.MatchDoubledFrom | main.py:159 | a match adds its quote's position to the set of doubled quotes and the scan resumes after the match |
| Quotes.CopyPieces | main.py:159 | a position without a match is copied as is and the next character is not a doubled quote |
| Quotes.SubnFromIsPieces | main.py:156-159 | the scan produces the input with exactly the quotes that `Doubled` selects doubled, and counts exactly those quotes |
| Quotes.EscapeIsPieces | main.py:156-159 | `escape_double_quotes` doubles exactly the quotes standing between two characters outside `, ^ " \n` and not flanked by an earlier match, and returns their number |
| Quotes.DoubledIsFlankedAndApart | main.py:157 | a doubled quote stands strictly inside the text between two flanking characters, and the quote two places later is not doubled (matches do not overlap) |
| Quotes.PiecesHead | main.py:157 | the rewritten text starts with the character it starts from when that one is not doubled |
| Quotes.PiecesLast | main.py:157 | the rewritten text ends with the input's last character |
| Quotes.EscapeKeepsEnds | main.py:157 | the first and last characters of the file are never changed, so a quote opening or closing the file is never doubled |
| Quotes.NoInnerQuoteUnchanged | main.py:157 | a text whose only quotes are at its ends comes back unchanged with a count of 0 |
| Quotes.SubnFromShift | main.py:159 | scanning from an offset of a text equals scanning the text's suffix |
| Quotes.PrefixMatchAt | main.py:157 | before a cut no match straddles, matching in the prefix equals matching in the whole text |
| Quotes.SubnFromCut | main.py:159 | a scan splits at a cut that no match straddles, texts concatenating and counts adding |
| Quotes.EscapeConcat | main.py:159 | escaping two texts joined where no match straddles is escaping each and joining the results |
| Quotes.EscapeAroundSeparator | main.py:157-159 | a comma, caret or line break splits the escape into the escapes of the two sides, so fields and lines are escaped independently |
| QuotesExamples.MatchAtStart | main.py:157-159 | a text starting with a match has the match rewritten and the rest scanned after it |
| QuotesExamples.AdjacentQuotesExample | main.py:157-159 | `a"b"c` becomes `a""b"c` with one replacement: the second quote is not doubled because its left flank was consumed |
| QuotesExamples.CaretExample | main.py:157 | in `x^"y` the quote after the caret is not doubled |
| QuotesExamples.RouteNameExample | main.py:151-154 | the quoted route name of the comment's example gets both inner quotes doubled |
| QuotesExamples.InnerExample | main.py:151-154 | ` "Rangaubahn" ` gets both quotes doubled, two replacements |
| QuotesExamples.WordThenQuote | main.py:157-159 | in a run of flanking characters followed by a quote and a flanking character, exactly that quote is doubled, one replacement |
| QuotesExamples.QuotedWord | main.py:157-159 | a word of two or more flanking characters in quotes, between flanking characters, gets both quotes doubled, two replacements |
| QuotesExamples.QuotedUnchanged | main.py:157 | a quoted field without inner quotes is left unchanged, zero replacements |
| QuotesExamples.RangaubahnExample | main.py:151-154 | the comment's routes.txt record becomes the comment's repaired record with two replacements |
| Bikes.PyValue | main.py:112 | the Python values `possible_values` mixes: strings and integers, never equal to each other |
| Bikes.PossibleValues | main.py:112 | `['', 0, 1, 2]`: the empty string and the integers 0, 1 and 2 |
| Bikes.EqualsIntZero | main.py:121 | `value == 0` on a Python value: true only for the integer 0, so never for a `Str` cell |
| Bikes.Rewritten | main.py:121 | the line-121 test on a row's cell at the column's index (which never holds, the cell being a string) |
| Bikes.SetCell | main.py:124 | `row[bikes_allowed_idx] = '1'`: the row with that one cell replaced, when it exists |
| Bikes.SetCellAt | main.py:124 | the same assignment on row `k` of the table, the other rows unchanged |
| Bikes.RowError | main.py:115-120 | the exception one row raises in the `exists_ok` loop: IndexError without the cell, ValueError naming a cell outside `possible_values` |
| Bikes.FirstRowError | main.py:114-120 | the exception of the first row that raises, if any |
| Bikes.ReplacedCount | main.py:113-125 | `replaced_ct` after the loop: the number of cells equal to 0, never more than the number of rows |
| Bikes.Replaced | main.py:121-124 | the rows after the loop: as many as before, each with its cell set to `1` exactly when it equals 0 and unchanged otherwise |
| Bikes.UndefinedReplaced | main.py:109-127 | the `exists_ok` branch: the first row's exception, else the division by zero when nothing was replaced, else the rewritten rows |
| Bikes.BikesAllowedAdded | main.py:106-134 | `add_bikes_allowed` on the rows: a file without rows raises at `data[0]`, an absent column is appended with `1` in every row, a present one is refused without `exists_ok` and handled by the `exists_ok` branch with it |
| Bikes.IndexOf | main.py:111 | `header.index` returns the first position holding the name |
| Bikes.AppendToEach | main.py:133-134 | every row gets the cell appended at its end and nothing else changes |
| Bikes.AddBikesAllowed | main.py:104-139 | the method computes exactly `BikesAllowedAdded`: a file without rows raises at `data[0]`; without the column the header and every row get the column appended; with it and without `exists_ok` the column is refused; with `exists_ok` the rows are checked and rewritten in order, then the report divides by the count |
| Bikes.AppendColumn | main.py:130-134 | the header gets `bikes_allowed` at its end and each data row `1` at its end |
| Bikes.ReplaceUndefined | main.py:109-127 | the loop raises at the first row whose cell is missing or not a possible value, and otherwise the report raises when nothing was rewritten |
| Bikes.FirstRowErrorPersists | main.py:114-120 | once a row has raised, later rows do not change the exception |
| Bikes.OnlyEmptyIsPossible | main.py:112-121 | a string cell is in `possible_values` exactly when it is `''`, and it never equals 0 |
| Bikes.NoRowErrorIffAllEmpty | main.py:114-120 | the loop passes every row exactly when each row has the column and its cell is `''` |
| Bikes.FirstBadRowRaises | main.py:114-120 | the loop raises at the first row lacking the column or holding a non-empty cell, with the matching exception |
| Bikes.NothingReplaced | main.py:121-125 | `replaced_ct` is 0 whatever the rows |
| Bikes.ColumnAbsentAppended | main.py:130-134 | without the column the result has as many rows, the header extended by `bikes_allowed` now found at the old header's length, and every data row extended by `1` |
| Bikes.PresentColumnFails | main.py:108-129 | with the column present the call always fails: the column is refused without `exists_ok`, and with it rows of empty cells end in the division by zero |
| Bikes.ExistsOkFirstBadRow | main.py:114-120 | with `exists_ok` the exception is that of the first data row whose cell is missing or not `''` |
| Bikes.ExistsOkRaises | main.py:109-127 | with the column present and `exists_ok`, the call raises the first offending row's exception, or the division by zero when every row passes |
| Bikes.AddTwiceFails | main.py:108-134 | adding the column to a table already processed successfully fails whatever `exists_ok` is |
| Bikes.SucceedsOnlyWithoutColumn | main.py:106-134 | the call succeeds exactly on a non-empty table whose header lacks `bikes_allowed` |
| Bikes.ParsedTrips | main.py:104-105 | undecodable bytes give the decoding error; decoded text the CSV reader rejects gives the CSV error; otherwise the reader's rows |
| Bikes.AddBikesAllowedFile | main.py:86-139 | a decoding or CSV error is passed on; an empty file raises at `data[0]`; a present column without `exists_ok` is refused, and with it the call raises the first offending row's exception or else the division by zero; the call succeeds exactly when the rows are non-empty and the header lacks `bikes_allowed`, and then returns the CSV of the rows with the column and `1` appended |

## Left out

- Command-line parsing (main.py:13-40) is left out; the model starts from the three flag values that `Archive.Modifications` receives.
- Opening, reading and writing zip files, compression and entry metadata are left out; an archive is the sequence of its entries' names and contents in `infolist()` order, and the target is the sequence of entries written before the run ended.
- The exception aborting `modify_zip_file` is returned next to the entries written so far; the partly written target archive is not modelled beyond that.
- Bikes.AddBikesAllowedFile: the whole entry is decoded before it is parsed, whereas `csv.reader` pulls lines through `TextIOWrapper` one at a time; a CSV error that Python raises before reaching an undecodable byte further on is reported by the model as `DecodeError`. `Archive.Modify`'s clause that undecodable bytes raise the decoding error inherits this.
- UTF-8 decoding (including `TextIOWrapper`'s newline translation), UTF-8 encoding, `csv.reader` and `csv.writer` are parameters of the model (`GtfsBase.Library`), not re-implemented; the CSV reader's exception is `CsvError`.
- The progress messages and the percentage printed by `add_bikes_allowed` and `escape_double_quotes` are left out, except that the percentage's division by `replaced_ct` is modelled as the exception it raises.
- `Bikes.AddBikesAllowed` returns a new table instead of mutating the reader's row lists in place; `header.append` and `row.append` on the same lists are modelled as updates of the table value.
