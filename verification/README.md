# A verified model of execsql's data-keeping core

execsql runs SQL scripts against several database systems, and imports, exports and formats the data and
scripts on the way. This project models the parts of it that must not lose or change anything, and proves
that they do not, or exactly when they do:

- **Delimited text** (`Delimited`, `ReadErrors`, `RowRoundTrip`, `LastLine`, `FileRoundTrip`, `BlankLines`):
  rows written by `LineDelimiter.delimited` and read by the eight-state reader `CsvFile.read_and_parse_line`,
  with the quoting rules of section 2 of RFC 4180 and an optional escape character; and two treatments of
  blank lines that load the same rows.
- **The SQL scanner and the layout passes on it** (`SqlSpans`, `SqlRegions`, `Layout`, `Reindent`,
  `DollarQuotes`, `CommaStyle`, `CommaLiterals`, `CommaRoundTrip`, `EStringMasks`): which parts of a text are
  string literals, and what re-indenting, moving commas and masking do to them. The lexical rules are those of
  sections 4.1.2.2, 4.1.2.4 and 4.1.5 of the PostgreSQL manual.
- **The DuckDB adapter** (`DuckDb`, `DuckDbLines`, `DuckDbLoad`, `DuckDbRuns`): many cursors on one connection
  that holds one pending result, a transaction flag kept by hand, and loads in batches.
- **Decimals and type inference** (`Powers`, `Decimals`, `FloatExact`, `Inference`, `TypeChoice`): tests on
  digit lists that stand in for arithmetic, parameters bound exactly, the DECIMAL(p, s) of a column, the
  choice of a float column, and a scan that stops trying a type once it failed.
- **Two smaller cores** (`NumericParser` with `NumericLiterals` and `NumericGrammar`, `ConfigChain`): a
  recursive-descent parser over a moving cursor, against its grammar; and two worklists over chains of
  configuration files, against a recursive walk.

Code that works step by step is a method or a class here, with the loops and fields of the original, and is
proved against a function that says what it computes; the lemmas are about those functions. `Options` holds
`Option` and `Result`, `Common` a few functions several modules use, `Numerals` the reading and writing of digits.

Where the code does not keep what its own documentation says, the code is modelled as it is:

- `_normalize_to_trailing_comma` is described as leaving literals alone. It can put a comma inside one
  (`CommaLiterals.TrailingCommaCanBreakALiteral`); `TrailingCommaKeepsLiteralsIff` says exactly when, in terms of
  the text it is given. It is also described as the inverse of `_apply_leading_comma`, which it is not for
  `a ,` above `b` (`CommaRoundTrip.CommasThereAndBackDiffers`), and is exactly on the texts of
  `CommasComeBackIff`.
- `_apply_leading_comma` is described as idempotent. It is not for `a,,` above `b`
  (`CommaRoundTrip.LeadingCommaTwiceDiffers`); it is exactly if no line that gives a comma away has another one
  to give (`LeadingCommaTwiceIff`).
- `open_dollar_quote` is meant to carry its state from one piece of a text to the next, and the check of split
  statements relies on it. The tag alone does not carry enough when a piece ends inside a quoted literal, a name
  or a comment, or when a body closes right before `e'`: `DollarQuotes.PiecesMayDiffer` and
  `WalkMayReportWrongly` give such texts. `TagIsEnoughIff` says exactly when it is enough for one call, and
  `WalkIsEnoughIff` for the walk over a script's statements.
- `_restore_estrings` is described as giving up when a placeholder is mangled. An ordinary literal that looks
  like a placeholder is replaced silently: `E'a' 'execsqlestr0'` comes back as `E'a' E'a'`
  (`EStringMasks.LookalikeIsReplaced`). `MasksComeBack` says exactly when masking is undone, and `WrongTextIff`
  when the result is another text rather than none.
- A column of texts is taken for one of fixed length although its lengths differ, if its first values are empty
  (`Inference.EmptyFirstValueIsMissed`, `VarLenIff`).
- The writer does not escape the escape character, so a field that ends in one is not read back
  (`RowRoundTrip.EscapeAtEndIsLost`); fields come back just when their runs of escape characters before a quote
  or the end are even (`RowComesBackIff`).
- Files are written so that what is read back is what was exported. The reader still opens them with newline
  translation, so a carriage return in a field is not read back (`FileRoundTrip.ReturnInField`);
  `FileComesBackIff` says exactly which files come back, for every format and row width.
- The reader adds what is left at the end of a record by the state before the last character it read. A file whose
  last line has no newline is then read with a value more or less: `a b`, with a space for a delimiter, as three
  values (`LastLine.OneMoreValue`). `LastLineIff` says exactly when the missing newline makes no difference.

## Model

| member | source | states |
|---|---|---|
| SqlSpans.IterSqlSpans | src/execsql/format.py:186-290 | The cursor loop reports exactly the spans of the one-move-at-a-time scan, for every text |
| SqlSpans.SkipBlockComment | src/execsql/format.py:221-232 | A block comment is skipped to the close that balances its nested comments, or to the end |
| SqlSpans.SkipQuoted | src/execsql/format.py:234-288 | A quoted name or plain literal ends at the first quote that is not doubled, or at the end |
| SqlSpans.SkipEString | src/execsql/format.py:258-274 | An escape string ends at the first quote that is neither doubled nor behind a backslash |
| SqlSpans.SkipLineComment | src/execsql/format.py:214-219 | A line comment stops before its newline |
| SqlSpans.SkipDollar | src/execsql/format.py:248-256 | A dollar-quoted body runs through the next occurrence of its own tag, or to the end |
| SqlSpans.RegionIsOneSpan | src/execsql/format.py:186-290 | Every comment, name or literal, terminated or not, is reported as one span, and the scan goes on in code behind it |
| SqlSpans.LiteralTextsAreKept | src/execsql/format.py:360-362 | The literal texts of a text are its literal characters, grouped by where each literal opens |
| SqlSpans.Compose | src/execsql/format.py:186-290 | Scanning a text cut behind a newline is scanning its parts, the second in the mode the first ended in |
| SqlSpans.ModeAfterNewline | src/execsql/format.py:186-290 | Behind a newline a scan is never in a line comment nor right behind an identifier |
| SqlSpans.CoveredAfterNewline | src/execsql/format.py:375-397 | The start of a line lies strictly inside a literal's span if and only if the scan up to it ends inside a literal and text follows |
| SqlRegions.DollarTagIff | src/execsql/format.py:134-137 | A dollar-quote marker is found if and only if the text begins with $$ or with a letter or underscore and word characters between two dollar signs, and it is that one |
| SqlRegions.DollarBody | src/execsql/format.py:247-256 | A body between a marker and its first other occurrence is one dollar span, and code follows |
| SqlRegions.OpenDollarBody | src/execsql/format.py:247-317 | A marker that does not occur again opens a span to the end of the text, and is the tag reported as open |
| SqlRegions.QuotedText | src/execsql/format.py:234-288 | A text in quotes with each quote in it doubled is one literal or name, whatever follows but one more quote |
| SqlRegions.OpenQuotedText | src/execsql/format.py:234-288 | Without its closing quote it goes on to the end |
| SqlRegions.EscapeString | src/execsql/format.py:258-274 | e or E and a text in quotes with doubled quotes and backslash pairs is one escape string |
| SqlRegions.OpenEscapeString | src/execsql/format.py:258-274 | Without its closing quote it goes on to the end, a last backslash included |
| SqlRegions.LineCommentText | src/execsql/format.py:214-219 | A line comment is one span up to its newline or the end |
| SqlRegions.BlockCommentText | src/execsql/format.py:221-232 | A block comment with any comments nested in it is one span up to the mark that closes the outermost |
| SqlRegions.OpenBlockComment | src/execsql/format.py:221-232 | One whose innermost open comment is not closed goes on to the end |
| SqlRegions.CodeCharacter | src/execsql/format.py:209-290 | Any other character is passed over, and a letter, digit, underscore or dollar sign keeps the next e from opening an escape string |
| Layout.LiteralLineStarts | src/execsql/format.py:365-372 | The offset of every line in the joined text |
| Layout.LiteralInteriorLines | src/execsql/format.py:375-397 | The loop over spans finds exactly the lines that begin inside a literal |
| Layout.LiteralSpanningLines | src/execsql/format.py:400-420 | The loop over spans finds exactly those lines and the lines that open such a literal |
| Layout.InteriorByMode | src/execsql/format.py:375-397 | A line is interior if and only if the scan of the lines above it ends inside a literal and the text goes on |
| Layout.SkipFiller | src/execsql/format.py:186-290 | Whitespace and commas at the start of a line outside literals change neither the scan nor the literals |
| Layout.SameLayoutSameScan | src/execsql/format.py:375-420 | Changing only such filler, and never at the start of a line inside a literal, keeps every literal and the mode at every line |
| Reindent.FormatSqlBlock | src/execsql/format.py:1007-1048 | The in-place rewriting of the lines gives every line its moved form, for every depth and indent |
| Reindent.BaseIndent | src/execsql/format.py:1032-1033 | The base is the least indentation of the lines that are layout |
| Reindent.MovedIsLayout | src/execsql/format.py:1036-1048 | A line outside literals loses the base indentation and gains the prefix, nothing else; a blank one becomes empty |
| Reindent.ReindentKeepsLiterals | src/execsql/format.py:1007-1048 | Every string literal's text is the same before and after, terminated or not, for every list of lines, depth and indent |
| Reindent.ReindentIsIdempotent | src/execsql/format.py:1007-1048 | Formatting a block twice is formatting it once |
| Reindent.BaseOfReindented | src/execsql/format.py:1032-1048 | The base indentation of a formatted block is its prefix |
| DollarQuotes.OpenDollarQuote | src/execsql/format.py:293-317 | The loop returns the tag that the scan of the text, begun inside the given body if any, leaves open |
| DollarQuotes.FirstOpenIsMode | src/execsql/format.py:293-317 | The tag found among the spans is the one the scan ends in |
| DollarQuotes.OpenQuoteComposes | src/execsql/format.py:293-317 | Scanning a+b is scanning b with the tag left open by a, if a ends in a newline outside comments, names and quoted literals and no body closes right before an e' |
| DollarQuotes.CheckSplitDollarQuotes | src/execsql/cli/lint.py:679-705 | One issue for each statement that leaves a quote open with none open before it |
| DollarQuotes.WalkSeesWholeText | src/execsql/cli/lint.py:690-695 | After any number of statements the walk holds the tag open in the whole text so far |
| DollarQuotes.ReportsWhereTheTextOpens | src/execsql/cli/lint.py:679-705 | An issue is reported for a statement if and only if the whole text opens a dollar quote there that is still open behind it |
| DollarQuotes.PiecesMayDiffer | src/execsql/format.py:293-317 | A piece that ends inside a literal, and one whose body closes right before an e', for which scanning on with the tag is not scanning the whole |
| DollarQuotes.WalkMayReportWrongly | src/execsql/cli/lint.py:679-705 | Two statements, cut inside a literal, of which the second is reported though the whole text opens nothing |
| DollarQuotes.WalkIsEnoughIff | src/execsql/cli/lint.py:679-705 | What the walk holds says enough for whatever may follow if and only if the statements so far end in code and nothing is held |
| DollarQuotes.TagIsEnoughIff | src/execsql/format.py:293-317 | The open tag says enough for whatever may follow if and only if the first piece ends in code or never closes the body it began in |
| CommaStyle.ApplyLeadingComma | src/execsql/format.py:1155-1192 | The loop that rewrites the lines in place does one step per line |
| CommaStyle.ApplyAll | src/execsql/format.py:1155-1192 | After the loop exactly the lines that end in a comma and have a next SQL line gave it away, and exactly those next lines received one |
| CommaStyle.NormalizeToTrailingComma | src/execsql/format.py:1115-1152 | The loop that rewrites the lines in place does one step per line |
| CommaStyle.FindPrevSqlLine | src/execsql/format.py:1128-1132 | The nearest line above that is neither blank nor a comment, or none |
| CommaStyle.CommentOnlyIff | src/execsql/format.py:1109-1112 | A line counts as a comment if and only if the start or the end mark of a comment stands behind its leading whitespace |
| CommaStyle.SplitJoin | src/execsql/format.py:1115-1192 | Splitting a joined text at newlines gives the lines back |
| CommaLiterals.LeadingCommaKeepsLiterals | src/execsql/format.py:1155-1192 | Moving commas to the front of lines keeps the text of every literal, for every text |
| CommaLiterals.LiteralsDetermineKept | src/execsql/format.py:360-362 | Two texts have the same literals if and only if they have the same literal characters with the same openings |
| CommaLiterals.TrailingCommaKeepsLiteralsIff | src/execsql/format.py:1115-1152 | Moving commas back keeps the literals if and only if no line outside literals would hand its comma to a line that ends inside one, as the text is given |
| CommaLiterals.BreaksIsOnInput | src/execsql/format.py:1115-1152 | A step of the pass puts a comma inside a literal if and only if its line, in the text as it was given, would: earlier steps make no difference |
| CommaLiterals.TrailingCommaCanBreakALiteral | src/execsql/format.py:1115-1152 | A text whose literal the pass changes: a line in it that looks like a comment is skipped over |
| CommaRoundTrip.CommasComeBackIff | src/execsql/format.py:1115-1192 | The two passes undo each other if and only if each comma that moves has text right before it and nothing behind, and no line hands back a comma it did not receive; across comment lines, blank lines and multi-line literals |
| CommaRoundTrip.OnlyTidyComesBack | src/execsql/format.py:1115-1192 | The first line for which that does not hold is not what it was |
| CommaRoundTrip.PlainCommasComeBack | src/execsql/format.py:1115-1192 | In particular where no line starts with a comma, and each comma at a line's end has text right before it and nothing behind |
| CommaRoundTrip.LeadingCommaTwiceIff | src/execsql/format.py:1155-1192 | A second pass changes nothing if and only if no line that gives a comma away has another one to give, as the text is given |
| CommaRoundTrip.LeavesCommaAfter | src/execsql/format.py:1155-1192 | A line of the text has another comma to give if and only if it ends in a comma after the pass, having given one |
| CommaRoundTrip.LeadingCommaTwiceDiffers | src/execsql/format.py:1155-1192 | A text that a second pass changes again |
| CommaRoundTrip.CommasThereAndBackDiffers | src/execsql/format.py:1115-1192 | A text that the two passes do not give back |
| EStringMasks.ProtectEStrings | src/execsql/format.py:430-452 | The loop over the literals puts a numbered placeholder for each escape string and lists the originals in order |
| EStringMasks.RestoreEStrings | src/execsql/format.py:455-476 | The left-to-right replacement puts literals back by number and notes which were seen |
| EStringMasks.MasksComeBack | src/execsql/format.py:430-476 | Masking and putting back is the identity if and only if there is no escape string or the text does not hold the placeholders' word |
| EStringMasks.RestoredHasEveryLiteral | src/execsql/format.py:455-476 | Whatever was made of the masked text, a result holds every original unchanged and no rest of a placeholder |
| EStringMasks.WrongTextIff | src/execsql/format.py:430-476 | Of a text with escape strings comes nothing if the word is in one of them or is left between them once lookalikes are replaced, the text itself if it does not hold the word, and else a wrong text: the one with the lookalikes replaced |
| EStringMasks.LookalikeIsReplaced | src/execsql/format.py:430-476 | Masking and putting back turns E'a' 'execsqlestr0' into E'a' E'a' |
| Delimited.WriteDelimited | src/execsql/exporters/delimited.py:61-94 | A row's text is its fields' texts with the delimiter between them and a newline behind |
| Delimited.WrittenAsItIs | src/execsql/exporters/delimited.py:61-94 | A text is written as it is if and only if quotes are not used, or not for all text and no quote, delimiter or line end is in it |
| Delimited.Opened | src/execsql/utils/fileio.py:996-1023 | A file that is opened holds no carriage return, and is unchanged if it held none |
| Delimited.OpenedAtReturn | src/execsql/utils/fileio.py:996-1023 | A carriage return becomes one newline, together with a newline right behind it, and what stands before it is kept |
| Delimited.CsvFile.ReadAndParseLine | src/execsql/exporters/delimited.py:486-633 | The eight nested state functions read exactly what the one-character machine reads, with its errors, and leave the rest of the file |
| Delimited.SlowReader | src/execsql/exporters/delimited.py:672-691 | Records are read until the file ends or one is malformed |
| Delimited.Rows | src/execsql/exporters/delimited.py:693-714 | Blank records inside the data become empty rows as wide as the first record; those at the end are dropped |
| ReadErrors.ErrorsAreThePlaces | src/execsql/exporters/delimited.py:486-633 | A record is refused if and only if some character stands behind a closing quote, and the column of every such character is reported, in order |
| ReadErrors.FailedIsNext | src/execsql/exporters/delimited.py:676-687 | A record that cannot be read is numbered as the one behind those that were |
| ReadErrors.QuoteBehindText | src/execsql/exporters/delimited.py:556-568 | A quote behind text begins a field of its own, without a delimiter |
| RowRoundTrip.SafeIsEvenRuns | src/execsql/exporters/delimited.py:507-554 | Reading a quoted field character by character meets no trouble if and only if every run of escape characters before a quote or the end is even |
| RowRoundTrip.RowReadBack | src/execsql/exporters/delimited.py:61-94 | Every row of surviving fields is read back as one record, whatever follows it |
| RowRoundTrip.RowComesBackIff | src/execsql/exporters/delimited.py:486-633 | A row comes back field for field if and only if all its fields survive, it is not one field that prints nothing, and, with a space for a delimiter, no field between others prints nothing |
| RowRoundTrip.RowIsKeptIff | src/execsql/exporters/delimited.py:486-633 | And it comes back as it was, values and all, if and only if moreover no empty text is left unquoted |
| RowRoundTrip.RowLost | src/execsql/exporters/delimited.py:507-554 | If some field does not survive, the row comes back neither as it was nor as surviving fields would, for every delimiter |
| RowRoundTrip.EscapeAtEndIsLost | src/execsql/exporters/delimited.py:61-94 | A quoted backslash, with the backslash for an escape character, is not read back, whatever follows |
| RowRoundTrip.ReadBackIsSame | src/execsql/exporters/delimited.py:61-94 | What is lost of a surviving row is at most the difference between an empty text and no value, and nothing with all text quoted; without an escape character every field survives |
| LastLine.LastLineIff | src/execsql/exporters/delimited.py:605-633 | At the end of a file a row is read without its newline as with it if and only if its last field is not an empty text in quotes, one character behind a delimiter, or nothing behind a delimiter with something before it |
| LastLine.OneMoreValue | src/execsql/exporters/delimited.py:605-633 | With a space for a delimiter, a b at the end of a file is read as three values, and as two with a newline behind |
| FileRoundTrip.FileReadBack | src/execsql/exporters/delimited.py:693-714 | A header and rows of its width, written line by line and opened again, come back without the blank lines at the end |
| FileRoundTrip.FileComesBackIff | src/execsql/exporters/delimited.py:61-94 | A file of any format, written, opened and read, is the same header and rows if and only if no field holds a carriage return, every field survives, none is eaten, no empty text is left unquoted, and it does not end in a blank line |
| FileRoundTrip.ReturnInField | src/execsql/utils/fileio.py:996-1023 | A field with a carriage return is not read back, although it is quoted |
| FileRoundTrip.RowsBehindHeader | src/execsql/exporters/delimited.py:693-714 | Behind the header, blank lines inside the data come back as rows of no values |
| BlankLines.RecordEndsAtEvenNewline | src/execsql/exporters/delimited.py:486-633 | With no escape character a record ends exactly at the first newline with an even number of quotes before it |
| BlankLines.BlankLinesAsEmptyRows | src/execsql/exporters/delimited.py:792-823 | At any chunk size the chunks make up the same text, each but the last at least that long |
| BlankLines.JoinPhysicalLines | src/execsql/exporters/delimited.py:396-405 | Joining physical lines until the quotes balance takes exactly the record the reader takes |
| BlankLines.OnlyBlankLinesAreEmpty | src/execsql/exporters/delimited.py:693-714 | A record without fields is a blank line and nothing else |
| BlankLines.RewrittenReads | src/execsql/exporters/delimited.py:792-823 | Reading the rewritten text gives what the row reader makes of the original's records, if no line outside quotes is a carriage return alone |
| BlankLines.SameRows | src/execsql/exporters/delimited.py:792-823 | Of every opened file with two or more columns behind a header line, both treatments of blank lines load the same rows |
| BlankLines.SameRowsIff | src/execsql/exporters/delimited.py:792-823 | Of text that is not translated on opening, which the program never reads, they do so if and only if no line outside quotes is a carriage return alone |
| DuckDb.SharedCursor.constructor | src/execsql/db/duckdb.py:98-104 | A new cursor has nothing to deliver |
| DuckDb.SharedCursor.Execute | src/execsql/db/duckdb.py:109-118 | The cursor has its own query's rows to deliver; every other cursor keeps what it had, and none of them is pending |
| DuckDb.SharedCursor.ExecuteMany | src/execsql/db/duckdb.py:120-126 | The statement runs once for each row of parameters up to the first that fails; no rows to deliver, and every other cursor keeps what it had |
| DuckDb.EachStopsAtFailure | src/execsql/db/duckdb.py:120-126 | What the rows before a failing one stored stays stored outside a transaction, and inside one nothing is durable and the transaction is aborted |
| DuckDb.SharedCursor.ReadAhead | src/execsql/db/duckdb.py:128-132 | Freeing the connection changes what no cursor has to deliver, this one included |
| DuckDb.SharedCursor.FetchMany | src/execsql/db/duckdb.py:134-143 | The first rows that remain, as many as asked for or the array size |
| DuckDb.SharedCursor.FetchOne | src/execsql/db/duckdb.py:145-147 | The first row that remains, or none |
| DuckDb.SharedCursor.FetchAll | src/execsql/db/duckdb.py:149-156 | All rows that remain |
| DuckDb.SharedCursor.Close | src/execsql/db/duckdb.py:158-162 | Nothing left to deliver here, and nothing changed elsewhere |
| DuckDb.FetchSize | src/execsql/db/duckdb.py:134-137 | As many as asked for, or the array size if nothing or 0 is asked for, when that many remain, and else what remains |
| DuckDb.DuckDBDatabase.TakeConnection | src/execsql/db/duckdb.py:214-219 | Afterwards at most the new holder is pending, and every cursor has the same rows to deliver |
| DuckDb.DuckDBDatabase.ReleaseConnection | src/execsql/db/duckdb.py:221-223 | Only the holder can release the connection |
| DuckDb.DuckDBDatabase.Cursor | src/execsql/db/duckdb.py:208-212 | A fresh cursor on the one connection |
| DuckDb.DuckDBDatabase.BeginTransaction | src/execsql/db/duckdb.py:225-233 | A transaction is open afterwards and none is aborted: no BEGIN runs inside an open one |
| DuckDb.DuckDBDatabase.RollbackTx | src/execsql/db/duckdb.py:272-295 | Whatever the transaction's state, it is undone, and the flag is off as the driver's is |
| DuckDb.DuckDBDatabase.CommitTx | src/execsql/db/duckdb.py:258-270 | Under autocommit what the open transaction saw is durable afterwards and no transaction is open; a commit that fails leaves durable what was; otherwise nothing changes |
| DuckDb.DuckDBDatabase.BeforeStatement | src/execsql/db/base.py:303-335 | A statement that is held finds a transaction open, and transaction control finds things as they were |
| DuckDb.DuckDBDatabase.OnCursor | src/execsql/db/base.py:249-259 | A statement on a cursor of its own takes nothing from other cursors |
| DuckDb.DuckDBDatabase.Execute | src/execsql/db/duckdb.py:235-256 | For each kind of statement, when it succeeds, what is durable, what is seen and whether a transaction is open afterwards; the rows it answers with; a failure undoes the open transaction |
| DuckDb.DuckDBDatabase.AutocommitOn | src/execsql/db/base.py:350-352 | The setting is on and nothing else has changed |
| DuckDb.DuckDBDatabase.AutocommitOff | src/execsql/db/base.py:354-356 | The setting is off and nothing else has changed |
| DuckDb.ExecTracks | src/execsql/db/duckdb.py:235-256 | The driver's answer to any statement, and the rollback after a failure, are the adapter's view of it |
| DuckDb.ExecutesAs | src/execsql/db/duckdb.py:235-256 | The same for the reference step, statement by statement |
| DuckDbLoad.PerStatement | src/execsql/db/duckdb.py:76-76 | As many rows as 10 000 values allow, and one row where it alone has more |
| DuckDbLoad.InsertRows | src/execsql/db/duckdb.py:66-82 | The statements' rows make up the batch in order, each within that limit, and it is stored whole or the load fails |
| DuckDbLoad.StoredInParts | src/execsql/db/duckdb.py:80-82 | Inserting in parts stores what inserting at once stores |
| DuckDbLoad.StoredIff | src/execsql/db/duckdb.py:66-82 | The rows are stored behind what was there, in their order, if and only if each fits with the rows before it |
| DuckDbLines.AnyNonEmpty | src/execsql/db/base.py:863-875 | Whether a cell past the last column holds something |
| DuckDbLines.CleanLine | src/execsql/db/base.py:884-903 | Every text trimmed, put on one line and made NULL if empty, as set |
| DuckDbLines.CleanCellAsSet | src/execsql/db/base.py:884-903 | A text is trimmed, then put on one line, then NULL if nothing is left, each as set; other cells stay |
| DuckDbLines.ConvertLine | src/execsql/db/base.py:906-906 | The loop over the columns gives the converted row, or the first error |
| DuckDbLines.ConvertedCells | src/execsql/db/base.py:906-906 | The row holds, in the order of the columns, exactly the included columns' cells converted; if one cannot be, the error is that of the first |
| DuckDbLines.PrepareLine | src/execsql/db/base.py:860-911 | What one line of the source becomes: too many columns, nothing, a bad value, or a row |
| DuckDbLines.RowOfLine | src/execsql/db/base.py:860-911 | Cell by cell the row of a line; it gives none just if it is one NULL or all values are NULL and empty rows are off, and too many columns just if a cell behind the last may not be dropped |
| DuckDbLines.RowsFollowLines | src/execsql/db/base.py:852-911 | The rows are those of the lines that give one, in order; an error is that of the first line that has one |
| DuckDbLines.CellsOfRows | src/execsql/db/base.py:852-911 | Each stored row has one value for each included column: its line's cell, cleaned or NULL if left off, and converted |
| DuckDbLoad.LoadBatch | src/execsql/db/base.py:852-934 | A batch takes the next lines in order, and an error in it cannot be repaired by lines still to come |
| DuckDbLoad.PopulateTable | src/execsql/db/base.py:756-954 | For every batch size: if every line can be prepared and every row fits, the open transaction sees what it saw before and behind it all rows in order, and nothing more is durable; else all of it is undone |
| DuckDbLoad.LoadIsAllOrNothing | src/execsql/db/base.py:818-949 | The same for the reference step: all rows of the source in the open transaction, or the transaction gone with all that was in it |
| DuckDbRuns.RunOnCursor | src/execsql/db/base.py:419-468 | A statement on one cursor, with the closing and the rollback that follow a failing one, is the reference step |
| DuckDbRuns.FetchFromCursor | src/execsql/db/duckdb.py:134-162 | A fetch or close is the reference step |
| DuckDbRuns.OnDatabase | src/execsql/db/duckdb.py:225-295 | A step on the database, a statement or a load is the reference step, and takes no rows from any cursor |
| DuckDbRuns.RunAll | src/execsql/db/duckdb.py:85-295 | For every interleaving of cursors, transactions, statements, settings and loads, failing ones included, the adapter delivers what cursors with rows of their own would, and the flag equals the driver's throughout |
| DuckDbRuns.DeliversItsOwnRows | src/execsql/db/duckdb.py:85-95 | Whatever happens elsewhere, what a cursor has delivered since its query and what it still has are the query's rows in order |
| DuckDbRuns.AsIfOnItsOwnConnection | src/execsql/db/duckdb.py:85-95 | Taking every step of other cursors that leaves the database as it was out of a run, queries, fetches and closes, changes nothing a cursor delivers |
| DuckDbRuns.HeldStatementsAreNotDurable | src/execsql/db/base.py:292-335 | Statements that are held, failing ones and loads included, change nothing durable before a commit, and a rollback restores the database |
| DuckDbRuns.CommitStoresTheRun | src/execsql/db/base.py:358-380 | After any run of held steps, loads included, a commit makes durable what the open transaction saw; a rollback or a failing commit leaves what was durable before the run; under AUTOCOMMIT OFF a commit does nothing |
| DuckDbRuns.ScriptIsStored | src/execsql/db/base.py:303-380 | Statements between BEGIN and COMMIT, each working on what the one before made, are stored as a whole, and between BEGIN and ROLLBACK not at all |
| DuckDbRuns.HeldScriptIsStored | src/execsql/db/base.py:303-380 | Under AUTOCOMMIT OFF and in a batch they are so without BEGIN, and not before the commit |
| DuckDbRuns.LoadIsStored | src/execsql/db/base.py:818-949 | A load begun outside a transaction and committed leaves the old content and every prepared row, or the old content |
| DuckDbRuns.ListOfParameters | src/execsql/db/duckdb.py:120-126 | A statement run for a list: outside a transaction what came before a failure stays done, inside one all is undone |
| DuckDbRuns.QueryIsDelivered | src/execsql/db/duckdb.py:109-156 | What is fetched after a query, whatever else happens, is a first part of its answer on the content it ran on, and all of it once the rest is fetched |
| DuckDbRuns.FetchesTakeTheNext | src/execsql/db/duckdb.py:134-162 | How many of the next rows each fetch delivers |
| Decimals.ScaleCheckIsExact | src/execsql/db/target_types.py:300-317 | The check on digits refuses a value if and only if it is not a multiple of 10^-scale, for all digits, exponents and scales |
| Decimals.LastDigits | src/execsql/db/target_types.py:310-311 | The last k digits are zeros if and only if 10^k divides the coefficient |
| Decimals.PointKeepsValue | src/execsql/db/target_types.py:335-348 | Writing a number with its point anywhere, and the exponent to match, keeps its value |
| Decimals.BindingIsExact | src/execsql/db/target_types.py:320-349 | A bound parameter has the number's value and fits the database's digits; its length is bounded by them; a number is refused just when it has a positive exponent and too many digits |
| Decimals.WholeNumberNeverRounds | src/execsql/db/target_types.py:249-287 | An integer that is loaded equals its source; below 40 digits a number is loaded as an integer if and only if it is whole, and refused if it is not |
| Decimals.WholeIff | src/execsql/db/target_types.py:277-278 | Equal to its integral value if and only if it is a multiple of one, and then its integer part is the value |
| Decimals.ExactDecimalKeepsValue | src/execsql/db/target_types.py:352-385 | A number loaded into a decimal column is bound unchanged and a multiple of the column's unit; each refusal has its cause |
| Decimals.SizeOf | src/execsql/types.py:507-522 | The scale is the number of decimals written, and the rest of the precision the digits before the point, with one for a number below 0.1 |
| Decimals.SizeHolds | src/execsql/types.py:507-522 | A DECIMAL(p, s) with the scale and the digits before the point found for a number, or more, holds it exactly |
| Decimals.SizeHoldsIff | src/execsql/types.py:507-522 | A DECIMAL(p, s) holds a number whose last digit is not 0 if and only if it has room for all its digits behind the point and before it |
| FloatExact.DoubleNearby | src/execsql/models.py:52-54 | Every number of ordinary size has a binary64 number within half a unit of its last bit |
| FloatExact.ReadsBack | src/execsql/models.py:52-54 | The double nearest to n * 10^e with fewer than 16 digits is nearer to it than to any other multiple of 10^e |
| FloatExact.DecimalSurvivesDouble | src/execsql/models.py:139-154 | So is the double of every decimal whose precision is at most 15 |
| Inference.DataType.MatchDate | src/execsql/types.py:226-245 | Whether some format reads the text; moving it to the front only permutes the formats |
| Inference.DataType.IsMatch | src/execsql/types.py:93-112 | A type's answer depends on the value alone, although its formats move |
| Inference.Accum.Record | src/execsql/models.py:111-137 | Counts, lengths and maxima after one more value |
| Inference.Accum.PrefersFloat | src/execsql/models.py:139-154 | Different scales, no value of more than 15 digits, and no setting against it |
| Inference.CheckEach | src/execsql/models.py:253-261 | Every type tried is checked, and whether one failed |
| Inference.StillLive | src/execsql/models.py:262-265 | The types that have not failed, and no others |
| Inference.Column.EvalTypes | src/execsql/models.py:232-265 | Trying only types that have not failed leaves the statistics of trying all types on all values |
| Inference.Column.ColumnType | src/execsql/models.py:267-312 | The type chosen, cached or not, is the one the naive statistics choose |
| Inference.ScanColumn | src/execsql/models.py:318-372 | Scanning a whole column finds the type of the naive scan |
| Inference.AllCovered | src/execsql/models.py:102-137 | The statistics of a type that counted every value bound every value's length, precision and digits |
| Inference.FirstFitFits | src/execsql/models.py:279-297 | The chosen type fits and no type before it in the list does, or no type does |
| TypeChoice.MostSpecificType | src/execsql/models.py:184-208 | The type found takes all values and no type before it in the order does: dates, times and booleans, numbers, texts, and bytes behind or, for values not read as something else, before the texts |
| TypeChoice.TakesIffFits | src/execsql/models.py:279-297 | The statistics choose a type if and only if it takes every value: lengths that agree for a fixed length, scales that agree or more than 15 digits for decimals |
| TypeChoice.DeclaredAsNeeded | src/execsql/models.py:299-312 | Length, precision and scale are no larger than the values need |
| TypeChoice.ValuesOfColumn | src/execsql/models.py:232-247 | The values of a column are its cells in order, cleaned as set, without those that count as NULL |
| Inference.TypeHoldsAllValues | src/execsql/models.py:267-312 | The chosen type accepts every value, its length is enough for each, and its DECIMAL(p, s) holds each number exactly |
| Inference.FloatColumnLosesNothing | src/execsql/models.py:139-154 | If decimals give way to a float column, every value reads back from its double |
| Inference.VarLenIff | src/execsql/models.py:118-123 | Lengths count as equal if and only if every value has the greatest length, but for empty values before the first other one |
| Inference.FixedLengthIfFirstIsNotEmpty | src/execsql/models.py:118-123 | With a first value that is not empty, lengths count as equal if and only if they are |
| Inference.EmptyFirstValueIsMissed | src/execsql/models.py:118-123 | With only the text types to choose from, an empty text and one of three characters are given a fixed length of three |
| NumericParser.SourceString.EatWhitespace | src/execsql/parser.py:55-58 | The cursor moves past all blanks and no further |
| NumericParser.SourceString.MatchStr | src/execsql/parser.py:60-67 | A character is matched past blanks; if it is not there only the blanks are passed |
| NumericParser.SourceString.MatchRegex | src/execsql/parser.py:69-78 | The match and the cursor behind it, or only the blanks passed |
| NumericParser.Parser.MatchNumber | src/execsql/parser.py:414-425 | A float if the text can be one, else an integer, else nothing |
| NumericLiterals.FloatLiteral | src/execsql/parser.py:410-421 | A sign, digits, a point and digits, not all left off, is one float; times ten to the number of its decimals it is its digits as a whole number with that sign |
| NumericLiterals.IntLiteral | src/execsql/parser.py:410-425 | A sign and digits are that whole number |
| NumericLiterals.NumberText | src/execsql/parser.py:410-425 | There are no other numbers |
| NumericLiterals.SignOfFloat | src/execsql/parser.py:410-421 | A minus sign negates a float literal, a plus sign leaves it |
| NumericParser.Parser.ParseFactor | src/execsql/parser.py:453-473 | The method and its cursor do what the recursive definition says, errors included |
| NumericParser.Parser.ParseTerm | src/execsql/parser.py:475-484 | The loop joins factors to the node before them |
| NumericParser.Parser.ParseExpression | src/execsql/parser.py:486-497 | The loop joins terms to the node before them |
| NumericParser.Parser.ParseAll | src/execsql/parser.py:499-506 | A tree only if the whole text is consumed |
| NumericGrammar.ParsesToItsTree | src/execsql/parser.py:404-506 | Every text of the grammar, with any blanks and parentheses, is parsed to the tree it stands for |
| NumericGrammar.StructureOf | src/execsql/parser.py:404-506 | Every text that parses has a structure by the grammar that stands for its tree |
| NumericGrammar.ParserIsTheGrammar | src/execsql/parser.py:404-506 | A text parses to a tree if and only if it is written by the grammar for that tree |
| NumericGrammar.MissingParenthesis | src/execsql/parser.py:453-473 | A sum behind a parenthesis that is not closed is refused for that |
| NumericGrammar.MissingTerm | src/execsql/parser.py:453-497 | A sum with a sign and nothing behind it is refused for a missing factor |
| NumericGrammar.SomethingBehind | src/execsql/parser.py:499-506 | A sum with something behind it that cannot belong to it is refused as not consumed |
| NumericGrammar.WrittenTreeComesBack | src/execsql/parser.py:404-506 | A tree over + - * /, whole numbers and finite decimals, written out, parses to itself; no text parses to any other tree |
| NumericGrammar.FewestInSum | src/execsql/parser.py:453-497 | No text for a tree has fewer parentheses than that one |
| NumericGrammar.SumIsRunningTotal | src/execsql/parser.py:169-187 | The value of a sum is its terms added and taken away one after the other from the left |
| NumericGrammar.ProductIsRunningProduct | src/execsql/parser.py:169-187 | The value of a term is its factors multiplied and divided one after the other from the left, and none if it divides by zero |
| ConfigChain.ConfigData.Apply | src/execsql/config.py:464-477 | After each file, an option's source is the latest of the files read that sets it, and its value the one found there |
| ConfigChain.ConfigData.ReadFiles | src/execsql/config.py:457-477 | The worklist ends and reads the files of the recursive walk in its order, or those up to the first that fails |
| ConfigChain.ValidateConfig | src/execsql/config_validation.py:268-282 | The twin loop visits the files of the walk, and reports what is wrong with them in the order of the files and of the lines of each; a problem is reported if and only if it is found in a checked file |
| ConfigChain.ByLineIsStable | src/execsql/config_validation.py:279-279 | Problems of one line stay in the order they were found in |
| ConfigChain.PushedInFront | src/execsql/config.py:473-474 | Pushing files to the front one by one reverses them |
| ConfigChain.ChainedFilesComeNext | src/execsql/config.py:457-474 | Behind a file come the files it chains to, the last named first, and only what can be reached from it, before whatever was waiting |
| ConfigChain.AtMostTwentyFiles | src/execsql/config.py:457-474 | On any graph at most 20 files are visited, all of them there and none twice |
| ConfigChain.ReadsWhatIsReachable | src/execsql/config.py:457-474 | Every file visited can be reached, and if fewer than 20 were visited they are all that can |

## Left out

- DuckDbRuns.RunOnCursor: a failing statement is followed by closing the cursor and rolling back, as in `select_data`, `select_rowsource` and `select_rowdict`; a few catalog queries and the import of a whole file into one value only close it.
- BlankLines.SameRows: for two or more columns, as a blank line and an empty row look the same with one column.
- EStringMasks.RestoreEStrings: a placeholder's number is written in the digits 0 to 9; the original's expression also takes other decimal digits of Unicode.
- Delimited.WriteDelimited: fields are texts or missing; other values are printed with Python's `str`, which is not modelled.
- Delimited.Rows: the settings that drop columns are off, and the fast path through Python's `csv` module is not part of this model.
- FileRoundTrip.FileComesBackIff: the reader is the one that goes character by character, which the program uses where the delimiter is a space or there is an escape character; other files it reads with Python's `csv` module, which is not part of this model.
- Delimited.CsvFile.ReadAndParseLine: a file is its decoded characters; encodings and junk lines before the header are not modelled.
- NumericParser.Parser.MatchNumber: a float literal is its exact decimal value; rounding to binary64 is not modelled.
- NumericGrammar.SumIsRunningTotal: values are exact numbers, so floating-point rounding is not modelled.
- NumericGrammar.ProductIsRunningProduct: the same.
- Inference.Column.EvalTypes: the matchers of single types are given functions, except for dates and decimals; NaN and the infinities are not modelled.
- Inference.ScanColumn: one column at a time; the checks on the width of rows and the filling of short rows, which the scan of a table makes, are not part of this model.
- Decimals.BindingIsExact: finite numbers only; Python's `Decimal` contexts and exponent limits are not modelled.
- DuckDbLines.CleanLine: stripping white space, and putting a text on one line, are given functions; so is the conversion of a value to its column's type.
- DuckDbLoad.InsertRows: a table is a test on the content and the row, so constraints that look at a whole statement are not modelled.
- DuckDb.DuckDBDatabase.Execute: a statement text is one command, already classified; a text of several commands, `$LAST_ROWCOUNT` and the reading of a `Count` answer are not modelled.
- DuckDb.DuckDBDatabase.RollbackTx: reading ahead a pending result does not fail; an error of the driver at fetch time, which the original passes over here, is not modelled.
- DuckDb.DuckDBDatabase.CommitTx: the same; there the original rolls back and reports it.
- ConfigChain.ConfigData.Apply: options are entries of a map; how a single option is checked and turned into an attribute is not modelled.
- SQL formatting through sqlglot and everything that depends on its output, and the masking of variables.
- Real drivers, files, encodings, the language server, the command line, logging and progress bars: a driver is its durable rows, the open transaction's rows and one pending result.
- The metacommand executor, batch levels, the script parser, DSN parsing and the other exporters, which would only add easy members.
- How a configuration file is parsed: a file is what it chains to, what it sets, and whether reading it fails.
