/** Blank lines, treated twice.

    Where the data has an empty line, the reader of a delimited file gives a row of no values
    (`Delimited.RowsFrom`).  For a server that reads the raw file and rejects blank lines,
    `blank_lines_as_empty_rows` rewrites the text line by line, counting quote characters to tell a blank
    line from a newline inside a quoted value.  `SameRows` says that both load the same rows. */
module BlankLines {
  import opened Common
  import opened Options
  import opened Delimited
  import opened RowRoundTrip

  function Count(q: Option<char>, s: string): nat {
    if s == "" then 0 else (if q == Some(s[0]) then 1 else 0) + Count(q, s[1..])
  }

  // ---------------------------------------------------------------------------------------------
  // Where a record ends
  // ---------------------------------------------------------------------------------------------

  /** Whether a newline outside quotes ends the record at the start of `s`; `odd` says whether it starts
      inside quotes. */
  predicate Ended(q: Option<char>, s: string, odd: bool) {
    s != "" && ((s[0] == '\n' && !odd) || Ended(q, s[1..], if q == Some(s[0]) then !odd else odd))
  }

  /** How long that record is, its newline included. */
  function RecordLen(q: Option<char>, s: string, odd: bool): (n: nat)
    ensures n <= |s| && (s != "" ==> n >= 1)
  {
    if s == "" then 0
    else if s[0] == '\n' && !odd then 1
    else 1 + RecordLen(q, s[1..], if q == Some(s[0]) then !odd else odd)
  }

  /** Whether the text behind `s` is inside quotes. */
  predicate OddAfter(q: Option<char>, s: string, odd: bool) {
    if s == "" then odd else OddAfter(q, s[1..], if q == Some(s[0]) then !odd else odd)
  }

  lemma {:induction false} OddIsCount(q: Option<char>, s: string, odd: bool)
    ensures OddAfter(q, s, odd) <==> (Count(q, s) + if odd then 1 else 0) % 2 == 1
    decreases |s|
  {
    if s != "" {
      OddIsCount(q, s[1..], if q == Some(s[0]) then !odd else odd);
    }
  }

  /** Of the newlines in a record, exactly the one that ends it has an even number of quotes before it. */
  lemma {:induction false} NewlineInRecord(q: Option<char>, s: string, odd: bool, k: nat)
    requires q != Some('\n') && k < RecordLen(q, s, odd) && s[k] == '\n'
    ensures OddAfter(q, s[..k], odd) <==> !(Ended(q, s, odd) && k == RecordLen(q, s, odd) - 1)
    decreases |s|
  {
    if k > 0 {
      var odd' := if q == Some(s[0]) then !odd else odd;
      assert s[..k][1..] == s[1..][..k - 1];
      NewlineInRecord(q, s[1..], odd', k - 1);
    } else {
      assert s[..k] == "";
    }
  }

  lemma {:induction false} RecordEnd(q: Option<char>, s: string, odd: bool)
    ensures var n := RecordLen(q, s, odd); if Ended(q, s, odd) then n >= 1 && s[n - 1] == '\n' else n == |s|
    decreases |s|
  {
    if s != "" && !(s[0] == '\n' && !odd) {
      RecordEnd(q, s[1..], if q == Some(s[0]) then !odd else odd);
    }
  }

  /** The reader's state is nothing but the parity of the quotes it has passed, as far as the end of a record
      is concerned. */
  lemma {:induction false} RunEndsByParity(fmt: Format, r: Reader, s: string, odd: bool)
    requires Distinct(fmt) && fmt.escape.None?
    requires !r.state.End? && !r.state.Escaped? && (r.state.InQuoted? <==> odd)
    ensures var (r', rest) := Run(fmt, r, s);
            rest == s[RecordLen(fmt.quote, s, odd)..] && (r'.state.End? <==> Ended(fmt.quote, s, odd))
    decreases |s|
  {
    if s != "" {
      var r1 := Step(fmt, r, s[0]);
      if !r1.state.End? {
        var odd' := if fmt.quote == Some(s[0]) then !odd else odd;
        RunEndsByParity(fmt, r1, s[1..], odd');
      }
    }
  }

  /** With no escape character, a record ends exactly at the first newline with an even number of quotes
      before it, whatever else is in the text. */
  lemma RecordEndsAtEvenNewline(fmt: Format, text: string)
    requires Distinct(fmt) && fmt.escape.None?
    ensures var line := ParseLine(fmt, text); var n := RecordLen(fmt.quote, text, false);
            && line.rest == text[n..] && line.atEof == !Ended(fmt.quote, text, false)
            && (!line.atEof ==> n >= 1 && text[n - 1] == '\n')
            && forall k :: 0 <= k < n && text[k] == '\n' ==>
                             (Count(fmt.quote, text[..k]) % 2 == 0 <==> !line.atEof && k == n - 1)
  {
    hide Run, Finish, Count, OddAfter, RecordLen, Ended;
    RunEndsByParity(fmt, NewReader, text, false);
    RecordEnd(fmt.quote, text, false);
    forall k | 0 <= k < RecordLen(fmt.quote, text, false) && text[k] == '\n'
      ensures Count(fmt.quote, text[..k]) % 2 == 0 <==>
                Ended(fmt.quote, text, false) && k == RecordLen(fmt.quote, text, false) - 1
    {
      NewlineInRecord(fmt.quote, text, false, k);
      OddIsCount(fmt.quote, text[..k], false);
    }
  }

  /** A record is read from its own characters alone. */
  lemma {:induction false} RunIsLocal(fmt: Format, r: Reader, s: string, n: nat, more: string)
    requires n <= |s| && !r.state.End? && Run(fmt, r, s).0.state.End? && Run(fmt, r, s).1 == s[n..]
    ensures Run(fmt, r, s[..n] + more) == (Run(fmt, r, s).0, more)
    decreases |s|
  {
    var r1 := Step(fmt, r, s[0]);
    RunShrinks(fmt, r1, s[1..]);
    assert n >= 1;
    assert s[..n] + more == [s[0]] + (s[1..][..n - 1] + more);
    RunStep(fmt, r, s[0], s[1..][..n - 1] + more);
    if r1.state.End? {
      assert n == 1;
      assert s[1..][..0] + more == more;
    } else {
      assert s[1..][n - 1..] == s[n..];
      RunIsLocal(fmt, r1, s[1..], n - 1, more);
    }
  }

  /** Past the first character of a record that is not a blank line, there is something to hand on. */
  predicate HasText(r: Reader) {
    r.elements != [] || r.state.InQuoted? || r.state.Escaped? || r.state.QuoteInQuoted? || r.state.InUnquoted?
  }

  lemma {:induction false} RunHasText(fmt: Format, r: Reader, s: string)
    requires HasText(r) && (r.state.Delimiter? ==> r.elements != []) && Run(fmt, r, s).0.state.End?
    ensures Run(fmt, r, s).0.elements != []
    decreases |s|
  {
    if !r.state.End? && s != "" {
      RunHasText(fmt, Step(fmt, r, s[0]), s[1..]);
    }
  }

  lemma OnlyBlankLinesAreEmpty(fmt: Format, text: string)
    requires Distinct(fmt) && text != "" && !ParseLine(fmt, text).atEof && ParseLine(fmt, text).outcome.Ok?
    ensures ParseLine(fmt, text).outcome.value == [] <==> text[0] == '\n'
  {
    if text[0] == '\n' {
      BlankLine(fmt, text[1..]);
      assert "\n" + text[1..] == text;
    } else {
      RunHasText(fmt, Step(fmt, NewReader, text[0]), text[1..]);
    }
  }

  // ---------------------------------------------------------------------------------------------
  // Rewriting the text
  // ---------------------------------------------------------------------------------------------

  /** The length of the first line, its newline included. */
  function LineLen(s: string): (n: nat)
    ensures n <= |s| && (s != "" ==> n >= 1)
    ensures n < |s| ==> s[n - 1] == '\n'
  {
    if s == "" then 0 else if s[0] == '\n' then 1 else 1 + LineLen(s[1..])
  }

  predicate IsBlankLine(line: string) { line == "\n" || line == "\r\n" }

  function EmptyRow(delimiter: char, columns: nat): string {
    seq(if columns == 0 then 0 else columns - 1, _ => delimiter) + "\n"
  }

  function EmptyRows(delimiter: char, columns: nat, n: nat): string {
    if n == 0 then "" else EmptyRow(delimiter, columns) + EmptyRows(delimiter, columns, n - 1)
  }

  /** The rewritten text: from a line on, when `pending` blank lines were seen before it. */
  function Rewritten(delimiter: char, q: Option<char>, columns: nat, s: string, inQuotes: bool, pending: nat): string
    decreases |s|
  {
    if s == "" then ""
    else
      var line, rest := s[..LineLen(s)], s[LineLen(s)..];
      if !inQuotes && IsBlankLine(line) then Rewritten(delimiter, q, columns, rest, inQuotes, pending + 1)
      else
        EmptyRows(delimiter, columns, pending)
        + (line + Rewritten(delimiter, q, columns, rest, Toggled(q, line, inQuotes), 0))
  }

  /** Whether the next line starts inside quotes: an odd number of quotes opens or closes them. */
  predicate Toggled(q: Option<char>, line: string, inQuotes: bool) {
    if Count(q, line) % 2 == 1 then !inQuotes else inQuotes
  }

  lemma RewrittenLine(delimiter: char, q: Option<char>, columns: nat, s: string, inQuotes: bool, pending: nat)
    requires s != ""
    ensures var line, rest := s[..LineLen(s)], s[LineLen(s)..];
            Rewritten(delimiter, q, columns, s, inQuotes, pending) ==
            if !inQuotes && IsBlankLine(line) then Rewritten(delimiter, q, columns, rest, inQuotes, pending + 1)
            else
              EmptyRows(delimiter, columns, pending)
              + (line + Rewritten(delimiter, q, columns, rest, Toggled(q, line, inQuotes), 0))
  {
    hide LineLen, EmptyRows, IsBlankLine, Toggled;
  }

  lemma ConcatSnoc(chunks: seq<string>, chunk: string)
    ensures Concat(chunks + [chunk]) == Concat(chunks) + chunk
  {
    assert (chunks + [chunk])[..|chunks|] == chunks;
  }

  /** The chunks, what is buffered and what is still to come make up the whole. */
  ghost predicate Emitted(chunks: seq<string>, buf: string, rest: string, whole: string) {
    Concat(chunks) + (buf + rest) == whole
  }

  lemma EmittedLine(chunks: seq<string>, buf: string, rows: string, line: string, rest: string, whole: string)
    requires Emitted(chunks, buf, rows + (line + rest), whole)
    ensures Emitted(chunks, buf + rows + line, rest, whole)
    ensures rows == "" ==> Emitted(chunks, buf + line, rest, whole)
  {
    assert buf + (rows + (line + rest)) == buf + rows + line + rest;
    assert rows == "" ==> buf + rows == buf;
  }

  lemma EmittedChunk(chunks: seq<string>, buf: string, rest: string, whole: string)
    requires Emitted(chunks, buf, rest, whole)
    ensures Emitted(chunks + [buf], "", rest, whole)
  {
    ConcatSnoc(chunks, buf);
  }

  lemma EmittedAll(chunks: seq<string>, buf: string, whole: string)
    requires Emitted(chunks, buf, "", whole)
    ensures Concat(chunks + [buf]) == whole && (buf == "" ==> Concat(chunks) == whole)
  {
    ConcatSnoc(chunks, buf);
    assert buf + "" == buf;
  }

  /** `blank_lines_as_empty_rows`.  Whatever the chunk size, the chunks make up the same text, and each but
      the last is at least that long. */
  method BlankLinesAsEmptyRows(f: string, delimiter: char, quotechar: Option<char>, columns: nat, chunkSize: nat)
    returns (chunks: seq<string>)
    ensures Concat(chunks) == Rewritten(delimiter, quotechar, columns, f, false, 0)
    ensures chunks != [] ==> AtLeast(chunks[..|chunks| - 1], chunkSize) && AtLeast(chunks, 1)
  {
    hide EmptyRows, Count, Concat, LineLen, IsBlankLine, Rewritten, AtLeast, Emitted, Toggled;
    chunks := [];
    var inQuotes, pendingBlank, buf, size := false, 0, "", 0;
    var pos := 0;
    assert f[0..] == f;
    ghost var whole := Rewritten(delimiter, quotechar, columns, f, false, 0);
    NothingYet(whole, chunkSize);
    while pos < |f|
      invariant pos <= |f| && size == |buf|
      invariant Emitted(chunks, buf, Rewritten(delimiter, quotechar, columns, f[pos..], inQuotes, pendingBlank), whole)
      invariant AtLeast(chunks, chunkSize) && AtLeast(chunks, 1)
      decreases |f| - pos
    {
      var line := f[pos..][..LineLen(f[pos..])];
      NextLine(f, pos);
      RewrittenLine(delimiter, quotechar, columns, f[pos..], inQuotes, pendingBlank);
      pos := pos + |line|;
      if !inQuotes && IsBlankLine(line) {
        pendingBlank := pendingBlank + 1;
        continue;
      }
      ghost var rest := Rewritten(delimiter, quotechar, columns, f[pos..], Toggled(quotechar, line, inQuotes), 0);
      EmittedLine(chunks, buf, EmptyRows(delimiter, columns, pendingBlank), line, rest, whole);
      NoEmptyRows(delimiter, columns);
      if pendingBlank > 0 {
        buf := buf + EmptyRows(delimiter, columns, pendingBlank);
        size := |buf|;
        pendingBlank := 0;
      }
      Toggles(quotechar, line, inQuotes);
      if quotechar.Some? && Count(quotechar, line) % 2 == 1 {
        inQuotes := !inQuotes;
      }
      buf := buf + line;
      size := size + |line|;
      if size >= chunkSize {
        EmittedChunk(chunks, buf, rest, whole);
        AtLeastSnoc(chunks, buf, chunkSize);
        AtLeastSnoc(chunks, buf, 1);
        chunks := chunks + [buf];
        buf, size := "", 0;
      }
    }
    NothingLeft(delimiter, quotechar, columns, inQuotes, pendingBlank);
    assert f[pos..] == "";
    EmittedAll(chunks, buf, whole);
    AtLeastSnoc(chunks, buf, 1);
    AllButLast(chunks, buf, chunkSize);
    if buf != "" {
      chunks := chunks + [buf];
    }
  }

  lemma Toggles(q: Option<char>, line: string, inQuotes: bool)
    ensures Toggled(q, line, inQuotes) == if q.Some? && Count(q, line) % 2 == 1 then !inQuotes else inQuotes
  {
    NoQuoteNoCount(q, line);
  }

  /** Every chunk is at least `n` characters long. */
  predicate AtLeast(chunks: seq<string>, n: nat) { forall k :: 0 <= k < |chunks| ==> |chunks[k]| >= n }

  lemma AtLeastSnoc(chunks: seq<string>, buf: string, n: nat)
    requires AtLeast(chunks, n)
    ensures |buf| >= n ==> AtLeast(chunks + [buf], n)
  {}

  lemma AllButLast(chunks: seq<string>, buf: string, n: nat)
    requires AtLeast(chunks, n)
    ensures AtLeast((chunks + [buf])[..|chunks|], n)
    ensures chunks != [] ==> AtLeast(chunks[..|chunks| - 1], n)
  {}

  lemma NextLine(f: string, pos: nat)
    requires pos <= |f|
    ensures f[pos..][LineLen(f[pos..])..] == f[pos + LineLen(f[pos..])..]
  {}

  lemma NothingLeft(delimiter: char, q: Option<char>, columns: nat, inQuotes: bool, pending: nat)
    ensures Rewritten(delimiter, q, columns, "", inQuotes, pending) == ""
  {}

  lemma NothingYet(s: string, n: nat)
    ensures Emitted([], "", s, s) && AtLeast([], n) && AtLeast([], 1)
  {}

  lemma {:induction false} NoQuoteNoCount(q: Option<char>, s: string)
    ensures q.None? ==> Count(q, s) == 0
    decreases |s|
  {
    if s != "" {
      NoQuoteNoCount(q, s[1..]);
    }
  }

  // ---------------------------------------------------------------------------------------------
  // Lines and records
  // ---------------------------------------------------------------------------------------------

  /** What one character does to a line and to the record it is in. */
  lemma OneMore(q: Option<char>, s: string, odd: bool)
    requires |s| > 1 && s[0] != '\n'
    ensures var t := s[1..]; var odd' := if q == Some(s[0]) then !odd else odd;
            && LineLen(s) == 1 + LineLen(t) && LineLen(t) >= 1 && s[LineLen(s) - 1] == t[LineLen(t) - 1]
            && s[LineLen(s)..] == t[LineLen(t)..]
            && OddAfter(q, s[..LineLen(s)], odd) == OddAfter(q, t[..LineLen(t)], odd')
            && RecordLen(q, s, odd) == 1 + RecordLen(q, t, odd') && Ended(q, s, odd) == Ended(q, t, odd')
  {
    assert s[..LineLen(s)][1..] == s[1..][..LineLen(s[1..])];
  }

  lemma OneLast(q: Option<char>, s: string, odd: bool)
    requires s != "" && q != Some('\n') && (s[0] == '\n' || |s| == 1)
    ensures LineLen(s) == 1
    ensures s[0] == '\n' ==> OddAfter(q, s[..1], odd) == odd
    ensures s[0] == '\n' ==> RecordLen(q, s, odd) == if odd then 1 + RecordLen(q, s[1..], true) else 1
    ensures s[0] == '\n' ==> Ended(q, s, odd) == (!odd || Ended(q, s[1..], true))
    ensures s[0] != '\n' ==> !Ended(q, s, odd) && RecordLen(q, s, odd) == 1
  {
    assert s[..1][1..] == "";
  }

  /** A record ends with its first line or, if that line leaves quotes open, behind the rest of it. */
  lemma {:induction false} RecordByLine(q: Option<char>, s: string, odd: bool)
    requires q != Some('\n') && s != ""
    ensures var n := LineLen(s); var odd' := OddAfter(q, s[..n], odd);
            if s[n - 1] == '\n' then
              && RecordLen(q, s, odd) == (if odd' then n + RecordLen(q, s[n..], true) else n)
              && Ended(q, s, odd) == (!odd' || Ended(q, s[n..], true))
            else n == |s| && !Ended(q, s, odd) && RecordLen(q, s, odd) == n
    decreases |s|
  {
    hide LineLen, OddAfter, RecordLen, Ended;
    if s[0] == '\n' || |s| == 1 {
      OneLast(q, s, odd);
    } else {
      OneMore(q, s, odd);
      RecordByLine(q, s[1..], if q == Some(s[0]) then !odd else odd);
    }
  }

  lemma ToggledIsOdd(q: Option<char>, line: string, inQuotes: bool)
    ensures Toggled(q, line, inQuotes) == OddAfter(q, line, inQuotes)
  {
    hide Count, OddAfter;
    OddIsCount(q, line, inQuotes);
  }

  /** The rewritten text keeps a record that is not a blank line as it is, behind the empty rows due. */
  lemma {:induction false} RewrittenRecord(delimiter: char, q: Option<char>, columns: nat, s: string, odd: bool,
          pending: nat)
    requires q != Some('\n') && Ended(q, s, odd) && (odd || !IsBlankLine(s[..LineLen(s)]))
    ensures var n := RecordLen(q, s, odd);
            Rewritten(delimiter, q, columns, s, odd, pending)
            == EmptyRows(delimiter, columns, pending) + (s[..n] + Rewritten(delimiter, q, columns, s[n..], false, 0))
    decreases |s|
  {
    hide *;
    EndedHasText(q, s, odd);
    RewrittenLine(delimiter, q, columns, s, odd, pending);
    var k := LineLen(s);
    RecordByLine(q, s, odd);
    ToggledIsOdd(q, s[..k], odd);
    if OddAfter(q, s[..k], odd) {
      var m := RecordLen(q, s[k..], true);
      RewrittenRecord(delimiter, q, columns, s[k..], true, 0);
      NoEmptyRows(delimiter, columns);
      KeepLine(s, k, m, Rewritten(delimiter, q, columns, s[k..][m..], false, 0));
    }
  }

  lemma KeepLine(s: string, k: nat, m: nat, more: string)
    requires k + m <= |s|
    ensures s[k..][m..] == s[k + m..] && s[..k] + ("" + (s[k..][..m] + more)) == s[..k + m] + more
  {
    assert s[..k] + s[k..][..m] == s[..k + m];
  }

  lemma EndedHasText(q: Option<char>, s: string, odd: bool)
    requires Ended(q, s, odd)
    ensures s != ""
  {}

  lemma NoEmptyRows(delimiter: char, columns: nat)
    ensures EmptyRows(delimiter, columns, 0) == ""
  {}

  /** `diagnose_delim` reads on from a physical line until its quotes are balanced: it takes exactly the
      record the reader would take. */
  method JoinPhysicalLines(text: string) returns (ln: string, rest: string)
    requires text != ""
    ensures ln + rest == text && |ln| == RecordLen(Some('"'), text, false)
  {
    hide Count, RecordLen, LineLen, Joined;
    ln, rest := text[..LineLen(text)], text[LineLen(text)..];
    FirstJoined(text);
    while Count(Some('"'), ln) % 2 == 1 && rest != ""
      invariant Joined(text, ln, rest)
      decreases |rest|
    {
      NextJoined(text, ln, rest);
      ln, rest := ln + rest[..LineLen(rest)], rest[LineLen(rest)..];
    }
    AllJoined(text, ln, rest);
  }

  /** The lines taken so far, and the rest: while a quote is open, the record goes on in the rest. */
  ghost predicate Joined(text: string, ln: string, rest: string) {
    && ln + rest == text && (rest == "" || (ln != "" && ln[|ln| - 1] == '\n'))
    && RecordLen(Some('"'), text, false)
       == |ln| + if Count(Some('"'), ln) % 2 == 1 then RecordLen(Some('"'), rest, true) else 0
  }

  lemma FirstJoined(text: string)
    requires text != ""
    ensures Joined(text, text[..LineLen(text)], text[LineLen(text)..])
  {
    hide Ended, Count, OddAfter, RecordLen, LineLen;
    RecordByLine(Some('"'), text, false);
    OddIsCount(Some('"'), text[..LineLen(text)], false);
    NoRecord(Some('"'));
  }

  lemma NextJoined(text: string, ln: string, rest: string)
    requires Joined(text, ln, rest) && Count(Some('"'), ln) % 2 == 1 && rest != ""
    ensures Joined(text, ln + rest[..LineLen(rest)], rest[LineLen(rest)..])
  {
    hide Ended, Count, OddAfter, RecordLen, LineLen;
    var next := rest[..LineLen(rest)];
    RecordByLine(Some('"'), rest, true);
    OddIsCount(Some('"'), next, true);
    CountConcat(Some('"'), ln, next);
    NoRecord(Some('"'));
    assert rest == next + rest[LineLen(rest)..];
  }

  lemma AllJoined(text: string, ln: string, rest: string)
    requires Joined(text, ln, rest) && (Count(Some('"'), ln) % 2 != 1 || rest == "")
    ensures ln + rest == text && |ln| == RecordLen(Some('"'), text, false)
  {
    hide Count, RecordLen;
    NoRecord(Some('"'));
  }

  lemma NoRecord(q: Option<char>)
    ensures RecordLen(q, "", true) == 0
  {}

  lemma {:induction false} CountConcat(q: Option<char>, a: string, b: string)
    ensures Count(q, a + b) == Count(q, a) + Count(q, b)
    decreases |a|
  {
    if a == "" {
      assert a + b == b;
    } else {
      assert (a + b)[1..] == a[1..] + b;
      CountConcat(q, a[1..], b);
    }
  }

  // ---------------------------------------------------------------------------------------------
  // Both treatments load the same rows
  // ---------------------------------------------------------------------------------------------

  /** Text that is read without error and whose last record ends in a newline. */
  predicate WellFormed(fmt: Format, text: string)
    decreases |text|
  {
    ParseShrinks(fmt, text);
    text == "" ||
    (var line := ParseLine(fmt, text); !line.atEof && line.outcome.Ok? && WellFormed(fmt, line.rest))
  }

  /** `n` empty rows are read as `n` records of no values, as wide as they were asked for. */
  lemma {:induction false} ReadEmptyRows(fmt: Format, columns: nat, n: nat, rest: string, lineNo: nat)
    requires Distinct(fmt) && !EatsDelimiters(fmt) && columns >= 2
    ensures var more := ReadRecords(fmt, rest, lineNo + n);
            ReadRecords(fmt, EmptyRows(fmt.delimiter.value, columns, n) + rest, lineNo)
            == Records(Blanks(n, columns) + more.records, more.failed)
    decreases n
  {
    hide ReadRecords, EmptyRow, Distinct, EatsDelimiters;
    DistinctHasDelimiter(fmt);
    if n == 0 {
      assert "" + rest == rest;
      assert Blanks(0, columns) + ReadRecords(fmt, rest, lineNo).records == ReadRecords(fmt, rest, lineNo).records;
    } else {
      var d := fmt.delimiter.value;
      var tail := EmptyRows(d, columns, n - 1) + rest;
      assert EmptyRows(d, columns, n) + rest == EmptyRow(d, columns) + tail;
      ReadEmptyRow(fmt, columns, tail, lineNo);
      ReadEmptyRows(fmt, columns, n - 1, rest, lineNo + 1);
      assert Blanks(n, columns) == [seq(columns, _ => None)] + Blanks(n - 1, columns);
    }
  }

  lemma ReadEmptyRow(fmt: Format, columns: nat, rest: string, lineNo: nat)
    requires Distinct(fmt) && !EatsDelimiters(fmt) && columns >= 2
    ensures var more := ReadRecords(fmt, rest, lineNo + 1);
            ReadRecords(fmt, EmptyRow(fmt.delimiter.value, columns) + rest, lineNo)
            == Records([seq(columns, _ => None)] + more.records, more.failed)
  {
    hide ParseLine, RowText, RowBack;
    var row := seq(columns, _ => None);
    EmptyRowIsRow(fmt, columns);
    RowReadBack(fmt, false, row, rest);
    RowBackIsAll(fmt, false, row, true);
    assert ReadBackAll(fmt, false, row) == row;
  }

  /** An empty row is what the writer makes of a row of no values. */
  lemma {:induction false} EmptyRowIsRow(fmt: Format, columns: nat)
    requires fmt.delimiter.Some? && columns >= 1
    ensures EmptyRow(fmt.delimiter.value, columns) == RowText(fmt, false, seq(columns, _ => None))
    decreases columns
  {
    var d := fmt.delimiter.value;
    var row: Record := seq(columns, _ => None);
    RowTextCons(fmt, false, row);
    if columns > 1 {
      EmptyRowIsRow(fmt, columns - 1);
      assert row[1..] == seq(columns - 1, _ => None);
      assert seq(columns - 1, _ => d) == [d] + seq(columns - 2, _ => d);
    } else {
      assert seq(0, _ => d) == "";
    }
  }

  /** A record is read the same whatever stands behind it. */
  lemma SameRecord(fmt: Format, text: string, more: string)
    requires Distinct(fmt) && fmt.escape.None? && !ParseLine(fmt, text).atEof
    ensures var n := RecordLen(fmt.quote, text, false);
            ParseLine(fmt, text[..n] + more) == Line(ParseLine(fmt, text).outcome, more, false)
  {
    hide Run, Finish, Ended, RecordLen;
    RunEndsByParity(fmt, NewReader, text, false);
    RunIsLocal(fmt, NewReader, text, RecordLen(fmt.quote, text, false), more);
  }

  /** No line outside quotes is a carriage return alone. */
  predicate NoBareReturn(q: Option<char>, s: string, inQuotes: bool)
    decreases |s|
  {
    s == "" ||
    (var line := s[..LineLen(s)];
     (inQuotes || line != "\r\n") && NoBareReturn(q, s[LineLen(s)..], Toggled(q, line, inQuotes)))
  }

  lemma FirstLineBlank(text: string)
    requires text != ""
    ensures IsBlankLine(text[..LineLen(text)]) <==> text[0] == '\n' || text[..LineLen(text)] == "\r\n"
    ensures text[0] == '\n' ==> text[..LineLen(text)] == "\n"
  {
    assert text[0] == '\n' ==> LineLen(text) == 1 && text[..1] == "\n";
  }

  /** Past a record that is not a carriage return alone, the lines outside quotes are the same. */
  lemma {:induction false} ReturnsBehind(q: Option<char>, s: string, odd: bool)
    requires q != Some('\n') && Ended(q, s, odd) && (odd || s[..LineLen(s)] != "\r\n")
    ensures NoBareReturn(q, s, odd) <==> NoBareReturn(q, s[RecordLen(q, s, odd)..], false)
    decreases |s|
  {
    hide OddAfter, Ended, RecordLen, LineLen, Toggled;
    EndedHasText(q, s, odd);
    var k := LineLen(s);
    RecordByLine(q, s, odd);
    ToggledIsOdd(q, s[..k], odd);
    if OddAfter(q, s[..k], odd) {
      ReturnsBehind(q, s[k..], true);
      assert s[RecordLen(q, s, odd)..] == s[k..][RecordLen(q, s[k..], true)..];
    }
  }

  lemma BlankFirst(text: string)
    requires text != "" && text[0] == '\n'
    ensures RecordLen(None, text, false) == 1 && LineLen(text) == 1 && forall q :: RecordLen(q, text, false) == 1
  {}

  /** One record of the original text against the rewritten text. */
  lemma RewrittenRecordReads(fmt: Format, text: string, columns: nat, pending: nat, lineNo: nat)
    requires Distinct(fmt) && fmt.escape.None? && !EatsDelimiters(fmt) && columns >= 2
    requires text != "" && !IsBlankLine(text[..LineLen(text)]) && !ParseLine(fmt, text).atEof
        && ParseLine(fmt, text).outcome.Ok?
    ensures var line := ParseLine(fmt, text);
            var more := ReadRecords(fmt, Rewritten(fmt.delimiter.value, fmt.quote, columns, line.rest, false, 0),
                lineNo + pending + 1);
            ReadRecords(fmt, Rewritten(fmt.delimiter.value, fmt.quote, columns, text, false, pending), lineNo)
            == Records(Blanks(pending, columns) + [line.outcome.value] + more.records, more.failed)
  {
    hide ParseLine, Rewritten, EmptyRows, Ended, LineLen, IsBlankLine, RecordLen;
    var d, n := fmt.delimiter.value, RecordLen(fmt.quote, text, false);
    RecordEndsAtEvenNewline(fmt, text);
    RewrittenRecord(d, fmt.quote, columns, text, false, pending);
    var rest := Rewritten(d, fmt.quote, columns, text[n..], false, 0);
    ReadEmptyRows(fmt, columns, pending, text[..n] + rest, lineNo);
    SameRecord(fmt, text, rest);
  }

  /** What is read of the rewritten text is what the reader makes of the records of the original. */
  lemma {:induction false} RewrittenReads(fmt: Format, text: string, columns: nat, pending: nat, lineNo: nat,
          lineNo': nat)
    requires Distinct(fmt) && fmt.escape.None? && !EatsDelimiters(fmt) && columns >= 2
    requires WellFormed(fmt, text) && NoBareReturn(fmt.quote, text, false)
    ensures ReadRecords(fmt, text, lineNo').failed == None
    ensures ReadRecords(fmt, Rewritten(fmt.delimiter.value, fmt.quote, columns, text, false, pending), lineNo)
            == Records(RowsFrom(ReadRecords(fmt, text, lineNo').records, Some(columns), pending), None)
    decreases |text|
  {
    hide ParseLine, Rewritten, EmptyRows, Ended, LineLen, IsBlankLine, RecordLen, Blanks, Toggled;
    var d := fmt.delimiter.value;
    ParseShrinks(fmt, text);
    if text == "" {
      NothingLeft(d, fmt.quote, columns, false, pending);
    } else {
      var line := ParseLine(fmt, text);
      OnlyBlankLinesAreEmpty(fmt, text);
      RecordEndsAtEvenNewline(fmt, text);
      FirstLineBlank(text);
      ReturnsBehind(fmt.quote, text, false);
      var more := ReadRecords(fmt, line.rest, lineNo' + 1).records;
      assert ([line.outcome.value] + more)[1..] == more;
      if text[0] == '\n' {
        BlankFirst(text);
        RewrittenLine(d, fmt.quote, columns, text, false, pending);
        RewrittenReads(fmt, line.rest, columns, pending + 1, lineNo, lineNo' + 1);
      } else {
        RewrittenRecordReads(fmt, text, columns, pending, lineNo);
        RewrittenReads(fmt, line.rest, columns, 0, lineNo + pending + 1, lineNo' + 1);
      }
    }
  }

  // ---------------------------------------------------------------------------------------------
  // A line that is a carriage return alone
  // ---------------------------------------------------------------------------------------------

  /** The reader takes it for a value. */
  lemma ReturnIsRead(fmt: Format, text: string)
    requires Distinct(fmt) && fmt.delimiter != Some('\r') && fmt.quote != Some('\r')
    requires text != "" && text[..LineLen(text)] == "\r\n"
    ensures ParseLine(fmt, text) == Line(Ok([Some("\r")]), text[2..], false) && LineLen(text) == 2
  {
    var rest := text[2..];
    assert LineLen(text) == 2 && text == "\r\n" + rest;
    assert text == ['\r'] + (['\n'] + rest);
    TwoSteps(fmt, NewReader, '\r', '\n', rest);
    var r := Step(fmt, Step(fmt, NewReader, '\r'), '\n');
    assert "" + ['\r'] == "\r" && [] + [Some("\r")] == [Some("\r")];
    assert r == Reader(End, Some(InUnquoted), "", "", [Some("\r")], [], 1);
    assert Run(fmt, r, rest) == (r, rest);
    assert Run(fmt, NewReader, text) == (r, rest);
    assert Finish(r) == [Some("\r")];
  }

  /** Text that starts with a record that is no blank line, as the rewriting sees it. */
  predicate StartsRecord(text: string) { text != "" && !IsBlankLine(text[..LineLen(text)]) }

  /** What is read of the rewritten text, if anything, starts with the blank lines due. */
  lemma {:induction false} PendingFirst(fmt: Format, text: string, columns: nat, pending: nat, lineNo: nat)
    requires Distinct(fmt) && fmt.escape.None? && !EatsDelimiters(fmt) && columns >= 2 && WellFormed(fmt, text)
    requires fmt.delimiter != Some('\r') && fmt.quote != Some('\r')
    ensures var r := ReadRecords(fmt, Rewritten(fmt.delimiter.value, fmt.quote, columns, text, false, pending), lineNo);
      r.failed == None && (r.records == [] || Blanks(pending, columns) <= r.records)
    decreases |text|
  {
    hide ParseLine, Rewritten, EmptyRows, LineLen, IsBlankLine, RecordLen, Blanks, Distinct, EatsDelimiters;
    DistinctHasDelimiter(fmt);
    var d := fmt.delimiter.value;
    ParseShrinks(fmt, text);
    if text == "" {
      NothingLeft(d, fmt.quote, columns, false, pending);
    } else if StartsRecord(text) {
      RewrittenRecordReads(fmt, text, columns, pending, lineNo);
      PendingFirst(fmt, ParseLine(fmt, text).rest, columns, 0, lineNo + pending + 1);
    } else {
      BlankIsRecord(fmt, text);
      RewrittenLine(d, fmt.quote, columns, text, false, pending);
      PendingFirst(fmt, text[LineLen(text)..], columns, pending + 1, lineNo);
      MoreBlanks(pending, columns);
    }
  }

  lemma BlankIsRecord(fmt: Format, text: string)
    requires Distinct(fmt) && fmt.delimiter != Some('\r') && fmt.quote != Some('\r')
    requires text != "" && IsBlankLine(text[..LineLen(text)])
    ensures var bare := text[..LineLen(text)] == "\r\n";
      ParseLine(fmt, text) == Line(Ok(if bare then [Some("\r")] else []), text[LineLen(text)..], false)
  {
    hide ParseLine, LineLen;
    FirstLineBlank(text);
    if text[..LineLen(text)] == "\r\n" {
      ReturnIsRead(fmt, text);
    } else {
      BlankLine(fmt, text[1..]);
      assert "\n" + text[1..] == text;
      BlankFirst(text);
    }
  }

  lemma MoreBlanks(n: nat, columns: nat)
    ensures Blanks(n, columns) <= Blanks(n + 1, columns) && Blanks(n + 1, columns)[n] == seq(columns, _ => None)
    ensures |Blanks(n, columns)| == n && |Blanks(n + 1, columns)| == n + 1
  {
  }

  /** Where the reader has a value, the rewritten text has an empty row or nothing at all. */
  lemma ReturnDiffers(n: nat, columns: nat, rows: seq<Record>, more: seq<Record>)
    requires columns >= 2 && (rows == [] || Blanks(n + 1, columns) <= rows)
    ensures rows != Blanks(n, columns) + [[Some("\r")]] + more
  {
    MoreBlanks(n, columns);
    hide Blanks;
    var other := Blanks(n, columns) + [[Some("\r")]] + more;
    assert other[n] == [Some("\r")];
    if rows != [] {
      assert rows[n] == Blanks(n + 1, columns)[n];
    }
  }

  lemma SameBehind(first: seq<Record>, a: seq<Record>, b: seq<Record>)
    ensures first + a == first + b ==> a == b
  {
    assert (first + a)[|first|..] == a && (first + b)[|first|..] == b;
  }

  lemma {:induction false} RewrittenDiffers(fmt: Format, text: string, columns: nat, pending: nat, lineNo: nat,
          lineNo': nat)
    requires Distinct(fmt) && fmt.escape.None? && !EatsDelimiters(fmt) && columns >= 2 && WellFormed(fmt, text)
    requires fmt.delimiter != Some('\r') && fmt.quote != Some('\r') && !NoBareReturn(fmt.quote, text, false)
    ensures ReadRecords(fmt, Rewritten(fmt.delimiter.value, fmt.quote, columns, text, false, pending), lineNo).records
            != RowsFrom(ReadRecords(fmt, text, lineNo').records, Some(columns), pending)
    decreases |text|
  {
    hide ParseLine, Rewritten, Ended, EmptyRows, LineLen, RecordLen, Blanks, Toggled, EatsDelimiters, IsBlankLine;
    var d, line := fmt.delimiter.value, ParseLine(fmt, text);
    ParseShrinks(fmt, text);
    var more := ReadRecords(fmt, line.rest, lineNo' + 1).records;
    assert ([line.outcome.value] + more)[1..] == more;
    RewrittenLine(d, fmt.quote, columns, text, false, pending);
    FirstLineBlank(text);
    if StartsRecord(text) {
      OnlyBlankLinesAreEmpty(fmt, text);
      RecordEndsAtEvenNewline(fmt, text);
      ReturnsBehind(fmt.quote, text, false);
      RewrittenRecordReads(fmt, text, columns, pending, lineNo);
      RewrittenDiffers(fmt, line.rest, columns, 0, lineNo + pending + 1, lineNo' + 1);
      var behind := ReadRecords(fmt, Rewritten(d, fmt.quote, columns, line.rest, false, 0), lineNo + pending + 1);
      SameBehind(Blanks(pending, columns) + [line.outcome.value], behind.records, RowsFrom(more, Some(columns), 0));
    } else {
      BlankIsRecord(fmt, text);
      if text[..LineLen(text)] == "\r\n" {
        PendingFirst(fmt, line.rest, columns, pending + 1, lineNo);
        var rows := ReadRecords(fmt, Rewritten(d, fmt.quote, columns, line.rest, false, pending + 1), lineNo).records;
        ReturnDiffers(pending, columns, rows, RowsFrom(more, Some(columns), 0));
      } else {
        RecordEndsAtEvenNewline(fmt, text);
        ReturnsBehind(fmt.quote, text, false);
        RewrittenDiffers(fmt, line.rest, columns, pending + 1, lineNo, lineNo' + 1);
      }
    }
  }

  // ---------------------------------------------------------------------------------------------
  // The whole file
  // ---------------------------------------------------------------------------------------------

  /** The rows the reader gives for a header line and a body: those of the body stand behind the header. */
  lemma HeaderFirst(fmt: Format, quoteAll: bool, header: Record, body: string)
    requires Distinct(fmt) && !EatsDelimiters(fmt)
    requires |header| >= 2 && forall f <- header :: Survives(fmt, quoteAll, f)
    ensures var raw := ReadRecords(fmt, RowText(fmt, quoteAll, header) + body, 1);
            var more := ReadRecords(fmt, body, 2);
            && raw.failed == more.failed
            && RowsFrom(raw.records, None, 0)
               == [ReadBackAll(fmt, quoteAll, header)] + RowsFrom(more.records, Some(|header|), 0)
  {
    hide ParseLine, RowText, Survives, ReadBackAll;
    RowReadBack(fmt, quoteAll, header, body);
    RowBackIsAll(fmt, quoteAll, header, true);
    BackWidth(fmt, quoteAll, header);
    var first, more := ReadBackAll(fmt, quoteAll, header), ReadRecords(fmt, body, 2).records;
    assert ([first] + more)[1..] == more;
    assert Blanks(0, |header|) == [];
    assert [] + [first] + RowsFrom(more, Some(|header|), 0) == [first] + RowsFrom(more, Some(|header|), 0);
  }

  lemma BackWidth(fmt: Format, quoteAll: bool, row: Record)
    ensures |ReadBackAll(fmt, quoteAll, row)| == |row|
  {}

  lemma SameRowsBehind(fmt: Format, quoteAll: bool, header: Record, body: string)
    requires Distinct(fmt) && fmt.escape.None? && !EatsDelimiters(fmt)
    requires |header| >= 2 && (forall f <- header :: Survives(fmt, quoteAll, f))
    requires WellFormed(fmt, body) && NoBareReturn(fmt.quote, body, false)
    ensures var rewritten := ReadRecords(fmt, Rewritten(fmt.delimiter.value, fmt.quote, |header|, body, false, 0), 1);
            var raw := ReadRecords(fmt, RowText(fmt, quoteAll, header) + body, 1);
            && rewritten.failed == None && raw.failed == None
            && RowsFrom(raw.records, None, 0) == [ReadBackAll(fmt, quoteAll, header)] + rewritten.records
  {
    hide *;
    DistinctHasDelimiter(fmt);
    HeaderFirst(fmt, quoteAll, header, body);
    RewrittenReads(fmt, body, |header|, 0, 1, 2);
  }

  lemma {:induction false} NoReturnAtAll(q: Option<char>, s: string, inQuotes: bool)
    requires '\r' !in s
    ensures NoBareReturn(q, s, inQuotes)
    decreases |s|
  {
    hide LineLen, Toggled;
    if s != "" {
      var line, rest := s[..LineLen(s)], s[LineLen(s)..];
      assert line != "" && line[0] == s[0] && s[0] in s;
      assert forall c <- rest :: c in s;
      NoReturnAtAll(q, rest, Toggled(q, line, inQuotes));
    }
  }

  /** Of every file that is opened, whatever its line ends: with two or more columns, reading the rewritten body
      gives the same rows as the reader's own treatment of blank lines gives behind the header line. */
  lemma SameRows(fmt: Format, quoteAll: bool, header: Record, file: string, body: string)
    requires Distinct(fmt) && fmt.escape.None? && !EatsDelimiters(fmt)
    requires |header| >= 2 && (forall f <- header :: Survives(fmt, quoteAll, f))
    requires Opened(file) == RowText(fmt, quoteAll, header) + body && WellFormed(fmt, body)
    ensures var rewritten := ReadRecords(fmt, Rewritten(fmt.delimiter.value, fmt.quote, |header|, body, false, 0), 1);
            var raw := ReadRecords(fmt, Opened(file), 1);
            && rewritten.failed == None && raw.failed == None
            && RowsFrom(raw.records, None, 0) == [ReadBackAll(fmt, quoteAll, header)] + rewritten.records
  {
    hide *;
    DistinctHasDelimiter(fmt);
    assert forall c <- body :: c in Opened(file);
    NoReturnAtAll(fmt.quote, body, false);
    SameRowsBehind(fmt, quoteAll, header, body);
  }

  /** Of text that was not opened so: with delimiter and quote other than the carriage return, the rows are the same
      exactly if no line outside quotes is a carriage return alone. */
  lemma SameRowsIff(fmt: Format, quoteAll: bool, header: Record, body: string)
    requires Distinct(fmt) && fmt.escape.None? && !EatsDelimiters(fmt) && WellFormed(fmt, body)
    requires fmt.delimiter != Some('\r') && fmt.quote != Some('\r')
    requires |header| >= 2 && forall f <- header :: Survives(fmt, quoteAll, f)
    ensures var rewritten := ReadRecords(fmt, Rewritten(fmt.delimiter.value, fmt.quote, |header|, body, false, 0), 1);
            var raw := ReadRecords(fmt, RowText(fmt, quoteAll, header) + body, 1);
            RowsFrom(raw.records, None, 0) == [ReadBackAll(fmt, quoteAll, header)] + rewritten.records
            <==> NoBareReturn(fmt.quote, body, false)
  {
    hide *;
    DistinctHasDelimiter(fmt);
    HeaderFirst(fmt, quoteAll, header, body);
    var rewritten := ReadRecords(fmt, Rewritten(fmt.delimiter.value, fmt.quote, |header|, body, false, 0), 1).records;
    if NoBareReturn(fmt.quote, body, false) {
      RewrittenReads(fmt, body, |header|, 0, 1, 2);
    } else {
      RewrittenDiffers(fmt, body, |header|, 0, 1, 2);
      SameBehind([ReadBackAll(fmt, quoteAll, header)], rewritten,
                 RowsFrom(ReadRecords(fmt, body, 2).records, Some(|header|), 0));
    }
  }
}
