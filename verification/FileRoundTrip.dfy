/** A whole file, written row by row, opened and read back: `FileComesBackIff` says exactly when it comes back. */
module FileRoundTrip {
  import opened Options
  import opened Delimited
  import opened RowRoundTrip

  function FileText(fmt: Format, quoteAll: bool, rows: seq<Record>): string {
    if rows == [] then "" else RowText(fmt, quoteAll, rows[0]) + FileText(fmt, quoteAll, rows[1..])
  }

  /** The number of rows up to the last that is not a blank line. */
  function UpToData(fmt: Format, quoteAll: bool, rows: seq<Record>): (n: nat)
    ensures n <= |rows|
  {
    if rows == [] then 0
    else
      var n := UpToData(fmt, quoteAll, rows[1..]);
      if n == 0 && PrintsBlank(fmt, quoteAll, rows[0]) then 0 else n + 1
  }

  /** Every row has fields that survive, and none that is eaten. */
  predicate RowsSurvive(fmt: Format, quoteAll: bool, rows: seq<Record>)
    requires fmt.delimiter.Some?
  {
    forall row <- rows :: AllSurvive(fmt, quoteAll, row) && NothingEaten(fmt, quoteAll, row)
  }

  function ReadRow(fmt: Format, quoteAll: bool, row: Record): Record {
    if PrintsBlank(fmt, quoteAll, row) then [] else ReadBackAll(fmt, quoteAll, row)
  }

  function ReadRows(fmt: Format, quoteAll: bool, rows: seq<Record>): seq<Record> {
    seq(|rows|, k requires 0 <= k < |rows| => ReadRow(fmt, quoteAll, rows[k]))
  }

  function ReadBackRows(fmt: Format, quoteAll: bool, rows: seq<Record>): seq<Record> {
    seq(|rows|, k requires 0 <= k < |rows| => ReadBackAll(fmt, quoteAll, rows[k]))
  }

  lemma RowOfFile(fmt: Format, quoteAll: bool, row: Record, rest: string)
    requires Distinct(fmt) && AllSurvive(fmt, quoteAll, row) && NothingEaten(fmt, quoteAll, row)
    ensures ParseLine(fmt, RowText(fmt, quoteAll, row) + rest) == Line(Ok(ReadRow(fmt, quoteAll, row)), rest, false)
  {
    hide ParseLine, RowText, Survives, PrintsNothing, ReadBackAll;
    RowReadBack(fmt, quoteAll, row, rest);
    if row != [] {
      RowBackIff(fmt, quoteAll, row, true);
    }
  }

  /** The records of a written file are its rows, blank lines without fields. */
  lemma {:induction false} RecordsOfFile(fmt: Format, quoteAll: bool, rows: seq<Record>, lineNo: nat)
    requires Distinct(fmt) && RowsSurvive(fmt, quoteAll, rows)
    ensures ReadRecords(fmt, FileText(fmt, quoteAll, rows), lineNo) == Records(ReadRows(fmt, quoteAll, rows), None)
    decreases |rows|
  {
    hide ParseLine, RowText, AllSurvive, NothingEaten, PrintsBlank, ReadBackAll, Distinct;
    if rows == [] {
      ParseShrinks(fmt, "");
    } else {
      var row, rest := rows[0], FileText(fmt, quoteAll, rows[1..]);
      assert row in rows && forall other <- rows[1..] :: other in rows;
      RecordsOfFile(fmt, quoteAll, rows[1..], lineNo + 1);
      RowOfFile(fmt, quoteAll, row, rest);
      assert ReadRows(fmt, quoteAll, rows) == [ReadRow(fmt, quoteAll, row)] + ReadRows(fmt, quoteAll, rows[1..]);
    }
  }

  lemma ReadRowIs(fmt: Format, quoteAll: bool, row: Record)
    ensures ReadRow(fmt, quoteAll, row)
            == if PrintsBlank(fmt, quoteAll, row) then [] else ReadBackAll(fmt, quoteAll, row)
  {}

  lemma BlankReadsBack(fmt: Format, quoteAll: bool, row: Record)
    requires |row| == 1 && PrintsNothing(fmt, quoteAll, row[0])
    ensures ReadBackAll(fmt, quoteAll, row) == seq(1, _ => None)
  {}

  lemma BlanksSnoc(n: nat, w: nat)
    ensures Blanks(n + 1, w) == Blanks(n, w) + [seq(w, _ => None)]
  {}

  lemma RowsFromCons(first: Record, more: seq<Record>, w: nat, pending: nat)
    ensures RowsFrom([first] + more, Some(w), pending) ==
            if first == [] then RowsFrom(more, Some(w), pending + 1)
            else Blanks(pending, w) + [first] + RowsFrom(more, Some(w), 0)
  {
    assert ([first] + more)[1..] == more;
  }

  lemma ReadRowsCons(fmt: Format, quoteAll: bool, rows: seq<Record>)
    requires rows != []
    ensures ReadRows(fmt, quoteAll, rows) == [ReadRow(fmt, quoteAll, rows[0])] + ReadRows(fmt, quoteAll, rows[1..])
    ensures ReadBackRows(fmt, quoteAll, rows) == [ReadBackAll(fmt, quoteAll, rows[0])]
        + ReadBackRows(fmt, quoteAll, rows[1..])
  {
    hide ReadRow, ReadBackAll;
  }

  /** What `rows` come back as when `pending` blank lines stand before them: nothing, if all of it is blank
      lines. */
  function BackFrom(fmt: Format, quoteAll: bool, rows: seq<Record>, w: nat, pending: nat): seq<Record> {
    var n := UpToData(fmt, quoteAll, rows);
    if n == 0 then [] else Blanks(pending, w) + ReadBackRows(fmt, quoteAll, rows[..n])
  }

  lemma UpToDataCons(fmt: Format, quoteAll: bool, rows: seq<Record>)
    requires rows != []
    ensures var n, m := UpToData(fmt, quoteAll, rows), UpToData(fmt, quoteAll, rows[1..]);
            && n == (if m == 0 && PrintsBlank(fmt, quoteAll, rows[0]) then 0 else m + 1)
            && (n > 0 ==> ReadBackRows(fmt, quoteAll, rows[..n])
                          == [ReadBackAll(fmt, quoteAll, rows[0])] + ReadBackRows(fmt, quoteAll, rows[1..][..m]))
  {
    hide PrintsBlank, ReadBackAll, ReadBackRows;
    var n, m := UpToData(fmt, quoteAll, rows), UpToData(fmt, quoteAll, rows[1..]);
    if n > 0 {
      assert rows[..n][1..] == rows[1..][..m];
      ReadRowsCons(fmt, quoteAll, rows[..n]);
    }
  }

  lemma BackFromBlank(fmt: Format, quoteAll: bool, rows: seq<Record>, w: nat, pending: nat)
    requires rows != [] && |rows[0]| == w == 1 && PrintsBlank(fmt, quoteAll, rows[0])
    ensures BackFrom(fmt, quoteAll, rows, w, pending) == BackFrom(fmt, quoteAll, rows[1..], w, pending + 1)
  {
    hide PrintsBlank, ReadBackAll, ReadBackRows, UpToData, Blanks;
    UpToDataCons(fmt, quoteAll, rows);
    BlankIsOne(fmt, quoteAll, rows[0]);
    BlankReadsBack(fmt, quoteAll, rows[0]);
    BlanksSnoc(pending, w);
  }

  lemma BlankIsOne(fmt: Format, quoteAll: bool, row: Record)
    requires |row| == 1 && PrintsBlank(fmt, quoteAll, row)
    ensures PrintsNothing(fmt, quoteAll, row[0])
  {}

  lemma BackFromData(fmt: Format, quoteAll: bool, rows: seq<Record>, w: nat, pending: nat)
    requires rows != [] && !PrintsBlank(fmt, quoteAll, rows[0])
    ensures BackFrom(fmt, quoteAll, rows, w, pending)
            == Blanks(pending, w) + [ReadBackAll(fmt, quoteAll, rows[0])] + BackFrom(fmt, quoteAll, rows[1..], w, 0)
  {
    hide PrintsBlank, ReadBackAll, ReadBackRows, UpToData, Blanks;
    UpToDataCons(fmt, quoteAll, rows);
    NoBlanks(w);
    NoRows(fmt, quoteAll);
    assert rows[1..][..0] == [];
  }

  /** Behind the header, blank lines inside the data come back as rows of no values, and those at the end do
      not. */
  lemma {:induction false} RowsBehindHeader(fmt: Format, quoteAll: bool, rows: seq<Record>, w: nat, pending: nat)
    requires w >= 1 && forall k :: 0 <= k < |rows| ==> |rows[k]| == w
    ensures RowsFrom(ReadRows(fmt, quoteAll, rows), Some(w), pending) == BackFrom(fmt, quoteAll, rows, w, pending)
    decreases |rows|
  {
    if rows != [] {
      hide PrintsBlank, ReadBackAll, Blanks, ReadRow, ReadRows, RowsFrom, ReadBackRows, BackFrom;
      var row, tail := rows[0], rows[1..];
      ReadRowIs(fmt, quoteAll, row);
      ReadRowsCons(fmt, quoteAll, rows);
      RowsFromCons(ReadRow(fmt, quoteAll, row), ReadRows(fmt, quoteAll, tail), w, pending);
      if PrintsBlank(fmt, quoteAll, row) {
        BlankWidth(fmt, quoteAll, row);
        BackFromBlank(fmt, quoteAll, rows, w, pending);
        RowsBehindHeader(fmt, quoteAll, tail, w, pending + 1);
      } else {
        ReadBackWidth(fmt, quoteAll, row);
        BackFromData(fmt, quoteAll, rows, w, pending);
        RowsBehindHeader(fmt, quoteAll, tail, w, 0);
      }
    }
  }

  lemma BlankWidth(fmt: Format, quoteAll: bool, row: Record)
    requires PrintsBlank(fmt, quoteAll, row)
    ensures |row| <= 1
  {}

  lemma NoRows(fmt: Format, quoteAll: bool)
    ensures ReadBackRows(fmt, quoteAll, []) == []
  {}

  lemma NoBlanks(w: nat)
    ensures Blanks(0, w) == []
  {}

  lemma ReadBackWidth(fmt: Format, quoteAll: bool, row: Record)
    ensures |ReadBackAll(fmt, quoteAll, row)| == |row|
  {}

  // ---------------------------------------------------------------------------------------------
  // Opening the file
  // ---------------------------------------------------------------------------------------------

  predicate Avoids(c: char, row: Record) { forall f <- row :: f.Some? ==> c !in f.value }

  predicate RowsAvoid(c: char, rows: seq<Record>) { forall row <- rows :: Avoids(c, row) }

  /** The marks are no carriage returns, as those are gone once the file is opened. */
  predicate NoReturnMarks(fmt: Format) {
    fmt.delimiter != Some('\r') && fmt.quote != Some('\r') && fmt.escape != Some('\r')
  }

  lemma {:induction false} ReplaceAvoids(s: string, q: char, sub: string, c: char)
    requires c !in s && c !in sub
    ensures c !in Replace(s, q, sub)
    decreases |s|
  {
    if s != "" {
      assert s[0] in s && forall x <- s[1..] :: x in s;
      ReplaceAvoids(s[1..], q, sub, c);
    }
  }

  lemma FieldTextAvoids(fmt: Format, quoteAll: bool, field: Field)
    requires NoReturnMarks(fmt) && (field.Some? ==> '\r' !in field.value)
    ensures '\r' !in FieldText(fmt, quoteAll, field)
  {
    if field.Some? && Quotes(fmt, quoteAll, field.value) {
      ReplaceAvoids(field.value, fmt.quote.value, QuotedQuote(fmt), '\r');
    }
  }

  lemma {:induction false} RowTextAvoids(fmt: Format, quoteAll: bool, row: Record)
    requires NoReturnMarks(fmt) && fmt.delimiter.Some? && Avoids('\r', row)
    ensures '\r' !in RowText(fmt, quoteAll, row)
    decreases |row|
  {
    if row == [] {
      assert RowText(fmt, quoteAll, row) == "\n";
    } else {
      hide FieldText, RowText;
      assert row[0] in row && forall f <- row[1..] :: f in row;
      RowTextCons(fmt, quoteAll, row);
      FieldTextAvoids(fmt, quoteAll, row[0]);
      RowTextAvoids(fmt, quoteAll, row[1..]);
    }
  }

  /** Opening leaves a file as it is whose rows hold no carriage return. */
  lemma {:induction false} OpenedIsSame(fmt: Format, quoteAll: bool, rows: seq<Record>)
    requires NoReturnMarks(fmt) && fmt.delimiter.Some? && RowsAvoid('\r', rows)
    ensures '\r' !in FileText(fmt, quoteAll, rows)
    ensures Opened(FileText(fmt, quoteAll, rows)) == FileText(fmt, quoteAll, rows)
    decreases |rows|
  {
    if rows != [] {
      hide RowText, Opened;
      assert rows[0] in rows && forall row <- rows[1..] :: row in rows;
      RowTextAvoids(fmt, quoteAll, rows[0]);
      OpenedIsSame(fmt, quoteAll, rows[1..]);
    }
  }

  // ---------------------------------------------------------------------------------------------
  // The whole file
  // ---------------------------------------------------------------------------------------------

  /** A file with a header of names and rows of its width, written, opened and read: if all fields survive, none is
      eaten and none holds a carriage return, header and rows come back field by field, without the blank lines
      at the end. */
  lemma FileReadBack(fmt: Format, quoteAll: bool, header: Record, rows: seq<Record>)
    requires Distinct(fmt) && NoReturnMarks(fmt)
    requires RowsSurvive(fmt, quoteAll, [header] + rows) && RowsAvoid('\r', [header] + rows)
    requires !PrintsBlank(fmt, quoteAll, header) && forall row <- rows :: |row| == |header|
    ensures var raw := ReadRecords(fmt, Opened(FileText(fmt, quoteAll, [header] + rows)), 1);
            && raw.failed == None
            && RowsFrom(raw.records, None, 0)
               == [ReadBackAll(fmt, quoteAll, header)]
                  + ReadBackRows(fmt, quoteAll, rows[..UpToData(fmt, quoteAll, rows)])
  {
    DistinctHasDelimiter(fmt);
    NotBlank(fmt, quoteAll, header);
    hide *;
    OpenedIsSame(fmt, quoteAll, [header] + rows);
    RecordsOfFile(fmt, quoteAll, [header] + rows, 1);
    RowsOfFile(fmt, quoteAll, header, rows);
    NothingPending(fmt, quoteAll, rows, |header|);
  }

  lemma NotBlank(fmt: Format, quoteAll: bool, row: Record)
    requires !PrintsBlank(fmt, quoteAll, row)
    ensures row != []
  {
  }

  lemma RowsOfFile(fmt: Format, quoteAll: bool, header: Record, rows: seq<Record>)
    requires header != [] && !PrintsBlank(fmt, quoteAll, header)
        && forall k :: 0 <= k < |rows| ==> |rows[k]| == |header|
    ensures RowsFrom(ReadRows(fmt, quoteAll, [header] + rows), None, 0)
            == [ReadBackAll(fmt, quoteAll, header)] + BackFrom(fmt, quoteAll, rows, |header|, 0)
  {
    hide PrintsBlank, ReadBackAll, ReadRow, ReadRows, BackFrom;
    var first, more := ReadBackAll(fmt, quoteAll, header), ReadRows(fmt, quoteAll, rows);
    ReadRowIs(fmt, quoteAll, header);
    ReadBackWidth(fmt, quoteAll, header);
    assert ([header] + rows)[1..] == rows && ([first] + more)[1..] == more;
    ReadRowsCons(fmt, quoteAll, [header] + rows);
    NoBlanks(|header|);
    assert [] + [first] + RowsFrom(more, Some(|header|), 0) == [first] + RowsFrom(more, Some(|header|), 0);
    RowsBehindHeader(fmt, quoteAll, rows, |header|, 0);
  }

  lemma NothingPending(fmt: Format, quoteAll: bool, rows: seq<Record>, w: nat)
    ensures BackFrom(fmt, quoteAll, rows, w, 0) == ReadBackRows(fmt, quoteAll, rows[..UpToData(fmt, quoteAll, rows)])
  {
    hide UpToData, ReadBackAll;
    NoBlanks(w);
    var back := ReadBackRows(fmt, quoteAll, rows[..UpToData(fmt, quoteAll, rows)]);
    assert [] + back == back && (UpToData(fmt, quoteAll, rows) == 0 ==> back == []);
  }

  lemma {:induction false} UpToDataIsAll(fmt: Format, quoteAll: bool, rows: seq<Record>)
    ensures UpToData(fmt, quoteAll, rows) == |rows| <==> rows == [] || !PrintsBlank(fmt, quoteAll, rows[|rows| - 1])
    decreases |rows|
  {
    hide PrintsBlank;
    if |rows| > 1 {
      UpToDataIsAll(fmt, quoteAll, rows[1..]);
    }
  }

  // ---------------------------------------------------------------------------------------------
  // What the reader cannot have read
  // ---------------------------------------------------------------------------------------------

  lemma {:induction false} RunAvoids(fmt: Format, r: Reader, s: string, c: char)
    requires c !in s && c !in r.current && c !in r.esc && Avoids(c, r.elements)
    ensures Avoids(c, Finish(Run(fmt, r, s).0))
    decreases |s|
  {
    if !r.state.End? && s != "" {
      assert s[0] in s && forall x <- s[1..] :: x in s;
      RunAvoids(fmt, Step(fmt, r, s[0]), s[1..], c);
    }
  }

  lemma {:induction false} RestAvoids(fmt: Format, r: Reader, s: string, c: char)
    requires c !in s
    ensures c !in Run(fmt, r, s).1
    decreases |s|
  {
    if !r.state.End? && s != "" {
      assert forall x <- s[1..] :: x in s;
      RestAvoids(fmt, Step(fmt, r, s[0]), s[1..], c);
    }
  }

  /** A character that is not in the text is in no record. */
  lemma {:induction false} RecordsAvoid(fmt: Format, text: string, lineNo: nat, c: char)
    requires c !in text
    ensures RowsAvoid(c, ReadRecords(fmt, text, lineNo).records)
    decreases |text|
  {
    hide Run, Finish;
    ParseShrinks(fmt, text);
    var line := ParseLine(fmt, text);
    RunAvoids(fmt, NewReader, text, c);
    RestAvoids(fmt, NewReader, text, c);
    if line.outcome.Ok? && !(line.outcome.value == [] && line.atEof) {
      RecordsAvoid(fmt, line.rest, lineNo + 1, c);
    }
  }

  /** Without a quote character no record holds a delimiter or a newline. */
  lemma {:induction false} RecordsPlain(fmt: Format, text: string, lineNo: nat)
    requires Distinct(fmt) && fmt.quote.None?
    ensures RowsAvoid(fmt.delimiter.value, ReadRecords(fmt, text, lineNo).records)
    ensures RowsAvoid('\n', ReadRecords(fmt, text, lineNo).records)
    decreases |text|
  {
    hide Run, Finish;
    ParseShrinks(fmt, text);
    var line := ParseLine(fmt, text);
    UnquotedIsPlain(fmt, NewReader, text);
    if line.outcome.Ok? && !(line.outcome.value == [] && line.atEof) {
      RecordsPlain(fmt, line.rest, lineNo + 1);
    }
  }

  lemma {:induction false} RowsFromAvoids(raw: seq<Record>, width: Option<nat>, pending: nat, c: char)
    requires RowsAvoid(c, raw)
    ensures RowsAvoid(c, RowsFrom(raw, width, pending))
    decreases |raw|
  {
    if raw != [] {
      assert raw[0] in raw && forall row <- raw[1..] :: row in raw;
      var w := if width.Some? then width.value else |raw[0]|;
      BlanksAvoid(pending, w, c);
      if raw[0] == [] {
        RowsFromAvoids(raw[1..], width, if width.Some? then pending + 1 else pending, c);
      } else {
        RowsFromAvoids(raw[1..], Some(w), 0, c);
      }
    }
  }

  lemma BlanksAvoid(n: nat, w: nat, c: char)
    ensures RowsAvoid(c, Blanks(n, w))
  {
  }

  // ---------------------------------------------------------------------------------------------
  // A row that is not kept
  // ---------------------------------------------------------------------------------------------

  predicate RowsKept(fmt: Format, quoteAll: bool, rows: seq<Record>)
    requires fmt.delimiter.Some?
  {
    forall row <- rows :: FieldsKept(fmt, quoteAll, row)
  }

  /** What is read at a row that is not kept: an error, or a record that is another row; a record without fields
      only for a single empty text. */
  lemma OtherRecord(fmt: Format, quoteAll: bool, row: Record, rest: string)
    requires Distinct(fmt) && !FieldsKept(fmt, quoteAll, row)
    requires fmt.quote.Some? || AllSurvive(fmt, quoteAll, row)
    ensures var line := ParseLine(fmt, RowText(fmt, quoteAll, row) + rest);
      line.outcome.Ok? ==>
        && line.outcome.value != row
        && (line.outcome.value == [] ==> row == [Some("")] && line == Line(Ok([]), rest, false))
  {
    hide Survives, ParseLine, RowText, EatsDelimiters, ReadBack;
    RowIsKeptIff(fmt, quoteAll, row, rest);
    if AllSurvive(fmt, quoteAll, row) {
      RowReadBack(fmt, quoteAll, row, rest);
      if row != [] {
        RowBackIff(fmt, quoteAll, row, true);
        TextPrints(fmt, quoteAll, row[0]);
      }
    } else {
      LostRow(fmt, quoteAll, row, row, rest);
    }
  }

  lemma KeptRecord(fmt: Format, quoteAll: bool, row: Record, rest: string)
    requires Distinct(fmt) && FieldsKept(fmt, quoteAll, row)
    ensures ParseLine(fmt, RowText(fmt, quoteAll, row) + rest)
            == Line(Ok(if PrintsBlank(fmt, quoteAll, row) then [] else row), rest, false)
    ensures PrintsBlank(fmt, quoteAll, row) && row != [] ==> row == [None]
  {
    hide ParseLine, RowText, Survives, EatsDelimiters, ReadBack;
    RowOfFile(fmt, quoteAll, row, rest);
    SameReadBack(fmt, quoteAll, row);
    if |row| == 1 {
      TextPrints(fmt, quoteAll, row[0]);
      assert row[0] in row;
      EmptyPrints(fmt, quoteAll);
    }
  }

  lemma EmptyPrints(fmt: Format, quoteAll: bool)
    ensures quoteAll && fmt.quote.Some? ==> !PrintsNothing(fmt, quoteAll, Some(""))
  {
  }

  lemma {:induction false} FromStarts(raw: seq<Record>, w: nat, pending: nat)
    ensures RowsFrom(raw, Some(w), pending) == [] || Blanks(pending, w) <= RowsFrom(raw, Some(w), pending)
    decreases |raw|
  {
    if raw != [] && raw[0] == [] {
      FromStarts(raw[1..], w, pending + 1);
      BlanksSnoc(pending, w);
    }
  }

  /** One record of the file, and what the reader makes of the rest. */
  lemma FirstRecord(fmt: Format, text: string, lineNo: nat)
    ensures var line := ParseLine(fmt, text); var more := ReadRecords(fmt, line.rest, lineNo + 1);
      ReadRecords(fmt, text, lineNo) ==
      if line.outcome.Err? then Records([], Some((lineNo, line.outcome.error)))
      else if line.outcome.value == [] && line.atEof then Records([], None)
      else Records([line.outcome.value] + more.records, more.failed)
  {
    ParseShrinks(fmt, text);
    hide ParseLine;
  }

  lemma OtherAt(n: nat, w: nat, x: Record, more: seq<Record>, row: Record, rows: seq<Record>)
    requires x != row
    ensures Blanks(n, w) + [x] + more != Blanks(n, w) + ([row] + rows)
  {
    assert (Blanks(n, w) + [x] + more)[n] == x && (Blanks(n, w) + ([row] + rows))[n] == row;
  }

  lemma BlankAt(n: nat, w: nat, rows: seq<Record>, row: Record, more: seq<Record>)
    requires rows == [] || Blanks(n + 1, w) <= rows
    requires row == [Some("")]
    ensures rows != Blanks(n, w) + ([row] + more)
  {
    assert (Blanks(n, w) + ([row] + more))[n] == row;
    assert Blanks(n + 1, w)[n] == seq(w, _ => None);
    if rows != [] {
      assert rows[n] == Blanks(n + 1, w)[n];
      assert row[0] == Some("") && (w > 0 ==> rows[n][0] == None);
    }
  }

  /** Rows behind a header do not come back if one of them is not kept. */
  lemma {:induction false} RowsLost(fmt: Format, quoteAll: bool, rows: seq<Record>, w: nat, pending: nat, lineNo: nat)
    requires Distinct(fmt) && w >= 1 && (forall row <- rows :: |row| == w) && !RowsKept(fmt, quoteAll, rows)
    requires fmt.quote.Some? || forall row <- rows :: AllSurvive(fmt, quoteAll, row)
    ensures var raw := ReadRecords(fmt, FileText(fmt, quoteAll, rows), lineNo);
            raw.failed == None ==> RowsFrom(raw.records, Some(w), pending) != Blanks(pending, w) + rows
    decreases |rows|
  {
    hide ParseLine, RowText, AllSurvive, FieldsKept, PrintsBlank, Blanks, Distinct, ReadRecords, RowsFrom;
    DistinctHasDelimiter(fmt);
    var row, tail := rows[0], rows[1..];
    var rest := FileText(fmt, quoteAll, tail);
    var text := RowText(fmt, quoteAll, row) + rest;
    var line, more := ParseLine(fmt, text), ReadRecords(fmt, ParseLine(fmt, text).rest, lineNo + 1);
    assert row in rows && forall other <- tail :: other in rows;
    assert rows == [row] + tail;
    FirstRecord(fmt, text, lineNo);
    if line.outcome.Ok? {
      RowsFromCons(line.outcome.value, more.records, w, pending);
    }
    if FieldsKept(fmt, quoteAll, row) {
      KeptRecord(fmt, quoteAll, row, rest);
      if PrintsBlank(fmt, quoteAll, row) {
        RowsLost(fmt, quoteAll, tail, w, pending + 1, lineNo + 1);
        BlankGoesOn(pending, w, row, tail);
      } else {
        RowsLost(fmt, quoteAll, tail, w, 0, lineNo + 1);
        SameBehindBlanks(pending, w, row, RowsFrom(more.records, Some(w), 0), tail);
      }
    } else {
      OtherRecord(fmt, quoteAll, row, rest);
      if line.outcome.Ok? && line.outcome.value != [] {
        OtherAt(pending, w, line.outcome.value, RowsFrom(more.records, Some(w), 0), row, tail);
      } else if line.outcome.Ok? {
        FromStarts(more.records, w, pending + 1);
        BlankAt(pending, w, RowsFrom(more.records, Some(w), pending + 1), row, tail);
      }
    }
  }

  lemma BlankGoesOn(n: nat, w: nat, row: Record, tail: seq<Record>)
    requires w == 1 && row == [None]
    ensures Blanks(n, w) + ([row] + tail) == Blanks(n + 1, w) + tail
  {
    BlanksSnoc(n, w);
    assert seq(w, _ => None) == row;
  }

  lemma SameBehindBlanks(n: nat, w: nat, row: Record, more: seq<Record>, tail: seq<Record>)
    ensures Blanks(n, w) + [row] + more == Blanks(n, w) + ([row] + tail) ==> more == Blanks(0, w) + tail
  {
    var first := Blanks(n, w) + [row];
    NoBlanks(w);
    assert Blanks(n, w) + ([row] + tail) == first + tail;
    assert (first + more)[|first|..] == more && (first + tail)[|first|..] == tail;
  }

  // ---------------------------------------------------------------------------------------------
  // Exactly when a file comes back
  // ---------------------------------------------------------------------------------------------

  /** What is read of the file, written and opened. */
  predicate ComesBack(fmt: Format, quoteAll: bool, header: Record, rows: seq<Record>) {
    var raw := ReadRecords(fmt, Opened(FileText(fmt, quoteAll, [header] + rows)), 1);
    raw.failed == None && RowsFrom(raw.records, None, 0) == [header] + rows
  }

  lemma ReturnIsLost(fmt: Format, quoteAll: bool, header: Record, rows: seq<Record>)
    requires !RowsAvoid('\r', [header] + rows)
    ensures !ComesBack(fmt, quoteAll, header, rows)
  {
    hide ReadRecords, RowsFrom, FileText, Opened;
    var text := Opened(FileText(fmt, quoteAll, [header] + rows));
    RecordsAvoid(fmt, text, 1, '\r');
    RowsFromAvoids(ReadRecords(fmt, text, 1).records, None, 0, '\r');
  }

  lemma UnquotedIsLost(fmt: Format, quoteAll: bool, header: Record, rows: seq<Record>)
    requires Distinct(fmt) && fmt.quote.None?
    requires exists row <- [header] + rows :: !AllSurvive(fmt, quoteAll, row)
    ensures !ComesBack(fmt, quoteAll, header, rows)
  {
    hide ReadRecords, RowsFrom, FileText, Opened;
    var text := Opened(FileText(fmt, quoteAll, [header] + rows));
    var raw := ReadRecords(fmt, text, 1).records;
    RecordsPlain(fmt, text, 1);
    RowsFromAvoids(raw, None, 0, '\n');
    RowsFromAvoids(raw, None, 0, fmt.delimiter.value);
    var row :| row in [header] + rows && !AllSurvive(fmt, quoteAll, row);
    var f :| f in row && !Survives(fmt, quoteAll, f);
  }

  lemma HeaderRead(fmt: Format, quoteAll: bool, header: Record, rows: seq<Record>)
    requires Distinct(fmt) && !PrintsBlank(fmt, quoteAll, header) && forall row <- rows :: |row| == |header|
    requires !RowsKept(fmt, quoteAll, [header] + rows)
    requires fmt.quote.Some? || forall row <- [header] + rows :: AllSurvive(fmt, quoteAll, row)
    ensures var raw := ReadRecords(fmt, FileText(fmt, quoteAll, [header] + rows), 1);
            raw.failed == None ==> RowsFrom(raw.records, None, 0) != [header] + rows
  {
    NotBlank(fmt, quoteAll, header);
    DistinctHasDelimiter(fmt);
    hide *;
    var rest := FileText(fmt, quoteAll, rows);
    var text := RowText(fmt, quoteAll, header) + rest;
    var line := ParseLine(fmt, text);
    var more := ReadRecords(fmt, line.rest, 2);
    assert header in [header] + rows && forall row <- rows :: row in [header] + rows;
    HeaderFirst(fmt, quoteAll, header, rows);
    FirstRecord(fmt, text, 1);
    if FieldsKept(fmt, quoteAll, header) {
      KeptRecord(fmt, quoteAll, header, rest);
      RowsLost(fmt, quoteAll, rows, |header|, 0, 2);
      NoBlanks(|header|);
      assert [] + rows == rows;
      FirstOfRows(header, more.records, header, rows);
    } else {
      OtherRecord(fmt, quoteAll, header, rest);
      NotBlankText(fmt, quoteAll, header);
      if line.outcome.Ok? {
        FirstOfRows(line.outcome.value, more.records, header, rows);
      }
    }
  }

  lemma HeaderFirst(fmt: Format, quoteAll: bool, header: Record, rows: seq<Record>)
    requires fmt.delimiter.Some?
    ensures FileText(fmt, quoteAll, [header] + rows) == RowText(fmt, quoteAll, header) + FileText(fmt, quoteAll, rows)
    ensures RowsKept(fmt, quoteAll, [header] + rows)
            <==> FieldsKept(fmt, quoteAll, header) && RowsKept(fmt, quoteAll, rows)
  {
    hide FieldsKept, RowText;
    assert ([header] + rows)[1..] == rows && header in [header] + rows;
    assert forall row <- rows :: row in [header] + rows;
  }

  lemma NotBlankText(fmt: Format, quoteAll: bool, row: Record)
    requires fmt.delimiter.Some?
    ensures row == [Some("")] && !PrintsBlank(fmt, quoteAll, row) ==> FieldsKept(fmt, quoteAll, row)
  {
  }

  lemma FirstOfRows(first: Record, more: seq<Record>, header: Record, rows: seq<Record>)
    requires first != []
    ensures RowsFrom([first] + more, None, 0) == [first] + RowsFrom(more, Some(|first|), 0)
    ensures RowsFrom([first] + more, None, 0) == [header] + rows ==>
              first == header && RowsFrom(more, Some(|first|), 0) == rows
  {
    var all := [first] + RowsFrom(more, Some(|first|), 0);
    assert ([first] + more)[1..] == more && Blanks(0, |first|) == [] && [] + [first] == [first];
    assert all[0] == first && all[1..] == RowsFrom(more, Some(|first|), 0);
    assert ([header] + rows)[0] == header && ([header] + rows)[1..] == rows;
  }

  /** A file of any format comes back exactly, header, rows and all, if and only if no field holds a carriage return,
      every field survives, none is eaten, no empty text is left unquoted, and the file does not end in a blank
      line. */
  lemma FileComesBackIff(fmt: Format, quoteAll: bool, header: Record, rows: seq<Record>)
    requires Distinct(fmt) && NoReturnMarks(fmt)
    requires !PrintsBlank(fmt, quoteAll, header) && forall row <- rows :: |row| == |header|
    ensures ComesBack(fmt, quoteAll, header, rows) <==>
              && RowsAvoid('\r', [header] + rows) && RowsKept(fmt, quoteAll, [header] + rows)
              && (rows == [] || !PrintsBlank(fmt, quoteAll, rows[|rows| - 1]))
  {
    DistinctHasDelimiter(fmt);
    hide ReadRecords, RowsFrom, FileText, Opened, RowsAvoid, PrintsBlank, FieldsKept, AllSurvive, NoReturnMarks,
         Distinct;
    if !RowsAvoid('\r', [header] + rows) {
      ReturnIsLost(fmt, quoteAll, header, rows);
    } else {
      OpenedIsSame(fmt, quoteAll, [header] + rows);
      if RowsKept(fmt, quoteAll, [header] + rows) {
        KeptFile(fmt, quoteAll, header, rows);
      } else if fmt.quote.Some? || forall row <- [header] + rows :: AllSurvive(fmt, quoteAll, row) {
        HeaderRead(fmt, quoteAll, header, rows);
      } else {
        UnquotedIsLost(fmt, quoteAll, header, rows);
      }
    }
  }

  /** A carriage return in a field, quoted or not, is not read back, whatever the format. */
  lemma ReturnInField(fmt: Format, quoteAll: bool)
    ensures !ComesBack(fmt, quoteAll, [Some("h")], [[Some("a\rb")]])
  {
    hide ReadRecords, RowsFrom, FileText, Opened;
    var header, row := [Some("h")], [Some("a\rb")];
    assert row[0] in row && "a\rb"[1] == '\r' && !Avoids('\r', row);
    assert ([header] + [row])[1] == row;
    ReturnIsLost(fmt, quoteAll, header, [row]);
  }

  lemma KeptFile(fmt: Format, quoteAll: bool, header: Record, rows: seq<Record>)
    requires Distinct(fmt) && NoReturnMarks(fmt)
    requires RowsAvoid('\r', [header] + rows) && RowsKept(fmt, quoteAll, [header] + rows)
    requires !PrintsBlank(fmt, quoteAll, header) && forall row <- rows :: |row| == |header|
    ensures ComesBack(fmt, quoteAll, header, rows) <==>
              rows == [] || !PrintsBlank(fmt, quoteAll, rows[|rows| - 1])
  {
    hide ReadRecords, RowsFrom, FileText, Opened, RowsAvoid, PrintsBlank, AllSurvive, NothingEaten, NoReturnMarks,
         Distinct, ReadBackAll, UpToData;
    DistinctHasDelimiter(fmt);
    FileReadBack(fmt, quoteAll, header, rows);
    UpToDataIsAll(fmt, quoteAll, rows);
    var n := UpToData(fmt, quoteAll, rows);
    forall row <- [header] + rows ensures ReadBackAll(fmt, quoteAll, row) == row {
      SameReadBack(fmt, quoteAll, row);
    }
    assert header in [header] + rows && forall row <- rows :: row in [header] + rows;
    assert ReadBackRows(fmt, quoteAll, rows[..n]) == rows[..n] by {
      forall k | 0 <= k < n ensures ReadBackRows(fmt, quoteAll, rows[..n])[k] == rows[..n][k] {
        assert rows[k] in rows;
      }
    }
    assert |[header] + rows[..n]| == n + 1 && |[header] + rows| == |rows| + 1;
    assert n == |rows| ==> rows[..n] == rows;
  }
}
