/** Delimited text, written and read back: `LineDelimiter.delimited`, the character-at-a-time reader
    `CsvFile.read_and_parse_line`, and the row source on top of it (`_slow_reader`, `_rows`).

    The quoting rules are those of section 2 of RFC 4180, with an optional escape character that stands
    before a quote in place of doubling it.  This file holds the algorithms and their meaning;
    `RowRoundTrip` and `FileRoundTrip` hold what is true of them. */
module Delimited {
  import opened Options

  /** A field's text, or no value. */
  type Field = Option<string>

  type Record = seq<Field>

  datatype Format = Format(delimiter: Option<char>, quote: Option<char>, escape: Option<char>)

  // ---------------------------------------------------------------------------------------------
  // Writing
  // ---------------------------------------------------------------------------------------------

  /** `s.replace(q, sub)` for a single character. */
  function Replace(s: string, q: char, sub: string): string {
    if s == "" then "" else (if s[0] == q then sub else [s[0]]) + Replace(s[1..], q, sub)
  }

  function QuotedQuote(fmt: Format): string
    requires fmt.quote.Some?
  {
    [if fmt.escape.Some? then fmt.escape.value else fmt.quote.value, fmt.quote.value]
  }

  /** Whether a text is written in quotes. */
  predicate Quotes(fmt: Format, quoteAll: bool, s: string) {
    && fmt.quote.Some?
    && (quoteAll || fmt.quote.value in s || (fmt.delimiter.Some? && fmt.delimiter.value in s) || '\n' in s || '\r' in s)
  }

  function FieldText(fmt: Format, quoteAll: bool, field: Field): string {
    match field
    case None => ""
    case Some(s) =>
      if Quotes(fmt, quoteAll, s)
      then [fmt.quote.value] + Replace(s, fmt.quote.value, QuotedQuote(fmt)) + [fmt.quote.value]
      else s
  }

  /** A text is put in quotes if all are, or if a quote, a delimiter or a line end is in it; else it is written as it
      is. */
  lemma WrittenAsItIs(fmt: Format, quoteAll: bool, s: string)
    ensures FieldText(fmt, quoteAll, Some(s)) == s <==>
            || fmt.quote.None?
            || (!quoteAll
                && forall c <- s :: !(Some(c) == fmt.quote || Some(c) == fmt.delimiter || c == '\n' || c == '\r'))
    ensures FieldText(fmt, quoteAll, Some(s)) != s ==>
              FieldText(fmt, quoteAll, Some(s))
              == [fmt.quote.value] + Replace(s, fmt.quote.value, QuotedQuote(fmt)) + [fmt.quote.value]
  {
    if Quotes(fmt, quoteAll, s) {
      ReplaceGrows(s, fmt.quote.value, QuotedQuote(fmt));
    }
  }

  lemma {:induction false} ReplaceGrows(s: string, q: char, sub: string)
    requires sub != ""
    ensures |Replace(s, q, sub)| >= |s|
  {
    if s != "" {
      ReplaceGrows(s[1..], q, sub);
    }
  }

  function JoinFields(texts: seq<string>, joinchar: string): string {
    if texts == [] then ""
    else if |texts| == 1 then texts[0]
    else texts[0] + joinchar + JoinFields(texts[1..], joinchar)
  }

  function JoinChar(fmt: Format): string { if fmt.delimiter.Some? then [fmt.delimiter.value] else "" }

  function FieldTexts(fmt: Format, quoteAll: bool, row: Record): seq<string> {
    seq(|row|, k requires 0 <= k < |row| => FieldText(fmt, quoteAll, row[k]))
  }

  /** One row as a line of text. */
  function RowText(fmt: Format, quoteAll: bool, row: Record): string {
    JoinFields(FieldTexts(fmt, quoteAll, row), JoinChar(fmt)) + "\n"
  }

  /** `LineDelimiter.delimited`. */
  method WriteDelimited(fmt: Format, quoteAll: bool, row: Record, addNewline: bool) returns (text: string)
    ensures text + (if addNewline then "" else "\n") == RowText(fmt, quoteAll, row)
  {
    var texts: seq<string> := [];
    for k := 0 to |row|
      invariant |texts| == k && forall j :: 0 <= j < k ==> texts[j] == FieldText(fmt, quoteAll, row[j])
    {
      var text := "";
      if row[k].Some? {
        var e := row[k].value;
        if Quotes(fmt, quoteAll, e) {
          text := [fmt.quote.value] + Replace(e, fmt.quote.value, QuotedQuote(fmt)) + [fmt.quote.value];
        } else {
          text := e;
        }
      }
      texts := texts + [text];
    }
    assert texts == FieldTexts(fmt, quoteAll, row);
    text := JoinFields(texts, JoinChar(fmt));
    if addNewline {
      text := text + "\n";
    }
  }

  // ---------------------------------------------------------------------------------------------
  // Reading one record
  // ---------------------------------------------------------------------------------------------

  datatype State = Start | InQuoted | Escaped | QuoteInQuoted | InUnquoted | Between | Delimiter | End

  /** The reader's variables: `errors` holds the positions at which it found text behind a closing quote. */
  datatype Reader = Reader(state: State, prev: Option<State>, current: string, esc: string, elements: Record,
                           errors: seq<nat>, i: nat)

  const NewReader := Reader(Start, None, "", "", [], [], 0)

  function OrNone(s: string): Field { if s == "" then None else Some(s) }

  predicate EatsDelimiters(fmt: Format) { fmt.delimiter == Some(' ') }

  /** The reader after one more character. */
  function Step(fmt: Format, r0: Reader, c: char): (r: Reader)
    ensures r.prev == Some(r0.state)
  {
    var r := r0.(i := if c == '\n' then 1 else r0.i + 1, prev := Some(r0.state));
    match r0.state
    case Start =>
      if fmt.quote == Some(c) then r.(state := InQuoted)
      else if fmt.delimiter == Some(c) then r.(state := Delimiter, elements := r.elements + [None])
      else if c == '\n' then r.(state := End)
      else r.(state := InUnquoted, current := r.current + [c])
    case InQuoted =>
      if fmt.escape == Some(c) then r.(state := Escaped, esc := [c])
      else if fmt.quote == Some(c) then r.(state := QuoteInQuoted, esc := [c])
      else r.(current := r.current + [c])
    case Escaped =>
      if fmt.quote == Some(c) then r.(state := InQuoted, esc := "", current := r.current + [c])
      else r.(state := InQuoted, esc := "", current := r.current + r.esc + [c])
    case QuoteInQuoted =>
      if fmt.quote == Some(c) then r.(state := InQuoted, esc := "", current := r.current + [c])
      else if fmt.delimiter == Some(c) then
        r.(state := Delimiter, esc := "", elements := r.elements + [Some(r.current)], current := "")
      else if c == '\n' then r.(state := End, esc := "", elements := r.elements + [Some(r.current)], current := "")
      else
        r.(state := InUnquoted, esc := "", elements := r.elements + [OrNone(r.current)], current := r.current + [c],
           errors := r.errors + [r.i])
    case InUnquoted =>
      if fmt.delimiter == Some(c)
      then r.(state := Delimiter, elements := r.elements + [OrNone(r.current)], current := "")
      else if c == '\n' then r.(state := End, elements := r.elements + [OrNone(r.current)], current := "")
      else if fmt.quote == Some(c)
      then r.(state := InQuoted, elements := r.elements + [OrNone(r.current)], current := "")
      else r.(current := r.current + [c])
    case Between =>
      if fmt.quote == Some(c) then r.(state := InQuoted)
      else if fmt.delimiter == Some(c) then r.(state := Delimiter, current := "")
      else if c == '\n' then r.(state := End)
      else r.(state := InUnquoted, current := r.current + [c], errors := r.errors + [r.i])
    case Delimiter =>
      if fmt.quote == Some(c) then r.(state := InQuoted)
      else if fmt.delimiter == Some(c) then
        if EatsDelimiters(fmt) then r else r.(elements := r.elements + [OrNone(r.current)], current := "")
      else if c == '\n' then r.(state := End)
      else r.(state := InUnquoted, current := r.current + [c])
    case End => r
  }

  /** The reader once it has met the end of its record, or of the text, and what text is left. */
  function Run(fmt: Format, r: Reader, s: string): (Reader, string)
    decreases |s|
  {
    if r.state.End? || s == "" then (r, s) else Run(fmt, Step(fmt, r, s[0]), s[1..])
  }

  /** What the reader adds at the end of a record. */
  function Finish(r: Reader): Record {
    var current := if r.esc != "" && r.prev == Some(Escaped) then r.current + r.esc else r.current;
    var kept := if r.prev == Some(QuoteInQuoted) && current != "" then current[..|current| - 1] else current;
    r.elements
    + (if current == "" then [] else [Some(kept)])
    + (if r.prev == Some(Delimiter) then [None] else [])
  }

  /** One record read: its fields or the error positions, the text behind it, and whether the end of the
      text was met rather than a newline. */
  datatype Line = Line(outcome: Result<Record, seq<nat>>, rest: string, atEof: bool)

  function LineOf(r: Reader, rest: string): Line {
    Line(if r.errors == [] then Ok(Finish(r)) else Err(r.errors), rest, !r.state.End?)
  }

  function ParseLine(fmt: Format, text: string): Line {
    var (r, rest) := Run(fmt, NewReader, text);
    LineOf(r, rest)
  }

  lemma RunMove(fmt: Format, r: Reader, s: string)
    ensures Run(fmt, r, s) == if r.state.End? || s == "" then (r, s) else Run(fmt, Step(fmt, r, s[0]), s[1..])
  {
  }

  lemma FinishIs(r: Reader)
    ensures var current := if r.esc != "" && r.prev == Some(Escaped) then r.current + r.esc else r.current;
            var elements := if current == "" then r.elements
                            else
                              r.elements
                              + [Some(if r.prev == Some(QuoteInQuoted) then current[..|current| - 1] else current)];
            Finish(r) == if r.prev == Some(Delimiter) then elements + [None] else elements
  {
  }

  /** `EncodedFile.open` for reading, with universal newlines: every kind of line end becomes a newline. */
  function Opened(file: string): (text: string)
    ensures '\r' !in text
    ensures '\r' !in file ==> text == file
    decreases |file|
  {
    if file == "" then ""
    else if file[0] == '\r' then "\n" + Opened(if |file| > 1 && file[1] == '\n' then file[2..] else file[1..])
    else
      assert file == [file[0]] + file[1..];
      [file[0]] + Opened(file[1..])
  }

  /** A carriage return is one newline, together with a newline right behind it; what stands before is kept. */
  lemma OpenedAtReturn(a: string, b: string)
    requires '\r' !in a
    ensures Opened(a + ("\r\n" + b)) == a + ("\n" + Opened(b))
    ensures b == "" || b[0] != '\n' ==> Opened(a + ("\r" + b)) == a + ("\n" + Opened(b))
  {
    assert ("\r\n" + b)[2..] == b && ("\r" + b)[1..] == b;
    OpenedBefore(a, "\r\n" + b);
    OpenedBefore(a, "\r" + b);
  }

  lemma {:induction false} OpenedBefore(a: string, b: string)
    requires forall i :: 0 <= i < |a| ==> a[i] != '\r'
    ensures Opened(a + b) == a + Opened(b)
    decreases |a|
  {
    hide *;
    if a == "" {
      assert a + b == b;
    } else {
      var n := |a| - 1;
      var first, last := a[..n], [a[n]];
      OpenedBefore(first, last + b);
      OpenedFirst(a[n], b);
      CutLast(a, b);
      CutLast(a, Opened(b));
    }
  }

  lemma CutLast(a: string, b: string)
    requires a != ""
    ensures var n := |a| - 1; a + b == a[..n] + ([a[n]] + b)
  {
  }

  lemma OpenedFirst(c: char, s: string)
    requires c != '\r'
    ensures Opened([c] + s) == [c] + Opened(s)
  {
    assert ([c] + s)[1..] == s;
  }

  /** An open text file. */
  class TextFile {
    const text: string
    var pos: nat

    constructor (file: string)
      ensures Valid() && text == Opened(file) && Rest() == text
    {
      text, pos := Opened(file), 0;
    }

    predicate Valid()
      reads this
    {
      pos <= |text|
    }

    function Rest(): string
      requires Valid()
      reads this
    {
      text[pos..]
    }

    /** `f.read(1)`; nothing once all was read. */
    method Read1() returns (c: Option<char>)
      requires Valid()
      modifies this
      ensures Valid()
      ensures old(Rest()) == "" ==> c == None && Rest() == ""
      ensures old(Rest()) != "" ==> c == Some(old(Rest())[0]) && Rest() == old(Rest())[1..]
    {
      if pos == |text| {
        return None;
      }
      c := Some(text[pos]);
      pos := pos + 1;
    }
  }

  /** The reader of a delimited file whose line format is known. */
  class CsvFile {
    const fmt: Format
    var parseErrors: seq<nat>
    var atEof: bool

    constructor (fmt: Format)
      ensures this.fmt == fmt
    {
      this.fmt, parseErrors, atEof := fmt, [], false;
    }

    /** `read_and_parse_line`. */
    method ReadAndParseLine(f: TextFile) returns (outcome: Result<Record, seq<nat>>)
      requires f.Valid()
      modifies this, f
      ensures f.Valid() && Line(outcome, f.Rest(), atEof) == ParseLine(fmt, old(f.Rest()))
    {
      hide Run, Finish, EatsDelimiters;
      var elements: Record := [];
      var escBuf, current := "", "";
      var state, prevState: Option<State> := Start, None;
      var i: nat := 0;
      parseErrors := [];
      var c: Option<char> := None;
      var met := false;
      while !state.End? && !met
        invariant f.Valid()
        invariant met ==> f.Rest() == "" && !state.End?
        invariant Run(fmt, Reader(state, prevState, current, escBuf, elements, parseErrors, i), f.Rest())
                  == Run(fmt, NewReader, old(f.Rest()))
        decreases |f.Rest()|, !met
      {
        ghost var r := Reader(state, prevState, current, escBuf, elements, parseErrors, i);
        RunMove(fmt, r, f.Rest());
        c := f.Read1();
        if c.None? {
          met := true;
          continue;
        }
        if c == Some('\n') {
          i := 0;
        }
        i := i + 1;
        prevState := Some(state);
        var ch := c.value;
        match state {
          case Start =>
            if c == fmt.quote {
              state := InQuoted;
            } else if c == fmt.delimiter {
              elements := elements + [None];
              state := Delimiter;
            } else if ch == '\n' {
              state := End;
            } else {
              current := current + [ch];
              state := InUnquoted;
            }
          case InQuoted =>
            if c == fmt.escape {
              escBuf := [ch];
              state := Escaped;
            } else if c == fmt.quote {
              escBuf := [ch];
              state := QuoteInQuoted;
            } else {
              current := current + [ch];
            }
          case Escaped =>
            if c != fmt.quote {
              current := current + escBuf;
            }
            escBuf := "";
            current := current + [ch];
            state := InQuoted;
          case QuoteInQuoted =>
            escBuf := "";
            if c == fmt.quote {
              current := current + [ch];
              state := InQuoted;
            } else if c == fmt.delimiter {
              elements := elements + [Some(current)];
              current := "";
              state := Delimiter;
            } else if ch == '\n' {
              elements := elements + [Some(current)];
              current := "";
              state := End;
            } else {
              elements := elements + [OrNone(current)];
              current := current + [ch];
              parseErrors := parseErrors + [i];
              state := InUnquoted;
            }
          case InUnquoted =>
            if c == fmt.delimiter {
              elements := elements + [OrNone(current)];
              current := "";
              state := Delimiter;
            } else if ch == '\n' {
              elements := elements + [OrNone(current)];
              current := "";
              state := End;
            } else if c == fmt.quote {
              elements := elements + [OrNone(current)];
              current := "";
              state := InQuoted;
            } else {
              current := current + [ch];
            }
          case Between =>
            if c == fmt.quote {
              state := InQuoted;
            } else if c == fmt.delimiter {
              current := "";
              state := Delimiter;
            } else if ch == '\n' {
              state := End;
            } else {
              current := current + [ch];
              parseErrors := parseErrors + [i];
              state := InUnquoted;
            }
          case Delimiter =>
            if c == fmt.quote {
              state := InQuoted;
            } else if c == fmt.delimiter {
              if !EatsDelimiters(fmt) {
                elements := elements + [OrNone(current)];
                current := "";
              }
            } else if ch == '\n' {
              state := End;
            } else {
              current := current + [ch];
              state := InUnquoted;
            }
          case End =>
        }
        assert Reader(state, prevState, current, escBuf, elements, parseErrors, i) == Step(fmt, r, ch);
      }
      ghost var r := Reader(state, prevState, current, escBuf, elements, parseErrors, i);
      RunMove(fmt, r, f.Rest());
      FinishIs(r);
      if escBuf != "" && prevState == Some(Escaped) {
        current := current + escBuf;
      }
      if current != "" {
        elements := elements + [Some(if prevState == Some(QuoteInQuoted) then current[..|current| - 1] else current)];
      }
      if prevState == Some(Delimiter) {
        elements := elements + [None];
      }
      atEof := met;
      if |parseErrors| > 0 {
        return Err(parseErrors);
      }
      return Ok(elements);
    }
  }

  // ---------------------------------------------------------------------------------------------
  // Reading a file
  // ---------------------------------------------------------------------------------------------

  /** The records of a file up to its end, or up to one that cannot be read: then the number of that record
      and the positions in it. */
  datatype Records = Records(records: seq<Record>, failed: Option<(nat, seq<nat>)>)

  /** A record ends behind where it began, except at the end of the text. */
  lemma ParseShrinks(fmt: Format, text: string)
    ensures text != "" ==> |ParseLine(fmt, text).rest| < |text|
    ensures text == "" ==> ParseLine(fmt, text) == Line(Ok([]), "", true)
  {
    if text != "" {
      RunShrinks(fmt, Step(fmt, NewReader, text[0]), text[1..]);
    } else {
      assert Finish(NewReader) == [];
    }
  }

  lemma {:induction false} RunShrinks(fmt: Format, r: Reader, s: string)
    ensures |Run(fmt, r, s).1| <= |s|
    decreases |s|
  {
    if !r.state.End? && s != "" {
      RunShrinks(fmt, Step(fmt, r, s[0]), s[1..]);
    }
  }

  function ReadRecords(fmt: Format, text: string, lineNo: nat): Records
    decreases |text|
  {
    var line := ParseLine(fmt, text);
    ParseShrinks(fmt, text);
    match line.outcome
    case Err(e) => Records([], Some((lineNo, e)))
    case Ok(elements) =>
      if elements == [] && line.atEof then Records([], None)
      else
        var more := ReadRecords(fmt, line.rest, lineNo + 1);
        Records([elements] + more.records, more.failed)
  }

  /** Records already read, and what is still to come. */
  ghost function ReadAfter(records: seq<Record>, fmt: Format, text: string, lineNo: nat): Records {
    var more := ReadRecords(fmt, text, lineNo);
    Records(records + more.records, more.failed)
  }

  lemma ReadOne(records: seq<Record>, fmt: Format, text: string, lineNo: nat)
    ensures var line := ParseLine(fmt, text);
            ReadAfter(records, fmt, text, lineNo) ==
            if line.outcome.Err? then Records(records, Some((lineNo, line.outcome.error)))
            else if line.outcome.value == [] && line.atEof then Records(records, None)
            else ReadAfter(records + [line.outcome.value], fmt, line.rest, lineNo + 1)
  {
    hide ParseLine;
    assert records + [] == records;
  }

  /** `raw` in `_slow_reader`. */
  method SlowReader(csv: CsvFile, f: TextFile) returns (raw: Records)
    requires f.Valid()
    modifies csv, f
    ensures raw == ReadRecords(csv.fmt, old(f.Rest()), 1)
  {
    hide ParseLine;
    var records: seq<Record> := [];
    var lineNo := 0;
    assert ReadAfter([], csv.fmt, f.Rest(), 1) == ReadRecords(csv.fmt, f.Rest(), 1);
    while true
      invariant f.Valid() && ReadAfter(records, csv.fmt, f.Rest(), lineNo + 1) == ReadRecords(csv.fmt, old(f.Rest()), 1)
      decreases |f.Rest()|
    {
      lineNo := lineNo + 1;
      ParseShrinks(csv.fmt, f.Rest());
      ReadOne(records, csv.fmt, f.Rest(), lineNo);
      var outcome := csv.ReadAndParseLine(f);
      match outcome {
        case Err(e) => return Records(records, Some((lineNo, e)));
        case Ok(elements) =>
          if elements == [] && csv.atEof {
            return Records(records, None);
          }
          records := records + [elements];
      }
    }
  }

  function Blanks(n: nat, width: nat): seq<Record> { seq(n, _ => seq(width, _ => None)) }

  /** The rows still to come: blank records inside the data become empty rows as wide as the first record. */
  function RowsFrom(raw: seq<Record>, width: Option<nat>, pending: nat): seq<Record> {
    if raw == [] then []
    else if raw[0] == [] then RowsFrom(raw[1..], width, if width.Some? then pending + 1 else pending)
    else
      var w := if width.Some? then width.value else |raw[0]|;
      Blanks(pending, w) + [raw[0]] + RowsFrom(raw[1..], Some(w), 0)
  }

  /** `_rows`, where no columns are left out. */
  method Rows(raw: seq<Record>) returns (rows: seq<Record>)
    ensures rows == RowsFrom(raw, None, 0)
  {
    hide RowsFrom, Blanks;
    rows := [];
    var width: Option<nat> := None;
    var pendingBlank: nat := 0;
    assert raw[0..] == raw && [] + RowsFrom(raw, None, 0) == RowsFrom(raw, None, 0);
    for k := 0 to |raw|
      invariant width.None? ==> pendingBlank == 0
      invariant rows + RowsFrom(raw[k..], width, pendingBlank) == RowsFrom(raw, None, 0)
    {
      RowsStep(raw, k, rows, width, pendingBlank);
      var elements := raw[k];
      if elements == [] {
        if width.Some? {
          pendingBlank := pendingBlank + 1;
        }
        continue;
      }
      if width.None? {
        width := Some(|elements|);
      }
      rows := AddBlanks(rows, pendingBlank, width.value);
      pendingBlank := 0;
      rows := rows + [elements];
    }
    NoRows(rows, width, pendingBlank);
    assert raw[|raw|..] == [];
  }

  lemma NoRows(rows: seq<Record>, width: Option<nat>, pending: nat)
    ensures rows + RowsFrom([], width, pending) == rows
  {
  }

  /** What one record adds to the rows. */
  lemma RowsStep(raw: seq<Record>, k: nat, rows: seq<Record>, width: Option<nat>, pending: nat)
    requires k < |raw|
    ensures rows + RowsFrom(raw[k..], width, pending) ==
            if raw[k] == [] then rows + RowsFrom(raw[k + 1..], width, if width.Some? then pending + 1 else pending)
            else
              var w := if width.Some? then width.value else |raw[k]|;
              rows + Blanks(pending, w) + [raw[k]] + RowsFrom(raw[k + 1..], Some(w), 0)
  {
    hide Blanks;
    assert raw[k..][1..] == raw[k + 1..];
  }

  method AddBlanks(rows: seq<Record>, pending: nat, width: nat) returns (all: seq<Record>)
    ensures all == rows + Blanks(pending, width)
  {
    all := rows;
    for n := 0 to pending
      invariant all == rows + Blanks(n, width)
    {
      assert Blanks(n + 1, width) == Blanks(n, width) + [seq(width, _ => None)];
      all := all + [seq(width, _ => None)];
    }
  }
}
