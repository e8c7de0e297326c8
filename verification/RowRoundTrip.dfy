/** One row, written and read back. */
module RowRoundTrip {
  import opened Options
  import opened Delimited

  /** A format whose marks are told apart: what the writer and the reader take for granted. */
  predicate Distinct(fmt: Format) {
    && fmt.delimiter.Some? && fmt.delimiter != Some('\n')
    && fmt.quote != Some('\n') && fmt.quote != fmt.delimiter
    && (fmt.escape.Some? ==> fmt.escape != Some('\n') && fmt.escape != fmt.delimiter && fmt.escape != fmt.quote)
  }

  // ---------------------------------------------------------------------------------------------
  // Escape characters in a quoted field
  // ---------------------------------------------------------------------------------------------

  /** How many escape characters stand directly before position `i`. */
  function RunBefore(e: char, s: string, i: nat): (r: nat)
    requires i <= |s|
    ensures r <= i
  {
    if i > 0 && s[i - 1] == e then 1 + RunBefore(e, s, i - 1) else 0
  }

  /** Every run of escape characters directly before a quote, or at the end, has even length.  (The writer
      does not escape the escape character.) */
  predicate EvenRuns(e: char, q: char, s: string) {
    forall i: nat :: i <= |s| && EndsRun(q, s, i) ==> RunBefore(e, s, i) % 2 == 0
  }

  predicate EndsRun(q: char, s: string, i: nat)
    requires i <= |s|
  {
    i == |s| || s[i] == q
  }

  /** The same, as the reader goes through a field: escape characters are taken with what follows them. */
  predicate Safe(e: char, q: char, s: string)
    decreases |s|
  {
    if s == "" then true
    else if s[0] != e then Safe(e, q, s[1..])
    else |s| >= 2 && s[1] != q && Safe(e, q, s[2..])
  }

  lemma {:induction false} RunBeforeTail(e: char, s: string, n: nat, i: nat)
    requires n <= i <= |s|
    ensures RunBefore(e, s[n..], i - n) == (if RunBefore(e, s, i) <= i - n then RunBefore(e, s, i) else i - n)
    decreases i
  {
    if n < i && s[i - 1] == e {
      assert s[n..][i - 1 - n] == s[i - 1];
      RunBeforeTail(e, s, n, i - 1);
    } else if n < i {
      assert s[n..][i - 1 - n] == s[i - 1];
    }
  }

  lemma {:induction false} RunBeforeIs(e: char, s: string, i: nat)
    requires i <= |s|
    ensures forall k :: i - RunBefore(e, s, i) <= k < i ==> s[k] == e
    ensures RunBefore(e, s, i) < i ==> s[i - RunBefore(e, s, i) - 1] != e
    decreases i
  {
    if i > 0 && s[i - 1] == e {
      RunBeforeIs(e, s, i - 1);
    }
  }

  /** Cutting off `n` characters that do not split a run unevenly keeps all runs even or odd. */
  lemma EvenRunsTail(e: char, q: char, s: string, n: nat)
    requires n <= |s| && e != q
    requires n == 1 ==> s[0] != e
    requires n == 2 ==> s[0] == e && s[1] != q
    requires n == 1 || n == 2
    ensures EvenRuns(e, q, s) <==> EvenRuns(e, q, s[n..])
  {
    var t := s[n..];
    forall i: nat | n <= i <= |s|
      ensures EndsRun(q, s, i) == EndsRun(q, t, i - n)
      ensures RunBefore(e, s, i) % 2 == RunBefore(e, t, i - n) % 2
    {
      RunBeforeTail(e, s, n, i);
      RunBeforeIs(e, s, i);
    }
    if EvenRuns(e, q, s) {
      forall i: nat | i <= |t| && EndsRun(q, t, i) ensures RunBefore(e, t, i) % 2 == 0 {
        assert EndsRun(q, s, i + n);
      }
    }
    if EvenRuns(e, q, t) {
      forall i: nat | i <= |s| && EndsRun(q, s, i) ensures RunBefore(e, s, i) % 2 == 0 {
        if n <= i {
          assert EndsRun(q, t, i - n);
        }
      }
    }
  }

  lemma {:induction false} SafeIsEvenRuns(e: char, q: char, s: string)
    requires e != q
    ensures Safe(e, q, s) <==> EvenRuns(e, q, s)
    decreases |s|
  {
    if s == "" {
      assert EvenRuns(e, q, s);
    } else if s[0] != e {
      EvenRunsTail(e, q, s, 1);
      SafeIsEvenRuns(e, q, s[1..]);
    } else if |s| >= 2 && s[1] != q {
      EvenRunsTail(e, q, s, 2);
      SafeIsEvenRuns(e, q, s[2..]);
    } else {
      assert RunBefore(e, s, 0) == 0;
      assert EndsRun(q, s, 1) && RunBefore(e, s, 1) == 1;
    }
  }

  // ---------------------------------------------------------------------------------------------
  // What comes back
  // ---------------------------------------------------------------------------------------------

  /** A field as it is read back: an empty field that was not quoted is no value. */
  function ReadBack(fmt: Format, quoteAll: bool, field: Field): Field {
    match field
    case None => None
    case Some(s) => if Quotes(fmt, quoteAll, s) then Some(s) else OrNone(s)
  }

  function ReadBackAll(fmt: Format, quoteAll: bool, row: Record): Record {
    seq(|row|, k requires 0 <= k < |row| => ReadBack(fmt, quoteAll, row[k]))
  }

  /** A field that leaves nothing in the text. */
  predicate PrintsNothing(fmt: Format, quoteAll: bool, field: Field) { FieldText(fmt, quoteAll, field) == "" }

  /** A field the reader can tell from the text around it: in quotes, one whose runs of escape characters
      are even; without quotes, one that holds neither delimiter nor newline. */
  predicate Survives(fmt: Format, quoteAll: bool, field: Field)
    requires fmt.delimiter.Some?
  {
    field.Some? ==>
      if Quotes(fmt, quoteAll, field.value) then
        fmt.escape.Some? ==> EvenRuns(fmt.escape.value, fmt.quote.value, field.value)
      else fmt.delimiter.value !in field.value && '\n' !in field.value
  }

  /** The fields of a row as the reader hands them on; `first` says whether the row starts here.  When the
      delimiter is a space, repeated delimiters are one, so empty fields between others are lost. */
  function RowBack(fmt: Format, quoteAll: bool, row: Record, first: bool): Record
    requires row != []
  {
    var nothing := PrintsNothing(fmt, quoteAll, row[0]);
    var back := [ReadBack(fmt, quoteAll, row[0])];
    if |row| == 1 then if nothing && first then [] else back
    else (if nothing && !first && EatsDelimiters(fmt) then [] else back) + RowBack(fmt, quoteAll, row[1..], false)
  }

  // ---------------------------------------------------------------------------------------------
  // Reading one field
  // ---------------------------------------------------------------------------------------------

  lemma RunStep(fmt: Format, r: Reader, c: char, rest: string)
    requires !r.state.End?
    ensures Run(fmt, r, [c] + rest) == Run(fmt, Step(fmt, r, c), rest)
  {
    assert ([c] + rest)[1..] == rest;
  }

  /** A reader at the start of a field. */
  predicate Ready(r: Reader, elements: Record) {
    && (r.state.Start? || r.state.Delimiter?) && (r.state.Start? ==> elements == [])
    && r.current == "" && r.esc == "" && r.errors == [] && r.elements == elements
  }

  /** A reader inside a field. */
  predicate Inside(r: Reader, state: State, current: string, elements: Record) {
    r.state == state && r.current == current && r.errors == [] && r.elements == elements
  }

  predicate Unmarked(fmt: Format, s: string)
    requires fmt.delimiter.Some?
  {
    fmt.delimiter.value !in s && '\n' !in s && (fmt.quote.Some? ==> fmt.quote.value !in s)
  }

  lemma {:induction false} ReadUnquoted(fmt: Format, r: Reader, s: string, rest: string) returns (r': Reader)
    requires Distinct(fmt) && Unmarked(fmt, s) && r.state.InUnquoted? && r.esc == "" && r.errors == []
    ensures Run(fmt, r, s + rest) == Run(fmt, r', rest)
    ensures Inside(r', InUnquoted, r.current + s, r.elements) && r'.esc == ""
    ensures r'.prev == if s == "" then r.prev else Some(InUnquoted)
    decreases |s|
  {
    r' := r;
    if s == "" {
      assert s + rest == rest;
      assert r.current + s == r.current;
    } else {
      assert s + rest == [s[0]] + (s[1..] + rest);
      assert s[0] in s;
      RunStep(fmt, r, s[0], s[1..] + rest);
      assert forall c <- s[1..] :: c in s;
      r' := ReadUnquoted(fmt, Step(fmt, r, s[0]), s[1..], rest);
      assert r.current + [s[0]] + s[1..] == r.current + s;
    }
  }

  lemma TwoSteps(fmt: Format, r: Reader, c: char, c': char, rest: string)
    requires !r.state.End? && !Step(fmt, r, c).state.End?
    ensures Run(fmt, r, [c] + ([c'] + rest)) == Run(fmt, Step(fmt, Step(fmt, r, c), c'), rest)
  {
    hide Run;
    RunStep(fmt, r, c, [c'] + rest);
    RunStep(fmt, Step(fmt, r, c), c', rest);
  }

  /** How the body of a quoted field begins: what stands for its first character, or for an escape
      character and what follows it. */
  lemma BodyStarts(s: string, q: char, qq: string, tail: string)
    requires |qq| == 2
    ensures s == "" ==> Replace(s, q, qq) + tail == tail
    ensures s != "" && s[0] == q ==> Replace(s, q, qq) + tail == [qq[0]] + ([qq[1]] + (Replace(s[1..], q, qq) + tail))
    ensures s != "" && s[0] != q ==> Replace(s, q, qq) + tail == [s[0]] + (Replace(s[1..], q, qq) + tail)
    ensures |s| >= 2 && s[0] != q && s[1] != q ==>
              Replace(s, q, qq) + tail == [s[0]] + ([s[1]] + (Replace(s[2..], q, qq) + tail))
  {
    if |s| >= 2 && s[0] != q && s[1] != q {
      assert s[1..][1..] == s[2..];
      assert Replace(s, q, qq) == [s[0]] + ([s[1]] + Replace(s[2..], q, qq));
    }
  }

  /** The body of a quoted field, up to its closing quote. */
  lemma {:induction false} ReadQuoted(fmt: Format, r: Reader, s: string, rest: string) returns (r': Reader)
    requires Distinct(fmt) && fmt.quote.Some? && (fmt.escape.Some? ==> Safe(fmt.escape.value, fmt.quote.value, s))
    requires r.state.InQuoted? && r.errors == []
    ensures Run(fmt, r, Replace(s, fmt.quote.value, QuotedQuote(fmt)) + ([fmt.quote.value] + rest))
        == Run(fmt, r', rest)
    ensures Inside(r', QuoteInQuoted, r.current + s, r.elements) && r'.prev == Some(InQuoted)
    decreases |s|
  {
    hide Run, Replace;
    var q, qq := fmt.quote.value, QuotedQuote(fmt);
    var tail := [q] + rest;
    BodyStarts(s, q, qq, tail);
    if s == "" {
      assert r.current + s == r.current;
      RunStep(fmt, r, q, rest);
      r' := Step(fmt, r, q);
    } else if s[0] == q {
      TwoSteps(fmt, r, qq[0], q, Replace(s[1..], q, qq) + tail);
      r' := ReadQuoted(fmt, Step(fmt, Step(fmt, r, qq[0]), q), s[1..], rest);
      assert r.current + [q] + s[1..] == r.current + s;
    } else if fmt.escape == Some(s[0]) {
      TwoSteps(fmt, r, s[0], s[1], Replace(s[2..], q, qq) + tail);
      r' := ReadQuoted(fmt, Step(fmt, Step(fmt, r, s[0]), s[1]), s[2..], rest);
      assert r.current + [s[0]] + [s[1]] + s[2..] == r.current + s;
    } else {
      RunStep(fmt, r, s[0], Replace(s[1..], q, qq) + tail);
      r' := ReadQuoted(fmt, Step(fmt, r, s[0]), s[1..], rest);
      assert r.current + [s[0]] + s[1..] == r.current + s;
    }
  }

  /** The text of a field that prints something, up to what stands behind it. */
  lemma ReadField(fmt: Format, quoteAll: bool, r: Reader, field: Field, rest: string) returns (r': Reader)
    requires Distinct(fmt) && Ready(r, r.elements) && Survives(fmt, quoteAll, field)
        && !PrintsNothing(fmt, quoteAll, field)
    ensures Run(fmt, r, FieldText(fmt, quoteAll, field) + rest) == Run(fmt, r', rest)
    ensures Inside(r', if Quotes(fmt, quoteAll, field.value) then QuoteInQuoted else InUnquoted, field.value,
                   r.elements)
    ensures r'.state.InUnquoted? ==> r'.esc == "" && field.value != ""
    ensures r'.prev == if Quotes(fmt, quoteAll, field.value) then Some(InQuoted)
                       else Some(if |field.value| == 1 then r.state else InUnquoted)
  {
    if Quotes(fmt, quoteAll, field.value) {
      r' := ReadQuotedField(fmt, r, field.value, rest);
    } else {
      r' := ReadPlainField(fmt, r, field.value, rest);
    }
  }

  lemma ReadQuotedField(fmt: Format, r: Reader, s: string, rest: string) returns (r': Reader)
    requires Distinct(fmt) && Ready(r, r.elements) && fmt.quote.Some?
    requires fmt.escape.Some? ==> EvenRuns(fmt.escape.value, fmt.quote.value, s)
    ensures var q := fmt.quote.value;
            Run(fmt, r, [q] + Replace(s, q, QuotedQuote(fmt)) + [q] + rest) == Run(fmt, r', rest)
    ensures Inside(r', QuoteInQuoted, s, r.elements) && r'.prev == Some(InQuoted)
  {
    hide Run, Replace, Safe, EvenRuns;
    var q := fmt.quote.value;
    var body := Replace(s, q, QuotedQuote(fmt)) + ([q] + rest);
    assert [q] + Replace(s, q, QuotedQuote(fmt)) + [q] + rest == [q] + body;
    RunStep(fmt, r, q, body);
    if fmt.escape.Some? {
      SafeIsEvenRuns(fmt.escape.value, q, s);
    }
    r' := ReadQuoted(fmt, Step(fmt, r, q), s, rest);
    assert "" + s == s;
  }

  lemma ReadPlainField(fmt: Format, r: Reader, s: string, rest: string) returns (r': Reader)
    requires Distinct(fmt) && Ready(r, r.elements) && s != "" && Unmarked(fmt, s)
    ensures Run(fmt, r, s + rest) == Run(fmt, r', rest)
    ensures Inside(r', InUnquoted, s, r.elements) && r'.esc == ""
    ensures r'.prev == Some(if |s| == 1 then r.state else InUnquoted)
  {
    hide Run;
    assert s[0] in s;
    assert s + rest == [s[0]] + (s[1..] + rest);
    RunStep(fmt, r, s[0], s[1..] + rest);
    assert forall c <- s[1..] :: c in s;
    r' := ReadUnquoted(fmt, Step(fmt, r, s[0]), s[1..], rest);
    assert "" + [s[0]] + s[1..] == s;
  }

  lemma FieldThenDelimiter(fmt: Format, quoteAll: bool, r: Reader, field: Field, rest: string) returns (r': Reader)
    requires Distinct(fmt) && Ready(r, r.elements) && Survives(fmt, quoteAll, field)
    ensures Run(fmt, r, FieldText(fmt, quoteAll, field) + ([fmt.delimiter.value] + rest)) == Run(fmt, r', rest)
    ensures r'.state.Delimiter?
    ensures r'.prev == Some(Delimiter) <==> PrintsNothing(fmt, quoteAll, field) && r.state.Delimiter?
    ensures Ready(r', r.elements + if PrintsNothing(fmt, quoteAll, field) && r.state.Delimiter? && EatsDelimiters(fmt)
                                   then []
                                   else [ReadBack(fmt, quoteAll, field)])
  {
    var d := fmt.delimiter.value;
    if PrintsNothing(fmt, quoteAll, field) {
      assert "" + ([d] + rest) == [d] + rest;
      RunStep(fmt, r, d, rest);
      r' := Step(fmt, r, d);
      assert r.elements + [] == r.elements;
    } else {
      var r1 := ReadField(fmt, quoteAll, r, field, [d] + rest);
      RunStep(fmt, r1, d, rest);
      r' := Step(fmt, r1, d);
    }
  }

  lemma FieldThenNewline(fmt: Format, quoteAll: bool, r: Reader, field: Field, rest: string) returns (r': Reader)
    requires Distinct(fmt) && Ready(r, r.elements) && Survives(fmt, quoteAll, field)
    ensures Run(fmt, r, FieldText(fmt, quoteAll, field) + ("\n" + rest)) == (r', rest)
    ensures r'.state.End? && r'.errors == []
    ensures Finish(r') == r.elements + if PrintsNothing(fmt, quoteAll, field) && r.state.Start? then []
                                       else [ReadBack(fmt, quoteAll, field)]
  {
    if PrintsNothing(fmt, quoteAll, field) {
      assert "" + ("\n" + rest) == "\n" + rest;
      RunStep(fmt, r, '\n', rest);
      r' := Step(fmt, r, '\n');
    } else {
      var r1 := ReadField(fmt, quoteAll, r, field, "\n" + rest);
      RunStep(fmt, r1, '\n', rest);
      r' := Step(fmt, r1, '\n');
    }
  }

  // ---------------------------------------------------------------------------------------------
  // Reading one row
  // ---------------------------------------------------------------------------------------------

  lemma RowTextCons(fmt: Format, quoteAll: bool, row: Record)
    requires row != [] && fmt.delimiter.Some?
    ensures RowText(fmt, quoteAll, row) ==
            if |row| == 1 then FieldText(fmt, quoteAll, row[0]) + "\n"
            else FieldText(fmt, quoteAll, row[0]) + ([fmt.delimiter.value] + RowText(fmt, quoteAll, row[1..]))
  {
    var texts := FieldTexts(fmt, quoteAll, row);
    assert texts[1..] == FieldTexts(fmt, quoteAll, row[1..]);
  }

  lemma DistinctHasDelimiter(fmt: Format)
    requires Distinct(fmt)
    ensures fmt.delimiter.Some?
  {}

  lemma ReadyElements(r: Reader, elements: Record)
    requires Ready(r, elements)
    ensures r.elements == elements && Ready(r, r.elements)
  {}

  lemma ReadyStart(r: Reader)
    requires Ready(r, r.elements)
    ensures r.state.Start? || r.state.Delimiter?
  {}

  lemma RowTextSplit(fmt: Format, quoteAll: bool, row: Record, rest: string)
    requires |row| > 1 && fmt.delimiter.Some?
    ensures RowText(fmt, quoteAll, row) + rest
            == FieldText(fmt, quoteAll, row[0]) + ([fmt.delimiter.value] + (RowText(fmt, quoteAll, row[1..]) + rest))
  {
    hide RowText, FieldText;
    RowTextCons(fmt, quoteAll, row);
  }

  lemma {:induction false} ReadRow(fmt: Format, quoteAll: bool, r: Reader, row: Record, rest: string)
    returns (r': Reader)
    requires Distinct(fmt) && Ready(r, r.elements) && row != [] && forall f <- row :: Survives(fmt, quoteAll, f)
    ensures Run(fmt, r, RowText(fmt, quoteAll, row) + rest) == (r', rest)
    ensures r'.state.End? && r'.errors == [] && Finish(r') == r.elements + RowBack(fmt, quoteAll, row, r.state.Start?)
    decreases |row|
  {
    hide *;
    DistinctHasDelimiter(fmt);
    assert row[0] in row;
    RowBackCons(fmt, quoteAll, row, r.state.Start?);
    if |row| == 1 {
      LastFieldText(fmt, quoteAll, row, rest);
      r' := FieldThenNewline(fmt, quoteAll, r, row[0], rest);
      ReadyStart(r);
    } else {
      var r1 := ReadFirst(fmt, quoteAll, r, row, rest);
      assert forall f <- row[1..] :: f in row;
      r' := ReadRow(fmt, quoteAll, r1, row[1..], rest);
      RegroupFields(r.elements, r1.elements[|r.elements|..], RowBack(fmt, quoteAll, row[1..], false));
    }
  }

  lemma RegroupFields(a: Record, b: Record, c: Record)
    ensures a + b + c == a + (b + c)
  {
  }

  lemma RowBackCons(fmt: Format, quoteAll: bool, row: Record, first: bool)
    requires row != []
    ensures var nothing := PrintsNothing(fmt, quoteAll, row[0]);
            var back := [ReadBack(fmt, quoteAll, row[0])];
            RowBack(fmt, quoteAll, row, first) ==
            if |row| == 1 then if nothing && first then [] else back
            else (if nothing && !first && EatsDelimiters(fmt) then [] else back)
                 + RowBack(fmt, quoteAll, row[1..], false)
  {
  }

  lemma LastFieldText(fmt: Format, quoteAll: bool, row: Record, rest: string)
    requires |row| == 1 && fmt.delimiter.Some?
    ensures RowText(fmt, quoteAll, row) + rest == FieldText(fmt, quoteAll, row[0]) + ("\n" + rest)
  {
    hide FieldText, RowText;
    RowTextCons(fmt, quoteAll, row);
  }

  /** The first of several fields, and the delimiter behind it. */
  lemma ReadFirst(fmt: Format, quoteAll: bool, r: Reader, row: Record, rest: string) returns (r1: Reader)
    requires Distinct(fmt) && Ready(r, r.elements) && |row| > 1 && Survives(fmt, quoteAll, row[0])
    ensures Run(fmt, r, RowText(fmt, quoteAll, row) + rest) == Run(fmt, r1, RowText(fmt, quoteAll, row[1..]) + rest)
    ensures Ready(r1, r1.elements) && !r1.state.Start?
    ensures r1.prev == Some(Delimiter) <==> PrintsNothing(fmt, quoteAll, row[0]) && !r.state.Start?
    ensures var nothing := PrintsNothing(fmt, quoteAll, row[0]) && !r.state.Start? && EatsDelimiters(fmt);
            r1.elements == r.elements + if nothing then [] else [ReadBack(fmt, quoteAll, row[0])]
  {
    hide Run, FieldText, RowText, ReadBack, Survives, PrintsNothing, Ready, Distinct, EatsDelimiters;
    DistinctHasDelimiter(fmt);
    RowTextSplit(fmt, quoteAll, row, rest);
    r1 := FieldThenDelimiter(fmt, quoteAll, r, row[0], RowText(fmt, quoteAll, row[1..]) + rest);
    ReadyStart(r);
    var nothing := PrintsNothing(fmt, quoteAll, row[0]) && r.state.Delimiter? && EatsDelimiters(fmt);
    ReadyElements(r1, r.elements + if nothing then [] else [ReadBack(fmt, quoteAll, row[0])]);
  }

  lemma BlankLine(fmt: Format, rest: string)
    requires fmt.quote != Some('\n') && fmt.delimiter != Some('\n')
    ensures ParseLine(fmt, "\n" + rest) == Line(Ok([]), rest, false)
  {
    RunStep(fmt, NewReader, '\n', rest);
    var r := Step(fmt, NewReader, '\n');
    assert Run(fmt, r, rest) == (r, rest);
    assert Finish(r) == [];
  }

  /** Every row of surviving fields is read as one record; with a space for a delimiter it loses exactly its
      empty fields between others. */
  lemma RowReadBack(fmt: Format, quoteAll: bool, row: Record, rest: string)
    requires Distinct(fmt) && forall f <- row :: Survives(fmt, quoteAll, f)
    ensures ParseLine(fmt, RowText(fmt, quoteAll, row) + rest)
            == Line(Ok(if row == [] then [] else RowBack(fmt, quoteAll, row, true)), rest, false)
  {
    if row == [] {
      BlankLine(fmt, rest);
      assert RowText(fmt, quoteAll, row) == "\n";
    } else {
      hide *;
      FreshReader();
      var r' := ReadRow(fmt, quoteAll, NewReader, row, rest);
      ReadLine(fmt, RowText(fmt, quoteAll, row) + rest, r', rest, RowBack(fmt, quoteAll, row, true));
    }
  }

  lemma FreshReader()
    ensures Ready(NewReader, NewReader.elements) && NewReader.state.Start? && NewReader.elements == []
  {
  }

  lemma ReadLine(fmt: Format, text: string, r: Reader, rest: string, record: Record)
    requires Run(fmt, NewReader, text) == (r, rest) && r.state.End? && r.errors == [] && Finish(r) == [] + record
    ensures ParseLine(fmt, text) == Line(Ok(record), rest, false)
  {
    hide Run, Finish;
    assert [] + record == record;
  }

  // ---------------------------------------------------------------------------------------------
  // A field that does not survive
  // ---------------------------------------------------------------------------------------------

  /** What was read is never taken back. */
  lemma {:induction false} RunGrows(fmt: Format, r: Reader, s: string)
    ensures var r' := Run(fmt, r, s).0;
      r.elements <= r'.elements && |r.errors| <= |r'.errors| && r.elements <= Finish(r')
    decreases |s|
  {
    if !r.state.End? && s != "" {
      RunGrows(fmt, Step(fmt, r, s[0]), s[1..]);
    }
  }

  /** The record read, if any, has a text as its field `k`, but neither `t` nor the empty one. */
  predicate Loses(line: Line, k: nat, t: string) {
    line.outcome.Ok? ==>
      k < |line.outcome.value| && line.outcome.value[k].Some? && line.outcome.value[k].value !in {t, ""}
  }

  /** What was read differs from `t` before its last character. */
  predicate Off(current: string, t: string) { exists i :: 0 <= i < |current| - 1 && OffAt(current, t, i) }

  predicate OffAt(current: string, t: string, i: nat)
    requires i < |current|
  {
    i >= |t| || current[i] != t[i]
  }

  lemma OffGrows(current: string, x: string, t: string)
    requires Off(current, t)
    ensures Off(current + x, t) && |current| > 1 && current != t && current[..|current| - 1] != t
  {
    var i :| 0 <= i < |current| - 1 && OffAt(current, t, i);
    assert OffAt(current + x, t, i);
  }

  predicate InQuotes(r: Reader) { r.state.InQuoted? || r.state.Escaped? || r.state.QuoteInQuoted? }

  /** Inside a quoted field that is off, one more character leaves it off or ends it so. */
  lemma OffStep(fmt: Format, r: Reader, c: char, t: string)
    requires Distinct(fmt) && Off(r.current, t) && InQuotes(r)
    ensures var r1 := Step(fmt, r, c);
            if InQuotes(r1) then Off(r1.current, t) && r1.elements == r.elements
            else r1.elements == r.elements + [Some(r.current)] && r.current !in {t, ""}
  {
    OffGrows(r.current, "", t);
    OffGrows(r.current, [c], t);
    OffGrows(r.current, r.esc, t);
    OffGrows(r.current + r.esc, [c], t);
    assert r.current + "" == r.current;
    hide Off;
  }

  lemma OffAtEnd(r: Reader, t: string)
    requires Off(r.current, t) && InQuotes(r)
    ensures Loses(LineOf(r, ""), |r.elements|, t)
  {
    OffGrows(r.current, "", t);
    OffGrows(r.current, r.esc, t);
    OffGrows(r.current + r.esc, "", t);
    hide Off;
  }

  lemma KeptLoses(fmt: Format, r: Reader, s: string, k: nat, x: string, t: string)
    requires k < |r.elements| && r.elements[k] == Some(x) && x !in {t, ""}
    ensures var (r', rest) := Run(fmt, r, s); Loses(LineOf(r', rest), k, t)
  {
    RunGrows(fmt, r, s);
    hide Run, Finish;
  }

  /** Once what was read of a quoted field is off, the field is not read right any more. */
  lemma {:induction false} OffForGood(fmt: Format, r: Reader, s: string, t: string)
    requires Distinct(fmt) && Off(r.current, t) && InQuotes(r)
    ensures var (r', rest) := Run(fmt, r, s); Loses(LineOf(r', rest), |r.elements|, t)
    decreases |s|
  {
    hide Off, Step, Finish, Loses;
    if s == "" {
      OffAtEnd(r, t);
    } else {
      OffStep(fmt, r, s[0], t);
      var r1 := Step(fmt, r, s[0]);
      if InQuotes(r1) {
        OffForGood(fmt, r1, s[1..], t);
      } else {
        KeptLoses(fmt, r1, s[1..], |r.elements|, r.current, t);
      }
    }
  }

  /** A quoted field with an odd run of escape characters is never read back, whatever follows it. */
  lemma {:induction false} UnsafeIsLost(fmt: Format, r: Reader, pre: string, s: string, x: char, rest: string)
    requires Distinct(fmt) && fmt.quote.Some? && fmt.escape.Some? && !Safe(fmt.escape.value, fmt.quote.value, s)
    requires Inside(r, InQuoted, pre, r.elements) && (Some(x) == fmt.delimiter || x == '\n')
    ensures var tail := [fmt.quote.value] + ([x] + rest);
            var (r', left) := Run(fmt, r, Replace(s, fmt.quote.value, QuotedQuote(fmt)) + tail);
            Loses(LineOf(r', left), |r.elements|, pre + s)
    decreases |s|
  {
    hide Run, Finish, Replace;
    var q, e, qq := fmt.quote.value, fmt.escape.value, QuotedQuote(fmt);
    var tail := [q] + ([x] + rest);
    BodyStarts(s, q, qq, tail);
    if s[0] == q {
      TwoSteps(fmt, r, e, q, Replace(s[1..], q, qq) + tail);
      UnsafeIsLost(fmt, Step(fmt, Step(fmt, r, e), q), pre + [q], s[1..], x, rest);
      assert pre + [q] + s[1..] == pre + s;
    } else if s[0] != e {
      RunStep(fmt, r, s[0], Replace(s[1..], q, qq) + tail);
      UnsafeIsLost(fmt, Step(fmt, r, s[0]), pre + [s[0]], s[1..], x, rest);
      assert pre + [s[0]] + s[1..] == pre + s;
    } else if |s| >= 2 && s[1] != q {
      TwoSteps(fmt, r, e, s[1], Replace(s[2..], q, qq) + tail);
      UnsafeIsLost(fmt, Step(fmt, Step(fmt, r, e), s[1]), pre + [e] + [s[1]], s[2..], x, rest);
      assert pre + [e] + [s[1]] + s[2..] == pre + s;
    } else {
      BodyStarts(s[1..], q, qq, tail);
      if |s| == 1 {
        assert s == [e];
        LostAtEnd(fmt, r, pre, x, rest);
      } else {
        LostAtQuote(fmt, r, pre, s, Replace(s[1..][1..], q, qq) + tail);
      }
    }
  }

  /** An odd run at the end of the field escapes its closing quote. */
  lemma LostAtEnd(fmt: Format, r: Reader, pre: string, x: char, rest: string)
    requires Distinct(fmt) && fmt.quote.Some? && fmt.escape.Some?
    requires Inside(r, InQuoted, pre, r.elements) && (Some(x) == fmt.delimiter || x == '\n')
    ensures var e := fmt.escape.value;
            var (r', left) := Run(fmt, r, [e] + ([fmt.quote.value] + ([x] + rest)));
            Loses(LineOf(r', left), |r.elements|, pre + [e])
  {
    hide Run;
    var q, e := fmt.quote.value, fmt.escape.value;
    var r1 := Step(fmt, r, e);
    var r2 := Step(fmt, r1, q);
    var r3 := Step(fmt, r2, x);
    RunStep(fmt, r, e, [q] + ([x] + rest));
    RunStep(fmt, r1, q, [x] + rest);
    RunStep(fmt, r2, x, rest);
    assert r3.current == pre + [q] + [x];
    assert OffAt(r3.current, pre + [e], |pre|);
    OffForGood(fmt, r3, rest, pre + [e]);
  }

  /** An odd run before a quote makes the reader take the quote for the closing one. */
  lemma LostAtQuote(fmt: Format, r: Reader, pre: string, s: string, more: string)
    requires Distinct(fmt) && fmt.quote.Some? && fmt.escape.Some? && more != ""
    requires |s| >= 2 && s[0] == fmt.escape.value && s[1] == fmt.quote.value
    requires Inside(r, InQuoted, pre, r.elements)
    ensures var e := fmt.escape.value;
            var (r', left) := Run(fmt, r, [e] + ([e] + ([fmt.quote.value] + more)));
            Loses(LineOf(r', left), |r.elements|, pre + s)
  {
    hide Run, Finish;
    var q, e, t := fmt.quote.value, fmt.escape.value, pre + s;
    var r1 := Step(fmt, r, e);
    var r2 := Step(fmt, r1, e);
    var r3 := Step(fmt, r2, q);
    var r4 := Step(fmt, r3, more[0]);
    RunStep(fmt, r, e, [e] + ([q] + more));
    RunStep(fmt, r1, e, [q] + more);
    RunStep(fmt, r2, q, more);
    assert more == [more[0]] + more[1..];
    RunStep(fmt, r3, more[0], more[1..]);
    assert r3.current == pre + [e] + [e];
    assert r3.current[|pre| + 1] != t[|pre| + 1];
    if more[0] == q {
      assert OffAt(r4.current, t, |pre| + 1);
      OffForGood(fmt, r4, more[1..], t);
    } else {
      RunGrows(fmt, r4, more[1..]);
    }
  }

  // ---------------------------------------------------------------------------------------------
  // Without quotes
  // ---------------------------------------------------------------------------------------------

  predicate PlainFields(fmt: Format, elements: Record)
    requires fmt.delimiter.Some?
  {
    forall k :: 0 <= k < |elements| && elements[k].Some? ==>
                  fmt.delimiter.value !in elements[k].value && '\n' !in elements[k].value
  }

  /** Without a quote character no field read ever holds a delimiter or a newline. */
  lemma {:induction false} UnquotedIsPlain(fmt: Format, r: Reader, s: string)
    requires Distinct(fmt) && fmt.quote.None? && PlainFields(fmt, r.elements)
    requires r.state.Start? || r.state.InUnquoted? || r.state.Delimiter? || r.state.End?
    requires fmt.delimiter.value !in r.current && '\n' !in r.current && r.esc == "" && r.prev != Some(QuoteInQuoted)
    ensures PlainFields(fmt, Finish(Run(fmt, r, s).0))
    decreases |s|
  {
    if !r.state.End? && s != "" {
      UnquotedIsPlain(fmt, Step(fmt, r, s[0]), s[1..]);
    }
  }

  // ---------------------------------------------------------------------------------------------
  // Exactly when a row comes back
  // ---------------------------------------------------------------------------------------------

  lemma WhatIsLost(fmt: Format, quoteAll: bool, field: Field)
    requires Distinct(fmt) && fmt.quote.Some? && !Survives(fmt, quoteAll, field)
    ensures field.Some? && Quotes(fmt, quoteAll, field.value) && fmt.escape.Some?
    ensures !Safe(fmt.escape.value, fmt.quote.value, field.value)
    ensures FieldText(fmt, quoteAll, field)
            == [fmt.quote.value] + Replace(field.value, fmt.quote.value, QuotedQuote(fmt)) + [fmt.quote.value]
  {
    if field.Some? && fmt.escape.Some? {
      SafeIsEvenRuns(fmt.escape.value, fmt.quote.value, field.value);
    }
  }

  /** What the reader makes of `text` does not have `t` as its field `k`. */
  predicate Misses(fmt: Format, r: Reader, text: string, k: nat, t: string) {
    var (r', left) := Run(fmt, r, text); Loses(LineOf(r', left), k, t)
  }

  lemma LostFirst(fmt: Format, quoteAll: bool, r: Reader, row: Record, rest: string)
    requires Distinct(fmt) && fmt.quote.Some? && Ready(r, r.elements) && row != []
    requires !Survives(fmt, quoteAll, row[0])
    ensures row[0].Some? && Misses(fmt, r, RowText(fmt, quoteAll, row) + rest, |r.elements|, row[0].value)
  {
    hide Run, Finish, RowText, Replace, Survives, FieldText, Safe, EvenRuns, Quotes, Step, Ready, QuotedQuote;
    WhatIsLost(fmt, quoteAll, row[0]);
    var s, q := row[0].value, fmt.quote.value;
    var x := if |row| == 1 then '\n' else fmt.delimiter.value;
    var left := if |row| == 1 then rest else RowText(fmt, quoteAll, row[1..]) + rest;
    var body := Replace(s, q, QuotedQuote(fmt)) + ([q] + ([x] + left));
    QuotedRowText(fmt, quoteAll, row, rest, x, left);
    OpenQuote(fmt, r);
    RunStep(fmt, r, q, body);
    UnsafeIsLost(fmt, Step(fmt, r, q), "", s, x, left);
    assert "" + s == s;
  }

  lemma OpenQuote(fmt: Format, r: Reader)
    requires Ready(r, r.elements) && fmt.quote.Some?
    ensures !r.state.End? && Inside(Step(fmt, r, fmt.quote.value), InQuoted, "", r.elements)
  {}

  lemma QuotedRowText(fmt: Format, quoteAll: bool, row: Record, rest: string, x: char, left: string)
    requires Distinct(fmt) && row != [] && fmt.quote.Some?
    requires x == (if |row| == 1 then '\n' else fmt.delimiter.value)
    requires left == (if |row| == 1 then rest else RowText(fmt, quoteAll, row[1..]) + rest)
    requires row[0].Some?
    requires FieldText(fmt, quoteAll, row[0])
             == [fmt.quote.value] + Replace(row[0].value, fmt.quote.value, QuotedQuote(fmt)) + [fmt.quote.value]
    ensures RowText(fmt, quoteAll, row) + rest
            == [fmt.quote.value]
               + (Replace(row[0].value, fmt.quote.value, QuotedQuote(fmt)) + ([fmt.quote.value] + ([x] + left)))
  {
    hide RowText, FieldText, Replace, QuotedQuote;
    RowTextCons(fmt, quoteAll, row);
  }

  predicate AllSurvive(fmt: Format, quoteAll: bool, row: Record)
    requires fmt.delimiter.Some?
  {
    forall f <- row :: Survives(fmt, quoteAll, f)
  }

  /** A field as it was written, or as it is read back. */
  predicate Wants(fmt: Format, quoteAll: bool, row: Record, want: Record) {
    |want| == |row| && forall k :: 0 <= k < |row| ==> want[k] == row[k] || want[k] == ReadBack(fmt, quoteAll, row[k])
  }

  /** The record read, if any, goes on behind the elements so far, but not with `want`. */
  predicate GoesOther(fmt: Format, r: Reader, text: string, want: Record) {
    var (r', left) := Run(fmt, r, text); var line := LineOf(r', left);
    line.outcome.Ok? ==>
      |line.outcome.value| > |r.elements| && line.outcome.value != r.elements + want
  }

  /** The field at `k` is a text that prints something. */
  predicate HasPrinted(fmt: Format, quoteAll: bool, r: Reader, text: string, k: nat) {
    var (r', left) := Run(fmt, r, text); var line := LineOf(r', left);
    line.outcome.Ok? ==> k < |line.outcome.value| && !PrintsNothing(fmt, quoteAll, line.outcome.value[k])
  }

  lemma TextPrints(fmt: Format, quoteAll: bool, field: Field)
    ensures field.Some? && field.value != "" ==> !PrintsNothing(fmt, quoteAll, field)
    ensures !PrintsNothing(fmt, quoteAll, field) ==> !PrintsNothing(fmt, quoteAll, ReadBack(fmt, quoteAll, field))
    ensures PrintsNothing(fmt, quoteAll, field) ==>
              PrintsNothing(fmt, quoteAll, ReadBack(fmt, quoteAll, field)) && field in {None, Some("")}
  {
  }

  lemma LostPrints(fmt: Format, quoteAll: bool, r: Reader, text: string, k: nat, t: string)
    requires Misses(fmt, r, text, k, t)
    ensures HasPrinted(fmt, quoteAll, r, text, k)
  {
    hide Run, PrintsNothing, Finish;
    var (r', left) := Run(fmt, r, text);
    var line := LineOf(r', left);
    if line.outcome.Ok? {
      TextPrints(fmt, quoteAll, line.outcome.value[k]);
    }
  }

  lemma GrownPrints(fmt: Format, quoteAll: bool, r: Reader, text: string, k: nat)
    requires k < |r.elements| && !PrintsNothing(fmt, quoteAll, r.elements[k])
    ensures HasPrinted(fmt, quoteAll, r, text, k)
  {
    hide PrintsNothing, Finish;
    RunGrows(fmt, r, text);
    hide Run;
  }

  /** Behind an eaten delimiter the next field read is one that prints something, if some field to come does not
      survive. */
  lemma {:induction false} PrintedNext(fmt: Format, quoteAll: bool, r: Reader, row: Record, rest: string)
    requires Distinct(fmt) && EatsDelimiters(fmt) && fmt.quote.Some? && Ready(r, r.elements) && !r.state.Start?
    requires row != [] && !AllSurvive(fmt, quoteAll, row)
    ensures HasPrinted(fmt, quoteAll, r, RowText(fmt, quoteAll, row) + rest, |r.elements|)
    decreases |row|
  {
    hide Run, RowText, FieldText, Survives, PrintsNothing, Ready, Step, ReadBack, HasPrinted, Misses;
    if !Survives(fmt, quoteAll, row[0]) {
      LostFirst(fmt, quoteAll, r, row, rest);
      LostPrints(fmt, quoteAll, r, RowText(fmt, quoteAll, row) + rest, |r.elements|, row[0].value);
    } else {
      LaterLost(fmt, quoteAll, row);
      var r1 := ReadFirst(fmt, quoteAll, r, row, rest);
      var text, text1 := RowText(fmt, quoteAll, row) + rest, RowText(fmt, quoteAll, row[1..]) + rest;
      if PrintsNothing(fmt, quoteAll, row[0]) {
        PrintedNext(fmt, quoteAll, r1, row[1..], rest);
      } else {
        TextPrints(fmt, quoteAll, row[0]);
        GrownPrints(fmt, quoteAll, r1, text1, |r.elements|);
      }
      SamePrinted(fmt, quoteAll, r, text, r1, text1, |r.elements|);
    }
  }

  lemma SamePrinted(fmt: Format, quoteAll: bool, r: Reader, text: string, r1: Reader, text1: string, k: nat)
    requires Run(fmt, r, text) == Run(fmt, r1, text1)
    ensures HasPrinted(fmt, quoteAll, r1, text1, k) ==> HasPrinted(fmt, quoteAll, r, text, k)
  {
    hide Run, PrintsNothing;
  }

  lemma LaterLost(fmt: Format, quoteAll: bool, row: Record)
    requires fmt.delimiter.Some? && row != [] && Survives(fmt, quoteAll, row[0])
    ensures !AllSurvive(fmt, quoteAll, row) ==> |row| > 1 && !AllSurvive(fmt, quoteAll, row[1..])
  {
    hide Survives;
    if |row| > 1 && AllSurvive(fmt, quoteAll, row[1..]) {
      forall f | f in row ensures Survives(fmt, quoteAll, f) {
        assert f == row[0] || f in row[1..];
      }
    }
  }

  /** A row with a field that does not survive is not read as what was written, nor as what surviving fields are
      read back as. */
  lemma {:induction false} LostInRow(fmt: Format, quoteAll: bool, r: Reader, row: Record, want: Record, rest: string)
    requires Distinct(fmt) && fmt.quote.Some? && Ready(r, r.elements) && row != []
    requires !AllSurvive(fmt, quoteAll, row) && Wants(fmt, quoteAll, row, want)
    ensures GoesOther(fmt, r, RowText(fmt, quoteAll, row) + rest, want)
    decreases |row|
  {
    hide Run, RowText, FieldText, Survives, PrintsNothing, Ready, Step, ReadBack, HasPrinted, Misses, GoesOther,
         EatsDelimiters;
    if !Survives(fmt, quoteAll, row[0]) {
      LostFirst(fmt, quoteAll, r, row, rest);
      LostReadsBack(fmt, quoteAll, row[0]);
      OtherFirst(fmt, r, RowText(fmt, quoteAll, row) + rest, want, row[0].value);
    } else {
      LaterLost(fmt, quoteAll, row);
      var r1 := ReadFirst(fmt, quoteAll, r, row, rest);
      var text, text1 := RowText(fmt, quoteAll, row) + rest, RowText(fmt, quoteAll, row[1..]) + rest;
      if PrintsNothing(fmt, quoteAll, row[0]) && !r.state.Start? && EatsDelimiters(fmt) {
        assert r1.elements == r.elements;
        PrintedNext(fmt, quoteAll, r1, row[1..], rest);
        TextPrints(fmt, quoteAll, row[0]);
        SamePrinted(fmt, quoteAll, r, text, r1, text1, |r.elements|);
        OtherPrinted(fmt, quoteAll, r, text, want);
      } else {
        assert forall k :: 0 <= k < |row| - 1 ==> row[1..][k] == row[k + 1] && want[1..][k] == want[k + 1];
        LostInRow(fmt, quoteAll, r1, row[1..], want[1..], rest);
        OtherBehind(fmt, r, text, want, r1, text1, ReadBack(fmt, quoteAll, row[0]));
      }
    }
  }

  lemma LostReadsBack(fmt: Format, quoteAll: bool, field: Field)
    requires fmt.delimiter.Some? && !Survives(fmt, quoteAll, field)
    ensures field.Some? && ReadBack(fmt, quoteAll, field) == field
  {
    hide Quotes, EvenRuns;
    if !Quotes(fmt, quoteAll, field.value) {
      assert field.value != "";
    }
  }

  lemma OtherFirst(fmt: Format, r: Reader, text: string, want: Record, t: string)
    requires want != [] && want[0] == Some(t) && Misses(fmt, r, text, |r.elements|, t)
    ensures GoesOther(fmt, r, text, want)
  {
    hide Run, Finish;
    assert (r.elements + want)[|r.elements|] == want[0];
  }

  lemma OtherPrinted(fmt: Format, quoteAll: bool, r: Reader, text: string, want: Record)
    requires want != [] && PrintsNothing(fmt, quoteAll, want[0])
    requires HasPrinted(fmt, quoteAll, r, text, |r.elements|)
    ensures GoesOther(fmt, r, text, want)
  {
    hide Run, Finish, PrintsNothing;
    assert (r.elements + want)[|r.elements|] == want[0];
  }

  lemma OtherBehind(fmt: Format, r: Reader, text: string, want: Record, r1: Reader, text1: string, back: Field)
    requires want != [] && r1.elements == r.elements + [back] && Run(fmt, r, text) == Run(fmt, r1, text1)
    requires GoesOther(fmt, r1, text1, want[1..])
    ensures GoesOther(fmt, r, text, want)
  {
    RunGrows(fmt, r1, text1);
    hide Run, Finish;
    assert (r.elements + want)[|r.elements|] == want[0] && r1.elements[|r.elements|] == back;
    assert want[0] == back ==> r.elements + want == r1.elements + want[1..];
  }

  lemma LostRow(fmt: Format, quoteAll: bool, row: Record, want: Record, rest: string)
    requires Distinct(fmt) && !AllSurvive(fmt, quoteAll, row) && Wants(fmt, quoteAll, row, want)
    ensures ParseLine(fmt, RowText(fmt, quoteAll, row) + rest).outcome != Ok(want)
    ensures fmt.quote.Some? ==> ParseLine(fmt, RowText(fmt, quoteAll, row) + rest).outcome != Ok([])
  {
    hide *;
    if fmt.quote.Some? {
      FreshReader();
      LostHasField(fmt, quoteAll, row);
      LostInRow(fmt, quoteAll, NewReader, row, want, rest);
      OtherLine(fmt, RowText(fmt, quoteAll, row) + rest, want);
    } else {
      LostUnquoted(fmt, quoteAll, row, want, rest);
    }
  }

  lemma LostHasField(fmt: Format, quoteAll: bool, row: Record)
    requires Distinct(fmt) && !AllSurvive(fmt, quoteAll, row)
    ensures row != []
  {
  }

  lemma OtherLine(fmt: Format, text: string, want: Record)
    requires GoesOther(fmt, NewReader, text, want)
    ensures ParseLine(fmt, text).outcome != Ok(want) && ParseLine(fmt, text).outcome != Ok([])
  {
    hide Run, Finish;
    assert [] + want == want;
  }

  lemma LostUnquoted(fmt: Format, quoteAll: bool, row: Record, want: Record, rest: string)
    requires Distinct(fmt) && !AllSurvive(fmt, quoteAll, row) && Wants(fmt, quoteAll, row, want) && fmt.quote.None?
    ensures ParseLine(fmt, RowText(fmt, quoteAll, row) + rest).outcome != Ok(want)
  {
    hide Run, Finish, RowText, Survives, ReadBack;
    var f :| f in row && !Survives(fmt, quoteAll, f);
    var k :| 0 <= k < |row| && row[k] == f;
    LostReadsBack(fmt, quoteAll, f);
    LostIsNotPlain(fmt, quoteAll, want, k);
    UnquotedIsPlain(fmt, NewReader, RowText(fmt, quoteAll, row) + rest);
  }

  lemma LostIsNotPlain(fmt: Format, quoteAll: bool, elements: Record, k: nat)
    requires fmt.delimiter.Some? && fmt.quote.None? && k < |elements| && !Survives(fmt, quoteAll, elements[k])
    ensures !PlainFields(fmt, elements)
  {
  }

  /** A row whose fields do not all survive comes back neither as it was nor as surviving fields would. */
  lemma RowLost(fmt: Format, quoteAll: bool, row: Record, rest: string)
    requires Distinct(fmt) && !AllSurvive(fmt, quoteAll, row)
    ensures var outcome := ParseLine(fmt, RowText(fmt, quoteAll, row) + rest).outcome;
            outcome != Ok(row) && outcome != Ok(ReadBackAll(fmt, quoteAll, row))
  {
    hide ParseLine, RowText, Survives, ReadBack;
    LostRow(fmt, quoteAll, row, row, rest);
    LostRow(fmt, quoteAll, row, ReadBackAll(fmt, quoteAll, row), rest);
  }

  /** With a space for a delimiter, no field between others prints nothing. */
  predicate NothingEaten(fmt: Format, quoteAll: bool, row: Record) {
    fmt.delimiter == Some(' ') ==> forall k :: 0 < k < |row| - 1 ==> !PrintsNothing(fmt, quoteAll, row[k])
  }

  /** A row that leaves an empty line: nothing in it but one field that prints nothing. */
  predicate PrintsBlank(fmt: Format, quoteAll: bool, row: Record) {
    row == [] || (|row| == 1 && PrintsNothing(fmt, quoteAll, row[0]))
  }

  /** How much of a row is eaten: nothing, or so much that it is shorter. */
  lemma {:induction false} RowBackIff(fmt: Format, quoteAll: bool, row: Record, first: bool)
    requires row != []
    ensures
      var from := if first then 1 else 0;
      var eaten := EatsDelimiters(fmt) && exists k :: from <= k < |row| - 1 && PrintsNothing(fmt, quoteAll, row[k]);
      var blank := |row| == 1 && first && PrintsNothing(fmt, quoteAll, row[0]);
      if eaten || blank then |RowBack(fmt, quoteAll, row, first)| < |row|
      else RowBack(fmt, quoteAll, row, first) == ReadBackAll(fmt, quoteAll, row)
    ensures |RowBack(fmt, quoteAll, row, first)| <= |row|
    ensures RowBack(fmt, quoteAll, row, first) == [] <==> |row| == 1 && first && PrintsNothing(fmt, quoteAll, row[0])
    decreases |row|
  {
    hide PrintsNothing, ReadBack, EatsDelimiters;
    if |row| > 1 {
      RowBackIff(fmt, quoteAll, row[1..], false);
      assert ReadBackAll(fmt, quoteAll, row)
          == [ReadBack(fmt, quoteAll, row[0])] + ReadBackAll(fmt, quoteAll, row[1..]);
      assert forall k :: 0 < k < |row| - 1 ==> row[k] == row[1..][k - 1];
    }
  }

  /** No other delimiter is ever eaten. */
  lemma RowBackIsAll(fmt: Format, quoteAll: bool, row: Record, first: bool)
    requires row != [] && !EatsDelimiters(fmt)
    ensures RowBack(fmt, quoteAll, row, first) ==
            if |row| == 1 && first && PrintsNothing(fmt, quoteAll, row[0]) then [] else ReadBackAll(fmt, quoteAll, row)
  {
    hide PrintsNothing, ReadBack;
    RowBackIff(fmt, quoteAll, row, first);
  }

  /** A row is read back field for field exactly if all its fields survive, it is not a single field that prints
      nothing, and none of its fields is eaten. */
  lemma RowComesBackIff(fmt: Format, quoteAll: bool, row: Record, rest: string)
    requires Distinct(fmt)
    ensures ParseLine(fmt, RowText(fmt, quoteAll, row) + rest) == Line(Ok(ReadBackAll(fmt, quoteAll, row)), rest, false)
            <==> AllSurvive(fmt, quoteAll, row) && NothingEaten(fmt, quoteAll, row)
                 && !(|row| == 1 && PrintsNothing(fmt, quoteAll, row[0]))
  {
    hide Survives, ParseLine, RowText, PrintsNothing;
    assert |ReadBackAll(fmt, quoteAll, row)| == |row|;
    if AllSurvive(fmt, quoteAll, row) {
      RowReadBack(fmt, quoteAll, row, rest);
      if row != [] {
        RowBackIff(fmt, quoteAll, row, true);
      }
    } else {
      RowLost(fmt, quoteAll, row, rest);
    }
  }

  /** No empty text that would be read back as no value. */
  predicate NoBareEmpty(fmt: Format, quoteAll: bool, row: Record) {
    Some("") in row ==> quoteAll && fmt.quote.Some?
  }

  /** What it takes for the fields of a row to come back as they were. */
  predicate FieldsKept(fmt: Format, quoteAll: bool, row: Record)
    requires fmt.delimiter.Some?
  {
    AllSurvive(fmt, quoteAll, row) && NothingEaten(fmt, quoteAll, row) && NoBareEmpty(fmt, quoteAll, row)
  }

  lemma SameReadBack(fmt: Format, quoteAll: bool, row: Record)
    ensures ReadBackAll(fmt, quoteAll, row) == row <==> NoBareEmpty(fmt, quoteAll, row)
  {
    var back := ReadBackAll(fmt, quoteAll, row);
    if NoBareEmpty(fmt, quoteAll, row) {
      forall k | 0 <= k < |row| ensures back[k] == row[k] {
        assert row[k] in row;
      }
    }
    if Some("") in row {
      var k :| 0 <= k < |row| && row[k] == Some("");
      assert back[k] == row[k] ==> quoteAll && fmt.quote.Some?;
    }
  }

  /** And it is read back as it was, values and all, exactly if moreover it has no empty text that is not quoted. */
  lemma RowIsKeptIff(fmt: Format, quoteAll: bool, row: Record, rest: string)
    requires Distinct(fmt)
    ensures ParseLine(fmt, RowText(fmt, quoteAll, row) + rest) == Line(Ok(row), rest, false)
            <==> FieldsKept(fmt, quoteAll, row) && !(|row| == 1 && PrintsNothing(fmt, quoteAll, row[0]))
    ensures !FieldsKept(fmt, quoteAll, row) ==> ParseLine(fmt, RowText(fmt, quoteAll, row) + rest).outcome != Ok(row)
  {
    hide Survives, ParseLine, RowText, PrintsNothing, EatsDelimiters, ReadBack;
    SameReadBack(fmt, quoteAll, row);
    RowComesBackIff(fmt, quoteAll, row, rest);
    if AllSurvive(fmt, quoteAll, row) {
      RowReadBack(fmt, quoteAll, row, rest);
      if row != [] {
        RowBackIff(fmt, quoteAll, row, true);
        assert |ReadBackAll(fmt, quoteAll, row)| == |row|;
      }
    } else {
      RowLost(fmt, quoteAll, row, rest);
    }
  }

  /** So a text ending in one escape character is lost, whatever is written behind it: a backslash, quoted, is
      never read back. */
  lemma EscapeAtEndIsLost(rest: string)
    ensures var fmt := Format(Some(','), Some('"'), Some('\\')); var row := [Some("\\")];
      && RowText(fmt, true, row) == "\"\\\"\n"
      && ParseLine(fmt, RowText(fmt, true, row) + rest).outcome != Ok(row)
  {
    var fmt, row := Format(Some(','), Some('"'), Some('\\')), [Some("\\")];
    RowTextCons(fmt, true, row);
    assert RunBefore('\\', "\\", 1) == 1 && EndsRun('"', "\\", 1);
    assert !Survives(fmt, true, row[0]) && row[0] in row;
    RowLost(fmt, true, row, rest);
    assert ReadBackAll(fmt, true, row) == row;
  }

  /** What is lost of a surviving row is at most the difference between an empty text and no value, and with
      every text quoted not even that. */
  lemma ReadBackIsSame(fmt: Format, quoteAll: bool, row: Record, k: nat)
    requires k < |row|
    ensures ReadBackAll(fmt, quoteAll, row)[k] == row[k]
            || (row[k] == Some("") && !(quoteAll && fmt.quote.Some?) && ReadBackAll(fmt, quoteAll, row)[k] == None)
    ensures quoteAll && fmt.quote.Some? ==> ReadBackAll(fmt, quoteAll, row) == row
    ensures fmt.escape.None? && fmt.quote.Some? && Distinct(fmt) ==> Survives(fmt, quoteAll, row[k])
  {
    if quoteAll && fmt.quote.Some? {
      forall j | 0 <= j < |row| ensures ReadBack(fmt, quoteAll, row[j]) == row[j] {}
    }
  }
}
