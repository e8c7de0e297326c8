/** A file whose last line has no newline.

    The reader decides what to add at the end of a record by the state before the last character it read, which at
    the end of the text is not the newline.  `LastLineIff` says for which rows that makes no difference. */
module LastLine {
  import opened Delimited
  import opened Options
  import opened RowRoundTrip

  /** The text of a row without its newline, as the writer gives it on request. */
  function BareText(fmt: Format, quoteAll: bool, row: Record): (text: string)
    ensures text + "\n" == RowText(fmt, quoteAll, row)
  {
    JoinFields(FieldTexts(fmt, quoteAll, row), JoinChar(fmt))
  }

  /** The row's last field is not told apart by the newline alone: an empty text in quotes, a text of one character
      behind a delimiter, and nothing behind a delimiter (unless nothing stands before that, too) are. */
  predicate EndsPlainly(fmt: Format, quoteAll: bool, row: Record)
    requires row != []
  {
    var n := |row| - 1;
    if PrintsNothing(fmt, quoteAll, row[n]) then n == 0 || (n > 1 && PrintsNothing(fmt, quoteAll, row[n - 1]))
    else if Quotes(fmt, quoteAll, row[n].value) then row[n].value != ""
    else |row[n].value| > 1 || n == 0
  }

  /** What the reader makes of the last field at the end of the text. */
  function LastBack(fmt: Format, quoteAll: bool, field: Field, first: bool, behindNothing: bool): Record {
    if PrintsNothing(fmt, quoteAll, field) then if behindNothing then [None] else []
    else if Quotes(fmt, quoteAll, field.value) then if field.value == "" then [] else [field]
    else [field] + if |field.value| == 1 && !first then [None] else []
  }

  /** The last field, up to the end of the text. */
  lemma LastField(fmt: Format, quoteAll: bool, r: Reader, field: Field) returns (r': Reader)
    requires Distinct(fmt) && Ready(r, r.elements) && Survives(fmt, quoteAll, field)
    requires r.state.Start? ==> r == NewReader
    ensures Run(fmt, r, FieldText(fmt, quoteAll, field)) == (r', "") && !r'.state.End? && r'.errors == []
    ensures Finish(r') == r.elements + LastBack(fmt, quoteAll, field, r.state.Start?, r.prev == Some(Delimiter))
  {
    var text := FieldText(fmt, quoteAll, field);
    assert text + "" == text;
    if PrintsNothing(fmt, quoteAll, field) {
      r' := r;
    } else {
      r' := ReadField(fmt, quoteAll, r, field, "");
      assert Run(fmt, r', "") == (r', "");
    }
  }

  lemma BareFirst(fmt: Format, quoteAll: bool, row: Record)
    requires |row| > 1 && fmt.delimiter.Some?
    ensures BareText(fmt, quoteAll, row)
         == FieldText(fmt, quoteAll, row[0]) + ([fmt.delimiter.value] + BareText(fmt, quoteAll, row[1..]))
  {
    hide FieldText;
    assert FieldTexts(fmt, quoteAll, row)[1..] == FieldTexts(fmt, quoteAll, row[1..]);
  }

  /** What the reader makes of a row at the end of the text. */
  function RowAtEnd(fmt: Format, quoteAll: bool, row: Record, first: bool, behindNothing: bool): Record
    requires row != []
  {
    if |row| == 1 then LastBack(fmt, quoteAll, row[0], first, behindNothing)
    else
      var nothing := PrintsNothing(fmt, quoteAll, row[0]);
      (if nothing && !first && fmt.delimiter == Some(' ') then [] else [ReadBack(fmt, quoteAll, row[0])])
      + RowAtEnd(fmt, quoteAll, row[1..], false, nothing && !first)
  }

  lemma {:induction false} ReadsRowAtEnd(fmt: Format, quoteAll: bool, r: Reader, row: Record) returns (r': Reader)
    requires Distinct(fmt) && Ready(r, r.elements) && row != [] && forall f <- row :: Survives(fmt, quoteAll, f)
    requires r.state.Start? ==> r == NewReader
    ensures Run(fmt, r, BareText(fmt, quoteAll, row)) == (r', "") && !r'.state.End? && r'.errors == []
    ensures Finish(r') == r.elements + RowAtEnd(fmt, quoteAll, row, r.state.Start?, r.prev == Some(Delimiter))
    decreases |row|
  {
    hide Run, Finish, FieldText, ReadBack, Survives, LastBack;
    assert row[0] in row;
    if |row| == 1 {
      r' := LastField(fmt, quoteAll, r, row[0]);
    } else {
      BareFirst(fmt, quoteAll, row);
      var r1 := FieldThenDelimiter(fmt, quoteAll, r, row[0], BareText(fmt, quoteAll, row[1..]));
      assert forall f <- row[1..] :: f in row;
      r' := ReadsRowAtEnd(fmt, quoteAll, r1, row[1..]);
    }
  }

  /** Whether the last field comes back, by what stands before it. */
  predicate LastComesBack(fmt: Format, quoteAll: bool, field: Field, first: bool, behindNothing: bool) {
    if PrintsNothing(fmt, quoteAll, field) then first != behindNothing
    else if Quotes(fmt, quoteAll, field.value) then field.value != ""
    else |field.value| > 1 || first
  }

  lemma {:induction false} AtEndIsBack(fmt: Format, quoteAll: bool, row: Record, first: bool, behindNothing: bool)
    requires row != []
    ensures var n := |row| - 1;
      var behind := if n == 0 then behindNothing else PrintsNothing(fmt, quoteAll, row[n - 1]) && (n > 1 || !first);
      RowAtEnd(fmt, quoteAll, row, first, behindNothing) == RowBack(fmt, quoteAll, row, first) <==>
      LastComesBack(fmt, quoteAll, row[n], first && n == 0, behind)
    decreases |row|
  {
    hide PrintsNothing, ReadBack, LastBack, LastComesBack;
    RowBackCons(fmt, quoteAll, row, first);
    if |row| == 1 {
      LastIsBack(fmt, quoteAll, row[0], first, behindNothing);
    } else {
      var nothing := PrintsNothing(fmt, quoteAll, row[0]);
      var head := if nothing && !first && EatsDelimiters(fmt) then [] else [ReadBack(fmt, quoteAll, row[0])];
      AtEndIsBack(fmt, quoteAll, row[1..], false, nothing && !first);
      SameBehind(head, RowAtEnd(fmt, quoteAll, row[1..], false, nothing && !first),
                 RowBack(fmt, quoteAll, row[1..], false));
    }
  }

  lemma LastIsBack(fmt: Format, quoteAll: bool, field: Field, first: bool, behindNothing: bool)
    ensures var back := if PrintsNothing(fmt, quoteAll, field) && first then [] else [ReadBack(fmt, quoteAll, field)];
      LastBack(fmt, quoteAll, field, first, behindNothing) == back <==>
      LastComesBack(fmt, quoteAll, field, first, behindNothing)
  {
    var last := LastBack(fmt, quoteAll, field, first, behindNothing);
    assert |last| != 1 ==> last != [ReadBack(fmt, quoteAll, field)];
  }

  lemma SameBehind(head: Record, a: Record, b: Record)
    ensures head + a == head + b <==> a == b
  {
    assert (head + a)[|head|..] == a && (head + b)[|head|..] == b;
  }

  /** A row of surviving fields at the end of a file is read as the same record without its newline as with it if
      and only if it ends plainly. */
  lemma LastLineIff(fmt: Format, quoteAll: bool, row: Record)
    requires Distinct(fmt) && row != [] && forall f <- row :: Survives(fmt, quoteAll, f)
    ensures EndsPlainly(fmt, quoteAll, row) <==>
            ParseLine(fmt, BareText(fmt, quoteAll, row)).outcome == ParseLine(fmt, RowText(fmt, quoteAll, row)).outcome
  {
    hide Run, RowAtEnd, RowBack, RowText, BareText, Survives;
    BareLine(fmt, quoteAll, row);
    assert RowText(fmt, quoteAll, row) + "" == RowText(fmt, quoteAll, row);
    RowReadBack(fmt, quoteAll, row, "");
    AtEndIsBack(fmt, quoteAll, row, true, false);
  }

  lemma BareLine(fmt: Format, quoteAll: bool, row: Record)
    requires Distinct(fmt) && row != [] && forall f <- row :: Survives(fmt, quoteAll, f)
    ensures ParseLine(fmt, BareText(fmt, quoteAll, row))
         == Line(Ok(RowAtEnd(fmt, quoteAll, row, true, false)), "", true)
  {
    hide Run, RowAtEnd, BareText, Survives, Finish;
    FreshReader();
    var r := ReadsRowAtEnd(fmt, quoteAll, NewReader, row);
    assert [] + RowAtEnd(fmt, quoteAll, row, true, false) == RowAtEnd(fmt, quoteAll, row, true, false);
  }

  const A_AND_B: Record := [Some("a"), Some("b")]

  lemma TextsOfTwo(fmt: Format)
    requires fmt.delimiter == Some(' ') && fmt.quote == None
    ensures BareText(fmt, false, A_AND_B) == "a b" && RowText(fmt, false, A_AND_B) == "a b\n"
  {
    assert FieldTexts(fmt, false, A_AND_B) == ["a", "b"];
    assert ["a", "b"][1..] == ["b"];
    assert JoinFields(["a", "b"], " ") == "a" + " " + "b" == "a b";
    assert "a b" + "\n" == "a b\n";
  }

  lemma ReadOfTwo(fmt: Format)
    requires fmt.delimiter == Some(' ') && fmt.quote == None
    ensures RowBack(fmt, false, A_AND_B, true) == A_AND_B
    ensures RowAtEnd(fmt, false, A_AND_B, true, false) == [Some("a"), Some("b"), None]
  {
    assert A_AND_B[1..] == [Some("b")];
    assert [ReadBack(fmt, false, Some("a"))] + RowBack(fmt, false, [Some("b")], false) == A_AND_B;
  }

  /** With a space for a delimiter, `a b` at the end of a file is read as three values. */
  lemma OneMoreValue(fmt: Format)
    requires fmt.delimiter == Some(' ') && fmt.quote == None && fmt.escape == None
    ensures ParseLine(fmt, "a b\n") == Line(Ok([Some("a"), Some("b")]), "", false)
    ensures ParseLine(fmt, "a b") == Line(Ok([Some("a"), Some("b"), None]), "", true)
  {
    hide ParseLine, RowBack, RowAtEnd, RowText, BareText;
    TextsOfTwo(fmt);
    ReadOfTwo(fmt);
    assert "a b\n" + "" == "a b\n";
    RowReadBack(fmt, false, A_AND_B, "");
    BareLine(fmt, false, A_AND_B);
  }
}
