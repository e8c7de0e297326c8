/** What the reader of delimited text makes of quotes that no writer would put there: text behind a closing quote is
    an error, reported with its place and the number of the record; a quote behind text begins another field. */
module ReadErrors {
  import opened Common
  import opened Delimited
  import opened Options
  import opened RowRoundTrip

  /** The place of a character in its line, from 1 on; a newline inside the record counts as the first of the
      next line. */
  function Column(text: string, k: nat): nat
    requires k < |text|
  {
    if text[k] == '\n' || k == 0 then 1 else Column(text, k - 1) + 1
  }

  /** A quote was closed right before the character, and the character neither doubles the quote nor ends the
      field. */
  predicate BehindQuote(fmt: Format, text: string, k: nat)
    requires k < |text|
  {
    && Run(fmt, NewReader, text[..k]).0.state.QuoteInQuoted?
    && fmt.quote != Some(text[k]) && fmt.delimiter != Some(text[k]) && text[k] != '\n'
  }

  function BadPlaces(fmt: Format, text: string, n: nat): (at: seq<nat>)
    requires n <= |text|
    ensures forall j :: 0 <= j < |at| ==> at[j] < n && BehindQuote(fmt, text, at[j])
    ensures forall k :: 0 <= k < n && BehindQuote(fmt, text, k) ==> k in at
    ensures forall j, k :: 0 <= j < k < |at| ==> at[j] < at[k]
  {
    Where(seq(n, k requires 0 <= k < n => BehindQuote(fmt, text, k)))
  }

  function Columns(text: string, at: seq<nat>): seq<nat>
    requires forall j :: 0 <= j < |at| ==> at[j] < |text|
  {
    seq(|at|, j requires 0 <= j < |at| => Column(text, at[j]))
  }

  lemma {:induction false} RunOn(fmt: Format, r: Reader, a: string, b: string)
    ensures var (r1, rest) := Run(fmt, r, a);
      Run(fmt, r, a + b) == if r1.state.End? then (r1, rest + b) else Run(fmt, r1, b)
    ensures !Run(fmt, r, a).0.state.End? ==> Run(fmt, r, a).1 == ""
    decreases |a|
  {
    if a == "" {
      assert a + b == b;
    } else if !r.state.End? {
      assert (a + b)[1..] == a[1..] + b;
      RunOn(fmt, Step(fmt, r, a[0]), a[1..], b);
    }
  }

  lemma OneMoreChar(fmt: Format, text: string, k: nat)
    requires k < |text| && !Run(fmt, NewReader, text[..k]).0.state.End?
    ensures Run(fmt, NewReader, text[..k + 1]).0 == Step(fmt, Run(fmt, NewReader, text[..k]).0, text[k])
  {
    hide Step;
    assert text[..k + 1] == text[..k] + [text[k]];
    RunOn(fmt, NewReader, text[..k], [text[k]]);
    assert [text[k]][1..] == "";
  }

  /** After `k` characters: the count that stands for the column, and the errors so far. */
  predicate Tells(fmt: Format, text: string, k: nat)
    requires k <= |text|
  {
    var r := Run(fmt, NewReader, text[..k]).0;
    && r.i == (if k == 0 then 0 else Column(text, k - 1)) && !r.state.Between?
    && r.errors == Columns(text, BadPlaces(fmt, text, k))
  }

  lemma PlacesLast(fmt: Format, text: string, k: nat)
    requires k < |text|
    ensures BadPlaces(fmt, text, k + 1) == BadPlaces(fmt, text, k) + if BehindQuote(fmt, text, k) then [k] else []
  {
    hide BehindQuote;
    assert seq(k + 1, i requires 0 <= i < k + 1 => BehindQuote(fmt, text, i))[..k]
        == seq(k, i requires 0 <= i < k => BehindQuote(fmt, text, i));
  }

  lemma {:induction false} TellsUpTo(fmt: Format, text: string, k: nat)
    requires k <= |text| && forall i :: 0 <= i < k ==> !Run(fmt, NewReader, text[..i]).0.state.End?
    ensures Tells(fmt, text, k)
    decreases k
  {
    hide Tells, Run;
    if k == 0 {
      FreshTells(fmt, text);
    } else {
      TellsUpTo(fmt, text, k - 1);
      TellsNext(fmt, text, k - 1);
    }
  }

  lemma TellsNext(fmt: Format, text: string, k: nat)
    requires k < |text| && !Run(fmt, NewReader, text[..k]).0.state.End? && Tells(fmt, text, k)
    ensures Tells(fmt, text, k + 1)
  {
    hide Step, Run, BehindQuote, BadPlaces, Columns, IsBad;
    OneMoreChar(fmt, text, k);
    StepTells(fmt, Run(fmt, NewReader, text[..k]).0, text[k]);
    BehindQuoteIs(fmt, text, k);
    PlacesLast(fmt, text, k);
    ColumnsLast(text, BadPlaces(fmt, text, k), k);
  }

  lemma ColumnsLast(text: string, at: seq<nat>, k: nat)
    requires k < |text| && forall j :: 0 <= j < |at| ==> at[j] < |text|
    ensures Columns(text, at + [k]) == Columns(text, at) + [Column(text, k)] && at + [] == at
  {
    hide Column;
  }

  lemma FreshTells(fmt: Format, text: string)
    ensures Tells(fmt, text, 0)
  {
    assert text[..0] == "";
  }

  predicate IsBad(fmt: Format, r: Reader, c: char) {
    r.state.QuoteInQuoted? && fmt.quote != Some(c) && fmt.delimiter != Some(c) && c != '\n'
  }

  lemma BehindQuoteIs(fmt: Format, text: string, k: nat)
    requires k < |text|
    ensures BehindQuote(fmt, text, k) <==> IsBad(fmt, Run(fmt, NewReader, text[..k]).0, text[k])
  {
    hide Run;
  }

  /** What one character does to them. */
  lemma StepTells(fmt: Format, r: Reader, c: char)
    requires !r.state.Between? && !r.state.End?
    ensures var next := Step(fmt, r, c);
      && !next.state.Between? && next.i == (if c == '\n' then 1 else r.i + 1)
      && next.errors == r.errors + if IsBad(fmt, r, c) then [next.i] else []
  {
  }

  /** The reader goes through the characters of its record and no further. */
  lemma {:induction false} StopsAtEnd(fmt: Format, r: Reader, s: string)
    ensures var (end, rest) := Run(fmt, r, s); var n := |s| - |rest|;
      && |rest| <= |s| && Run(fmt, r, s[..n]).0 == end
      && forall i :: 0 <= i < n ==> !Run(fmt, r, s[..i]).0.state.End?
    decreases |s|
  {
    hide Step;
    if r.state.End? || s == "" {
      assert s[..0] == "";
    } else {
      var next := Step(fmt, r, s[0]);
      StopsAtEnd(fmt, next, s[1..]);
      forall k | 0 < k <= |s|
        ensures Run(fmt, r, s[..k]).0 == Run(fmt, next, s[1..][..k - 1]).0
      {
        assert s[..k][1..] == s[1..][..k - 1];
      }
    }
  }

  /** A record is refused just if text stands behind a closing quote somewhere in it, and what is reported is
      every such place, in order. */
  lemma ErrorsAreThePlaces(fmt: Format, text: string)
    ensures var line := ParseLine(fmt, text);
      |line.rest| <= |text| && var at := BadPlaces(fmt, text, |text| - |line.rest|);
      && (line.outcome.Ok? <==> at == [])
      && (line.outcome.Err? ==> line.outcome.error == Columns(text, at))
  {
    hide Run, Step, Column, BehindQuote;
    StopsAtEnd(fmt, NewReader, text);
    TellsUpTo(fmt, text, |text| - |ParseLine(fmt, text).rest|);
  }

  /** A record that cannot be read is numbered as the one behind those that were. */
  lemma {:induction false} FailedIsNext(fmt: Format, text: string, lineNo: nat)
    ensures var raw := ReadRecords(fmt, text, lineNo);
      raw.failed.Some? ==> raw.failed.value.0 == lineNo + |raw.records| && raw.failed.value.1 != []
    decreases |text|
  {
    var line := ParseLine(fmt, text);
    ParseShrinks(fmt, text);
    if line.outcome.Ok? && !(line.outcome.value == [] && line.atEof) {
      FailedIsNext(fmt, line.rest, lineNo + 1);
    }
  }

  /** A quote behind text begins a field of its own, without a delimiter. */
  lemma QuoteBehindText(fmt: Format, text: string, s: string, rest: string)
    requires Distinct(fmt) && fmt.quote.Some? && text != "" && Unmarked(fmt, text)
    requires fmt.escape.Some? ==> EvenRuns(fmt.escape.value, fmt.quote.value, s)
    ensures var q := fmt.quote.value;
      ParseLine(fmt, text + ([q] + (Replace(s, q, QuotedQuote(fmt)) + ([q] + ("\n" + rest)))))
      == Line(Ok([Some(text), Some(s)]), rest, false)
  {
    hide Run, Replace, Unmarked, EvenRuns, Safe;
    var q := fmt.quote.value;
    var body := Replace(s, q, QuotedQuote(fmt)) + ([q] + ("\n" + rest));
    FreshReader();
    var r := ReadPlainField(fmt, NewReader, text, [q] + body);
    RunStep(fmt, r, q, body);
    if fmt.escape.Some? {
      SafeIsEvenRuns(fmt.escape.value, q, s);
    }
    var r1 := ReadQuoted(fmt, Step(fmt, r, q), s, "\n" + rest);
    RunStep(fmt, r1, '\n', rest);
    var r2 := Step(fmt, r1, '\n');
    RunMove(fmt, r2, rest);
    assert "" + s == s;
    assert Finish(r2) == [Some(text)] + [Some(s)] == [] + [Some(text), Some(s)];
    ReadLine(fmt, text + ([q] + body), r2, rest, [Some(text), Some(s)]);
  }
}
