/** What the scan of `SqlSpans` recognises, in terms of how each region is written.

    Each lemma takes a region written out, puts any text behind it, and says that the scan reports the region as
    one span of its kind, from its first character to its last, and goes on in code right behind it.  Together
    with `CodeCharacter`, which says what opens nothing, and the regions that never end, they leave the scan no
    other choice. */
module SqlRegions {
  import opened Options
  import opened SqlSpans
  import opened DollarQuotes

  /** The spans of `s`, the rest of a text from `pos`, when the scan is in code there. */
  function InCode(afterIdent: bool, s: string, pos: nat): seq<Span> { Spans(Code(afterIdent), pos, s, pos) }

  lemma Opens(afterIdent: bool, s: string, pos: nat, n: nat, m: Mode)
    requires s != "" && ModeOk(m) && !m.Code?
    requires Next(Code(afterIdent), s) == Move(n, m, IsLiteralMode(m), IsLiteralMode(m))
    ensures n <= |s| && InCode(afterIdent, s, pos) == Spans(m, pos, s[n..], pos + n)
  {
    hide Next;
    SpansMove(Code(afterIdent), pos, s, pos);
  }

  // ---------------------------------------------------------------------------------------------
  // Dollar quotes
  // ---------------------------------------------------------------------------------------------

  /** A marker is found exactly if the text begins with one, and it is that one. */
  lemma DollarTagIff(s: string, n: nat)
    requires n > 0
    ensures DollarTag(s) == n <==> n <= |s| && IsTag(s[..n])
  {
    if n <= |s| && IsTag(s[..n]) {
      var t := s[..n];
      assert forall i :: 0 <= i < n ==> s[i] == t[i];
      if n > 2 {
        WordEndIs(s, 1, n - 1);
      }
    }
  }

  lemma NoTag(s: string)
    ensures DollarTag(s) == 0 <==> !exists n :: 0 < n <= |s| && IsTag(s[..n])
  {
    hide DollarTag, IsTag;
    if DollarTag(s) > 0 {
      var n := DollarTag(s);
      assert 0 < n <= |s| && IsTag(s[..n]);
    } else {
      forall n | 0 < n <= |s|
        ensures !IsTag(s[..n])
      {
        DollarTagIff(s, n);
      }
    }
  }

  lemma {:induction false} WordEndIs(s: string, k: nat, e: nat)
    requires k <= e < |s| && !IsWordChar(s[e]) && forall i :: k <= i < e ==> IsWordChar(s[i])
    ensures WordEnd(s, k) == e
    decreases e - k
  {
    if k < e {
      WordEndIs(s, k + 1, e);
    }
  }

  lemma TagFound(t: string, rest: string)
    requires IsTag(t)
    ensures DollarTag(t + rest) == |t|
  {
    assert (t + rest)[..|t|] == t;
    DollarTagIff(t + rest, |t|);
  }

  lemma TagOpens(afterIdent: bool, t: string, rest: string)
    requires IsTag(t)
    ensures Next(Code(afterIdent), t + rest) == Move(|t|, InDollar(t), true, true)
  {
    TagFound(t, rest);
    assert (t + rest)[..|t|] == t;
  }

  /** A body between two equal markers, the second of them the first that occurs. */
  lemma DollarBody(afterIdent: bool, t: string, body: string, rest: string, pos: nat)
    requires IsTag(t) && forall i :: 0 <= i < |body| ==> !StandsAt(body + t, t, i)
    ensures var n := 2 * |t| + |body|;
      InCode(afterIdent, t + body + t + rest, pos) == [Span(pos, pos + n, Dollar)] + InCode(true, rest, pos + n)
  {
    hide Next, Spans;
    var more := body + t + rest;
    assert t + body + t + rest == t + more;
    TagOpens(afterIdent, t, more);
    Opens(afterIdent, t + more, pos, |t|, InDollar(t));
    assert (t + more)[|t|..] == more;
    DollarInside(t, body, rest, pos, pos + |t|);
  }

  lemma {:induction false} DollarInside(t: string, body: string, rest: string, start: nat, pos: nat)
    requires IsTag(t) && forall i :: 0 <= i < |body| ==> !StandsAt(body + t, t, i)
    ensures var n := |body| + |t|;
      Spans(InDollar(t), start, body + t + rest, pos)
      == [Span(start, pos + n, Dollar)] + InCode(true, rest, pos + n)
    decreases |body|
  {
    hide *;
    if body == "" {
      assert body + t + rest == t + rest;
      DollarCloses(t, rest, start, pos);
    } else {
      NotFirst(t, body, rest);
      assert (body + t + rest)[1..] == body[1..] + t + rest;
      DollarPassed(t, body + t + rest, start, pos);
      DollarInside(t, body[1..], rest, start, pos + 1);
    }
  }

  lemma DollarCloses(t: string, rest: string, start: nat, pos: nat)
    requires IsTag(t)
    ensures Spans(InDollar(t), start, t + rest, pos)
         == [Span(start, pos + |t|, Dollar)] + InCode(true, rest, pos + |t|)
  {
    hide Next, Spans, StandsAt, IsTag, DollarTag, WordEnd, EndMode, Kept, Find;
    CloseIsRead(t, rest);
    SpansMove(InDollar(t), start, t + rest, pos);
    CodeFromAnyStart(true, pos, pos + |t|, rest, pos + |t|);
  }

  lemma CloseIsRead(t: string, rest: string)
    requires IsTag(t)
    ensures t + rest != "" && (t + rest)[|t|..] == rest
    ensures Next(InDollar(t), t + rest) == Move(|t|, Code(true), true, false)
  {
    assert t + rest != "";
    hide Next, StandsAt, IsTag;
    StandsFirst(t, rest);
    DollarMove(t, t + rest);
  }

  lemma DollarPassed(t: string, s: string, start: nat, pos: nat)
    requires IsTag(t) && s != "" && !StandsAt(s, t, 0)
    ensures Spans(InDollar(t), start, s, pos) == Spans(InDollar(t), start, s[1..], pos + 1)
  {
    hide Next, Spans, StandsAt, IsTag;
    DollarMove(t, s);
    SpansMove(InDollar(t), start, s, pos);
  }

  lemma StandsFirst(t: string, rest: string)
    ensures StandsAt(t + rest, t, 0)
  {
    assert (t + rest)[..|t|] == t;
  }

  lemma NotFirst(t: string, body: string, rest: string)
    requires body != "" && forall i :: 0 <= i < |body| ==> !StandsAt(body + t, t, i)
    ensures !StandsAt(body + t + rest, t, 0)
    ensures forall i :: 0 <= i < |body| - 1 ==> !StandsAt(body[1..] + t, t, i)
  {
    var s := body + t;
    assert !StandsAt(s, t, 0);
    assert (s + rest)[..|t|] == s[..|t|];
    forall i | 0 <= i < |body| - 1
      ensures !StandsAt(body[1..] + t, t, i)
    {
      assert !StandsAt(s, t, i + 1);
      assert body[1..] + t == s[1..];
      assert s[1..][i..i + |t|] == s[i + 1..i + 1 + |t|];
    }
  }

  /** A marker that does not occur again: the body goes on to the end of the text, and the marker is the one that
      `open_dollar_quote` finds open. */
  lemma OpenDollarBody(afterIdent: bool, t: string, rest: string, pos: nat)
    requires IsTag(t) && forall i :: 0 <= i <= |rest| ==> !StandsAt(rest, t, i)
    ensures InCode(afterIdent, t + rest, pos) == [Span(pos, pos + |t| + |rest|, Dollar)]
    ensures OpenAt(t + rest, None) == Some(t)
  {
    hide Next, Spans, EndMode, StandsAt, Kept;
    TagOpens(afterIdent, t, rest);
    TagOpens(false, t, rest);
    Opens(afterIdent, t + rest, pos, |t|, InDollar(t));
    Unfold(Code(false), t + rest);
    assert (t + rest)[|t|..] == rest;
    OpenDollarInside(t, rest, pos, pos + |t|);
  }

  lemma {:induction false} OpenDollarInside(t: string, rest: string, start: nat, pos: nat)
    requires IsTag(t) && forall i :: 0 <= i <= |rest| ==> !StandsAt(rest, t, i)
    ensures Spans(InDollar(t), start, rest, pos) == [Span(start, pos + |rest|, Dollar)]
    ensures EndMode(InDollar(t), rest) == InDollar(t)
    decreases |rest|
  {
    hide Next, EndMode, StandsAt, Kept;
    Unfold(InDollar(t), rest);
    if rest != "" {
      SpansMove(InDollar(t), start, rest, pos);
      DollarMove(t, rest);
      StandsLater(rest, t);
      OpenDollarInside(t, rest[1..], start, pos + 1);
    }
  }

  lemma StandsLater(s: string, t: string)
    requires s != "" && forall i :: 0 <= i <= |s| ==> !StandsAt(s, t, i)
    ensures forall i :: 0 <= i < |s| ==> !StandsAt(s[1..], t, i)
  {
    forall i | 0 <= i < |s|
      ensures !StandsAt(s[1..], t, i)
    {
      assert !StandsAt(s, t, i + 1);
      if i + |t| < |s| {
        assert s[1..][i..i + |t|] == s[i + 1..i + 1 + |t|];
      }
    }
  }

  // ---------------------------------------------------------------------------------------------
  // Quotes
  // ---------------------------------------------------------------------------------------------

  /** What may stand between two quotes: anything, with each quote doubled. */
  predicate IsQuoted(body: string, quote: char)
    decreases |body|
  {
    || body == ""
    || (body[0] != quote && IsQuoted(body[1..], quote))
    || (|body| > 1 && body[0] == quote == body[1] && IsQuoted(body[2..], quote))
  }

  predicate IsQuote(c: char) { c == '\'' || c == '"' }

  function ModeOf(quote: char): (m: Mode)
    requires IsQuote(quote)
    ensures !m.Code? && ModeOk(m)
  {
    if quote == '"' then InQuotedIdent else InPlain
  }

  /** A text in quotes is a literal, or, in double quotes, a name. */
  lemma QuotedText(afterIdent: bool, quote: char, body: string, rest: string, pos: nat)
    requires IsQuote(quote) && IsQuoted(body, quote) && (rest == "" || rest[0] != quote)
    ensures var n := |body| + 2; var kind := if quote == '"' then QuotedIdent else Plain;
      InCode(afterIdent, [quote] + body + [quote] + rest, pos)
      == [Span(pos, pos + n, kind)] + InCode(false, rest, pos + n)
  {
    hide Spans;
    var more := body + [quote] + rest;
    assert [quote] + body + [quote] + rest == [quote] + more;
    Opens(afterIdent, [quote] + more, pos, 1, ModeOf(quote));
    assert ([quote] + more)[1..] == more;
    QuotedInside(quote, body, rest, pos, pos + 1);
  }

  lemma {:induction false} QuotedInside(quote: char, body: string, rest: string, start: nat, pos: nat)
    requires IsQuote(quote) && IsQuoted(body, quote) && (rest == "" || rest[0] != quote)
    ensures var n := |body| + 1;
      Spans(ModeOf(quote), start, body + [quote] + rest, pos)
      == [Span(start, pos + n, KindOf(ModeOf(quote)))] + InCode(false, rest, pos + n)
    decreases |body|
  {
    hide Spans;
    var s := body + [quote] + rest;
    SpansMove(ModeOf(quote), start, s, pos);
    if body == "" {
      assert s == [quote] + rest && s[1..] == rest;
      CodeFromAnyStart(false, pos, pos + 1, rest, pos + 1);
    } else {
      assert s[0] == body[0];
      var k := if body[0] == quote then 2 else 1;
      assert s[k..] == body[k..] + [quote] + rest;
      QuotedInside(quote, body[k..], rest, start, pos + k);
    }
  }

  /** A text in quotes that never end. */
  lemma OpenQuotedText(afterIdent: bool, quote: char, body: string, pos: nat)
    requires IsQuote(quote) && IsQuoted(body, quote)
    ensures var kind := if quote == '"' then QuotedIdent else Plain;
      InCode(afterIdent, [quote] + body, pos) == [Span(pos, pos + 1 + |body|, kind)]
  {
    hide Spans;
    Opens(afterIdent, [quote] + body, pos, 1, ModeOf(quote));
    assert ([quote] + body)[1..] == body;
    OpenQuotedInside(quote, body, pos, pos + 1);
  }

  lemma {:induction false} OpenQuotedInside(quote: char, body: string, start: nat, pos: nat)
    requires IsQuote(quote) && IsQuoted(body, quote)
    ensures Spans(ModeOf(quote), start, body, pos) == [Span(start, pos + |body|, KindOf(ModeOf(quote)))]
    decreases |body|
  {
    if body != "" {
      SpansMove(ModeOf(quote), start, body, pos);
      var k := if body[0] == quote then 2 else 1;
      OpenQuotedInside(quote, body[k..], start, pos + k);
    }
  }

  // ---------------------------------------------------------------------------------------------
  // Escape strings
  // ---------------------------------------------------------------------------------------------

  /** What may stand between the quotes of an escape string: a backslash with any character behind it, a doubled
      quote, and any other character. */
  predicate IsEscaped(body: string)
    decreases |body|
  {
    || body == ""
    || (body[0] != '\'' && body[0] != '\\' && IsEscaped(body[1..]))
    || (|body| > 1 && body[0] == '\\' && IsEscaped(body[2..]))
    || (|body| > 1 && body[0] == '\'' == body[1] && IsEscaped(body[2..]))
  }

  predicate IsEscapeOpening(s: string) { s == "e'" || s == "E'" }

  /** `e` or `E` before a quote, but not behind a character of an identifier. */
  lemma EscapeString(open: string, body: string, rest: string, pos: nat)
    requires IsEscapeOpening(open) && IsEscaped(body) && (rest == "" || rest[0] != '\'')
    ensures var n := |body| + 3;
      InCode(false, open + body + "'" + rest, pos) == [Span(pos, pos + n, EString)] + InCode(false, rest, pos + n)
  {
    hide *;
    Regroup(open, body, "'", rest);
    EscapedText(open, body, rest, pos);
  }

  lemma EscapedText(open: string, body: string, rest: string, pos: nat)
    requires IsEscapeOpening(open) && IsEscaped(body) && (rest == "" || rest[0] != '\'')
    ensures var n := |body| + 3;
      InCode(false, open + (body + "'" + rest), pos) == [Span(pos, pos + n, EString)] + InCode(false, rest, pos + n)
  {
    hide *;
    EscapeOpens(open, body + "'" + rest, pos);
    EscapedInside(body, rest, pos, pos + 2);
  }

  lemma Regroup(a: string, b: string, c: string, d: string)
    ensures a + b + c + d == a + (b + c + d)
  {
  }

  lemma EscapeOpens(open: string, more: string, pos: nat)
    requires IsEscapeOpening(open)
    ensures InCode(false, open + more, pos) == Spans(InEString, pos, more, pos + 2)
  {
    hide Spans, IsTag;
    var s := open + more;
    assert s[..2] == open && s[0] == open[0] && s[1] == open[1] && s[2..] == more;
    Opens(false, s, pos, 2, InEString);
  }

  lemma {:induction false} EscapedInside(body: string, rest: string, start: nat, pos: nat)
    requires IsEscaped(body) && (rest == "" || rest[0] != '\'')
    ensures var n := |body| + 1;
      Spans(InEString, start, body + "'" + rest, pos) == [Span(start, pos + n, EString)] + InCode(false, rest, pos + n)
    decreases |body|
  {
    hide Spans;
    var s := body + "'" + rest;
    SpansMove(InEString, start, s, pos);
    if body == "" {
      assert s == "'" + rest && s[1..] == rest;
      CodeFromAnyStart(false, pos, pos + 1, rest, pos + 1);
    } else {
      assert s[0] == body[0];
      var k := if body[0] == '\'' || body[0] == '\\' then 2 else 1;
      assert s[k..] == body[k..] + "'" + rest;
      EscapedInside(body[k..], rest, start, pos + k);
    }
  }

  /** An escape string that never ends; it may stop behind a backslash. */
  lemma OpenEscapeString(open: string, body: string, stop: string, pos: nat)
    requires IsEscapeOpening(open) && IsEscaped(body) && (stop == "" || stop == "\\")
    ensures InCode(false, open + body + stop, pos) == [Span(pos, pos + 2 + |body| + |stop|, EString)]
  {
    hide *;
    assert open + body + stop == open + (body + stop);
    OpenEscapedText(open, body, stop, pos);
  }

  lemma OpenEscapedText(open: string, body: string, stop: string, pos: nat)
    requires IsEscapeOpening(open) && IsEscaped(body) && (stop == "" || stop == "\\")
    ensures InCode(false, open + (body + stop), pos) == [Span(pos, pos + 2 + |body| + |stop|, EString)]
  {
    hide *;
    EscapeOpens(open, body + stop, pos);
    OpenEscapedInside(body, stop, pos, pos + 2);
  }

  lemma {:induction false} OpenEscapedInside(body: string, stop: string, start: nat, pos: nat)
    requires IsEscaped(body) && (stop == "" || stop == "\\")
    ensures Spans(InEString, start, body + stop, pos) == [Span(start, pos + |body| + |stop|, EString)]
    decreases |body|
  {
    var s := body + stop;
    if s != "" {
      SpansMove(InEString, start, s, pos);
      if body == "" {
        assert s[1..] == "";
      } else {
        assert s[0] == body[0];
        var k := if body[0] == '\'' || body[0] == '\\' then 2 else 1;
        assert s[k..] == body[k..] + stop;
        OpenEscapedInside(body[k..], stop, start, pos + k);
      }
    }
  }

  // ---------------------------------------------------------------------------------------------
  // Comments
  // ---------------------------------------------------------------------------------------------

  /** A line comment goes up to the newline, or to the end of the text. */
  lemma LineCommentText(afterIdent: bool, body: string, rest: string, pos: nat)
    requires '\n' !in body && (rest == "" || rest[0] == '\n')
    ensures var n := |body| + 2;
      InCode(afterIdent, "--" + body + rest, pos) == [Span(pos, pos + n, LineComment)] + InCode(false, rest, pos + n)
  {
    hide Spans;
    var s := "--" + body + rest;
    Opens(afterIdent, s, pos, 1, InLineComment);
    assert s[1..] == ("-" + body) + rest;
    LineInside("-" + body, rest, pos, pos + 1);
  }

  lemma {:induction false} LineInside(body: string, rest: string, start: nat, pos: nat)
    requires '\n' !in body && (rest == "" || rest[0] == '\n')
    ensures var n := |body|;
      Spans(InLineComment, start, body + rest, pos)
      == [Span(start, pos + n, LineComment)] + InCode(false, rest, pos + n)
    decreases |body|
  {
    var s := body + rest;
    if body == "" {
      assert s == rest;
      if rest != "" {
        assert Next(InLineComment, rest) == Next(Code(false), rest) == Move(1, Code(false), false, false);
      }
    } else {
      assert s[0] == body[0] && body[0] in body && s[1..] == body[1..] + rest;
      SpansMove(InLineComment, start, s, pos);
      LineInside(body[1..], rest, start, pos + 1);
    }
  }

  /** The inside of a block comment: characters, and comments nested in it. */
  datatype Inside = End | Char(c: char, more: Inside) | Nested(inner: Inside, more: Inside)

  function Written(b: Inside): string {
    match b
    case End => ""
    case Char(c, more) => [c] + Written(more)
    case Nested(inner, more) => "/*" + Written(inner) + "*/" + Written(more)
  }

  /** None of its characters begins a mark there, where `tail` comes behind. */
  predicate IsInside(b: Inside, tail: string) {
    match b
    case End => true
    case Char(c, more) =>
      var s := [c] + Written(more) + tail;
      IsInside(more, tail) && !(|s| > 1 && ((c == '/' && s[1] == '*') || (c == '*' && s[1] == '/')))
    case Nested(inner, more) => IsInside(inner, "*/" + Written(more) + tail) && IsInside(more, tail)
  }

  /** A block comment goes up to the mark that closes it, past all comments nested in it. */
  lemma BlockCommentText(afterIdent: bool, b: Inside, rest: string, pos: nat)
    requires IsInside(b, "*/" + rest)
    ensures var n := |Written(b)| + 4;
      InCode(afterIdent, "/*" + Written(b) + "*/" + rest, pos)
      == [Span(pos, pos + n, BlockComment)] + InCode(false, rest, pos + n)
  {
    hide *;
    var body := Written(b);
    CommentRegroup(body, rest);
    CommentOpens(afterIdent, body + ("*/" + rest), pos);
    PastInside(b, 1, "*/" + rest, pos, pos + 2);
    CommentCloses(rest, pos, pos + 2 + |body|);
  }

  lemma CommentRegroup(body: string, rest: string)
    ensures "/*" + body + "*/" + rest == "/*" + (body + ("*/" + rest))
  {
  }

  lemma CommentOpens(afterIdent: bool, s: string, pos: nat)
    ensures InCode(afterIdent, "/*" + s, pos) == Spans(InBlockComment(1), pos, s, pos + 2)
  {
    hide Spans, IsTag;
    Opens(afterIdent, "/*" + s, pos, 2, InBlockComment(1));
    assert ("/*" + s)[2..] == s;
  }

  lemma CommentCloses(rest: string, start: nat, pos: nat)
    ensures Spans(InBlockComment(1), start, "*/" + rest, pos)
         == [Span(start, pos + 2, BlockComment)] + InCode(false, rest, pos + 2)
  {
    hide Spans, IsTag;
    assert ("*/" + rest)[2..] == rest;
    SpansMove(InBlockComment(1), start, "*/" + rest, pos);
    CodeFromAnyStart(false, pos, pos + 2, rest, pos + 2);
  }

  lemma NestedOpens(depth: nat, start: nat, s: string, pos: nat)
    requires depth > 0
    ensures Spans(InBlockComment(depth), start, "/*" + s, pos) == Spans(InBlockComment(depth + 1), start, s, pos + 2)
  {
    hide Spans;
    assert ("/*" + s)[2..] == s;
    SpansMove(InBlockComment(depth), start, "/*" + s, pos);
  }

  lemma NestedCloses(depth: nat, start: nat, s: string, pos: nat)
    requires depth > 0
    ensures Spans(InBlockComment(depth + 1), start, "*/" + s, pos) == Spans(InBlockComment(depth), start, s, pos + 2)
  {
    hide Spans;
    assert ("*/" + s)[2..] == s;
    SpansMove(InBlockComment(depth + 1), start, "*/" + s, pos);
  }

  lemma CharPassed(depth: nat, start: nat, s: string, pos: nat)
    requires depth > 0 && s != ""
    requires !(|s| > 1 && ((s[0] == '/' && s[1] == '*') || (s[0] == '*' && s[1] == '/')))
    ensures Spans(InBlockComment(depth), start, s, pos) == Spans(InBlockComment(depth), start, s[1..], pos + 1)
  {
    hide Spans;
    SpansMove(InBlockComment(depth), start, s, pos);
  }

  lemma NestedRegroup(inner: string, more: string, tail: string)
    ensures "*/" + more + tail == "*/" + (more + tail)
    ensures "/*" + inner + "*/" + more + tail == "/*" + (inner + ("*/" + (more + tail)))
  {
  }

  lemma {:induction false} PastInside(b: Inside, depth: nat, tail: string, start: nat, pos: nat)
    requires IsInside(b, tail) && depth > 0
    ensures Spans(InBlockComment(depth), start, Written(b) + tail, pos)
         == Spans(InBlockComment(depth), start, tail, pos + |Written(b)|)
    decreases b
  {
    hide Spans, Next;
    var s := Written(b) + tail;
    match b {
      case End => assert s == tail;
      case Char(c, more) =>
        assert s == [c] + Written(more) + tail && s[1..] == Written(more) + tail;
        CharPassed(depth, start, s, pos);
        PastInside(more, depth, tail, start, pos + 1);
      case Nested(inner, more) =>
        var nested, after := Written(inner), Written(more) + tail;
        var p := pos + 2 + |nested|;
        NestedRegroup(nested, Written(more), tail);
        NestedOpens(depth, start, nested + ("*/" + after), pos);
        PastInside(inner, depth + 1, "*/" + after, start, pos + 2);
        NestedCloses(depth, start, after, p);
        PastInside(more, depth, tail, start, p + 2);
    }
  }

  /** A comment that never ends, with what is in it on each level up to the mark that opens the next. */
  function WrittenOpen(levels: seq<Inside>): string {
    if levels == [] then "" else "/*" + Written(levels[0]) + WrittenOpen(levels[1..])
  }

  predicate IsOpen(levels: seq<Inside>) {
    levels == [] || (IsInside(levels[0], WrittenOpen(levels[1..])) && IsOpen(levels[1..]))
  }

  lemma OpenBlockComment(afterIdent: bool, levels: seq<Inside>, pos: nat)
    requires levels != [] && IsOpen(levels)
    ensures InCode(afterIdent, WrittenOpen(levels), pos) == [Span(pos, pos + |WrittenOpen(levels)|, BlockComment)]
  {
    hide Spans, Next, IsTag, IsInside;
    var more := Written(levels[0]) + WrittenOpen(levels[1..]);
    assert WrittenOpen(levels) == "/*" + more;
    CommentOpens(afterIdent, more, pos);
    OpenLevels(levels, 1, pos, pos + 2);
  }

  lemma {:induction false} OpenLevels(levels: seq<Inside>, depth: nat, start: nat, pos: nat)
    requires levels != [] && IsOpen(levels) && depth > 0
    ensures var s := Written(levels[0]) + WrittenOpen(levels[1..]);
      Spans(InBlockComment(depth), start, s, pos) == [Span(start, pos + |s|, BlockComment)]
    decreases |levels|
  {
    hide Next, Spans, IsInside;
    var more := WrittenOpen(levels[1..]);
    var p := pos + |Written(levels[0])|;
    PastInside(levels[0], depth, more, start, pos);
    if |levels| > 1 {
      var inner := Written(levels[1]) + WrittenOpen(levels[2..]);
      assert levels[1..][1..] == levels[2..];
      assert more == "/*" + inner && more[2..] == inner;
      NestedOpens(depth, start, inner, p);
      OpenLevels(levels[1..], depth + 1, start, p + 2);
    } else {
      TextEnds(InBlockComment(depth), start, p);
    }
  }

  lemma TextEnds(m: Mode, start: nat, pos: nat)
    requires ModeOk(m) && !m.Code?
    ensures Spans(m, start, "", pos) == [Span(start, pos, KindOf(m))]
  {
  }

  // ---------------------------------------------------------------------------------------------
  // Code
  // ---------------------------------------------------------------------------------------------

  /** A character that opens nothing is passed over; the next one is then behind a character of an identifier if
      this one is a letter, a digit, an underscore or a dollar sign. */
  lemma CodeCharacter(afterIdent: bool, c: char, rest: string, pos: nat)
    requires !(c == '-' && rest != "" && rest[0] == '-') && !(c == '/' && rest != "" && rest[0] == '*')
    requires c != '"' && c != '\'' && !exists n :: 0 < n <= |rest| + 1 && IsTag(([c] + rest)[..n])
    requires !((c == 'e' || c == 'E') && rest != "" && rest[0] == '\'' && !afterIdent)
    ensures var ident := 'A' <= c <= 'Z' || 'a' <= c <= 'z' || c == '_' || '0' <= c <= '9' || c == '$';
      InCode(afterIdent, [c] + rest, pos) == InCode(ident, rest, pos + 1)
  {
    hide Spans;
    var s := [c] + rest;
    assert s[1..] == rest;
    NoTag(s);
    SpansMove(Code(afterIdent), pos, s, pos);
    CodeFromAnyStart(IsIdentChar(c), pos, pos + 1, rest, pos + 1);
  }

  /** What is reported for a text is what the scan finds in code from its start. */
  lemma WholeText(sql: string)
    ensures AllSpans(sql) == InCode(false, sql, 0)
  {
  }
}
