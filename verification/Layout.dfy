/** Text as lines: how `format.py` joins lines, measures their indentation and finds the lines that a
    string literal runs across. */
module Layout {
  import opened SqlSpans

  /** What Python's `str.strip` removes. */
  predicate IsSpace(c: char) {
    var k := c as int;
    || 0x09 <= k <= 0x0D || 0x1C <= k <= 0x20 || k == 0x85 || k == 0xA0 || k == 0x1680
    || 0x2000 <= k <= 0x200A || k == 0x2028 || k == 0x2029 || k == 0x202F || k == 0x205F || k == 0x3000
  }

  /** The space characters of ASCII. */
  lemma AsciiSpace(c: char)
    requires c as int < 128
    ensures IsSpace(c) <==> c == ' ' || c == '\t' || c == '\n' || c == '\r' || '\U{000B}' <= c <= '\U{000C}'
                            || '\U{001C}' <= c <= '\U{001F}'
  {
  }

  predicate AllSpace(s: string) { forall i :: 0 <= i < |s| ==> IsSpace(s[i]) }

  /** The number of leading whitespace characters. */
  function Indent(line: string): (r: nat)
    ensures r <= |line| && AllSpace(line[..r])
    ensures r < |line| ==> !IsSpace(line[r])
  {
    if line == "" || !IsSpace(line[0]) then 0 else 1 + Indent(line[1..])
  }

  predicate IsBlank(line: string) { Indent(line) == |line| }

  lemma {:induction false} IndentOf(ws: string, body: string)
    requires AllSpace(ws)
    ensures Indent(ws + body) == |ws| + Indent(body)
    decreases |ws|
  {
    if ws == "" {
      assert ws + body == body;
    } else {
      assert (ws + body)[1..] == ws[1..] + body;
      IndentOf(ws[1..], body);
    }
  }

  lemma IndentAfter(line: string, k: nat)
    requires k <= Indent(line)
    ensures Indent(line[k..]) == Indent(line) - k && IsBlank(line[k..]) == IsBlank(line)
  {
    assert line == line[..k] + line[k..];
    assert AllSpace(line[..k]);
    IndentOf(line[..k], line[k..]);
  }

  function Join(lines: seq<string>): string {
    if lines == [] then ""
    else if |lines| == 1 then lines[0]
    else lines[0] + "\n" + Join(lines[1..])
  }

  /** The first `i` lines, each with its newline. */
  function Above(lines: seq<string>, i: nat): string
    requires i <= |lines|
  {
    if i == 0 then "" else lines[0] + "\n" + Above(lines[1..], i - 1)
  }

  /** The offset at which line `i` starts once the lines are joined. */
  function LineStart(lines: seq<string>, i: nat): nat
    requires i <= |lines|
  {
    if i == 0 then 0 else LineStart(lines, i - 1) + |lines[i - 1]| + 1
  }

  /** The scan mode at the start of line `i`. */
  function ModeAt(m: Mode, lines: seq<string>, i: nat): (r: Mode)
    requires i <= |lines| && ModeOk(m)
    ensures ModeOk(r)
    decreases i
  {
    if i == 0 then m else ModeAt(EndMode(m, lines[0] + "\n"), lines[1..], i - 1)
  }

  lemma {:induction false} LineStartIsAbove(lines: seq<string>, i: nat)
    requires i <= |lines|
    ensures |Above(lines, i)| == LineStart(lines, i)
    decreases i
  {
    if i > 0 {
      LineStartIsAbove(lines, i - 1);
      AboveLast(lines, i);
    }
  }

  lemma {:induction false} AboveLast(lines: seq<string>, i: nat)
    requires 0 < i <= |lines|
    ensures Above(lines, i) == Above(lines, i - 1) + lines[i - 1] + "\n"
    decreases i
  {
    if i > 1 {
      AboveLast(lines[1..], i - 1);
    }
  }

  lemma {:induction false} JoinSplit(lines: seq<string>, i: nat)
    requires i < |lines|
    ensures Join(lines) == Above(lines, i) + Join(lines[i..])
    decreases i
  {
    if i == 0 {
      assert lines[0..] == lines;
    } else {
      JoinSplit(lines[1..], i - 1);
      assert lines[1..][i - 1..] == lines[i..];
      assert lines[0] + "\n" + (Above(lines[1..], i - 1) + Join(lines[i..])) == Above(lines, i) + Join(lines[i..]);
    }
  }

  lemma {:induction false} ModeAtIsEndMode(m: Mode, lines: seq<string>, i: nat)
    requires i <= |lines| && ModeOk(m)
    ensures EndMode(m, Above(lines, i)) == ModeAt(m, lines, i)
    decreases i
  {
    hide Next, EndMode, Kept;
    if i == 0 {
      Unfold(m, Above(lines, i));
    } else {
      var first := lines[0] + "\n";
      ModeAtIsEndMode(EndMode(m, first), lines[1..], i - 1);
      Compose(m, first, Above(lines[1..], i - 1));
    }
  }

  /** A line starts in code (not behind an identifier), in a comment or name that runs on, or in a
      literal. */
  lemma ModeAtLineStart(lines: seq<string>, i: nat)
    requires i <= |lines|
    ensures var m := ModeAt(Code(false), lines, i); !m.InLineComment? && m != Code(true)
  {
    if i > 0 {
      ModeAtIsEndMode(Code(false), lines, i);
      AboveLast(lines, i);
      ModeAfterNewline(Code(false), Above(lines, i));
    }
  }

  /** The lines whose first character belongs to a literal opened above them. */
  function InteriorLines(lines: seq<string>): set<nat> {
    set i: nat | i < |lines| && BeginsInside(lines, i)
  }

  predicate BeginsInside(lines: seq<string>, i: nat)
    requires i < |lines|
  {
    Covers(AllSpans(Join(lines)), LineStart(lines, i))
  }

  lemma InteriorByMode(lines: seq<string>, i: nat)
    requires i < |lines|
    ensures i in InteriorLines(lines) <==> IsLiteralMode(ModeAt(Code(false), lines, i)) && Join(lines[i..]) != ""
  {
    hide Spans, EndMode, Next;
    if i == 0 {
      assert ModeAt(Code(false), lines, 0) == Code(false);
    } else {
      JoinSplit(lines, i);
      LineStartIsAbove(lines, i);
      ModeAtIsEndMode(Code(false), lines, i);
      AboveLast(lines, i);
      CoveredAfterNewline(Code(false), 0, Above(lines, i), Join(lines[i..]), 0);
    }
  }

  lemma LineStartNext(lines: seq<string>)
    ensures LineStart(lines, 0) == 0
    ensures forall i: nat :: i < |lines| ==> LineStart(lines, i + 1) == LineStart(lines, i) + |lines[i]| + 1
  {
  }

  /** `_literal_line_starts`. */
  method LiteralLineStarts(lines: seq<string>) returns (starts: seq<nat>)
    ensures |starts| == |lines| && forall i :: 0 <= i < |lines| ==> starts[i] == LineStart(lines, i)
  {
    hide LineStart;
    starts := [];
    var offset: nat := 0;
    LineStartNext(lines);
    for k := 0 to |lines|
      invariant |starts| == k && offset == LineStart(lines, k)
      invariant forall i :: 0 <= i < k ==> starts[i] == LineStart(lines, i)
    {
      starts := starts + [offset];
      offset := offset + |lines[k]| + 1;
    }
  }

  /** The lines of one span that begin strictly inside it, and the first of them. */
  method TouchedLines(starts: seq<nat>, sp: Span) returns (touched: set<nat>, first: nat)
    ensures touched == set i: nat | i < |starts| && sp.start < starts[i] < sp.stop
    ensures touched != {} ==> first in touched && forall i <- touched :: first <= i
  {
    touched, first := {}, 0;
    for i := 0 to |starts|
      invariant touched == set j: nat | j < i && sp.start < starts[j] < sp.stop
      invariant touched != {} ==> first in touched && forall j <- touched :: first <= j
    {
      if sp.start < starts[i] < sp.stop {
        first := if touched == {} then i else first;
        touched := touched + {i};
      }
    }
  }

  /** `_literal_interior_lines`: a loop over the literal spans of the joined text. */
  method LiteralInteriorLines(lines: seq<string>) returns (interior: set<nat>)
    ensures interior == InteriorLines(lines)
  {
    hide Spans, Next;
    if |lines| < 2 {
      assert forall i: nat :: i < |lines| ==> LineStart(lines, i) == 0;
      return {};
    }
    var spans := IterSqlSpans(Join(lines));
    var starts := LiteralLineStarts(lines);
    interior := {};
    for k := 0 to |spans|
      invariant interior == set i: nat | i < |lines| && Covers(spans[..k], LineStart(lines, i))
    {
      ghost var before := interior;
      if IsLiteralKind(spans[k].kind) {
        var touched, _ := TouchedLines(starts, spans[k]);
        interior := interior + touched;
      }
      assert spans[..k + 1] == spans[..k] + [spans[k]];
      forall p: nat ensures Covers(spans[..k + 1], p) <==>
          Covers(spans[..k], p) || (IsLiteralKind(spans[k].kind) && spans[k].start < p < spans[k].stop)
      {
        CoversSnoc(spans[..k], spans[k], p);
      }
    }
    assert spans[..|spans|] == spans;
  }

  /** Every line that a multi-line literal touches: those that begin inside it, and the one above them,
      which opens it. */
  function SpanningLines(lines: seq<string>): set<nat> {
    set i: nat | i < |lines| && Spanned(lines, i)
  }

  predicate Spanned(lines: seq<string>, i: nat)
    requires i < |lines|
  {
    BeginsInside(lines, i) || (i + 1 < |lines| && BeginsInside(lines, i + 1))
  }

  /** What one span adds to `SpanningLines`. */
  predicate SpanTouches(lines: seq<string>, sp: Span, i: nat)
    requires i < |lines|
  {
    || sp.start < LineStart(lines, i) < sp.stop
    || (i + 1 < |lines| && sp.start < LineStart(lines, i + 1) < sp.stop)
  }

  predicate Touches(lines: seq<string>, spans: seq<Span>, i: nat)
    requires i < |lines|
  {
    exists k :: 0 <= k < |spans| && IsLiteralKind(spans[k].kind) && SpanTouches(lines, spans[k], i)
  }

  lemma TouchesIsSpanning(lines: seq<string>, i: nat)
    requires i < |lines|
    ensures Touches(lines, AllSpans(Join(lines)), i) <==> i in SpanningLines(lines)
  {
    hide Spans, Join, LineStart;
    var spans := AllSpans(Join(lines));
    if Covers(spans, LineStart(lines, i)) {
      var k :| 0 <= k < |spans| && IsLiteralKind(spans[k].kind) && spans[k].start < LineStart(lines, i) < spans[k].stop;
      assert SpanTouches(lines, spans[k], i);
    }
    if i + 1 < |lines| && Covers(spans, LineStart(lines, i + 1)) {
      var k :| 0 <= k < |spans| && IsLiteralKind(spans[k].kind)
          && spans[k].start < LineStart(lines, i + 1) < spans[k].stop;
      assert SpanTouches(lines, spans[k], i);
    }
  }

  lemma TouchesSnoc(lines: seq<string>, spans: seq<Span>, sp: Span, i: nat)
    requires i < |lines|
    ensures Touches(lines, spans + [sp], i) <==>
              Touches(lines, spans, i) || (IsLiteralKind(sp.kind) && SpanTouches(lines, sp, i))
  {
    hide SpanTouches;
    var all := spans + [sp];
    if Touches(lines, spans, i) {
      var k :| 0 <= k < |spans| && IsLiteralKind(spans[k].kind) && SpanTouches(lines, spans[k], i);
      assert all[k] == spans[k];
    }
    assert all[|spans|] == sp;
  }

  lemma {:induction false} LineStartGrows(lines: seq<string>, i: nat, j: nat)
    requires i <= j <= |lines|
    ensures LineStart(lines, i) + (j - i) <= LineStart(lines, j)
    decreases j
  {
    if i < j {
      LineStartGrows(lines, i, j - 1);
    }
  }

  /** The lines a span touches and the line before the first of them are those it is said to touch. */
  lemma TouchedIsTouches(lines: seq<string>, sp: Span, touched: set<nat>, first: nat, i: nat)
    requires i < |lines| && touched == set j: nat | j < |lines| && sp.start < LineStart(lines, j) < sp.stop
    requires touched != {} ==> first in touched && forall j <- touched :: first <= j
    ensures touched != {} ==> first > 0
    ensures SpanTouches(lines, sp, i) <==> touched != {} && (i in touched || i == first - 1)
  {
    hide LineStart;
    if touched != {} {
      FirstTouched(lines, sp, first);
    }
    if i + 1 < |lines| {
      LineStartGrows(lines, i, i + 1);
      if first <= i && touched != {} {
        LineStartGrows(lines, first, i);
      }
    }
    assert i in touched <==> sp.start < LineStart(lines, i) < sp.stop;
    assert i + 1 < |lines| ==> (i + 1 in touched <==> sp.start < LineStart(lines, i + 1) < sp.stop);
    if touched != {} && i == first - 1 {
      assert i + 1 in touched;
    }
  }

  lemma FirstTouched(lines: seq<string>, sp: Span, first: nat)
    requires first < |lines| && sp.start < LineStart(lines, first)
    ensures first > 0
  {}

  /** `_literal_spanning_lines`. */
  method LiteralSpanningLines(lines: seq<string>) returns (spanning: set<nat>)
    ensures spanning == SpanningLines(lines)
  {
    hide Spans, Next, SpanTouches, BeginsInside, Join, Touches;
    if |lines| < 2 {
      FirstLineIsFree(lines);
      return {};
    }
    var spans := IterSqlSpans(Join(lines));
    var starts := LiteralLineStarts(lines);
    spanning := {};
    NothingTouched(lines);
    for k := 0 to |spans|
      invariant spanning == set i: nat | i < |lines| && Touches(lines, spans[..k], i)
    {
      assert spans[..k + 1] == spans[..k] + [spans[k]];
      forall i: nat | i < |lines| ensures Touches(lines, spans[..k + 1], i) <==>
          Touches(lines, spans[..k], i) || (IsLiteralKind(spans[k].kind) && SpanTouches(lines, spans[k], i))
      {
        TouchesSnoc(lines, spans[..k], spans[k], i);
      }
      if IsLiteralKind(spans[k].kind) {
        var touched, first := TouchedLines(starts, spans[k]);
        forall i: nat | i < |lines|
          ensures touched != {} ==> first > 0
          ensures SpanTouches(lines, spans[k], i) <==> touched != {} && (i in touched || i == first - 1)
        {
          TouchedIsTouches(lines, spans[k], touched, first, i);
        }
        if touched == {} {
          continue;
        }
        assert |lines| > 0 && first > 0 by { TouchedIsTouches(lines, spans[k], touched, first, 0); }
        spanning := spanning + touched + {first - 1};
      }
    }
    assert spans[..|spans|] == spans;
    forall i: nat | i < |lines| ensures Touches(lines, spans, i) <==> i in SpanningLines(lines) {
      TouchesIsSpanning(lines, i);
    }
  }

  lemma FirstLineIsFree(lines: seq<string>)
    ensures lines != [] ==> !BeginsInside(lines, 0)
    ensures |lines| < 2 ==> SpanningLines(lines) == {}
  {
    assert LineStart(lines, 0) == 0;
    if lines != [] {
      assert !BeginsInside(lines, 0);
    }
  }

  lemma NothingTouched(lines: seq<string>)
    ensures forall i: nat :: i < |lines| ==> !Touches(lines, [], i)
  {}

  lemma CoversSnoc(spans: seq<Span>, sp: Span, p: nat)
    ensures Covers(spans + [sp], p) <==> Covers(spans, p) || (IsLiteralKind(sp.kind) && sp.start < p < sp.stop)
  {
    var all := spans + [sp];
    if Covers(spans, p) {
      var k :| 0 <= k < |spans| && IsLiteralKind(spans[k].kind) && spans[k].start < p < spans[k].stop;
      assert all[k] == spans[k];
    }
    assert all[|spans|] == sp;
  }

  // ---------------------------------------------------------------------------------------------
  // Changes that do not matter to the scan
  // ---------------------------------------------------------------------------------------------

  /** Whitespace and commas: what the layout passes put in and take out. */
  predicate Filler(s: string) { forall i :: 0 <= i < |s| ==> s[i] == ',' || IsSpace(s[i]) }

  /** Modes a line can start in, other than inside a literal. */
  predicate LineStartMode(m: Mode) { ModeOk(m) && !IsLiteralMode(m) && !m.InLineComment? && m != Code(true) }

  lemma FillerMove(m: Mode, s: string)
    requires LineStartMode(m) && s != "" && (s[0] == ',' || IsSpace(s[0]))
    ensures EndMode(m, s) == EndMode(m, s[1..]) && Kept(m, s) == Kept(m, s[1..])
  {
    hide Next, EndMode, Kept;
    FillerNext(m, s);
    Unfold(m, s);
  }

  lemma FillerNext(m: Mode, s: string)
    requires LineStartMode(m) && s != "" && (s[0] == ',' || IsSpace(s[0]))
    ensures Next(m, s) == Move(1, m, false, false)
  {
    FillerIsPlain(s[0]);
    hide IsSpace;
    assert DollarTag(s) == 0;
  }

  lemma FillerIsPlain(c: char)
    requires c == ',' || IsSpace(c)
    ensures !IsIdentChar(c)
    ensures c != '-' && c != '/' && c != '*' && c != '"' && c != '$' && c != 'e' && c != 'E' && c != '\''
  {
  }

  /** At the start of a line, outside literals, filler is passed over. */
  lemma {:induction false} SkipFiller(m: Mode, f: string, rest: string)
    requires LineStartMode(m) && Filler(f)
    ensures EndMode(m, f + rest) == EndMode(m, rest)
    ensures Kept(m, f + rest) == Kept(m, rest)
    decreases |f|
  {
    hide EndMode, Kept;
    if f == "" {
      assert f + rest == rest;
    } else {
      FillerMove(m, f + rest);
      assert (f + rest)[1..] == f[1..] + rest;
      SkipFiller(m, f[1..], rest);
    }
  }

  lemma DollarTagBeforeFiller(x: string, f: string)
    requires x != "" && f != "" && Filler(f)
    ensures var a, b := x + f, x + "\n"; var n := DollarTag(a);
      DollarTag(b) == n && n <= |x| && a[..n] == b[..n]
  {
    hide IsSpace;
    var a, b := x + f, x + "\n";
    assert a[0] == b[0] == x[0];
    assert |x| >= 2 ==> a[1] == b[1] == x[1];
    FillerHead(f);
    if x[0] == '$' {
      WordEndBeforeBreak(x, f, 1);
      WordEndBeforeBreak(x, "\n", 1);
    }
    assert DollarTag(a) == DollarTag(b) <= |x|;
    assert a[..DollarTag(a)] == x[..DollarTag(a)] == b[..DollarTag(a)];
  }

  lemma FillerHead(f: string)
    requires f != "" && Filler(f)
    ensures !IsIdentChar(f[0])
  {
  }

  /** What the scan does before filler and a newline, it does before the newline alone; only a
      backslash may reach one character further. */
  lemma NextBeforeFiller(m: Mode, x: string, f: string)
    requires ModeOk(m) && x != "" && f != "" && Filler(f)
    ensures var mv, mv' := Next(m, x + f), Next(m, x + "\n");
            || (mv == mv' && mv.n <= |x|)
            || (mv == mv' && m.InEString? && mv.n == |x| + 1 && mv.mode == m)
  {
    hide DollarTag;
    var a, b := x + f, x + "\n";
    assert a[0] == b[0] == x[0];
    assert |x| >= 2 ==> a[1] == b[1] == x[1];
    assert |x| == 1 ==> a[1] == f[0] && b[1] == '\n';
    match m {
      case Code(_) =>
        DollarTagBeforeFiller(x, f);
      case InDollar(tag) =>
        TagBeforeBreak(tag, x, f);
        TagBeforeBreak(tag, x, "\n");
      case _ =>
    }
  }

  lemma {:induction false} WordEndBeforeBreak(x: string, f: string, k: nat)
    requires f != "" && !IsIdentChar(f[0]) && k <= |x|
    ensures WordEnd(x + f, k) == WordEnd(x, k)
    decreases |x| - k
  {
    if k < |x| && IsWordChar(x[k]) {
      WordEndBeforeBreak(x, f, k + 1);
    }
  }

  lemma TagBeforeBreak(tag: string, x: string, f: string)
    requires IsTag(tag) && f != "" && !IsIdentChar(f[0])
    ensures tag <= x + f <==> tag <= x
  {
    if tag <= x {
      assert (x + f)[..|tag|] == x[..|tag|];
    }
    if tag <= x + f {
      PrefixReach(tag, x, f);
      if |tag| <= |x| {
        assert (x + f)[..|tag|] == x[..|tag|];
      }
    }
  }

  lemma PrefixReach(tag: string, x: string, f: string)
    requires tag <= x + f
    ensures |tag| <= |x| || tag[|x|] == f[0]
  {
    if |x| < |tag| {
      assert tag[|x|] == (x + f)[|x|];
    }
  }

  lemma FillerChar(m: Mode, s: string)
    requires ModeOk(m) && s != "" && (s[0] == ',' || IsSpace(s[0]))
    ensures Next(m, s) == Move(1, if m.Code? || (m.InLineComment? && s[0] == '\n') then Code(false) else m,
                               IsLiteralMode(m), false)
  {
    match m {
      case Code(_) => assert DollarTag(s) == 0;
      case InDollar(tag) => assert !(tag <= s);
      case _ =>
    }
  }

  lemma NewlineOnly(m: Mode)
    requires ModeOk(m)
    ensures EndMode(m, "\n") == if m.Code? || m.InLineComment? then Code(false) else m
    ensures Kept(m, "\n") == if IsLiteralMode(m) then [('\n', false)] else []
  {
    hide Next, EndMode, Kept;
    FillerChar(m, "\n");
    Unfold(m, "\n");
    Unfold(Next(m, "\n").mode, "\n"[1..]);
    assert "\n"[..1] == "\n";
  }

  lemma {:induction false} FillerOnly(m: Mode, f: string)
    requires ModeOk(m) && Filler(f)
    ensures EndMode(m, f + "\n") == EndMode(m, "\n")
    ensures !IsLiteralMode(m) ==> Kept(m, f + "\n") == []
    decreases |f|
  {
    hide Next, EndMode, Kept;
    NewlineOnly(m);
    if f == "" {
      assert f + "\n" == "\n";
    } else {
      var s := f + "\n";
      FillerChar(m, s);
      Unfold(m, s);
      assert s[1..] == f[1..] + "\n";
      FillerOnly(Next(m, s).mode, f[1..]);
      NewlineOnly(Next(m, s).mode);
    }
  }

  /** Filler before a newline does not change the mode the next line starts in, and outside literals
      nothing else either. */
  lemma {:induction false} FillerBeforeNewline(m: Mode, x: string, f: string)
    requires ModeOk(m) && Filler(f)
    ensures EndMode(m, x + f + "\n") == EndMode(m, x + "\n")
    ensures !IsLiteralMode(EndMode(m, x + "\n")) ==> Kept(m, x + f + "\n") == Kept(m, x + "\n")
    decreases |x|
  {
    hide EndMode, Kept, Next;
    var a, b := x + f + "\n", x + "\n";
    if x == "" {
      assert a == f + "\n" && b == "\n";
      FillerOnly(m, f);
      NewlineOnly(m);
    } else {
      NextBeforeFiller(m, x, f + "\n");
      assert a == x + (f + "\n");
      Unfold(m, a);
      Unfold(m, b);
      var mv := Next(m, a);
      if mv.n <= |x| {
        assert a[mv.n..] == x[mv.n..] + f + "\n" && b[mv.n..] == x[mv.n..] + "\n";
        assert a[..mv.n] == b[..mv.n];
        FillerBeforeNewline(mv.mode, x[mv.n..], f);
      } else {
        assert b[mv.n..] == "";
        Unfold(m, "");
        if f == "" {
          assert a == b;
        } else {
          assert a[mv.n..] == f[1..] + "\n";
          FillerOnly(m, f[1..]);
          NewlineOnly(m);
        }
      }
    }
  }

  ghost predicate Cut(line: string, head: string, core: string, tail: string) {
    line == head + core + tail && Filler(head) && Filler(tail)
  }

  /** Two lines that differ at most in filler at their start, if `atStart`, and at their end, if `atEnd`. */
  ghost predicate SameBut(a: string, b: string, atStart: bool, atEnd: bool) {
    exists f, g, core, h, k :: Cut(a, f, core, h) && Cut(b, g, core, k) && (f == g == "" || atStart)
        && (h == k == "" || atEnd)
  }

  lemma SameLine(a: string, b: string, atStart: bool, atEnd: bool)
    requires a == b
    ensures SameBut(a, b, atStart, atEnd)
  {
    assert a == "" + a + "";
    assert Cut(a, "", a, "") && Cut(b, "", a, "");
  }

  /** Filler changed at the end of line `i` may reach nothing but the newline behind it; with `strict` it
      must be outside literals as well. */
  predicate EndFree(m: Mode, lines: seq<string>, i: nat, strict: bool)
    requires i < |lines| && ModeOk(m)
  {
    i + 1 < |lines| && !(strict && IsLiteralMode(ModeAt(m, lines, i + 1)))
  }

  /** Line by line, `out` is `lines` with filler changed, but never at the start of a line that begins
      inside a literal. */
  ghost predicate SameLayout(m: Mode, lines: seq<string>, out: seq<string>, strict: bool)
    requires ModeOk(m)
  {
    && |lines| == |out|
    && forall i: nat :: i < |lines| ==> SameLayoutAt(m, lines, out, strict, i)
  }

  ghost predicate SameLayoutAt(m: Mode, lines: seq<string>, out: seq<string>, strict: bool, i: nat)
    requires i < |lines| == |out| && ModeOk(m)
  {
    SameBut(lines[i], out[i], LineStartMode(ModeAt(m, lines, i)), EndFree(m, lines, i, strict))
  }

  lemma SameLayoutTail(m: Mode, lines: seq<string>, out: seq<string>, strict: bool)
    requires ModeOk(m) && lines != [] && SameLayout(m, lines, out, strict)
    ensures SameLayout(EndMode(m, lines[0] + "\n"), lines[1..], out[1..], strict)
  {
    hide SameBut, EndMode;
    var m' := EndMode(m, lines[0] + "\n");
    forall i: nat | i < |lines| - 1 ensures SameLayoutAt(m', lines[1..], out[1..], strict, i) {
      assert ModeAt(m, lines, i + 1) == ModeAt(m', lines[1..], i);
      assert i + 2 < |lines| ==> ModeAt(m, lines, i + 2) == ModeAt(m', lines[1..], i + 1);
      assert SameLayoutAt(m, lines, out, strict, i + 1);
    }
  }

  /** One line with its newline. */
  lemma SameScanLine(m: Mode, a: string, b: string, atStart: bool, atEnd: bool)
    requires ModeOk(m) && (atStart ==> LineStartMode(m)) && SameBut(a, b, atStart, atEnd)
    ensures EndMode(m, a + "\n") == EndMode(m, b + "\n")
    ensures !atEnd || !IsLiteralMode(EndMode(m, a + "\n")) ==> Kept(m, a + "\n") == Kept(m, b + "\n")
    ensures !atEnd ==> Kept(m, a) == Kept(m, b)
  {
    hide EndMode, Kept, Filler;
    var f, g, core, h, k :| Cut(a, f, core, h) && Cut(b, g, core, k) && (f == g == "" || atStart)
        && (h == k == "" || atEnd);
    SameScanPart(m, a, f, core, h, atStart);
    SameScanPart(m, b, g, core, k, atStart);
  }

  lemma SameScanPart(m: Mode, a: string, f: string, core: string, h: string, atStart: bool)
    requires ModeOk(m) && (atStart ==> LineStartMode(m)) && Cut(a, f, core, h) && (f == "" || atStart)
    ensures EndMode(m, a + "\n") == EndMode(m, core + "\n")
    ensures h == "" || !IsLiteralMode(EndMode(m, core + "\n")) ==> Kept(m, a + "\n") == Kept(m, core + "\n")
    ensures h == "" ==> Kept(m, a) == Kept(m, core)
  {
    hide EndMode, Kept;
    assert a + "\n" == f + (core + h + "\n");
    if f == "" {
      assert f + (core + h + "\n") == core + h + "\n" && a == core + h;
    } else {
      SkipFiller(m, f, core + h + "\n");
      SkipFiller(m, f, core);
    }
    if h == "" {
      assert core + h == core && a == f + core;
    } else {
      FillerBeforeNewline(m, core, h);
    }
  }

  /** Such a change leaves the mode at every line start as it was, and if it is strict every literal. */
  lemma {:induction false} SameLayoutSameScan(m: Mode, lines: seq<string>, out: seq<string>, strict: bool)
    requires ModeOk(m) && SameLayout(m, lines, out, strict)
    ensures strict ==> Kept(m, Join(lines)) == Kept(m, Join(out))
    ensures forall i: nat :: i <= |lines| ==> ModeAt(m, lines, i) == ModeAt(m, out, i)
    decreases |lines|
  {
    hide Kept, EndMode, Next, SameBut, SameLayout;
    if lines == [] {
      SameLayoutLengths(m, lines, out, strict);
    } else {
      SameLayoutLengths(m, lines, out, strict);
      var m' := EndMode(m, lines[0] + "\n");
      assert ModeAt(m, lines, 0) == m && (|lines| > 1 ==> ModeAt(m, lines, 1) == m');
      SameScanLine(m, lines[0], out[0], LineStartMode(m), EndFree(m, lines, 0, strict));
      SameLayoutTail(m, lines, out, strict);
      SameLayoutSameScan(m', lines[1..], out[1..], strict);
      if |lines| > 1 {
        Compose(m, lines[0] + "\n", Join(lines[1..]));
        Compose(m, out[0] + "\n", Join(out[1..]));
      }
      forall i: nat | i <= |lines| ensures ModeAt(m, lines, i) == ModeAt(m, out, i) {
        if i > 0 {
          assert ModeAt(m', lines[1..], i - 1) == ModeAt(m', out[1..], i - 1);
        }
      }
    }
  }

  lemma SameLayoutLengths(m: Mode, lines: seq<string>, out: seq<string>, strict: bool)
    requires ModeOk(m) && SameLayout(m, lines, out, strict)
    ensures |lines| == |out|
    ensures lines != [] ==> SameLayoutAt(m, lines, out, strict, 0)
  {}
}
