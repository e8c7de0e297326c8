/** What moving commas does to the string literals of a script.

    Moving commas to the front of lines keeps every literal of every text (`LeadingCommaKeepsLiterals`).
    Moving them back does not: the pass looks for the line above without asking whether the lines it
    skips as comments lie inside a literal, and may put a comma, or strip whitespace, inside one
    (`TrailingCommaCanBreakALiteral`).  `TrailingCommaKeepsLiteralsIff` says exactly when it does. */
module CommaLiterals {
  import opened SqlSpans
  import opened Layout
  import opened CommaStyle

  lemma FillerParts(s: string)
    ensures Filler(s[..Indent(s)]) && Filler(s[|Trimmed(s)|..])
  {}

  lemma EmptyIsFiller()
    ensures Filler("")
  {}

  lemma CommaIsFiller()
    ensures Filler(",")
  {}

  lemma FillerJoin(a: string, b: string)
    requires Filler(a) && Filler(b)
    ensures Filler(a + b)
  {}

  /** How a line relates to what it becomes. */
  lemma LeadCut(s: string, atEnd: bool)
    ensures SameBut(s, Lead(s), true, atEnd)
  {
    hide Indent;
    var f, core := s[..Indent(s)], s[Indent(s)..];
    FillerParts(s);
    FillerJoin(f, ", ");
    assert Cut(s, f, core, "") && Cut(Lead(s), f + ", ", core, "");
  }

  lemma DroppedCut(s: string, atStart: bool)
    requires EndsWithComma(s)
    ensures SameBut(s, Dropped(s), atStart, true)
  {
    hide Trimmed;
    var t := Trimmed(s);
    var core, h := t[..|t| - 1], s[|t| - 1..];
    FillerParts(s);
    assert t == s[..|t|];
    assert h == [s[|t| - 1]] + s[|t|..];
    FillerJoin([','], s[|t|..]);
    assert s == "" + core + h;
    assert Cut(s, "", core, h) && Cut(Dropped(s), "", core, "");
  }

  lemma LedDroppedCut(s: string)
    requires EndsWithComma(s) && EndsWithComma(Lead(s))
    ensures SameBut(s, Dropped(Lead(s)), true, true)
  {
    hide Trimmed, Indent;
    BlankIsTrimmed(s);
    LeadStatus(s);
    var k, t := Indent(s), Trimmed(s);
    var f, core, h := s[..k], t[k..|t| - 1], s[|t| - 1..];
    FillerParts(s);
    FillerJoin(f, ", ");
    assert t == s[..|t|];
    assert h == [s[|t| - 1]] + s[|t|..];
    FillerJoin([','], s[|t|..]);
    assert t[k..] == Trimmed(s[k..]);
    assert Dropped(Lead(s)) == f + ", " + core;
    assert s == f + core + h;
    assert Cut(s, f, core, h) && Cut(Dropped(Lead(s)), f + ", ", core, "");
  }

  /** A line outside every spanning literal starts and, when more text follows, ends outside literals. */
  lemma FreeLine(lines: seq<string>, k: nat)
    requires k < |lines| && k !in SpanningLines(lines)
    ensures lines[k] != "" ==> LineStartMode(ModeAt(Code(false), lines, k))
    ensures (exists j :: k < j < |lines| && lines[j] != "") ==> EndFree(Code(false), lines, k, true)
  {
    hide BeginsInside, Join, EndMode, Next, ModeAt;
    assert !Spanned(lines, k);
    if lines[k] != "" {
      OutsideStarts(lines, k, k);
      ModeAtLineStart(lines, k);
    }
    if exists j :: k < j < |lines| && lines[j] != "" {
      var j :| k < j < |lines| && lines[j] != "";
      OutsideStarts(lines, k + 1, j);
    }
  }

  lemma OutsideStarts(lines: seq<string>, k: nat, j: nat)
    requires k <= j < |lines| && lines[j] != "" && !BeginsInside(lines, k)
    ensures !IsLiteralMode(ModeAt(Code(false), lines, k))
  {
    hide BeginsInside, Join, EndMode, Next, ModeAt;
    InteriorByMode(lines, k);
    assert lines[k..][j - k] == lines[j];
    JoinNonEmpty(lines[k..], j - k);
  }

  lemma {:induction false} JoinNonEmpty(lines: seq<string>, i: nat)
    requires i < |lines| && lines[i] != ""
    ensures Join(lines) != ""
    decreases i
  {
    if |lines| == 1 {
      assert i == 0;
    }
  }

  lemma NonBlank(s: string)
    requires !Skipped(s)
    ensures s != ""
  {}

  lemma AppliedSameLayout(lines: seq<string>)
    ensures SameLayout(Code(false), lines, LeadingCommaLines(lines), true)
  {
    hide Trimmed, Indent, SpanningLines, NextSql, PrevSql, EndsWithComma, Skipped, SameBut, EndMode, IsCommentOnly,
        LineStartMode;
    var fixed, out := SpanningLines(lines), LeadingCommaLines(lines);
    ApplyAll(lines, fixed);
    forall k: nat | k < |lines| ensures SameLayoutAt(Code(false), lines, out, true, k) {
      var atStart, atEnd := LineStartMode(ModeAt(Code(false), lines, k)), EndFree(Code(false), lines, k, true);
      var led, moves := Led(lines, fixed, k), Moves(lines, fixed, k);
      assert out[k] == Applied(lines, fixed, |lines|, k);
      if moves {
        MovesIsSql(lines, fixed, k);
        NonBlank(lines[NextSql(lines, k + 1)]);
        FreeLine(lines, k);
      }
      if led {
        MovesIsSql(lines, fixed, PrevSql(lines, k));
        Pairs(lines, PrevSql(lines, k), k);
        NonBlank(lines[k]);
        FreeLine(lines, k);
      }
      if led && moves {
        LeadStatus(lines[k]);
        LedDroppedCut(lines[k]);
      } else if led {
        LeadCut(lines[k], atEnd);
      } else if moves {
        DroppedCut(lines[k], atStart);
      } else {
        SameLine(lines[k], out[k], atStart, atEnd);
      }
    }
  }

  /** Moving commas to the front of lines keeps the text of every string literal, whatever the text. */
  lemma LeadingCommaKeepsLiterals(text: string)
    ensures LiteralTexts(LeadingComma(text)) == LiteralTexts(text)
  {
    hide Kept, Texts, Spans, SameLayout, LeadingCommaLines, Split;
    var lines := Split(text);
    AppliedSameLayout(lines);
    SameLayoutSameScan(Code(false), lines, LeadingCommaLines(lines), true);
    LiteralTextsAreKept(text);
    LiteralTextsAreKept(LeadingComma(text));
  }

  /** Two texts whose lines start in the same modes touch literals with the same lines. */
  lemma SameSpanning(a: seq<string>, b: seq<string>)
    requires |a| == |b| && forall i: nat :: i <= |a| ==> ModeAt(Code(false), a, i) == ModeAt(Code(false), b, i)
    requires a != [] && IsLiteralMode(ModeAt(Code(false), a, |a| - 1)) ==> (a[|a| - 1] == "") == (b[|b| - 1] == "")
    ensures SpanningLines(a) == SpanningLines(b) && InteriorLines(a) == InteriorLines(b)
  {
    hide BeginsInside, EndMode, Next, ModeAt;
    forall i: nat | i < |a| ensures BeginsInside(a, i) == BeginsInside(b, i) {
      InteriorByMode(a, i);
      InteriorByMode(b, i);
      TailEmpty(a, i);
      TailEmpty(b, i);
    }
  }

  lemma TailEmpty(lines: seq<string>, i: nat)
    requires i < |lines|
    ensures Join(lines[i..]) == "" <==> i == |lines| - 1 && lines[i] == ""
  {}

  // ---------------------------------------------------------------------------------------------
  // Back to trailing commas: what one step does
  // ---------------------------------------------------------------------------------------------

  /** Step `i` changes the end of a line that ends inside a literal. */
  predicate Breaks(lines: seq<string>, fixed: set<nat>, inside: set<nat>, i: nat)
    requires i < |lines|
  {
    && Handled(lines, fixed, i)
    && !EndsWithComma(lines[PrevSql(lines, i)])
    && PrevSql(lines, i) + 1 in inside
  }

  lemma UndoCut(s: string, atEnd: bool)
    requires StartsWithComma(s)
    ensures SameBut(s, Undo(s), true, atEnd)
  {
    hide Indent, Trimmed, Filler, SameBut;
    var f, rest := s[..Indent(s)], s[Indent(s) + 1..];
    var ws, core := rest[..Indent(rest)], rest[Indent(rest)..];
    FillerParts(s);
    FillerParts(rest);
    CommaIsFiller();
    FillerJoin(f, ",");
    FillerJoin(f + ",", ws);
    EmptyIsFiller();
    CommaAndBlanks(s, Indent(s), Indent(rest));
    CutAtStart(s, Undo(s), f + "," + ws, f, core, atEnd);
  }

  lemma CutAtStart(a: string, b: string, f: string, g: string, core: string, atEnd: bool)
    requires Filler(f) && Filler(g) && a == f + core + "" && b == g + core + ""
    ensures SameBut(a, b, true, atEnd)
  {
    assert Cut(a, f, core, "") && Cut(b, g, core, "");
  }

  lemma CommaAndBlanks(s: string, i: nat, n: nat)
    requires i + 1 + n <= |s| && s[i] == ','
    ensures var rest := s[i + 1..];
      s == s[..i] + "," + rest[..n] + rest[n..] + "" && s[..i] + rest[n..] == s[..i] + rest[n..] + ""
  {
    var rest := s[i + 1..];
    assert rest == rest[..n] + rest[n..];
    assert s == s[..i] + "," + rest;
  }

  lemma CommaBackCut(s: string, atStart: bool)
    ensures SameBut(s, Trimmed(s) + ",", atStart, true)
  {
    hide Trimmed;
    FillerParts(s);
    assert s == "" + Trimmed(s) + s[|Trimmed(s)|..];
    assert Cut(s, "", Trimmed(s), s[|Trimmed(s)|..]) && Cut(Trimmed(s) + ",", "", Trimmed(s), ",");
  }

  /** Between the line that gets a comma back and the end of the text there is something. */
  lemma BehindIsText(lines: seq<string>, p: nat, i: nat)
    requires p < i < |lines| && lines[i] != ""
    ensures p + 1 in InteriorLines(lines) <==> IsLiteralMode(ModeAt(Code(false), lines, p + 1))
  {
    hide BeginsInside, Join, EndMode, Next;
    InteriorByMode(lines, p + 1);
    assert lines[p + 1..][i - p - 1] == lines[i];
    JoinNonEmpty(lines[p + 1..], i - p - 1);
  }

  lemma NormStepSameLayout(lines: seq<string>, i: nat, strict: bool)
    requires i < |lines| && (strict ==> !Breaks(lines, SpanningLines(lines), InteriorLines(lines), i))
    ensures SameLayout(Code(false), lines, NormStep(lines, SpanningLines(lines), i), strict)
  {
    hide Trimmed, Indent, SpanningLines, InteriorLines, PrevSql, EndsWithComma, Skipped, SameBut, EndMode,
        IsCommentOnly, LineStartMode, Undo;
    var fixed, m := SpanningLines(lines), Code(false);
    var out := NormStep(lines, fixed, i);
    forall k: nat | k < |lines| ensures SameLayoutAt(m, lines, out, strict, k) {
      var atStart, atEnd := LineStartMode(ModeAt(m, lines, k)), EndFree(m, lines, k, strict);
      if Handled(lines, fixed, i) && k == i {
        FreeLine(lines, i);
        UndoCut(lines[i], atEnd);
      } else if Handled(lines, fixed, i) && k == PrevSql(lines, i) && out[k] != lines[k] {
        BehindIsText(lines, k, i);
        CommaBackCut(lines[k], atStart);
      } else {
        SameLine(lines[k], out[k], atStart, atEnd);
      }
    }
  }

  /** A step leaves every line's starting mode, and so which lines literals touch, as they were. */
  lemma NormStepSameModes(lines: seq<string>, i: nat)
    requires i < |lines|
    ensures var out := NormStep(lines, SpanningLines(lines), i);
            && (forall k: nat :: k <= |lines| ==> ModeAt(Code(false), lines, k) == ModeAt(Code(false), out, k))
            && SpanningLines(out) == SpanningLines(lines) && InteriorLines(out) == InteriorLines(lines)
  {
    hide SpanningLines, InteriorLines, SameLayout, EndMode, Undo, Trimmed, LineStartMode, Indent, ModeAt, Kept,
        PrevSql, EndsWithComma, IsCommentOnly, IsTag;
    var out, last := NormStep(lines, SpanningLines(lines), i), |lines| - 1;
    NormStepSameLayout(lines, i, false);
    SameLayoutSameScan(Code(false), lines, out, false);
    if Handled(lines, SpanningLines(lines), i) && i == last {
      FreeLine(lines, i);
      NotLiteral(ModeAt(Code(false), lines, i));
    }
    SameSpanning(lines, out);
  }

  lemma NotLiteral(m: Mode)
    requires LineStartMode(m)
    ensures !IsLiteralMode(m)
  {}

  lemma {:induction false} NormToSameModes(lines: seq<string>, i: nat)
    requires i <= |lines|
    ensures var now := NormTo(lines, SpanningLines(lines), i);
            && (forall k: nat :: k <= |lines| ==> ModeAt(Code(false), lines, k) == ModeAt(Code(false), now, k))
            && SpanningLines(now) == SpanningLines(lines) && InteriorLines(now) == InteriorLines(lines)
    decreases i
  {
    hide SpanningLines, InteriorLines, NormStep, ModeAt;
    if i > 0 {
      NormToSameModes(lines, i - 1);
      NormStepSameModes(NormTo(lines, SpanningLines(lines), i - 1), i - 1);
    }
  }

  // ---------------------------------------------------------------------------------------------
  // Line by line, what a change of filler does to the literals
  // ---------------------------------------------------------------------------------------------

  /** What line `k` contributes to the literals, when the scan begins in mode `m`. */
  function KeptLine(m: Mode, lines: seq<string>, k: nat): seq<(char, bool)>
    requires ModeOk(m) && k < |lines|
  {
    Kept(ModeAt(m, lines, k), lines[k] + if k + 1 < |lines| then "\n" else "")
  }

  lemma SameLayoutSameLineKept(lines: seq<string>, out: seq<string>, strict: bool, k: nat)
    requires SameLayout(Code(false), lines, out, strict) && k < |lines|
    ensures |lines| == |out|
    ensures (EndFree(Code(false), lines, k, true) || out[k] == lines[k] || strict
             || !EndFree(Code(false), lines, k, false)) ==>
              KeptLine(Code(false), lines, k) == KeptLine(Code(false), out, k)
  {
    hide EndMode, Kept, Next, SameBut, LineStartMode;
    SameLayoutSameScan(Code(false), lines, out, strict);
    assert SameLayoutAt(Code(false), lines, out, strict, k);
    var m := ModeAt(Code(false), lines, k);
    var atStart, atEnd := LineStartMode(m), EndFree(Code(false), lines, k, strict);
    SameScanLine(m, lines[k], out[k], atStart, atEnd);
    ModeAtNext(Code(false), lines, k);
    assert lines[k] + "" == lines[k] && out[k] + "" == out[k];
  }

  lemma {:induction false} ModeAtNext(m: Mode, lines: seq<string>, k: nat)
    requires k < |lines| && ModeOk(m)
    ensures ModeAt(m, lines, k + 1) == EndMode(ModeAt(m, lines, k), lines[k] + "\n")
    decreases k
  {
    hide EndMode;
    if k == 0 {
      assert ModeAt(EndMode(m, lines[0] + "\n"), lines[1..], 0) == EndMode(m, lines[0] + "\n");
    } else {
      ModeAtNext(EndMode(m, lines[0] + "\n"), lines[1..], k - 1);
    }
  }

  lemma {:induction false} FillerIsKept(m: Mode, f: string)
    requires ModeOk(m) && IsLiteralMode(m) && Filler(f)
    ensures Kept(m, f + "\n") == Flagged(f + "\n", false)
    decreases |f|
  {
    hide EndMode, Kept, Next;
    var s := f + "\n";
    FillerChar(m, s);
    Unfold(m, s);
    if f == "" {
      Unfold(m, s[1..]);
    } else {
      assert s[1..] == f[1..] + "\n";
      FillerIsKept(m, f[1..]);
      assert Flagged(s[..1], false) + Flagged(s[1..], false) == Flagged(s, false);
    }
  }

  lemma FlaggedInjective(a: string, b: string)
    requires Flagged(a, false) == Flagged(b, false)
    ensures a == b
  {
    assert |a| == |Flagged(a, false)| == |b|;
    forall i | 0 <= i < |a| ensures a[i] == b[i] {
      assert Flagged(a, false)[i] == Flagged(b, false)[i];
    }
  }

  lemma BehindMove(x: string, f: string, n: nat)
    requires n <= |x|
    ensures var s := x + f + "\n"; s[n..] == x[n..] + f + "\n" && s[..n] == x[..n]
  {
  }

  lemma SameRest(first: seq<(char, bool)>, a: seq<(char, bool)>, b: seq<(char, bool)>)
    ensures first + a == first + b ==> a == b
  {
    assert (first + a)[|first|..] == a && (first + b)[|first|..] == b;
  }

  /** Inside a literal, other filler at the end of a line is another literal. */
  lemma {:induction false} FillerMatters(m: Mode, x: string, f: string, g: string)
    requires ModeOk(m) && Filler(f) && Filler(g) && IsLiteralMode(EndMode(m, x + "\n"))
    requires Kept(m, x + f + "\n") == Kept(m, x + g + "\n")
    ensures f == g
    decreases |x|
  {
    hide EndMode, Kept, Next;
    var a, b, c := x + f + "\n", x + g + "\n", x + "\n";
    assert a == x + (f + "\n") && b == x + (g + "\n");
    if x == "" {
      assert c == "\n";
      NewlineOnly(m);
      assert a == f + "\n" && b == g + "\n";
      FillerIsKept(m, f);
      FillerIsKept(m, g);
      FlaggedInjective(a, b);
      assert a[..|a| - 1] == f && b[..|b| - 1] == g;
    } else {
      NextBeforeFiller(m, x, f + "\n");
      NextBeforeFiller(m, x, g + "\n");
      Unfold(m, a);
      Unfold(m, b);
      Unfold(m, c);
      var mv := Next(m, c);
      if mv.n <= |x| {
        BehindMove(x, f, mv.n);
        BehindMove(x, g, mv.n);
        assert c[mv.n..] == x[mv.n..] + "\n";
        SameRest(KeptBy(mv, x[..mv.n]), Kept(mv.mode, a[mv.n..]), Kept(mv.mode, b[mv.n..]));
        FillerMatters(mv.mode, x[mv.n..], f, g);
      } else {
        BackslashKept(x, f);
        BackslashKept(x, g);
        FlaggedInjective(a, b);
        assert a[|x|..|a| - 1] == f && b[|x|..|b| - 1] == g;
      }
    }
  }

  lemma BackslashKept(x: string, f: string)
    requires x != "" && Filler(f) && Next(InEString, x + "\n").n == |x| + 1
    ensures Kept(InEString, x + f + "\n") == Flagged(x + f + "\n", false)
  {
    hide EndMode, Kept;
    var s := x + f + "\n";
    assert x == "\\";
    Unfold(InEString, s);
    assert Next(InEString, s) == Move(2, InEString, true, false);
    if f == "" {
      assert s[2..] == "";
      Unfold(InEString, s[2..]);
      assert Flagged(s[..2], false) + [] == Flagged(s, false);
    } else {
      assert s[2..] == f[1..] + "\n";
      FillerIsKept(InEString, f[1..]);
      assert Flagged(s[..2], false) + Flagged(s[2..], false) == Flagged(s, false);
    }
  }

  // ---------------------------------------------------------------------------------------------
  // Literals and lines determine each other
  // ---------------------------------------------------------------------------------------------

  function Ungroup(texts: seq<string>): seq<(char, bool)> {
    if texts == [] then [] else Ungroup(texts[..|texts| - 1]) + Flagged(texts[|texts| - 1], true)
  }

  /** Literals never lose track of where one ends and the next begins. */
  lemma {:induction false} UngroupGroup(acc: seq<string>, kept: seq<(char, bool)>)
    requires (forall t <- acc :: t != "") && (acc != [] || kept == [] || kept[0].1)
    ensures Ungroup(Group(acc, kept)) == Ungroup(acc) + kept
    decreases |kept|
  {
    hide Ungroup;
    if kept != [] {
      var (c, opens) := kept[0];
      var acc' := if opens || acc == [] then acc + [[c]] else acc[|acc| - 1 := acc[|acc| - 1] + [c]];
      UngroupStep(acc, kept[0]);
      forall t <- acc' ensures t != "" {
        var j :| 0 <= j < |acc'| && acc'[j] == t;
        assert j < |acc| ==> acc[j] in acc;
      }
      UngroupGroup(acc', kept[1..]);
      assert kept == [kept[0]] + kept[1..];
    }
  }

  lemma UngroupStep(acc: seq<string>, kc: (char, bool))
    requires (forall t <- acc :: t != "") && (acc != [] || kc.1)
    ensures Ungroup(if kc.1 || acc == [] then acc + [[kc.0]] else acc[|acc| - 1 := acc[|acc| - 1] + [kc.0]])
            == Ungroup(acc) + [kc]
  {
    if kc.1 || acc == [] {
      assert (acc + [[kc.0]])[..|acc|] == acc;
      assert Flagged([kc.0], true) == [kc];
    } else {
      var last := acc[|acc| - 1];
      assert last in acc;
      assert acc[|acc| - 1 := last + [kc.0]][..|acc| - 1] == acc[..|acc| - 1];
      assert Flagged(last + [kc.0], true) == Flagged(last, true) + [kc];
    }
  }

  lemma {:induction false} FirstKeptOpens(m: Mode, s: string)
    requires ModeOk(m) && !IsLiteralMode(m)
    ensures Kept(m, s) == [] || Kept(m, s)[0].1
    decreases |s|
  {
    hide Next, Kept, EndMode;
    Unfold(m, s);
    if s != "" {
      var mv := Next(m, s);
      var head, rest := KeptBy(mv, s[..mv.n]), Kept(mv.mode, s[mv.n..]);
      if mv.literal {
        assert mv.opens;
        assert head[0].1 && (head + rest)[0] == head[0];
      } else {
        FirstKeptOpens(mv.mode, s[mv.n..]);
        assert head + rest == rest;
      }
    }
  }

  /** Texts with the same literals have the same kept characters. */
  lemma LiteralsDetermineKept(a: string, b: string)
    ensures LiteralTexts(a) == LiteralTexts(b) <==> Kept(Code(false), a) == Kept(Code(false), b)
  {
    hide Kept, Group, Texts, Spans;
    LiteralTextsAreKept(a);
    LiteralTextsAreKept(b);
    FirstKeptOpens(Code(false), a);
    FirstKeptOpens(Code(false), b);
    UngroupGroup([], Kept(Code(false), a));
    UngroupGroup([], Kept(Code(false), b));
    assert Ungroup([]) + Kept(Code(false), a) == Kept(Code(false), a);
    assert Ungroup([]) + Kept(Code(false), b) == Kept(Code(false), b);
  }

  ghost predicate NoNewline(kept: seq<(char, bool)>) { forall i :: 0 <= i < |kept| ==> kept[i].0 != '\n' }

  /** A line that ends inside a literal contributes its own characters, then its newline. */
  lemma {:induction false} LineKeptShape(m: Mode, s: string) returns (head: seq<(char, bool)>)
    requires ModeOk(m) && '\n' !in s && IsLiteralMode(EndMode(m, s + "\n"))
    ensures NoNewline(head) && Kept(m, s + "\n") == head + [('\n', false)]
    decreases |s|
  {
    hide Next, EndMode, Kept;
    var t := s + "\n";
    Unfold(m, t);
    if s == "" {
      NewlineOnly(m);
      assert t == "\n";
      head := [];
    } else {
      var mv := Next(m, t);
      if mv.n <= |s| {
        assert t[mv.n..] == s[mv.n..] + "\n" && t[..mv.n] == s[..mv.n];
        head := LineKeptShape(mv.mode, s[mv.n..]);
        head := KeptBy(mv, s[..mv.n]) + head;
      } else {
        NextBeforeFiller(m, s, "\n");
        assert t[mv.n..] == "" && t[..mv.n] == t;
        Unfold(mv.mode, "");
        head := Flagged(s, mv.opens);
        assert Flagged(t, mv.opens) == head + [('\n', mv.opens && |s| == 0)];
      }
    }
  }

  lemma {:induction false} FirstNewline(a: seq<(char, bool)>, x: seq<(char, bool)>, b: seq<(char, bool)>,
          y: seq<(char, bool)>)
    requires NoNewline(a) && NoNewline(b) && a + [('\n', false)] + x == b + [('\n', false)] + y
    ensures a == b
    decreases |a|
  {
    var l, r := a + [('\n', false)] + x, b + [('\n', false)] + y;
    assert l[0] == r[0];
    assert a != [] ==> a[0] == l[0];
    assert b != [] ==> b[0] == r[0];
    if a != [] {
      assert l[1..] == a[1..] + [('\n', false)] + x;
      assert r[1..] == b[1..] + [('\n', false)] + y;
      FirstNewline(a[1..], x, b[1..], y);
      assert a == [a[0]] + a[1..] && b == [b[0]] + b[1..];
    }
  }

  /** `Kept` of a whole text, line by line. */
  lemma {:induction false} KeptByLines(m: Mode, lines: seq<string>)
    requires ModeOk(m) && lines != []
    ensures Kept(m, Join(lines)) ==
            if |lines| == 1 then Kept(m, lines[0])
            else Kept(m, lines[0] + "\n") + Kept(EndMode(m, lines[0] + "\n"), Join(lines[1..]))
  {
    hide Kept, EndMode, Next;
    if |lines| > 1 {
      Compose(m, lines[0] + "\n", Join(lines[1..]));
    }
  }

  /** Lists of lines without newlines, equal in every line's mode, and in what every line contributes
      except where it ends inside a literal: if their texts hold the same literals, all lines
      contribute the same. */
  lemma {:induction false} SameKeptSameLines(m: Mode, a: seq<string>, b: seq<string>, k: nat)
    requires ModeOk(m) && |a| == |b| && k < |a|
    requires forall i: nat :: i <= |a| ==> ModeAt(m, a, i) == ModeAt(m, b, i)
    requires forall i :: 0 <= i < |a| ==> '\n' !in a[i] && '\n' !in b[i]
    requires forall i: nat :: i < |a| ==>
               KeptLine(m, a, i) == KeptLine(m, b, i) || (i + 1 < |a| && IsLiteralMode(ModeAt(m, a, i + 1)))
    requires Kept(m, Join(a)) == Kept(m, Join(b))
    ensures KeptLine(m, a, k) == KeptLine(m, b, k)
    decreases |a|
  {
    hide Kept, EndMode, Next;
    KeptByLines(m, a);
    KeptByLines(m, b);
    assert ModeAt(m, a, 0) == m == ModeAt(m, b, 0);
    assert a[0] + "" == a[0] && b[0] + "" == b[0];
    if |a| > 1 {
      var m' := EndMode(m, a[0] + "\n");
      var ta, tb := a[1..], b[1..];
      assert ModeAt(m, a, 1) == m' && ModeAt(m, b, 1) == EndMode(m, b[0] + "\n") == m';
      if KeptLine(m, a, 0) != KeptLine(m, b, 0) {
        var ha := LineKeptShape(m, a[0]);
        var hb := LineKeptShape(m, b[0]);
        FirstNewline(ha, Kept(m', Join(ta)), hb, Kept(m', Join(tb)));
      }
      assert Kept(m', Join(ta)) == Kept(m, Join(a))[|KeptLine(m, a, 0)|..];
      if k > 0 {
        forall i: nat | i <= |ta|
          ensures ModeAt(m', ta, i) == ModeAt(m, a, i + 1) && ModeAt(m', tb, i) == ModeAt(m, b, i + 1) {}
        assert forall i: nat :: i < |ta| ==>
            KeptLine(m', ta, i) == KeptLine(m, a, i + 1) && KeptLine(m', tb, i) == KeptLine(m, b, i + 1);
        SameKeptSameLines(m', ta, tb, k - 1);
      }
    }
  }

  // ---------------------------------------------------------------------------------------------
  // Back to trailing commas: the whole run
  // ---------------------------------------------------------------------------------------------

  /** Step `i` of the run changes the end of a line that ends inside a literal. */
  predicate BreaksAt(lines: seq<string>, i: nat)
    requires i < |lines|
  {
    Breaks(NormTo(lines, SpanningLines(lines), i), SpanningLines(lines), InteriorLines(lines), i)
  }

  /** Lines a step has not come to yet are as they were. */
  lemma {:induction false} NotYet(lines: seq<string>, fixed: set<nat>, i: nat, k: nat)
    requires i <= k < |lines|
    ensures NormTo(lines, fixed, i)[k] == lines[k]
    decreases i
  {
    hide Undo, Trimmed;
    if i > 0 {
      NotYet(lines, fixed, i - 1, k);
    }
  }

  lemma {:induction false} NormStepsKeep(lines: seq<string>, i: nat)
    requires i <= |lines| && forall k: nat :: k < i ==> !BreaksAt(lines, k)
    ensures Kept(Code(false), Join(NormTo(lines, SpanningLines(lines), i))) == Kept(Code(false), Join(lines))
    decreases i
  {
    hide Kept, SpanningLines, InteriorLines, NormStep, SameLayout, Breaks;
    if i > 0 {
      var before := NormTo(lines, SpanningLines(lines), i - 1);
      NormStepsKeep(lines, i - 1);
      NormToSameModes(lines, i - 1);
      assert !BreaksAt(lines, i - 1);
      NormStepSameLayout(before, i - 1, true);
      SameLayoutSameScan(Code(false), before, NormStep(before, SpanningLines(lines), i - 1), true);
    }
  }

  /** A broken line has a comma at its end that its literal did not have; nothing takes it away again. */
  predicate Broken(lines: seq<string>, now: seq<string>, k: nat)
    requires k < |lines| == |now|
  {
    && k + 1 < |lines| && k + 1 in InteriorLines(lines) && EndsWithComma(now[k])
    && KeptLine(Code(false), now, k) != KeptLine(Code(false), lines, k)
  }

  lemma CommaEnds(s: string)
    ensures EndsWithComma(s + ",") && Trimmed(s + ",") == s + ","
  {}

  /** What the rest of the run can do to a line that was gone through: put one comma at its end. */
  predicate EndOnly(t: string, u: string) {
    u == t || (!EndsWithComma(t) && !IsBlank(t) && u == Trimmed(t) + ",")
  }

  lemma {:induction false} LaterSteps(lines: seq<string>, fixed: set<nat>, k: nat, i: nat)
    requires k < i <= |lines|
    ensures EndOnly(NormTo(lines, fixed, k + 1)[k], NormTo(lines, fixed, i)[k])
    decreases i
  {
    hide Undo, Trimmed, IsBlank, IsCommentOnly, StartsWithComma, EndsWithComma;
    if i > k + 1 {
      LaterSteps(lines, fixed, k, i - 1);
      CommaEnds(Trimmed(NormTo(lines, fixed, k + 1)[k]));
    }
  }

  lemma LineKeptBreaks(lines: seq<string>, now: seq<string>, next: seq<string>, k: nat)
    requires k + 1 < |lines| == |now| == |next| && k + 1 in InteriorLines(lines)
    requires ModeAt(Code(false), now, k) == ModeAt(Code(false), next, k)
    requires ModeAt(Code(false), now, k + 1) == ModeAt(Code(false), lines, k + 1)
    requires KeptLine(Code(false), now, k) == KeptLine(Code(false), lines, k)
    requires !EndsWithComma(now[k]) && next[k] == Trimmed(now[k]) + ","
    ensures Broken(lines, next, k)
  {
    hide Kept, EndMode, InteriorLines, BeginsInside, Trimmed, Next;
    InteriorByMode(lines, k + 1);
    ModeAtNext(Code(false), now, k);
    var m, x := ModeAt(Code(false), now, k), Trimmed(now[k]);
    var ws := now[k][|x|..];
    assert now[k] == x + ws;
    FillerParts(now[k]);
    CommaIsFiller();
    CommaEnds(x);
    FillerBeforeNewline(m, x, ws);
    if KeptLine(Code(false), next, k) == KeptLine(Code(false), lines, k) {
      FillerMatters(m, x, ws, ",");
    }
  }

  /** What a step does to the lines: each contributes what it did, or is broken for good. */
  lemma NormStepLine(lines: seq<string>, i: nat, k: nat)
    requires i < |lines| && k < |lines|
    requires var now := NormTo(lines, SpanningLines(lines), i);
      KeptLine(Code(false), now, k) == KeptLine(Code(false), lines, k) || (k < i && Broken(lines, now, k))
    ensures var next := NormTo(lines, SpanningLines(lines), i + 1);
      KeptLine(Code(false), next, k) == KeptLine(Code(false), lines, k) || (k < i + 1 && Broken(lines, next, k))
    ensures var now, next := NormTo(lines, SpanningLines(lines), i), NormTo(lines, SpanningLines(lines), i + 1);
            k < i && Broken(lines, now, k) ==> Broken(lines, next, k)
    ensures BreaksAt(lines, i) && k == PrevSql(NormTo(lines, SpanningLines(lines), i), i) ==>
              Broken(lines, NormTo(lines, SpanningLines(lines), i + 1), k)
  {
    hide Kept, SpanningLines, InteriorLines, SameLayout, EndMode, Trimmed, Undo, PrevSql, EndsWithComma, ModeAt,
        IsCommentOnly, StartsWithComma;
    var fixed := SpanningLines(lines);
    var now, next := NormTo(lines, fixed, i), NormTo(lines, fixed, i + 1);
    NormToSameModes(lines, i);
    NormToSameModes(lines, i + 1);
    assert next == NormStep(now, fixed, i);
    if next[k] == now[k] {
      assert KeptLine(Code(false), next, k) == KeptLine(Code(false), now, k);
      if BreaksAt(lines, i) && k == PrevSql(now, i) {
        CommaEnds(Trimmed(now[k]));
      }
    } else if k == i {
      NormStepSameLayout(now, i, false);
      UndoLineKept(lines, i);
    } else {
      assert k == PrevSql(now, i) && !EndsWithComma(now[k]) && Handled(now, fixed, i);
      if k + 1 in InteriorLines(lines) {
        LineKeptBreaks(lines, now, next, k);
      } else {
        NormStepSameLayout(now, i, true);
        SameLayoutSameLineKept(now, next, true, k);
      }
    }
  }

  lemma UndoLineKept(lines: seq<string>, i: nat)
    requires i < |lines|
    ensures KeptLine(Code(false), NormTo(lines, SpanningLines(lines), i + 1), i)
        == KeptLine(Code(false), NormTo(lines, SpanningLines(lines), i), i)
  {
    hide Kept, SpanningLines, InteriorLines, EndMode, Trimmed, Undo, PrevSql, EndsWithComma, ModeAt, IsCommentOnly,
        Indent, SameBut, LineStartMode, Next;
    var now, next := NormTo(lines, SpanningLines(lines), i), NormTo(lines, SpanningLines(lines), i + 1);
    NormToSameModes(lines, i);
    NormToSameModes(lines, i + 1);
    if Handled(now, SpanningLines(lines), i) {
      var m := ModeAt(Code(false), now, i);
      FreeLine(now, i);
      UndoCut(now[i], false);
      SameScanLine(m, now[i], Undo(now[i]), true, false);
      assert now[i] + "" == now[i] && next[i] + "" == next[i];
    }
  }

  lemma {:induction false} NormToLine(lines: seq<string>, i: nat, k: nat)
    requires i <= |lines| && k < |lines|
    ensures var now := NormTo(lines, SpanningLines(lines), i);
            KeptLine(Code(false), now, k) == KeptLine(Code(false), lines, k) || (k < i && Broken(lines, now, k))
    decreases i
  {
    hide KeptLine, NormStep, SpanningLines, Broken;
    if i > 0 {
      NormToLine(lines, i - 1, k);
      NormStepLine(lines, i - 1, k);
    }
  }

  lemma {:induction false} StaysBroken(lines: seq<string>, i: nat, j: nat, k: nat)
    requires k < i <= j <= |lines| && Broken(lines, NormTo(lines, SpanningLines(lines), i), k)
    ensures Broken(lines, NormTo(lines, SpanningLines(lines), j), k)
    decreases j
  {
    hide KeptLine, NormStep, SpanningLines, Broken;
    if i < j {
      StaysBroken(lines, i, j - 1, k);
      NormStepLine(lines, j - 1, k);
    }
  }

  lemma {:induction false} NormToNoNewlines(lines: seq<string>, fixed: set<nat>, i: nat)
    requires i <= |lines| && forall k :: 0 <= k < |lines| ==> '\n' !in lines[k]
    ensures forall k :: 0 <= k < |lines| ==> '\n' !in NormTo(lines, fixed, i)[k]
    decreases i
  {
    hide Indent, PrevSql, EndsWithComma, IsCommentOnly;
    if i > 0 {
      NormToNoNewlines(lines, fixed, i - 1);
    }
  }

  lemma RunLine(lines: seq<string>, k: nat)
    requires k < |lines|
    ensures var last := TrailingCommaLines(lines);
            KeptLine(Code(false), lines, k) == KeptLine(Code(false), last, k)
            || (k + 1 < |lines| && IsLiteralMode(ModeAt(Code(false), lines, k + 1)))
  {
    hide Kept, SpanningLines, InteriorLines, ModeAt, NormTo, BeginsInside;
    NormToLine(lines, |lines|, k);
    if k + 1 < |lines| {
      InteriorByMode(lines, k + 1);
    }
  }

  lemma BrokenRunDiffers(lines: seq<string>, i: nat)
    requires i < |lines| && BreaksAt(lines, i) && forall k :: 0 <= k < |lines| ==> '\n' !in lines[k]
    ensures Kept(Code(false), Join(TrailingCommaLines(lines))) != Kept(Code(false), Join(lines))
  {
    hide Kept, SpanningLines, InteriorLines, ModeAt, NormTo, BeginsInside, KeptLine, EndsWithComma,
        IsCommentOnly, StartsWithComma, Join;
    var fixed, last := SpanningLines(lines), TrailingCommaLines(lines);
    var p := PrevSql(NormTo(lines, fixed, i), i);
    NormToLine(lines, i, p);
    NormStepLine(lines, i, p);
    StaysBroken(lines, i + 1, |lines|, p);
    NormToSameModes(lines, |lines|);
    NormToNoNewlines(lines, fixed, |lines|);
    forall k: nat | k < |lines|
      ensures KeptLine(Code(false), lines, k) == KeptLine(Code(false), last, k)
          || (k + 1 < |lines| && IsLiteralMode(ModeAt(Code(false), lines, k + 1)))
    {
      RunLine(lines, k);
    }
    if Kept(Code(false), Join(lines)) == Kept(Code(false), Join(last)) {
      SameKeptSameLines(Code(false), lines, last, p);
    }
  }

  // ---------------------------------------------------------------------------------------------
  // Back to trailing commas: told from the text
  // ---------------------------------------------------------------------------------------------

  /** Some line outside literals starts with a comma, and the SQL line above it has none at its end and ends
      inside a literal: what stands between the two looks like comments to the pass. */
  predicate BreaksALiteral(lines: seq<string>) {
    exists i: nat :: i < |lines| && Breaks(lines, SpanningLines(lines), InteriorLines(lines), i)
  }

  lemma {:induction false} IndentOfPrefix(a: string, s: string)
    requires a <= s && !IsBlank(a)
    ensures Indent(s) == Indent(a) && s[Indent(a)..][..|a| - Indent(a)] == a[Indent(a)..]
    decreases |a|
  {
    if a != "" && IsSpace(a[0]) {
      assert a[1..] <= s[1..];
      IndentOfPrefix(a[1..], s[1..]);
      assert a[Indent(a)..] == a[1..][Indent(a[1..])..];
      assert s[Indent(a)..] == s[1..][Indent(a[1..])..];
    }
  }

  /** A comma at its end does not make a comment of a line. */
  lemma CommaBackStatus(s: string)
    requires !Skipped(s)
    ensures !Skipped(Trimmed(s) + ",")
  {
    hide Trimmed, IsSpace, Indent;
    var t := Trimmed(s);
    BlankIsTrimmed(s);
    TrimmedIsNotBlank(s);
    IndentOfPrefix(t, s);
    IndentOfPrefix(t, t + ",");
    var k := Indent(t);
    assert (t + ",")[k..] == t[k..] + ",";
    CodeThenComma(s[k..], t[k..]);
  }

  /** A comma behind the start of some code makes no comment of it. */
  lemma CodeThenComma(rest: string, c: string)
    requires c != "" && |c| <= |rest| && rest[..|c|] == c
    ensures forall x, y :: y != ',' && StartsWith2(c + ",", x, y) ==> StartsWith2(rest, x, y)
  {
    assert rest[0] == c[0] && (|c| > 1 ==> rest[1] == c[1]);
  }

  lemma TrimmedIsNotBlank(s: string)
    requires Trimmed(s) != ""
    ensures !IsBlank(Trimmed(s))
  {
    hide IsSpace;
    BlankIsTrimmed(Trimmed(s));
    TrimmedAgain(s);
  }

  lemma TrimmedAgain(s: string)
    ensures Trimmed(Trimmed(s)) == Trimmed(s)
  {
  }

  /** A line without SQL is never changed. */
  lemma {:induction false} SkippedStays(lines: seq<string>, fixed: set<nat>, i: nat, k: nat)
    requires i <= |lines| && k < |lines| && Skipped(lines[k])
    ensures NormTo(lines, fixed, i)[k] == lines[k]
    decreases i
  {
    hide Undo, Trimmed, Indent;
    if i > 0 {
      SkippedStays(lines, fixed, i - 1, k);
    }
  }

  /** A line that hands back no comma of its own changes at its end only. */
  lemma EndStays(lines: seq<string>, fixed: set<nat>, i: nat, k: nat)
    requires i <= |lines| && k < |lines| && !Handled(NormTo(lines, fixed, k), fixed, k)
    ensures EndOnly(lines[k], NormTo(lines, fixed, i)[k])
  {
    hide Undo, Trimmed, IsBlank, IsCommentOnly, StartsWithComma, EndsWithComma;
    if i <= k {
      NotYet(lines, fixed, i, k);
    } else {
      NotYet(lines, fixed, k, k);
      LaterSteps(lines, fixed, k, i);
    }
  }

  lemma EndOnlyStatus(s: string, t: string)
    requires EndOnly(s, t)
    ensures !Skipped(s) ==> !Skipped(t)
    ensures EndsWithComma(s) ==> EndsWithComma(t)
  {
    hide Trimmed, Indent;
    if !Skipped(s) {
      CommaBackStatus(s);
    }
  }

  /** A comma that was put at the end of a line stays there. */
  lemma {:induction false} CommaStays(lines: seq<string>, fixed: set<nat>, p: nat, i: nat, j: nat)
    requires p < i <= j <= |lines| && EndsWithComma(NormTo(lines, fixed, i)[p])
    ensures EndsWithComma(NormTo(lines, fixed, j)[p])
    decreases j
  {
    hide Undo, Trimmed, Indent, IsCommentOnly, EndsWithComma;
    if i < j {
      CommaStays(lines, fixed, p, i, j - 1);
    }
  }

  /** Lines without SQL hand nothing to a line that a literal touches. */
  lemma {:induction false} GapDoesNothing(lines: seq<string>, fixed: set<nat>, p: nat, i: nat)
    requires p < i <= |lines| && p in fixed && forall k :: p < k < i ==> Skipped(lines[k])
    ensures NormTo(lines, fixed, i)[p] == lines[p]
    decreases i
  {
    hide Undo, Trimmed, Indent, EndsWithComma;
    if i == p + 1 {
      NotYet(lines, fixed, p, p);
    } else {
      GapDoesNothing(lines, fixed, p, i - 1);
      NotYet(lines, fixed, i - 1, i - 1);
    }
  }

  /** If all lines between hold no SQL, the run finds the line above that the text has there. */
  lemma SameAbove(lines: seq<string>, fixed: set<nat>, p: nat, i: nat)
    requires p < i <= |lines| && p in fixed && !Skipped(lines[p]) && forall k :: p < k < i ==> Skipped(lines[k])
    ensures PrevSql(NormTo(lines, fixed, i), i) == p == PrevSql(lines, i)
  {
    hide NormTo, Skipped, PrevSql;
    var now := NormTo(lines, fixed, i);
    EndStaysFixed(lines, fixed, i, p);
    EndOnlyStatus(lines[p], now[p]);
    forall k: nat | p < k < i ensures Skipped(now[k]) {
      SkippedStays(lines, fixed, i, k);
    }
    PrevOfNext(now, p, i);
    PrevOfNext(lines, p, i);
  }

  lemma EndStaysFixed(lines: seq<string>, fixed: set<nat>, i: nat, k: nat)
    requires i <= |lines| && k < |lines| && k in fixed
    ensures EndOnly(lines[k], NormTo(lines, fixed, i)[k])
  {
    hide NormTo, EndOnly;
    EndStays(lines, fixed, i, k);
  }

  /** The first SQL line below a line that a literal touches gives it a comma, or is still there. */
  lemma FirstBelow(lines: seq<string>, fixed: set<nat>, p: nat, k: nat, i: nat)
    requires p < k < i <= |lines| && p in fixed && !Skipped(lines[p]) && !Skipped(lines[k])
    requires forall j :: p < j < k ==> Skipped(lines[j])
    ensures EndsWithComma(NormTo(lines, fixed, i)[p]) || !Skipped(NormTo(lines, fixed, i)[k])
  {
    hide NormTo, Skipped, PrevSql, Undo, Trimmed, EndsWithComma;
    var now := NormTo(lines, fixed, k);
    if Handled(now, fixed, k) {
      SameAbove(lines, fixed, p, k);
      HandsOver(lines, fixed, k);
      CommaStays(lines, fixed, p, k + 1, i);
    } else {
      EndStays(lines, fixed, i, k);
      EndOnlyStatus(lines[k], NormTo(lines, fixed, i)[k]);
    }
  }

  lemma HandsOver(lines: seq<string>, fixed: set<nat>, k: nat)
    requires k < |lines| && Handled(NormTo(lines, fixed, k), fixed, k)
    ensures EndsWithComma(NormTo(lines, fixed, k + 1)[PrevSql(NormTo(lines, fixed, k), k)])
  {
    hide Undo, Trimmed, Indent, IsCommentOnly, EndsWithComma;
    var now := NormTo(lines, fixed, k);
    CommaEnds(Trimmed(now[PrevSql(now, k)]));
  }

  /** A step breaks a literal in the run exactly if its line tells so in the text. */
  lemma BreaksIsOnInput(lines: seq<string>, i: nat)
    requires i < |lines|
    ensures BreaksAt(lines, i) <==> Breaks(lines, SpanningLines(lines), InteriorLines(lines), i)
  {
    hide NormTo, PrevSql, Skipped, EndsWithComma, BeginsInside;
    var fixed, now := SpanningLines(lines), NormTo(lines, SpanningLines(lines), i);
    NotYet(lines, fixed, i, i);
    if Breaks(lines, fixed, InteriorLines(lines), i) {
      var p := PrevSql(lines, i);
      PrevIsSql(lines, i);
      SameAbove(lines, fixed, p, i);
      GapDoesNothing(lines, fixed, p, i);
    }
    if BreaksAt(lines, i) {
      var p := PrevSql(now, i);
      PrevIsSql(now, i);
      StillSql(lines, fixed, i, p);
      EndStaysFixed(lines, fixed, i, p);
      EndOnlyStatus(lines[p], now[p]);
      HandledIsSql(now, fixed, i);
      GapIsSkipped(lines, fixed, p, i);
      SameAbove(lines, fixed, p, i);
    }
  }

  lemma PrevIsSql(lines: seq<string>, i: nat)
    requires i <= |lines| && PrevSql(lines, i) >= 0
    ensures PrevSql(lines, i) < i && !Skipped(lines[PrevSql(lines, i)])
    ensures forall k :: PrevSql(lines, i) < k < i ==> Skipped(lines[k])
  {
  }

  lemma StillSql(lines: seq<string>, fixed: set<nat>, i: nat, p: nat)
    requires i <= |lines| && p < |lines| && !Skipped(NormTo(lines, fixed, i)[p])
    ensures !Skipped(lines[p])
  {
    hide NormTo, Skipped;
    if Skipped(lines[p]) {
      SkippedStays(lines, fixed, i, p);
    }
  }

  lemma HandledIsSql(lines: seq<string>, fixed: set<nat>, i: nat)
    requires i < |lines| && Handled(lines, fixed, i)
    ensures !Skipped(lines[i])
  {
  }

  lemma GapIsSkipped(lines: seq<string>, fixed: set<nat>, p: nat, i: nat)
    requires p < i < |lines| && p in fixed && !Skipped(lines[p]) && !Skipped(lines[i])
    requires var now := NormTo(lines, fixed, i);
      !EndsWithComma(now[p]) && forall k :: p < k < i ==> Skipped(now[k])
    ensures forall k :: p < k < i ==> Skipped(lines[k])
  {
    hide NormTo, Skipped, EndsWithComma;
    var first := NextSql(lines, p + 1);
    NextIsFirst(lines, p + 1, i);
    if first < i {
      FirstBelow(lines, fixed, p, first, i);
    }
  }

  lemma {:induction false} NextIsFirst(lines: seq<string>, j: nat, i: nat)
    requires j <= i < |lines| && !Skipped(lines[i])
    ensures NextSql(lines, j) <= i
    decreases i - j
  {
    hide Skipped;
    if j < i {
      NextIsFirst(lines, j + 1, i);
    }
  }

  /** Moving commas back keeps the string literals of a text exactly if no line outside literals would hand
      its comma to a line that ends inside one. */
  lemma TrailingCommaKeepsLiteralsIff(text: string)
    ensures LiteralTexts(TrailingComma(text)) == LiteralTexts(text) <==> !BreaksALiteral(Split(text))
  {
    hide Kept, Texts, Spans, NormTo, BreaksAt, Breaks, Split, TrailingCommaLines;
    var lines := Split(text);
    LiteralsDetermineKept(TrailingComma(text), text);
    forall i: nat | i < |lines|
      ensures BreaksAt(lines, i) <==> Breaks(lines, SpanningLines(lines), InteriorLines(lines), i)
    {
      BreaksIsOnInput(lines, i);
    }
    if BreaksALiteral(lines) {
      var i: nat :| i < |lines| && Breaks(lines, SpanningLines(lines), InteriorLines(lines), i);
      BrokenRunDiffers(lines, i);
    } else {
      RunKeeps(lines);
    }
  }

  lemma RunKeeps(lines: seq<string>)
    requires forall i: nat :: i < |lines| ==> !BreaksAt(lines, i)
    ensures Kept(Code(false), Join(TrailingCommaLines(lines))) == Kept(Code(false), Join(lines))
  {
    hide Kept, NormTo, BreaksAt;
    NormStepsKeep(lines, |lines|);
  }

  /** The pass can break a literal: a line inside it that looks like a comment is skipped. */
  lemma TrailingCommaCanBreakALiteral()
    ensures var text := "'\n--'\n,"; LiteralTexts(TrailingComma(text)) != LiteralTexts(text)
  {
    hide Kept, NormTo, Texts, Spans, Next, EndMode, BeginsInside;
    var lines := ["'", "--'", ","];
    BrokenLines();
    assert Join(lines) == "'\n--'\n," by {
      assert lines[1..] == ["--'", ","] && lines[1..][1..] == [","];
    }
    SplitJoin(lines);
    TrailingCommaKeepsLiteralsIff("'\n--'\n,");
    assert Breaks(lines, SpanningLines(lines), InteriorLines(lines), 2);
  }

  lemma BrokenLines()
    ensures var lines := ["'", "--'", ","]; Breaks(lines, SpanningLines(lines), InteriorLines(lines), 2)
  {
    hide Kept, Texts, Spans, Next, EndMode, BeginsInside, NormTo;
    var lines := ["'", "--'", ","];
    BrokenModes();
    assert lines[0] + "\n" == "'\n" && lines[1] + "\n" == "--'\n";
    ModeAtNext(Code(false), lines, 0);
    ModeAtNext(Code(false), lines, 1);
    InteriorByMode(lines, 1);
    InteriorByMode(lines, 2);
    JoinNonEmpty(lines[1..], 0);
    PrevOfComma(lines);
    assert 2 !in SpanningLines(lines);
  }

  lemma BrokenModes()
    ensures EndMode(Code(false), "'\n") == InPlain && EndMode(InPlain, "--'\n") == Code(false)
  {
    hide EndMode;
    MoveTo(Code(false), "'\n", 1, InPlain, "\n");
    NewlineOnly(InPlain);
    MoveTo(InPlain, "--'\n", 1, InPlain, "-'\n");
    MoveTo(InPlain, "-'\n", 1, InPlain, "'\n");
    MoveTo(InPlain, "'\n", 1, Code(false), "\n");
    NewlineOnly(Code(false));
  }

  lemma PrevOfComma(lines: seq<string>)
    requires lines == ["'", "--'", ","]
    ensures PrevSql(lines, 2) == 0 && StartsWithComma(lines[2]) && !IsCommentOnly(lines[2]) && !EndsWithComma(lines[0])
  {
    assert "--'"[0..] == "--'" && "'"[0..] == "'" && ","[0..] == ",";
    assert Indent("--'") == 0 && Indent("'") == 0 && Indent(",") == 0;
    assert Skipped(lines[1]) && !Skipped(lines[0]);
    assert PrevSql(lines, 1) == 0;
  }
}
