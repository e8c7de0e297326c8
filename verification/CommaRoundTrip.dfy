/** The two comma passes against each other (`CommasComeBackIff`), and the first one against itself
    (`LeadingCommaTwiceIff`). */
module CommaRoundTrip {
  import opened SqlSpans
  import opened Layout
  import opened CommaStyle
  import opened CommaLiterals

  /** A comma that moves stands directly behind text: no whitespace on either side of it, and no other
      comma before it. */
  predicate TidyComma(s: string) {
    |s| >= 2 && s[|s| - 1] == ',' && s[|s| - 2] != ',' && !IsSpace(s[|s| - 2])
  }

  /** Commas that move are tidy, and a line that starts with a comma of its own (outside multi-line
      literals) receives one as well or has no SQL above it. */
  predicate Tidy(lines: seq<string>, fixed: set<nat>) {
    forall k: nat :: k < |lines| ==> TidyLine(lines, fixed, k)
  }

  predicate TidyTo(lines: seq<string>, fixed: set<nat>, n: nat) {
    forall k: nat :: k < n && k < |lines| ==> TidyLine(lines, fixed, k)
  }

  predicate TidyLine(lines: seq<string>, fixed: set<nat>, k: nat)
    requires k < |lines|
  {
    && (Moves(lines, fixed, k) ==> TidyComma(lines[k]))
    && (StartsWithComma(lines[k]) && k !in fixed ==> Led(lines, fixed, k) || PrevSql(lines, k) < 0)
  }

  /** `s` without its last character. */
  function Cut1(s: string): string
    requires s != ""
  {
    s[..|s| - 1]
  }

  lemma TrimmedIs(s: string)
    requires s != "" && !IsSpace(s[|s| - 1])
    ensures Trimmed(s) == s
  {}

  /** What a tidy comma leaves behind. */
  lemma TidyCut(s: string)
    requires TidyComma(s) && EndsWithComma(s)
    ensures Dropped(s) == Cut1(s) && !EndsWithComma(Cut1(s)) && Trimmed(Cut1(s)) == Cut1(s)
    ensures Trimmed(Cut1(s)) + "," == s
    ensures !IsBlank(s) && !IsBlank(Cut1(s)) && Indent(Cut1(s)) == Indent(s)
    ensures IsCommentOnly(Cut1(s)) ==> IsCommentOnly(s)
    ensures StartsWithComma(Cut1(s)) ==> StartsWithComma(s)
  {
    hide Indent, Trimmed, IsSpace;
    TrimmedIs(s);
    TrimmedIs(Cut1(s));
    BlankIsTrimmed(s);
    BlankIsTrimmed(Cut1(s));
    IndentOfPrefix(Cut1(s), s);
    assert Cut1(s) + "," == s;
  }

  lemma OneSpace()
    ensures AllSpace(" ")
  {}

  /** A line that received a comma gives it back unchanged. */
  lemma UndoLead(s: string)
    requires !IsBlank(s)
    ensures StartsWithComma(Lead(s)) && Undo(Lead(s)) == s
  {
    hide Indent, IsSpace, AllSpace, Skipped;
    LeadIndent(s);
    var k := Indent(s);
    var rest := Lead(s)[k + 1..];
    assert rest == " " + s[k..];
    IndentAfter(s, k);
    OneSpace();
    IndentOf(" ", s[k..]);
    assert rest[1..] == s[k..];
    assert Lead(s)[..k] == s[..k];
  }

  lemma DroppedLead(s: string)
    requires TidyComma(s) && EndsWithComma(s)
    ensures EndsWithComma(Lead(s)) && Dropped(Lead(s)) == Lead(Cut1(s))
  {
    hide Indent, Trimmed, IsBlank;
    LeadStatus(s);
    TidyCut(s);
    BlankIsTrimmed(s);
    TrimmedIs(s);
    assert Trimmed(s[Indent(s)..]) == s[Indent(s)..];
    assert Cut1(s)[..Indent(s)] == s[..Indent(s)];
  }

  // ---------------------------------------------------------------------------------------------
  // There and back
  // ---------------------------------------------------------------------------------------------

  /** Line `k` while the commas are moved back, once the first `i` lines have been gone through. */
  function Returning(lines: seq<string>, fixed: set<nat>, i: nat, k: nat): string
    requires k < |lines|
  {
    var s := if Moves(lines, fixed, k) && NextSql(lines, k + 1) >= i && lines[k] != "" then Cut1(lines[k])
             else lines[k];
    if Led(lines, fixed, k) && k >= i then Lead(s) else s
  }

  /** The first `n` lines are as they are once the first `i` have been gone through. */
  predicate ReturningTo(now: seq<string>, lines: seq<string>, fixed: set<nat>, i: nat, n: nat) {
    |now| == |lines| && forall k: nat :: k < n && k < |lines| ==> now[k] == Returning(lines, fixed, i, k)
  }

  /** Whether a line holds SQL does not change on the way. */
  lemma ReturningStatus(lines: seq<string>, fixed: set<nat>, i: nat, k: nat)
    requires k < |lines| && TidyLine(lines, fixed, k)
    ensures Skipped(Returning(lines, fixed, i, k)) == Skipped(lines[k])
    ensures k < i ==> (StartsWithComma(Returning(lines, fixed, i, k)) ==> StartsWithComma(lines[k]))
  {
    hide Lead, Trimmed, Indent, NextSql, PrevSql;
    if Moves(lines, fixed, k) {
      TidyCut(lines[k]);
      SkippedIs(lines[k]);
      LeadStatus(Cut1(lines[k]));
    }
    LeadStatus(lines[k]);
  }

  lemma AppliedIsReturning(lines: seq<string>, fixed: set<nat>, n: nat)
    requires TidyTo(lines, fixed, n)
    ensures ReturningTo(AppliedAll(lines, fixed, |lines|), lines, fixed, 0, n)
  {
    hide Lead, Trimmed, Indent, NextSql, PrevSql, Dropped;
    forall k: nat | k < n && k < |lines| ensures Applied(lines, fixed, |lines|, k) == Returning(lines, fixed, 0, k) {
      assert TidyLine(lines, fixed, k);
      if Moves(lines, fixed, k) {
        TidyCut(lines[k]);
        DroppedLead(lines[k]);
      }
    }
  }

  lemma SamePrev(lines: seq<string>, fixed: set<nat>, now: seq<string>, i: nat)
    requires i <= |lines| && TidyTo(lines, fixed, i) && ReturningTo(now, lines, fixed, i, i)
    ensures PrevSql(now, i) == PrevSql(lines, i)
  {
    hide Returning, Skipped, TidyLine;
    forall k: nat | k < i ensures Skipped(now[k]) == Skipped(lines[k]) {
      ReturningStatus(lines, fixed, i, k);
    }
    SamePrevSql(now, lines, i);
  }

  /** In the moved text, exactly the lines that received a comma hand one back. */
  lemma HandledIsLed(lines: seq<string>, fixed: set<nat>, now: seq<string>, i: nat)
    requires i < |lines| && TidyTo(lines, fixed, i + 1) && ReturningTo(now, lines, fixed, i, i + 1)
    ensures Handled(now, fixed, i) <==> Led(lines, fixed, i)
    ensures PrevSql(now, i) == PrevSql(lines, i)
  {
    hide Lead, Trimmed, Indent, NextSql, PrevSql, Dropped, Undo, StartsWithComma, IsCommentOnly, EndsWithComma, IsBlank;
    SamePrev(lines, fixed, now, i);
    ReturningStatus(lines, fixed, i, i);
    assert TidyLine(lines, fixed, i) && now[i] == Returning(lines, fixed, i, i);
    if Led(lines, fixed, i) {
      MovesIsSql(lines, fixed, PrevSql(lines, i));
      Pairs(lines, PrevSql(lines, i), i);
      LeadStatus(if Moves(lines, fixed, i) && NextSql(lines, i + 1) >= i && lines[i] != "" then Cut1(lines[i])
                 else lines[i]);
    } else if Moves(lines, fixed, i) {
      TidyCut(lines[i]);
    }
  }

  /** Only the line gone through and the line above that gave it its comma change. */
  lemma ReturningElsewhere(lines: seq<string>, fixed: set<nat>, i: nat, k: nat)
    requires i < |lines| && k < |lines| && (k != i || !Led(lines, fixed, i))
    requires !(Led(lines, fixed, i) && k == PrevSql(lines, i))
    ensures Returning(lines, fixed, i, k) == Returning(lines, fixed, i + 1, k)
  {
    hide Lead, Trimmed, Indent, NextSql, PrevSql, Dropped, EndsWithComma, Skipped;
    if Moves(lines, fixed, k) && NextSql(lines, k + 1) == i {
      MovesIsSql(lines, fixed, k);
    }
  }

  lemma ReturningPair(lines: seq<string>, fixed: set<nat>, i: nat)
    requires i < |lines| && TidyTo(lines, fixed, i + 1) && Led(lines, fixed, i)
    ensures var p := PrevSql(lines, i); var now := Returning(lines, fixed, i, p);
            !EndsWithComma(now) && Trimmed(now) + "," == Returning(lines, fixed, i + 1, p)
    ensures var now := Returning(lines, fixed, i, i);
      StartsWithComma(now) && Undo(now) == Returning(lines, fixed, i + 1, i)
  {
    hide Lead, Trimmed, Indent, NextSql, Dropped, Undo, StartsWithComma, IsCommentOnly, EndsWithComma, IsBlank,
        TidyComma;
    var p := PrevSql(lines, i);
    MovesIsSql(lines, fixed, p);
    Pairs(lines, p, i);
    assert TidyLine(lines, fixed, p) && TidyLine(lines, fixed, i);
    TidyCut(lines[p]);
    SkippedIs(lines[p]);
    SkippedIs(lines[i]);
    if Moves(lines, fixed, i) {
      TidyCut(lines[i]);
      UndoLead(Cut1(lines[i]));
    }
    UndoLead(lines[i]);
  }

  lemma ReturningStep(lines: seq<string>, fixed: set<nat>, now: seq<string>, i: nat, n: nat)
    requires i < n <= |lines| && TidyTo(lines, fixed, n) && ReturningTo(now, lines, fixed, i, n)
    ensures ReturningTo(NormStep(now, fixed, i), lines, fixed, i + 1, n)
  {
    hide Undo, StartsWithComma, EndsWithComma, Handled, Returning, Led, TidyLine, Trimmed;
    HandledIsLed(lines, fixed, now, i);
    if Led(lines, fixed, i) {
      LedHasPrev(lines, fixed, i);
      ReturningPair(lines, fixed, i);
    }
    forall k: nat | k < n ensures NormStep(now, fixed, i)[k] == Returning(lines, fixed, i + 1, k) {
      assert now[k] == Returning(lines, fixed, i, k);
      if !Led(lines, fixed, i) || (k != i && k != PrevSql(lines, i)) {
        ReturningElsewhere(lines, fixed, i, k);
      }
    }
  }

  lemma LedHasPrev(lines: seq<string>, fixed: set<nat>, i: nat)
    requires i < |lines| && Led(lines, fixed, i)
    ensures PrevSql(lines, i) >= 0
  {}

  lemma {:induction false} ReturningRun(lines: seq<string>, fixed: set<nat>, i: nat, n: nat)
    requires i <= n <= |lines| && TidyTo(lines, fixed, n)
    ensures ReturningTo(NormTo(AppliedAll(lines, fixed, |lines|), fixed, i), lines, fixed, i, n)
    decreases i
  {
    hide NormStep, Returning, TidyLine, AppliedAll;
    if i == 0 {
      AppliedIsReturning(lines, fixed, n);
    } else {
      ReturningRun(lines, fixed, i - 1, n);
      ReturningStep(lines, fixed, NormTo(AppliedAll(lines, fixed, |lines|), fixed, i - 1), i - 1, n);
    }
  }

  lemma ReturnedIsOriginal(lines: seq<string>, fixed: set<nat>, now: seq<string>)
    requires ReturningTo(now, lines, fixed, |lines|, |lines|)
    ensures now == lines
  {
    hide NextSql, PrevSql, EndsWithComma, IsCommentOnly;
    forall k: nat | k < |lines| ensures Returning(lines, fixed, |lines|, k) == lines[k] {}
  }

  /** The lines literals touch are the same before and after commas are moved. */
  lemma SpanningAfterApply(lines: seq<string>)
    requires lines != []
    ensures SpanningLines(LeadingCommaLines(lines)) == SpanningLines(lines)
  {
    hide Kept, SameLayout, SpanningLines, InteriorLines, EndMode, ModeAt, Lead, Dropped, Trimmed, Indent, PrevSql,
        EndsWithComma, IsCommentOnly;
    var out, last := LeadingCommaLines(lines), |lines| - 1;
    AppliedSameLayout(lines);
    SameLayoutSameScan(Code(false), lines, out, true);
    ApplyAll(lines, SpanningLines(lines));
    LastLine(lines, SpanningLines(lines));
    SameSpanning(lines, out);
  }

  lemma LastLine(lines: seq<string>, fixed: set<nat>)
    requires lines != []
    ensures var last := |lines| - 1; Applied(lines, fixed, |lines|, last) == "" <==> lines[last] == ""
  {
    hide Trimmed, Indent, PrevSql, EndsWithComma, IsCommentOnly, IsBlank;
    var last := |lines| - 1;
    assert !Moves(lines, fixed, last);
    if Led(lines, fixed, last) {
      LeadStatus(lines[last]);
      NonBlank(lines[last]);
    }
  }

  lemma ApplyNoNewlines(lines: seq<string>, fixed: set<nat>)
    requires forall k :: 0 <= k < |lines| ==> '\n' !in lines[k]
    ensures forall k :: 0 <= k < |lines| ==> '\n' !in AppliedAll(lines, fixed, |lines|)[k]
  {
    hide PrevSql, NextSql, Indent, Trimmed, Lead, Dropped, EndsWithComma, Skipped, IsCommentOnly;
    forall k: nat | k < |lines| ensures '\n' !in Applied(lines, fixed, |lines|, k) {
      LeadStatus(lines[k]);
      LeadNoNewline(lines[k]);
      if Moves(lines, fixed, k) {
        DroppedNoNewline(lines[k]);
        DroppedNoNewline(Lead(lines[k]));
      }
    }
  }

  lemma LeadNoNewline(s: string)
    requires '\n' !in s
    ensures '\n' !in Lead(s)
  {
    hide Indent;
  }

  lemma DroppedNoNewline(s: string)
    requires '\n' !in s && EndsWithComma(s)
    ensures '\n' !in Dropped(s)
  {
    hide Trimmed;
    assert Dropped(s) == s[..|Dropped(s)|];
  }

  /** Moving commas to the front of lines and back is the identity on tidy texts, across comment lines,
      blank lines and multi-line literals. */
  lemma CommasThereAndBack(text: string)
    requires Tidy(Split(text), SpanningLines(Split(text)))
    ensures TrailingComma(LeadingComma(text)) == text
  {
    hide Split, SpanningLines, NormTo, TidyLine, Applied, Returning;
    var lines, fixed := Split(text), SpanningLines(Split(text));
    BothPasses(text);
    ReturningRun(lines, fixed, |lines|, |lines|);
    ReturnedIsOriginal(lines, fixed, ThereAndBack(lines, fixed));
  }

  /** The lines after both passes. */
  function ThereAndBack(lines: seq<string>, fixed: set<nat>): seq<string> {
    NormTo(AppliedAll(lines, fixed, |lines|), fixed, |lines|)
  }

  lemma BothPasses(text: string)
    ensures TrailingComma(LeadingComma(text)) == Join(ThereAndBack(Split(text), SpanningLines(Split(text))))
  {
    hide Split, SpanningLines, NormTo, ApplyFrom, Applied;
    var lines, fixed := Split(text), SpanningLines(Split(text));
    ApplyAll(lines, fixed);
    ApplyNoNewlines(lines, fixed);
    SplitJoin(LeadingCommaLines(lines));
    SpanningAfterApply(lines);
  }

  /** In particular on every text in which no line starts with a comma and every comma at the end of a line
      is tidy. */
  lemma PlainCommasComeBack(text: string)
    requires forall line <- Split(text) :: !StartsWithComma(line) && (EndsWithComma(line) ==> TidyComma(line))
    ensures TrailingComma(LeadingComma(text)) == text
  {
    hide StartsWithComma, EndsWithComma, TidyComma, SpanningLines;
    var lines, fixed := Split(text), SpanningLines(Split(text));
    forall k: nat | k < |lines| ensures TidyLine(lines, fixed, k) {
      assert lines[k] in lines;
    }
    CommasThereAndBack(text);
  }

  // ---------------------------------------------------------------------------------------------
  // Only tidy texts come back
  // ---------------------------------------------------------------------------------------------

  lemma UndoIsShorter(s: string)
    requires StartsWithComma(s)
    ensures |Undo(s)| < |s|
  {
  }

  lemma CommaBehind(t: string)
    requires t != "" && t[|t| - 1] == ','
    ensures EndsWithComma(t)
  {
    TrimmedIs(t);
  }

  lemma TrimmedWhole(t: string)
    requires |Trimmed(t)| == |t| && !IsBlank(t)
    ensures Trimmed(t) == t && t != "" && !IsSpace(t[|t| - 1])
  {
    hide IsSpace, AllSpace;
    EmptyLine();
  }

  /** A line that lost a comma at its end and came back had a tidy one, and lost nothing else. */
  lemma MovedComesBack(s: string, t: string)
    requires EndsWithComma(s) && (t == Dropped(s) || |t| < |Dropped(s)|) && EndOnly(t, s)
    ensures TidyComma(s) && t == Dropped(s)
  {
    hide IsSpace, AllSpace, Trimmed, IsBlank;
    assert |Dropped(s)| < |Trimmed(s)| <= |s| && |Trimmed(t)| <= |t|;
    assert s == Trimmed(t) + "," && |Trimmed(t)| == |t|;
    TrimmedWhole(t);
    if t[|t| - 1] == ',' {
      CommaBehind(t);
    }
  }

  /** A text that is the same with a comma in front as with one behind ends in a comma. */
  lemma CommaAround(t: string, k: nat)
    requires k < |t| && "," + t[k..] == t[k..] + ","
    ensures t[|t| - 1] == ','
  {
    var r := t[k..];
    assert ("," + r)[|r|] == (r + ",")[|r|];
  }

  /** A line that handed back a comma of its own is not what it was. */
  lemma UndoneDiffers(s: string)
    requires StartsWithComma(s)
    ensures !EndOnly(Undo(s), s)
  {
    hide IsSpace, AllSpace, Trimmed;
    UndoIsShorter(s);
    var t, k := Undo(s), Indent(s);
    assert EndOnly(t, s) ==> s == Trimmed(t) + "," && |Trimmed(t)| == |t| && !IsBlank(t);
    if |Trimmed(t)| == |t| && !IsBlank(t) {
      TrimmedWhole(t);
      BlankTail(s, t, k);
      if "," + t[k..] == t[k..] + "," {
        CommaAround(t, k);
        CommaBehind(t);
      }
    }
  }

  lemma BlankTail(s: string, t: string, k: nat)
    requires StartsWithComma(s) && k == Indent(s) && t == Undo(s) && !IsBlank(t)
    ensures k < |t| && t[..k] == s[..k]
  {
    IndentOf(s[..k], "");
    assert s[..k] + "" == s[..k];
  }

  /** The parts of a line that ends in a comma: its indentation `w`, and `x`, what it holds before the comma. */
  lemma DroppedParts(s: string) returns (w: string, x: string)
    requires EndsWithComma(s) && !IsBlank(s)
    ensures Dropped(s) == w + x && AllSpace(w) && (x != "" ==> !IsSpace(x[0]))
    ensures EndsWithComma(Lead(s)) && Dropped(Lead(s)) == w + ("," + (" " + x))
  {
    hide Trimmed, Indent, AllSpace, IsSpace, Lead;
    LeadTrimmed(s);
    BlankIsTrimmed(s);
    var k := Indent(s);
    var c := Trimmed(s[k..]);
    w, x := s[..k], c[..|c| - 1];
    assert Trimmed(s) == w + c && Trimmed(s)[..|w| + |x|] == w + x;
    assert Trimmed(Lead(s)) == (w + ("," + (" " + x))) + [c[|x|]];
    assert x != "" ==> x[0] == s[k];
  }

  lemma UndoParts(w: string, x: string)
    requires AllSpace(w) && (x != "" ==> !IsSpace(x[0]))
    ensures var d := w + ("," + (" " + x)); StartsWithComma(d) && !IsCommentOnly(d) && Undo(d) == w + x
  {
    hide Indent, AllSpace, IsSpace;
    var d, k := w + ("," + (" " + x)), |w|;
    CommaFirst("," + (" " + x));
    IndentOf(w, "," + (" " + x));
    assert d[k..] == "," + (" " + x) && d[k + 1..] == " " + x && d[..k] == w;
    OneSpace();
    IndentOf(" ", x);
    NoIndent(x);
    assert (" " + x)[1..] == x;
  }

  /** Undoing a line that received a comma and gave one away. */
  lemma UndoDroppedLead(s: string) returns (w: string, x: string)
    requires EndsWithComma(s) && !IsBlank(s)
    ensures EndsWithComma(Lead(s)) && StartsWithComma(Dropped(Lead(s))) && !IsCommentOnly(Dropped(Lead(s)))
    ensures Undo(Dropped(Lead(s))) == Dropped(s)
    ensures Dropped(s) == w + x && Dropped(Lead(s)) == w + ("," + (" " + x)) && AllSpace(w)
    ensures x != "" ==> !IsSpace(x[0])
  {
    hide *;
    w, x := DroppedParts(s);
    UndoParts(w, x);
  }

  lemma NoIndent(x: string)
    requires x != "" ==> !IsSpace(x[0])
    ensures Indent(x) == 0
  {
  }

  /** The line when it is gone through, if all lines above it are tidy. */
  lemma AtFirst(lines: seq<string>, fixed: set<nat>, k: nat)
    requires k < |lines| && TidyTo(lines, fixed, k)
    ensures var now := NormTo(AppliedAll(lines, fixed, |lines|), fixed, k);
      && now[k] == Applied(lines, fixed, |lines|, k) && PrevSql(now, k) == PrevSql(lines, k)
      && EndOnly(if Handled(now, fixed, k) then Undo(now[k]) else now[k], ThereAndBack(lines, fixed)[k])
  {
    hide Applied, TidyLine, Returning, Undo, Trimmed, EndsWithComma, EndOnly, StartsWithComma, IsCommentOnly;
    var all := AppliedAll(lines, fixed, |lines|);
    NotYet(all, fixed, k, k);
    ReturningRun(lines, fixed, k, k);
    SamePrev(lines, fixed, NormTo(all, fixed, k), k);
    LaterSteps(all, fixed, k, |lines|);
  }

  /** The first line that is not tidy is not what it was. */
  lemma OnlyTidyComesBack(lines: seq<string>, fixed: set<nat>, k: nat)
    requires k < |lines| && TidyTo(lines, fixed, k) && ThereAndBack(lines, fixed)[k] == lines[k]
    ensures TidyLine(lines, fixed, k)
  {
    hide NormTo, ThereAndBack, Undo, Trimmed, Dropped, Lead, EndsWithComma, StartsWithComma, IsCommentOnly, IsBlank,
        TidyComma, Indent;
    AtFirst(lines, fixed, k);
    var s, now := lines[k], NormTo(AppliedAll(lines, fixed, |lines|), fixed, k);
    if Moves(lines, fixed, k) {
      SkippedIs(s);
      if Led(lines, fixed, k) {
        var _, _ := UndoDroppedLead(s);
        MovedComesBack(s, Dropped(s));
      } else {
        DroppedComesBack(s, Handled(now, fixed, k));
        if StartsWithComma(s) {
          TidyStart(s);
        }
      }
    } else if StartsWithComma(s) {
      UndoneDiffers(s);
      CommaIsNoComment(s);
    }
  }

  lemma CommaIsNoComment(s: string)
    requires StartsWithComma(s)
    ensures !IsCommentOnly(s)
  {
  }

  lemma DroppedComesBack(s: string, undone: bool)
    requires EndsWithComma(s) && (undone ==> StartsWithComma(Dropped(s)))
    requires EndOnly(if undone then Undo(Dropped(s)) else Dropped(s), s)
    ensures TidyComma(s) && !undone
  {
    hide Undo, Dropped, StartsWithComma;
    if undone {
      UndoIsShorter(Dropped(s));
    }
    MovedComesBack(s, if undone then Undo(Dropped(s)) else Dropped(s));
  }

  lemma TidyStart(s: string)
    requires TidyComma(s) && EndsWithComma(s) && StartsWithComma(s)
    ensures StartsWithComma(Dropped(s)) && !IsCommentOnly(Dropped(s))
  {
    hide Indent, Trimmed, IsSpace;
    TidyCut(s);
    BlankIsTrimmed(Cut1(s));
    CommaIsNoComment(Cut1(s));
  }

  lemma {:induction false} ThenAllAreTidy(lines: seq<string>, fixed: set<nat>, n: nat)
    requires n <= |lines| && ThereAndBack(lines, fixed) == lines
    ensures TidyTo(lines, fixed, n)
    decreases n
  {
    hide TidyLine, ThereAndBack;
    if n > 0 {
      ThenAllAreTidy(lines, fixed, n - 1);
      OnlyTidyComesBack(lines, fixed, n - 1);
    }
  }

  /** Moving commas to the front of lines and back is the identity exactly on tidy texts. */
  lemma CommasComeBackIff(text: string)
    ensures TrailingComma(LeadingComma(text)) == text <==> Tidy(Split(text), SpanningLines(Split(text)))
  {
    hide Split, SpanningLines, NormTo, TidyLine, Applied, ThereAndBack;
    var lines, fixed := Split(text), SpanningLines(Split(text));
    if Tidy(lines, fixed) {
      CommasThereAndBack(text);
    }
    if TrailingComma(LeadingComma(text)) == text {
      BothPasses(text);
      BackNoNewlines(lines, fixed);
      SplitJoin(ThereAndBack(lines, fixed));
      ThenAllAreTidy(lines, fixed, |lines|);
    }
  }

  lemma BackNoNewlines(lines: seq<string>, fixed: set<nat>)
    requires lines != [] && forall k :: 0 <= k < |lines| ==> '\n' !in lines[k]
    ensures var back := ThereAndBack(lines, fixed);
      back != [] && forall k :: 0 <= k < |back| ==> '\n' !in back[k]
  {
    hide NormTo, Applied;
    ApplyNoNewlines(lines, fixed);
    NormToNoNewlines(AppliedAll(lines, fixed, |lines|), fixed, |lines|);
  }

  // ---------------------------------------------------------------------------------------------
  // Twice
  // ---------------------------------------------------------------------------------------------

  /** Line `k` gives a comma away and has another one: at its end, or, if nothing else is left of the line,
      the one it receives. */
  predicate LeavesComma(lines: seq<string>, fixed: set<nat>, k: nat)
    requires k < |lines|
  {
    && Moves(lines, fixed, k)
    && (EndsWithComma(Dropped(lines[k])) || (Led(lines, fixed, k) && IsBlank(Dropped(lines[k]))))
  }

  /** So the line ends in a comma after the pass. */
  lemma LeavesCommaAfter(lines: seq<string>, fixed: set<nat>, k: nat)
    requires k < |lines|
    ensures LeavesComma(lines, fixed, k) <==>
              Moves(lines, fixed, k) && EndsWithComma(Applied(lines, fixed, |lines|, k))
  {
    hide Lead, Dropped, EndsWithComma, IsBlank, Skipped, IsCommentOnly, Trimmed, Indent, PrevSql, NextSql;
    if Moves(lines, fixed, k) {
      SkippedIs(lines[k]);
      LeadStatus(lines[k]);
      DroppedLeadEnds(lines[k]);
    }
  }

  lemma DroppedLeadEnds(s: string)
    requires EndsWithComma(s) && !IsBlank(s)
    ensures EndsWithComma(Lead(s))
    ensures EndsWithComma(Dropped(Lead(s))) <==> EndsWithComma(Dropped(s)) || IsBlank(Dropped(s))
  {
    hide *;
    var w, x := UndoDroppedLead(s);
    if x == "" {
      BlankParts(w);
    } else {
      TextParts(w, x);
    }
  }

  lemma BlankParts(w: string)
    requires AllSpace(w)
    ensures EndsWithComma(w + ("," + (" " + ""))) && IsBlank(w + "")
  {
    hide Trimmed, Indent, IsSpace;
    EmptyLine();
    IndentOf(w, "");
    CommaThenBlank();
    assert w + ("," + (" " + "")) == w + ", ";
    TrimmedCut(w, ", ");
  }

  lemma TextParts(w: string, x: string)
    requires x != "" && !IsSpace(x[0])
    ensures EndsWithComma(w + ("," + (" " + x))) <==> EndsWithComma(w + x)
    ensures !IsBlank(w + x)
  {
    hide Trimmed, Indent, IsSpace;
    TrimmedText(x);
    TrimmedCut(w, x);
    assert w + ("," + (" " + x)) == (w + ", ") + x;
    TrimmedCut(w + ", ", x);
    BlankIsTrimmed(w + x);
  }

  lemma CommaThenBlank()
    ensures Trimmed(", ") == ","
  {
    assert ", "[..1] == ",";
    assert Trimmed(",") == ",";
  }

  lemma {:induction false} NothingMoves(lines: seq<string>, fixed: set<nat>, i: nat)
    requires i <= |lines| && forall k: nat :: k < |lines| ==> !Moves(lines, fixed, k)
    ensures ApplyFrom(lines, fixed, i) == lines
    decreases |lines| - i
  {
    hide Moves;
    if i < |lines| {
      NothingMoves(lines, fixed, i + 1);
    }
  }

  /** The lines below `k`, up to and including the next SQL line, hold SQL after the pass if they did
      before. */
  lemma NextSqlAfter(lines: seq<string>, fixed: set<nat>, k: nat)
    requires k < |lines| && !Skipped(lines[k])
    ensures var j := NextSql(lines, k + 1);
            (j < |lines| && j in fixed) || j == |lines| || Moves(lines, fixed, k) ==>
              NextSql(AppliedAll(lines, fixed, |lines|), k + 1) == j
  {
    hide Lead, Trimmed, Indent, Dropped, EndsWithComma, IsCommentOnly, PrevSql;
    var now, j := AppliedAll(lines, fixed, |lines|), NextSql(lines, k + 1);
    forall i: nat | k < i < j ensures Skipped(now[i]) {
      SkippedIs(lines[i]);
    }
    if j == |lines| {
      AllSkipped(now, k + 1);
    } else if Moves(lines, fixed, k) {
      MovesIsSql(lines, fixed, k);
      LedStaysSql(lines, fixed, j);
      NextOfPrev(now, k + 1, j);
    } else if j in fixed {
      Pairs(lines, k, j);
      NextOfPrev(now, k + 1, j);
    }
  }

  lemma {:induction false} AllSkipped(lines: seq<string>, j: nat)
    requires j <= |lines| && forall i :: j <= i < |lines| ==> Skipped(lines[i])
    ensures NextSql(lines, j) == |lines|
    decreases |lines| - j
  {
    if j < |lines| {
      AllSkipped(lines, j + 1);
    }
  }

  /** A line that received a comma starts with it, whether or not its own has moved on. */
  lemma LedStaysSql(lines: seq<string>, fixed: set<nat>, j: nat)
    requires j < |lines| && Led(lines, fixed, j)
    ensures !Skipped(Applied(lines, fixed, |lines|, j)) && !IsCommentOnly(Applied(lines, fixed, |lines|, j))
  {
    hide Trimmed, Indent, PrevSql, NextSql, IsBlank;
    var s := lines[j];
    LeadStatus(s);
    SkippedIs(s);
    if Moves(lines, fixed, j) {
      CommaKeepsSql(s[..Indent(s)], Dropped(Lead(s)));
      BlankIsTrimmed(s);
    }
  }

  lemma CommaKeepsSql(f: string, s: string)
    requires AllSpace(f) && f + ", " <= s
    ensures !Skipped(s)
  {
    var rest := s[|f|..];
    assert s == f + rest;
    IndentOf(f, rest);
    CommaFirst(rest);
    assert s[Indent(s)..] == rest;
  }

  /** What moves the second time is what was left with a comma the first time. */
  lemma MovesAgain(lines: seq<string>, fixed: set<nat>, k: nat)
    requires k < |lines|
    ensures Moves(AppliedAll(lines, fixed, |lines|), fixed, k) <==> LeavesComma(lines, fixed, k)
  {
    hide Trimmed, Indent, NextSql, PrevSql, Lead, Dropped, IsBlank, EndsWithComma, IsCommentOnly, LeavesComma;
    var now := AppliedAll(lines, fixed, |lines|);
    LeavesCommaAfter(lines, fixed, k);
    SkippedIs(lines[k]);
    LeadStatus(lines[k]);
    SkippedIs(now[k]);
    SkippedIs(Lead(lines[k]));
    if Moves(lines, fixed, k) {
      NextSqlAfter(lines, fixed, k);
      if EndsWithComma(now[k]) {
        if Led(lines, fixed, k) {
          LedStaysSql(lines, fixed, k);
        } else {
          DroppedComment(lines[k]);
        }
      }
    } else if EndsWithComma(now[k]) && !IsCommentOnly(now[k]) {
      NextSqlAfter(lines, fixed, k);
    }
  }

  lemma DroppedComment(s: string)
    requires EndsWithComma(s)
    ensures EndsWithComma(Dropped(s)) && IsCommentOnly(Dropped(s)) ==> IsCommentOnly(s)
  {
    hide Trimmed, Indent;
    var d := Dropped(s);
    if EndsWithComma(d) {
      SkippedIs(d);
      assert d == s[..|d|];
      IndentOfPrefix(d, s);
    }
  }

  predicate LeavesSomeComma(lines: seq<string>) {
    exists k: nat :: k < |lines| && LeavesComma(lines, SpanningLines(lines), k)
  }

  /** Moving commas to the front a second time changes nothing exactly if no line that gives a comma away
      has another to give. */
  lemma LeadingCommaTwiceIff(text: string)
    ensures LeadingComma(LeadingComma(text)) == LeadingComma(text) <==> !LeavesSomeComma(Split(text))
  {
    hide Split, SpanningLines, ApplyFrom, Applied, Moves, LeavesComma;
    var lines := Split(text);
    var fixed, once := SpanningLines(lines), LeadingCommaLines(lines);
    ApplyAll(lines, fixed);
    ApplyNoNewlines(lines, fixed);
    SplitJoin(once);
    SpanningAfterApply(lines);
    forall k: nat | k < |lines| ensures Moves(once, fixed, k) <==> LeavesComma(lines, fixed, k) {
      MovesAgain(lines, fixed, k);
    }
    if LeavesSomeComma(lines) {
      var k: nat :| k < |lines| && LeavesComma(lines, fixed, k);
      MoveChangesText(once, k);
    } else {
      NothingMoves(once, fixed, 0);
    }
  }

  lemma MoveChangesText(lines: seq<string>, k: nat)
    requires forall i :: 0 <= i < |lines| ==> '\n' !in lines[i]
    requires k < |lines| && Moves(lines, SpanningLines(lines), k)
    ensures Join(LeadingCommaLines(lines)) != Join(lines)
  {
    hide Split, SpanningLines, ApplyFrom, Applied, Moves, Join;
    var fixed := SpanningLines(lines);
    var first := FirstMove(lines, fixed, k);
    FirstMoveChanges(lines, fixed, first);
    ApplyAll(lines, fixed);
    ApplyNoNewlines(lines, fixed);
    assert LeadingCommaLines(lines)[first] != lines[first];
    SplitJoin(LeadingCommaLines(lines));
    SplitJoin(lines);
  }

  lemma {:induction false} FirstMove(lines: seq<string>, fixed: set<nat>, k: nat) returns (first: nat)
    requires k < |lines| && Moves(lines, fixed, k)
    ensures first < |lines| && Moves(lines, fixed, first) && forall i: nat :: i < first ==> !Moves(lines, fixed, i)
    decreases k
  {
    hide Moves;
    first := k;
    if exists i: nat :: i < k && Moves(lines, fixed, i) {
      var i: nat :| i < k && Moves(lines, fixed, i);
      first := FirstMove(lines, fixed, i);
    }
  }

  lemma FirstMoveChanges(lines: seq<string>, fixed: set<nat>, k: nat)
    requires k < |lines| && Moves(lines, fixed, k) && forall i: nat :: i < k ==> !Moves(lines, fixed, i)
    ensures Applied(lines, fixed, |lines|, k) != lines[k]
  {
    hide Indent, NextSql, PrevSql, Lead, IsBlank, IsCommentOnly;
    assert |Dropped(lines[k])| < |lines[k]|;
  }

  // ---------------------------------------------------------------------------------------------
  // Two small texts
  // ---------------------------------------------------------------------------------------------

  /** Two lines of code, the first of which gives its comma to the second. */
  lemma PlainPair(s: string, text: string)
    requires s != "" && '\n' !in s && s[|s| - 1] == ',' && !IsCommentOnly(s)
    requires EndMode(Code(false), s + "\n") == Code(false) && text == s + "\n" + "b"
    ensures Split(text) == [s, "b"] && SpanningLines([s, "b"]) == {} && Moves([s, "b"], {}, 0)
  {
    hide Split, SpanningLines, Moves, EndMode, IsCommentOnly;
    var lines := [s, "b"];
    assert lines[1..] == ["b"] && Join(lines) == s + "\n" + "b";
    SplitJoin(lines);
    PairHoldsNothing(s);
    PairMoves(s);
  }

  lemma PairHoldsNothing(s: string)
    requires EndMode(Code(false), s + "\n") == Code(false)
    ensures SpanningLines([s, "b"]) == {}
  {
    hide BeginsInside, EndMode, Next;
    var lines := [s, "b"];
    ModeAtNext(Code(false), lines, 0);
    InteriorByMode(lines, 0);
    InteriorByMode(lines, 1);
  }

  lemma PairMoves(s: string)
    requires s != "" && s[|s| - 1] == ',' && !IsCommentOnly(s)
    ensures Moves([s, "b"], {}, 0)
  {
    hide EndsWithComma, IsCommentOnly, Skipped;
    CommaBehind(s);
    OneLetter();
    assert NextSql([s, "b"], 1) == 1;
  }

  lemma OneLetter()
    ensures !Skipped("b")
  {
    assert Indent("b") == 0;
  }

  /** A second pass may move another comma. */
  lemma LeadingCommaTwiceDiffers()
    ensures var text := "a,,\nb"; LeadingComma(LeadingComma(text)) != LeadingComma(text)
  {
    hide EndMode, Split, SpanningLines, Moves, LeadingComma;
    var s := "a,,";
    NoComment(s);
    assert s + "\n" == "a,,\n" && "a,,\n" + "b" == "a,,\nb";
    MoveTo(Code(false), "a,,\n", 1, Code(true), ",,\n");
    MoveTo(Code(true), ",,\n", 1, Code(false), ",\n");
    MoveTo(Code(false), ",\n", 1, Code(false), "\n");
    NewlineOnly(Code(false));
    PlainPair(s, "a,,\nb");
    CommaBehind(s);
    TrimmedIs(s);
    CommaBehind("a,");
    assert Dropped(s) == "a,";
    assert LeavesComma([s, "b"], {}, 0);
    LeadingCommaTwiceIff("a,,\nb");
  }

  /** A blank before a comma does not come back. */
  lemma CommasThereAndBackDiffers()
    ensures var text := "a ,\nb"; TrailingComma(LeadingComma(text)) != text
  {
    hide EndMode, Split, SpanningLines, Moves, LeadingComma;
    var s := "a ,";
    NoComment(s);
    assert s + "\n" == "a ,\n" && "a ,\n" + "b" == "a ,\nb";
    MoveTo(Code(false), "a ,\n", 1, Code(true), " ,\n");
    MoveTo(Code(true), " ,\n", 1, Code(false), ",\n");
    MoveTo(Code(false), ",\n", 1, Code(false), "\n");
    NewlineOnly(Code(false));
    PlainPair(s, "a ,\nb");
    assert !TidyLine([s, "b"], {}, 0);
    CommasComeBackIff("a ,\nb");
  }

  lemma NoComment(s: string)
    requires s != "" && s[0] == 'a'
    ensures !IsCommentOnly(s)
  {
    assert Indent(s) == 0;
  }
}
