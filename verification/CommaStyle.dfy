/** The two passes of `format.py` that move commas between lines: `_apply_leading_comma` turns
    `a,` / `b` into `a` / `, b`, and `_normalize_to_trailing_comma` turns it back.

    Both are loops that rewrite a list of lines in place.  Their meaning is given by one step per line
    (`ApplyStep`, `NormStep`); `ApplyAll` says what the first loop has made of every line. */
module CommaStyle {
  import opened SqlSpans
  import opened Layout

  // ---------------------------------------------------------------------------------------------
  // Lines
  // ---------------------------------------------------------------------------------------------

  /** `str.rstrip`. */
  function Trimmed(s: string): (r: string)
    ensures |r| <= |s| && s[..|r|] == r && AllSpace(s[|r|..])
    ensures r != "" ==> !IsSpace(r[|r| - 1])
  {
    if s == "" || !IsSpace(s[|s| - 1]) then s
    else
      var r := Trimmed(s[..|s| - 1]);
      assert s[|r|..] == s[..|s| - 1][|r|..] + [s[|s| - 1]];
      r
  }

  predicate EndsWithComma(s: string) {
    var t := Trimmed(s); t != "" && t[|t| - 1] == ','
  }

  predicate StartsWithComma(s: string) { Indent(s) < |s| && s[Indent(s)] == ',' }

  /** `_is_comment_only`. */
  predicate IsCommentOnly(s: string) {
    var c := s[Indent(s)..];
    StartsWith2(c, '-', '-') || StartsWith2(c, '/', '*') || StartsWith2(c, '*', '/')
  }

  /** A comment stands behind the whitespace that the line begins with; the end of a block comment counts as
      one. */
  lemma CommentOnlyIff(s: string)
    ensures IsCommentOnly(s) <==>
            exists k :: 0 <= k < |s| - 1 && AllSpace(s[..k])
                        && (s[k..k + 2] == "--" || s[k..k + 2] == "/*" || s[k..k + 2] == "*/")
  {
    hide Indent, AllSpace;
    var n := Indent(s);
    if IsCommentOnly(s) {
      assert s[n..n + 2] == [s[n..][0], s[n..][1]];
    }
    if k :| 0 <= k < |s| - 1 && AllSpace(s[..k])
            && (s[k..k + 2] == "--" || s[k..k + 2] == "/*" || s[k..k + 2] == "*/") {
      assert s[k] == s[k..k + 2][0] && s[k + 1] == s[k..k + 2][1];
      IndentIs(s, k);
    }
  }

  lemma IndentIs(s: string, k: nat)
    requires k < |s| && AllSpace(s[..k]) && !IsSpace(s[k])
    ensures Indent(s) == k
  {
    assert s == s[..k] + s[k..] && s[k..][0] == s[k];
    IndentOf(s[..k], s[k..]);
  }

  predicate Skipped(s: string) { IsBlank(s) || IsCommentOnly(s) }

  /** The first line from `j` on that holds SQL, or the number of lines. */
  function NextSql(lines: seq<string>, j: nat): (r: nat)
    requires j <= |lines|
    ensures j <= r <= |lines|
    ensures forall k :: j <= k < r ==> Skipped(lines[k])
    ensures r < |lines| ==> !Skipped(lines[r])
    decreases |lines| - j
  {
    if j < |lines| && Skipped(lines[j]) then NextSql(lines, j + 1) else j
  }

  /** The last line before `k` that holds SQL, or -1. */
  function PrevSql(lines: seq<string>, k: nat): (r: int)
    requires k <= |lines|
    ensures -1 <= r < k
    ensures forall i :: r < i < k ==> Skipped(lines[i])
    ensures r >= 0 ==> !Skipped(lines[r])
  {
    if k == 0 then -1 else if Skipped(lines[k - 1]) then PrevSql(lines, k - 1) else k - 1
  }

  function Split(text: string): (r: seq<string>)
    ensures r != [] && forall i :: 0 <= i < |r| ==> '\n' !in r[i]
    ensures Join(r) == text
  {
    if text == "" then [""]
    else
      var r := Split(text[1..]);
      if text[0] == '\n' then [""] + r
      else
        assert [text[0]] + text[1..] == text;
        JoinFirst(text[0], r);
        [[text[0]] + r[0]] + r[1..]
  }

  lemma JoinFirst(c: char, r: seq<string>)
    requires r != []
    ensures Join([[c] + r[0]] + r[1..]) == [c] + Join(r)
  {
    var s := [[c] + r[0]] + r[1..];
    assert s[0] == [c] + r[0] && s[1..] == r[1..];
    if |r| > 1 {
      assert [c] + r[0] + "\n" + Join(r[1..]) == [c] + (r[0] + "\n" + Join(r[1..]));
    }
  }

  lemma {:induction false} SplitJoin(lines: seq<string>)
    requires lines != [] && forall i :: 0 <= i < |lines| ==> '\n' !in lines[i]
    ensures Split(Join(lines)) == lines
    decreases |lines|, |lines[0]|
  {
    var first, text := lines[0], Join(lines);
    if first == "" {
      if |lines| > 1 {
        assert text[1..] == Join(lines[1..]);
        SplitJoin(lines[1..]);
        assert [""] + lines[1..] == lines;
      } else {
        assert lines == [""];
      }
    } else {
      var less := [first[1..]] + lines[1..];
      assert less[1..] == lines[1..];
      assert [first[0]] + first[1..] == first;
      JoinFirst(first[0], less);
      assert [[first[0]] + less[0]] + less[1..] == lines;
      assert text[1..] == Join(less);
      SplitJoin(less);
    }
  }

  // ---------------------------------------------------------------------------------------------
  // To leading commas
  // ---------------------------------------------------------------------------------------------

  /** `s` without the comma it ends in and the whitespace behind it. */
  function Dropped(s: string): string
    requires EndsWithComma(s)
  {
    Trimmed(s)[..|Trimmed(s)| - 1]
  }

  /** `s` with a comma put in front of its text. */
  function Lead(s: string): string { s[..Indent(s)] + ", " + s[Indent(s)..] }

  /** Line `k` gives its comma away. */
  predicate Moves(lines: seq<string>, fixed: set<nat>, k: nat)
    requires k < |lines|
  {
    && EndsWithComma(lines[k]) && !IsCommentOnly(lines[k]) && k !in fixed
    && NextSql(lines, k + 1) < |lines| && NextSql(lines, k + 1) !in fixed
  }

  function ApplyStep(lines: seq<string>, fixed: set<nat>, i: nat): (r: seq<string>)
    requires i < |lines|
    ensures |r| == |lines|
  {
    if Moves(lines, fixed, i) then
      var j := NextSql(lines, i + 1);
      lines[i := Dropped(lines[i])][j := Lead(lines[j])]
    else lines
  }

  function ApplyFrom(lines: seq<string>, fixed: set<nat>, i: nat): (r: seq<string>)
    requires i <= |lines|
    ensures |r| == |lines|
    decreases |lines| - i
  {
    if i == |lines| then lines else ApplyFrom(ApplyStep(lines, fixed, i), fixed, i + 1)
  }

  function LeadingCommaLines(lines: seq<string>): seq<string> { ApplyFrom(lines, SpanningLines(lines), 0) }

  function LeadingComma(text: string): string { Join(LeadingCommaLines(Split(text))) }

  /** `_apply_leading_comma`. */
  method ApplyLeadingComma(text: string) returns (r: string)
    ensures r == LeadingComma(text)
  {
    hide SpanningLines, ApplyStep, Split;
    var lines := Split(text);
    var fixed := LiteralSpanningLines(lines);
    var i, n := 0, |lines|;
    while i < n
      invariant i <= n == |lines|
      invariant ApplyFrom(lines, fixed, i) == LeadingCommaLines(Split(text))
    {
      ghost var before := lines;
      if EndsWithComma(lines[i]) && !IsCommentOnly(lines[i]) && i !in fixed {
        var j := i + 1;
        while j < n && Skipped(lines[j])
          invariant i < j <= n && NextSql(lines, j) == NextSql(lines, i + 1)
        {
          j := j + 1;
        }
        if j < n && j !in fixed {
          var target := lines[j];
          lines := lines[i := Dropped(lines[i])];
          lines := lines[j := Lead(target)];
        }
      }
      StepIs(before, fixed, i, lines);
      i := i + 1;
    }
    r := Join(lines);
  }

  lemma StepIs(lines: seq<string>, fixed: set<nat>, i: nat, after: seq<string>)
    requires i < |lines|
    requires after == if Moves(lines, fixed, i) then
                        lines[i := Dropped(lines[i])][NextSql(lines, i + 1) := Lead(lines[NextSql(lines, i + 1)])]
                      else lines
    ensures after == ApplyStep(lines, fixed, i)
  {}

  /** Line `k` receives a comma. */
  predicate Led(lines: seq<string>, fixed: set<nat>, k: nat)
    requires k < |lines|
  {
    !Skipped(lines[k]) && PrevSql(lines, k) >= 0 && Moves(lines, fixed, PrevSql(lines, k))
  }

  /** Line `k` once the first `i` lines have been gone through. */
  function Applied(lines: seq<string>, fixed: set<nat>, i: nat, k: nat): string
    requires k < |lines|
  {
    var s := if Led(lines, fixed, k) && PrevSql(lines, k) < i then Lead(lines[k]) else lines[k];
    if k < i && Moves(lines, fixed, k) then LeadStatus(lines[k]); Dropped(s) else s
  }

  function AppliedAll(lines: seq<string>, fixed: set<nat>, i: nat): seq<string> {
    seq(|lines|, k requires 0 <= k < |lines| => Applied(lines, fixed, i, k))
  }

  lemma {:induction false} TrimmedCut(a: string, b: string)
    requires Trimmed(b) != ""
    ensures Trimmed(a + b) == a + Trimmed(b)
    decreases |b|
  {
    var s := a + b;
    assert s[|s| - 1] == b[|b| - 1];
    if IsSpace(b[|b| - 1]) {
      assert s[..|s| - 1] == a + b[..|b| - 1];
      TrimmedCut(a, b[..|b| - 1]);
    }
  }

  lemma {:induction false} TrimmedText(b: string)
    requires b != "" && !IsSpace(b[0])
    ensures Trimmed(b) != ""
    decreases |b|
  {
    if IsSpace(b[|b| - 1]) {
      TrimmedText(b[..|b| - 1]);
    }
  }

  lemma {:induction false} TrimmedSpace(s: string)
    requires AllSpace(s)
    ensures Trimmed(s) == ""
    decreases |s|
  {
    if s != "" {
      TrimmedSpace(s[..|s| - 1]);
    }
  }

  lemma BlankIsTrimmed(s: string)
    ensures IsBlank(s) <==> Trimmed(s) == ""
    ensures !IsBlank(s) ==>
              && Trimmed(s[Indent(s)..]) != "" && Trimmed(s) == s[..Indent(s)] + Trimmed(s[Indent(s)..])
              && Indent(s) < |Trimmed(s)|
  {
    hide Indent, Trimmed;
    var k := Indent(s);
    assert s == s[..k] + s[k..];
    if IsBlank(s) {
      TrimmedSpace(s);
    } else {
      TrimmedText(s[k..]);
      TrimmedCut(s[..k], s[k..]);
    }
  }

  /** A comma in front changes neither whether a line ends with one nor whether it holds SQL. */
  lemma LeadTrimmed(s: string)
    requires !IsBlank(s)
    ensures Trimmed(Lead(s)) == s[..Indent(s)] + ", " + Trimmed(s[Indent(s)..])
    ensures EndsWithComma(Lead(s)) <==> EndsWithComma(s)
  {
    hide Trimmed, Indent, IsSpace;
    BlankIsTrimmed(s);
    TrimmedCut(s[..Indent(s)] + ", ", s[Indent(s)..]);
  }

  lemma LeadIndent(s: string)
    ensures Indent(Lead(s)) == Indent(s) && StartsWithComma(Lead(s)) && !Skipped(Lead(s))
  {
    hide Indent, IsSpace;
    var ws, body := s[..Indent(s)], ", " + s[Indent(s)..];
    IndentOf(ws, body);
    CommaFirst(body);
    assert Lead(s) == ws + body;
    assert Lead(s)[|ws|..] == body;
  }

  lemma LeadStatus(s: string)
    ensures !IsBlank(s) ==> Trimmed(Lead(s)) == s[..Indent(s)] + ", " + Trimmed(s[Indent(s)..])
    ensures EndsWithComma(s) ==> EndsWithComma(Lead(s))
    ensures !IsBlank(s) ==> (EndsWithComma(Lead(s)) <==> EndsWithComma(s))
    ensures Indent(Lead(s)) == Indent(s) && StartsWithComma(Lead(s)) && !Skipped(Lead(s))
  {
    hide Trimmed, Indent, IsSpace, Skipped, StartsWithComma, Lead;
    BlankIsTrimmed(s);
    LeadIndent(s);
    if !IsBlank(s) {
      LeadTrimmed(s);
    }
  }

  lemma CommaFirst(s: string)
    requires s != "" && s[0] == ','
    ensures Indent(s) == 0
  {}

  lemma EmptyLine()
    ensures Indent("") == 0 && Trimmed("") == ""
  {}

  /** Lines that give and receive commas come in pairs. */
  lemma {:induction false} PrevOfNext(lines: seq<string>, i: nat, k: nat)
    requires i < k <= |lines|
    ensures !Skipped(lines[i]) && (forall j :: i < j < k ==> Skipped(lines[j])) ==> PrevSql(lines, k) == i
    decreases k
  {
    if i < k - 1 {
      PrevOfNext(lines, i, k - 1);
    }
  }

  lemma {:induction false} NextOfPrev(lines: seq<string>, j: nat, k: nat)
    requires j <= k < |lines| && !Skipped(lines[k]) && forall i :: j <= i < k ==> Skipped(lines[i])
    ensures NextSql(lines, j) == k
    decreases k - j
  {
    if j < k {
      NextOfPrev(lines, j + 1, k);
    }
  }

  lemma Pairs(lines: seq<string>, i: nat, k: nat)
    requires i < |lines| && k < |lines| && !Skipped(lines[i]) && !Skipped(lines[k])
    ensures PrevSql(lines, k) == i <==> NextSql(lines, i + 1) == k
  {
    hide Skipped;
    if NextSql(lines, i + 1) == k {
      PrevOfNext(lines, i, k);
    }
    if PrevSql(lines, k) == i {
      NextOfPrev(lines, i + 1, k);
    }
  }

  lemma {:induction false} SameNextSql(a: seq<string>, b: seq<string>, j: nat)
    requires |a| == |b| && j <= |a| && forall k :: j <= k < |a| ==> Skipped(a[k]) == Skipped(b[k])
    ensures NextSql(a, j) == NextSql(b, j)
    decreases |a| - j
  {
    if j < |a| {
      SameNextSql(a, b, j + 1);
    }
  }

  lemma {:induction false} SamePrevSql(a: seq<string>, b: seq<string>, k: nat)
    requires |a| == |b| && k <= |a| && forall i :: 0 <= i < k ==> Skipped(a[i]) == Skipped(b[i])
    ensures PrevSql(a, k) == PrevSql(b, k)
    decreases k
  {
    if k > 0 {
      SamePrevSql(a, b, k - 1);
    }
  }

  lemma MovesIsSql(lines: seq<string>, fixed: set<nat>, k: nat)
    requires k < |lines| && Moves(lines, fixed, k)
    ensures k < NextSql(lines, k + 1) < |lines| && !Skipped(lines[k])
    ensures Led(lines, fixed, NextSql(lines, k + 1)) && PrevSql(lines, NextSql(lines, k + 1)) == k
  {
    BlankIsTrimmed(lines[k]);
    Pairs(lines, k, NextSql(lines, k + 1));
  }

  /** What was done so far does not change what the next line does. */
  lemma AppliedMoves(lines: seq<string>, fixed: set<nat>, i: nat)
    requires i < |lines|
    ensures var now := AppliedAll(lines, fixed, i);
            Moves(now, fixed, i) == Moves(lines, fixed, i) && NextSql(now, i + 1) == NextSql(lines, i + 1)
  {
    hide Lead, Trimmed, NextSql, PrevSql, EndsWithComma, Skipped;
    var now := AppliedAll(lines, fixed, i);
    forall k: nat | i <= k < |lines|
      ensures Skipped(now[k]) == Skipped(lines[k])
      ensures !Skipped(lines[k]) ==>
                EndsWithComma(now[k]) == EndsWithComma(lines[k]) && IsCommentOnly(now[k]) == IsCommentOnly(lines[k])
    {
      LeadStatus(lines[k]);
      SkippedIs(lines[k]);
      SkippedIs(now[k]);
    }
    SameNextSql(now, lines, i + 1);
    SkippedIs(lines[i]);
    SkippedIs(now[i]);
  }

  lemma SkippedIs(s: string)
    ensures Skipped(s) <==> IsBlank(s) || IsCommentOnly(s)
    ensures EndsWithComma(s) ==> !IsBlank(s)
  {
    BlankIsTrimmed(s);
  }

  lemma ApplyStepIs(lines: seq<string>, fixed: set<nat>, i: nat)
    requires i < |lines|
    ensures ApplyStep(AppliedAll(lines, fixed, i), fixed, i) == AppliedAll(lines, fixed, i + 1)
  {
    hide Lead, Trimmed, NextSql, PrevSql, EndsWithComma, Skipped, IsCommentOnly, Moves;
    var now, next := AppliedAll(lines, fixed, i), AppliedAll(lines, fixed, i + 1);
    AppliedMoves(lines, fixed, i);
    if Moves(lines, fixed, i) {
      MovesIsSql(lines, fixed, i);
      var j := NextSql(lines, i + 1);
      LeadStatus(lines[i]);
      assert now[j] == lines[j] && next[j] == Lead(lines[j]);
    }
    forall k: nat | k < |lines| ensures ApplyStep(now, fixed, i)[k] == next[k] {
      if Led(lines, fixed, k) && PrevSql(lines, k) == i {
        Pairs(lines, i, k);
      }
    }
  }

  lemma {:induction false} ApplyFromIs(lines: seq<string>, fixed: set<nat>, i: nat)
    requires i <= |lines|
    ensures ApplyFrom(AppliedAll(lines, fixed, i), fixed, i) == AppliedAll(lines, fixed, |lines|)
    decreases |lines| - i
  {
    hide ApplyStep, Applied;
    if i < |lines| {
      ApplyStepIs(lines, fixed, i);
      ApplyFromIs(lines, fixed, i + 1);
    }
  }

  /** Once the loop is through, exactly the lines that move gave their comma away, and exactly the lines
      they are followed by received one. */
  lemma ApplyAll(lines: seq<string>, fixed: set<nat>)
    ensures ApplyFrom(lines, fixed, 0) == AppliedAll(lines, fixed, |lines|)
  {
    hide Moves, PrevSql;
    assert AppliedAll(lines, fixed, 0) == lines;
    ApplyFromIs(lines, fixed, 0);
  }

  // ---------------------------------------------------------------------------------------------
  // To trailing commas
  // ---------------------------------------------------------------------------------------------

  /** `s` without the comma it starts with and the whitespace behind it. */
  function Undo(s: string): string
    requires StartsWithComma(s)
  {
    var rest := s[Indent(s) + 1..];
    s[..Indent(s)] + rest[Indent(rest)..]
  }

  /** Line `i` hands its comma back to the SQL line above it. */
  predicate Handled(lines: seq<string>, fixed: set<nat>, i: nat)
    requires i < |lines|
  {
    StartsWithComma(lines[i]) && !IsCommentOnly(lines[i]) && i !in fixed && PrevSql(lines, i) >= 0
  }

  function NormStep(lines: seq<string>, fixed: set<nat>, i: nat): (r: seq<string>)
    requires i < |lines|
    ensures |r| == |lines|
  {
    if !Handled(lines, fixed, i) then lines
    else
      var p := PrevSql(lines, i);
      var undone := lines[i := Undo(lines[i])];
      if EndsWithComma(lines[p]) then undone else undone[p := Trimmed(lines[p]) + ","]
  }

  /** The lines once the first `i` have been gone through. */
  function NormTo(lines: seq<string>, fixed: set<nat>, i: nat): (r: seq<string>)
    requires i <= |lines|
    ensures |r| == |lines|
  {
    if i == 0 then lines else NormStep(NormTo(lines, fixed, i - 1), fixed, i - 1)
  }

  function TrailingCommaLines(lines: seq<string>): seq<string> { NormTo(lines, SpanningLines(lines), |lines|) }

  function TrailingComma(text: string): string { Join(TrailingCommaLines(Split(text))) }

  /** `find_prev_sql_line`. */
  method FindPrevSqlLine(lines: seq<string>, idx: nat) returns (k: int)
    requires idx <= |lines|
    ensures k == PrevSql(lines, idx)
  {
    k := idx - 1;
    while k >= 0 && Skipped(lines[k])
      invariant -1 <= k < idx && PrevSql(lines, k + 1) == PrevSql(lines, idx)
    {
      k := k - 1;
    }
  }

  /** `_normalize_to_trailing_comma`. */
  method NormalizeToTrailingComma(text: string) returns (r: string)
    ensures r == TrailingComma(text)
  {
    hide SpanningLines, Split, NormStep, Undo, Trimmed;
    var lines := Split(text);
    var fixed := LiteralSpanningLines(lines);
    var n := |lines|;
    for i := 0 to n
      invariant lines == NormTo(Split(text), fixed, i)
    {
      ghost var before := lines;
      var line := lines[i];
      if StartsWithComma(line) && !IsCommentOnly(line) && i !in fixed {
        var prev := FindPrevSqlLine(lines, i);
        if prev >= 0 {
          lines := lines[i := Undo(line)];
          if !EndsWithComma(lines[prev]) {
            lines := lines[prev := Trimmed(lines[prev]) + ","];
          }
        }
      }
      NormStepIs(before, fixed, i, lines);
    }
    r := Join(lines);
  }

  lemma NormStepIs(lines: seq<string>, fixed: set<nat>, i: nat, after: seq<string>)
    requires i < |lines|
    requires after ==
             if !(StartsWithComma(lines[i]) && !IsCommentOnly(lines[i]) && i !in fixed) || PrevSql(lines, i) < 0
             then lines
             else
               var undone := lines[i := Undo(lines[i])];
               var p := PrevSql(lines, i);
               if EndsWithComma(lines[p]) then undone else undone[p := Trimmed(lines[p]) + ","]
    ensures after == NormStep(lines, fixed, i)
  {}
}
