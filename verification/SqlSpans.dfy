/** The lexical walk of `format.py` over SQL text: which stretches are comments, quoted names and
    string literals.

    `IterSqlSpans` is the walk itself, with its cursor and its nested loops.  Its meaning is given by
    a small machine: `Next` reads the one or two characters (or the one dollar tag) that decide what
    happens at a position, and `Spans`, `Kept` and `EndMode` run it over a text.  What makes the
    layout passes safe is `Compose`: a newline always ends whatever the machine was looking ahead to,
    so the scan of a text cut after a newline is the scan of its two parts, each starting in the mode
    the part before it ended in. */
module SqlSpans {

  datatype Kind = EString | Plain | Dollar | LineComment | BlockComment | QuotedIdent

  datatype Span = Span(start: nat, stop: nat, kind: Kind)

  /** Where a scan stands: in code (`afterIdent`: the character before may belong to an identifier),
      or inside one of the regions that are not code. */
  datatype Mode =
    | Code(afterIdent: bool)
    | InLineComment
    | InBlockComment(depth: nat)
    | InQuotedIdent
    | InEString
    | InPlain
    | InDollar(tag: string)

  /** One move of the scan: `n` characters read, the mode after them, whether they belong to a
      literal and whether the first of them opens it. */
  datatype Move = Move(n: nat, mode: Mode, literal: bool, opens: bool)

  predicate IsWordStart(c: char) { 'A' <= c <= 'Z' || 'a' <= c <= 'z' || c == '_' }

  predicate IsWordChar(c: char) { IsWordStart(c) || '0' <= c <= '9' }

  predicate IsIdentChar(c: char) { IsWordChar(c) || c == '$' }

  predicate IsLiteralKind(k: Kind) { k == EString || k == Plain || k == Dollar }

  predicate IsLiteralMode(m: Mode) { m.InEString? || m.InPlain? || m.InDollar? }

  function KindOf(m: Mode): Kind
    requires !m.Code?
  {
    match m
    case InLineComment => LineComment
    case InBlockComment(_) => BlockComment
    case InQuotedIdent => QuotedIdent
    case InEString => EString
    case InPlain => Plain
    case InDollar(_) => Dollar
  }

  predicate StartsWith2(s: string, c0: char, c1: char) { |s| >= 2 && s[0] == c0 && s[1] == c1 }

  /** The text starts like an escape string. */
  predicate StartsEString(s: string) { |s| >= 2 && (s[0] == 'e' || s[0] == 'E') && s[1] == '\'' }

  /** The first position from `k` on that does not hold a word character. */
  function WordEnd(s: string, k: nat): (r: nat)
    requires k <= |s|
    ensures k <= r <= |s|
    ensures forall i :: k <= i < r ==> IsWordChar(s[i])
    ensures r < |s| ==> !IsWordChar(s[r])
    decreases |s| - k
  {
    if k < |s| && IsWordChar(s[k]) then WordEnd(s, k + 1) else k
  }

  /** A dollar-quote marker: `$$`, or a letter or underscore and more letters, underscores and digits between two
      dollar signs. */
  predicate IsTag(tag: string) {
    && |tag| >= 2 && tag[0] == '$' && tag[|tag| - 1] == '$'
    && forall i :: 0 < i < |tag| - 1 ==>
      'A' <= tag[i] <= 'Z' || 'a' <= tag[i] <= 'z' || tag[i] == '_' || (i > 1 && '0' <= tag[i] <= '9')
  }

  /** The length of the dollar-quote marker (`$$` or `$tag$`) `s` starts with, or 0. */
  function DollarTag(s: string): (r: nat)
    ensures r <= |s|
    ensures r > 0 ==> IsTag(s[..r])
  {
    if |s| < 2 || s[0] != '$' then 0
    else if s[1] == '$' then 2
    else if !IsWordStart(s[1]) then 0
    else
      var e := WordEnd(s, 1);
      if e < |s| && s[e] == '$' then e + 1 else 0
  }

  predicate ModeOk(m: Mode) {
    && (m.InDollar? ==> IsTag(m.tag))
    && (m.InBlockComment? ==> m.depth >= 1)
  }

  /** What the scan does at the start of `s` in mode `m`. */
  function Next(m: Mode, s: string): (r: Move)
    requires s != "" && ModeOk(m)
    ensures 1 <= r.n <= |s| && ModeOk(r.mode)
    ensures r.literal <==> IsLiteralMode(m) || IsLiteralMode(r.mode)
    ensures r.opens <==> m.Code? && IsLiteralMode(r.mode)
    ensures m.Code? || r.mode.Code? || KindOf(m) == KindOf(r.mode)
  {
    match m
    case Code(afterIdent) =>
      if StartsWith2(s, '-', '-') then Move(1, InLineComment, false, false)
      else if StartsWith2(s, '/', '*') then Move(2, InBlockComment(1), false, false)
      else if s[0] == '"' then Move(1, InQuotedIdent, false, false)
      else if DollarTag(s) > 0 then
        Move(DollarTag(s), InDollar(s[..DollarTag(s)]), true, true)
      else if (s[0] == 'e' || s[0] == 'E') && |s| >= 2 && s[1] == '\'' && !afterIdent then
        Move(2, InEString, true, true)
      else if s[0] == '\'' then Move(1, InPlain, true, true)
      else Move(1, Code(IsIdentChar(s[0])), false, false)
    case InLineComment =>
      Move(1, if s[0] == '\n' then Code(false) else m, false, false)
    case InBlockComment(depth) =>
      if StartsWith2(s, '/', '*') then Move(2, InBlockComment(depth + 1), false, false)
      else if StartsWith2(s, '*', '/') then
        Move(2, if depth == 1 then Code(false) else InBlockComment(depth - 1), false, false)
      else Move(1, m, false, false)
    case InQuotedIdent =>
      if StartsWith2(s, '"', '"') then Move(2, m, false, false)
      else Move(1, if s[0] == '"' then Code(false) else m, false, false)
    case InEString =>
      if s[0] == '\\' && |s| >= 2 then Move(2, m, true, false)
      else if StartsWith2(s, '\'', '\'') then Move(2, m, true, false)
      else Move(1, if s[0] == '\'' then Code(false) else m, true, false)
    case InPlain =>
      if StartsWith2(s, '\'', '\'') then Move(2, m, true, false)
      else Move(1, if s[0] == '\'' then Code(false) else m, true, false)
    case InDollar(tag) =>
      if tag <= s then Move(|tag|, Code(true), true, false)
      else Move(1, m, true, false)
  }

  /** The mode after reading all of `s`. */
  function EndMode(m: Mode, s: string): (r: Mode)
    requires ModeOk(m)
    ensures ModeOk(r)
    decreases |s|
  {
    if s == "" then m
    else
      var mv := Next(m, s);
      EndMode(mv.mode, s[mv.n..])
  }

  /** The spans reported from here on: `s` is what is left of the text from `pos`, and `start` is where
      the region the scan is in, if any, began. */
  function Spans(m: Mode, start: nat, s: string, pos: nat): (r: seq<Span>)
    requires ModeOk(m)
    decreases |s|
  {
    if s == "" then
      if m.Code? then [] else [Span(start, pos, KindOf(m))]
    else
      var mv := Next(m, s);
      var rest := s[mv.n..];
      if m.Code? then Spans(mv.mode, pos, rest, pos + mv.n)
      else if mv.mode.Code? then
        [Span(start, if m.InLineComment? then pos else pos + mv.n, KindOf(m))] + Spans(mv.mode, pos, rest, pos + mv.n)
      else Spans(mv.mode, start, rest, pos + mv.n)
  }

  /** Every span of a whole text. */
  function AllSpans(sql: string): seq<Span> { Spans(Code(false), 0, sql, 0) }

  /** The characters of `s` that belong to string literals, each with a flag that says whether it is
      the first of its literal. */
  function Kept(m: Mode, s: string): seq<(char, bool)>
    requires ModeOk(m)
    decreases |s|
  {
    if s == "" then []
    else
      var mv := Next(m, s);
      KeptBy(mv, s[..mv.n]) + Kept(mv.mode, s[mv.n..])
  }

  function KeptBy(mv: Move, head: string): seq<(char, bool)> {
    if mv.literal then Flagged(head, mv.opens) else []
  }

  function Flagged(s: string, opens: bool): seq<(char, bool)> {
    seq(|s|, i requires 0 <= i < |s| => (s[i], opens && i == 0))
  }

  /** The literals of a text as they are written, quotes included (`_sql_literal_texts`). */
  function LiteralTexts(sql: string): seq<string> { Texts(sql, AllSpans(sql)) }

  function Texts(sql: string, spans: seq<Span>): seq<string> {
    if spans == [] then []
    else
      var sp := spans[0];
      (if IsLiteralKind(sp.kind) && sp.start <= sp.stop <= |sql| then [sql[sp.start..sp.stop]] else [])
      + Texts(sql, spans[1..])
  }

  /** Put kept characters back together, one string for each flagged character; `acc` holds the
      literals so far, the last of them still growing. */
  function Group(acc: seq<string>, kept: seq<(char, bool)>): seq<string>
    decreases |kept|
  {
    if kept == [] then acc
    else
      var (c, opens) := kept[0];
      Group(if opens || acc == [] then acc + [[c]] else acc[|acc| - 1 := acc[|acc| - 1] + [c]], kept[1..])
  }

  // ---------------------------------------------------------------------------------------------
  // The literals of a text are a function of its kept characters
  // ---------------------------------------------------------------------------------------------

  lemma Unfold(m: Mode, s: string)
    requires ModeOk(m)
    ensures s == "" ==> EndMode(m, s) == m && Kept(m, s) == []
    ensures s != "" ==> var mv := Next(m, s);
                        && EndMode(m, s) == EndMode(mv.mode, s[mv.n..])
                        && Kept(m, s) == KeptBy(mv, s[..mv.n]) + Kept(mv.mode, s[mv.n..])
  {
    hide Next, KeptBy;
  }

  lemma SpansMove(m: Mode, start: nat, s: string, pos: nat)
    requires ModeOk(m) && s != ""
    ensures var mv := Next(m, s); var rest := s[mv.n..];
            Spans(m, start, s, pos) ==
            if m.Code? then Spans(mv.mode, pos, rest, pos + mv.n)
            else if mv.mode.Code? then
              [Span(start, if m.InLineComment? then pos else pos + mv.n, KindOf(m))]
                  + Spans(mv.mode, pos, rest, pos + mv.n)
            else Spans(mv.mode, start, rest, pos + mv.n)
  {
    hide Next;
  }

  lemma {:induction false} GroupFlagged(acc: seq<string>, s: string, opens: bool, kept: seq<(char, bool)>)
    requires s != "" && (opens || acc != [])
    ensures Group(acc, Flagged(s, opens) + kept)
            == Group(if opens then acc + [s] else acc[|acc| - 1 := acc[|acc| - 1] + s], kept)
    decreases |s|
  {
    var all := Flagged(s, opens) + kept;
    var acc1 := if opens then acc + [[s[0]]] else acc[|acc| - 1 := acc[|acc| - 1] + [s[0]]];
    assert Group(acc, all) == Group(acc1, all[1..]);
    if |s| == 1 {
      assert all[1..] == kept;
      assert s == [s[0]];
    } else {
      assert all[1..] == Flagged(s[1..], false) + kept;
      GroupFlagged(acc1, s[1..], false, kept);
      assert [s[0]] + s[1..] == s;
      assert acc1[|acc1| - 1] + s[1..] == if opens then s else acc[|acc| - 1] + s;
      assert acc1[|acc1| - 1 := acc1[|acc1| - 1] + s[1..]]
          == if opens then acc + [s] else acc[|acc| - 1 := acc[|acc| - 1] + s];
    }
  }

  lemma TextsCons(sql: string, sp: Span, more: seq<Span>)
    ensures Texts(sql, [sp] + more)
            == (if IsLiteralKind(sp.kind) && sp.start <= sp.stop <= |sql| then [sql[sp.start..sp.stop]] else [])
                + Texts(sql, more)
  {
    assert ([sp] + more)[1..] == more;
  }

  lemma MoveTo(m: Mode, s: string, n: nat, m': Mode, rest: string)
    requires ModeOk(m) && ModeOk(m') && n <= |s| && s[n..] == rest
    requires s != "" && Next(m, s).n == n && Next(m, s).mode == m'
    ensures EndMode(m, s) == EndMode(m', rest)
  {}

  /** One move of the scan, as grouping sees it. */
  lemma GroupMove(acc: seq<string>, m: Mode, s: string)
    requires s != "" && ModeOk(m) && (IsLiteralMode(m) ==> acc != [])
    ensures var mv := Next(m, s); var head := s[..mv.n];
            var acc' := if !mv.literal then acc
                        else if mv.opens then acc + [head]
                        else acc[|acc| - 1 := acc[|acc| - 1] + head];
            Group(acc, Kept(m, s)) == Group(acc', Kept(mv.mode, s[mv.n..]))
  {
    hide Next, Group, Kept, Flagged;
    Unfold(m, s);
    var mv := Next(m, s);
    if mv.literal {
      GroupFlagged(acc, s[..mv.n], mv.opens, Kept(mv.mode, s[mv.n..]));
    } else {
      assert [] + Kept(mv.mode, s[mv.n..]) == Kept(mv.mode, s[mv.n..]);
    }
  }

  lemma Appended(done: seq<string>, text: string, more: seq<string>)
    ensures done + [text] + more == done + ([text] + more) && done + more == done + ([] + more)
  {
    assert [] + more == more;
  }

  lemma TextsAtEnd(sql: string, m: Mode, start: nat, pos: nat, done: seq<string>)
    requires ModeOk(m) && start <= pos == |sql|
    ensures
      Group(if IsLiteralMode(m) then done + [sql[start..pos]] else done, Kept(m, ""))
      == done + Texts(sql, Spans(m, start, "", pos))
  {
    if !m.Code? {
      TextsCons(sql, Span(start, pos, KindOf(m)), []);
      assert [Span(start, pos, KindOf(m))] + [] == [Span(start, pos, KindOf(m))];
    }
  }

  /** The literal texts a scan reports are its kept characters grouped, from any point on. */
  lemma {:induction false} TextsAreKept(sql: string, m: Mode, start: nat, s: string, pos: nat, done: seq<string>)
    requires ModeOk(m) && start <= pos <= |sql| && sql[pos..] == s
    ensures
      Group(if IsLiteralMode(m) then done + [sql[start..pos]] else done, Kept(m, s))
      == done + Texts(sql, Spans(m, start, s, pos))
    decreases |s|
  {
    hide Next, Group, Texts, Kept, Spans;
    if s == "" {
      TextsAtEnd(sql, m, start, pos, done);
    } else {
      SpansMove(m, start, s, pos);
      var mv := Next(m, s);
      var rest, p := s[mv.n..], pos + mv.n;
      assert sql[p..] == rest && s[..mv.n] == sql[pos..p];
      GroupMove(if IsLiteralMode(m) then done + [sql[start..pos]] else done, m, s);
      assert IsLiteralMode(m) ==> sql[start..pos] + sql[pos..p] == sql[start..p];
      assert (done + [sql[start..pos]])[|done| := sql[start..p]] == done + [sql[start..p]];
      if m.Code? {
        TextsAreKept(sql, mv.mode, pos, rest, p, done);
      } else if mv.mode.Code? {
        var done' := if IsLiteralMode(m) then done + [sql[start..p]] else done;
        TextsAreKept(sql, mv.mode, pos, rest, p, done');
        TextsCons(sql, Span(start, if m.InLineComment? then pos else p, KindOf(m)), Spans(mv.mode, pos, rest, p));
        Appended(done, sql[start..p], Texts(sql, Spans(mv.mode, pos, rest, p)));
      } else {
        assert IsLiteralMode(mv.mode) == IsLiteralMode(m);
        TextsAreKept(sql, mv.mode, start, rest, p, done);
      }
    }
  }

  lemma LiteralTextsAreKept(sql: string)
    ensures LiteralTexts(sql) == Group([], Kept(Code(false), sql))
  {
    TextsAreKept(sql, Code(false), 0, sql, 0, []);
  }

  // ---------------------------------------------------------------------------------------------
  // A newline ends every lookahead
  // ---------------------------------------------------------------------------------------------

  predicate EndsInNewline(a: string) { a != "" && a[|a| - 1] == '\n' }

  lemma {:induction false} WordEndLocal(a: string, b: string, k: nat)
    requires EndsInNewline(a) && k < |a|
    ensures WordEnd(a + b, k) == WordEnd(a, k) < |a|
    decreases |a| - k
  {
    if IsWordChar(a[k]) {
      WordEndLocal(a, b, k + 1);
    }
  }

  lemma PrefixWithinLine(tag: string, a: string, b: string)
    requires EndsInNewline(a) && tag <= a + b
    ensures |tag| <= |a| || exists i :: 0 <= i < |tag| && tag[i] == '\n'
  {
    if |a| < |tag| {
      assert tag[|a| - 1] == (a + b)[|a| - 1];
    }
  }

  lemma NextLocal(m: Mode, a: string, b: string)
    requires EndsInNewline(a) && ModeOk(m)
    ensures Next(m, a + b) == Next(m, a)
  {
    var ab := a + b;
    assert ab[0] == a[0];
    if |a| >= 2 {
      assert ab[1] == a[1];
    }
    match m {
      case Code(_) =>
        if a[0] == '$' {
          if IsWordStart(a[1]) {
            WordEndLocal(a, b, 1);
          }
          assert DollarTag(ab) == DollarTag(a);
          assert ab[..DollarTag(a)] == a[..DollarTag(a)];
        }
      case InDollar(tag) =>
        if tag <= ab {
          PrefixWithinLine(tag, a, b);
        }
        if |tag| <= |a| {
          assert ab[..|tag|] == a[..|tag|];
        }
      case _ =>
    }
  }

  /** The scan of a text cut after a newline is the scan of the two parts, the second starting in the
      mode the first ended in. */
  lemma {:induction false} Compose(m: Mode, a: string, b: string)
    requires EndsInNewline(a) && ModeOk(m)
    ensures EndMode(m, a + b) == EndMode(EndMode(m, a), b)
    ensures Kept(m, a + b) == Kept(m, a) + Kept(EndMode(m, a), b)
    decreases |a|
  {
    hide Next, KeptBy, EndMode, Kept;
    NextLocal(m, a, b);
    Unfold(m, a);
    Unfold(m, a + b);
    var mv := Next(m, a);
    var a' := a[mv.n..];
    assert (a + b)[mv.n..] == a' + b;
    assert (a + b)[..mv.n] == a[..mv.n];
    if a' == "" {
      Unfold(mv.mode, a');
      assert a' + b == b;
    } else {
      Compose(mv.mode, a', b);
    }
  }

  /** After a newline a scan is never in a line comment, nor just behind an identifier. */
  lemma {:induction false} ModeAfterNewline(m: Mode, a: string)
    requires EndsInNewline(a) && ModeOk(m)
    ensures !EndMode(m, a).InLineComment? && EndMode(m, a) != Code(true)
    decreases |a|
  {
    var mv := Next(m, a);
    var a' := a[mv.n..];
    if a' != "" {
      assert EndsInNewline(a');
      ModeAfterNewline(mv.mode, a');
    } else if m.InDollar? {
      TagIsNotLine(m.tag, a);
    }
  }

  lemma TagIsNotLine(tag: string, a: string)
    requires IsTag(tag) && EndsInNewline(a)
    ensures tag != a
  {
  }

  // ---------------------------------------------------------------------------------------------
  // Spans and line starts
  // ---------------------------------------------------------------------------------------------

  predicate Covers(spans: seq<Span>, p: nat) {
    exists k :: 0 <= k < |spans| && IsLiteralKind(spans[k].kind) && spans[k].start < p < spans[k].stop
  }

  /** Spans come in order: none starts before the region the scan is in, and none ends before `pos`. */
  lemma {:induction false} SpansOrdered(m: Mode, start: nat, s: string, pos: nat)
    requires ModeOk(m) && start <= pos
    ensures forall sp <- Spans(m, start, s, pos) :: (if m.Code? then pos else start) <= sp.start <= sp.stop <= pos + |s|
    ensures !m.Code? ==>
              var r := Spans(m, start, s, pos);
              && r != [] && r[0].start == start && r[0].kind == KindOf(m) && pos <= r[0].stop
              && (IsLiteralMode(m) && s != "" ==> pos < r[0].stop)
              && forall k :: 0 < k < |r| ==> pos <= r[k].start
    decreases |s|
  {
    if s != "" {
      var mv := Next(m, s);
      var rest, p := s[mv.n..], pos + mv.n;
      if m.Code? {
        SpansOrdered(mv.mode, pos, rest, p);
      } else if mv.mode.Code? {
        SpansOrdered(mv.mode, pos, rest, p);
      } else {
        SpansOrdered(mv.mode, start, rest, p);
      }
    }
  }

  lemma CoversCons(sp: Span, more: seq<Span>, p: nat)
    requires sp.stop <= p
    ensures Covers([sp] + more, p) <==> Covers(more, p)
  {
    var all := [sp] + more;
    assert forall k :: 0 <= k < |more| ==> more[k] == all[k + 1];
    if Covers(all, p) {
      var k :| 0 <= k < |all| && IsLiteralKind(all[k].kind) && all[k].start < p < all[k].stop;
      assert all[k] == more[k - 1];
    }
    if Covers(more, p) {
      var k :| 0 <= k < |more| && IsLiteralKind(more[k].kind) && more[k].start < p < more[k].stop;
      assert all[k + 1] == more[k];
    }
  }

  /** A scan that stands just behind `p` covers `p` exactly if it is inside a literal that goes on. */
  lemma CoveredHere(m: Mode, start: nat, b: string, p: nat)
    requires ModeOk(m) && start < p
    ensures Covers(Spans(m, start, b, p), p) <==> IsLiteralMode(m) && b != ""
  {
    SpansOrdered(m, start, b, p);
    hide Spans, Next;
    var r := Spans(m, start, b, p);
    if IsLiteralMode(m) && b != "" {
      assert IsLiteralKind(r[0].kind) && r[0].start < p < r[0].stop;
    }
  }

  /** A position just after a newline lies inside a literal's span exactly when the scan up to it ends
      inside a literal and there is more text. */
  lemma {:induction false} CoveredAfterNewline(m: Mode, start: nat, a: string, b: string, pos: nat)
    requires EndsInNewline(a) && ModeOk(m) && start <= pos
    ensures Covers(Spans(m, start, a + b, pos), pos + |a|) <==> IsLiteralMode(EndMode(m, a)) && b != ""
    decreases |a|
  {
    hide Next, Spans, EndMode, Covers, EndsInNewline;
    Unfold(m, a);
    NextLocal(m, a, b);
    CoveredMove(m, start, a, b, pos);
    var mv := Next(m, a);
    var a', p := a[mv.n..], pos + mv.n;
    var start' := if !m.Code? && !mv.mode.Code? then start else pos;
    if a' == "" {
      Unfold(mv.mode, a');
      assert a' + b == b;
      CoveredHere(mv.mode, start', b, p);
    } else {
      LastStays(a, mv.n);
      CoveredAfterNewline(mv.mode, start', a', b, p);
    }
  }

  lemma LastStays(a: string, n: nat)
    requires EndsInNewline(a) && n < |a|
    ensures EndsInNewline(a[n..])
  {
  }

  /** One move of the scan, and what it covers behind. */
  lemma CoveredMove(m: Mode, start: nat, a: string, b: string, pos: nat)
    requires EndsInNewline(a) && ModeOk(m) && start <= pos
    ensures var mv := Next(m, a);
      var more := Spans(mv.mode, if !m.Code? && !mv.mode.Code? then start else pos, a[mv.n..] + b, pos + mv.n);
      Covers(Spans(m, start, a + b, pos), pos + |a|) <==> Covers(more, pos + |a|)
  {
    hide Next, Spans, Covers;
    NextLocal(m, a, b);
    SpansMove(m, start, a + b, pos);
    var mv := Next(m, a);
    var a', p := a[mv.n..], pos + mv.n;
    assert (a + b)[mv.n..] == a' + b;
    if !m.Code? && mv.mode.Code? {
      var closed := Span(start, if m.InLineComment? then pos else p, KindOf(m));
      CoversCons(closed, Spans(mv.mode, pos, a' + b, p), pos + |a|);
    }
  }

  // ---------------------------------------------------------------------------------------------
  // The walk
  // ---------------------------------------------------------------------------------------------

  predicate AfterIdent(sql: string, i: nat)
    requires i <= |sql|
  {
    i > 0 && IsIdentChar(sql[i - 1])
  }

  /** `sub` stands in `s` at `i` (`str.startswith` with a start position). */
  predicate StandsAt(s: string, sub: string, i: nat) { i + |sub| <= |s| && s[i..i + |sub|] == sub }

  /** The first position from `from` on where `sub` stands, or -1 (`str.find`). */
  function Find(s: string, sub: string, from: nat): (r: int)
    requires from <= |s|
    ensures r == -1 || (from <= r && StandsAt(s, sub, r))
    ensures forall i :: from <= i < (if r < 0 then |s| else r) ==> !StandsAt(s, sub, i)
    decreases |s| - from
  {
    if StandsAt(s, sub, from) then from
    else if from == |s| then -1
    else Find(s, sub, from + 1)
  }

  /** Where the region the scan is in at `i` ends. */
  function RegionEnd(m: Mode, sql: string, i: nat): (r: nat)
    requires i <= |sql| && ModeOk(m) && !m.Code?
    ensures i <= r <= |sql|
    decreases |sql| - i
  {
    if i == |sql| || (m.InLineComment? && sql[i] == '\n') then i
    else
      var mv := Next(m, sql[i..]);
      if mv.mode.Code? then i + mv.n else RegionEnd(mv.mode, sql, i + mv.n)
  }

  /** The spans from `i` on, when `i` is in code. */
  function CodeSpans(sql: string, i: nat): seq<Span>
    requires i <= |sql|
  {
    Spans(Code(AfterIdent(sql, i)), i, sql[i..], i)
  }

  lemma CloseMode(m: Mode, s: string)
    requires s != "" && ModeOk(m) && !m.Code? && Next(m, s).mode.Code?
    ensures Next(m, s).mode == Code(IsIdentChar(s[Next(m, s).n - 1]))
  {
    if m.InDollar? {
      assert s[|m.tag| - 1] == m.tag[|m.tag| - 1];
    }
  }

  lemma RegionMove(m: Mode, start: nat, sql: string, i: nat)
    requires i < |sql| && ModeOk(m) && !m.Code? && !(m.InLineComment? && sql[i] == '\n')
    ensures var mv := Next(m, sql[i..]);
            && RegionEnd(m, sql, i) == (if mv.mode.Code? then i + mv.n else RegionEnd(mv.mode, sql, i + mv.n))
            && Spans(m, start, sql[i..], i) ==
               if mv.mode.Code? then [Span(start, i + mv.n, KindOf(m))] + Spans(mv.mode, i, sql[i + mv.n..], i + mv.n)
               else Spans(mv.mode, start, sql[i + mv.n..], i + mv.n)
    ensures m.InLineComment? ==> Next(m, sql[i..]) == Move(1, m, false, false)
  {
    SpansMove(m, start, sql[i..], i);
    assert sql[i..][Next(m, sql[i..]).n..] == sql[i + Next(m, sql[i..]).n..];
  }

  lemma CodeFromAnyStart(afterIdent: bool, x: nat, y: nat, s: string, pos: nat)
    ensures Spans(Code(afterIdent), x, s, pos) == Spans(Code(afterIdent), y, s, pos)
  {
    hide Next;
  }

  /** At a newline, or at the end of the text, a region that ends there is reported without it. */
  lemma RegionEndsHere(m: Mode, start: nat, sql: string, i: nat)
    requires i <= |sql| && ModeOk(m) && !m.Code?
    requires i == |sql| || (m.InLineComment? && sql[i] == '\n')
    ensures Spans(m, start, sql[i..], i) == [Span(start, i, KindOf(m))] + CodeSpans(sql, i)
  {
    var s := sql[i..];
    if i < |sql| {
      assert Next(m, s) == Next(Code(AfterIdent(sql, i)), s) == Move(1, Code(false), false, false);
    }
  }

  /** A region is reported as one span, up to where it ends, and the scan goes on in code. */
  lemma {:induction false} RegionIsOneSpan(m: Mode, start: nat, sql: string, i: nat)
    requires i <= |sql| && ModeOk(m) && !m.Code?
    ensures Spans(m, start, sql[i..], i)
            == [Span(start, RegionEnd(m, sql, i), KindOf(m))] + CodeSpans(sql, RegionEnd(m, sql, i))
    decreases |sql| - i
  {
    hide Next, Spans;
    if i == |sql| || (m.InLineComment? && sql[i] == '\n') {
      RegionEndsHere(m, start, sql, i);
    } else {
      var mv := Next(m, sql[i..]);
      RegionMove(m, start, sql, i);
      if mv.mode.Code? {
        CloseMode(m, sql[i..]);
        assert sql[i..][mv.n - 1] == sql[i + mv.n - 1];
        CodeFromAnyStart(mv.mode.afterIdent, i, i + mv.n, sql[i + mv.n..], i + mv.n);
      } else {
        RegionIsOneSpan(mv.mode, start, sql, i + mv.n);
      }
    }
  }

  lemma Marks(sql: string, c0: char, c1: char, i: nat)
    requires i <= |sql|
    ensures StandsAt(sql, [c0, c1], i) <==> StartsWith2(sql[i..], c0, c1)
    ensures StandsAt(sql, [c0], i) <==> i < |sql| && sql[i] == c0
  {
    if i + 2 <= |sql| {
      assert sql[i..i + 2] == [sql[i], sql[i + 1]];
    }
    if i < |sql| {
      assert sql[i..i + 1] == [sql[i]];
    }
  }

  /** What `Next` says, in terms of positions in the text, region by region. */
  lemma QuotedStep(sql: string, quote: char, i: nat)
    requires i < |sql| && (quote == '"' || quote == '\'')
    ensures var m := if quote == '"' then InQuotedIdent else InPlain;
            RegionEnd(m, sql, i) ==
            if sql[i] != quote then RegionEnd(m, sql, i + 1)
            else if StandsAt(sql, [quote, quote], i) then RegionEnd(m, sql, i + 2)
            else i + 1
  {
    hide StandsAt;
    Marks(sql, quote, quote, i);
  }

  lemma EStringStep(sql: string, i: nat)
    requires i < |sql|
    ensures RegionEnd(InEString, sql, i) ==
            if sql[i] == '\\' && i + 1 < |sql| then RegionEnd(InEString, sql, i + 2)
            else if sql[i] != '\'' then RegionEnd(InEString, sql, i + 1)
            else if StandsAt(sql, "''", i) then RegionEnd(InEString, sql, i + 2)
            else i + 1
  {
    Marks(sql, '\'', '\'', i);
  }

  lemma BlockCommentStep(sql: string, depth: nat, i: nat)
    requires i < |sql| && depth >= 1
    ensures RegionEnd(InBlockComment(depth), sql, i) ==
            if StandsAt(sql, "/*", i) then RegionEnd(InBlockComment(depth + 1), sql, i + 2)
            else if !StandsAt(sql, "*/", i) then RegionEnd(InBlockComment(depth), sql, i + 1)
            else if depth == 1 then i + 2
            else RegionEnd(InBlockComment(depth - 1), sql, i + 2)
  {
    Marks(sql, '/', '*', i);
    Marks(sql, '*', '/', i);
  }

  lemma {:induction false} LineCommentEnd(sql: string, i: nat)
    requires i <= |sql|
    ensures var nl := Find(sql, "\n", i);
            RegionEnd(InLineComment, sql, i) == if nl < 0 then |sql| else nl
    decreases |sql| - i
  {
    Marks(sql, '\n', '\n', i);
    if i < |sql| && sql[i] != '\n' {
      LineCommentEnd(sql, i + 1);
      RegionMove(InLineComment, i, sql, i);
    }
  }

  lemma {:induction false} DollarEnd(sql: string, tag: string, i: nat)
    requires i <= |sql| && IsTag(tag)
    ensures var close := Find(sql, tag, i);
            RegionEnd(InDollar(tag), sql, i) == if close < 0 then |sql| else close + |tag|
    decreases |sql| - i
  {
    hide StandsAt;
    TagStands(sql, tag, i);
    if i < |sql| {
      DollarEnd(sql, tag, i + 1);
    }
  }

  lemma TagStands(sql: string, tag: string, i: nat)
    requires i <= |sql|
    ensures tag <= sql[i..] <==> StandsAt(sql, tag, i)
  {
    if |tag| <= |sql| - i {
      assert sql[i..][..|tag|] == sql[i..i + |tag|];
    }
  }

  /** What `Next` says in code, in terms of positions in the text. */
  lemma NextInCode(sql: string, i: nat)
    requires i < |sql|
    ensures var c := sql[i]; var k := DollarTag(sql[i..]);
            Next(Code(AfterIdent(sql, i)), sql[i..]) ==
            if StandsAt(sql, "--", i) then Move(1, InLineComment, false, false)
            else if StandsAt(sql, "/*", i) then Move(2, InBlockComment(1), false, false)
            else if c == '"' then Move(1, InQuotedIdent, false, false)
            else if k > 0 then Move(k, InDollar(sql[i..i + k]), true, true)
            else if (c == 'e' || c == 'E') && StandsAt(sql, "'", i + 1)
                && !AfterIdent(sql, i) then Move(2, InEString, true, true)
            else if c == '\'' then Move(1, InPlain, true, true)
            else Move(1, Code(AfterIdent(sql, i + 1)), false, false)
    ensures DollarTag(sql[i..]) > 0 ==> sql[i] == '$' && IsTag(sql[i..i + DollarTag(sql[i..])])
  {
    hide DollarTag;
    assert sql[i..][..DollarTag(sql[i..])] == sql[i..i + DollarTag(sql[i..])];
    Marks(sql, '-', '-', i);
    Marks(sql, '/', '*', i);
    Marks(sql, '\'', '\'', i + 1);
  }

  /** What the walk reports from a position in code on. */
  lemma CodeStep(sql: string, i: nat)
    requires i < |sql|
    ensures var mv := Next(Code(AfterIdent(sql, i)), sql[i..]);
            CodeSpans(sql, i) ==
            if !mv.mode.Code? then FromRegion(sql, i, mv.mode, mv.n)
            else if mv.mode.afterIdent == AfterIdent(sql, i + mv.n) then CodeSpans(sql, i + mv.n)
            else CodeSpans(sql, i)
  {
    hide Spans, RegionEnd, Next, AfterIdent;
    var m := Code(AfterIdent(sql, i));
    var mv := Next(m, sql[i..]);
    SpansMove(m, i, sql[i..], i);
    var rest := sql[i + mv.n..];
    assert sql[i..][mv.n..] == rest;
    if mv.mode.Code? {
      CodeFromAnyStart(mv.mode.afterIdent, i, i + mv.n, rest, i + mv.n);
    } else {
      RegionIsOneSpan(mv.mode, i, sql, i + mv.n);
    }
  }

  /** The spans from `i` on when a region begins there with an opening mark of `n` characters. */
  function FromRegion(sql: string, i: nat, m: Mode, n: nat): seq<Span>
    requires i + n <= |sql| && ModeOk(m) && !m.Code?
  {
    var stop := RegionEnd(m, sql, i + n);
    [Span(i, stop, KindOf(m))] + CodeSpans(sql, stop)
  }

  /** Skip a block comment from behind its opening mark, counting the comments nested in it. */
  method SkipBlockComment(sql: string, start: nat) returns (i: nat)
    requires start + 2 <= |sql|
    ensures i == RegionEnd(InBlockComment(1), sql, start + 2)
  {
    hide RegionEnd;
    var depth := 1;
    i := start + 2;
    while i < |sql| && depth > 0
      invariant start + 2 <= i <= |sql|
      invariant (if depth == 0 then i else RegionEnd(InBlockComment(depth), sql, i))
          == RegionEnd(InBlockComment(1), sql, start + 2)
      decreases |sql| - i
    {
      BlockCommentStep(sql, depth, i);
      if StandsAt(sql, "/*", i) {
        depth, i := depth + 1, i + 2;
      } else if StandsAt(sql, "*/", i) {
        depth, i := depth - 1, i + 2;
      } else {
        i := i + 1;
      }
    }
  }

  /** Skip a quoted identifier or a plain literal from behind its opening `quote`; a doubled quote
      stays inside. */
  method SkipQuoted(sql: string, start: nat, quote: char) returns (i: nat)
    requires start + 1 <= |sql| && (quote == '"' || quote == '\'')
    ensures i == RegionEnd(if quote == '"' then InQuotedIdent else InPlain, sql, start + 1)
  {
    hide RegionEnd;
    ghost var m := if quote == '"' then InQuotedIdent else InPlain;
    i := start + 1;
    while i < |sql|
      invariant start + 1 <= i <= |sql|
      invariant RegionEnd(m, sql, i) == RegionEnd(m, sql, start + 1)
    {
      QuotedStep(sql, quote, i);
      if sql[i] == quote {
        if StandsAt(sql, [quote, quote], i) {
          i := i + 2;
          continue;
        }
        i := i + 1;
        return;
      }
      i := i + 1;
    }
  }

  /** Skip an `E'...'` literal from behind its opening quote; a backslash takes the next character
      with it. */
  method SkipEString(sql: string, start: nat) returns (j: nat)
    requires start + 2 <= |sql|
    ensures j == RegionEnd(InEString, sql, start + 2)
  {
    hide RegionEnd;
    j := start + 2;
    while j < |sql|
      invariant start + 2 <= j <= |sql|
      invariant RegionEnd(InEString, sql, j) == RegionEnd(InEString, sql, start + 2)
    {
      EStringStep(sql, j);
      if sql[j] == '\\' && j + 1 < |sql| {
        j := j + 2;
        continue;
      }
      if sql[j] == '\'' {
        if StandsAt(sql, "''", j) {
          j := j + 2;
          continue;
        }
        j := j + 1;
        return;
      }
      j := j + 1;
    }
  }

  /** Skip a line comment: up to the newline, or to the end of the text. */
  method SkipLineComment(sql: string, start: nat) returns (stop: nat)
    requires StandsAt(sql, "--", start)
    ensures stop == RegionEnd(InLineComment, sql, start + 1)
  {
    Marks(sql, '-', '-', start);
    LineCommentEnd(sql, start);
    RegionMove(InLineComment, start, sql, start);
    var nl := Find(sql, "\n", start);
    stop := if nl < 0 then |sql| else nl;
  }

  /** Skip a dollar-quoted body from behind its opening tag: through its own tag, or to the end. */
  method SkipDollar(sql: string, from: nat, tag: string) returns (stop: nat)
    requires from <= |sql| && IsTag(tag)
    ensures stop == RegionEnd(InDollar(tag), sql, from)
  {
    DollarEnd(sql, tag, from);
    var close := Find(sql, tag, from);
    stop := if close < 0 then |sql| else close + |tag|;
  }

  /** The walk: where each literal, comment and quoted name begins and ends. */
  method IterSqlSpans(sql: string) returns (spans: seq<Span>)
    ensures spans == AllSpans(sql)
  {
    hide RegionEnd, CodeSpans, DollarTag, Find, StandsAt, AfterIdent, Next, IsTag;
    spans := [];
    var i := 0;
    SpansAtEnds(sql);
    while i < |sql|
      invariant i <= |sql|
      invariant spans + CodeSpans(sql, i) == AllSpans(sql)
    {
      CodeStep(sql, i);
      NextInCode(sql, i);
      Marks(sql, '-', '-', i);
      Marks(sql, '/', '*', i);
      var c := sql[i];
      if c == '-' && StandsAt(sql, "--", i) {
        var stop := SkipLineComment(sql, i);
        spans, i := spans + [Span(i, stop, LineComment)], stop;
        continue;
      }
      if c == '/' && StandsAt(sql, "/*", i) {
        var stop := SkipBlockComment(sql, i);
        spans, i := spans + [Span(i, stop, BlockComment)], stop;
        continue;
      }
      if c == '"' {
        var stop := SkipQuoted(sql, i, '"');
        spans, i := spans + [Span(i, stop, QuotedIdent)], stop;
        continue;
      }
      if c == '$' {
        var k := DollarTag(sql[i..]);
        if k > 0 {
          var stop := SkipDollar(sql, i + k, sql[i..i + k]);
          spans, i := spans + [Span(i, stop, Dollar)], stop;
          continue;
        }
      }
      if (c == 'e' || c == 'E') && StandsAt(sql, "'", i + 1) && !AfterIdent(sql, i) {
        var j := SkipEString(sql, i);
        spans, i := spans + [Span(i, j, EString)], j;
        continue;
      }
      if c == '\'' {
        var j := SkipQuoted(sql, i, '\'');
        spans, i := spans + [Span(i, j, Plain)], j;
        continue;
      }
      i := i + 1;
    }
  }

  lemma SpansAtEnds(sql: string)
    ensures CodeSpans(sql, 0) == AllSpans(sql)
    ensures CodeSpans(sql, |sql|) == []
  {
    assert sql[0..] == sql;
  }

}
