/** Dollar-quoted bodies that a script cuts into several statements: `open_dollar_quote` in
    `format.py` and the walk over a script's statements in `cli/lint.py` that relies on it.

    The walk scans each statement on its own and hands on nothing but the tag still open.
    `OpenQuoteComposes` says when that is enough to know the state of the whole text, `TagIsEnoughIff`
    exactly when it is enough whatever follows, and `WalkSeesWholeText` draws the conclusion for the
    walk. */
module DollarQuotes {
  import opened Options
  import opened SqlSpans

  /** The tag a scan that ended in mode `m` has left open. */
  function OpenTag(m: Mode): Option<string> {
    if m.InDollar? then Some(m.tag) else None
  }

  /** The mode at the end of `sql`, when `open` was open at its start. */
  function ScanFrom(sql: string, open: Option<string>): (r: Mode)
    requires open.Some? ==> IsTag(open.value)
    ensures ModeOk(r)
  {
    match open
    case None => EndMode(Code(false), sql)
    case Some(tag) =>
      var close := Find(sql, tag, 0);
      if close < 0 then InDollar(tag) else EndMode(Code(false), sql[close + |tag|..])
  }

  /** The tag, if any, that a scan of all of `sql` leaves open. */
  function OpenAt(sql: string, open: Option<string>): Option<string>
    requires open.Some? ==> IsTag(open.value)
  {
    OpenTag(ScanFrom(sql, open))
  }

  /** The tag of the first dollar span of `rest` that does not end in its own tag. */
  function FirstOpen(rest: string, spans: seq<Span>): Option<string> {
    if spans == [] then None
    else if IsOpenSpan(rest, spans[0]) then Some(TagOf(rest, spans[0]))
    else FirstOpen(rest, spans[1..])
  }

  function TagOf(rest: string, sp: Span): string {
    var s := rest[if sp.start <= |rest| then sp.start else |rest|..];
    s[..DollarTag(s)]
  }

  predicate IsOpenSpan(rest: string, sp: Span) {
    && sp.kind == Dollar
    && (var tag := TagOf(rest, sp);
        sp.start <= sp.stop <= |rest| &&
        (sp.stop - sp.start < 2 * |tag| || rest[sp.stop - |tag|..sp.stop] != tag))
  }

  /** `open_dollar_quote`. */
  method OpenDollarQuote(sql: string, open: Option<string>) returns (r: Option<string>)
    requires open.Some? ==> IsTag(open.value)
    ensures r == OpenAt(sql, open)
  {
    hide Spans, Next, EndMode, Find;
    var start := 0;
    if open.Some? {
      var close := Find(sql, open.value, 0);
      if close < 0 {
        return open;
      }
      start := close + |open.value|;
    }
    var rest := sql[start..];
    assert open.None? ==> rest == sql;
    LoopFindsOpenTag(rest);
    var spans := IterSqlSpans(rest);
    for k := 0 to |spans|
      invariant FirstOpen(rest, spans[k..]) == FirstOpen(rest, AllSpans(rest))
    {
      assert spans[k..][1..] == spans[k + 1..];
      if spans[k].kind == Dollar && IsOpenSpan(rest, spans[k]) {
        return Some(TagOf(rest, spans[k]));
      }
    }
    return None;
  }

  // ---------------------------------------------------------------------------------------------
  // The loop finds the open tag
  // ---------------------------------------------------------------------------------------------

  lemma RegionEndHere(m: Mode, sql: string, i: nat)
    requires i <= |sql| && ModeOk(m) && !m.Code?
    requires i == |sql| || (m.InLineComment? && sql[i] == '\n')
    ensures RegionEnd(m, sql, i) == i
  {}

  /** From inside a region, the scan ends either in that region or where it goes on behind it. */
  lemma {:induction false} RegionEndMode(m: Mode, sql: string, i: nat)
    requires i <= |sql| && ModeOk(m) && !m.Code?
    ensures var stop := RegionEnd(m, sql, i);
            || EndMode(m, sql[i..]) == EndMode(Code(AfterIdent(sql, stop)), sql[stop..])
            || (stop == |sql| && !EndMode(m, sql[i..]).Code? && KindOf(EndMode(m, sql[i..])) == KindOf(m))
    decreases |sql| - i
  {
    hide Next, EndMode, RegionEnd, Spans, Kept;
    Unfold(m, sql[i..]);
    if i == |sql| {
      RegionEndHere(m, sql, i);
    } else if m.InLineComment? && sql[i] == '\n' {
      RegionEndHere(m, sql, i);
      NewlineEndsComment(sql[i..], AfterIdent(sql, i));
    } else {
      var mv := Next(m, sql[i..]);
      assert sql[i..][mv.n..] == sql[i + mv.n..];
      RegionMove(m, i, sql, i);
      if mv.mode.Code? {
        CloseMode(m, sql[i..]);
        assert sql[i..][mv.n - 1] == sql[i + mv.n - 1];
      } else {
        RegionEndMode(mv.mode, sql, i + mv.n);
      }
    }
  }

  lemma NewlineEndsComment(s: string, afterIdent: bool)
    requires s != "" && s[0] == '\n'
    ensures EndMode(InLineComment, s) == EndMode(Code(afterIdent), s)
  {
    assert Next(InLineComment, s) == Next(Code(afterIdent), s) == Move(1, Code(false), false, false);
  }

  lemma DollarMove(tag: string, s: string)
    requires IsTag(tag) && s != ""
    ensures Next(InDollar(tag), s)
            == if StandsAt(s, tag, 0) then Move(|tag|, Code(true), true, false) else Move(1, InDollar(tag), true, false)
  {
    if |tag| <= |s| {
      assert s[..|tag|] == s[0..|tag|];
    }
  }

  lemma FindStep(s: string, sub: string, from: nat)
    requires from <= |s|
    ensures Find(s, sub, from)
            == if StandsAt(s, sub, from) then from else if from == |s| then -1 else Find(s, sub, from + 1)
    ensures sub != "" ==> !StandsAt(s, sub, |s|)
  {}

  /** A dollar body ends at the first occurrence of its tag, or never. */
  lemma {:induction false} DollarEndMode(tag: string, s: string)
    requires IsTag(tag)
    ensures var close := Find(s, tag, 0);
            EndMode(InDollar(tag), s) == if close < 0 then InDollar(tag) else EndMode(Code(true), s[close + |tag|..])
    decreases |s|
  {
    hide Next, EndMode, Kept, Find;
    Unfold(InDollar(tag), s);
    FindStep(s, tag, 0);
    if s != "" {
      DollarMove(tag, s);
      if !StandsAt(s, tag, 0) {
        DollarEndMode(tag, s[1..]);
        FindShift(s, tag, 1, 0);
        var close := Find(s[1..], tag, 0);
        assert close >= 0 ==> s[1..][close + |tag|..] == s[close + 1 + |tag|..];
      }
    }
  }

  lemma {:induction false} FindShift(s: string, sub: string, k: nat, from: nat)
    requires k + from <= |s|
    ensures var r := Find(s[k..], sub, from); Find(s, sub, k + from) == if r < 0 then -1 else k + r
    decreases |s| - from
  {
    var t := s[k..];
    if from + |sub| <= |t| {
      assert t[from..from + |sub|] == s[k + from..k + from + |sub|];
    }
    if !StandsAt(t, sub, from) && from < |t| {
      FindShift(s, sub, k, from + 1);
    }
  }

  /** A dollar span is open exactly if its tag does not occur again behind its opening. */
  lemma OpenSpanIff(sql: string, i: nat, stop: nat)
    requires i < |sql| && DollarTag(sql[i..]) > 0
    requires var tag := sql[i..i + DollarTag(sql[i..])];
             var close := Find(sql, tag, i + |tag|);
             stop == if close < 0 then |sql| else close + |tag|
    ensures TagOf(sql, Span(i, stop, Dollar)) == sql[i..i + DollarTag(sql[i..])]
    ensures IsOpenSpan(sql, Span(i, stop, Dollar))
            <==> Find(sql, sql[i..i + DollarTag(sql[i..])], i + DollarTag(sql[i..])) < 0
  {
    hide DollarTag, Find, TagOf;
    var k := DollarTag(sql[i..]);
    var tag := sql[i..i + k];
    SpanTag(sql, i, stop);
    var close := Find(sql, tag, i + k);
    if close < 0 && stop - i >= 2 * k {
      assert !StandsAt(sql, tag, stop - k);
      assert sql[stop - k..stop - k + |tag|] != tag;
    }
  }

  lemma SpanTag(sql: string, i: nat, stop: nat)
    requires i < |sql| && DollarTag(sql[i..]) > 0
    ensures TagOf(sql, Span(i, stop, Dollar)) == sql[i..i + DollarTag(sql[i..])]
  {
    hide DollarTag;
    assert sql[i..][..DollarTag(sql[i..])] == sql[i..i + DollarTag(sql[i..])];
  }

  lemma FirstOpenCons(sql: string, sp: Span, more: seq<Span>)
    ensures FirstOpen(sql, [sp] + more) == if IsOpenSpan(sql, sp) then Some(TagOf(sql, sp)) else FirstOpen(sql, more)
  {
    hide IsOpenSpan, TagOf;
    assert ([sp] + more)[1..] == more;
  }

  /** One region: either it is left open, which only a dollar quote counts as, or the scan is past it. */
  lemma FirstOpenRegion(sql: string, i: nat, m: Mode, n: nat)
    requires i + n <= |sql| && ModeOk(m) && !m.Code?
    requires m.InDollar? ==> i < |sql| && n == DollarTag(sql[i..]) > 0 && m.tag == sql[i..i + n]
    ensures var stop := RegionEnd(m, sql, i + n);
            OpenTag(EndMode(m, sql[i + n..])) ==
            if IsOpenSpan(sql, Span(i, stop, KindOf(m))) then Some(TagOf(sql, Span(i, stop, KindOf(m))))
            else OpenTag(EndMode(Code(AfterIdent(sql, stop)), sql[stop..]))
  {
    hide Next, EndMode, Find, RegionEnd, TagOf, DollarTag;
    var stop := RegionEnd(m, sql, i + n);
    if m.InDollar? {
      DollarSpanMode(sql, i, n, stop);
    } else {
      RegionEndMode(m, sql, i + n);
      if stop == |sql| {
        Unfold(Code(AfterIdent(sql, stop)), sql[stop..]);
      }
    }
  }

  lemma FirstOpenAtEnd(sql: string, m: Mode)
    requires m.Code?
    ensures FirstOpen(sql, CodeSpans(sql, |sql|)) == OpenTag(m)
  {
    SpansAtEnds(sql);
  }

  lemma FromCode(sql: string, i: nat)
    requires i < |sql|
    ensures var mv := Next(Code(AfterIdent(sql, i)), sql[i..]);
            && (mv.mode.Code? ==> mv.mode == Code(AfterIdent(sql, i + mv.n)))
            && (mv.mode.InDollar? ==> mv.n == DollarTag(sql[i..]) > 0 && mv.mode.tag == sql[i..i + mv.n])
  {
    hide DollarTag, StandsAt;
    NextInCode(sql, i);
  }

  lemma {:induction false} FirstOpenIsMode(sql: string, i: nat)
    requires i <= |sql|
    ensures FirstOpen(sql, CodeSpans(sql, i)) == OpenTag(EndMode(Code(AfterIdent(sql, i)), sql[i..]))
    decreases |sql| - i
  {
    hide Next, Spans, EndMode, Kept, Find, CodeSpans, RegionEnd, IsOpenSpan, TagOf, DollarTag, StandsAt, FirstOpen,
        OpenTag, AfterIdent;
    var m := Code(AfterIdent(sql, i));
    Unfold(m, sql[i..]);
    if i == |sql| {
      FirstOpenAtEnd(sql, m);
    } else {
      var mv := Next(m, sql[i..]);
      assert sql[i..][mv.n..] == sql[i + mv.n..];
      CodeStep(sql, i);
      FromCode(sql, i);
      if mv.mode.Code? {
        FirstOpenIsMode(sql, i + mv.n);
      } else {
        var stop := RegionEnd(mv.mode, sql, i + mv.n);
        FirstOpenRegion(sql, i, mv.mode, mv.n);
        FirstOpenCons(sql, Span(i, stop, KindOf(mv.mode)), CodeSpans(sql, stop));
        FirstOpenIsMode(sql, stop);
      }
    }
  }

  lemma DollarSpanMode(sql: string, i: nat, k: nat, stop: nat)
    requires i < |sql| && k == DollarTag(sql[i..]) > 0 && i + k <= |sql| && IsTag(sql[i..i + k])
    requires stop == RegionEnd(InDollar(sql[i..i + k]), sql, i + k)
    ensures var tag := sql[i..i + k];
            if IsOpenSpan(sql, Span(i, stop, Dollar)) then
              TagOf(sql, Span(i, stop, Dollar)) == tag && EndMode(InDollar(tag), sql[i + k..]) == InDollar(tag)
            else EndMode(InDollar(tag), sql[i + k..]) == EndMode(Code(AfterIdent(sql, stop)), sql[stop..])
  {
    hide EndMode, Next, IsOpenSpan, TagOf, Find, RegionEnd, DollarTag, AfterIdent;
    var tag := sql[i..i + k];
    DollarEnd(sql, tag, i + k);
    OpenSpanIff(sql, i, stop);
    ModeBehindBody(sql, tag, i + k);
  }

  lemma ModeBehindBody(sql: string, tag: string, from: nat)
    requires IsTag(tag) && from <= |sql|
    ensures var close := Find(sql, tag, from);
            EndMode(InDollar(tag), sql[from..]) ==
            if close < 0 then InDollar(tag)
            else EndMode(Code(AfterIdent(sql, close + |tag|)), sql[close + |tag|..])
  {
    hide EndMode, Find, AfterIdent, StandsAt;
    DollarEndMode(tag, sql[from..]);
    FindShift(sql, tag, from, 0);
    var close := Find(sql, tag, from);
    if close >= 0 {
      BehindClose(sql, tag, from, close);
    }
  }

  lemma BehindClose(sql: string, tag: string, from: nat, close: nat)
    requires IsTag(tag) && from <= close && StandsAt(sql, tag, close)
    ensures sql[from..][close - from + |tag|..] == sql[close + |tag|..] && AfterIdent(sql, close + |tag|)
  {
    assert sql[close + |tag| - 1] == sql[close..close + |tag|][|tag| - 1];
  }

  lemma LoopFindsOpenTag(rest: string)
    ensures FirstOpen(rest, AllSpans(rest)) == OpenAt(rest, None)
  {
    SpansAtEnds(rest);
    FirstOpenIsMode(rest, 0);
    assert rest[0..] == rest;
  }

  // ---------------------------------------------------------------------------------------------
  // Scanning composes
  // ---------------------------------------------------------------------------------------------

  /** `tag` does not close in `b` right before an `e'` or `E'`: behind a `$` that would not be an escape
      string, but a scan that starts there takes it for one. */
  predicate ClosesCleanly(b: string, tag: string) {
    var close := Find(b, tag, 0);
    close >= 0 ==> !StartsEString(b[close + |tag|..])
  }

  /** Whether the open tag alone says enough about a scan that ended in `m` before `b`. */
  predicate CarriesOver(m: Mode, b: string) {
    m.Code? || (m.InDollar? && ClosesCleanly(b, m.tag))
  }

  lemma AfterIdentMatters(s: string)
    requires !StartsEString(s)
    ensures OpenTag(EndMode(Code(true), s)) == OpenTag(EndMode(Code(false), s))
  {
    if s != "" {
      assert Next(Code(true), s) == Next(Code(false), s);
    }
  }

  /** Where `tag` is first found in `a + b` when `a` ends in a newline: in `a`, or else in `b`. */
  lemma {:induction false} FindAcross(a: string, b: string, tag: string, from: nat)
    requires EndsInNewline(a) && IsTag(tag) && from <= |a|
    ensures var r := Find(a, tag, from); var q := Find(b, tag, 0);
            Find(a + b, tag, from) == if r >= 0 then r else if q >= 0 then |a| + q else -1
    decreases |a| - from
  {
    var ab := a + b;
    if from == |a| {
      FindShift(ab, tag, |a|, 0);
      assert ab[|a|..] == b;
    } else {
      assert StandsAt(a, tag, from) == StandsAt(ab, tag, from) by {
        if from + |tag| <= |a| {
          assert a[from..from + |tag|] == ab[from..from + |tag|];
        } else if from + |tag| <= |ab| {
          assert ab[from..from + |tag|][|a| - 1 - from] == '\n';
        }
      }
      if !StandsAt(a, tag, from) {
        FindAcross(a, b, tag, from + 1);
      }
    }
  }

  lemma CodeCarriesOver(a: string, b: string)
    requires EndsInNewline(a) && CarriesOver(EndMode(Code(false), a), b)
    ensures OpenTag(EndMode(Code(false), a + b)) == OpenAt(b, OpenTag(EndMode(Code(false), a)))
  {
    hide EndMode, Next, Find, Kept;
    var m := EndMode(Code(false), a);
    Compose(Code(false), a, b);
    ModeAfterNewline(Code(false), a);
    if m.InDollar? {
      DollarEndMode(m.tag, b);
      var close := Find(b, m.tag, 0);
      if close >= 0 {
        AfterIdentMatters(b[close + |m.tag|..]);
      }
    }
  }

  /** Scanning `a + b` is scanning `a`, then `b` with the tag `a` left open, when `a` ends in a newline
      and outside comments, quoted names and quoted literals. */
  lemma OpenQuoteComposes(a: string, b: string, open: Option<string>)
    requires open.Some? ==> IsTag(open.value)
    requires EndsInNewline(a) && CarriesOver(ScanFrom(a, open), b)
    ensures OpenAt(a + b, open) == OpenAt(b, OpenAt(a, open))
  {
    hide EndMode, Next, Find, Kept, IsTag, EndsInNewline;
    match open
    case None => CodeCarriesOver(a, b);
    case Some(tag) =>
      FindAcross(a, b, tag, 0);
      var close := Find(a, tag, 0);
      if close >= 0 {
        var rest := a[close + |tag|..];
        DropConcat(a, b, close + |tag|);
        TagEndsBeforeNewline(a, tag, close);
        CodeCarriesOver(rest, b);
      } else if Find(b, tag, 0) >= 0 {
        DropConcat(a, b, |a| + Find(b, tag, 0) + |tag|);
      }
  }

  lemma DropConcat(a: string, b: string, n: nat)
    requires n <= |a| + |b|
    ensures (a + b)[n..] == if n <= |a| then a[n..] + b else b[n - |a|..]
  {
  }

  /** The scan goes on in `b` in the mode it left `a` in, unless `a` never leaves the body it began in. */
  lemma ScanGoesOn(a: string, b: string, open: Option<string>)
    requires open.Some? ==> IsTag(open.value) && Find(a, open.value, 0) >= 0
    requires EndsInNewline(a)
    ensures ScanFrom(a + b, open) == EndMode(ScanFrom(a, open), b)
  {
    hide EndMode, Next, Find, Kept;
    match open
    case None => Compose(Code(false), a, b);
    case Some(tag) =>
      FindAcross(a, b, tag, 0);
      var close := Find(a, tag, 0);
      var rest := a[close + |tag|..];
      assert (a + b)[close + |tag|..] == rest + b;
      TagEndsBeforeNewline(a, tag, close);
      Compose(Code(false), rest, b);
  }

  ghost predicate Composes(a: string, b: string, open: Option<string>)
    requires open.Some? ==> IsTag(open.value)
  {
    OpenAt(a + b, open) == OpenAt(b, OpenAt(a, open))
  }

  /** The body that was open is never closed in `a`. */
  predicate Untouched(a: string, open: Option<string>) { open.Some? && Find(a, open.value, 0) < 0 }

  /** The open tag says enough for whatever may follow exactly if the first piece ends in code or leaves the
      body it began in untouched. */
  lemma TagIsEnoughIff(a: string, open: Option<string>)
    requires EndsInNewline(a) && (open.Some? ==> IsTag(open.value))
    ensures (forall b :: Composes(a, b, open)) <==> ScanFrom(a, open).Code? || Untouched(a, open)
  {
    hide ScanFrom, Find;
    if ScanFrom(a, open).Code? || Untouched(a, open) {
      forall b ensures Composes(a, b, open) {
        if ScanFrom(a, open).Code? {
          OpenQuoteComposes(a, b, open);
        } else {
          UntouchedComposes(a, b, open.value);
        }
      }
    } else {
      TagIsNotEnough(a, open);
    }
  }

  lemma UntouchedComposes(a: string, b: string, tag: string)
    requires EndsInNewline(a) && IsTag(tag) && Find(a, tag, 0) < 0
    ensures Composes(a, b, Some(tag))
  {
    hide EndMode, Find;
    FindAcross(a, b, tag, 0);
    if Find(b, tag, 0) >= 0 {
      assert (a + b)[|a| + Find(b, tag, 0) + |tag|..] == b[Find(b, tag, 0) + |tag|..];
    }
  }

  lemma TagIsNotEnough(a: string, open: Option<string>)
    requires EndsInNewline(a) && (open.Some? ==> IsTag(open.value))
    requires !ScanFrom(a, open).Code? && !Untouched(a, open)
    ensures exists b :: !Composes(a, b, open)
  {
    hide EndMode, Next, Find, ScanFrom;
    var m := ScanFrom(a, open);
    if m.InDollar? {
      var b := m.tag + "e'\\'$$";
      ScanGoesOn(a, b, open);
      ClosedBeforeEString(m.tag);
      assert !Composes(a, b, open);
    } else {
      ScanGoesOn(a, "$$", open);
      DollarsInside(m);
      assert !Composes(a, "$$", open);
    }
  }

  /** Two dollars inside a literal, a name or a comment open nothing; at the start of a piece they do. */
  lemma DollarsInside(m: Mode)
    requires ModeOk(m) && !m.Code? && !m.InDollar?
    ensures OpenTag(EndMode(m, "$$")) == None && OpenAt("$$", None) == Some("$$")
  {
    hide EndMode;
    assert "$$" + "" == "$$";
    MoveTo(m, "$$", 1, m, "$");
    MoveTo(m, "$", 1, m, "");
    Unfold(m, "");
    OpensDollar("");
    Unfold(InDollar("$$"), "");
  }

  lemma ClosedBeforeEString(tag: string)
    requires IsTag(tag)
    ensures var b := tag + "e'\\'$$";
      EndMode(InDollar(tag), b) == InDollar("$$") && OpenAt(b, Some(tag)) == None
  {
    hide EndMode, Find;
    var x := "e'\\'$$";
    MoveTo(InDollar(tag), tag + x, |tag|, Code(true), x);
    FoundHere(tag + x, tag);
    assert (tag + x)[|tag|..] == x;
    BehindTag();
    BehindNothing();
  }

  lemma TagEndsBeforeNewline(a: string, tag: string, close: nat)
    requires EndsInNewline(a) && IsTag(tag) && StandsAt(a, tag, close)
    ensures EndsInNewline(a[close + |tag|..])
  {
    assert tag[|tag| - 1] == a[close..close + |tag|][|tag| - 1] == a[close + |tag| - 1];
  }

  // ---------------------------------------------------------------------------------------------
  // Statements end without their newline
  // ---------------------------------------------------------------------------------------------

  /** A newline at the end of a statement opens or closes no dollar quote. */
  lemma {:induction false} NewlineKeepsTag(m: Mode, a: string)
    requires ModeOk(m)
    ensures OpenTag(EndMode(m, a + "\n")) == OpenTag(EndMode(m, a))
    decreases |a|
  {
    hide EndMode, Next;
    Unfold(m, a);
    Unfold(m, a + "\n");
    if a == "" {
      assert a + "\n" == "\n";
      NewlineMove(m);
      Unfold(Next(m, "\n").mode, "\n"[Next(m, "\n").n..]);
    } else {
      NextBeforeNewline(m, a);
      var mv, mv' := Next(m, a), Next(m, a + "\n");
      if mv == mv' {
        assert (a + "\n")[mv.n..] == a[mv.n..] + "\n";
        NewlineKeepsTag(mv.mode, a[mv.n..]);
      } else {
        Unfold(mv.mode, a[mv.n..]);
        Unfold(mv'.mode, (a + "\n")[mv'.n..]);
      }
    }
  }

  lemma NewlineMove(m: Mode)
    requires ModeOk(m)
    ensures Next(m, "\n").n == 1 && OpenTag(Next(m, "\n").mode) == OpenTag(m)
  {}

  lemma NextBeforeNewline(m: Mode, a: string)
    requires ModeOk(m) && a != ""
    ensures var mv, mv' := Next(m, a), Next(m, a + "\n");
            mv == mv' || (|a| == 1 && mv.mode == m == mv'.mode && mv.n == 1 && mv'.n == 2)
  {
    var an := a + "\n";
    assert an[0] == a[0];
    assert |a| >= 2 ==> an[1] == a[1];
    assert |a| == 1 ==> an[1] == '\n';
    match m {
      case Code(_) =>
        if a[0] == '$' {
          if |a| >= 2 && IsWordStart(a[1]) {
            WordEndLocal(an, "", 1);
            WordEndBeforeNewline(a, 1);
          }
          assert DollarTag(an) == DollarTag(a);
          assert an[..DollarTag(a)] == a[..DollarTag(a)];
        }
      case InDollar(tag) =>
        if tag <= an {
          PrefixWithinLine(tag, an, "");
          assert an + "" == an;
          assert tag[|tag| - 1] == an[|tag| - 1];
        }
        if |tag| <= |a| {
          assert an[..|tag|] == a[..|tag|];
        }
      case _ =>
    }
  }

  lemma {:induction false} WordEndBeforeNewline(a: string, k: nat)
    requires k <= |a|
    ensures WordEnd(a + "\n", k) == WordEnd(a, k)
    decreases |a| - k
  {
    if k < |a| && IsWordChar(a[k]) {
      WordEndBeforeNewline(a, k + 1);
    }
  }

  lemma OpenAtNewline(a: string, open: Option<string>)
    requires open.Some? ==> IsTag(open.value)
    ensures OpenAt(a + "\n", open) == OpenAt(a, open)
  {
    hide EndMode, Next;
    match open
    case None => NewlineKeepsTag(Code(false), a);
    case Some(tag) =>
      FindBeforeNewline(a, tag, 0);
      var close := Find(a, tag, 0);
      if close >= 0 {
        assert (a + "\n")[close + |tag|..] == a[close + |tag|..] + "\n";
        NewlineKeepsTag(Code(false), a[close + |tag|..]);
      }
  }

  lemma {:induction false} FindBeforeNewline(a: string, tag: string, from: nat)
    requires IsTag(tag) && from <= |a|
    ensures Find(a + "\n", tag, from) == Find(a, tag, from)
    decreases |a| - from
  {
    var an := a + "\n";
    assert StandsAt(an, tag, from) == StandsAt(a, tag, from) by {
      if from + |tag| <= |a| {
        assert an[from..from + |tag|] == a[from..from + |tag|];
      } else if from + |tag| == |an| {
        assert an[from..from + |tag|][|tag| - 1] == '\n';
      }
    }
    if from < |a| {
      FindBeforeNewline(a, tag, from + 1);
    }
  }

  // ---------------------------------------------------------------------------------------------
  // The walk over a script's statements
  // ---------------------------------------------------------------------------------------------

  /** The tag open after each of the first `k` statements was scanned on its own. */
  function WalkOpen(texts: seq<string>, k: nat): (r: Option<string>)
    requires k <= |texts|
    ensures r.Some? ==> IsTag(r.value)
  {
    if k == 0 then None else OpenAt(texts[k - 1], WalkOpen(texts, k - 1))
  }

  /** The issues for the first `k` statements: the index of each that leaves a quote open when none was
      open before it, with the tag. */
  function Openings(texts: seq<string>, k: nat): seq<(nat, string)>
    requires k <= |texts|
  {
    if k == 0 then []
    else
      Openings(texts, k - 1)
      + if WalkOpen(texts, k - 1).None? && WalkOpen(texts, k).Some? then [(k - 1, WalkOpen(texts, k).value)] else []
  }

  /** `_check_split_dollar_quotes` over the texts of a script's statements. */
  method CheckSplitDollarQuotes(texts: seq<string>) returns (issues: seq<(nat, string)>)
    ensures issues == Openings(texts, |texts|)
  {
    hide OpenAt;
    issues := [];
    var openTag: Option<string> := None;
    for k := 0 to |texts|
      invariant openTag == WalkOpen(texts, k)
      invariant issues == Openings(texts, k)
    {
      var wasOpen := openTag;
      openTag := OpenDollarQuote(texts[k], openTag);
      if wasOpen.None? && openTag.Some? {
        issues := issues + [(k, openTag.value)];
      }
    }
  }

  /** The text of the first `k` statements, each on lines of its own. */
  function TextOf(texts: seq<string>, k: nat): string
    requires k <= |texts|
  {
    if k == 0 then "" else TextOf(texts, k - 1) + texts[k - 1] + "\n"
  }

  /** Before each statement but the first, the text so far leaves nothing open but a dollar quote. */
  ghost predicate CleanSplits(texts: seq<string>, n: nat)
    requires n <= |texts|
  {
    forall k: nat :: 0 < k < n ==> CarriesOver(EndMode(Code(false), TextOf(texts, k)), texts[k] + "\n")
  }

  /** After any number of statements the walk holds the tag that is open in the whole text up to there. */
  lemma {:induction false} WalkSeesWholeText(texts: seq<string>, n: nat)
    requires n <= |texts| && CleanSplits(texts, n)
    ensures WalkOpen(texts, n) == OpenAt(TextOf(texts, n), None)
    decreases n
  {
    hide EndMode, Next, CarriesOver;
    if n == 0 {
      Unfold(Code(false), "");
    } else {
      var before, text := TextOf(texts, n - 1), texts[n - 1];
      WalkSeesWholeText(texts, n - 1);
      OpenAtNewline(text, OpenAt(before, None));
      assert TextOf(texts, n) == before + (text + "\n");
      if n == 1 {
        assert before + (text + "\n") == text + "\n";
      } else {
        OpenQuoteComposes(before, text + "\n", None);
      }
    }
  }

  /** So an issue is reported for exactly the statements at which the text opens a dollar quote that is
      still open behind them. */
  lemma {:induction false} ReportsWhereTheTextOpens(texts: seq<string>, n: nat, i: nat, tag: string)
    requires n <= |texts| && CleanSplits(texts, n)
    ensures (i, tag) in Openings(texts, n) <==>
              i < n && OpenAt(TextOf(texts, i), None) == None && OpenAt(TextOf(texts, i + 1), None) == Some(tag)
    decreases n
  {
    hide OpenAt, TextOf, CarriesOver;
    if n > 0 {
      ReportsWhereTheTextOpens(texts, n - 1, i, tag);
      WalkSeesWholeText(texts, n - 1);
      WalkSeesWholeText(texts, n);
    }
  }

  // ---------------------------------------------------------------------------------------------
  // Where the tag is not enough
  // ---------------------------------------------------------------------------------------------

  /** A first piece that ends inside a literal, and one whose body closes right before an `e'`. */
  lemma PiecesMayDiffer()
    ensures OpenAt("'\n" + "$$", None) == None && OpenAt("$$", OpenAt("'\n", None)) == Some("$$")
    ensures OpenAt("$$\n" + "$$e'\\'$$", None) == Some("$$") && OpenAt("$$e'\\'$$", OpenAt("$$\n", None)) == None
  {
    hide EndMode, Find, Next;
    QuoteOpens();
    ScanGoesOn("'\n", "$$", None);
    DollarsInside(InPlain);
    BodyOpens();
    ClosedBeforeEString("$$");
    assert "$$" + "e'\\'$$" == "$$e'\\'$$";
    ScanGoesOn("$$\n", "$$e'\\'$$", None);
  }

  lemma QuoteOpens()
    ensures EndMode(Code(false), "'\n") == InPlain
  {
    hide EndMode;
    MoveTo(Code(false), "'\n", 1, InPlain, "\n");
    MoveTo(InPlain, "\n", 1, InPlain, "");
    Unfold(InPlain, "");
  }

  lemma BodyOpens()
    ensures EndMode(Code(false), "$$\n") == InDollar("$$")
  {
    hide EndMode;
    assert "$$" + "\n" == "$$\n";
    OpensDollar("\n");
    MoveTo(InDollar("$$"), "\n", 1, InDollar("$$"), "");
    Unfold(InDollar("$$"), "");
  }

  /** Two statements of a script, cut inside a literal: the second is reported, though the text they make up
      opens nothing. */
  lemma WalkMayReportWrongly()
    ensures var texts := ["';", "$$';"];
      Openings(texts, 2) == [(1, "$$")] && OpenAt(TextOf(texts, 2), None) == None
  {
    hide EndMode, Next;
    var texts := ["';", "$$';"];
    InsideLiteral();
    InsideBody();
    assert WalkOpen(texts, 0) == None && WalkOpen(texts, 1) == None && WalkOpen(texts, 2) == Some("$$");
    assert Openings(texts, 1) == [];
    BothStatements();
    assert TextOf(texts, 0) == "" && TextOf(texts, 1) == "';\n" && TextOf(texts, 2) == "';\n$$';\n";
  }

  /** What the walk holds behind its statements is enough for whatever may follow exactly if the text so far ends
      in code and nothing is held. */
  lemma WalkIsEnoughIff(texts: seq<string>)
    requires texts != []
    ensures var text, held := TextOf(texts, |texts|), WalkOpen(texts, |texts|);
            (forall b :: OpenAt(b, held) == OpenAt(text + b, None))
            <==> EndMode(Code(false), text).Code? && held == None
  {
    hide EndMode, Find, WalkOpen;
    var text, held := TextOf(texts, |texts|), WalkOpen(texts, |texts|);
    TagIsEnoughIff(text, None);
    if forall b :: OpenAt(b, held) == OpenAt(text + b, None) {
      assert OpenAt("", held) == OpenAt(text + "", None) && text + "" == text;
      NothingAdded(held);
      forall b ensures Composes(text, b, None) {
        assert OpenAt(b, held) == OpenAt(text + b, None);
      }
    }
    if EndMode(Code(false), text).Code? && held == None {
      forall b ensures OpenAt(b, held) == OpenAt(text + b, None) {
        assert Composes(text, b, None);
      }
    }
  }

  lemma NothingAdded(open: Option<string>)
    requires open.Some? ==> IsTag(open.value)
    ensures OpenAt("", open) == open
  {
  }

  lemma InsideLiteral()
    ensures EndMode(Code(false), "';") == InPlain
  {
    hide EndMode;
    MoveTo(Code(false), "';", 1, InPlain, ";");
    MoveTo(InPlain, ";", 1, InPlain, "");
    Unfold(InPlain, "");
  }

  lemma InsideBody()
    ensures EndMode(Code(false), "$$';") == InDollar("$$")
  {
    hide EndMode;
    assert "$$" + "';" == "$$';";
    OpensDollar("';");
    MoveTo(InDollar("$$"), "';", 1, InDollar("$$"), ";");
    MoveTo(InDollar("$$"), ";", 1, InDollar("$$"), "");
    Unfold(InDollar("$$"), "");
  }

  lemma BothStatements()
    ensures EndMode(Code(false), "';\n$$';\n") == Code(false)
  {
    hide EndMode;
    MoveTo(Code(false), "';\n$$';\n", 1, InPlain, ";\n$$';\n");
    MoveTo(InPlain, ";\n$$';\n", 1, InPlain, "\n$$';\n");
    MoveTo(InPlain, "\n$$';\n", 1, InPlain, "$$';\n");
    SecondStatement();
  }

  lemma SecondStatement()
    ensures EndMode(InPlain, "$$';\n") == Code(false)
  {
    hide EndMode;
    MoveTo(InPlain, "$$';\n", 1, InPlain, "$';\n");
    MoveTo(InPlain, "$';\n", 1, InPlain, "';\n");
    MoveTo(InPlain, "';\n", 1, Code(false), ";\n");
    MoveTo(Code(false), ";\n", 1, Code(false), "\n");
    MoveTo(Code(false), "\n", 1, Code(false), "");
    Unfold(Code(false), "");
  }

  lemma OpensDollar(rest: string)
    ensures EndMode(Code(false), "$$" + rest) == EndMode(InDollar("$$"), rest)
  {
    MoveTo(Code(false), "$$" + rest, 2, InDollar("$$"), rest);
  }

  lemma FoundHere(s: string, sub: string)
    requires sub <= s
    ensures Find(s, sub, 0) == 0
  {
    assert s[0..|sub|] == sub;
  }

  lemma BehindTag()
    ensures EndMode(Code(true), "e'\\'$$") == InDollar("$$")
  {
    hide EndMode;
    MoveTo(Code(true), "e'\\'$$", 1, Code(true), "'\\'$$");
    MoveTo(Code(true), "'\\'$$", 1, InPlain, "\\'$$");
    MoveTo(InPlain, "\\'$$", 1, InPlain, "'$$");
    MoveTo(InPlain, "'$$", 1, Code(false), "$$");
    OpensDollar("");
    assert "$$" + "" == "$$";
    Unfold(InDollar("$$"), "");
  }

  lemma BehindNothing()
    ensures EndMode(Code(false), "e'\\'$$") == InEString
  {
    hide EndMode;
    MoveTo(Code(false), "e'\\'$$", 2, InEString, "\\'$$");
    MoveTo(InEString, "\\'$$", 2, InEString, "$$");
    MoveTo(InEString, "$$", 1, InEString, "$");
    MoveTo(InEString, "$", 1, InEString, "");
    Unfold(InEString, "");
  }
}
